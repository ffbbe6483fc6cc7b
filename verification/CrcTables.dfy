/** The constant tables, sixteen rows of sixteen entries, and what they denote. */
module CrcTables {
  import opened Words
  import opened Gf2
  import opened CrcWords
  import opened Crc

  const CRC_7BIT_SD: seq<seq<word>> := [
    [0x00, 0x12, 0x24, 0x36, 0x48, 0x5a, 0x6c, 0x7e, 0x90, 0x82, 0xb4, 0xa6, 0xd8, 0xca, 0xfc, 0xee],
    [0x32, 0x20, 0x16, 0x04, 0x7a, 0x68, 0x5e, 0x4c, 0xa2, 0xb0, 0x86, 0x94, 0xea, 0xf8, 0xce, 0xdc],
    [0x64, 0x76, 0x40, 0x52, 0x2c, 0x3e, 0x08, 0x1a, 0xf4, 0xe6, 0xd0, 0xc2, 0xbc, 0xae, 0x98, 0x8a],
    [0x56, 0x44, 0x72, 0x60, 0x1e, 0x0c, 0x3a, 0x28, 0xc6, 0xd4, 0xe2, 0xf0, 0x8e, 0x9c, 0xaa, 0xb8],
    [0xc8, 0xda, 0xec, 0xfe, 0x80, 0x92, 0xa4, 0xb6, 0x58, 0x4a, 0x7c, 0x6e, 0x10, 0x02, 0x34, 0x26],
    [0xfa, 0xe8, 0xde, 0xcc, 0xb2, 0xa0, 0x96, 0x84, 0x6a, 0x78, 0x4e, 0x5c, 0x22, 0x30, 0x06, 0x14],
    [0xac, 0xbe, 0x88, 0x9a, 0xe4, 0xf6, 0xc0, 0xd2, 0x3c, 0x2e, 0x18, 0x0a, 0x74, 0x66, 0x50, 0x42],
    [0x9e, 0x8c, 0xba, 0xa8, 0xd6, 0xc4, 0xf2, 0xe0, 0x0e, 0x1c, 0x2a, 0x38, 0x46, 0x54, 0x62, 0x70],
    [0x82, 0x90, 0xa6, 0xb4, 0xca, 0xd8, 0xee, 0xfc, 0x12, 0x00, 0x36, 0x24, 0x5a, 0x48, 0x7e, 0x6c],
    [0xb0, 0xa2, 0x94, 0x86, 0xf8, 0xea, 0xdc, 0xce, 0x20, 0x32, 0x04, 0x16, 0x68, 0x7a, 0x4c, 0x5e],
    [0xe6, 0xf4, 0xc2, 0xd0, 0xae, 0xbc, 0x8a, 0x98, 0x76, 0x64, 0x52, 0x40, 0x3e, 0x2c, 0x1a, 0x08],
    [0xd4, 0xc6, 0xf0, 0xe2, 0x9c, 0x8e, 0xb8, 0xaa, 0x44, 0x56, 0x60, 0x72, 0x0c, 0x1e, 0x28, 0x3a],
    [0x4a, 0x58, 0x6e, 0x7c, 0x02, 0x10, 0x26, 0x34, 0xda, 0xc8, 0xfe, 0xec, 0x92, 0x80, 0xb6, 0xa4],
    [0x78, 0x6a, 0x5c, 0x4e, 0x30, 0x22, 0x14, 0x06, 0xe8, 0xfa, 0xcc, 0xde, 0xa0, 0xb2, 0x84, 0x96],
    [0x2e, 0x3c, 0x0a, 0x18, 0x66, 0x74, 0x42, 0x50, 0xbe, 0xac, 0x9a, 0x88, 0xf6, 0xe4, 0xd2, 0xc0],
    [0x1c, 0x0e, 0x38, 0x2a, 0x54, 0x46, 0x70, 0x62, 0x8c, 0x9e, 0xa8, 0xba, 0xc4, 0xd6, 0xe0, 0xf2]
  ]

  const CRC_8BIT_CCITT: seq<seq<word>> := [
    [0x00, 0x07, 0x0e, 0x09, 0x1c, 0x1b, 0x12, 0x15, 0x38, 0x3f, 0x36, 0x31, 0x24, 0x23, 0x2a, 0x2d],
    [0x70, 0x77, 0x7e, 0x79, 0x6c, 0x6b, 0x62, 0x65, 0x48, 0x4f, 0x46, 0x41, 0x54, 0x53, 0x5a, 0x5d],
    [0xe0, 0xe7, 0xee, 0xe9, 0xfc, 0xfb, 0xf2, 0xf5, 0xd8, 0xdf, 0xd6, 0xd1, 0xc4, 0xc3, 0xca, 0xcd],
    [0x90, 0x97, 0x9e, 0x99, 0x8c, 0x8b, 0x82, 0x85, 0xa8, 0xaf, 0xa6, 0xa1, 0xb4, 0xb3, 0xba, 0xbd],
    [0xc7, 0xc0, 0xc9, 0xce, 0xdb, 0xdc, 0xd5, 0xd2, 0xff, 0xf8, 0xf1, 0xf6, 0xe3, 0xe4, 0xed, 0xea],
    [0xb7, 0xb0, 0xb9, 0xbe, 0xab, 0xac, 0xa5, 0xa2, 0x8f, 0x88, 0x81, 0x86, 0x93, 0x94, 0x9d, 0x9a],
    [0x27, 0x20, 0x29, 0x2e, 0x3b, 0x3c, 0x35, 0x32, 0x1f, 0x18, 0x11, 0x16, 0x03, 0x04, 0x0d, 0x0a],
    [0x57, 0x50, 0x59, 0x5e, 0x4b, 0x4c, 0x45, 0x42, 0x6f, 0x68, 0x61, 0x66, 0x73, 0x74, 0x7d, 0x7a],
    [0x89, 0x8e, 0x87, 0x80, 0x95, 0x92, 0x9b, 0x9c, 0xb1, 0xb6, 0xbf, 0xb8, 0xad, 0xaa, 0xa3, 0xa4],
    [0xf9, 0xfe, 0xf7, 0xf0, 0xe5, 0xe2, 0xeb, 0xec, 0xc1, 0xc6, 0xcf, 0xc8, 0xdd, 0xda, 0xd3, 0xd4],
    [0x69, 0x6e, 0x67, 0x60, 0x75, 0x72, 0x7b, 0x7c, 0x51, 0x56, 0x5f, 0x58, 0x4d, 0x4a, 0x43, 0x44],
    [0x19, 0x1e, 0x17, 0x10, 0x05, 0x02, 0x0b, 0x0c, 0x21, 0x26, 0x2f, 0x28, 0x3d, 0x3a, 0x33, 0x34],
    [0x4e, 0x49, 0x40, 0x47, 0x52, 0x55, 0x5c, 0x5b, 0x76, 0x71, 0x78, 0x7f, 0x6a, 0x6d, 0x64, 0x63],
    [0x3e, 0x39, 0x30, 0x37, 0x22, 0x25, 0x2c, 0x2b, 0x06, 0x01, 0x08, 0x0f, 0x1a, 0x1d, 0x14, 0x13],
    [0xae, 0xa9, 0xa0, 0xa7, 0xb2, 0xb5, 0xbc, 0xbb, 0x96, 0x91, 0x98, 0x9f, 0x8a, 0x8d, 0x84, 0x83],
    [0xde, 0xd9, 0xd0, 0xd7, 0xc2, 0xc5, 0xcc, 0xcb, 0xe6, 0xe1, 0xe8, 0xef, 0xfa, 0xfd, 0xf4, 0xf3]
  ]

  const CRC_16BIT_CCITT: seq<seq<word>> := [
    [0x0000, 0x1021, 0x2042, 0x3063, 0x4084, 0x50a5, 0x60c6, 0x70e7, 0x8108, 0x9129, 0xa14a, 0xb16b, 0xc18c, 0xd1ad, 0xe1ce, 0xf1ef],
    [0x1231, 0x0210, 0x3273, 0x2252, 0x52b5, 0x4294, 0x72f7, 0x62d6, 0x9339, 0x8318, 0xb37b, 0xa35a, 0xd3bd, 0xc39c, 0xf3ff, 0xe3de],
    [0x2462, 0x3443, 0x0420, 0x1401, 0x64e6, 0x74c7, 0x44a4, 0x5485, 0xa56a, 0xb54b, 0x8528, 0x9509, 0xe5ee, 0xf5cf, 0xc5ac, 0xd58d],
    [0x3653, 0x2672, 0x1611, 0x0630, 0x76d7, 0x66f6, 0x5695, 0x46b4, 0xb75b, 0xa77a, 0x9719, 0x8738, 0xf7df, 0xe7fe, 0xd79d, 0xc7bc],
    [0x48c4, 0x58e5, 0x6886, 0x78a7, 0x0840, 0x1861, 0x2802, 0x3823, 0xc9cc, 0xd9ed, 0xe98e, 0xf9af, 0x8948, 0x9969, 0xa90a, 0xb92b],
    [0x5af5, 0x4ad4, 0x7ab7, 0x6a96, 0x1a71, 0x0a50, 0x3a33, 0x2a12, 0xdbfd, 0xcbdc, 0xfbbf, 0xeb9e, 0x9b79, 0x8b58, 0xbb3b, 0xab1a],
    [0x6ca6, 0x7c87, 0x4ce4, 0x5cc5, 0x2c22, 0x3c03, 0x0c60, 0x1c41, 0xedae, 0xfd8f, 0xcdec, 0xddcd, 0xad2a, 0xbd0b, 0x8d68, 0x9d49],
    [0x7e97, 0x6eb6, 0x5ed5, 0x4ef4, 0x3e13, 0x2e32, 0x1e51, 0x0e70, 0xff9f, 0xefbe, 0xdfdd, 0xcffc, 0xbf1b, 0xaf3a, 0x9f59, 0x8f78],
    [0x9188, 0x81a9, 0xb1ca, 0xa1eb, 0xd10c, 0xc12d, 0xf14e, 0xe16f, 0x1080, 0x00a1, 0x30c2, 0x20e3, 0x5004, 0x4025, 0x7046, 0x6067],
    [0x83b9, 0x9398, 0xa3fb, 0xb3da, 0xc33d, 0xd31c, 0xe37f, 0xf35e, 0x02b1, 0x1290, 0x22f3, 0x32d2, 0x4235, 0x5214, 0x6277, 0x7256],
    [0xb5ea, 0xa5cb, 0x95a8, 0x8589, 0xf56e, 0xe54f, 0xd52c, 0xc50d, 0x34e2, 0x24c3, 0x14a0, 0x0481, 0x7466, 0x6447, 0x5424, 0x4405],
    [0xa7db, 0xb7fa, 0x8799, 0x97b8, 0xe75f, 0xf77e, 0xc71d, 0xd73c, 0x26d3, 0x36f2, 0x0691, 0x16b0, 0x6657, 0x7676, 0x4615, 0x5634],
    [0xd94c, 0xc96d, 0xf90e, 0xe92f, 0x99c8, 0x89e9, 0xb98a, 0xa9ab, 0x5844, 0x4865, 0x7806, 0x6827, 0x18c0, 0x08e1, 0x3882, 0x28a3],
    [0xcb7d, 0xdb5c, 0xeb3f, 0xfb1e, 0x8bf9, 0x9bd8, 0xabbb, 0xbb9a, 0x4a75, 0x5a54, 0x6a37, 0x7a16, 0x0af1, 0x1ad0, 0x2ab3, 0x3a92],
    [0xfd2e, 0xed0f, 0xdd6c, 0xcd4d, 0xbdaa, 0xad8b, 0x9de8, 0x8dc9, 0x7c26, 0x6c07, 0x5c64, 0x4c45, 0x3ca2, 0x2c83, 0x1ce0, 0x0cc1],
    [0xef1f, 0xff3e, 0xcf5d, 0xdf7c, 0xaf9b, 0xbfba, 0x8fd9, 0x9ff8, 0x6e17, 0x7e36, 0x4e55, 0x5e74, 0x2e93, 0x3eb2, 0x0ed1, 0x1ef0]
  ]

  /** The full IBM table. */
  const IBM_COMPLETED: seq<seq<word>> := [
    [0x0000, 0x8005, 0x800f, 0x000a, 0x801b, 0x001e, 0x0014, 0x8011, 0x8033, 0x0036, 0x003c, 0x8039, 0x0028, 0x802d, 0x8027, 0x0022],
    [0x8063, 0x0066, 0x006c, 0x8069, 0x0078, 0x807d, 0x8077, 0x0072, 0x0050, 0x8055, 0x805f, 0x005a, 0x804b, 0x004e, 0x0044, 0x8041],
    [0x80c3, 0x00c6, 0x00cc, 0x80c9, 0x00d8, 0x80dd, 0x80d7, 0x00d2, 0x00f0, 0x80f5, 0x80ff, 0x00fa, 0x80eb, 0x00ee, 0x00e4, 0x80e1],
    [0x00a0, 0x80a5, 0x80af, 0x00aa, 0x80bb, 0x00be, 0x00b4, 0x80b1, 0x8093, 0x0096, 0x009c, 0x8099, 0x0088, 0x808d, 0x8087, 0x0082],
    [0x8183, 0x0186, 0x018c, 0x8189, 0x0198, 0x819d, 0x8197, 0x0192, 0x01b0, 0x81b5, 0x81bf, 0x01ba, 0x81ab, 0x01ae, 0x01a4, 0x81a1],
    [0x01e0, 0x81e5, 0x81ef, 0x01ea, 0x81fb, 0x01fe, 0x01f4, 0x81f1, 0x81d3, 0x01d6, 0x01dc, 0x81d9, 0x01c8, 0x81cd, 0x81c7, 0x01c2],
    [0x0140, 0x8145, 0x814f, 0x014a, 0x815b, 0x015e, 0x0154, 0x8151, 0x8173, 0x0176, 0x017c, 0x8179, 0x0168, 0x816d, 0x8167, 0x0162],
    [0x8123, 0x0126, 0x012c, 0x8129, 0x0138, 0x813d, 0x8137, 0x0132, 0x0110, 0x8115, 0x811f, 0x011a, 0x810b, 0x010e, 0x0104, 0x8101],
    [0x8303, 0x0306, 0x030c, 0x8309, 0x0318, 0x831d, 0x8317, 0x0312, 0x0330, 0x8335, 0x833f, 0x033a, 0x832b, 0x032e, 0x0324, 0x8321],
    [0x0360, 0x8365, 0x836f, 0x036a, 0x837b, 0x037e, 0x0374, 0x8371, 0x8353, 0x0356, 0x035c, 0x8359, 0x0348, 0x834d, 0x8347, 0x0342],
    [0x03c0, 0x83c5, 0x83cf, 0x03ca, 0x83db, 0x03de, 0x03d4, 0x83d1, 0x83f3, 0x03f6, 0x03fc, 0x83f9, 0x03e8, 0x83ed, 0x83e7, 0x03e2],
    [0x83a3, 0x03a6, 0x03ac, 0x83a9, 0x03b8, 0x83bd, 0x83b7, 0x03b2, 0x0390, 0x8395, 0x839f, 0x039a, 0x838b, 0x038e, 0x0384, 0x8381],
    [0x0280, 0x8285, 0x828f, 0x028a, 0x829b, 0x029e, 0x0294, 0x8291, 0x82b3, 0x02b6, 0x02bc, 0x82b9, 0x02a8, 0x82ad, 0x82a7, 0x02a2],
    [0x82e3, 0x02e6, 0x02ec, 0x82e9, 0x02f8, 0x82fd, 0x82f7, 0x02f2, 0x02d0, 0x82d5, 0x82df, 0x02da, 0x82cb, 0x02ce, 0x02c4, 0x82c1],
    [0x8243, 0x0246, 0x024c, 0x8249, 0x0258, 0x825d, 0x8257, 0x0252, 0x0270, 0x8275, 0x827f, 0x027a, 0x826b, 0x026e, 0x0264, 0x8261],
    [0x0220, 0x8225, 0x822f, 0x022a, 0x823b, 0x023e, 0x0234, 0x8231, 0x8213, 0x0216, 0x021c, 0x8219, 0x0208, 0x820d, 0x8207, 0x0202]
  ]

  /** The table as the source has it: its initialiser lists 252 entries, and the
      language sets the other four to zero. */
  const CRC_16BIT_IBM: seq<seq<word>> := IBM_COMPLETED[15 := IBM_COMPLETED[15][..12] + [0, 0, 0, 0]]

  const CRC_32BIT_ANSI: seq<seq<word>> := [
    [0x00000000, 0x04c11db7, 0x09823b6e, 0x0d4326d9, 0x130476dc, 0x17c56b6b, 0x1a864db2, 0x1e475005,
     0x2608edb8, 0x22c9f00f, 0x2f8ad6d6, 0x2b4bcb61, 0x350c9b64, 0x31cd86d3, 0x3c8ea00a, 0x384fbdbd],
    [0x4c11db70, 0x48d0c6c7, 0x4593e01e, 0x4152fda9, 0x5f15adac, 0x5bd4b01b, 0x569796c2, 0x52568b75,
     0x6a1936c8, 0x6ed82b7f, 0x639b0da6, 0x675a1011, 0x791d4014, 0x7ddc5da3, 0x709f7b7a, 0x745e66cd],
    [0x9823b6e0, 0x9ce2ab57, 0x91a18d8e, 0x95609039, 0x8b27c03c, 0x8fe6dd8b, 0x82a5fb52, 0x8664e6e5,
     0xbe2b5b58, 0xbaea46ef, 0xb7a96036, 0xb3687d81, 0xad2f2d84, 0xa9ee3033, 0xa4ad16ea, 0xa06c0b5d],
    [0xd4326d90, 0xd0f37027, 0xddb056fe, 0xd9714b49, 0xc7361b4c, 0xc3f706fb, 0xceb42022, 0xca753d95,
     0xf23a8028, 0xf6fb9d9f, 0xfbb8bb46, 0xff79a6f1, 0xe13ef6f4, 0xe5ffeb43, 0xe8bccd9a, 0xec7dd02d],
    [0x34867077, 0x30476dc0, 0x3d044b19, 0x39c556ae, 0x278206ab, 0x23431b1c, 0x2e003dc5, 0x2ac12072,
     0x128e9dcf, 0x164f8078, 0x1b0ca6a1, 0x1fcdbb16, 0x018aeb13, 0x054bf6a4, 0x0808d07d, 0x0cc9cdca],
    [0x7897ab07, 0x7c56b6b0, 0x71159069, 0x75d48dde, 0x6b93dddb, 0x6f52c06c, 0x6211e6b5, 0x66d0fb02,
     0x5e9f46bf, 0x5a5e5b08, 0x571d7dd1, 0x53dc6066, 0x4d9b3063, 0x495a2dd4, 0x44190b0d, 0x40d816ba],
    [0xaca5c697, 0xa864db20, 0xa527fdf9, 0xa1e6e04e, 0xbfa1b04b, 0xbb60adfc, 0xb6238b25, 0xb2e29692,
     0x8aad2b2f, 0x8e6c3698, 0x832f1041, 0x87ee0df6, 0x99a95df3, 0x9d684044, 0x902b669d, 0x94ea7b2a],
    [0xe0b41de7, 0xe4750050, 0xe9362689, 0xedf73b3e, 0xf3b06b3b, 0xf771768c, 0xfa325055, 0xfef34de2,
     0xc6bcf05f, 0xc27dede8, 0xcf3ecb31, 0xcbffd686, 0xd5b88683, 0xd1799b34, 0xdc3abded, 0xd8fba05a],
    [0x690ce0ee, 0x6dcdfd59, 0x608edb80, 0x644fc637, 0x7a089632, 0x7ec98b85, 0x738aad5c, 0x774bb0eb,
     0x4f040d56, 0x4bc510e1, 0x46863638, 0x42472b8f, 0x5c007b8a, 0x58c1663d, 0x558240e4, 0x51435d53],
    [0x251d3b9e, 0x21dc2629, 0x2c9f00f0, 0x285e1d47, 0x36194d42, 0x32d850f5, 0x3f9b762c, 0x3b5a6b9b,
     0x0315d626, 0x07d4cb91, 0x0a97ed48, 0x0e56f0ff, 0x1011a0fa, 0x14d0bd4d, 0x19939b94, 0x1d528623],
    [0xf12f560e, 0xf5ee4bb9, 0xf8ad6d60, 0xfc6c70d7, 0xe22b20d2, 0xe6ea3d65, 0xeba91bbc, 0xef68060b,
     0xd727bbb6, 0xd3e6a601, 0xdea580d8, 0xda649d6f, 0xc423cd6a, 0xc0e2d0dd, 0xcda1f604, 0xc960ebb3],
    [0xbd3e8d7e, 0xb9ff90c9, 0xb4bcb610, 0xb07daba7, 0xae3afba2, 0xaafbe615, 0xa7b8c0cc, 0xa379dd7b,
     0x9b3660c6, 0x9ff77d71, 0x92b45ba8, 0x9675461f, 0x8832161a, 0x8cf30bad, 0x81b02d74, 0x857130c3],
    [0x5d8a9099, 0x594b8d2e, 0x5408abf7, 0x50c9b640, 0x4e8ee645, 0x4a4ffbf2, 0x470cdd2b, 0x43cdc09c,
     0x7b827d21, 0x7f436096, 0x7200464f, 0x76c15bf8, 0x68860bfd, 0x6c47164a, 0x61043093, 0x65c52d24],
    [0x119b4be9, 0x155a565e, 0x18197087, 0x1cd86d30, 0x029f3d35, 0x065e2082, 0x0b1d065b, 0x0fdc1bec,
     0x3793a651, 0x3352bbe6, 0x3e119d3f, 0x3ad08088, 0x2497d08d, 0x2056cd3a, 0x2d15ebe3, 0x29d4f654],
    [0xc5a92679, 0xc1683bce, 0xcc2b1d17, 0xc8ea00a0, 0xd6ad50a5, 0xd26c4d12, 0xdf2f6bcb, 0xdbee767c,
     0xe3a1cbc1, 0xe760d676, 0xea23f0af, 0xeee2ed18, 0xf0a5bd1d, 0xf464a0aa, 0xf9278673, 0xfde69bc4],
    [0x89b8fd09, 0x8d79e0be, 0x803ac667, 0x84fbdbd0, 0x9abc8bd5, 0x9e7d9662, 0x933eb0bb, 0x97ffad0c,
     0xafb010b1, 0xab710d06, 0xa6322bdf, 0xa2f33668, 0xbcb4666d, 0xb8757bda, 0xb5365d03, 0xb1f740b4]
  ]

  ghost predicate Shape(rows: seq<seq<word>>) {
    |rows| == 16 && forall r | 0 <= r < 16 :: |rows[r]| == 16
  }

  /** The table as one array. */
  function Flat(rows: seq<seq<word>>): (t: seq<word>)
    requires Shape(rows)
    ensures |t| == 256
  {
    seq(256, i requires 0 <= i < 256 => rows[i / 16][i % 16])
  }

  // ---------------------------------------------------------------------
  // Checks on the constants: few enough shifts and sums to fix every entry
  // ---------------------------------------------------------------------

  /** t is h after one step of division. */
  predicate Shifted(h: word, t: word, poly: word, top: word, mask: word) {
    t == ((h << 1) ^ (if h & top != 0 then poly else 0)) & mask
  }

  /** Entry 2i is entry i shifted, entry 2i + 1 adds entry 1. */
  predicate Doubling(c: seq<word>, poly: word, top: word, mask: word) {
    && |c| == 16 && c[0] == 0
    && Shifted(c[1], c[2], poly, top, mask) && c[3] == Sum(c[2], c[1])
    && Shifted(c[2], c[4], poly, top, mask) && c[5] == Sum(c[4], c[1])
    && Shifted(c[3], c[6], poly, top, mask) && c[7] == Sum(c[6], c[1])
    && Shifted(c[4], c[8], poly, top, mask) && c[9] == Sum(c[8], c[1])
    && Shifted(c[5], c[10], poly, top, mask) && c[11] == Sum(c[10], c[1])
    && Shifted(c[6], c[12], poly, top, mask) && c[13] == Sum(c[12], c[1])
    && Shifted(c[7], c[14], poly, top, mask) && c[15] == Sum(c[14], c[1])
  }

  function FirstColumn(rows: seq<seq<word>>): seq<word>
    requires |rows| == 16 && forall r | 0 <= r < 16 :: |rows[r]| > 0
  {
    [rows[0][0], rows[1][0], rows[2][0], rows[3][0], rows[4][0], rows[5][0], rows[6][0], rows[7][0],
     rows[8][0], rows[9][0], rows[10][0], rows[11][0], rows[12][0], rows[13][0], rows[14][0], rows[15][0]]
  }

  /** The first row and the first column are right. */
  predicate Borders(rows: seq<seq<word>>, poly: word, top: word, mask: word) {
    && |rows| == 16 && (forall r | 0 <= r < 16 :: |rows[r]| == 16)
    && Doubling(rows[0], poly, top, mask) && rows[0][1] == poly
    && Doubling(FirstColumn(rows), poly, top, mask) && Shifted(rows[0][8], rows[1][0], poly, top, mask)
  }

  /** Every entry of a row adds the row's first entry to the first row's. */
  predicate RowSum(base: seq<word>, row: seq<word>) {
    && |base| == |row| == 16
    && row[1] == Sum(base[1], row[0]) && row[2] == Sum(base[2], row[0]) && row[3] == Sum(base[3], row[0])
    && row[4] == Sum(base[4], row[0]) && row[5] == Sum(base[5], row[0]) && row[6] == Sum(base[6], row[0])
    && row[7] == Sum(base[7], row[0]) && row[8] == Sum(base[8], row[0]) && row[9] == Sum(base[9], row[0])
    && row[10] == Sum(base[10], row[0]) && row[11] == Sum(base[11], row[0]) && row[12] == Sum(base[12], row[0])
    && row[13] == Sum(base[13], row[0]) && row[14] == Sum(base[14], row[0]) && row[15] == Sum(base[15], row[0])
  }

  predicate Rows1To3(rows: seq<seq<word>>) {
    && |rows| == 16
    && RowSum(rows[0], rows[1]) && RowSum(rows[0], rows[2]) && RowSum(rows[0], rows[3])
  }

  predicate Rows4To6(rows: seq<seq<word>>) {
    && |rows| == 16
    && RowSum(rows[0], rows[4]) && RowSum(rows[0], rows[5]) && RowSum(rows[0], rows[6])
  }

  predicate Rows7To9(rows: seq<seq<word>>) {
    && |rows| == 16
    && RowSum(rows[0], rows[7]) && RowSum(rows[0], rows[8]) && RowSum(rows[0], rows[9])
  }

  predicate Rows10To12(rows: seq<seq<word>>) {
    && |rows| == 16
    && RowSum(rows[0], rows[10]) && RowSum(rows[0], rows[11]) && RowSum(rows[0], rows[12])
  }

  predicate Rows13To15(rows: seq<seq<word>>) {
    && |rows| == 16
    && RowSum(rows[0], rows[13]) && RowSum(rows[0], rows[14]) && RowSum(rows[0], rows[15])
  }

  lemma SdBorders() ensures Borders(CRC_7BIT_SD, 0x12, 0x80, 0xff) {}
  lemma SdRows1() ensures Rows1To3(CRC_7BIT_SD) {}
  lemma SdRows4() ensures Rows4To6(CRC_7BIT_SD) {}
  lemma SdRows7() ensures Rows7To9(CRC_7BIT_SD) {}
  lemma SdRows10() ensures Rows10To12(CRC_7BIT_SD) {}
  lemma SdRows13() ensures Rows13To15(CRC_7BIT_SD) {}

  lemma Ccitt8Borders() ensures Borders(CRC_8BIT_CCITT, 0x07, 0x80, 0xff) {}
  lemma Ccitt8Rows1() ensures Rows1To3(CRC_8BIT_CCITT) {}
  lemma Ccitt8Rows4() ensures Rows4To6(CRC_8BIT_CCITT) {}
  lemma Ccitt8Rows7() ensures Rows7To9(CRC_8BIT_CCITT) {}
  lemma Ccitt8Rows10() ensures Rows10To12(CRC_8BIT_CCITT) {}
  lemma Ccitt8Rows13() ensures Rows13To15(CRC_8BIT_CCITT) {}

  lemma Ccitt16Borders() ensures Borders(CRC_16BIT_CCITT, 0x1021, 0x8000, 0xffff) {}
  lemma Ccitt16Rows1() ensures Rows1To3(CRC_16BIT_CCITT) {}
  lemma Ccitt16Rows4() ensures Rows4To6(CRC_16BIT_CCITT) {}
  lemma Ccitt16Rows7() ensures Rows7To9(CRC_16BIT_CCITT) {}
  lemma Ccitt16Rows10() ensures Rows10To12(CRC_16BIT_CCITT) {}
  lemma Ccitt16Rows13() ensures Rows13To15(CRC_16BIT_CCITT) {}

  lemma IbmBorders() ensures Borders(IBM_COMPLETED, 0x8005, 0x8000, 0xffff) {}
  lemma IbmRows1() ensures Rows1To3(IBM_COMPLETED) {}
  lemma IbmRows4() ensures Rows4To6(IBM_COMPLETED) {}
  lemma IbmRows7() ensures Rows7To9(IBM_COMPLETED) {}
  lemma IbmRows10() ensures Rows10To12(IBM_COMPLETED) {}
  lemma IbmRows13() ensures Rows13To15(IBM_COMPLETED) {}

  lemma AnsiBorders() ensures Borders(CRC_32BIT_ANSI, 0x04c1_1db7, 0x8000_0000, 0xffff_ffff) {}
  lemma AnsiRows1() ensures Rows1To3(CRC_32BIT_ANSI) {}
  lemma AnsiRows4() ensures Rows4To6(CRC_32BIT_ANSI) {}
  lemma AnsiRows7() ensures Rows7To9(CRC_32BIT_ANSI) {}
  lemma AnsiRows10() ensures Rows10To12(CRC_32BIT_ANSI) {}
  lemma AnsiRows13() ensures Rows13To15(CRC_32BIT_ANSI) {}

  // ---------------------------------------------------------------------
  // From the checks to every entry
  // ---------------------------------------------------------------------

  function FourMore(x: word): word { (x << 4) | 15 }

  lemma LeftFour(x: word, k: nat)
    ensures Left(x, k + 4) == Left(x, k) << 4
  {
    assert Left(x, k + 4) == Twice(Left(x, k + 3));
    assert Left(x, k + 3) == Twice(Left(x, k + 2));
    assert Left(x, k + 2) == Twice(Left(x, k + 1));
    assert Left(x, k + 1) == Twice(Left(x, k));
    hide Left;
    FourTwice(Left(x, k));
  }

  lemma FourTwice(x: word)
    ensures Twice(Twice(Twice(Twice(x)))) == x << 4
    ensures TwiceOne(TwiceOne(TwiceOne(TwiceOne(x)))) == FourMore(x)
  {
  }

  lemma OnesFour(k: nat)
    ensures Ones(k + 4) == FourMore(Ones(k))
  {
    assert Ones(k + 4) == TwiceOne(Ones(k + 3));
    assert Ones(k + 3) == TwiceOne(Ones(k + 2));
    assert Ones(k + 2) == TwiceOne(Ones(k + 1));
    assert Ones(k + 1) == TwiceOne(Ones(k));
    hide Ones, TwiceOne, Twice, FourMore;
    FourTwice(Ones(k));
  }

  /** The source's top bits and masks for byte-sized registers. */
  lemma TopsAndMasks()
    ensures Left(1, 7) == 0x80 && Left(1, 15) == 0x8000 && Left(1, 31) == 0x8000_0000
    ensures Ones(8) == 0xff && Ones(16) == 0xffff && Ones(32) == 0xffff_ffff
  {
    assert Left(1, 3) == 8 by {
      assert Left(1, 1) == 2 && Left(1, 2) == 4;
    }
    hide Left;
    LeftFour(1, 3);
    LeftFour(1, 7);
    LeftFour(1, 11);
    LeftFour(1, 15);
    LeftFour(1, 19);
    LeftFour(1, 23);
    LeftFour(1, 27);
    AllOnes();
  }

  lemma AllOnes()
    ensures Ones(8) == 0xff && Ones(16) == 0xffff && Ones(32) == 0xffff_ffff
  {
    assert Ones(0) == 0;
    hide Ones;
    OnesFour(0);
    OnesFour(4);
    OnesFour(8);
    OnesFour(12);
    OnesFour(16);
    OnesFour(20);
    OnesFour(24);
    OnesFour(28);
  }

  /** One checked shift multiplies the denoted remainder by x. */
  lemma ShiftedRem(h: word, t: word, w: nat, poly: word, top: word, mask: word, p: nat)
    requires 0 < w <= 32 && top == Left(1, w - 1) && mask == Ones(w)
    requires Shifted(h, t, poly, top, mask)
    requires Val(h, w) == Rem(p, w, Val(poly, w))
    ensures Val(t, w) == Rem(2 * p, w, Val(poly, w))
  {
    var q := if Bit(h, w - 1) then Sum(Twice(h), poly) else Twice(h);
    TestBit(h, w - 1);
    ShiftedIs(h, t, q, poly, top, mask);
    hide Half, Low, Twice, Sum, And, Left, Ones, Bit, Val, Rem, Xor, Congruent, Shifted;
    ValMasked(q, w, w);
    ShiftStep(h, q, w, poly, Bit(h, w - 1), false);
    ValBound(q, w);
    ValBound(poly, w);
    ShiftRemValue(Val(q, w), Val(h, w), p, w, Val(poly, w));
  }

  lemma ShiftedIs(h: word, t: word, q: word, poly: word, top: word, mask: word)
    requires Shifted(h, t, poly, top, mask)
    requires q == if And(h, top) != 0 then Sum(Twice(h), poly) else Twice(h)
    ensures t == And(q, mask)
  {
    assert (h << 1) ^ 0 == h << 1;
  }

  lemma ShiftRemValue(u: nat, r: nat, p: nat, w: nat, poly: nat)
    requires w > 0 && poly < Pow2(w) && u < Pow2(w) && r == Rem(p, w, poly)
    requires Congruent(u, Xor(2 * r, Shl(0, w)), Generator(w, poly))
    ensures u == Rem(2 * p, w, poly)
  {
    hide Xor, Rem, Shl, Pow2;
    ShlOfOne(w);
    XorDefinition(2 * r, 0);
    RemUnique(2 * r, w, poly, u);
    OneMoreShl(r, 0);
    OneMoreShl(p, 0);
    NoShiftAtAll(r);
    NoShiftAtAll(p);
    RemOfShifted(p, 0, 1, w, poly);
    XorDefinition(2 * p, 0);
  }

  /** Checked entries of a doubling sequence denote multiples of the second one. */
  lemma DoublingRem(c: seq<word>, w: nat, poly: word, top: word, mask: word, m: nat, i: nat)
    requires 0 < w <= 32 && top == Left(1, w - 1) && mask == Ones(w)
    requires Doubling(c, poly, top, mask) && i < 16
    requires Val(c[1], w) == Rem(Shl(1, m), w, Val(poly, w))
    ensures Val(c[i], w) == Rem(Shl(i, m), w, Val(poly, w))
    decreases i
  {
    hide Shifted, Val, Xor, Left, Ones, Sum, Doubling, Rem;
    DoublingStart(c, poly, top, mask);
    if i == 0 {
      ValOfZero(w);
      ShlOfOne(m);
      RemOfSmall(0, w, Val(poly, w)) by {
        ValBound(poly, w);
      }
    } else if i > 1 {
      hide Shl;
      DoublingRem(c, w, poly, top, mask, m, i / 2);
      DoublingAt(c, poly, top, mask, i / 2);
      var e := i / 2 * 2;
      ShiftedRem(c[i / 2], c[e], w, poly, top, mask, Shl(i / 2, m));
      TwiceShl(i / 2, m);
      OneMoreShl(i / 2, m);
      if i % 2 == 1 {
        OddEntry(c[e], c[1], w, Val(poly, w), e, m) by {
          ValBound(poly, w);
        }
      }
    }
  }

  /** The entry after an even one adds the second entry of all. */
  lemma OddEntry(even: word, one: word, w: nat, p: nat, e: nat, m: nat)
    requires w > 0 && p < Pow2(w) && e % 2 == 0
    requires Val(even, w) == Rem(Shl(e, m), w, p) && Val(one, w) == Rem(Shl(1, m), w, p)
    ensures Val(Sum(even, one), w) == Rem(Shl(e + 1, m), w, p)
  {
    hide Val, Xor, Shl, Sum, Rem, Pow2;
    ValSum(even, one, w);
    XorLowBit(e / 2, 1);
    XorShl(e, 1, m);
    RemSum(Shl(e, m), Shl(1, m), w, p);
  }

  lemma DoublingAt(c: seq<word>, poly: word, top: word, mask: word, j: nat)
    requires Doubling(c, poly, top, mask) && 0 < j < 8
    ensures Shifted(c[j], c[2 * j], poly, top, mask) && c[2 * j + 1] == Sum(c[2 * j], c[1])
  {
    hide Shifted, Sum;
  }

  lemma DoublingStart(c: seq<word>, poly: word, top: word, mask: word)
    requires Doubling(c, poly, top, mask)
    ensures |c| == 16 && c[0] == 0
  {
    hide Shifted, Sum;
  }

  ghost predicate AllChecked(rows: seq<seq<word>>, poly: word, top: word, mask: word) {
    && Borders(rows, poly, top, mask)
    && Rows1To3(rows) && Rows4To6(rows) && Rows7To9(rows) && Rows10To12(rows) && Rows13To15(rows)
  }

  lemma RowSumAt(base: seq<word>, row: seq<word>, j: nat)
    requires RowSum(base, row) && 0 < j < 16
    ensures row[j] == Sum(base[j], row[0])
  {
    hide Sum;
  }

  lemma AllRowSums(rows: seq<seq<word>>, r: nat)
    requires 0 < r < 16
    requires Rows1To3(rows) && Rows4To6(rows) && Rows7To9(rows) && Rows10To12(rows) && Rows13To15(rows)
    ensures RowSum(rows[0], rows[r])
  {
    hide RowSum;
  }

  lemma FirstColumnAt(rows: seq<seq<word>>, r: nat)
    requires r < 16 && |rows| == 16 && forall k | 0 <= k < 16 :: |rows[k]| == 16
    ensures FirstColumn(rows)[r] == rows[r][0]
  {
  }

  /** A table that passes the checks holds, for every index, the register that the
      index alone leaves. */
  lemma CheckedEntry(rows: seq<seq<word>>, w: nat, poly: word, top: word, mask: word, r: nat, j: nat)
    requires 0 < w <= 32 && top == Left(1, w - 1) && mask == Ones(w)
    requires AllChecked(rows, poly, top, mask) && r < 16 && j < 16
    ensures Val(rows[r][j], w) == Rem(Shl(16 * r + j, w), w, Val(poly, w))
  {
    hide Shifted, Doubling, Rows1To3, Rows4To6, Rows7To9, Rows10To12, Rows13To15, RowSum;
    hide Val, Xor, Shl, Rem, Left, Ones, Sum, FirstColumn;
    var p := Val(poly, w);
    ValBound(poly, w);
    GeneratorEntry(w, p);
    DoublingRem(rows[0], w, poly, top, mask, w, j);
    DoublingRem(rows[0], w, poly, top, mask, w, 8);
    ShiftedRem(rows[0][8], rows[1][0], w, poly, top, mask, Shl(8, w));
    FirstColumnAt(rows, 1);
    FirstColumnAt(rows, r);
    SixteenShl(r, j, w);
    DoublingRem(FirstColumn(rows), w, poly, top, mask, w + 4, r);
    DoublingStart(rows[0], poly, top, mask);
    EntrySum(rows, w, r, j);
    RemSum(Shl(j, w), Shl(r, w + 4), w, p);
  }

  lemma EntrySum(rows: seq<seq<word>>, w: nat, r: nat, j: nat)
    requires r < 16 && j < 16 && |rows| == 16 && (forall k | 0 <= k < 16 :: |rows[k]| == 16)
    requires Rows1To3(rows) && Rows4To6(rows) && Rows7To9(rows) && Rows10To12(rows) && Rows13To15(rows)
    requires rows[0][0] == 0
    ensures Val(rows[r][j], w) == Xor(Val(rows[0][j], w), Val(rows[r][0], w))
  {
    hide Rows1To3, Rows4To6, Rows7To9, Rows10To12, Rows13To15, RowSum, Val, Sum;
    ValOfZero(w);
    if r == 0 {
      XorDefinition(Val(rows[0][j], w), 0);
    } else if j == 0 {
      XorDefinition(0, Val(rows[r][0], w));
    } else {
      hide Xor;
      AllRowSums(rows, r);
      RowSumAt(rows[0], rows[r], j);
      ValSum(rows[0][j], rows[r][0], w);
    }
  }

  /** x^w leaves the polynomial. */
  lemma GeneratorEntry(w: nat, p: nat)
    requires w > 0 && p < Pow2(w)
    ensures Rem(Shl(1, w), w, p) == p
  {
    ShlOfOne(w);
    hide Rem, Shl, Pow2, Xor;
    XorWithLeading(0, p, w);
    XorDefinition(0, p);
    CongruentReduce(Pow2(w), Generator(w, p));
    RemUnique(Pow2(w), w, p, p);
  }

  lemma SixteenShl(r: nat, j: nat, w: nat)
    requires j < 16
    ensures Shl(16 * r + j, w) == Xor(Shl(j, w), Shl(r, w + 4))
    ensures 2 * Shl(8, w) == Shl(1, w + 4)
  {
    assert Shl(r, 4) == 16 * r by {
      assert Shl(r, 3) == 2 * Shl(r, 2) && Shl(r, 2) == 2 * Shl(r, 1) && Shl(r, 1) == 2 * Shl(r, 0);
    }
    assert Shl(1, 4) == 16 && Pow2(4) == 16;
    hide Shl, Pow2, Xor;
    XorDisjoint(r, j, 4);
    XorShl(Shl(r, 4), j, w);
    ShlTwice(r, 4, w);
    ShlTwice(1, 4, w);
    TwiceShl(8, w);
    OneMoreShl(8, w);
    XorCommutes(Shl(j, w), Shl(r, w + 4));
  }

  lemma CheckedTable(rows: seq<seq<word>>, w: nat, poly: word, top: word, mask: word)
    requires 0 < w <= 32 && top == Left(1, w - 1) && mask == Ones(w)
    requires AllChecked(rows, poly, top, mask)
    ensures Shape(rows) && TableFor(Flat(rows), w, Val(poly, w))
  {
    hide AllChecked, Val, Shl, Rem, Left, Ones;
    assert Shape(rows) by {
      ShapeOf(rows, poly, top, mask);
    }
    forall i | 0 <= i < 256 ensures Val(Flat(rows)[i], w) == Rem(Shl(i, w), w, Val(poly, w)) {
      CheckedEntry(rows, w, poly, top, mask, i / 16, i % 16);
    }
  }

  lemma ShapeOf(rows: seq<seq<word>>, poly: word, top: word, mask: word)
    requires AllChecked(rows, poly, top, mask)
    ensures Shape(rows)
  {
    hide Doubling, RowSum;
  }

  // ---------------------------------------------------------------------
  // The five tables
  // ---------------------------------------------------------------------

  const POLY_8BIT_CCITT: word := 0x07
  const POLY_7BIT_SD: word := 0x9
  const POLY_16BIT_CCITT: word := 0x1021
  const POLY_16BIT_IBM: word := 0x8005
  const POLY_32BIT_ANSI: word := 0x04c1_1db7

  lemma SdChecked()
    ensures AllChecked(CRC_7BIT_SD, 0x12, 0x80, 0xff)
  {
    hide Borders, Rows1To3, Rows4To6, Rows7To9, Rows10To12, Rows13To15;
    SdBorders();
    SdRows1();
    SdRows4();
    SdRows7();
    SdRows10();
    SdRows13();
  }

  lemma Ccitt8Checked()
    ensures AllChecked(CRC_8BIT_CCITT, POLY_8BIT_CCITT, 0x80, 0xff)
  {
    hide Borders, Rows1To3, Rows4To6, Rows7To9, Rows10To12, Rows13To15;
    Ccitt8Borders();
    Ccitt8Rows1();
    Ccitt8Rows4();
    Ccitt8Rows7();
    Ccitt8Rows10();
    Ccitt8Rows13();
  }

  lemma Ccitt16Checked()
    ensures AllChecked(CRC_16BIT_CCITT, POLY_16BIT_CCITT, 0x8000, 0xffff)
  {
    hide Borders, Rows1To3, Rows4To6, Rows7To9, Rows10To12, Rows13To15;
    Ccitt16Borders();
    Ccitt16Rows1();
    Ccitt16Rows4();
    Ccitt16Rows7();
    Ccitt16Rows10();
    Ccitt16Rows13();
  }

  lemma IbmChecked()
    ensures AllChecked(IBM_COMPLETED, POLY_16BIT_IBM, 0x8000, 0xffff)
  {
    hide Borders, Rows1To3, Rows4To6, Rows7To9, Rows10To12, Rows13To15;
    IbmBorders();
    IbmRows1();
    IbmRows4();
    IbmRows7();
    IbmRows10();
    IbmRows13();
  }

  lemma AnsiChecked()
    ensures AllChecked(CRC_32BIT_ANSI, POLY_32BIT_ANSI, 0x8000_0000, 0xffff_ffff)
  {
    hide Borders, Rows1To3, Rows4To6, Rows7To9, Rows10To12, Rows13To15;
    AnsiBorders();
    AnsiRows1();
    AnsiRows4();
    AnsiRows7();
    AnsiRows10();
    AnsiRows13();
  }

  /** The 7-bit table holds registers shifted to the top of a byte. */
  lemma SdTable()
    ensures Shape(CRC_7BIT_SD) && TableFor(Flat(CRC_7BIT_SD), 8, 2 * Val(POLY_7BIT_SD, 7))
  {
    assert Twice(POLY_7BIT_SD) == 0x12;
    hide *;
    ValTwice(POLY_7BIT_SD, 8);
    TopsAndMasks();
    SdChecked();
    CheckedTable(CRC_7BIT_SD, 8, 0x12, 0x80, 0xff);
  }

  lemma Ccitt8Table()
    ensures Shape(CRC_8BIT_CCITT) && TableFor(Flat(CRC_8BIT_CCITT), 8, Val(POLY_8BIT_CCITT, 8))
  {
    hide *;
    TopsAndMasks();
    Ccitt8Checked();
    CheckedTable(CRC_8BIT_CCITT, 8, POLY_8BIT_CCITT, 0x80, 0xff);
  }

  lemma Ccitt16Table()
    ensures Shape(CRC_16BIT_CCITT) && TableFor(Flat(CRC_16BIT_CCITT), 16, Val(POLY_16BIT_CCITT, 16))
  {
    hide *;
    TopsAndMasks();
    Ccitt16Checked();
    CheckedTable(CRC_16BIT_CCITT, 16, POLY_16BIT_CCITT, 0x8000, 0xffff);
  }

  lemma AnsiTable()
    ensures Shape(CRC_32BIT_ANSI) && TableFor(Flat(CRC_32BIT_ANSI), 32, Val(POLY_32BIT_ANSI, 32))
  {
    hide *;
    TopsAndMasks();
    AnsiChecked();
    CheckedTable(CRC_32BIT_ANSI, 32, POLY_32BIT_ANSI, 0x8000_0000, 0xffff_ffff);
  }

  lemma CompletedTable()
    ensures Shape(IBM_COMPLETED) && TableFor(Flat(IBM_COMPLETED), 16, Val(POLY_16BIT_IBM, 16))
  {
    hide *;
    TopsAndMasks();
    IbmChecked();
    CheckedTable(IBM_COMPLETED, 16, POLY_16BIT_IBM, 0x8000, 0xffff);
  }

  /** The IBM table of the source is wrong in its last four entries and nowhere else. */
  lemma IbmEntryRightIff(i: nat)
    requires i < 256
    ensures Shape(CRC_16BIT_IBM)
    ensures Val(Flat(CRC_16BIT_IBM)[i], 16) == Rem(Shl(i, 16), 16, Val(POLY_16BIT_IBM, 16)) <==> i < 252
  {
    hide Val, Rem, Shl;
    CompletedTable();
    IbmShape();
    if i < 252 {
      IbmKept(i / 16, i % 16);
    } else {
      IbmDropped(i % 16);
      ValOfZero(16);
      IbmPoly();
      IndexFits(i);
      ShiftKeepsNonZero(i, 16, 16, Val(POLY_16BIT_IBM, 16));
    }
  }

  lemma IbmShape()
    ensures Shape(CRC_16BIT_IBM) && Shape(IBM_COMPLETED)
  {
  }

  lemma IbmKept(r: nat, j: nat)
    requires r < 16 && j < 16 && (r < 15 || j < 12)
    ensures Shape(CRC_16BIT_IBM) && Shape(IBM_COMPLETED)
    ensures CRC_16BIT_IBM[r][j] == IBM_COMPLETED[r][j]
  {
    IbmShape();
  }

  lemma IbmDropped(j: nat)
    requires 12 <= j < 16
    ensures Shape(CRC_16BIT_IBM) && CRC_16BIT_IBM[15][j] == 0
  {
    IbmShape();
  }

  lemma IbmPoly()
    ensures Val(POLY_16BIT_IBM, 16) % 2 == 1 && Val(POLY_16BIT_IBM, 16) < Pow2(16)
  {
    ValBound(POLY_16BIT_IBM, 16);
    LowestPlace(POLY_16BIT_IBM, 16);
    assert Low(POLY_16BIT_IBM);
  }

  lemma LowestPlace(x: word, n: nat)
    requires 0 < n <= 32
    ensures Val(x, n) % 2 == 1 <==> Low(x)
  {
    hide Half, Low;
    var rest := Val(Half(x), n - 1);
    assert Val(x, n) == rest * 2 + if Low(x) then 1 else 0;
    hide *;
    DivModUnique(Val(x, n), 2, rest, if Low(x) then 1 else 0);
  }

  lemma IndexFits(i: nat)
    requires i < 256
    ensures i < Pow2(16)
  {
    assert Pow2(8) == 256;
    Pow2Monotonic(8, 16);
  }

  // ---------------------------------------------------------------------
  // The default configurations
  // ---------------------------------------------------------------------

  datatype Standard = Ansi32 | Ccitt16 | Ccitt8 | Sd7

  /** The table-driven object that the default constructor of each standard makes
      meets the condition under which its results are the CRC. */
  method Default(kind: Standard) returns (crc: MbedCrc)
    ensures fresh(crc) && crc.Valid() && crc.crcTable != []
    ensures crc.width == match kind case Ansi32 => 32 case Ccitt16 => 16 case Ccitt8 => 8 case Sd7 => 7
    ensures crc.polynomial == match kind
      case Ansi32 => POLY_32BIT_ANSI case Ccitt16 => POLY_16BIT_CCITT
      case Ccitt8 => POLY_8BIT_CCITT case Sd7 => POLY_7BIT_SD
    ensures crc.initialValue == if kind.Ansi32? || kind.Ccitt16? then 0xffff_ffff else 0
    ensures crc.finalXor == if kind.Ansi32? then 0xffff_ffff else 0
    ensures crc.reflectData == crc.reflectRemainder == kind.Ansi32?
  {
    hide Shape, TableFor, Val;
    match kind
    case Ansi32 =>
      AnsiTable();
      crc := new MbedCrc(POLY_32BIT_ANSI, 32, 0xffff_ffff, 0xffff_ffff, true, true, Flat(CRC_32BIT_ANSI));
    case Ccitt16 =>
      Ccitt16Table();
      crc := new MbedCrc(POLY_16BIT_CCITT, 16, 0xffff_ffff, 0, false, false, Flat(CRC_16BIT_CCITT));
    case Ccitt8 =>
      Ccitt8Table();
      crc := new MbedCrc(POLY_8BIT_CCITT, 8, 0, 0, false, false, Flat(CRC_8BIT_CCITT));
    case Sd7 =>
      SdTable();
      crc := new MbedCrc(POLY_7BIT_SD, 7, 0, 0, false, false, Flat(CRC_7BIT_SD));
  }

  /** The two forms of the 7-bit CRC with initial value 1: they differ on every
      message. */
  method NarrowFormsDiffer() returns (table: MbedCrc, bits: MbedCrc)
    ensures SameCrc(table, bits) && bits.width == 7 && bits.polynomial == POLY_7BIT_SD && bits.initialValue == 1
    ensures forall data :: table.Result(data) != bits.Result(data)
  {
    hide Shape, TableFor, Val, MbedCrc.Result;
    SdTable();
    table := new MbedCrc(POLY_7BIT_SD, 7, 1, 0, false, false, Flat(CRC_7BIT_SD));
    bits := new MbedCrc(POLY_7BIT_SD, 7, 1, 0, false, false, []);
    InitialOne();
    forall data ensures table.Result(data) != bits.Result(data) {
      NarrowTableAgreesIff(table, bits, data);
    }
  }

  lemma InitialOne()
    ensures Val(POLY_7BIT_SD, 7) % 2 == 1 && Val(1, 8) == 1
    ensures Xor(Val(1, 8), 2 * Val(1, 7)) != Generator(7, Val(POLY_7BIT_SD, 7))
  {
    assert Low(POLY_7BIT_SD);
    LowestPlace(POLY_7BIT_SD, 7);
    OnePlace();
    ValOfZero(7);
    ValOfZero(6);
    hide Half, Low;
    assert Val(1, 8) == 1 + 2 * Val(0, 7) && Val(1, 7) == 1 + 2 * Val(0, 6);
    hide Val;
    assert Xor(1, 2) == 3;
    SevenAndEight();
  }
}
