/** Programming and erasing flash of variable-size sectors. */
module Flash {
  import opened Words

  type octet = bv8

  const INVALID_SIZE: nat := 0xffff_ffff

  predicate IsAligned(number: nat, alignment: nat)
    requires alignment > 0
  {
    number % alignment == 0
  }

  lemma AlignedDifference(a: nat, b: nat, p: nat)
    requires p > 0 && b <= a && IsAligned(b, p)
    ensures IsAligned(a, p) <==> IsAligned(a - b, p)
  {
    var q := b / p;
    assert b == q * p;
    DivModUnique(a - b, p, (a - b) / p, (a - b) % p);
    DivModUnique(a, p, q + (a - b) / p, (a - b) % p);
  }

  lemma AlignedThrough(a: nat, s: nat, p: nat)
    requires p > 0 && s > 0 && IsAligned(a, s) && IsAligned(s, p)
    ensures IsAligned(a, p)
  {
    assert a == (a / s) * ((s / p) * p) == ((a / s) * (s / p)) * p;
    DivModUnique(a, p, (a / s) * (s / p), 0);
  }

  lemma AlignedAtLeast(n: nat, p: nat)
    requires p > 0 && n > 0 && IsAligned(n, p)
    ensures n >= p
  {
  }

  // ---------------------------------------------------------------------
  // The device
  // ---------------------------------------------------------------------

  /** Sectors follow each other from start; sizes may differ. */
  datatype Geometry = Geometry(start: nat, page: nat, sizes: seq<nat>) {
    /** Where sector k begins. */
    function Base(k: nat): (r: nat)
      requires k <= |sizes|
      ensures r >= start
    {
      if k == 0 then start else Base(k - 1) + sizes[k - 1]
    }

    function End(): nat {
      Base(|sizes|)
    }

    /** Pages divide sectors, and each sector is aligned to its own size. */
    ghost predicate Valid() {
      && page > 0 && End() <= U32_RANGE
      && forall k | 0 <= k < |sizes| :: sizes[k] > 0 && IsAligned(sizes[k], page) && IsAligned(Base(k), sizes[k])
    }

    /** Some sector begins here. */
    ghost predicate IsBase(address: nat) {
      exists k | 0 <= k < |sizes| :: Base(k) == address
    }

    lemma BaseMonotonic(j: nat, k: nat)
      requires j <= k <= |sizes|
      ensures Base(j) <= Base(k)
      decreases k
    {
      if j < k {
        BaseMonotonic(j, k - 1);
      }
    }

    lemma SectorShape(k: nat)
      requires Valid() && k < |sizes|
      ensures Base(k + 1) == Base(k) + sizes[k] && sizes[k] > 0 && page > 0
      ensures IsAligned(sizes[k], page) && IsAligned(Base(k), sizes[k])
    {
    }

    predicate Mapped(address: nat) {
      start <= address < End()
    }

    /** The sector an address lies in, searched from sector k on. */
    function SectorFrom(address: nat, k: nat): (r: nat)
      requires k <= |sizes| && Base(k) <= address < End()
      ensures r < |sizes| && Base(r) <= address < Base(r + 1)
      decreases |sizes| - k
    {
      if address < Base(k + 1) then k else SectorFrom(address, k + 1)
    }

    function Sector(address: nat): (r: nat)
      requires Mapped(address)
      ensures r < |sizes| && Base(r) <= address < Base(r + 1)
    {
      SectorFrom(address, 0)
    }

    lemma SectorUnique(address: nat, k: nat)
      requires k < |sizes| && Base(k) <= address < Base(k + 1)
      ensures Mapped(address) && Sector(address) == k
    {
      BaseMonotonic(0, k);
      BaseMonotonic(k + 1, |sizes|);
      var r := Sector(address);
      if r < k {
        BaseMonotonic(r + 1, k);
      } else if k < r {
        BaseMonotonic(k + 1, r);
      }
    }

    function SectorSize(address: nat): nat {
      if Mapped(address) then sizes[Sector(address)] else INVALID_SIZE
    }
  }

  // ---------------------------------------------------------------------
  // What programming does to memory
  // ---------------------------------------------------------------------

  /** Programming clears bits and never sets one. The first byte of memory is at
      address start. */
  function Burn(mem: seq<octet>, start: nat, address: nat, data: seq<octet>): (r: seq<octet>)
    ensures |r| == |mem|
  {
    seq(|mem|, i requires 0 <= i < |mem| =>
      if address <= start + i < address + |data| then mem[i] & data[start + i - address] else mem[i])
  }

  function Blank(n: nat): (r: seq<octet>)
    ensures |r| == n && forall i | 0 <= i < n :: r[i] == 0xff
  {
    seq(n, i => 0xff)
  }

  /** Programming in steps is programming at once. */
  lemma BurnAppend(mem: seq<octet>, start: nat, address: nat, a: seq<octet>, b: seq<octet>)
    ensures Burn(Burn(mem, start, address, a), start, address + |a|, b) == Burn(mem, start, address, a + b)
  {
  }

  lemma BurnNothing(mem: seq<octet>, start: nat, address: nat)
    ensures Burn(mem, start, address, []) == mem
  {
  }

  /** Padding with ones has no effect. */
  lemma BurnBlank(mem: seq<octet>, start: nat, address: nat, n: nat)
    ensures Burn(mem, start, address, Blank(n)) == mem
  {
  }

  /** Where every bit is set, what is programmed reads back, and only there does
      anything change. */
  lemma BurnReadsBack(mem: seq<octet>, start: nat, address: nat, data: seq<octet>)
    requires start <= address && address + |data| <= start + |mem|
    requires mem[address - start..address - start + |data|] == Blank(|data|)
    ensures Burn(mem, start, address, data)
         == mem[..address - start] + data + mem[address - start + |data|..]
  {
  }

  /** The byte range set to ones. */
  function Cleared(mem: seq<octet>, start: nat, from: nat, to: nat): (r: seq<octet>)
    ensures |r| == |mem|
  {
    seq(|mem|, i requires 0 <= i < |mem| => if from <= start + i < to then 0xff else mem[i])
  }

  /** Erasing a range and programming inside it leaves the data there, ones in the
      rest of the range, and everything else as it was. */
  lemma EraseThenProgram(mem: seq<octet>, start: nat, from: nat, to: nat, address: nat, data: seq<octet>)
    requires start <= from <= address && address + |data| <= to <= start + |mem|
    ensures Burn(Cleared(mem, start, from, to), start, address, data)
         == mem[..from - start] + Blank(address - from) + data + Blank(to - address - |data|) + mem[to - start..]
  {
  }

  /** One call of the device's program function. */
  datatype Call = Call(address: nat, data: seq<octet>)

  /** What the device asks of a call: whole pages, inside one sector. */
  ghost predicate LegalCall(g: Geometry, c: Call) {
    && g.page > 0 && g.Mapped(c.address)
    && c.data != [] && IsAligned(c.address, g.page) && IsAligned(|c.data|, g.page)
    && c.address + |c.data| <= g.Base(g.Sector(c.address) + 1)
  }

  function Payload(calls: seq<Call>): seq<octet> {
    if calls == [] then [] else Payload(calls[..|calls| - 1]) + calls[|calls| - 1].data
  }

  /** Each call starts where the one before it ended. */
  ghost predicate Consecutive(calls: seq<Call>, address: nat) {
    forall i | 0 <= i < |calls| :: calls[i].address == address + |Payload(calls[..i])|
  }

  lemma OneMoreCall(calls: seq<Call>, address: nat, c: Call)
    requires Consecutive(calls, address) && c.address == address + |Payload(calls)|
    ensures Consecutive(calls + [c], address) && Payload(calls + [c]) == Payload(calls) + c.data
  {
    var more := calls + [c];
    assert more[..|calls|] == calls;
    forall i | 0 <= i < |more| ensures more[i].address == address + |Payload(more[..i])| {
      if i < |calls| {
        assert more[..i] == calls[..i];
      }
    }
  }

  class FlashDevice {
    const g: Geometry
    const reliable: bool
    var mem: seq<octet>
    ghost var calls: seq<Call>
    ghost var erased: seq<nat>

    ghost predicate Valid()
      reads this
    {
      g.Valid() && g.start + |mem| == g.End()
    }

    constructor (g: Geometry, reliable: bool, mem: seq<octet>)
      requires g.Valid() && g.start + |mem| == g.End()
      ensures Valid() && this.g == g && this.reliable == reliable && this.mem == mem
      ensures calls == [] && erased == []
    {
      this.g, this.reliable, this.mem := g, reliable, mem;
      calls, erased := [], [];
    }

    /** Fails, or programs everything; anything outside the flash fails. The data
        come from memory at source, which many devices want word-aligned. */
    method ProgramPage(address: nat, source: nat, data: seq<octet>) returns (status: int)
      requires Valid() && data != [] && IsAligned(source, 4)
      requires g.Mapped(address) ==> LegalCall(g, Call(address, data))
      modifies this`mem, this`calls
      ensures Valid()
      ensures status == 0 ==> g.Mapped(address)
      ensures status == 0 ==> mem == Burn(old(mem), g.start, address, data) && calls == old(calls) + [Call(address, data)]
      ensures status != 0 ==> unchanged(this)
      ensures reliable && g.Mapped(address) ==> status == 0
    {
      var broken: bool := *;
      if !g.Mapped(address) || (broken && !reliable) {
        return -1;
      }
      mem := Burn(mem, g.start, address, data);
      calls := calls + [Call(address, data)];
      status := 0;
    }

    method EraseSector(address: nat) returns (status: int)
      requires Valid() && (g.Mapped(address) ==> g.Base(g.Sector(address)) == address)
      modifies this`mem, this`erased
      ensures Valid()
      ensures status == 0 ==> g.Mapped(address) && erased == old(erased) + [g.Sector(address)]
      ensures status == 0 ==> mem == Cleared(old(mem), g.start, address, address + g.SectorSize(address))
      ensures status != 0 ==> unchanged(this)
      ensures reliable && g.Mapped(address) ==> status == 0
    {
      var broken: bool := *;
      if !g.Mapped(address) || (broken && !reliable) {
        return -1;
      }
      mem := Cleared(mem, g.start, address, address + g.SectorSize(address));
      erased := erased + [g.Sector(address)];
      status := 0;
    }
  }

  // ---------------------------------------------------------------------
  // The driver
  // ---------------------------------------------------------------------

  /** The end check, in 32-bit arithmetic. */
  predicate EndPasses(address: nat, size: nat, end: nat) {
    U32(address + size) <= U32(end)
  }

  /** When the end check tells whether the range ends within the flash. */
  lemma EndPassesIff(address: nat, size: nat, end: nat)
    requires address < U32_RANGE && size < U32_RANGE && end <= U32_RANGE
    ensures (EndPasses(address, size, end) <==> address + size <= end) <==>
              if end < U32_RANGE then address + size < U32_RANGE || address + size > U32_RANGE + end
              else address + size == 0 || address + size >= U32_RANGE
  {
  }

  /** Nearly 4 GB from address 0x1000 pass the check of a flash that ends at 0x2000. */
  lemma EndPassesWrongly()
    ensures EndPasses(0x1000, 0xffff_ffff, 0x2000) && 0x1000 + 0xffff_ffff > 0x2000
  {
  }

  /** While bytes are left, the next address needs no wrap-around. */
  lemma EndIsBelow(address: nat, size: nat, end: nat, at: nat)
    requires address < U32_RANGE && size < U32_RANGE && EndPasses(address, size, end)
    requires at <= end <= U32_RANGE && at < address + size
    ensures at < U32_RANGE
  {
  }

  /** How far an address is into a sector of a size. */
  function Offset(address: nat, size: nat): (r: nat)
    requires size > 0
    ensures r < size
  {
    address % size
  }

  lemma OffsetInSector(base: nat, size: nat, address: nat)
    requires size > 0 && IsAligned(base, size) && base <= address < base + size
    ensures Offset(address, size) == address - base
  {
    DivModUnique(address, size, base / size, address - base);
  }

  /** Rounded down to whole multiples. */
  function Whole(n: nat, p: nat): nat
    requires p > 0
  {
    n / p * p
  }

  lemma WholeBounds(n: nat, p: nat)
    requires 0 < p <= n
    ensures 0 < Whole(n, p) <= n < Whole(n, p) + p && IsAligned(Whole(n, p), p)
  {
    DivModUnique(n / p * p, p, n / p, 0);
    assert n / p >= 1;
  }

  lemma WholeIsAligned(n: nat, p: nat)
    requires p > 0
    ensures IsAligned(n, p) <==> Whole(n, p) == n
  {
  }

  lemma AlignedSelf(p: nat)
    requires p > 0
    ensures IsAligned(p, p)
  {
  }

  /** A mapped, page-aligned address has at least a page left in its sector. */
  lemma RestOfSector(g: Geometry, address: nat)
    requires g.Valid() && g.Mapped(address) && IsAligned(address, g.page)
    ensures 0 < g.SectorSize(address) == g.Base(g.Sector(address) + 1) - g.Base(g.Sector(address))
    ensures Offset(address, g.SectorSize(address)) == address - g.Base(g.Sector(address))
    ensures IsAligned(g.Base(g.Sector(address) + 1) - address, g.page)
    ensures g.Base(g.Sector(address) + 1) - address >= g.page
  {
    hide IsAligned, Offset, Geometry.Valid, Geometry.Base, Geometry.Sector;
    var k := g.Sector(address);
    g.SectorShape(k);
    RestAligned(g.Base(k), g.sizes[k], g.Base(k + 1), address, g.page);
  }

  lemma RestAligned(base: nat, size: nat, next: nat, address: nat, page: nat)
    requires size > 0 && page > 0 && base <= address < next == base + size
    requires IsAligned(base, size) && IsAligned(size, page) && IsAligned(address, page)
    ensures Offset(address, size) == address - base
    ensures IsAligned(next - address, page) && next - address >= page
  {
    hide IsAligned, Offset;
    OffsetInSector(base, size, address);
    AlignedThrough(base, size, page);
    AlignedDifference(next, base, page);
    AlignedDifference(next, address, page);
    AlignedAtLeast(next - address, page);
  }

  class FlashIAP {
    const flash: FlashDevice
    const pageBuf: array<octet>
    const pageBufAddr: nat

    ghost predicate Valid()
      reads this, flash
    {
      flash.Valid() && pageBuf.Length == flash.g.page && IsAligned(pageBufAddr, 4)
    }

    /** The page buffer comes from the allocator, whose blocks are word-aligned. */
    constructor (flash: FlashDevice, pageBufAddr: nat)
      requires flash.Valid() && IsAligned(pageBufAddr, 4)
      ensures Valid() && this.flash == flash && fresh(pageBuf)
    {
      this.flash, this.pageBufAddr := flash, pageBufAddr;
      pageBuf := new octet[flash.g.page];
    }

    /** The next bytes of what is left, in whole pages inside one sector; only the last
        of them may be padded. */
    ghost predicate Piece(left: seq<octet>, addr: nat, chunk: nat, progBuf: seq<octet>) {
      && chunk <= |left| && chunk <= |progBuf| < chunk + flash.g.page
      && progBuf == left[..chunk] + Blank(|progBuf| - chunk)
      && (|progBuf| > chunk ==> chunk == |left|)
      && LegalCall(flash.g, Call(addr, progBuf))
    }

    /** All the whole pages that the sector and the buffer allow. */
    ghost predicate Greedy(left: nat, addr: nat, chunk: nat)
      requires flash.g.Mapped(addr)
    {
      chunk + flash.g.page > Room(left, addr)
    }

    /** Choosing what to hand to the device next: part of the buffer as it is, or
        one page of it through the page buffer. */
    method NextChunk(data: seq<octet>, done: nat, bufAddr: nat, addr: nat)
      returns (chunk: nat, source: nat, progBuf: seq<octet>)
      requires Valid() && done < |data| < U32_RANGE && IsAligned(addr, flash.g.page)
      modifies pageBuf
      ensures 0 < chunk <= |data| - done && progBuf != [] && IsAligned(source, 4)
      ensures (source == pageBufAddr && progBuf == pageBuf[..])
           || (source == bufAddr + done && progBuf == data[done..done + chunk])
      ensures flash.g.Mapped(addr) ==> Piece(data[done..], addr, chunk, progBuf)
      ensures flash.g.Mapped(addr) && IsAligned(bufAddr + done, 4) ==> Greedy(|data| - done, addr, chunk)
    {
      hide IsAligned, Offset, Whole, Geometry.Mapped, Geometry.Sector, Geometry.Base, Geometry.Valid, Geometry.SectorSize;
      hide Piece, Greedy;
      PageAndEnd();
      UnmappedSize(addr);
      var g := flash.g;
      var pageSize := g.page;
      var sectorSize := g.SectorSize(addr);
      if g.Mapped(addr) {
        RestOfSector(g, addr);
      }
      var buf := bufAddr + done;
      WholeIsAligned(buf, 4);
      var unalignedSrc := Whole(buf, 4) != buf;
      chunk := Min(sectorSize - Offset(addr, sectorSize), |data| - done);
      if unalignedSrc || chunk < pageSize {
        chunk := Min(chunk, pageSize);
        FillPage(data, done, chunk);
        source, progBuf := pageBufAddr, pageBuf[..];
        assert data[done..][..chunk] == data[done..done + chunk];
        if g.Mapped(addr) {
          PagePiece(data[done..], addr, chunk);
        }
      } else {
        WholeBounds(chunk, pageSize);
        chunk := Whole(chunk, pageSize);
        source, progBuf := buf, data[done..done + chunk];
        assert data[done..][..chunk] == data[done..done + chunk];
        if g.Mapped(addr) {
          WholePiece(data[done..], addr, chunk);
        }
      }
    }

    /** What the sector and the buffer leave room for. */
    function Room(left: nat, addr: nat): nat
      requires flash.g.Mapped(addr)
    {
      Min(flash.g.Base(flash.g.Sector(addr) + 1) - addr, left)
    }

    lemma PagePiece(left: seq<octet>, addr: nat, chunk: nat)
      requires flash.g.Valid() && flash.g.Mapped(addr) && IsAligned(addr, flash.g.page) && left != []
      requires chunk == Min(Room(|left|, addr), flash.g.page)
      ensures Piece(left, addr, chunk, left[..chunk] + Blank(flash.g.page - chunk))
      ensures Room(|left|, addr) < flash.g.page ==> Greedy(|left|, addr, chunk)
    {
      hide IsAligned, Geometry.Mapped, Geometry.Sector, Geometry.Base, Geometry.Valid;
      RestOfSector(flash.g, addr);
      PageAndEnd();
      AlignedSelf(flash.g.page);
    }

    lemma WholePiece(left: seq<octet>, addr: nat, chunk: nat)
      requires flash.g.Valid() && flash.g.Mapped(addr) && IsAligned(addr, flash.g.page)
      requires Room(|left|, addr) >= flash.g.page && chunk == Whole(Room(|left|, addr), flash.g.page)
      ensures chunk <= |left| && Piece(left, addr, chunk, left[..chunk]) && Greedy(|left|, addr, chunk)
    {
      hide IsAligned, Whole, Geometry.Mapped, Geometry.Sector, Geometry.Base, Geometry.Valid;
      PageAndEnd();
      WholeBounds(Room(|left|, addr), flash.g.page);
    }

    /** Copying into the page buffer and padding what is left of it. */
    method FillPage(data: seq<octet>, done: nat, chunk: nat)
      requires done + chunk <= |data| && chunk <= pageBuf.Length
      modifies pageBuf
      ensures pageBuf[..] == data[done..done + chunk] + Blank(pageBuf.Length - chunk)
    {
      forall i | 0 <= i < chunk {
        pageBuf[i] := data[done + i];
      }
      if chunk < pageBuf.Length {
        forall i | chunk <= i < pageBuf.Length {
          pageBuf[i] := 0xff;
        }
      }
    }

    function Min(a: nat, b: nat): nat {
      if a < b then a else b
    }

    /** Programs data, whose address is bufAddr, and says in ghost results how much
        of it and with which calls. */
    method Program(bufAddr: nat, data: seq<octet>, addr: nat, size: nat)
      returns (status: int, ghost done: nat, ghost issued: seq<Call>)
      requires Valid() && addr < U32_RANGE && size < U32_RANGE && (bufAddr != 0 ==> |data| == size)
      modifies pageBuf, flash`mem, flash`calls
      ensures Valid() && done <= |data|
      ensures flash.calls == old(flash.calls) + issued && Programmed(issued, addr, data[..done], done == size)
      ensures flash.mem == Burn(old(flash.mem), flash.g.start, addr, data[..done])
      ensures status == 0 || status == -1
      // The three tests: a page-aligned address, a buffer, and the 32-bit end check.
      ensures if && addr % flash.g.page == 0 && bufAddr != 0
                 && (addr + size) % 0x1_0000_0000 <= flash.g.End() % 0x1_0000_0000
              then (status == 0 <==> done == size) else status == -1 && done == 0 && issued == []
      // On a device that does not fail, what lies in the flash is programmed, whatever
      // its size; the end check never refuses it in a flash that ends below 4 GB.
      ensures (&& flash.reliable && addr % flash.g.page == 0 && bufAddr != 0
               && flash.g.start <= addr && addr + size <= flash.g.End()
               && (flash.g.End() < 0x1_0000_0000 || (addr + size) % 0x1_0000_0000 <= flash.g.End() % 0x1_0000_0000))
              ==> status == 0
    {
      hide IsAligned, EndPasses, Geometry.Valid, Geometry.Base, Burn, LegalCall, Programmed, U32;
      done, issued := 0, [];
      BurnNothing(flash.mem, flash.g.start, addr);
      NothingIssued(addr, data[..0]);
      PageAndEnd();
      TestsWrittenOut(addr, size);
      if !IsAligned(addr, flash.g.page) || bufAddr == 0 || !EndPasses(addr, size, flash.g.End()) {
        return -1, 0, [];
      }
      status, done, issued := ProgramChunks(bufAddr, data, addr, size);
    }

    lemma TestsWrittenOut(addr: nat, size: nat)
      requires flash.g.page > 0
      ensures IsAligned(addr, flash.g.page) <==> addr % flash.g.page == 0
      ensures EndPasses(addr, size, flash.g.End()) <==>
                (addr + size) % 0x1_0000_0000 <= flash.g.End() % 0x1_0000_0000
      ensures addr + size <= flash.g.End() < 0x1_0000_0000 ==> EndPasses(addr, size, flash.g.End())
    {
    }

    /** Programming proper, chunk by chunk. */
    method ProgramChunks(bufAddr: nat, data: seq<octet>, addr: nat, size: nat)
      returns (status: int, ghost done: nat, ghost issued: seq<Call>)
      requires Valid() && addr < U32_RANGE && |data| == size < U32_RANGE
      requires IsAligned(addr, flash.g.page) && EndPasses(addr, size, flash.g.End())
      modifies pageBuf, flash`mem, flash`calls
      ensures Valid() && done <= |data|
      ensures flash.calls == old(flash.calls) + issued && Programmed(issued, addr, data[..done], done == size)
      ensures flash.mem == Burn(old(flash.mem), flash.g.start, addr, data[..done])
      ensures status == 0 || status == -1
      ensures status == 0 <==> done == size
      ensures flash.reliable && flash.g.start <= addr && addr + size <= flash.g.End() ==> status == 0
    {
      hide IsAligned, EndPasses, Geometry.Sector, Geometry.Base, Geometry.Valid, Burn, LegalCall, Programmed, U32;
      done, issued := 0, [];
      BurnNothing(flash.mem, flash.g.start, addr);
      NothingIssued(addr, data[..0]);
      PageAndEnd();
      status := 0;
      var left, at, buf := size, addr, 0;
      while left > 0
        invariant Valid() && buf <= |data| && left == size - buf && status == 0
        invariant left > 0 ==> at == addr + buf < U32_RANGE && IsAligned(at, flash.g.page)
        invariant flash.calls == old(flash.calls) + issued
        invariant Programmed(issued, addr, data[..buf], left == 0)
        invariant flash.mem == Burn(old(flash.mem), flash.g.start, addr, Payload(issued))
      {
        var chunk, source, progBuf := NextChunk(data, buf, bufAddr, at);
        var failed := flash.ProgramPage(at, source, progBuf);
        if failed != 0 {
          status := -1;
          break;
        }
        ghost var c := Call(at, progBuf);
        BurnAppend(old(flash.mem), flash.g.start, addr, Payload(issued), progBuf);
        OneMoreChunk(issued, addr, data, buf, chunk, c);
        NextAddress(addr, size, at, chunk, progBuf, buf);
        FitsU32(left - chunk);
        issued := issued + [c];
        left, at, buf := U32(left - chunk), U32(at + chunk), buf + chunk;
      }
      done := buf;
      DropPadding(old(flash.mem), addr, issued, data[..done], done == size);
    }

    /** The calls program exactly these bytes, in order and in place; only the last
        call, and only when all is done, may add ones up to the end of a page. */
    ghost predicate Programmed(issued: seq<Call>, addr: nat, bytes: seq<octet>, last: bool) {
      && Consecutive(issued, addr)
      && (forall c | c in issued :: LegalCall(flash.g, c))
      && bytes <= Payload(issued)
      && Payload(issued) == bytes + Blank(|Payload(issued)| - |bytes|)
      && (|Payload(issued)| > |bytes| ==> last && |Payload(issued)| - |bytes| < flash.g.page)
    }

    lemma UnmappedSize(addr: nat)
      ensures !flash.g.Mapped(addr) ==> flash.g.SectorSize(addr) == INVALID_SIZE
    {
    }

    lemma PageAndEnd()
      requires flash.g.Valid()
      ensures flash.g.page > 0 && flash.g.End() <= U32_RANGE
    {
    }

    lemma NothingIssued(addr: nat, bytes: seq<octet>)
      requires bytes == []
      ensures Payload([]) == [] && Programmed([], addr, bytes, true) && Programmed([], addr, bytes, false)
    {
    }

    lemma OneMoreChunk(issued: seq<Call>, addr: nat, data: seq<octet>, buf: nat, chunk: nat, c: Call)
      requires buf + chunk <= |data| && Programmed(issued, addr, data[..buf], false)
      requires c.address == addr + buf
      requires Piece(data[buf..], c.address, chunk, c.data)
      ensures Programmed(issued + [c], addr, data[..buf + chunk], buf + chunk == |data|)
      ensures Payload(issued + [c]) == Payload(issued) + c.data && Payload(issued) == data[..buf]
    {
      hide LegalCall, Consecutive;
      OneMoreCall(issued, addr, c);
      assert data[..buf + chunk] == data[..buf] + data[buf..buf + chunk];
      assert Payload(issued) == data[..buf];
    }

    lemma NextAddress(addr: nat, size: nat, at: nat, chunk: nat, progBuf: seq<octet>, buf: nat)
      requires flash.g.Valid() && LegalCall(flash.g, Call(at, progBuf)) && EndPasses(addr, size, flash.g.End())
      requires at == addr + buf < U32_RANGE && buf + chunk <= size < U32_RANGE && addr < U32_RANGE
      requires chunk <= |progBuf| && (|progBuf| > chunk ==> buf + chunk == size)
      ensures buf + chunk < size ==> U32(at + chunk) == at + chunk < U32_RANGE && IsAligned(at + chunk, flash.g.page)
    {
      hide IsAligned, EndPasses, Geometry.Valid, Geometry.Base, Geometry.Sector;
      var g := flash.g;
      EndInRange();
      AlignedDifference(at + |progBuf|, at, g.page);
      g.BaseMonotonic(g.Sector(at) + 1, |g.sizes|);
      if buf + chunk < size {
        EndIsBelow(addr, size, g.End(), at + chunk);
        FitsU32(at + chunk);
      }
    }

    lemma DropPadding(mem: seq<octet>, addr: nat, issued: seq<Call>, bytes: seq<octet>, last: bool)
      requires Programmed(issued, addr, bytes, last)
      ensures Burn(mem, flash.g.start, addr, Payload(issued)) == Burn(mem, flash.g.start, addr, bytes)
    {
      var pad := |Payload(issued)| - |bytes|;
      BurnAppend(mem, flash.g.start, addr, bytes, Blank(pad));
      BurnBlank(Burn(mem, flash.g.start, addr, bytes), flash.g.start, addr + |bytes|, pad);
    }

    // -------------------------------------------------------------------
    // Erasing
    // -------------------------------------------------------------------

    /** The range must end where the flash does or at the start of a sector. */
    predicate EraseAccepted(addr: nat, size: nat)
      requires flash.g.Valid()
    {
      EndPasses(addr, size, flash.g.End()) &&
      (U32(addr + size) < U32(flash.g.End()) ==> EndsAligned(U32(addr + size)))
    }

    predicate EndsAligned(end: nat)
      requires flash.g.Valid()
    {
      var size := flash.g.SectorSize(end);
      size > 0 && IsAligned(end, size)
    }

    /** Only the starts of sectors are aligned to the sector that they are in. */
    lemma EraseAcceptedIff(addr: nat, size: nat)
      requires flash.g.Valid()
      ensures var end, top := (addr + size) % 0x1_0000_0000, flash.g.End() % 0x1_0000_0000;
              EraseAccepted(addr, size) <==> end == top || (end < top && (end == 0 || flash.g.IsBase(end)))
    {
      var end := U32(addr + size);
      hide Geometry.Base, Geometry.Sector, Geometry.Valid, Geometry.IsBase, EndsAligned;
      if end < U32(flash.g.End()) {
        if flash.g.Mapped(end) {
          EndsAlignedIff(end);
        } else {
          NotInFlash(end);
        }
      }
    }

    lemma EraseAcceptedInside(addr: nat, size: nat)
      requires flash.g.Valid() && flash.g.End() < 0x1_0000_0000
      requires addr + size == flash.g.End() || flash.g.IsBase(addr + size)
      ensures EraseAccepted(addr, size) && addr + size <= flash.g.End()
    {
      hide Geometry.Base, Geometry.Valid, Geometry.IsBase, EraseAccepted;
      if addr + size != flash.g.End() {
        BaseInside(addr + size);
      }
      FitsU32(addr + size);
      FitsU32(flash.g.End());
      EraseAcceptedIff(addr, size);
    }

    lemma BaseInside(address: nat)
      requires flash.g.Valid() && flash.g.IsBase(address)
      ensures address < flash.g.End()
    {
      hide Geometry.Base, Geometry.Valid;
      var g := flash.g;
      var k :| 0 <= k < |g.sizes| && g.Base(k) == address;
      g.BaseMonotonic(k + 1, |g.sizes|);
      g.SectorShape(k);
    }

    lemma EndsAlignedIff(end: nat)
      requires flash.g.Valid() && flash.g.Mapped(end)
      ensures EndsAligned(end) <==> flash.g.IsBase(end)
      ensures end == 0 ==> flash.g.IsBase(end)
    {
      assert end == 0 ==> flash.g.Base(0) == 0 && |flash.g.sizes| > 0;
      hide IsAligned, Geometry.Base, Geometry.Sector, Geometry.Valid;
      var g, k := flash.g, flash.g.Sector(end);
      g.SectorShape(k);
      if EndsAligned(end) {
        AlignedInSector(g.Base(k), g.sizes[k], end);
      }
      if g.IsBase(end) {
        var j :| 0 <= j < |g.sizes| && g.Base(j) == end;
        g.SectorShape(j);
        g.SectorUnique(end, j);
      }
    }

    lemma NotInFlash(end: nat)
      requires flash.g.Valid() && !flash.g.Mapped(end) && end < flash.g.End() % 0x1_0000_0000
      ensures EndsAligned(end) <==> end == 0
      ensures !flash.g.IsBase(end)
    {
      hide Geometry.Base, Geometry.Sector;
      var g := flash.g;
      EndInRange();
      assert end < g.End() && end < g.start;
    }

    /** Erases whole sectors one after the other: count of them from the first. */
    method Erase(addr: nat, size: nat) returns (status: int, ghost first: nat, ghost count: nat)
      requires Valid() && addr < U32_RANGE && size < U32_RANGE
      requires flash.g.Mapped(addr) ==> flash.g.Base(flash.g.Sector(addr)) == addr
      modifies flash`mem, flash`erased
      ensures Valid() && first + count <= |flash.g.sizes|
      ensures flash.erased == old(flash.erased) + Following(first, count)
      ensures count > 0 ==> flash.g.Base(first) == addr && flash.g.Base(first + count) <= addr + size
      ensures flash.mem == if count == 0 then old(flash.mem)
                           else Cleared(old(flash.mem), flash.g.start, addr, flash.g.Base(first + count))
      ensures status == 0 || status == -1
      // The range must end, in 32-bit arithmetic, where the flash ends, where one of its
      // sectors begins, or at zero.
      ensures var end, top := (addr + size) % 0x1_0000_0000, flash.g.End() % 0x1_0000_0000;
              if end == top || (end < top && (end == 0 || flash.g.IsBase(end))) then
                status == 0 <==> if count == 0 then size == 0 else flash.g.Base(first + count) == addr + size
              else
                status == -1 && count == 0
      // On a device that does not fail, such a range inside a flash that ends below
      // 4 GB is erased.
      ensures (&& flash.reliable && flash.g.start <= addr && flash.g.End() < 0x1_0000_0000
               && (addr + size == flash.g.End() || flash.g.IsBase(addr + size)))
              ==> status == 0
    {
      hide IsAligned, EndPasses, Geometry.Valid, Geometry.Sector, Geometry.Base, Geometry.IsBase, Cleared, EraseAccepted;
      EraseAcceptedIff(addr, size);
      if flash.g.End() < 0x1_0000_0000 && (addr + size == flash.g.End() || flash.g.IsBase(addr + size)) {
        EraseAcceptedInside(addr, size);
      }
      first, count := 0, 0;
      if !EraseAccepted(addr, size) {
        return -1, first, count;
      }
      status, first, count := EraseSectors(addr, size);
    }

    /** Erasing proper, sector by sector. */
    method EraseSectors(addr: nat, size: nat) returns (status: int, ghost first: nat, ghost count: nat)
      requires Valid() && addr < U32_RANGE && size < U32_RANGE && EraseAccepted(addr, size)
      requires flash.g.Mapped(addr) ==> flash.g.Base(flash.g.Sector(addr)) == addr
      modifies flash`mem, flash`erased
      ensures Valid() && first + count <= |flash.g.sizes|
      ensures flash.erased == old(flash.erased) + Following(first, count)
      ensures count > 0 ==> flash.g.Base(first) == addr && flash.g.Base(first + count) <= addr + size
      ensures flash.mem == if count == 0 then old(flash.mem)
                           else Cleared(old(flash.mem), flash.g.start, addr, flash.g.Base(first + count))
      ensures status == 0 || status == -1
      ensures status == 0 <==> if count == 0 then size == 0 else flash.g.Base(first + count) == addr + size
      ensures flash.reliable && flash.g.start <= addr && addr + size <= flash.g.End() ==> status == 0
    {
      hide IsAligned, EndPasses, Geometry.Valid, Geometry.Sector, Geometry.Base, Geometry.SectorSize, Cleared, EraseAccepted;
      ghost var g, m0 := flash.g, flash.mem;
      first, count := if g.Mapped(addr) then g.Sector(addr) else 0, 0;
      status := 0;
      var left: nat, at: nat := size, addr;
      while left > 0
        invariant Valid() && left <= size && status == 0 && first + count <= |g.sizes|
        invariant left > 0 ==> at == addr + size - left < U32_RANGE
        invariant g.Mapped(addr) ==> g.Base(first + count) == addr + size - left
        invariant count > 0 ==> g.Mapped(addr) && left < size
        invariant count == 0 ==> left == size
        invariant g.Mapped(addr) ==> g.Base(first) == addr
        invariant flash.erased == old(flash.erased) + Following(first, count)
        invariant flash.mem == if count == 0 then m0 else Cleared(m0, g.start, addr, g.Base(first + count))
        invariant !g.Mapped(addr) ==> count == 0
      {
        ghost var j := first + count;
        if g.Mapped(at) {
          AtSector(addr, size, at, first, count, left);
        }
        var failed := flash.EraseSector(at);
        if failed != 0 {
          status := -1;
          break;
        }
        var sectorSize := flash.g.SectorSize(at);
        ClearedMore(m0, g.start, addr, at, g.Base(j + 1));
        left, at, count := U32(left - sectorSize), U32(at + sectorSize), count + 1;
      }
    }

    function Following(first: nat, count: nat): (r: seq<nat>)
      ensures |r| == count
    {
      seq(count, i requires 0 <= i < count => first + i)
    }

    lemma ClearedMore(mem: seq<octet>, start: nat, from: nat, mid: nat, to: nat)
      requires from <= mid <= to
      ensures Cleared(Cleared(mem, start, from, mid), start, mid, to) == Cleared(mem, start, from, to)
      ensures Cleared(mem, start, from, from) == mem
    {
    }

    /** The next sector lies wholly in the range. */
    lemma AtSector(addr: nat, size: nat, at: nat, first: nat, count: nat, left: nat)
      requires flash.g.Valid() && EraseAccepted(addr, size) && addr < U32_RANGE && size < U32_RANGE
      requires first + count <= |flash.g.sizes| && flash.g.Mapped(at)
      requires 0 < left <= size && at == addr + size - left && flash.g.Base(first + count) == at
      ensures first + count < |flash.g.sizes| && flash.g.Sector(at) == first + count
      ensures flash.g.SectorSize(at) == flash.g.Base(first + count + 1) - at <= left
      ensures flash.g.SectorSize(at) < left ==> at + flash.g.SectorSize(at) < U32_RANGE
    {
      hide IsAligned, EndPasses, EraseAccepted, Geometry.Base, Geometry.Valid, Geometry.Sector;
      var g, j := flash.g, first + count;
      assert j < |g.sizes|;
      g.SectorShape(j);
      EndInRange();
      g.SectorUnique(at, j);
      g.BaseMonotonic(j + 1, |g.sizes|);
      EndOfRange(addr, size, j);
      EndPassed(addr, size);
      if g.SectorSize(at) < left {
        EndIsBelow(addr, size, g.End(), at + g.SectorSize(at));
      }
    }

    lemma EndInRange()
      requires flash.g.Valid()
      ensures flash.g.End() <= U32_RANGE
    {
    }

    lemma EndPassed(addr: nat, size: nat)
      requires flash.g.Valid() && EraseAccepted(addr, size)
      ensures EndPasses(addr, size, flash.g.End())
    {
    }

    /** A range that reaches into a sector reaches its end. */
    lemma EndOfRange(addr: nat, size: nat, j: nat)
      requires flash.g.Valid() && EraseAccepted(addr, size) && addr < U32_RANGE && size < U32_RANGE
      requires j < |flash.g.sizes| && flash.g.Base(j) < addr + size
      ensures flash.g.Base(j + 1) <= addr + size
    {
      hide IsAligned, EndPasses, Geometry.Base, Geometry.Valid, Geometry.Sector, U32;
      var g, end := flash.g, addr + size;
      g.BaseMonotonic(j + 1, |g.sizes|);
      EndInRange();
      if end < g.End() {
        EndWithin(addr, size, g.End());
        var k := g.Sector(end);
        g.SectorShape(k);
        AlignedInSector(g.Base(k), g.sizes[k], end);
        if k <= j {
          g.BaseMonotonic(k, j);
        } else {
          g.BaseMonotonic(j + 1, k);
        }
      }
    }

    /** The end of the range is checked but not its start: erasing the sector of the
        first address stays within an accepted range exactly when that address is
        where the sector starts. */
    lemma FirstSectorInsideIff(addr: nat, size: nat)
      requires flash.g.Valid() && EraseAccepted(addr, size) && addr < U32_RANGE && 0 < size < U32_RANGE
      requires flash.g.Mapped(addr)
      ensures addr <= flash.g.Base(flash.g.Sector(addr)) && flash.g.Base(flash.g.Sector(addr) + 1) <= addr + size
         <==> flash.g.Base(flash.g.Sector(addr)) == addr
    {
      hide EraseAccepted, Geometry.Valid, Geometry.Base, Geometry.Sector;
      EndOfRange(addr, size, flash.g.Sector(addr));
    }

    /** Such as the second half of the first of two 16-byte sectors: the range is
        accepted, and the first half is erased with it. */
    lemma FirstSectorOutside()
      requires flash.g == Geometry(0, 4, [16, 16])
      ensures flash.g.Valid() && EraseAccepted(8, 8) && flash.g.Mapped(8)
      ensures flash.g.Base(flash.g.Sector(8)) == 0 && flash.g.Base(flash.g.Sector(8) + 1) == 16
    {
      var g := flash.g;
      assert g.Base(0) == 0 && g.Base(1) == 16 && g.Base(2) == 32;
      g.SectorUnique(8, 0);
      g.SectorUnique(16, 1);
    }

    lemma EndWithin(addr: nat, size: nat, end: nat)
      requires addr < U32_RANGE && size < U32_RANGE && end <= U32_RANGE
      requires EndPasses(addr, size, end) && 0 < addr + size < end
      ensures U32(addr + size) == addr + size < U32(end)
    {
    }

    /** Only the start of a self-aligned sector is aligned to its size. */
    lemma AlignedInSector(base: nat, size: nat, address: nat)
      requires size > 0 && IsAligned(base, size) && IsAligned(address, size) && base <= address < base + size
      ensures address == base
    {
      OffsetInSector(base, size, address);
    }
  }
}
