/** The buffered serial port: a writer, a reader, two interrupt handlers and the
    hardware share two ring buffers and switch the interrupts on and off.

    A critical section, and an interrupt handler, is one atomic step. Everywhere
    else a thread calls Interrupts(), which lets any number of handler and hardware
    steps happen. The API mutex is held by one thread at a time and released only
    in the two wait loops, where the other thread's locked section may run too. */
module UartSerial {
  import opened RingBuffer

  type octet = bv8

  const EAGAIN: int := 11

  class UARTSerial {
    const txbuf: CircularBuffer<octet>
    const rxbuf: CircularBuffer<octet>
    var blocking: bool
    var txIrqEnabled: bool
    var rxIrqEnabled: bool

    // The handler slots of the base class, and the hardware.
    var txAttached: bool
    var rxAttached: bool
    var room: nat
    var incoming: seq<octet>

    // The environment's promise: how many more waits in a row may pass before an
    // attached transmit interrupt is served with room in the hardware, or before
    // a byte arrives while the receive interrupt is attached.
    var txPatience: nat
    var rxPatience: nat

    // History.
    ghost var accepted: seq<octet>
    ghost var wire: seq<octet>
    ghost var arrived: seq<octet>
    ghost var delivered: seq<octet>

    // How much had been delivered when a reader paused last.
    ghost var pausedAt: nat

    // A writer between its push and its critical section, a reader between its
    // pop and its critical section.
    ghost var writing: bool
    ghost var reading: bool

    ghost predicate Buffers()
      reads this, txbuf, txbuf.pool, rxbuf, rxbuf.pool
    {
      && txbuf != rxbuf && txbuf.pool != rxbuf.pool
      && txbuf.Valid() && rxbuf.Valid()
    }

    /** Nothing is lost, repeated or reordered. */
    ghost predicate Streams()
      reads this, txbuf, rxbuf
    {
      && wire + txbuf.contents == accepted
      && delivered + rxbuf.contents + incoming == arrived
    }

    /** Transmission never stalls. */
    ghost predicate TxRuns()
      reads this, txbuf
    {
      && (txIrqEnabled ==> txbuf.contents != [])
      && (txbuf.contents != [] && !writing ==> txIrqEnabled)
    }

    /** Reception never stalls. */
    ghost predicate RxRuns()
      reads this, rxbuf
    {
      && (rxIrqEnabled ==> |rxbuf.contents| < rxbuf.capacity)
      && (|rxbuf.contents| < rxbuf.capacity && !reading ==> rxIrqEnabled)
    }

    ghost predicate Flags()
      reads this
    {
      txIrqEnabled == txAttached && rxIrqEnabled == rxAttached
    }

    ghost predicate Valid()
      reads this, txbuf, txbuf.pool, rxbuf, rxbuf.pool
    {
      Buffers() && Streams() && TxRuns() && RxRuns() && Flags()
    }

    constructor (txSize: nat, rxSize: nat)
      requires 0 < txSize < 0x1_0000_0000 && 0 < rxSize < 0x1_0000_0000
      ensures Valid() && blocking && !writing && !reading
      ensures fresh(txbuf) && fresh(rxbuf) && fresh(txbuf.pool) && fresh(rxbuf.pool)
      ensures txbuf.capacity == txSize && rxbuf.capacity == rxSize
      ensures accepted == wire == arrived == delivered == []
    {
      txbuf := new CircularBuffer(txSize, 0x1_0000_0000);
      rxbuf := new CircularBuffer(rxSize, 0x1_0000_0000);
      blocking := true;
      txIrqEnabled, txAttached := false, false;
      rxIrqEnabled, rxAttached := true, true;
      room, incoming, txPatience, rxPatience := 0, [], 0, 0;
      accepted, wire, arrived, delivered, pausedAt := [], [], [], [], 0;
      writing, reading := false, false;
    }

    // -------------------------------------------------------------------
    // Interrupt handlers
    // -------------------------------------------------------------------

    method TxIrq()
      requires Valid()
      modifies this`txIrqEnabled, this`txAttached, this`room, this`wire, txbuf
      ensures Valid()
      ensures old(wire) <= wire && |txbuf.contents| <= |old(txbuf.contents)|
      ensures room == 0 || txbuf.contents == []
      ensures old(room) > 0 ==> |txbuf.contents| < txbuf.capacity
    {
      var popped := true;
      while room > 0 && popped
        invariant Buffers() && Streams() && RxRuns() && Flags() && txIrqEnabled == old(txIrqEnabled)
        invariant old(wire) <= wire && |txbuf.contents| <= |old(txbuf.contents)|
        invariant |txbuf.contents| < |old(txbuf.contents)| || txbuf.contents == [] || room >= old(room)
        invariant !popped ==> txbuf.contents == []
        decreases |txbuf.contents|, popped
      {
        popped := PutOne();
        var sent: nat :| sent >= 0;
        room := room + sent;
      }
      var isEmpty := txbuf.Empty();
      if txIrqEnabled && isEmpty {
        txAttached := false;
        txIrqEnabled := false;
      }
    }

    /** One byte from the buffer to the hardware. */
    method PutOne() returns (popped: bool)
      requires Buffers() && Streams() && room > 0
      modifies this`room, this`wire, txbuf
      ensures Buffers() && Streams() && old(wire) <= wire
      ensures popped ==> |txbuf.contents| < |old(txbuf.contents)|
      ensures !popped ==> txbuf.contents == [] && unchanged(this)
    {
      var data;
      popped, data := txbuf.Pop();
      if popped {
        room := room - 1;
        wire := wire + [data];
      }
    }

    method RxIrq()
      requires Valid()
      modifies this`rxIrqEnabled, this`rxAttached, this`incoming, this`arrived, rxbuf, rxbuf.pool
      ensures Valid()
      ensures old(arrived) <= arrived && |rxbuf.contents| >= |old(rxbuf.contents)|
      ensures incoming == [] || |rxbuf.contents| == rxbuf.capacity
      ensures old(incoming) != [] ==> rxbuf.contents != []
    {
      var isFull := rxbuf.Full();
      while !isFull && incoming != []
        invariant Buffers() && Streams() && TxRuns() && Flags() && rxIrqEnabled == old(rxIrqEnabled)
        invariant isFull == (|rxbuf.contents| == rxbuf.capacity)
        invariant old(arrived) <= arrived && |rxbuf.contents| >= |old(rxbuf.contents)|
        invariant rxbuf.contents != [] || incoming == old(incoming)
        decreases rxbuf.capacity - |rxbuf.contents|
      {
        GetOne();
        var more: seq<octet> := *;
        incoming, arrived := incoming + more, arrived + more;
        isFull := rxbuf.Full();
      }
      if rxIrqEnabled && isFull {
        rxAttached := false;
        rxIrqEnabled := false;
      }
    }

    /** One byte from the hardware to the buffer, which never drops one for it. */
    method GetOne()
      requires Buffers() && Streams() && incoming != [] && |rxbuf.contents| < rxbuf.capacity
      modifies this`incoming, rxbuf, rxbuf.pool
      ensures Buffers() && Streams() && |rxbuf.contents| == |old(rxbuf.contents)| + 1
    {
      var data := incoming[0];
      incoming := incoming[1..];
      rxbuf.Push(data);
      assert old(incoming) == [data] + incoming;
    }

    /** Any number of hardware steps and served interrupts. */
    method Interrupts()
      requires Valid()
      modifies this`txIrqEnabled, this`txAttached, this`room, this`wire, txbuf
      modifies this`rxIrqEnabled, this`rxAttached, this`incoming, this`arrived, rxbuf, rxbuf.pool
      ensures Valid()
      ensures old(wire) <= wire && |txbuf.contents| <= |old(txbuf.contents)|
      ensures old(arrived) <= arrived && |rxbuf.contents| >= |old(rxbuf.contents)|
    {
      var steps: nat :| steps >= 0;
      while steps > 0
        invariant Valid()
        invariant old(wire) <= wire && |txbuf.contents| <= |old(txbuf.contents)|
        invariant old(arrived) <= arrived && |rxbuf.contents| >= |old(rxbuf.contents)|
        decreases steps
      {
        if {
          case txAttached =>
            TxIrq();
          case rxAttached =>
            RxIrq();
          case true =>
            var sent: nat :| sent >= 0;
            var more: seq<octet> := *;
            room := room + sent;
            incoming, arrived := incoming + more, arrived + more;
        }
        steps := steps - 1;
      }
    }

    // -------------------------------------------------------------------
    // Writing
    // -------------------------------------------------------------------

    /** The locked part of a write: fill the buffer, then see that the bytes move.
        Interrupts come between any two of its steps. */
    method Fill(data: seq<octet>, from: nat) returns (written: nat)
      requires Valid() && !writing && !reading && from < |data|
      modifies this`txIrqEnabled, this`txAttached, this`room, this`wire, this`accepted, this`writing
      modifies this`rxIrqEnabled, this`rxAttached, this`incoming, this`arrived
      modifies txbuf, txbuf.pool, rxbuf, rxbuf.pool
      ensures Valid() && !writing
      ensures from <= written <= |data| && accepted == old(accepted) + data[from..written]
      // All of it, or what fitted, or more when room was made on the way.
      ensures written == |data| || written - from >= txbuf.capacity - |old(txbuf.contents)|
      ensures |txbuf.contents| <= |old(txbuf.contents)| + written - from
      ensures |rxbuf.contents| >= |old(rxbuf.contents)|
    {
      hide UARTSerial.Streams, UARTSerial.TxRuns, UARTSerial.RxRuns;
      written := from;
      Interrupts();
      var isFull := txbuf.Full();
      while written < |data| && !isFull
        invariant Valid() && from <= written <= |data|
        invariant accepted == old(accepted) + data[from..written]
        invariant |rxbuf.contents| >= |old(rxbuf.contents)|
        invariant !isFull ==> |txbuf.contents| < txbuf.capacity
        invariant |txbuf.contents| <= |old(txbuf.contents)| + written - from
        invariant isFull ==> written - from >= txbuf.capacity - |old(txbuf.contents)|
      {
        Interrupts();
        PushOne(data[written]);
        written := written + 1;
        assert data[from..written] == data[from..written - 1] + [data[written - 1]];
        Interrupts();
        isFull := txbuf.Full();
      }
      Interrupts();
      StartTransmission();
    }

    /** One accepted byte; the buffer has room, so nothing is overwritten. */
    method PushOne(b: octet)
      requires Valid() && |txbuf.contents| < txbuf.capacity
      modifies this`accepted, this`writing, txbuf, txbuf.pool
      ensures Valid() && writing && accepted == old(accepted) + [b]
      ensures |txbuf.contents| == |old(txbuf.contents)| + 1
    {
      txbuf.Push(b);
      accepted, writing := accepted + [b], true;
    }

    /** The critical section that ends the locked part. */
    method StartTransmission()
      requires Valid()
      modifies this`txIrqEnabled, this`txAttached, this`room, this`wire, this`writing, txbuf
      ensures Valid() && !writing && |txbuf.contents| <= |old(txbuf.contents)|
      // Without waiting for an interrupt, the hardware is given what it takes.
      ensures !old(txIrqEnabled) ==> room == 0 || txbuf.contents == []
    {
      if !txIrqEnabled {
        TxIrq();
        var isEmpty := txbuf.Empty();
        if !isEmpty {
          txAttached := true;
          txIrqEnabled := true;
        }
      }
      writing := false;
    }

    /** The wait loop's pause: the mutex is free, so readers may have their turns. The
        buffer makes room before the environment's patience is used up. */
    method WaitToWrite()
      requires Valid() && !writing && !reading && |txbuf.contents| == txbuf.capacity
      modifies this`txIrqEnabled, this`txAttached, this`room, this`wire, this`txPatience
      modifies this`rxIrqEnabled, this`rxAttached, this`incoming, this`arrived
      modifies this`delivered, this`reading, txbuf, rxbuf, rxbuf.pool
      ensures Valid() && !writing && !reading
      ensures |txbuf.contents| <= |old(txbuf.contents)|
      ensures old(txAttached) ==> txPatience < old(txPatience) || |txbuf.contents| < txbuf.capacity
    {
      if txPatience > 0 {
        txPatience := txPatience - 1;
        assert Streams() && TxRuns() && RxRuns();
        hide UARTSerial.Streams, UARTSerial.TxRuns, UARTSerial.RxRuns;
        Interrupts();
        var turns: nat :| turns >= 0;
        for turn := 0 to turns
          invariant Valid() && !writing && !reading && txPatience == old(txPatience) - 1
          invariant |txbuf.contents| <= |old(txbuf.contents)|
        {
          var length: nat :| length >= 0;
          var taken := Drain(length);
          Interrupts();
        }
      } else if txAttached {
        var more: nat :| more >= 0;
        room := room + 1;
        txPatience := more;
        TxIrq();
      }
    }

    /** The wait loop ends: a full buffer has its interrupt enabled. */
    method AwaitRoom()
      requires Valid() && !writing && !reading && |txbuf.contents| == txbuf.capacity
      modifies this`txIrqEnabled, this`txAttached, this`room, this`wire, this`txPatience
      modifies this`rxIrqEnabled, this`rxAttached, this`incoming, this`arrived
      modifies this`delivered, this`reading, txbuf, rxbuf, rxbuf.pool
      ensures Valid() && !writing && !reading
      ensures |txbuf.contents| < txbuf.capacity
    {
      var isFull := true;
      while isFull
        invariant Valid() && !writing && !reading
        invariant isFull == (|txbuf.contents| == txbuf.capacity)
        decreases isFull, txPatience
      {
        WaitToWrite();
        isFull := txbuf.Full();
      }
    }

    /** Everything is written when blocking; otherwise what fits, and a short write
        means that the buffer was full. That is so at the last test of the buffer;
        interrupts may have made room since when the caller sees the result. */
    method Write(data: seq<octet>) returns (result: int)
      requires Valid() && !writing && !reading
      modifies this`txIrqEnabled, this`txAttached, this`room, this`wire, this`txPatience, this`accepted, this`writing
      modifies this`rxIrqEnabled, this`rxAttached, this`incoming, this`arrived
      modifies this`delivered, this`reading, txbuf, txbuf.pool, rxbuf, rxbuf.pool
      ensures Valid() && !writing && !reading
      ensures result == -EAGAIN || 0 <= result <= |data|
      ensures accepted == old(accepted) + data[..if result >= 0 then result else 0]
      ensures blocking ==> result == |data|
      ensures result < |data| ==> |txbuf.contents| == txbuf.capacity
      ensures !blocking && 0 <= result < |data| ==> result >= txbuf.capacity - |old(txbuf.contents)|
      ensures result == -EAGAIN ==> |old(txbuf.contents)| == txbuf.capacity
      ensures result == 0 ==> data == []
      // It waits only when blocking, and not when everything fits from the start.
      ensures !blocking || |old(txbuf.contents)| + |data| <= txbuf.capacity ==> txPatience == old(txPatience)
    {
      hide UARTSerial.Streams, UARTSerial.TxRuns, UARTSerial.RxRuns;
      var dataWritten := 0;
      if |data| == 0 {
        return 0;
      }
      while dataWritten < |data|
        invariant Valid() && !writing && !reading && dataWritten <= |data|
        invariant accepted == old(accepted) + data[..dataWritten]
        invariant !blocking ==> |txbuf.contents| <= |old(txbuf.contents)| + dataWritten
        invariant |old(txbuf.contents)| + |data| <= txbuf.capacity && dataWritten < |data| ==>
                    dataWritten == 0 && |txbuf.contents| <= |old(txbuf.contents)|
        invariant !blocking || |old(txbuf.contents)| + |data| <= txbuf.capacity ==> txPatience == old(txPatience)
      {
        Interrupts();
        var isFull := txbuf.Full();
        if isFull {
          if !blocking {
            break;
          }
          AwaitRoom();
        }
        var before := dataWritten;
        dataWritten := Fill(data, dataWritten);
        assert data[..dataWritten] == data[..before] + data[before..dataWritten];
      }
      result := if dataWritten != 0 then dataWritten else -EAGAIN;
    }

    // -------------------------------------------------------------------
    // Reading
    // -------------------------------------------------------------------

    /** The locked part of a read: take what is there, then see that more can come. */
    method Drain(length: nat) returns (taken: seq<octet>)
      requires Valid() && !writing && !reading
      modifies this`txIrqEnabled, this`txAttached, this`room, this`wire
      modifies this`rxIrqEnabled, this`rxAttached, this`incoming, this`arrived
      modifies this`delivered, this`reading, txbuf, rxbuf, rxbuf.pool
      ensures Valid() && !reading
      ensures |taken| <= length && delivered == old(delivered) + taken
      // As many as asked, or all there were and perhaps more.
      ensures |taken| == length || |taken| >= |old(rxbuf.contents)|
      ensures |txbuf.contents| <= |old(txbuf.contents)|
    {
      hide UARTSerial.Streams, UARTSerial.TxRuns, UARTSerial.RxRuns;
      taken := [];
      Interrupts();
      var isEmpty := rxbuf.Empty();
      while |taken| < length && !isEmpty
        invariant Valid() && |taken| <= length
        invariant delivered == old(delivered) + taken
        invariant |txbuf.contents| <= |old(txbuf.contents)|
        invariant !isEmpty ==> rxbuf.contents != []
        invariant |taken| + |rxbuf.contents| >= |old(rxbuf.contents)|
        invariant isEmpty ==> |taken| >= |old(rxbuf.contents)|
        decreases length - |taken|
      {
        Interrupts();
        var data := PopOne();
        taken := taken + [data];
        Interrupts();
        isEmpty := rxbuf.Empty();
      }
      Interrupts();
      ResumeReception();
    }

    method PopOne() returns (b: octet)
      requires Valid() && rxbuf.contents != []
      modifies this`delivered, this`reading, rxbuf
      ensures Valid() && reading && delivered == old(delivered) + [b]
      ensures |rxbuf.contents| == |old(rxbuf.contents)| - 1
    {
      var popped;
      popped, b := rxbuf.Pop();
      delivered, reading := delivered + [b], true;
    }

    method ResumeReception()
      requires Valid()
      modifies this`rxIrqEnabled, this`rxAttached, this`incoming, this`arrived, this`reading, rxbuf, rxbuf.pool
      ensures Valid() && !reading
      ensures !old(rxIrqEnabled) ==> incoming == [] || |rxbuf.contents| == rxbuf.capacity
    {
      if !rxIrqEnabled {
        RxIrq();
        var isFull := rxbuf.Full();
        if !isFull {
          rxAttached := true;
          rxIrqEnabled := true;
        }
      }
      reading := false;
    }

    /** The locked sections of any number of writes. */
    method WritersTurns()
      requires Valid() && !writing && !reading
      modifies this`txIrqEnabled, this`txAttached, this`room, this`wire, this`accepted, this`writing
      modifies this`rxIrqEnabled, this`rxAttached, this`incoming, this`arrived
      modifies txbuf, txbuf.pool, rxbuf, rxbuf.pool
      ensures Valid() && !writing && !reading
      ensures |rxbuf.contents| >= |old(rxbuf.contents)|
    {
      hide UARTSerial.Streams, UARTSerial.TxRuns, UARTSerial.RxRuns;
      Interrupts();
      var turns: nat :| turns >= 0;
      for turn := 0 to turns
        invariant Valid() && !writing && !reading
        invariant |rxbuf.contents| >= |old(rxbuf.contents)|
      {
        var data: seq<octet> := *;
        if data != [] {
          var written := Fill(data, 0);
        }
        Interrupts();
      }
    }

    /** The reader's pause: writers may have their turns. */
    method WaitToRead()
      requires Valid() && !writing && !reading && rxbuf.contents == []
      modifies this`txIrqEnabled, this`txAttached, this`room, this`wire, this`accepted, this`writing
      modifies this`rxIrqEnabled, this`rxAttached, this`incoming, this`arrived, this`rxPatience, this`pausedAt
      modifies txbuf, txbuf.pool, rxbuf, rxbuf.pool
      ensures Valid() && !writing && !reading
      ensures |rxbuf.contents| >= |old(rxbuf.contents)| && pausedAt == |delivered|
      ensures old(rxAttached) ==> rxPatience < old(rxPatience) || rxbuf.contents != []
    {
      if rxPatience > 0 {
        rxPatience := rxPatience - 1;
        WritersTurns();
      } else if rxAttached {
        var more: nat, b: octet :| more >= 0;
        incoming, arrived := incoming + [b], arrived + [b];
        rxPatience := more;
        RxIrq();
      }
      pausedAt := |delivered|;
    }

    /** At least one byte when blocking; what was read is what left the buffer. The
        error means that the buffer was empty when it was last tested; bytes may have
        arrived since when the caller sees the result. */
    method Read(length: nat) returns (result: int, ptr: seq<octet>)
      requires Valid() && !writing && !reading
      modifies this`txIrqEnabled, this`txAttached, this`room, this`wire, this`accepted, this`writing
      modifies this`rxIrqEnabled, this`rxAttached, this`incoming, this`arrived, this`rxPatience, this`pausedAt
      modifies this`delivered, this`reading, txbuf, txbuf.pool, rxbuf, rxbuf.pool
      ensures Valid() && !writing && !reading
      ensures delivered == old(delivered) + ptr && |ptr| <= length
      ensures result == if ptr == [] && length > 0 then -EAGAIN else |ptr|
      ensures blocking && length > 0 ==> ptr != []
      ensures |ptr| == length || |ptr| >= |old(rxbuf.contents)|
      ensures result == -EAGAIN ==> rxbuf.contents == []
      // It waits only when blocking, for the first byte, and not when there is one.
      ensures !blocking || old(rxbuf.contents) != [] || length == 0 ==> unchanged(this`rxPatience, this`pausedAt)
      ensures pausedAt == old(pausedAt) || pausedAt == |old(delivered)|
    {
      hide UARTSerial.Streams, UARTSerial.TxRuns;
      ptr := [];
      if length == 0 {
        return 0, [];
      }
      Interrupts();
      var isEmpty := rxbuf.Empty();
      while isEmpty
        invariant Valid() && !writing && !reading
        invariant isEmpty == (rxbuf.contents == []) && delivered == old(delivered)
        invariant |rxbuf.contents| >= |old(rxbuf.contents)|
        invariant !blocking || old(rxbuf.contents) != [] ==> unchanged(this`rxPatience, this`pausedAt)
        invariant pausedAt == old(pausedAt) || pausedAt == |old(delivered)|
        decreases isEmpty, rxPatience
      {
        if !blocking {
          return -EAGAIN, [];
        }
        WaitToRead();
        isEmpty := rxbuf.Empty();
      }
      ptr := Drain(length);
      result := |ptr|;
    }
  }
}
