/** The pickle, which grows its buffer as values are written, and its iterator. */
module Pickles {
  import opened Wrappers
  import opened Bits
  import opened PickleFormat

  const PAYLOAD_UNIT := 64
  const HEAP_ALIGN := 4096
  const UINT32_MAX := UINT32_LIMIT - 1

  /** The capacity that is asked for when `needed` bytes do not fit into `capacity`. */
  function Grown(capacity: nat, needed: nat): nat {
    var doubled := 2 * capacity;
    var wanted := if doubled > HEAP_ALIGN then Align4096(doubled) - PAYLOAD_UNIT else doubled;
    if wanted > needed then wanted else needed
  }

  /** Growing is geometric, and never past twice the need plus a page. */
  lemma GrownBounds(capacity: nat, needed: nat)
    requires capacity % 64 == 0 && needed > capacity
    ensures var grown := Align64(Grown(capacity, needed));
            needed <= grown && 3 * capacity <= 2 * grown && grown <= 2 * needed + 4096
  {
  }

  lemma {:induction false} AllZero(z: seq<Byte>)
    requires forall i :: 0 <= i < |z| ==> z[i] == 0
    ensures z == Zeros(|z|)
  {
    if z != [] {
      AllZero(z[1..]);
    }
  }

  lemma PaddedIs(bs: seq<Byte>, data: seq<Byte>)
    requires |bs| == Align4(|data|) && bs[..|data|] == data
    requires forall i :: |data| <= i < |bs| ==> bs[i] == 0
    ensures bs == Padded(data)
  {
    AllZero(bs[|data|..]);
    assert bs == data + bs[|data|..];
  }

  /** A buffer after data and cleared padding have been put behind its payload. */
  lemma Appended(was: seq<Byte>, now: seq<Byte>, at: nat, end: nat, data: seq<Byte>)
    requires at <= |was| && end == at + Align4(|data|) <= |now|
    requires forall i :: 0 <= i < |data| ==> now[at + i] == data[i]
    requires forall i :: at + |data| <= i < end ==> now[i] == 0
    ensures now[at..end] == Padded(data)
  {
    var padded := now[at..end];
    assert padded[..|data|] == data;
    assert forall i :: |data| <= i < |padded| ==> padded[i] == now[at + i];
    PaddedIs(padded, data);
  }

  lemma Kept(was: seq<Byte>, now: seq<Byte>, from: nat, at: nat, end: nat)
    requires from <= at <= end <= |now| && at <= |was|
    requires forall i :: from <= i < at ==> now[i] == was[i]
    ensures now[from..end] == was[from..at] + now[at..end]
  {
    assert now[from..at] == was[from..at];
  }

  /** What wrapping a header and the encoding of some values again gives. */
  lemma WrapReads(header: seq<Byte>, xs: seq<Item>)
    requires AllInRange(xs) && |header| >= 4 && |header| % 4 == 0
    requires FromLittle(header[..4]) == |EncodeAll(xs)| <= UINT32_MAX
    ensures var data := header + EncodeAll(xs);
            if |data| < UINT32_LIMIT then
              && HeaderSize(data) == |header| && WrappedPayload(data) == Some(EncodeAll(xs))
              && ReadAll(WrappedPayload(data).value, Kinds(xs)) == (Some(xs), [])
            else WrappedPayload(data) == None
  {
    WrapRecovers(header, EncodeAll(xs));
    RoundTrip(xs, []);
    assert EncodeAll(xs) + [] == EncodeAll(xs);
  }

  lemma Blank(n: nat)
    requires n <= INT_MAX && n % 4 == 0
    ensures var x := Image(BytesKind(n), Zeros(n)); InRange(x) && |Encode(x)| == n
  {
    StaysAligned4(n);
  }

  lemma {:induction false} StaysAligned4(n: nat)
    requires n % 4 == 0
    ensures Align4(n) == n
  {
    if n > 0 {
      StaysAligned4(n - 4);
    }
  }

  lemma EncodeThree(a: Item, b: Item, c: Item)
    requires InRange(a) && InRange(b) && InRange(c)
    ensures EncodeAll([a, b, c]) == Encode(a) + Encode(b) + Encode(c)
  {
    EncodeOneMore([], a);
    EncodeOneMore([a], b);
    EncodeOneMore([a, b], c);
    assert [] + [a] == [a] && [a] + [b] == [a, b] && [a, b] + [c] == [a, b, c];
    assert [] + Encode(a) == Encode(a);
  }

  /** As much as can be written behind a header of four bytes: it cannot be wrapped again. */
  lemma FullPickleIsRefused(big: nat, small: nat, xs: seq<Item>)
    requires big == 0x7FFF_FFFC && small == 4
    requires xs == [Image(BytesKind(big), Zeros(big)), Image(BytesKind(big), Zeros(big)), Image(BytesKind(small), Zeros(small))]
    ensures AllInRange(xs) && |EncodeAll(xs)| == 2 * big + small <= UINT32_MAX
    ensures WrappedPayload(Little(2 * big + small, 4) + EncodeAll(xs)) == None
  {
    Blank(big);
    Blank(small);
    EncodeThree(xs[0], xs[1], xs[2]);
    var header := Little(2 * big + small, 4);
    Powers();
    LittleReads(2 * big + small, 4);
    assert header[..4] == header;
    WrapReads(header, xs);
  }

  /** Doubling, as long as that is enough: exactly, up to a page, and beyond it to whole pages less
      one unit. */
  lemma GrownByDoubling(capacity: nat, needed: nat)
    requires capacity % 64 == 0 && needed <= 2 * capacity - 64
    ensures var grown := Align64(Grown(capacity, needed));
            && 2 * capacity - 64 <= grown < 2 * capacity + HEAP_ALIGN - PAYLOAD_UNIT
            && (2 * capacity <= HEAP_ALIGN ==> grown == 2 * capacity)
            && (2 * capacity > HEAP_ALIGN ==> (grown + PAYLOAD_UNIT) % HEAP_ALIGN == 0)
  {
    var doubled := 2 * capacity;
    if doubled > HEAP_ALIGN {
      var pages := Align4096(doubled);
      PagesLessOneUnit(pages);
      StaysAligned(pages - PAYLOAD_UNIT);
    } else {
      StaysAligned(doubled);
    }
  }

  lemma StaysAligned(n: nat)
    requires n % 64 == 0
    ensures Align64(n) == n
  {
  }

  lemma PagesLessOneUnit(n: nat)
    requires n % 4096 == 0 && n > 0
    ensures n >= 4096 && (n - 64) % 64 == 0
  {
    var pages := n / 4096;
    assert n == 64 * (64 * pages);
  }

  class Pickle {
    var buffer: array<Byte>  // the header, and behind it the capacity
    var headerSize: nat
    var capacity: nat
    var writeOffset: nat
    ghost var written: seq<Item>
    ghost var requested: nat  // the sum of all capacities allocated, from the start or the last assignment
    ghost var reserved: bool  // whether Reserve ever grew the buffer

    ghost predicate Shaped()
      reads this, buffer
    {
      && 4 <= headerSize && headerSize % 4 == 0
      && buffer.Length == headerSize + capacity && capacity % 64 == 0
      && writeOffset <= capacity && writeOffset % 4 == 0 && writeOffset <= UINT32_MAX
      && FromLittle(buffer[..4]) == writeOffset
    }

    ghost function Payload(): seq<Byte>
      requires Shaped()
      reads this, buffer
    {
      buffer[headerSize..headerSize + writeOffset]
    }

    /** All allocations together are at most three times the present one, and without `Reserve`
        that is linear in what was written. */
    ghost predicate Sized()
      reads this, buffer
    {
      && Shaped()
      && requested <= 3 * capacity
      && (!reserved ==> capacity <= 2 * writeOffset + 4096)
    }

    ghost predicate Valid()
      reads this, buffer
    {
      Sized() && AllInRange(written) && Payload() == EncodeAll(written)
    }

    constructor ()
      ensures Valid() && fresh(buffer) && headerSize == 4 && written == [] && !reserved
    {
      headerSize, capacity, writeOffset := 4, PAYLOAD_UNIT, 0;
      buffer := new Byte[4 + PAYLOAD_UNIT];
      written, requested, reserved := [], PAYLOAD_UNIT, false;
      new;
      StoreSize(0);
    }

    constructor WithHeader(size: nat)
      requires 4 <= size <= PAYLOAD_UNIT
      ensures Valid() && fresh(buffer) && headerSize == Align4(size) && written == [] && !reserved
    {
      headerSize, capacity, writeOffset := Align4(size), PAYLOAD_UNIT, 0;
      buffer := new Byte[Align4(size) + PAYLOAD_UNIT];
      written, requested, reserved := [], PAYLOAD_UNIT, false;
      new;
      Align4Rounds(size);
      StoreSize(0);
    }

    /** The payload size, in the first four bytes of the header. */
    method StoreSize(size: nat)
      requires size <= UINT32_MAX && buffer.Length >= 4
      modifies buffer
      ensures FromLittle(buffer[..4]) == size
      ensures forall i :: 4 <= i < buffer.Length ==> buffer[i] == old(buffer[i])
    {
      var bytes := Little(size, 4);
      CopyIn(0, bytes);
      Powers();
      LittleReads(size, 4);
      assert forall i :: 0 <= i < 4 ==> buffer[0 + i] == bytes[i];
      assert buffer[..4] == bytes;
    }

    /** `memcpy` into the buffer. */
    method CopyIn(at: nat, data: seq<Byte>)
      requires at + |data| <= buffer.Length
      modifies buffer
      ensures forall i :: 0 <= i < |data| ==> buffer[at + i] == data[i]
      ensures forall i :: 0 <= i < buffer.Length && !(at <= i < at + |data|) ==> buffer[i] == old(buffer[i])
    {
      forall i | 0 <= i < |data| {
        buffer[at + i] := data[i];
      }
    }

    /** `realloc`: what fits of the old contents stays. */
    method Resize(newCapacity: nat)
      requires buffer.Length == headerSize + capacity
      modifies this`buffer, this`capacity, this`requested
      ensures capacity == Align64(newCapacity) && buffer.Length == headerSize + capacity && fresh(buffer)
      ensures forall i :: 0 <= i < old(buffer.Length) && i < buffer.Length ==> buffer[i] == old(buffer[i])
      ensures requested == old(requested) + capacity
    {
      capacity := Align64(newCapacity);
      requested := requested + capacity;
      var p := new Byte[headerSize + capacity];
      forall i | 0 <= i < p.Length && i < buffer.Length {
        p[i] := buffer[i];
      }
      buffer := p;
    }

    method Reserve(length: nat)
      requires Valid() && writeOffset + Align4(length) <= UINT32_MAX
      modifies this`buffer, this`capacity, this`requested, this`reserved
      ensures Valid() && (buffer == old(buffer) || fresh(buffer))
      ensures writeOffset + Align4(length) <= capacity
    {
      var newSize := writeOffset + Align4(length);
      if newSize > capacity {
        reserved := true;
        Resize(2 * capacity + newSize);
        assert buffer[..4] == old(buffer[..4]);
        assert Payload() == old(Payload());
      }
    }

    /** Grows the buffer if `newSize` bytes of payload do not fit. */
    method MakeRoom(newSize: nat)
      requires Sized() && newSize % 4 == 0 && writeOffset <= newSize
      modifies this`buffer, this`capacity, this`requested
      ensures newSize <= capacity && capacity % 64 == 0 && buffer.Length == headerSize + capacity
      ensures requested <= 3 * capacity && (!reserved ==> capacity <= 2 * newSize + 4096)
      ensures buffer == old(buffer) || fresh(buffer)
      ensures forall i :: 0 <= i < headerSize + writeOffset ==> buffer[i] == old(buffer[i])
    {
      if newSize > capacity {
        GrownBounds(capacity, newSize);
        Resize(Grown(capacity, newSize));
      }
    }

    /** `memset` to zero. */
    method Clear(at: nat, end: nat)
      requires at <= end <= buffer.Length
      modifies buffer
      ensures forall i :: at <= i < end ==> buffer[i] == 0
      ensures forall i :: 0 <= i < buffer.Length && !(at <= i < end) ==> buffer[i] == old(buffer[i])
    {
      forall i | at <= i < end {
        buffer[i] := 0;
      }
    }

    /** Makes room for `length` bytes and their padding, and clears the padding. */
    method ClaimUninitializedBytesInternal(length: nat) returns (at: nat)
      requires Sized() && writeOffset + Align4(length) <= UINT32_MAX
      modifies this`buffer, this`capacity, this`requested, this`writeOffset, buffer
      ensures Sized() && (buffer == old(buffer) || fresh(buffer))
      ensures writeOffset == old(writeOffset) + Align4(length) && at == headerSize + old(writeOffset)
      ensures forall i :: 4 <= i < at ==> buffer[i] == old(buffer[i])
      ensures forall i :: at + length <= i < headerSize + writeOffset ==> buffer[i] == 0
    {
      Align4Rounds(length);
      at := headerSize + writeOffset;
      var newSize := writeOffset + Align4(length);
      MakeRoom(newSize);
      Clear(at + length, headerSize + newSize);
      StoreSize(newSize);
      writeOffset := newSize;
    }

    method WriteBytesCommon(data: seq<Byte>)
      requires Sized() && writeOffset + Align4(|data|) <= UINT32_MAX
      modifies this`buffer, this`capacity, this`requested, this`writeOffset, buffer
      ensures Sized() && (buffer == old(buffer) || fresh(buffer))
      ensures writeOffset == old(writeOffset) + Align4(|data|)
      ensures Payload() == old(Payload()) + Padded(data)
      ensures forall i :: 4 <= i < headerSize ==> buffer[i] == old(buffer[i])
    {
      ghost var was := buffer[..];
      var at := ClaimUninitializedBytesInternal(|data|);
      Fill(at, data);
      ghost var now, end := buffer[..], headerSize + writeOffset;
      Kept(was, now, headerSize, at, end);
      Appended(was, now, at, end, data);
    }

    /** Bytes of the payload are filled in. */
    method Fill(at: nat, data: seq<Byte>)
      requires Sized() && headerSize <= at && at + |data| <= headerSize + writeOffset
      modifies buffer
      ensures Sized()
      ensures forall i :: 0 <= i < |data| ==> buffer[at + i] == data[i]
      ensures forall i :: 0 <= i < buffer.Length && !(at <= i < at + |data|) ==> buffer[i] == old(buffer[i])
    {
      CopyIn(at, data);
      assert buffer[..4] == old(buffer[..4]);
    }

    method WriteInt(n: int)
      requires Sized() && Fits(n, 4) && writeOffset + 4 <= UINT32_MAX
      modifies this`buffer, this`capacity, this`requested, this`writeOffset, buffer
      ensures Sized() && (buffer == old(buffer) || fresh(buffer))
      ensures writeOffset == old(writeOffset) + 4
      ensures Payload() == old(Payload()) + Encode(Number(IntKind, n))
    {
      WriteBytesCommon(Little(Unsigned(n, 4), 4));
    }

    /** A length, and the bytes. */
    method WriteCounted(count: nat, data: seq<Byte>)
      requires Sized() && count <= INT_MAX && writeOffset + 4 + Align4(|data|) <= UINT32_MAX
      modifies this`buffer, this`capacity, this`requested, this`writeOffset, buffer
      ensures Sized() && (buffer == old(buffer) || fresh(buffer))
      ensures Payload() == old(Payload()) + (Padded(Little(count, 4)) + Padded(data))
    {
      ghost var was := Payload();
      WriteInt(count);
      WriteBytesCommon(data);
      Assoc(was, Padded(Little(count, 4)), Padded(data));
    }

    /** Every write appends the encoding of its value. */
    method WriteItem(x: Item)
      requires Sized() && InRange(x) && writeOffset + |Encode(x)| <= UINT32_MAX
      modifies this`buffer, this`capacity, this`requested, this`writeOffset, buffer
      ensures Sized() && (buffer == old(buffer) || fresh(buffer))
      ensures Payload() == old(Payload()) + Encode(x)
    {
      if Counted(x.kind) {
        WriteCounted(if x.kind.String16Kind? then |x.bs| / 2 else |x.bs|, x.bs);
      } else {
        WriteBytesCommon(Raw(x));
      }
    }

    /** So the payload is always the encoding of what was written. */
    method Write(x: Item)
      requires Valid() && InRange(x) && writeOffset + |Encode(x)| <= UINT32_MAX
      modifies this`buffer, this`capacity, this`requested, this`writeOffset, this`written, buffer
      ensures Valid() && (buffer == old(buffer) || fresh(buffer))
      ensures written == old(written) + [x]
    {
      EncodeOneMore(written, x);
      WriteItem(x);
      written := written + [x];
    }

    /** Zeroed bytes for the caller to fill in. */
    method ClaimBytes(length: nat) returns (at: nat)
      requires Valid() && writeOffset + Align4(length) <= UINT32_MAX
      modifies this`buffer, this`capacity, this`requested, this`writeOffset, this`written, buffer
      ensures Valid() && (buffer == old(buffer) || fresh(buffer))
      ensures written == old(written) + [Image(BytesKind(length), Zeros(length))]
      ensures at == headerSize + old(writeOffset)
    {
      at := headerSize + writeOffset;
      Write(Image(BytesKind(length), Zeros(length)));
    }

    /** A copy holds what the original holds, in a buffer that fits it. */
    constructor Copy(other: Pickle)
      requires other.Valid()
      ensures Valid() && fresh(buffer) && headerSize == other.headerSize && written == other.written && !reserved
      ensures buffer[..headerSize + writeOffset] == other.buffer[..headerSize + writeOffset]
    {
      headerSize, writeOffset, written := other.headerSize, other.writeOffset, other.written;
      capacity := Align64(other.writeOffset);
      requested, reserved := Align64(other.writeOffset), false;
      buffer := new Byte[other.headerSize + Align64(other.writeOffset)];
      new;
      CopyAll(other);
    }

    method CopyAll(other: Pickle)
      requires other.Shaped() && buffer != other.buffer
      requires headerSize == other.headerSize && writeOffset == other.writeOffset
      requires buffer.Length >= headerSize + writeOffset
      modifies buffer
      ensures buffer[..headerSize + writeOffset] == other.buffer[..headerSize + writeOffset]
      ensures buffer[headerSize..headerSize + writeOffset] == other.Payload()
      ensures FromLittle(buffer[..4]) == writeOffset
    {
      forall i | 0 <= i < headerSize + writeOffset {
        buffer[i] := other.buffer[i];
      }
      assert buffer[..4] == other.buffer[..4] == old(other.buffer[..4]);
    }

    /** Assignment copies too, and starts the count of allocations anew; assigning a pickle to itself
        does nothing. */
    method Assign(other: Pickle)
      requires Valid() && other.Valid() && (this == other || buffer != other.buffer)
      modifies this
      ensures this == other ==> unchanged(this)
      ensures this != other ==> fresh(buffer) && requested == capacity == Align64(writeOffset)
      ensures Valid() && headerSize == other.headerSize && written == other.written
      ensures buffer[..headerSize + writeOffset] == other.buffer[..headerSize + writeOffset]
    {
      if this == other {
        return;
      }
      Become(other);
      CopyAll(other);
    }

    /** Takes over all but the bytes. */
    method Become(other: Pickle)
      requires this != other && other.Shaped()
      modifies this
      ensures fresh(buffer) && buffer.Length == headerSize + capacity
      ensures headerSize == other.headerSize && writeOffset == other.writeOffset && written == other.written
      ensures requested == capacity == Align64(writeOffset) && !reserved
    {
      headerSize, capacity := other.headerSize, Align64(other.writeOffset);
      writeOffset, written := other.writeOffset, other.written;
      requested, reserved := capacity, false;
      buffer := new Byte[headerSize + capacity];
    }

    /** `data()` and `size()`.  Wrapping them again gives the same payload, and reading that gives
        the values that were written, exactly when there are less than 2 to the 32 bytes in all. */
    method Data() returns (data: seq<Byte>)
      requires Valid()
      ensures data == buffer[..headerSize] + Payload()
      ensures |data| < UINT32_LIMIT ==>
                && HeaderSize(data) == headerSize && WrappedPayload(data) == Some(Payload())
                && ReadAll(WrappedPayload(data).value, Kinds(written)) == (Some(written), [])
      ensures |data| >= UINT32_LIMIT ==> WrappedPayload(data) == None
    {
      data := buffer[..headerSize + writeOffset];
      ghost var header := buffer[..headerSize];
      assert data == header + Payload();
      assert header[..4] == buffer[..4];
      WrapReads(header, written);
    }
  }
}
