/** Reading a pickle with bounds checks. */
module PickleIterators {
  import opened Wrappers
  import opened Bits
  import opened PickleFormat

  /** A null payload: that of a rejected read-only pickle, or of an iterator without a pickle.  Even
      no bytes at all cannot be read from it, since what is read is told from failure by its address. */
  function Given<T>(present: bool, x: Option<T>): Option<T> {
    if present then x else None
  }

  class PickleIterator {
    const payload: seq<Byte>
    const present: bool  // whether the payload pointer is not null
    var readIndex: nat

    predicate Valid()
      reads this
    {
      readIndex <= |payload| && (!present ==> payload == [])
    }

    /** What is still to be read. */
    function Rest(): seq<Byte>
      requires Valid()
      reads this
    {
      payload[readIndex..]
    }

    constructor (payload: Option<seq<Byte>>)
      ensures Valid() && present == payload.Some? && Rest() == if payload.None? then [] else payload.value
    {
      this.payload := if payload.None? then [] else payload.value;
      present := payload.Some?;
      readIndex := 0;
    }

    method Advance(size: nat)
      requires Valid()
      modifies this`readIndex
      ensures Valid() && Rest() == PickleFormat.Advance(old(Rest()), size)
    {
      var alignedSize := Align4(size);
      if |payload| - readIndex < alignedSize {
        readIndex := |payload|;
      } else {
        readIndex := readIndex + alignedSize;
      }
    }

    method GetReadPointerAndAdvance(numBytes: int) returns (bytes: Option<seq<Byte>>)
      requires Valid()
      modifies this`readIndex
      ensures Valid() && var (taken, rest) := Take(old(Rest()), numBytes); bytes == Given(present, taken) && Rest() == rest
    {
      if numBytes < 0 || |payload| - readIndex < numBytes {
        readIndex := |payload|;
        assert Rest() == [];
        return None;
      }
      var current := payload[readIndex..readIndex + numBytes];
      assert current == Rest()[..numBytes];
      Advance(numBytes);
      return if present then Some(current) else None;
    }

    method ReadInt() returns (n: Option<int>)
      requires Valid()
      modifies this`readIndex
      ensures Valid() && (n, Rest()) == TakeInt(old(Rest()))
    {
      var bytes := GetReadPointerAndAdvance(4);
      n := if bytes.None? then None else Some(Signed(FromLittle(bytes.value), 4));
    }

    /** A length, and then the bytes of a string. */
    method ReadCounted(wide: bool) returns (bytes: Option<seq<Byte>>)
      requires Valid()
      modifies this`readIndex
      ensures Valid() && (bytes, Rest()) == TakeCounted(old(Rest()), wide)
    {
      var len := ReadInt();
      if len.None? {
        return None;
      }
      var numBytes := len.value;
      if wide {
        numBytes := 2 * len.value;
        if !(0 <= numBytes <= INT_MAX) {
          return None;
        }
      }
      bytes := GetReadPointerAndAdvance(numBytes);
    }

    /** All readers: what they give, and what they leave to be read. */
    method Read(kind: Kind) returns (x: Option<Item>)
      requires Valid()
      modifies this`readIndex
      ensures Valid() && var (y, rest) := PickleFormat.Read(old(Rest()), kind); x == Given(present, y) && Rest() == rest
    {
      var bytes;
      if Counted(kind) {
        bytes := ReadCounted(kind.String16Kind?);
      } else {
        bytes := GetReadPointerAndAdvance(Width(kind));
      }
      x := if bytes.None? then None else Some(Make(kind, bytes.value));
    }

    /** A length that must not be negative; a negative one has been read past all the same. */
    method ReadLength() returns (n: Option<nat>)
      requires Valid()
      modifies this`readIndex
      ensures Valid() && Rest() == TakeInt(old(Rest())).1
      ensures n.Some? <==> TakeInt(old(Rest())).0.Some? && TakeInt(old(Rest())).0.value >= 0
      ensures n.Some? ==> TakeInt(old(Rest())).0 == Some(n.value)
    {
      var len := ReadInt();
      n := if len.Some? && len.value >= 0 then Some(len.value) else None;
    }

    method SkipBytes(numBytes: int) returns (ok: bool)
      requires Valid()
      modifies this`readIndex
      ensures Valid() && ok == (present && 0 <= numBytes <= |old(Rest())|)
      ensures Rest() == if ok then PickleFormat.Advance(old(Rest()), numBytes) else []
    {
      var bytes := GetReadPointerAndAdvance(numBytes);
      ok := bytes.Some?;
    }
  }
}
