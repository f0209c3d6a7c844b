/** The byte cache behind an open file. */
module FileCache {
  import opened Prelude

  function Zeros(n: nat): (z: Bytes)
    ensures |z| == n && forall i :: 0 <= i < n ==> z[i] == 0
  {
    seq(n, _ => 0)
  }

  /** What the contents become at a new size: cut, or extended with zeros. */
  function Resize(c: Bytes, size: nat): (r: Bytes)
    ensures |r| == size
    ensures forall i :: 0 <= i < size ==> r[i] == if i < |c| then c[i] else 0
  {
    if size <= |c| then c[..size] else c + Zeros(size - |c|)
  }

  /** `b` written over `c` from offset `o`; bytes that fall outside `c` have no effect. */
  function Patch(c: Bytes, o: int, b: Bytes): (r: Bytes)
    ensures |r| == |c|
    ensures forall i :: 0 <= i < |c| ==> r[i] == if o <= i < o + |b| then b[i - o] else c[i]
  {
    seq(|c|, i requires 0 <= i < |c| => if o <= i < o + |b| then b[i - o] else c[i])
  }

  /**
   A Go byte slice: `data` is the backing array, `data[..len]` the slice. What lies past
   `len` is hidden capacity and may hold bytes of an earlier, longer file.
   */
  class MemoryCache {
    var data: array<byte>
    var len: nat

    ghost predicate Valid() reads this { len <= data.Length }

    ghost function Contents(): Bytes
      requires Valid()
      reads this, data
    {
      data[..len]
    }

    constructor ()
      ensures Valid() && fresh(data) && Contents() == []
    {
      data := new byte[0];
      len := 0;
    }

    function Size(): (n: nat)
      requires Valid()
      reads this, data
      ensures n == |Contents()|
    {
      len
    }

    /** Slicing is checked against the capacity, not the length; outside it, a panic. */
    method ReadRange(start: int, end: int, buffer: array<byte>) returns (n: Option<nat>)
      requires Valid() && buffer != data
      modifies buffer
      ensures n.Some? <==> 0 <= start <= end <= data.Length
      ensures n.Some? ==> n.value == Min(buffer.Length, end - start)
      ensures n.Some? ==> buffer[..] == data[start..start + n.value] + old(buffer[..])[n.value..]
      ensures n.Some? && end <= len ==> data[start..start + n.value] == Contents()[start..start + n.value]
      ensures n.None? ==> buffer[..] == old(buffer[..])
    {
      if !(0 <= start <= end <= data.Length) { return None; }
      var count := Min(buffer.Length, end - start);
      var i := 0;
      while i < count
        invariant 0 <= i <= count
        invariant forall k :: 0 <= k < i ==> buffer[k] == data[start + k]
        invariant forall k :: i <= k < buffer.Length ==> buffer[k] == old(buffer[k])
      {
        buffer[i] := data[start + i];
        i := i + 1;
      }
      assert buffer[..count] == data[start..start + count];
      assert buffer[count..] == old(buffer[..])[count..];
      assert buffer[..] == buffer[..count] + buffer[count..];
      if end <= len {
        ghost var c := Contents();
        ghost var piece := data[start..start + count];
        assert forall k :: 0 <= k < count ==> piece[k] == c[start..start + count][k];
      }
      n := Some(count);
    }

    /** A write that reaches past the length lands in hidden capacity and is not seen. */
    method WriteRange(start: int, end: int, buffer: Bytes) returns (n: Option<nat>)
      requires Valid()
      modifies data
      ensures Valid()
      ensures n.Some? <==> 0 <= start <= end <= data.Length
      ensures n.Some? ==>
        && n.value == Min(end - start, |buffer|)
        && Contents() == Patch(old(Contents()), start, buffer[..n.value])
        && data[..] == Patch(old(data[..]), start, buffer[..n.value])
      ensures n.None? ==> data[..] == old(data[..])
    {
      if !(0 <= start <= end <= data.Length) { return None; }
      var count := Min(end - start, |buffer|);
      var i := 0;
      while i < count
        invariant 0 <= i <= count
        invariant forall k :: 0 <= k < i ==> data[start + k] == buffer[k]
        invariant forall k :: 0 <= k < data.Length && !(start <= k < start + i) ==> data[k] == old(data[k])
      {
        data[start + i] := buffer[i];
        i := i + 1;
      }
      assert Contents() == Patch(old(Contents()), start, buffer[..count]);
      assert data[..] == Patch(old(data[..]), start, buffer[..count]);
      n := Some(count);
    }

    /**
     Growth appends zeros, in the hidden capacity when they fit and in a new backing array
     of any sufficient capacity otherwise. Either way only zeros become visible. A cut leaves
     the bytes it hides.
     */
    method Truncate(size: nat)
      requires Valid()
      modifies this, data
      ensures Valid() && Contents() == Resize(old(Contents()), size)
      ensures if size <= old(data.Length) then data == old(data) else fresh(data)
      ensures size <= old(data.Length) ==> forall k :: size <= k < data.Length ==> data[k] == old(data[k])
    {
      var had := len;
      if had < size {
        if data.Length < size {
          var capacity: nat :| size <= capacity;
          var grown := new byte[capacity];
          forall k | 0 <= k < had { grown[k] := data[k]; }
          data := grown;
        }
        forall k | had <= k < size { data[k] := 0; }
      }
      len := size;
      assert Contents() == Resize(old(Contents()), size);
    }
  }

  // ------------------------------------------------- every sequence of operations

  datatype CacheOp = SetSize(size: nat) | PutBytes(start: nat, bytes: Bytes)

  function RunOps(ops: seq<CacheOp>): (c: Bytes) {
    if ops == [] then []
    else
      var c := RunOps(ops[..|ops| - 1]);
      match ops[|ops| - 1]
      case SetSize(size) => Resize(c, size)
      case PutBytes(start, bytes) => Patch(c, start, bytes)
  }

  /**
   The byte POSIX promises at `x`: that of the last write to reach `x` since the file last
   became too short to hold `x`, and zero if there is none.
   */
  function ByteAt(ops: seq<CacheOp>, x: nat): byte {
    if ops == [] then 0 as byte
    else
      var before := ops[..|ops| - 1];
      match ops[|ops| - 1]
      case SetSize(size) => if size <= x then 0 as byte else ByteAt(before, x)
      case PutBytes(start, bytes) =>
        if start <= x < start + |bytes| && x < |RunOps(before)| then bytes[x - start]
        else ByteAt(before, x)
  }

  lemma {:induction false} RunOpsByteAt(ops: seq<CacheOp>, x: nat)
    ensures ByteAt(ops, x) == if x < |RunOps(ops)| then RunOps(ops)[x] else 0
  {
    if ops != [] {
      RunOpsByteAt(ops[..|ops| - 1], x);
    }
  }

  /**
   Any sequence of operations on a real cache leaves the bytes POSIX promises. A write that
   reaches past the capacity panics and ends the run, so `done` operations have been run.
   */
  method Drive(ops: seq<CacheOp>) returns (done: nat, bytes: Bytes)
    ensures done <= |ops|
    ensures bytes == RunOps(ops[..done])
    ensures forall x: nat :: x < |bytes| ==> bytes[x] == ByteAt(ops[..done], x)
    ensures done < |ops| ==> ops[done].PutBytes? && |bytes| < ops[done].start + |ops[done].bytes|
  {
    var cache := new MemoryCache();
    done := 0;
    while done < |ops|
      invariant done <= |ops| && cache.Valid() && fresh(cache) && fresh(cache.data)
      invariant cache.Contents() == RunOps(ops[..done])
    {
      assert ops[..done + 1][..done] == ops[..done];
      match ops[done] {
        case SetSize(size) =>
          cache.Truncate(size);
        case PutBytes(start, b) =>
          var n := cache.WriteRange(start, start + |b|, b);
          if n.None? { break; }
          assert b[..n.value] == b;
      }
      done := done + 1;
    }
    bytes := cache.data[..cache.len];
    forall x: nat | x < |bytes| ensures bytes[x] == ByteAt(ops[..done], x) {
      RunOpsByteAt(ops[..done], x);
    }
  }
}
