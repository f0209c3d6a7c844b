/** The readiness tracker: which byte ranges of an open file hold its real contents. */
module LoadTracker {
  import opened Prelude
  import opened Ranges

  /**
   A Go slice of ranges: `mem` is the backing array and `mem[..len]` the slice, so that an
   iteration which keeps an older slice header can still see slots that are no longer live.
   */
  class Load {
    var mem: seq<Range>
    var len: nat

    ghost predicate Valid() reads this { len <= |mem| }

    function Live(): seq<Range>
      requires Valid()
      reads this
    {
      mem[..len]
    }

    constructor ()
      ensures Valid() && Live() == []
    {
      mem, len := [], 0;
    }

    /** Nothing is promised about the order of ranges with equal starts. */
    method SortRanges()
      requires Valid()
      modifies this
      ensures Valid() && Resorted(old(Live()), Live())
      ensures len == old(len)
    {
      var sorted := SortedRanges(Live());
      ResortedCovers(Live(), sorted);
      mem := sorted + mem[len..];
    }

    /** `append`: in place when there is spare capacity, in a new backing array otherwise. */
    method AddRange(start: int, end: int)
      requires Valid()
      modifies this
      ensures Valid() && Live() == old(Live()) + [Range(start, end)]
    {
      if len < |mem| {
        mem := mem[len := Range(start, end)];
      } else {
        mem := mem + [Range(start, end)];
      }
      len := len + 1;
    }

    /** Swap removal; an index outside the live slice is a panic and changes nothing. */
    method RemoveRange(i: nat) returns (ok: bool)
      requires Valid()
      modifies this
      ensures Valid() && ok == (i < old(len))
      ensures ok ==> len == old(len) - 1 && mem == old(mem[i := mem[len - 1]])
      ensures !ok ==> len == old(len) && mem == old(mem)
    {
      if i >= len { return false; }
      var last := len - 1;
      mem := mem[i := mem[last]];
      len := last;
      ok := true;
    }

    /** Completes exactly on the lists `TruncateSafe` describes; otherwise it panics. */
    method Truncate(end: int) returns (ok: bool)
      requires Valid()
      modifies this
      ensures Valid()
      ensures ok <==> TruncateSafe(old(Live()), end)
      ensures ok ==> Some(Live()) == TruncateRanges(old(Live()), end)
    {
      TruncateExact(Live(), end);
      ghost var result := TruncateRanges(Live(), end);
      var n := len;  // the slice header is evaluated once
      var i := 0;
      while i < n
        invariant Valid() && 0 <= i <= n <= |mem| && len <= n
        invariant TruncateFrom(mem[..n], len, i, end) == result
      {
        var v := mem[i];
        if v.start >= end {
          ghost var before := mem[..n];
          ok := RemoveRange(i);
          if !ok { return; }
          assert mem[..n] == before[i := before[len]];
        } else if v.end > end {
          if i >= len { return false; }
          ghost var before := mem[..n];
          mem := mem[i := v.(end := end)];
          assert mem[..n] == before[i := v.(end := end)];
        }
        i := i + 1;
      }
      assert mem[..n][..len] == mem[..len];
      ok := true;
    }

    /** Also for an empty request, which asks about the single offset `start`. */
    method IsReady(start: int, end: int) returns (ready: bool)
      requires Valid()
      modifies this
      ensures Valid() && Resorted(old(Live()), Live())
      ensures ready <==> CoversAll(old(Live()), start, Max(end, start + 1))
    {
      SortRanges();
      ghost var rs := Live();
      ResortedCovers(old(Live()), rs);
      var from := start;
      var i := 0;
      while i < len
        invariant 0 <= i <= len && Live() == rs && Valid()
        invariant start <= from < Max(end, start + 1)
        invariant CoversAll(rs, start, from)
        invariant forall j :: 0 <= j < i ==> rs[j].end <= from
      {
        var v := mem[i];
        assert v == rs[i] && v in rs;
        if v.start > from {
          assert !Covered(rs, from);
          return false;
        } else if v.end > from {
          if v.end < end {
            from := v.end;
          } else {
            return true;
          }
        }
        i := i + 1;
      }
      assert !Covered(rs, from);
      ready := false;
    }

    /** What Write and ApplyLiveTx do after a change: the range is added unless it is ready. */
    method MarkReady(start: int, end: int)
      requires Valid()
      modifies this
      ensures Valid() && |old(Live())| <= |Live()|
      ensures Resorted(old(Live()), Live()[..|old(Live())|])
      ensures Live()[|old(Live())|..] ==
        if CoversAll(old(Live()), start, Max(end, start + 1)) then [] else [Range(start, end)]
    {
      ghost var before := Live();
      var ready := IsReady(start, end);
      ghost var sorted := Live();
      ResortedCovers(before, sorted);
      if !ready {
        AddRange(start, end);
      }
      assert Live()[..|before|] == sorted;
    }

    method BytesReady(start: int) returns (n: int)
      requires Valid()
      modifies this
      ensures Valid() && Resorted(old(Live()), Live())
      ensures IsReadyRun(old(Live()), start, n)
    {
      SortRanges();
      ghost var rs := Live();
      ResortedCovers(old(Live()), rs);
      var ptr := start;
      var i := 0;
      while i < len
        invariant 0 <= i <= len && Live() == rs && Valid()
        invariant start <= ptr && CoversAll(rs, start, ptr)
        invariant forall j :: 0 <= j < i ==> rs[j].end <= ptr
      {
        var v := mem[i];
        assert v == rs[i] && v in rs;
        if v.start > ptr { break; }
        if v.end >= ptr {
          ptr := v.end;
        }
        i := i + 1;
      }
      assert !Covered(rs, ptr);
      n := ptr - start;
    }
  }
}
