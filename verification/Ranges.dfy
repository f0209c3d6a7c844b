/**
 Half-open ranges and what a list of them covers, with the loop of `Load.truncate`
 as a function on values. Ranges may be empty or inverted; such ranges cover nothing.
 */
module Ranges {
  import opened Prelude

  datatype Range = Range(start: int, end: int)

  ghost predicate Covered(rs: seq<Range>, x: int) {
    exists r :: r in rs && r.start <= x < r.end
  }

  ghost predicate CoversAll(rs: seq<Range>, start: int, end: int) {
    forall x :: start <= x < end ==> Covered(rs, x)
  }

  /** `n` is the length of the covered run that begins at `start`. */
  ghost predicate IsReadyRun(rs: seq<Range>, start: int, n: int) {
    0 <= n && CoversAll(rs, start, start + n) && !Covered(rs, start + n)
  }

  predicate SortedByStart(rs: seq<Range>) {
    forall i, j :: 0 <= i < j < |rs| ==> rs[i].start <= rs[j].start
  }

  /** What an unstable sort may do: any order of the same ranges that is sorted by start. */
  ghost predicate Resorted(before: seq<Range>, after: seq<Range>) {
    SortedByStart(after) && multiset(after) == multiset(before)
  }

  lemma ResortedCovers(before: seq<Range>, after: seq<Range>)
    requires multiset(after) == multiset(before)
    ensures |after| == |before|
    ensures forall r :: r in after <==> r in before
    ensures forall x :: Covered(after, x) <==> Covered(before, x)
  {
    assert |multiset(after)| == |multiset(before)|;
    assert forall r :: r in after <==> r in multiset(after);
    assert forall r :: r in before <==> r in multiset(before);
  }

  lemma AppendCovers(rs: seq<Range>, r: Range)
    ensures forall x :: Covered(rs + [r], x) <==> Covered(rs, x) || r.start <= x < r.end
  {}

  /** The two coverage queries agree, whatever the list holds and in whatever order. */
  lemma ReadyRunDecidesReady(rs: seq<Range>, start: int, end: int, n: int)
    requires IsReadyRun(rs, start, n)
    ensures CoversAll(rs, start, end) <==> end - start <= n
  {}

  /** The run length is a function of the covered set alone. */
  lemma ReadyRunUnique(rs: seq<Range>, qs: seq<Range>, start: int, m: int, n: int)
    requires IsReadyRun(rs, start, m) && IsReadyRun(qs, start, n)
    requires forall x :: Covered(rs, x) <==> Covered(qs, x)
    ensures m == n
  {}

  // ---------------------------------------------------------------- sorting

  function InsertRange(r: Range, rs: seq<Range>): (s: seq<Range>)
    ensures multiset(s) == multiset(rs)[r := multiset(rs)[r] + 1]
  {
    if rs == [] || r.start <= rs[0].start then [r] + rs
    else
      assert rs == [rs[0]] + rs[1..];
      [rs[0]] + InsertRange(r, rs[1..])
  }

  lemma {:induction false} InsertRangeSorted(r: Range, rs: seq<Range>)
    requires SortedByStart(rs)
    ensures SortedByStart(InsertRange(r, rs))
  {
    if rs != [] && rs[0].start < r.start {
      InsertRangeSorted(r, rs[1..]);
      var t := InsertRange(r, rs[1..]);
      forall i | 0 <= i < |t| ensures rs[0].start <= t[i].start {
        assert t[i] in multiset(t);
        assert t[i] == r || t[i] in rs[1..];
      }
    }
  }

  function SortedRanges(rs: seq<Range>): (s: seq<Range>)
    ensures Resorted(rs, s)
  {
    if rs == [] then [] else
      assert rs == [rs[0]] + rs[1..];
      InsertRangeSorted(rs[0], SortedRanges(rs[1..]));
      InsertRange(rs[0], SortedRanges(rs[1..]))
  }

  // --------------------------------------------------------------- truncate

  /** Starts at or after the cut: `truncate` removes it. */
  predicate Dead(r: Range, end: int) { r.start >= end }

  /** Starts before the cut and ends after it: `truncate` clips it. */
  predicate Long(r: Range, end: int) { r.start < end < r.end }

  predicate Fine(r: Range, end: int) { !Dead(r, end) && !Long(r, end) }

  ghost predicate AllFine(rs: seq<Range>, end: int) {
    forall r :: r in rs ==> Fine(r, end)
  }

  /**
   The loop of `truncate`. `mem` is what the slice header taken by `range` sees; the live
   slice is `mem[..len]`. Removal overwrites slot `i` with the last live slot and shrinks the
   live slice; an access to a slot that is no longer live is a panic (`None`).
   */
  function TruncateFrom(mem: seq<Range>, len: nat, i: nat, end: int): Option<seq<Range>>
    requires len <= |mem| && i <= |mem|
    decreases |mem| - i
  {
    if i == |mem| then Some(mem[..len])
    else if Dead(mem[i], end) then
      if i < len then TruncateFrom(mem[i := mem[len - 1]], len - 1, i + 1, end) else None
    else if Long(mem[i], end) then
      if i < len then TruncateFrom(mem[i := mem[i].(end := end)], len, i + 1, end) else None
    else TruncateFrom(mem, len, i + 1, end)
  }

  function TruncateRanges(rs: seq<Range>, end: int): Option<seq<Range>> {
    TruncateFrom(rs, |rs|, 0, end)
  }

  function DeadCount(rs: seq<Range>, end: int): (n: nat)
    ensures n <= |rs|
  {
    if rs == [] then 0
    else (if Dead(rs[0], end) then 1 else 0) + DeadCount(rs[1..], end)
  }

  /**
   When `truncate(end)` completes, said of the list before the call. With d ranges to remove,
   the last d - 1 must need no change, and the one before those must not need clipping.
   */
  ghost predicate TruncateSafe(rs: seq<Range>, end: int) {
    var d := DeadCount(rs, end);
    d == 0 || (AllFine(rs[|rs| - d + 1..], end) && !Long(rs[|rs| - d], end))
  }

  /** The ranges that survive a cut, clipped to it, in their original order. */
  function Clipped(rs: seq<Range>, end: int): seq<Range> {
    if rs == [] then []
    else if Dead(rs[0], end) then Clipped(rs[1..], end)
    else [Range(rs[0].start, Min(rs[0].end, end))] + Clipped(rs[1..], end)
  }

  lemma {:induction false} DeadCountLast(rs: seq<Range>, r: Range, end: int)
    ensures DeadCount(rs + [r], end) == DeadCount(rs, end) + if Dead(r, end) then 1 else 0
  {
    if rs == [] {
      assert rs + [r] == [r];
    } else {
      assert (rs + [r])[1..] == rs[1..] + [r];
      DeadCountLast(rs[1..], r, end);
    }
  }

  lemma {:induction false} ClippedLast(rs: seq<Range>, r: Range, end: int)
    ensures Clipped(rs + [r], end) == Clipped(rs, end) + Clipped([r], end)
  {
    if rs == [] {
      assert rs + [r] == [r];
    } else {
      assert (rs + [r])[1..] == rs[1..] + [r];
      ClippedLast(rs[1..], r, end);
    }
  }

  lemma {:induction false} ClippedCovers(rs: seq<Range>, end: int, x: int)
    ensures Covered(Clipped(rs, end), x) <==> Covered(rs, x) && x < end
  {
    if rs != [] {
      ClippedCovers(rs[1..], end, x);
      assert rs == [rs[0]] + rs[1..];
      if !Dead(rs[0], end) {
        var c := Range(rs[0].start, Min(rs[0].end, end));
        assert Clipped(rs, end) == [c] + Clipped(rs[1..], end);
        assert forall q :: q in Clipped(rs, end) <==> q == c || q in Clipped(rs[1..], end);
        if rs[0].start <= x < rs[0].end && x < end {
          assert c in Clipped(rs, end) && c.start <= x < c.end;
        }
      }
      assert forall q :: q in rs <==> q == rs[0] || q in rs[1..];
      if rs[0].start <= x < rs[0].end {
        assert rs[0] in rs;
      }
    }
  }

  /** Safety of the loop from any of its intermediate states. */
  ghost predicate SafeFrom(mem: seq<Range>, len: nat, i: nat, end: int)
    requires len <= |mem| && i <= |mem|
  {
    if len <= i then AllFine(mem[i..], end)
    else
      var live := mem[i..len];
      AllFine(mem[len..], end) && TruncateSafe(live, end)
  }

  lemma AllFineLast(rs: seq<Range>, r: Range, end: int)
    ensures AllFine(rs + [r], end) <==> AllFine(rs, end) && Fine(r, end)
  {}

  lemma AllFineFirst(rs: seq<Range>, end: int)
    requires rs != []
    ensures AllFine(rs, end) <==> Fine(rs[0], end) && AllFine(rs[1..], end)
  {}

  /** Removing the head of the unvisited part also takes its last element out of it. */
  lemma {:induction false} SafeRemoveHead(live: seq<Range>, end: int)
    requires 2 <= |live| && Dead(live[0], end)
    ensures TruncateSafe(live, end)
      <==> Fine(live[|live| - 1], end) && TruncateSafe(live[1..|live| - 1], end)
  {
    var n := |live|;
    var inner, last := live[1..n - 1], live[n - 1];
    assert live[1..] == inner + [last];
    DeadCountLast(inner, last, end);
    var d, e := DeadCount(live, end), DeadCount(inner, end);
    assert d == 1 + DeadCount(live[1..], end);
    if Fine(last, end) {
      assert d == e + 1;
      if e > 0 {
        assert inner[|inner| - e] == live[n - d];
        assert live[n - d + 1..] == inner[|inner| - e + 1..] + [last];
        AllFineLast(inner[|inner| - e + 1..], last, end);
      } else {
        assert live[n - d + 1..] == [];
      }
    } else if d >= 2 {
      assert last in live[n - d + 1..];
    } else {
      assert !Dead(last, end) && Long(last, end) && live[n - d] == last;
    }
  }

  lemma SafeStepRemove(mem: seq<Range>, len: nat, i: nat, end: int)
    requires i < len <= |mem| && Dead(mem[i], end)
    ensures SafeFrom(mem, len, i, end) <==> SafeFrom(mem[i := mem[len - 1]], len - 1, i + 1, end)
  {
    var live, mem' := mem[i..len], mem[i := mem[len - 1]];
    if i == len - 1 {
      assert live[1..] == [];
      assert DeadCount(live, end) == 1;
      assert mem'[i + 1..] == mem[len..];
    } else {
      SafeRemoveHead(live, end);
      SliceOfSlice(mem, i, len, 1, |live| - 1);
      assert mem'[i + 1..len - 1] == mem[i + 1..len - 1];
      AllFineFirst(mem'[len - 1..], end);
      assert mem'[len - 1..][1..] == mem[len..];
    }
  }

  lemma SafeStepKeep(mem: seq<Range>, len: nat, i: nat, r: Range, end: int)
    requires i < len <= |mem| && !Dead(mem[i], end)
    ensures SafeFrom(mem, len, i, end) <==> SafeFrom(mem[i := r], len, i + 1, end)
  {}

  lemma {:induction false} TruncateFromExact(mem: seq<Range>, len: nat, i: nat, end: int)
    requires len <= |mem| && i <= |mem|
    ensures TruncateFrom(mem, len, i, end).Some? <==> SafeFrom(mem, len, i, end)
    decreases |mem| - i
  {
    if i == |mem| {
    } else if len <= i {
      AllFineFirst(mem[i..], end);
      assert mem[i..][1..] == mem[i + 1..];
      TruncateFromExact(mem, len, i + 1, end);
    } else if Dead(mem[i], end) {
      SafeStepRemove(mem, len, i, end);
      TruncateFromExact(mem[i := mem[len - 1]], len - 1, i + 1, end);
    } else {
      var r := if Long(mem[i], end) then mem[i].(end := end) else mem[i];
      assert !Long(mem[i], end) ==> mem[i := r] == mem;
      SafeStepKeep(mem, len, i, r, end);
      TruncateFromExact(mem[i := r], len, i + 1, end);
    }
  }

  lemma {:induction false} TruncatePastLive(mem: seq<Range>, len: nat, i: nat, end: int)
    requires len <= i <= |mem|
    ensures TruncateFrom(mem, len, i, end).Some? ==> TruncateFrom(mem, len, i, end).value == mem[..len]
    decreases |mem| - i
  {
    if i < |mem| {
      TruncatePastLive(mem, len, i + 1, end);
    }
  }

  /** The visited slots, then what the cut leaves of the others. */
  function Survivors(mem: seq<Range>, len: nat, i: nat, end: int): seq<Range>
    requires i <= len <= |mem|
  {
    mem[..i] + Clipped(mem[i..len], end)
  }

  lemma SurvivorsKeep(mem: seq<Range>, len: nat, i: nat, end: int)
    requires i < len <= |mem| && !Dead(mem[i], end)
    ensures
      var c := Range(mem[i].start, Min(mem[i].end, end));
      Survivors(mem[i := c], len, i + 1, end) == Survivors(mem, len, i, end)
  {}

  lemma SurvivorsRemove(mem: seq<Range>, len: nat, i: nat, end: int)
    requires i + 1 < len <= |mem| && Dead(mem[i], end) && Fine(mem[len - 1], end)
    ensures multiset(Survivors(mem[i := mem[len - 1]], len - 1, i + 1, end)) == multiset(Survivors(mem, len, i, end))
  {
    var mem', inner, last := mem[i := mem[len - 1]], mem[i + 1..len - 1], mem[len - 1];
    assert mem'[i + 1..len - 1] == inner && mem'[..i + 1] == mem[..i] + [last];
    assert mem[i..len][1..] == inner + [last];
    ClippedLast(inner, last, end);
    assert Clipped([last], end) == [last];
    SwapEnds(mem[..i], last, Clipped(inner, end));
  }

  lemma SwapEnds(a: seq<Range>, x: Range, b: seq<Range>)
    ensures multiset(a + [x] + b) == multiset(a + (b + [x]))
  {}

  lemma SurvivorsEnd(mem: seq<Range>, len: nat, i: nat, end: int)
    requires i <= len <= |mem|
    ensures i == len ==> Survivors(mem, len, i, end) == mem[..len]
    ensures i + 1 == len && Dead(mem[i], end) ==> Survivors(mem, len, i, end) == mem[..i]
  {
    if i + 1 == len && Dead(mem[i], end) {
      var live := mem[i..len];
      assert live[0] == mem[i] && live[1..] == [];
      assert Clipped(live, end) == Clipped(live[1..], end) == [];
    }
  }

  lemma SwappedInIsFine(mem: seq<Range>, len: nat, i: nat, end: int)
    requires i + 1 < len <= |mem| && Dead(mem[i], end) && TruncateFrom(mem, len, i, end).Some?
    ensures Fine(mem[len - 1], end)
  {
    TruncateFromExact(mem, len, i, end);
    SafeRemoveHead(mem[i..len], end);
  }

  lemma {:induction false} TruncateFromSurvivors(mem: seq<Range>, len: nat, i: nat, end: int)
    requires i <= len <= |mem| && TruncateFrom(mem, len, i, end).Some?
    ensures multiset(TruncateFrom(mem, len, i, end).value) == multiset(Survivors(mem, len, i, end))
    decreases |mem| - i
  {
    SurvivorsEnd(mem, len, i, end);
    if i == len {
      TruncatePastLive(mem, len, i, end);
    } else if !Dead(mem[i], end) {
      var c := Range(mem[i].start, Min(mem[i].end, end));
      assert !Long(mem[i], end) ==> mem[i := c] == mem;
      SurvivorsKeep(mem, len, i, end);
      TruncateFromSurvivors(mem[i := c], len, i + 1, end);
    } else if i + 1 == len {
      TruncatePastLive(mem[i := mem[i]], len - 1, i + 1, end);
    } else {
      SwappedInIsFine(mem, len, i, end);
      SurvivorsRemove(mem, len, i, end);
      TruncateFromSurvivors(mem[i := mem[len - 1]], len - 1, i + 1, end);
    }
  }

  /** Exactly when `truncate` completes, and exactly what it then leaves. */
  lemma TruncateExact(rs: seq<Range>, end: int)
    ensures TruncateRanges(rs, end).Some? <==> TruncateSafe(rs, end)
    ensures TruncateRanges(rs, end).Some? ==>
      && multiset(TruncateRanges(rs, end).value) == multiset(Clipped(rs, end))
      && forall x :: Covered(TruncateRanges(rs, end).value, x) <==> Covered(rs, x) && x < end
  {
    TruncateFromExact(rs, |rs|, 0, end);
    assert rs[0..|rs|] == rs && rs[|rs|..] == [];
    if rs == [] {
      assert rs[0..] == [];
    }
    if TruncateRanges(rs, end).Some? {
      TruncateFromSurvivors(rs, |rs|, 0, end);
      var out := TruncateRanges(rs, end).value;
      assert Survivors(rs, |rs|, 0, end) == Clipped(rs, end);
      ResortedCovers(Clipped(rs, end), out);
      forall x ensures Covered(out, x) <==> Covered(rs, x) && x < end {
        ClippedCovers(rs, end, x);
      }
    }
  }

  /** How many ranges start at the cut or after it. */
  lemma {:induction false} DeadCountIs(rs: seq<Range>, end: int)
    ensures DeadCount(rs, end) == |set i | 0 <= i < |rs| && rs[i].start >= end|
  {
    var dead := set i | 0 <= i < |rs| && rs[i].start >= end;
    if rs == [] {
      assert dead == {};
    } else {
      var n := |rs| - 1;
      var front := rs[..n];
      DeadCountIs(front, end);
      DeadCountLast(front, rs[n], end);
      assert rs == front + [rs[n]];
      var before := set i | 0 <= i < |front| && front[i].start >= end;
      forall i ensures i in dead <==> i in before || (i == n && rs[n].start >= end) {}
      if rs[n].start >= end {
        assert dead == before + {n} && n !in before;
      } else {
        assert dead == before;
      }
    }
  }

  /** The condition in plain comparisons, for `d` ranges that start at the cut or after it. */
  lemma TruncateSafeIs(rs: seq<Range>, end: int)
    ensures
      var d := |set i | 0 <= i < |rs| && rs[i].start >= end|;
      && d <= |rs|
      && (TruncateSafe(rs, end) <==>
          d == 0 ||
          ((forall j :: |rs| - d < j < |rs| ==> rs[j].start < end && rs[j].end <= end)
           && !(rs[|rs| - d].start < end < rs[|rs| - d].end)))
  {
    DeadCountIs(rs, end);
    var d := DeadCount(rs, end);
    if d > 0 {
      var tail := rs[|rs| - d + 1..];
      assert forall j :: |rs| - d < j < |rs| ==> rs[j] == tail[j - (|rs| - d + 1)] && rs[j] in tail;
      assert forall r :: r in tail ==> exists j :: |rs| - d < j < |rs| && rs[j] == r;
    }
  }

  /** What survives a cut: each range that starts before it, ending there at the latest. */
  lemma {:induction false} ClippedIs(rs: seq<Range>, end: int)
    ensures |Clipped(rs, end)| + DeadCount(rs, end) == |rs|
    ensures forall q :: q in Clipped(rs, end) <==>
      exists r :: r in rs && r.start < end && q == Range(r.start, if r.end < end then r.end else end)
  {
    if rs != [] {
      ClippedIs(rs[1..], end);
      var one := Range(rs[0].start, Min(rs[0].end, end));
      forall q ensures q in Clipped(rs, end) <==>
        exists r :: r in rs && r.start < end && q == Range(r.start, if r.end < end then r.end else end)
      {
        assert rs == [rs[0]] + rs[1..];
        if exists r :: r in rs[1..] && r.start < end && q == Range(r.start, if r.end < end then r.end else end) {
          assert q in Clipped(rs[1..], end);
        }
      }
    }
  }

  /** Three disjoint ranges cut at 15: the swapped-in tail also lies past the cut. */
  lemma TruncatePanicWitness()
    ensures TruncateRanges([Range(0, 10), Range(20, 30), Range(40, 50)], 15).None?
    ensures TruncateRanges([Range(0, 10), Range(20, 30)], 15) == Some([Range(0, 10)])
  {
    var rs := [Range(0, 10), Range(20, 30), Range(40, 50)];
    assert rs[1 := rs[2]] == [Range(0, 10), Range(40, 50), Range(40, 50)];
    assert TruncateFrom([Range(0, 10), Range(40, 50), Range(40, 50)], 2, 2, 15).None?;
    var qs := [Range(0, 10), Range(20, 30)];
    assert qs[1 := qs[1]] == qs && qs[..1] == [Range(0, 10)];
    assert TruncateFrom(qs, 1, 2, 15) == Some([Range(0, 10)]);
  }
}
