/**
 The dirty mark of an open file and the upload that clears it: what happens to changes made
 while an upload is running.
 */
module Syncing {
  import opened Prelude
  import opened Blocks

  /** A running upload: how many blocks it will read, and those it has read. */
  datatype Job = Job(count: nat, taken: seq<Bytes>)

  /** An open file, with the body that its last finished upload published. */
  datatype Synced = Synced(cache: Bytes, dirty: bool, job: Option<Job>, published: Bytes)

  /** `Finish(false)` is an upload that a refused request ends. */
  datatype Step =
    | Change(cache: Bytes)
    | Release
    | Take
    | Finish(ok: bool)

  /** Blocks one after the other. */
  function Body(blocks: seq<Bytes>): Bytes {
    if blocks == [] then [] else Body(blocks[..|blocks| - 1]) + blocks[|blocks| - 1]
  }

  /**
   Release starts an upload of a dirty file unless one is running; the end of an upload clears
   the mark, whatever was changed meanwhile. A step that is not possible does nothing.
   */
  function After(s: Synced, step: Step, B: nat): Synced
    requires B > 0
  {
    match step
    case Change(cache) => s.(cache := cache, dirty := true)
    case Release =>
      if s.dirty && s.job.None? then s.(job := Some(Job(BlockCount(|s.cache|, B), []))) else s
    case Take =>
      if s.job.None? || |s.job.value.taken| >= s.job.value.count then s
      else
        var job := s.job.value;
        var i := |job.taken|;
        var block := if Offset(i, B) <= |s.cache| then Block(s.cache, i, B) else [];
        s.(job := Some(job.(taken := job.taken + [block])))
    case Finish(ok) =>
      if s.job.None? then s
      else
        var job := s.job.value;
        var published := if ok && |job.taken| == job.count then Body(job.taken) else s.published;
        Synced(s.cache, false, None, published)
  }

  function Run(s: Synced, steps: seq<Step>, B: nat): Synced
    requires B > 0
  {
    if steps == [] then s else After(Run(s, steps[..|steps| - 1], B), steps[|steps| - 1], B)
  }

  // ------------------------------------------------------------------- the mark

  predicate Ends(s: Synced, steps: seq<Step>, j: nat, B: nat)
    requires B > 0 && j < |steps|
  {
    steps[j].Finish? && Run(s, steps[..j], B).job.Some?
  }

  /** Step `i` changes the file and no upload ends after it. */
  predicate ChangedSinceEnd(s: Synced, steps: seq<Step>, i: nat, B: nat)
    requires B > 0 && i < |steps|
  {
    steps[i].Change? && forall j :: i < j < |steps| ==> !Ends(s, steps, j, B)
  }

  /** In every run the mark says exactly whether some change came after the last end of an upload. */
  lemma {:induction false} DirtyExactly(s: Synced, steps: seq<Step>, B: nat)
    requires B > 0 && !s.dirty
    ensures Run(s, steps, B).dirty <==> exists i :: 0 <= i < |steps| && ChangedSinceEnd(s, steps, i, B)
  {
    if steps != [] {
      var n := |steps| - 1;
      var front := steps[..n];
      DirtyExactly(s, front, B);
      forall j | 0 <= j < n ensures Ends(s, front, j, B) <==> Ends(s, steps, j, B) {
        assert front[..j] == steps[..j];
      }
      forall i | 0 <= i < n
        ensures ChangedSinceEnd(s, steps, i, B) <==> ChangedSinceEnd(s, front, i, B) && !Ends(s, steps, n, B)
      {
        if ChangedSinceEnd(s, steps, i, B) {
          assert forall j :: i < j < n ==> !Ends(s, steps, j, B);
        }
      }
      if steps[n].Change? {
        assert ChangedSinceEnd(s, steps, n, B);
      }
    }
  }

  /** So the next Release uploads exactly when none is running and a change came since one ended. */
  lemma NextReleaseExactly(s: Synced, steps: seq<Step>, B: nat)
    requires B > 0 && !s.dirty
    ensures
      var t := Run(s, steps, B);
      After(t, Release, B) != t <==>
        t.job.None? && exists i :: 0 <= i < |steps| && ChangedSinceEnd(s, steps, i, B)
  {
    DirtyExactly(s, steps, B);
  }

  /** What is published changes only when an upload that has read all its blocks ends well. */
  lemma PublishedChanges(s: Synced, step: Step, B: nat)
    requires B > 0
    ensures After(s, step, B).published != s.published ==>
      step == Finish(true) && s.job.Some? && |s.job.value.taken| == s.job.value.count
    ensures step.Finish? ==> After(s, step, B).job.None? && After(s, step, B).cache == s.cache
    ensures step.Finish? && s.job.Some? ==> !After(s, step, B).dirty
  {}

  // ---------------------------------------------------- what an upload publishes

  lemma SplitEqual<T>(a: seq<T>, b: seq<T>, c: seq<T>, d: seq<T>)
    requires |a| == |c|
    ensures a + b == c + d <==> a == c && b == d
  {
    if a + b == c + d {
      assert (a + b)[..|a|] == a && (c + d)[..|c|] == c;
      assert (a + b)[|a|..] == b && (c + d)[|c|..] == d;
    }
  }

  /** Where block `i` of a body of `size` bytes ends. */
  function Upto(i: nat, B: nat, size: nat): nat { Min(Offset(i, B), size) }

  ghost predicate Sized(taken: seq<Bytes>, size: nat, B: nat) {
    forall i :: 0 <= i < |taken| ==> Offset(i, B) <= size && |taken[i]| == BlockEnd(i, B, size) - Offset(i, B)
  }

  lemma CutNext(c: Bytes, n: nat, B: nat)
    requires Offset(n, B) <= |c|
    ensures c[..Upto(n + 1, B, |c|)] == c[..Upto(n, B, |c|)] + Block(c, n, B)
  {
    assert Offset(n + 1, B) == Offset(n, B) + B;
  }

  ghost predicate BlocksOf(taken: seq<Bytes>, c: Bytes, B: nat) {
    forall i :: 0 <= i < |taken| ==> Offset(i, B) <= |c| && taken[i] == Block(c, i, B)
  }

  lemma BlocksOfSnoc(front: seq<Bytes>, b: Bytes, c: Bytes, B: nat)
    requires Offset(|front|, B) <= |c|
    ensures BlocksOf(front + [b], c, B) <==> BlocksOf(front, c, B) && b == Block(c, |front|, B)
  {
    var all := front + [b];
    assert all[|front|] == b && forall i :: 0 <= i < |front| ==> all[i] == front[i];
  }

  lemma SizedFront(front: seq<Bytes>, b: Bytes, size: nat, B: nat)
    requires Sized(front + [b], size, B)
    ensures Sized(front, size, B)
    ensures Offset(|front|, B) <= size && |b| == BlockEnd(|front|, B, size) - Offset(|front|, B)
  {
    var all := front + [b];
    assert all[|front|] == b && forall i :: 0 <= i < |front| ==> all[i] == front[i];
  }

  /** Blocks of the right sizes make up a body exactly when each is that body's. */
  lemma {:induction false} BodyExactly(taken: seq<Bytes>, c: Bytes, B: nat)
    requires Sized(taken, |c|, B)
    ensures |Body(taken)| == Upto(|taken|, B, |c|)
    ensures Body(taken) == c[..Upto(|taken|, B, |c|)] <==> BlocksOf(taken, c, B)
  {
    if taken != [] {
      var n := |taken| - 1;
      var front, b := taken[..n], taken[n];
      assert taken == front + [b];
      SizedFront(front, b, |c|, B);
      BodyExactly(front, c, B);
      CutNext(c, n, B);
      SplitEqual(Body(front), b, c[..Upto(n, B, |c|)], Block(c, n, B));
      BlocksOfSnoc(front, b, c, B);
    }
  }

  /** Only blocks are read and bytes changed; the size stays. */
  predicate DuringUpload(steps: seq<Step>, size: nat) {
    forall k :: 0 <= k < |steps| ==> steps[k].Take? || (steps[k].Change? && |steps[k].cache| == size)
  }

  ghost predicate Uploading(s: Synced, size: nat, B: nat)
    requires B > 0
  {
    && |s.cache| == size && s.job.Some? && s.job.value.count == BlockCount(size, B)
    && |s.job.value.taken| <= s.job.value.count && Sized(s.job.value.taken, size, B)
  }

  lemma StepUploading(s: Synced, step: Step, size: nat, B: nat)
    requires B > 0 && Uploading(s, size, B) && DuringUpload([step], size)
    ensures Uploading(After(s, step, B), size, B)
    ensures s.job.value.taken <= After(s, step, B).job.value.taken
  {
    assert [step][0] == step;
    if step.Take? { BlockBounds(size, B, |s.job.value.taken|); }
  }

  /** The file as it was when block `i` was read: before the step after which it has been. */
  function AtRead(s: Synced, steps: seq<Step>, i: nat, B: nat): Bytes
    requires B > 0
  {
    if steps == [] then s.cache
    else
      var front := steps[..|steps| - 1];
      var before := Run(s, front, B);
      if before.job.Some? && i < |before.job.value.taken| then AtRead(s, front, i, B) else before.cache
  }

  /** Every block taken is the file's as it was when it was read. */
  ghost predicate TakenAtRead(s: Synced, steps: seq<Step>, i: nat, size: nat, B: nat)
    requires B > 0 && Run(s, steps, B).job.Some? && i < |Run(s, steps, B).job.value.taken|
  {
    var c := AtRead(s, steps, i, B);
    |c| == size && Offset(i, B) <= size && Run(s, steps, B).job.value.taken[i] == Block(c, i, B)
  }

  lemma RunSnoc(s: Synced, front: seq<Step>, step: Step, B: nat)
    requires B > 0
    ensures Run(s, front + [step], B) == After(Run(s, front, B), step, B)
    ensures
      var before := Run(s, front, B);
      forall i: nat :: AtRead(s, front + [step], i, B) ==
        (if before.job.Some? && i < |before.job.value.taken| then AtRead(s, front, i, B) else before.cache)
  {
    assert (front + [step])[..|front|] == front;
  }

  ghost predicate AllTakenAtRead(s: Synced, steps: seq<Step>, size: nat, B: nat)
    requires B > 0
  {
    && Uploading(Run(s, steps, B), size, B)
    && forall i :: 0 <= i < |Run(s, steps, B).job.value.taken| ==> TakenAtRead(s, steps, i, size, B)
  }

  lemma TakenStep(s: Synced, front: seq<Step>, step: Step, size: nat, B: nat)
    requires B > 0 && AllTakenAtRead(s, front, size, B) && DuringUpload([step], size)
    ensures AllTakenAtRead(s, front + [step], size, B)
  {
    var before := Run(s, front, B);
    RunSnoc(s, front, step, B);
    StepUploading(before, step, size, B);
    assert [step][0] == step;
    forall i | 0 <= i < |After(before, step, B).job.value.taken|
      ensures TakenAtRead(s, front + [step], i, size, B)
    {
      if i < |before.job.value.taken| {
        assert TakenAtRead(s, front, i, size, B);
      } else {
        BlockBounds(size, B, i);
      }
    }
  }

  lemma {:induction false} RunUploading(s: Synced, steps: seq<Step>, size: nat, B: nat)
    requires B > 0 && Uploading(s, size, B) && s.job.value.taken == [] && DuringUpload(steps, size)
    ensures AllTakenAtRead(s, steps, size, B)
  {
    if steps != [] {
      var n := |steps| - 1;
      RunUploading(s, steps[..n], size, B);
      TakenStep(s, steps[..n], steps[n], size, B);
      assert steps == steps[..n] + [steps[n]];
    }
  }

  predicate SameBlock(c: Bytes, d: Bytes, i: nat, B: nat) {
    Offset(i, B) <= |c| && Offset(i, B) <= |d| && Block(c, i, B) == Block(d, i, B)
  }

  /** Every block is at the end what it was when it was read. */
  ghost predicate UnchangedSinceRead(s: Synced, steps: seq<Step>, B: nat)
    requires B > 0
  {
    var last := Run(s, steps, B).cache;
    forall i :: 0 <= i < BlockCount(|last|, B) ==> SameBlock(AtRead(s, steps, i, B), last, i, B)
  }

  /**
   An upload that Release starts and that reads all blocks, with changes of bytes in between,
   publishes the file as it is at the end exactly when no block was changed after it was read.
   Either way the file is then clean and the next Release does nothing.
   */
  lemma UploadExactly(s: Synced, steps: seq<Step>, B: nat)
    requires B > 0 && s.dirty && s.job.None? && DuringUpload(steps, |s.cache|)
    requires Run(After(s, Release, B), steps, B).job.Some?
    requires
      var job := Run(After(s, Release, B), steps, B).job.value;
      |job.taken| == job.count
    ensures
      var start := After(s, Release, B);
      var end := After(Run(start, steps, B), Finish(true), B);
      && (end.published == end.cache <==> UnchangedSinceRead(start, steps, B))
      && !end.dirty && After(end, Release, B) == end
  {
    var start, size := After(s, Release, B), |s.cache|;
    RunUploading(start, steps, size, B);
    WholeExactly(start, steps, size, B);
  }

  lemma WholeExactly(s: Synced, steps: seq<Step>, size: nat, B: nat)
    requires B > 0 && AllTakenAtRead(s, steps, size, B)
    requires |Run(s, steps, B).job.value.taken| == BlockCount(size, B)
    ensures Body(Run(s, steps, B).job.value.taken) == Run(s, steps, B).cache <==> UnchangedSinceRead(s, steps, B)
  {
    var last, taken := Run(s, steps, B).cache, Run(s, steps, B).job.value.taken;
    BodyExactly(taken, last, B);
    AllBlocks(size, B);
    assert last[..size] == last;
    forall i | 0 <= i < |taken|
      ensures SameBlock(AtRead(s, steps, i, B), last, i, B) <==> Offset(i, B) <= |last| && taken[i] == Block(last, i, B)
    {
      assert TakenAtRead(s, steps, i, size, B);
    }
  }

  lemma AllBlocks(size: nat, B: nat)
    requires B > 0
    ensures Upto(BlockCount(size, B), B, size) == size
  {
    BlockBounds(size, B, BlockCount(size, B));
  }

  lemma RunTwo(s: Synced, a: Step, b: Step, B: nat)
    requires B > 0
    ensures Run(s, [a, b], B) == After(After(s, a, B), b, B)
  {
    assert [a, b][..1] == [a] && [a][..0] == [];
    assert Run(s, [a], B) == After(s, a, B);
  }

  lemma RunFour(s: Synced, a: Step, b: Step, c: Step, d: Step, B: nat)
    requires B > 0
    ensures Run(s, [a, b, c, d], B) == After(After(After(After(s, a, B), b, B), c, B), d, B)
  {
    RunTwo(s, a, b, B);
    RunSnoc(s, [a, b], c, B);
    RunSnoc(s, [a, b] + [c], d, B);
    assert [a, b] + [c] + [d] == [a, b, c, d];
  }

  /** Reading a file of one block. */
  lemma TakeOnly(s: Synced, B: nat)
    requires s.dirty && s.job.None? && 0 < |s.cache| <= B
    ensures After(After(s, Release, B), Take, B) == s.(job := Some(Job(1, [s.cache])))
  {
    BlockBounds(|s.cache|, B, 0);
    BlockBounds(|s.cache|, B, 1);
    assert Offset(1, B) == Offset(0, B) + B && Block(s.cache, 0, B) == s.cache;
    var none: seq<Bytes> := [];
    assert none + [s.cache] == [s.cache];
  }

  /** A change of a file of one block, made after the upload read it and before it ended, is lost. */
  lemma LostChangeWitness(s: Synced, c: Bytes, B: nat)
    requires s.dirty && s.job.None? && 0 < |s.cache| <= B && |c| == |s.cache| && c != s.cache
    ensures
      var end := Run(s, [Release, Take, Change(c), Finish(true)], B);
      end.cache == c && end.published == s.cache && !end.dirty && After(end, Release, B) == end
  {
    TakeOnly(s, B);
    RunFour(s, Release, Take, Change(c), Finish(true), B);
    assert [s.cache][..0] == [] && Body([s.cache]) == [] + s.cache == s.cache;
  }
}
