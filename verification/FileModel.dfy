/**
 One open file as a value, the effect of each locked section on it, and what holds over
 every run of those sections.
 */
module FileModel {
  import opened Prelude
  import opened Ranges
  import opened FileCache

  datatype FileState = FileState(cache: Bytes, ranges: seq<Range>)

  // ------------------------------------------------------------ locked sections

  /** Write: grow with zeros if needed, overlay, and mark the range unless it is marked. */
  ghost predicate Wrote(s: FileState, t: FileState, b: Bytes, o: nat) {
    var known := |s.ranges|;
    && t.cache == Patch(Resize(s.cache, Max(|s.cache|, o + |b|)), o, b)
    && known <= |t.ranges|
    && Resorted(s.ranges, t.ranges[..known])
    && t.ranges[known..] ==
       (if CoversAll(s.ranges, o, Max(o + |b|, o + 1)) then [] else [Range(o, o + |b|)])
  }

  /** Truncate that does not panic. Growth marks `size` bytes from the old end, not `size - old`. */
  ghost predicate Truncated(s: FileState, t: FileState, size: nat) {
    var had := |s.cache|;
    && t.cache == Resize(s.cache, size)
    && if size == had then t.ranges == s.ranges
       else if size < had then TruncateRanges(s.ranges, size) == Some(t.ranges)
       else t.ranges == s.ranges + [Range(had, had + size)]
  }

  /** Arrival of a block in the background download: no check for local changes. */
  ghost predicate Downloaded(s: FileState, t: FileState, o: nat, b: Bytes) {
    t.cache == Patch(s.cache, o, b) && t.ranges == s.ranges + [Range(o, o + |b|)]
  }

  /** A block fetched by a live transaction: overlaid, and marked unless it is marked. */
  ghost predicate Refetched(s: FileState, t: FileState, b: Bytes, o: nat) {
    var known := |s.ranges|;
    && t.cache == Patch(s.cache, o, b)
    && known <= |t.ranges|
    && Resorted(s.ranges, t.ranges[..known])
    && t.ranges[known..] ==
       (if CoversAll(s.ranges, o, Max(o + |b|, o + 1)) then [] else [Range(o, o + |b|)])
  }

  /** What stays marked when a live transaction brings the file to `size`. */
  ghost predicate StillMarked(s: FileState, size: nat, x: int) {
    Covered(s.ranges, x) && (x < size || |s.cache| <= size)
  }

  /**
   A live transaction of content `c`, dealt with below `upto`: what lies there holds `c`, the
   rest is what resizing left, and only below `upto` was anything marked.
   */
  ghost predicate LivePatched(s: FileState, t: FileState, c: Bytes, upto: nat) {
    && upto <= |c| == |t.cache|
    && (forall x: nat :: x < |c| ==> t.cache[x] == if x < upto then c[x] else Resize(s.cache, |c|)[x])
    && (forall x :: StillMarked(s, |c|, x) ==> Covered(t.ranges, x))
    && forall x :: Covered(t.ranges, x) ==> StillMarked(s, |c|, x) || 0 <= x < upto
  }

  datatype Poll = Retry | Panic | Got(bytes: Bytes)

  /** One round of Read's loop, for a buffer of `want` bytes and a covered run of `run`. */
  function PollOf(cache: Bytes, o: nat, want: nat, run: int): Poll {
    if run <= 0 then Retry
    else
      var ready := Min(run, want);
      var n := if o + ready > |cache| then |cache| - o else ready;
      if n < 0 then Panic else Got(cache[o..o + n])
  }

  /** Marking a range covers it, whether or not it had to be added. */
  lemma MarkedCovers(before: seq<Range>, after: seq<Range>, from: int, to: int)
    requires |before| <= |after| && Resorted(before, after[..|before|])
    requires after[|before|..] ==
      if CoversAll(before, from, Max(to, from + 1)) then [] else [Range(from, to)]
    ensures forall x :: Covered(after, x) <==> Covered(before, x) || from <= x < to
  {
    var sorted := after[..|before|];
    ResortedCovers(before, sorted);
    assert after == sorted + after[|before|..];
    if CoversAll(before, from, Max(to, from + 1)) {
      assert after == sorted;
    } else {
      AppendCovers(sorted, Range(from, to));
    }
  }

  lemma WroteCovers(s: FileState, t: FileState, b: Bytes, o: nat)
    requires Wrote(s, t, b, o)
    ensures forall x :: Covered(t.ranges, x) <==> Covered(s.ranges, x) || o <= x < o + |b|
  {
    MarkedCovers(s.ranges, t.ranges, o, o + |b|);
  }

  /** Writing the same bytes again changes neither the file nor what is marked, and adds no range. */
  lemma WriteAgain(s: FileState, t: FileState, u: FileState, b: Bytes, o: nat)
    requires Wrote(s, t, b, o) && Wrote(t, u, b, o) && b != []
    ensures u.cache == t.cache && multiset(u.ranges) == multiset(t.ranges)
  {
    WroteCovers(s, t, b, o);
    assert CoversAll(t.ranges, o, Max(o + |b|, o + 1));
    assert u.ranges == u.ranges[..|t.ranges|] + u.ranges[|t.ranges|..];
    assert forall x :: 0 <= x < |t.cache| ==> u.cache[x] == t.cache[x];
  }

  lemma TruncatedCovers(s: FileState, t: FileState, size: nat)
    requires Truncated(s, t, size)
    ensures forall x :: x < size ==>
      (Covered(t.ranges, x) <==> Covered(s.ranges, x) || |s.cache| <= x)
  {
    var had := |s.cache|;
    if size < had {
      TruncateExact(s.ranges, size);
    } else if had < size {
      AppendCovers(s.ranges, Range(had, had + size));
    }
  }

  /** The gap a write past the end opens stays unmarked, so reading it polls in vain. */
  lemma WriteGapStaysUnready(s: FileState, t: FileState, b: Bytes, o: nat, x: nat, run: int)
    requires Wrote(s, t, b, o) && |s.cache| <= x < o && !Covered(s.ranges, x)
    requires IsReadyRun(t.ranges, x, run)
    ensures t.cache[x] == 0 && forall want: nat :: PollOf(t.cache, x, want, run) == Retry
  {
    WroteCovers(s, t, b, o);
    forall want: nat ensures PollOf(t.cache, x, want, run) == Retry {
      PollPanicsExactly(t, x, want, run);
    }
  }

  // ------------------------------------------------------------------- reading

  lemma PollPanicsExactly(s: FileState, o: nat, want: nat, run: int)
    requires IsReadyRun(s.ranges, o, run)
    ensures PollOf(s.cache, o, want, run).Panic? <==> |s.cache| < o && Covered(s.ranges, o)
    ensures PollOf(s.cache, o, want, run).Retry? <==> !Covered(s.ranges, o)
  {}

  /** No range ends past the cache. */
  ghost predicate Bounded(s: FileState) {
    forall r :: r in s.ranges ==> r.end <= |s.cache|
  }

  lemma BoundedNeverPanics(s: FileState, o: nat, want: nat, run: int)
    requires Bounded(s) && IsReadyRun(s.ranges, o, run)
    ensures !PollOf(s.cache, o, want, run).Panic?
  {
    PollPanicsExactly(s, o, want, run);
  }

  lemma BoundedAppend(s: FileState, t: FileState, r: Range)
    requires Bounded(s) && |s.cache| <= |t.cache| && t.ranges == s.ranges + [r]
    ensures Bounded(t) <==> r.end <= |t.cache|
  {}

  lemma WriteKeepsBounded(s: FileState, t: FileState, b: Bytes, o: nat)
    requires Bounded(s) && Wrote(s, t, b, o)
    ensures Bounded(t)
  {
    var sorted := t.ranges[..|s.ranges|];
    ResortedCovers(s.ranges, sorted);
    assert t.ranges == sorted + t.ranges[|s.ranges|..];
    assert forall r :: r in t.ranges ==> r in sorted || r == Range(o, o + |b|);
  }

  lemma {:induction false} ClippedEnds(rs: seq<Range>, end: int)
    ensures forall r :: r in Clipped(rs, end) ==> r.end <= end
  {
    if rs != [] { ClippedEnds(rs[1..], end); }
  }

  /** Shrinking keeps ranges within the cache; growing does so only from an empty file. */
  lemma TruncateKeepsBoundedExactly(s: FileState, t: FileState, size: nat)
    requires Bounded(s) && Truncated(s, t, size)
    ensures Bounded(t) <==> size <= |s.cache| || |s.cache| == 0
  {
    var had := |s.cache|;
    if size < had {
      TruncateExact(s.ranges, size);
      ClippedEnds(s.ranges, size);
      ResortedCovers(Clipped(s.ranges, size), t.ranges);
    } else if had < size {
      BoundedAppend(s, t, Range(had, had + size));
    }
  }

  lemma DownloadKeepsBoundedExactly(s: FileState, t: FileState, o: nat, b: Bytes)
    requires Bounded(s) && Downloaded(s, t, o, b)
    ensures Bounded(t) <==> o + |b| <= |s.cache|
  {}

  /** After growing a non-empty file, reads just past its new end slice out of bounds. */
  lemma GrowthMakesReadsPanic(s: FileState, t: FileState, size: nat, x: nat, want: nat, run: int)
    requires Truncated(s, t, size) && |s.cache| < size
    requires size < x < |s.cache| + size && IsReadyRun(t.ranges, x, run)
    ensures PollOf(t.cache, x, want, run).Panic?
  {}

  /** A read right after a write at the same offset answers at once with what was written. */
  lemma ReadYourWrites(s: FileState, t: FileState, b: Bytes, o: nat, want: nat, run: int)
    requires Wrote(s, t, b, o) && b != [] && IsReadyRun(t.ranges, o, run)
    ensures
      var got := PollOf(t.cache, o, want, run);
      var n := Min(|b|, want);
      got.Got? && n <= |got.bytes| && got.bytes[..n] == b[..n]
  {
    WroteCovers(s, t, b, o);
    assert CoversAll(t.ranges, o, o + |b|);
    ReadyRunDecidesReady(t.ranges, o, o + |b|, run);
    var got := PollOf(t.cache, o, want, run);
    assert forall k :: 0 <= k < Min(|b|, want) ==> got.bytes[k] == t.cache[o + k] == b[k];
  }

  // ------------------------------------------------------------- runs of a file

  /**
   An open file with what it stands for: `logical` is the stored content overlaid by local
   changes, `pending` the blocks (by offset) that the download job has still to deliver.
   */
  datatype Tracked = Tracked(file: FileState, logical: Bytes, pending: map<nat, Bytes>)

  /**
   A live transaction that nothing interrupts reaches up to `upto`, which is short of its
   content if a fetch was refused. With other sections in between, it is a live step that
   reaches nothing and then a patch step for each block it fetches. A stray block comes from
   the download job of another file that was open under the same path before.
   */
  datatype Step =
    | WriteStep(b: Bytes, o: nat)
    | TruncateStep(size: nat)
    | DownloadStep(o: nat)
    | AbandonStep
    | ReadStep
    | LiveStep(content: Bytes, upto: nat)
    | PatchStep(b: Bytes, o: nat)
    | StrayStep(b: Bytes, o: nat)

  ghost predicate Next(s: Tracked, t: Tracked, step: Step) {
    match step
    case WriteStep(b, o) =>
      && Wrote(s.file, t.file, b, o) && t.pending == s.pending
      && t.logical == Patch(Resize(s.logical, Max(|s.logical|, o + |b|)), o, b)
    case TruncateStep(size) =>
      && Truncated(s.file, t.file, size) && t.pending == s.pending
      && t.logical == Resize(s.logical, size)
    case DownloadStep(o) =>
      && o in s.pending && Downloaded(s.file, t.file, o, s.pending[o])
      && t.logical == s.logical && t.pending == s.pending - {o}
    case AbandonStep =>
      t == s.(pending := map[])
    case ReadStep =>
      && t == s.(file := t.file) && t.file.cache == s.file.cache
      && Resorted(s.file.ranges, t.file.ranges)
    case LiveStep(content, upto) =>
      && LivePatched(s.file, t.file, content, upto)
      && t.logical == content && t.pending == s.pending
    case PatchStep(b, o) =>
      Refetched(s.file, t.file, b, o) && t == s.(file := t.file)
    case StrayStep(b, o) =>
      Downloaded(s.file, t.file, o, b) && t == s.(file := t.file)
  }

  ghost predicate Apart(pending: map<nat, Bytes>, from: int, to: int) {
    forall o :: o in pending ==> o + |pending[o]| <= from || to <= o || to <= from
  }

  /** Local changes stay clear of blocks still to come. A shrink changes no byte. */
  ghost predicate Undisturbed(s: Tracked, step: Step) {
    match step
    case WriteStep(b, o) => Apart(s.pending, Min(o, |s.file.cache|), o + |b|)
    case TruncateStep(size) => Apart(s.pending, |s.file.cache|, size)
    case LiveStep(content, upto) => s.pending == map[] && upto == |content|
    case PatchStep(_, _) => false
    case StrayStep(_, _) => false
    case _ => true
  }

  /** Every covered offset of the file holds its logical byte. */
  ghost predicate Faithful(s: Tracked) {
    && |s.logical| == |s.file.cache|
    && forall x: nat :: x < |s.logical| && Covered(s.file.ranges, x) ==> s.file.cache[x] == s.logical[x]
  }

  /** A block holds what the logical file has where it lands. */
  ghost predicate Agrees(logical: Bytes, b: Bytes, o: nat) {
    forall x: nat :: x < |logical| && o <= x < o + |b| ==> logical[x] == b[x - o]
  }

  ghost predicate PendingAgrees(s: Tracked, o: nat)
    requires o in s.pending
  {
    Agrees(s.logical, s.pending[o], o)
  }

  /** Every byte still marked above what was dealt with already was what the transaction says. */
  ghost predicate OldMarksAgree(s: FileState, c: Bytes, upto: nat) {
    forall x: nat :: upto <= x < |c| && StillMarked(s, |c|, x) ==> Resize(s.cache, |c|)[x] == c[x]
  }

  ghost predicate Sound(s: Tracked) {
    Faithful(s) && forall o :: o in s.pending ==> PendingAgrees(s, o)
  }

  /** Open: a zeroed cache with nothing marked, every block of the stored content to come. */
  ghost predicate Opened(s: Tracked) {
    && s.file == FileState(Zeros(|s.logical|), [])
    && forall o :: o in s.pending ==>
         o + |s.pending[o]| <= |s.logical| && s.pending[o] == s.logical[o..o + |s.pending[o]|]
  }

  lemma OpenedIsSound(s: Tracked)
    requires Opened(s)
    ensures Sound(s)
  {}

  /** A local change, an abandoned download or a read makes no marked byte wrong. */
  lemma LocalStepFaithful(s: Tracked, t: Tracked, step: Step)
    requires Faithful(s) && Next(s, t, step)
    requires !step.DownloadStep? && !step.LiveStep? && !step.PatchStep? && !step.StrayStep?
    ensures Faithful(t)
  {
    match step
    case WriteStep(b, o) => WroteCovers(s.file, t.file, b, o);
    case TruncateStep(size) => TruncatedCovers(s.file, t.file, size);
    case ReadStep => ResortedCovers(s.file.ranges, t.file.ranges);
    case _ =>
  }

  /** A block has been laid over the cache and marked. */
  ghost predicate Landed(s: FileState, t: FileState, b: Bytes, o: nat) {
    && t.cache == Patch(s.cache, o, b)
    && forall x :: Covered(t.ranges, x) <==> Covered(s.ranges, x) || o <= x < o + |b|
  }

  lemma DownloadedLanded(s: FileState, t: FileState, b: Bytes, o: nat)
    requires Downloaded(s, t, o, b)
    ensures Landed(s, t, b, o)
  {
    AppendCovers(s.ranges, Range(o, o + |b|));
  }

  lemma RefetchedLanded(s: FileState, t: FileState, b: Bytes, o: nat)
    requires Refetched(s, t, b, o)
    ensures Landed(s, t, b, o)
  {
    MarkedCovers(s.ranges, t.ranges, o, o + |b|);
  }

  lemma ArrivalFaithfulExactly(s: Tracked, t: Tracked, b: Bytes, o: nat)
    requires Faithful(s) && Landed(s.file, t.file, b, o) && t.logical == s.logical
    ensures Faithful(t) <==> Agrees(s.logical, b, o)
  {
    forall x: nat | x < |t.logical| && o <= x < o + |b|
      ensures Covered(t.file.ranges, x) && t.file.cache[x] == b[x - o]
    {}
    if Faithful(t) {
      assert forall x: nat :: x < |s.logical| && o <= x < o + |b| ==> t.file.cache[x] == t.logical[x];
    }
  }

  /** The arrival of a block does so exactly when the block no longer agrees with the logical file. */
  lemma DownloadFaithfulExactly(s: Tracked, t: Tracked, o: nat)
    requires Faithful(s) && Next(s, t, DownloadStep(o))
    ensures Faithful(t) <==> PendingAgrees(s, o)
  {
    DownloadedLanded(s.file, t.file, s.pending[o], o);
    ArrivalFaithfulExactly(s, t, s.pending[o], o);
  }

  /** After a live transaction, whole or cut short, all hangs on the marks above what it dealt with. */
  lemma LiveFaithfulExactly(s: Tracked, t: Tracked, c: Bytes, upto: nat)
    requires Next(s, t, LiveStep(c, upto))
    ensures Faithful(t) <==> OldMarksAgree(s.file, c, upto)
  {
    forall x: nat | upto <= x < |c|
      ensures Covered(t.file.ranges, x) <==> StillMarked(s.file, |c|, x)
      ensures t.file.cache[x] == Resize(s.file.cache, |c|)[x]
    {}
    if Faithful(t) {
      assert forall x: nat :: upto <= x < |c| && StillMarked(s.file, |c|, x) ==> t.file.cache[x] == t.logical[x];
    }
  }

  lemma StepSound(s: Tracked, t: Tracked, step: Step)
    requires Sound(s) && Next(s, t, step) && Undisturbed(s, step)
    ensures Sound(t)
  {
    if step.DownloadStep? {
      assert PendingAgrees(s, step.o);
      DownloadFaithfulExactly(s, t, step.o);
    } else if step.LiveStep? {
      LiveFaithfulExactly(s, t, step.content, step.upto);
    } else {
      LocalStepFaithful(s, t, step);
    }
    forall o | o in t.pending ensures PendingAgrees(t, o) {
      assert PendingAgrees(s, o);
    }
  }

  ghost predicate IsRun(trace: seq<Tracked>, steps: seq<Step>) {
    && |trace| == |steps| + 1
    && forall i :: 0 <= i < |steps| ==> Next(trace[i], trace[i + 1], steps[i])
  }

  lemma RunFront(trace: seq<Tracked>, steps: seq<Step>)
    requires IsRun(trace, steps) && steps != []
    ensures
      var n := |steps| - 1;
      && IsRun(trace[..n + 1], steps[..n]) && Next(trace[n], trace[n + 1], steps[n])
      && steps == steps[..n] + [steps[n]]
  {}

  /** Readiness is sound in every state of every run whose local changes stay clear. */
  lemma {:induction false} RunSoundFrom(trace: seq<Tracked>, steps: seq<Step>)
    requires IsRun(trace, steps) && Sound(trace[0])
    requires forall i :: 0 <= i < |steps| ==> Undisturbed(trace[i], steps[i])
    ensures forall i :: 0 <= i < |trace| ==> Sound(trace[i])
  {
    if steps != [] {
      var n := |steps|;
      RunSoundFrom(trace[..n], steps[..n - 1]);
      assert trace[..n][n - 1] == trace[n - 1];
      StepSound(trace[n - 1], trace[n], steps[n - 1]);
    }
  }

  lemma RunSound(trace: seq<Tracked>, steps: seq<Step>)
    requires IsRun(trace, steps) && Opened(trace[0])
    requires forall i :: 0 <= i < |steps| ==> Undisturbed(trace[i], steps[i])
    ensures forall i :: 0 <= i < |trace| ==> Sound(trace[i])
  {
    OpenedIsSound(trace[0]);
    RunSoundFrom(trace, steps);
  }

  /** What a read returns in a sound state is the logical file. */
  lemma ReadsLogical(s: Tracked, o: nat, want: nat, run: int)
    requires Faithful(s) && IsReadyRun(s.file.ranges, o, run)
    ensures
      var got := PollOf(s.file.cache, o, want, run);
      got.Got? ==> o + |got.bytes| <= |s.logical| && got.bytes == s.logical[o..o + |got.bytes|]
  {}

  // ------------------------------------- when readiness stays sound, in any run

  /** What comes from elsewhere in this step leaves marked bytes right. */
  ghost predicate ArrivesRight(s: Tracked, step: Step) {
    match step
    case DownloadStep(o) => o in s.pending && PendingAgrees(s, o)
    case PatchStep(b, o) => Agrees(s.logical, b, o)
    case StrayStep(b, o) => Agrees(s.logical, b, o)
    case LiveStep(c, upto) => OldMarksAgree(s.file, c, upto)
    case _ => true
  }

  lemma StepFaithfulExactly(s: Tracked, t: Tracked, step: Step)
    requires Faithful(s) && Next(s, t, step)
    ensures Faithful(t) <==> ArrivesRight(s, step)
  {
    match step
    case DownloadStep(o) => DownloadFaithfulExactly(s, t, o);
    case PatchStep(b, o) =>
      RefetchedLanded(s.file, t.file, b, o);
      ArrivalFaithfulExactly(s, t, b, o);
    case StrayStep(b, o) =>
      DownloadedLanded(s.file, t.file, b, o);
      ArrivalFaithfulExactly(s, t, b, o);
    case LiveStep(c, upto) => LiveFaithfulExactly(s, t, c, upto);
    case _ => LocalStepFaithful(s, t, step);
  }

  /**
   Readiness is sound throughout a run exactly when every block arrives right, whichever job
   it comes from, and no live transaction is cut short over marks on older bytes.
   */
  lemma {:induction false} RunFaithfulExactly(trace: seq<Tracked>, steps: seq<Step>)
    requires IsRun(trace, steps) && Faithful(trace[0])
    ensures (forall i :: 0 <= i < |trace| ==> Faithful(trace[i]))
      <==> forall i :: 0 <= i < |steps| ==> ArrivesRight(trace[i], steps[i])
  {
    if steps != [] {
      var n := |steps| - 1;
      var front, done := trace[..n + 1], steps[..n];
      RunFront(trace, steps);
      RunFaithfulExactly(front, done);
      assert forall i :: 0 <= i <= n ==> front[i] == trace[i];
      assert forall i :: 0 <= i < n ==> done[i] == steps[i];
      assert Next(trace[n], trace[n + 1], steps[n]);
      if Faithful(trace[n]) {
        StepFaithfulExactly(trace[n], trace[n + 1], steps[n]);
      }
    }
  }

  /** The logical file after some steps: local changes on the stored content. */
  function LogicalAfter(content: Bytes, steps: seq<Step>): Bytes {
    if steps == [] then content
    else
      var c := LogicalAfter(content, steps[..|steps| - 1]);
      match steps[|steps| - 1]
      case WriteStep(b, o) => Patch(Resize(c, Max(|c|, o + |b|)), o, b)
      case TruncateStep(size) => Resize(c, size)
      case LiveStep(remote, _) => remote
      case _ => c
  }

  lemma {:induction false} RunLogical(trace: seq<Tracked>, steps: seq<Step>)
    requires IsRun(trace, steps)
    ensures trace[|steps|].logical == LogicalAfter(trace[0].logical, steps)
    ensures forall o :: o in trace[|steps|].pending ==>
      o in trace[0].pending && trace[|steps|].pending[o] == trace[0].pending[o]
  {
    if steps != [] {
      var n := |steps| - 1;
      RunLogical(trace[..n + 1], steps[..n]);
      assert Next(trace[n], trace[n + 1], steps[n]);
    }
  }

  /** The local changes `before` left the `n` stored bytes from `o` as they were, where they remain. */
  ghost predicate Untouched(content: Bytes, before: seq<Step>, o: nat, n: nat) {
    var now := LogicalAfter(content, before);
    forall x: nat :: o <= x < o + n && x < |content| && x < |now| ==> now[x] == content[x]
  }

  /** The same of a step, in terms of the steps before it and of the file it meets. */
  ghost predicate RightAfter(start: Tracked, before: seq<Step>, file: FileState, step: Step) {
    match step
    case DownloadStep(o) =>
      o in start.pending && Untouched(start.logical, before, o, |start.pending[o]|)
    case PatchStep(b, o) => Agrees(LogicalAfter(start.logical, before), b, o)
    case StrayStep(b, o) => Agrees(LogicalAfter(start.logical, before), b, o)
    case LiveStep(c, upto) => OldMarksAgree(file, c, upto)
    case _ => true
  }

  lemma LogicalAt(trace: seq<Tracked>, steps: seq<Step>, i: nat)
    requires IsRun(trace, steps) && i <= |steps|
    ensures trace[i].logical == LogicalAfter(trace[0].logical, steps[..i])
    ensures forall o :: o in trace[i].pending ==>
      o in trace[0].pending && trace[i].pending[o] == trace[0].pending[o]
  {
    assert IsRun(trace[..i + 1], steps[..i]);
    RunLogical(trace[..i + 1], steps[..i]);
  }

  lemma PendingIsUntouched(s: Tracked, t: Tracked, before: seq<Step>, o: nat)
    requires Opened(s) && t.logical == LogicalAfter(s.logical, before)
    requires o in t.pending && o in s.pending && t.pending[o] == s.pending[o]
    ensures PendingAgrees(t, o) <==> Untouched(s.logical, before, o, |s.pending[o]|)
  {
    assert forall x: nat :: o <= x < o + |s.pending[o]| ==> s.pending[o][x - o] == s.logical[x];
  }

  lemma ArrivesRightIsUntouched(trace: seq<Tracked>, steps: seq<Step>, i: nat)
    requires IsRun(trace, steps) && Opened(trace[0]) && i < |steps|
    ensures ArrivesRight(trace[i], steps[i]) <==> RightAfter(trace[0], steps[..i], trace[i].file, steps[i])
  {
    LogicalAt(trace, steps, i);
    assert Next(trace[i], trace[i + 1], steps[i]);
    if steps[i].DownloadStep? {
      PendingIsUntouched(trace[0], trace[i], steps[..i], steps[i].o);
    }
  }

  /**
   Said of the steps alone where blocks arrive: from an opened file, readiness is sound
   throughout exactly when no block of its own arrives after a local change that left other
   bytes in its place, no other block disagrees with the file as changed so far, and no live
   transaction is cut short over marks on older bytes.
   */
  lemma OpenedRunExactly(trace: seq<Tracked>, steps: seq<Step>)
    requires IsRun(trace, steps) && Opened(trace[0])
    ensures (forall i :: 0 <= i < |trace| ==> Faithful(trace[i]))
      <==> forall i :: 0 <= i < |steps| ==> RightAfter(trace[0], steps[..i], trace[i].file, steps[i])
  {
    OpenedIsSound(trace[0]);
    RunFaithfulExactly(trace, steps);
    forall i | 0 <= i < |steps|
      ensures ArrivesRight(trace[i], steps[i]) <==> RightAfter(trace[0], steps[..i], trace[i].file, steps[i])
    {
      ArrivesRightIsUntouched(trace, steps, i);
    }
  }

  // --------------------------------------------- when the cache is the logical file

  /**
   What an unmarked offset holds after some steps: zero, or what the last live transaction
   that dealt with it left without marking it.
   */
  function Leftover(steps: seq<Step>, x: nat): byte {
    if steps == [] then 0 else LeftBy(steps[|steps| - 1], Leftover(steps[..|steps| - 1], x), x)
  }

  function LeftBy(step: Step, before: byte, x: nat): byte {
    match step
    case TruncateStep(size) => if size <= x then 0 else before
    case LiveStep(c, upto) => if |c| <= x then 0 else if x < upto then c[x] else before
    case _ => before
  }

  ghost predicate Unfilled(s: Tracked, steps: seq<Step>) {
    && |s.logical| == |s.file.cache|
    && (forall x: nat :: |s.logical| <= x ==> Leftover(steps, x) == 0)
    && forall x: nat :: x < |s.logical| && !Covered(s.file.ranges, x) ==> s.file.cache[x] == Leftover(steps, x)
  }

  lemma StepUnfilled(s: Tracked, t: Tracked, steps: seq<Step>, step: Step)
    requires Unfilled(s, steps) && Next(s, t, step)
    ensures Unfilled(t, steps + [step])
  {
    var all := steps + [step];
    assert all[..|steps|] == steps;
    assert forall x: nat :: Leftover(all, x) == LeftBy(step, Leftover(steps, x), x);
    match step
    case WriteStep(b, o) => WroteCovers(s.file, t.file, b, o);
    case TruncateStep(size) => TruncatedCovers(s.file, t.file, size);
    case DownloadStep(o) => DownloadedLanded(s.file, t.file, s.pending[o], o);
    case PatchStep(b, o) => RefetchedLanded(s.file, t.file, b, o);
    case StrayStep(b, o) => DownloadedLanded(s.file, t.file, b, o);
    case ReadStep => ResortedCovers(s.file.ranges, t.file.ranges);
    case _ =>
  }

  lemma {:induction false} RunUnfilled(trace: seq<Tracked>, steps: seq<Step>)
    requires IsRun(trace, steps) && Opened(trace[0])
    ensures Unfilled(trace[|steps|], steps)
  {
    if steps == [] {
      assert forall x: nat :: Leftover(steps, x) == 0;
    } else {
      var n := |steps| - 1;
      RunFront(trace, steps);
      RunUnfilled(trace[..n + 1], steps[..n]);
      StepUnfilled(trace[n], trace[n + 1], steps[..n], steps[n]);
    }
  }

  /**
   What Release uploads is the cache, loaded or not. In any state of any run of an opened file
   that is the logical file exactly when the marked bytes are right and at every other offset
   the steps left what the logical file has there.
   */
  lemma CacheIsLogicalExactly(trace: seq<Tracked>, steps: seq<Step>)
    requires IsRun(trace, steps) && Opened(trace[0])
    ensures
      var s, logical := trace[|steps|], LogicalAfter(trace[0].logical, steps);
      s.file.cache == logical <==>
        Faithful(s) &&
        forall x: nat :: x < |logical| && !Covered(s.file.ranges, x) ==> Leftover(steps, x) == logical[x]
  {
    RunUnfilled(trace, steps);
    RunLogical(trace, steps);
    var s := trace[|steps|];
    if Faithful(s) && forall x: nat :: x < |s.logical| && !Covered(s.file.ranges, x) ==> Leftover(steps, x) == s.logical[x] {
      assert forall x: nat :: x < |s.logical| ==> s.file.cache[x] == s.logical[x];
    }
  }

  // ------------------------------------------------- when a read panics, in any run

  /** What a step on a file of length `had` adds to, or clears from, the marks past its end. */
  predicate MarksPast(step: Step, pending: map<nat, Bytes>, had: nat, before: bool, x: nat) {
    match step
    case TruncateStep(size) => had <= size && (before || (had < size && had <= x < had + size))
    case LiveStep(c, _) => had <= |c| && before
    case DownloadStep(o) => before || (o in pending && o <= x < o + |pending[o]|)
    case PatchStep(b, o) => before || o <= x < o + |b|
    case StrayStep(b, o) => before || o <= x < o + |b|
    case _ => before
  }

  /** An offset at or past the end is marked after these steps, on a file opened as `s`. */
  predicate MarkedPast(s: Tracked, steps: seq<Step>, x: nat) {
    steps != [] &&
    var before := steps[..|steps| - 1];
    MarksPast(steps[|steps| - 1], s.pending, |LogicalAfter(s.logical, before)|, MarkedPast(s, before, x), x)
  }

  lemma StepPast(s: Tracked, t: Tracked, step: Step, x: nat)
    requires |s.logical| == |s.file.cache| && Next(s, t, step) && |t.logical| <= x
    ensures |t.logical| == |t.file.cache|
    ensures Covered(t.file.ranges, x) <==>
      MarksPast(step, s.pending, |s.logical|, Covered(s.file.ranges, x), x)
  {
    match step
    case WriteStep(b, o) => WroteCovers(s.file, t.file, b, o);
    case TruncateStep(size) =>
      if size < |s.logical| {
        TruncateExact(s.file.ranges, size);
      } else if |s.logical| < size {
        AppendCovers(s.file.ranges, Range(|s.logical|, |s.logical| + size));
      }
    case DownloadStep(o) => DownloadedLanded(s.file, t.file, s.pending[o], o);
    case PatchStep(b, o) => RefetchedLanded(s.file, t.file, b, o);
    case StrayStep(b, o) => DownloadedLanded(s.file, t.file, b, o);
    case ReadStep => ResortedCovers(s.file.ranges, t.file.ranges);
    case _ =>
  }

  lemma {:induction false} RunPast(trace: seq<Tracked>, steps: seq<Step>)
    requires IsRun(trace, steps) && Opened(trace[0])
    ensures |trace[|steps|].logical| == |trace[|steps|].file.cache|
    ensures forall x: nat :: |trace[|steps|].logical| <= x ==>
      (Covered(trace[|steps|].file.ranges, x) <==> MarkedPast(trace[0], steps, x))
  {
    if steps != [] {
      var n := |steps| - 1;
      var s, t := trace[n], trace[n + 1];
      RunPast(trace[..n + 1], steps[..n]);
      RunLogical(trace[..n + 1], steps[..n]);
      assert Next(s, t, steps[n]);
      assert trace[..n + 1][n] == s && trace[..n + 1][0] == trace[0];
      StepPast(s, t, steps[n], |t.logical|);
      forall x: nat | |t.logical| <= x
        ensures Covered(t.file.ranges, x) <==> MarkedPast(trace[0], steps, x)
      {
        StepPast(s, t, steps[n], x);
      }
    }
  }

  /**
   In any state of any run of an opened file, whether a read panics is decided by the steps:
   its offset is past the end, and a growing Truncate or a block that arrived marked it there
   with no cut since.
   */
  lemma RunPanicsExactly(trace: seq<Tracked>, steps: seq<Step>, o: nat, want: nat, run: int)
    requires IsRun(trace, steps) && Opened(trace[0])
    requires IsReadyRun(trace[|steps|].file.ranges, o, run)
    ensures PollOf(trace[|steps|].file.cache, o, want, run).Panic? <==>
      |LogicalAfter(trace[0].logical, steps)| < o && MarkedPast(trace[0], steps, o)
  {
    RunPast(trace, steps);
    RunLogical(trace, steps);
    PollPanicsExactly(trace[|steps|].file, o, want, run);
  }

  /** A fully marked file has nothing missing. */
  lemma FullyReadyIsLogical(s: Tracked)
    requires Faithful(s) && CoversAll(s.file.ranges, 0, |s.file.cache|)
    ensures s.file.cache == s.logical
  {}

  /**
   After an append to a file none of whose blocks has arrived, the cache is the logical file
   exactly when the stored content was all zeros.
   */
  lemma AppendBeforeDownloadExact(s: Tracked, t: Tracked, b: Bytes, o: nat)
    requires Opened(s) && |s.logical| <= o && Next(s, t, WriteStep(b, o))
    ensures t.file.cache == t.logical <==> forall x: nat :: x < |s.logical| ==> s.logical[x] == 0
  {
    CacheIsLogicalExactly([s, t], [WriteStep(b, o)]);
    LocalStepFaithful(s, t, WriteStep(b, o));
    WroteCovers(s.file, t.file, b, o);
    assert forall x: nat :: x < |s.logical| ==> t.file.cache[x] == 0 && t.logical[x] == s.logical[x];
    assert LogicalAfter(s.logical, [WriteStep(b, o)]) == t.logical by {
      RunLogical([s, t], [WriteStep(b, o)]);
    }
  }

  /** The byte a write of `b` at `o` leaves at `x` in the part of the file that it changes. */
  function WrittenByte(b: Bytes, o: nat, x: nat): byte {
    if o <= x < o + |b| then b[x - o] else 0
  }

  /** A block that arrives after a write is right exactly where the write put what it holds. */
  lemma WriteThenDownloadExact(s: Tracked, t: Tracked, u: Tracked, b: Bytes, o: nat, p: nat)
    requires Sound(s) && Next(s, t, WriteStep(b, o)) && Next(t, u, DownloadStep(p))
    ensures Faithful(u) <==>
      forall x: nat :: Min(o, |s.logical|) <= x < o + |b| && p <= x < p + |s.pending[p]| ==>
        s.pending[p][x - p] == WrittenByte(b, o, x)
  {
    LocalStepFaithful(s, t, WriteStep(b, o));
    DownloadFaithfulExactly(t, u, p);
    assert PendingAgrees(s, p);
    forall x: nat | x < |t.logical|
      ensures t.logical[x] ==
        if Min(o, |s.logical|) <= x < o + |b| then WrittenByte(b, o, x) else s.logical[x]
    {}
    if PendingAgrees(t, p) {
      forall x: nat | Min(o, |s.logical|) <= x < o + |b| && p <= x < p + |s.pending[p]|
        ensures s.pending[p][x - p] == WrittenByte(b, o, x)
      {
        assert t.logical[x] == WrittenByte(b, o, x);
      }
    }
  }

  /** A block that arrives after its place was cut away and grown back is right only if it is zeros there. */
  lemma CutThenDownloadExact(s: Tracked, t: Tracked, u: Tracked, v: Tracked, cut: nat, size: nat, p: nat)
    requires Sound(s) && cut <= |s.logical| && cut <= size
    requires Next(s, t, TruncateStep(cut)) && Next(t, u, TruncateStep(size)) && Next(u, v, DownloadStep(p))
    ensures Faithful(v) <==>
      forall k: nat :: k < |s.pending[p]| && cut <= p + k < size ==> s.pending[p][k] == 0
  {
    LocalStepFaithful(s, t, TruncateStep(cut));
    LocalStepFaithful(t, u, TruncateStep(size));
    DownloadFaithfulExactly(u, v, p);
    assert PendingAgrees(s, p);
    forall x: nat | x < size ensures u.logical[x] == if x < cut then s.logical[x] else 0 {}
    if PendingAgrees(u, p) {
      forall k: nat | k < |s.pending[p]| && cut <= p + k < size ensures s.pending[p][k] == 0 {
        assert u.logical[p + k] == 0 && u.logical[p + k] == u.pending[p][p + k - p];
      }
    }
    if forall k: nat :: k < |s.pending[p]| && cut <= p + k < size ==> s.pending[p][k] == 0 {
      forall x: nat | x < size && p <= x < p + |s.pending[p]| ensures u.logical[x] == u.pending[p][x - p] {
        var k: nat := x - p;
        assert cut <= x ==> s.pending[p][k] == 0;
      }
    }
  }

  /** A stray block over a write of its own extent is right only if both hold the same bytes. */
  lemma WriteThenStrayExact(s: Tracked, t: Tracked, u: Tracked, b: Bytes, stray: Bytes, o: nat)
    requires Faithful(s) && |stray| == |b|
    requires Next(s, t, WriteStep(b, o)) && Next(t, u, StrayStep(stray, o))
    ensures Faithful(u) <==> stray == b
  {
    LocalStepFaithful(s, t, WriteStep(b, o));
    DownloadedLanded(t.file, u.file, stray, o);
    ArrivalFaithfulExactly(t, u, stray, o);
    assert forall k: nat :: k < |b| ==> t.logical[o + k] == b[k];
    if Agrees(t.logical, stray, o) {
      forall k: nat | k < |b| ensures stray[k] == b[k] {
        assert t.logical[o + k] == stray[o + k - o];
      }
    }
  }

  /** A live transaction cut short over a loaded file of the same size is right only above its reach. */
  lemma CutShortExact(s: Tracked, t: Tracked, c: Bytes, upto: nat)
    requires s.file.cache == s.logical && CoversAll(s.file.ranges, 0, |s.logical|)
    requires |c| == |s.logical| && Next(s, t, LiveStep(c, upto))
    ensures Faithful(t) <==> s.logical[upto..] == c[upto..]
  {
    LiveFaithfulExactly(s, t, c, upto);
    assert Resize(s.file.cache, |c|) == s.logical;
    if OldMarksAgree(s.file, c, upto) {
      forall x: nat | upto <= x < |c| ensures s.logical[x] == c[x] {
        assert StillMarked(s.file, |c|, x);
      }
    }
    if s.logical[upto..] == c[upto..] {
      forall x: nat | upto <= x < |c| ensures s.logical[x] == c[x] {
        assert s.logical[upto..][x - upto] == c[upto..][x - upto];
      }
    }
  }
}
