/** An open file: the locked sections of Read, Write, Truncate and of a block's arrival. */
module OpenFiles {
  import opened Prelude
  import opened Ranges
  import opened FileCache
  import opened LoadTracker
  import opened FileModel

  /** Read sleeps and polls again this many times before it gives up. */
  const MAX_RETRIES: nat := 20

  class FileData {
    const cache: MemoryCache
    const load: Load
    var dirty: bool

    ghost predicate Valid()
      reads cache, load
    {
      cache.Valid() && load.Valid()
    }

    ghost function Footprint(): set<object>
      reads cache
    {
      {this, cache, load, cache.data}
    }

    ghost function State(): FileState
      requires Valid()
      reads cache, load, cache.data
    {
      FileState(cache.Contents(), load.Live())
    }

    /** Open and Mknod: a zeroed cache of the recorded size with nothing marked ready. */
    constructor (size: nat)
      ensures Valid() && fresh(Footprint()) && !dirty
      ensures State() == FileState(Zeros(size), [])
    {
      var c := new MemoryCache();
      var l := new Load();
      c.Truncate(size);
      assert c.Contents() == Zeros(size);
      cache, load, dirty := c, l, false;
    }

    method Write(b: Bytes, o: nat) returns (n: nat)
      requires Valid()
      modifies Footprint()
      ensures Valid() && fresh(Footprint() - old(Footprint()))
      ensures Wrote(old(State()), State(), b, o)
      ensures dirty && n == |b|
    {
      ghost var s := State();
      var end := o + |b|;
      var filesize := cache.Size();
      if end > filesize {
        cache.Truncate(end);
      }
      ghost var grown := cache.Contents();
      assert grown == Resize(s.cache, Max(|s.cache|, end)) && load.Live() == s.ranges;
      var wrote := cache.WriteRange(o, end, b);
      assert b[..|b|] == b && cache.Contents() == Patch(grown, o, b);
      n := wrote.value;
      load.MarkReady(o, end);
      dirty := true;
    }

    /** `ok` is false when trimming the ranges panics, and that is exactly when. */
    method Truncate(size: nat) returns (ok: bool)
      requires Valid()
      modifies Footprint()
      ensures Valid() && fresh(Footprint() - old(Footprint()))
      ensures ok <==> size >= |old(State()).cache| || TruncateSafe(old(State()).ranges, size)
      ensures ok ==> Truncated(old(State()), State(), size)
      ensures ok ==> dirty == (old(dirty) || size != |old(State()).cache|)
    {
      var filesize := cache.Size();
      if size == filesize {
        assert Resize(cache.Contents(), size) == cache.Contents();
        return true;
      } else if size < filesize {
        ok := load.Truncate(size);
        if !ok { return; }
      } else {
        load.AddRange(filesize, filesize + size);
      }
      cache.Truncate(size);
      dirty := true;
      ok := true;
    }

    /**
     A block reaching the download job. A block past the cache's capacity panics; one past
     its length only is written where nobody sees it. Either way no local change is looked at.
     */
    method Arrive(o: nat, b: Bytes) returns (ok: bool)
      requires Valid()
      modifies Footprint()
      ensures Valid() && fresh(Footprint() - old(Footprint()))
      ensures ok ==> Downloaded(old(State()), State(), o, b)
      ensures ok <==> o + |b| <= old(cache.data.Length)
      ensures old(cache.data.Length) >= |old(State()).cache|
      ensures dirty == old(dirty)
    {
      var n := cache.WriteRange(o, o + |b|, b);
      if n.None? { return false; }
      assert b[..|b|] == b;
      load.AddRange(o, o + |b|);
      ok := true;
    }

    /** Between two polls every other section may run: nothing is known afterwards but validity. */
    method Sleep()
      requires Valid()
      modifies Footprint()
      ensures Valid() && fresh(Footprint() - old(Footprint()))
    {
    }

    /** One round of Read's loop, under the read lock. The answer is final unless it is to retry. */
    method PollOnce(buff: array<byte>, o: nat) returns (retry: bool, r: Option<nat>, ghost run: int)
      requires Valid() && buff !in Footprint()
      modifies load, buff
      ensures Valid() && cache.data == old(cache.data)
      ensures State().cache == old(State()).cache && Resorted(old(State()).ranges, State().ranges)
      ensures IsReadyRun(old(State()).ranges, o, run)
      ensures retry <==> PollOf(old(State()).cache, o, buff.Length, run).Retry?
      ensures Answers(PollOf(old(State()).cache, o, buff.Length, run), r, old(buff[..]), buff[..])
    {
      ghost var c := State().cache;
      var filesize := cache.Size();
      var bytesReady := load.BytesReady(o);
      run := bytesReady;
      if bytesReady <= 0 { return true, Some(0), run; }
      var n := Min(bytesReady, buff.Length);
      if o + n > filesize {
        n := filesize - o;
      }
      r := cache.ReadRange(o, o + n, buff);
      assert PollOf(c, o, buff.Length, run) == if n < 0 then Panic else Got(c[o..o + n]);
      retry := false;
    }

    /**
     Read with arbitrary changes to the file between polls. `seen` is the state at the last
     poll; the answer is decided there, after at most MAX_RETRIES + 1 polls.
     */
    method Read(buff: array<byte>, o: nat)
      returns (r: Option<nat>, polls: nat, ghost seen: FileState, ghost run: int)
      requires Valid() && buff !in Footprint()
      modifies Footprint(), buff
      ensures Valid() && fresh(Footprint() - old(Footprint()))
      ensures 1 <= polls <= MAX_RETRIES + 1
      ensures polls == 1 ==> seen == old(State()) && dirty == old(dirty)
      ensures State().cache == seen.cache && Resorted(seen.ranges, State().ranges)
      ensures IsReadyRun(seen.ranges, o, run)
      ensures
        var last := PollOf(seen.cache, o, buff.Length, run);
        Answers(last, r, old(buff[..]), buff[..]) && (last.Retry? ==> polls == MAX_RETRIES + 1 == 21)
    {
      var retries := 0;
      polls := 0;
      while true
        invariant Valid() && fresh(Footprint() - old(Footprint())) && buff !in Footprint()
        invariant 0 <= retries <= MAX_RETRIES && polls == retries
        invariant retries == 0 ==> State() == old(State()) && dirty == old(dirty)
        invariant buff[..] == old(buff[..])
        decreases MAX_RETRIES - retries
      {
        seen := State();
        polls := polls + 1;
        var retry: bool;
        retry, r, run := PollOnce(buff, o);
        if !retry || retries >= MAX_RETRIES { return; }
        retries := retries + 1;
        Sleep();
      }
    }
  }

  /** What a poll comes to for the caller: the count returned and the buffer afterwards. */
  ghost predicate Answers(poll: Poll, r: Option<nat>, before: Bytes, after: Bytes) {
    match poll
    case Retry => r == Some(0) && after == before
    case Panic => r == None
    case Got(bytes) => r == Some(|bytes|) && |bytes| <= |before| && after == bytes + before[|bytes|..]
  }
}
