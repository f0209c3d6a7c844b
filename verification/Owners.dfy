/**
 Runs in which each path has one writer and every foreign entry is handled once and in order,
 whatever order the sends take. Then only the writer of a path can be wrong about it.
 */
module PathOwners {
  import opened Prelude
  import opened Transactions
  import opened TxLog
  import opened Convergence

  predicate OwnedRun(w: World, acts: seq<Action>, owner: string -> nat)
    decreases |acts|
  {
    acts == [] ||
    (Possible(w, acts[0]) && Owned(w, acts[0], owner) && OwnedRun(Do(w, acts[0]), acts[1..], owner))
  }

  /** The known transactions of one path, in no order. */
  function Count(txs: seq<Tx>, p: string): multiset<Tx> { multiset(Project(txs, p)) }

  /**
   The writer's transactions on a path, counted: what it has applied or will apply is what is
   in the log or will be. Only the order is open.
   */
  ghost predicate Accounted(log: seq<Entry>, me: Client, p: string) {
    Count(me.applied, p) + Count(me.unsettled, p) == Count(LogTxs(log), p) + Count(me.outbox, p)
  }

  ghost predicate PathFair(log: seq<Entry>, me: Client, mine: bool, p: string)
    requires me.pos <= |log|
  {
    if mine then Accounted(log, me, p) else OtherPath(log, me, p)
  }

  ghost predicate ClientFair(log: seq<Entry>, c: nat, me: Client, owner: string -> nat) {
    && me.pos <= |log| && Owns(c, me.outbox, owner) && Owns(c, me.unsettled, owner)
    && forall p :: PathFair(log, me, owner(p) == c, p)
  }

  ghost predicate Fair(w: World, owner: string -> nat) {
    && Authored(w.log, owner)
    && forall c :: 0 <= c < |w.clients| ==> ClientFair(w.log, c, w.clients[c], owner)
  }

  lemma CountConcat(a: seq<Tx>, b: seq<Tx>, p: string)
    ensures Count(a + b, p) == Count(a, p) + Count(b, p)
  {
    ProjectConcat(a, b, p);
  }

  lemma CountWithout(s: seq<Tx>, k: nat, p: string)
    requires k < |s|
    ensures Count(s, p) == Count(Without(s, k), p) + Count([s[k]], p)
  {
    var a, x, b := s[..k], [s[k]], s[k + 1..];
    assert s == a + x + b;
    CountConcat(a + x, b, p);
    CountConcat(a, x, p);
    CountConcat(a, b, p);
  }

  lemma CountLog(log: seq<Entry>, e: Entry, p: string)
    ensures Count(LogTxs(log + [e]), p) == Count(LogTxs(log), p) + Count([e.tx], p)
  {
    LogSnoc(log, e, p);
  }

  lemma AddBoth<T>(a: multiset<T>, u: multiset<T>, l: multiset<T>, o: multiset<T>, x: multiset<T>)
    requires a + u == l + o
    ensures (a + x) + u == l + (o + x) && a + (u + x) == (l + x) + o
  {
    assert (a + x) + u == a + u + x && a + (u + x) == a + u + x;
    assert l + (o + x) == l + o + x && (l + x) + o == l + o + x;
  }

  lemma AccountIssue(log: seq<Entry>, me: Client, tx: Tx, p: string)
    requires Accounted(log, me, p)
    ensures Accounted(log, Applying(me, tx).(outbox := me.outbox + [tx]), p)
  {
    CountConcat(me.applied, [tx], p);
    CountConcat(me.outbox, [tx], p);
    AddBoth(Count(me.applied, p), Count(me.unsettled, p), Count(LogTxs(log), p), Count(me.outbox, p), Count([tx], p));
  }

  lemma AccountPublish(log: seq<Entry>, me: Client, c: nat, k: nat, p: string)
    requires Accounted(log, me, p) && k < |me.outbox|
    ensures Accounted(log + [Entry(c, me.outbox[k])], me.(outbox := Without(me.outbox, k)), p)
  {
    CountLog(log, Entry(c, me.outbox[k]), p);
    CountWithout(me.outbox, k, p);
  }

  lemma AccountPublishFirst(log: seq<Entry>, me: Client, c: nat, tx: Tx, p: string)
    requires Accounted(log, me, p)
    ensures Accounted(log + [Entry(c, tx)], me.(unsettled := me.unsettled + [tx]), p)
  {
    CountLog(log, Entry(c, tx), p);
    CountConcat(me.unsettled, [tx], p);
    AddBoth(Count(me.applied, p), Count(me.unsettled, p), Count(LogTxs(log), p), Count(me.outbox, p), Count([tx], p));
  }

  lemma AccountSettle(log: seq<Entry>, me: Client, k: nat, p: string)
    requires Accounted(log, me, p) && k < |me.unsettled|
    ensures Accounted(log, Applying(me, me.unsettled[k]).(unsettled := Without(me.unsettled, k)), p)
  {
    CountConcat(me.applied, [me.unsettled[k]], p);
    CountWithout(me.unsettled, k, p);
  }

  /** The acting client's own path is still accounted for. */
  lemma OwnAccounted(w: World, a: Action, p: string, owner: string -> nat)
    requires Possible(w, a) && Owned(w, a, owner) && Authored(w.log, owner)
    requires owner(p) == a.c && Accounted(w.log, w.clients[a.c], p)
    ensures Accounted(w.log + Sent(w, a), Acted(w, a), p)
  {
    var me, log := w.clients[a.c], w.log;
    assert log + [] == log;
    match a
    case Issue(_, tx) => AccountIssue(log, me, tx, p);
    case Publish(c, k) => AccountPublish(log, me, c, k, p);
    case PublishFirst(c, tx) => AccountPublishFirst(log, me, c, tx, p);
    case Settle(_, k) => AccountSettle(log, me, k, p);
    case Deliver(_) => OwnHears(log, me, a.c, p, owner);
    case Miss(_) =>
  }

  /** What the owner of a path hears from others is not about it. */
  lemma OwnHears(log: seq<Entry>, me: Client, c: nat, p: string, owner: string -> nat)
    requires me.pos < |log| && Authored(log, owner) && owner(p) == c && Accounted(log, me, p)
    ensures Accounted(log, Receiving(me, c, log[me.pos]), p)
  {
    var e := log[me.pos];
    if e.author != c {
      ProjectOne(e.tx, p);
      ProjectSnoc(me.applied, e.tx, p);
      assert Project(me.applied, p) + [] == Project(me.applied, p);
    }
  }

  lemma ActorFair(w: World, a: Action, owner: string -> nat)
    requires Possible(w, a) && Owned(w, a, owner) && Authored(w.log, owner)
    requires ClientFair(w.log, a.c, w.clients[a.c], owner)
    ensures ClientFair(w.log + Sent(w, a), a.c, Acted(w, a), owner)
  {
    var log, me := w.log + Sent(w, a), Acted(w, a);
    ActorOwns(w, a, owner);
    forall p ensures PathFair(log, me, owner(p) == a.c, p) {
      assert PathFair(w.log, w.clients[a.c], owner(p) == a.c, p);
      if owner(p) == a.c {
        OwnAccounted(w, a, p, owner);
      } else {
        OtherStep(w, a, p, owner);
        OtherPathGrows(w.log, Sent(w, a), me, p);
      }
    }
  }

  lemma BystanderPathFair(log: seq<Entry>, sent: seq<Entry>, me: Client, mine: bool, p: string)
    requires me.pos <= |log| && PathFair(log, me, mine, p)
    requires |sent| <= 1 && (mine ==> forall e :: e in sent ==> e.tx.path != p)
    ensures PathFair(log + sent, me, mine, p)
  {
    if !mine {
      OtherPathGrows(log, sent, me, p);
    } else if sent == [] {
      assert log + sent == log;
    } else {
      assert sent == [sent[0]] && sent[0] in sent;
      LogSnoc(log, sent[0], p);
      ProjectOne(sent[0].tx, p);
      assert Project(LogTxs(log), p) + [] == Project(LogTxs(log), p);
    }
  }

  lemma BystanderFair(w: World, a: Action, d: nat, owner: string -> nat)
    requires Possible(w, a) && Owned(w, a, owner) && Fair(w, owner)
    requires d < |w.clients| && d != a.c
    ensures ClientFair(w.log + Sent(w, a), d, w.clients[d], owner)
  {
    var log, sent, me := w.log, Sent(w, a), w.clients[d];
    assert ClientFair(log, a.c, w.clients[a.c], owner);
    SentByOwner(w, a, owner);
    assert ClientFair(log, d, me, owner);
    forall p ensures PathFair(log + sent, me, owner(p) == d, p) {
      assert PathFair(log, me, owner(p) == d, p);
      BystanderPathFair(log, sent, me, owner(p) == d, p);
    }
  }

  lemma StepFair(w: World, a: Action, owner: string -> nat)
    requires Possible(w, a) && Owned(w, a, owner) && Fair(w, owner)
    ensures Fair(Do(w, a), owner)
  {
    var w' := Do(w, a);
    assert ClientFair(w.log, a.c, w.clients[a.c], owner);
    SentByOwner(w, a, owner);
    forall d | 0 <= d < |w'.clients| ensures ClientFair(w'.log, d, w'.clients[d], owner) {
      if d == a.c {
        ActorFair(w, a, owner);
      } else {
        BystanderFair(w, a, d, owner);
      }
    }
  }

  lemma {:induction false} RunFair(w: World, acts: seq<Action>, owner: string -> nat)
    requires OwnedRun(w, acts, owner) && Fair(w, owner)
    ensures DoAll(w, acts).Some? && Fair(DoAll(w, acts).value, owner)
    decreases |acts|
  {
    if acts != [] {
      StepFair(w, acts[0], owner);
      RunFair(Do(w, acts[0]), acts[1..], owner);
    }
  }

  lemma StartedFair(w: World, db0: Db, owner: string -> nat)
    requires Started(w, db0)
    ensures Fair(w, owner)
  {}

  /**
   In every state of an owned run, whatever order the sends took, a client that does not write
   a path holds there what a replay of the log gives up to where it has been delivered.
   */
  lemma OthersFollowTheLog(w0: World, acts: seq<Action>, w: World, db0: Db, owner: string -> nat, c: nat, p: string)
    requires Started(w0, db0) && OwnedRun(w0, acts, owner) && DoAll(w0, acts) == Some(w)
    requires c < |w.clients| && owner(p) != c
    ensures w.clients[c].pos <= |w.log|
    ensures Lookup(w.clients[c].db, p) == Lookup(Replay(db0, LogTxs(w.log[..w.clients[c].pos])), p)
  {
    var me := w.clients[c];
    StartedFair(w0, db0, owner);
    RunFair(w0, acts, owner);
    RunRemembers(w0, acts, db0);
    assert ClientFair(w.log, c, me, owner);
    assert PathFair(w.log, me, false, p);
    ReplayPerPath(db0, me.applied, p);
    ReplayPerPath(db0, LogTxs(w.log[..me.pos]), p);
  }

  /** Once all is logged and applied, the writer of a path applied what the log has, in some order. */
  lemma WriterPermutes(w0: World, acts: seq<Action>, w: World, db0: Db, owner: string -> nat, p: string)
    requires Started(w0, db0) && OwnedRun(w0, acts, owner) && DoAll(w0, acts) == Some(w) && Quiescent(w)
    requires owner(p) < |w.clients|
    ensures Count(w.clients[owner(p)].applied, p) == Count(LogTxs(w.log), p)
  {
    StartedFair(w0, db0, owner);
    RunFair(w0, acts, owner);
    var me := w.clients[owner(p)];
    assert ClientFair(w.log, owner(p), me, owner);
    assert PathFair(w.log, me, true, p);
    AllAccounted(w.log, me, p);
  }

  lemma AllAccounted(log: seq<Entry>, me: Client, p: string)
    requires Accounted(log, me, p) && me.outbox == [] && me.unsettled == []
    ensures Count(me.applied, p) == Count(LogTxs(log), p)
  {
    var none := Count([], p);
    assert none == multiset{};
    assert Count(me.applied, p) + none == Count(me.applied, p) && Count(LogTxs(log), p) + none == Count(LogTxs(log), p);
  }

  /** The last known transaction of a path. */
  function LastOf(txs: seq<Tx>, p: string): Option<Tx> {
    var own := Project(txs, p);
    if own == [] then None else Some(own[|own| - 1])
  }

  /** Two ends of a path's history come to the same. */
  predicate SameEffect(a: Option<Tx>, b: Option<Tx>) {
    match (a, b)
    case (Some(x), Some(y)) => x == y || (!x.kind.WriteTx? && !y.kind.WriteTx?)
    case (None, None) => true
    case _ => false
  }

  lemma SameSize<T>(a: seq<T>, b: seq<T>)
    requires multiset(a) == multiset(b)
    ensures |a| == |b|
  {
    assert |multiset(a)| == |a| && |multiset(b)| == |b|;
  }

  lemma PermutedEnds(db0: Db, a: seq<Tx>, b: seq<Tx>, p: string)
    requires Count(a, p) == Count(b, p)
    ensures Outcome(db0, a, p) == Outcome(db0, b, p) <==> SameEffect(LastOf(a, p), LastOf(b, p))
  {
    SameSize(Project(a, p), Project(b, p));
  }

  /**
   At the end of an owned run all clients hold the replay of the log exactly when the writer of
   each path applied last, of its own transactions there, one with the effect of the last one
   that entered the log.
   */
  lemma ConvergesByWriters(w0: World, acts: seq<Action>, w: World, db0: Db, owner: string -> nat)
    requires Started(w0, db0) && OwnedRun(w0, acts, owner) && DoAll(w0, acts) == Some(w) && Quiescent(w)
    ensures
      (forall c :: 0 <= c < |w.clients| ==> w.clients[c].db == Replay(db0, LogTxs(w.log)))
      <==> forall p :: owner(p) < |w.clients| ==>
             SameEffect(LastOf(w.clients[owner(p)].applied, p), LastOf(LogTxs(w.log), p))
  {
    forall p | owner(p) < |w.clients|
      ensures SameEffect(LastOf(w.clients[owner(p)].applied, p), LastOf(LogTxs(w.log), p))
         <==> Lookup(w.clients[owner(p)].db, p) == Lookup(Replay(db0, LogTxs(w.log)), p)
    {
      WriterAt(w0, acts, w, db0, owner, p);
    }
    assert w.log[..|w.log|] == w.log;
    if forall p :: owner(p) < |w.clients| ==> SameEffect(LastOf(w.clients[owner(p)].applied, p), LastOf(LogTxs(w.log), p)) {
      forall c | 0 <= c < |w.clients| ensures w.clients[c].db == Replay(db0, LogTxs(w.log)) {
        forall p ensures Lookup(w.clients[c].db, p) == Lookup(Replay(db0, LogTxs(w.log)), p) {
          if owner(p) != c { OthersFollowTheLog(w0, acts, w, db0, owner, c, p); }
        }
        LookupDecides(w.clients[c].db, Replay(db0, LogTxs(w.log)));
      }
    }
  }

  lemma WriterAt(w0: World, acts: seq<Action>, w: World, db0: Db, owner: string -> nat, p: string)
    requires Started(w0, db0) && OwnedRun(w0, acts, owner) && DoAll(w0, acts) == Some(w) && Quiescent(w)
    requires owner(p) < |w.clients|
    ensures SameEffect(LastOf(w.clients[owner(p)].applied, p), LastOf(LogTxs(w.log), p))
       <==> Lookup(w.clients[owner(p)].db, p) == Lookup(Replay(db0, LogTxs(w.log)), p)
  {
    var me := w.clients[owner(p)];
    StartedConsistent(w0, db0, owner);
    RunRemembers(w0, acts, db0);
    WriterPermutes(w0, acts, w, db0, owner, p);
    PermutedEnds(db0, me.applied, LogTxs(w.log), p);
    ReplayPerPath(db0, me.applied, p);
    ReplayPerPath(db0, LogTxs(w.log), p);
  }
}
