/**
 Several clients over one log. A client applies its own transactions when it issues them and
 skips them when the log delivers them; those of other clients it applies on delivery. Most
 operations apply first and send later; Release sends first and applies when the send has
 been acknowledged.
 */
module Convergence {
  import opened Prelude
  import opened Transactions
  import opened TxLog

  /**
   `outbox`: applied, not yet in the log. `unsettled`: in the log, not yet applied. The program
   keeps no record of what it applied; `applied` is that history, in order.
   */
  datatype Client = Client(db: Db, applied: seq<Tx>, outbox: seq<Tx>, unsettled: seq<Tx>, pos: nat)

  datatype Entry = Entry(author: nat, tx: Tx)

  datatype World = World(log: seq<Entry>, clients: seq<Client>)

  /**
   `Miss` passes an entry over: its fetch failed, or the client was not ready yet. `Late` handles
   an entry after later ones, as handlers that run concurrently may.
   */
  datatype Action =
    | Issue(c: nat, tx: Tx)
    | Publish(c: nat, k: nat)
    | PublishFirst(c: nat, tx: Tx)
    | Settle(c: nat, k: nat)
    | Deliver(c: nat)
    | Miss(c: nat)
    | Late(c: nat, k: nat)

  function LogTxs(log: seq<Entry>): (r: seq<Tx>)
    ensures |r| == |log|
  {
    seq(|log|, i requires 0 <= i < |log| => log[i].tx)
  }

  function Without(s: seq<Tx>, k: nat): seq<Tx>
    requires k < |s|
  {
    s[..k] + s[k + 1..]
  }

  /** What the program can do at all. */
  predicate Possible(w: World, a: Action) {
    && a.c < |w.clients|
    && var me := w.clients[a.c];
       match a
       case Publish(_, k) => k < |me.outbox|
       case Settle(_, k) => k < |me.unsettled|
       case Deliver(_) => me.pos < |w.log|
       case Miss(_) => me.pos < |w.log|
       case Late(c, k) => k < |w.log| && k < me.pos && w.log[k].author != c
       case _ => true
  }

  function Applying(me: Client, tx: Tx): Client {
    me.(db := Apply(me.db, tx), applied := me.applied + [tx])
  }

  /** A client skips its own entries of the log. */
  function Receiving(me: Client, c: nat, e: Entry): Client {
    (if e.author == c then me else Applying(me, e.tx)).(pos := me.pos + 1)
  }

  /** The acting client afterwards. */
  function Acted(w: World, a: Action): Client
    requires Possible(w, a)
  {
    var me := w.clients[a.c];
    match a
    case Issue(_, tx) => Applying(me, tx).(outbox := me.outbox + [tx])
    case Publish(_, k) => me.(outbox := Without(me.outbox, k))
    case PublishFirst(_, tx) => me.(unsettled := me.unsettled + [tx])
    case Settle(_, k) => Applying(me, me.unsettled[k]).(unsettled := Without(me.unsettled, k))
    case Deliver(c) => Receiving(me, c, w.log[me.pos])
    case Miss(_) => me.(pos := me.pos + 1)
    case Late(_, k) => Applying(me, w.log[k].tx)
  }

  /** What the action adds to the log. */
  function Sent(w: World, a: Action): seq<Entry>
    requires Possible(w, a)
  {
    match a
    case Publish(c, k) => [Entry(c, w.clients[c].outbox[k])]
    case PublishFirst(c, tx) => [Entry(c, tx)]
    case _ => []
  }

  function Do(w: World, a: Action): World
    requires Possible(w, a)
  {
    World(w.log + Sent(w, a), w.clients[a.c := Acted(w, a)])
  }

  /** The world after a list of actions, if all of them are possible. */
  function DoAll(w: World, acts: seq<Action>): Option<World>
    decreases |acts|
  {
    if acts == [] then Some(w)
    else if Possible(w, acts[0]) then DoAll(Do(w, acts[0]), acts[1..])
    else None
  }

  predicate Started(w: World, db0: Db) {
    w.log == [] && forall c :: 0 <= c < |w.clients| ==> w.clients[c] == Client(db0, [], [], [], 0)
  }

  predicate Quiescent(w: World) {
    forall c :: 0 <= c < |w.clients| ==>
      var me := w.clients[c]; me.outbox == [] && me.unsettled == [] && me.pos == |w.log|
  }

  // ------------------------------------------------------ every run there can be

  /** A client's map is the replay of what it applied. */
  ghost predicate Remembers(w: World, db0: Db) {
    forall c :: 0 <= c < |w.clients| ==> w.clients[c].db == Replay(db0, w.clients[c].applied)
  }

  lemma ApplyingRemembers(me: Client, tx: Tx, db0: Db)
    requires me.db == Replay(db0, me.applied)
    ensures Applying(me, tx).db == Replay(db0, Applying(me, tx).applied)
  {
    ConcatLast(me.applied, [tx]);
    assert me.applied + [tx][..0] == me.applied;
  }

  lemma StepRemembers(w: World, a: Action, db0: Db)
    requires Possible(w, a) && Remembers(w, db0)
    ensures Remembers(Do(w, a), db0)
  {
    var me := w.clients[a.c];
    match a
    case Issue(_, tx) => ApplyingRemembers(me, tx, db0);
    case Settle(_, k) => ApplyingRemembers(me, me.unsettled[k], db0);
    case Deliver(_) => ApplyingRemembers(me, w.log[me.pos].tx, db0);
    case Late(_, k) => ApplyingRemembers(me, w.log[k].tx, db0);
    case _ =>
  }

  lemma {:induction false} RunRemembers(w: World, acts: seq<Action>, db0: Db)
    requires Remembers(w, db0) && DoAll(w, acts).Some?
    ensures Remembers(DoAll(w, acts).value, db0)
    decreases |acts|
  {
    if acts != [] {
      StepRemembers(w, acts[0], db0);
      RunRemembers(Do(w, acts[0]), acts[1..], db0);
    }
  }

  /** What a path holds after these transactions. */
  function Outcome(db0: Db, txs: seq<Tx>, p: string): Option<Tx> {
    After(Lookup(db0, p), Project(txs, p))
  }

  lemma ReplaysAgreeExactly(db0: Db, a: seq<Tx>, b: seq<Tx>)
    ensures Replay(db0, a) == Replay(db0, b) <==> forall p :: Outcome(db0, a, p) == Outcome(db0, b, p)
  {
    forall p
      ensures Lookup(Replay(db0, a), p) == Outcome(db0, a, p)
      ensures Lookup(Replay(db0, b), p) == Outcome(db0, b, p)
    {
      ReplayPerPath(db0, a, p);
      ReplayPerPath(db0, b, p);
    }
    if forall p :: Outcome(db0, a, p) == Outcome(db0, b, p) {
      LookupDecides(Replay(db0, a), Replay(db0, b));
    }
  }

  /**
   In every run, with any number of writers, any order of sends, and deliveries that are missed
   or late, a client holds what a
   fresh replay gives exactly when, path by path, the last transaction it applied and the last
   one in the log have the same effect.
   */
  lemma ConvergesExactly(w0: World, acts: seq<Action>, w: World, db0: Db, c: nat)
    requires Started(w0, db0) && DoAll(w0, acts) == Some(w) && c < |w.clients|
    ensures w.clients[c].db == Replay(db0, LogTxs(w.log)) <==>
      forall p :: Outcome(db0, w.clients[c].applied, p) == Outcome(db0, LogTxs(w.log), p)
  {
    RunRemembers(w0, acts, db0);
    ReplaysAgreeExactly(db0, w.clients[c].applied, LogTxs(w.log));
  }

  // ----------------------------------------------------------- disciplined runs

  predicate NoneOf(s: seq<Tx>, p: string) {
    forall i :: 0 <= i < |s| ==> s[i].path != p
  }

  /** Each path is written by its owner only, and foreign entries are handled once and in order. */
  predicate Owned(w: World, a: Action, owner: string -> nat)
    requires Possible(w, a)
  {
    match a
    case Issue(c, tx) => owner(tx.path) == c
    case PublishFirst(c, tx) => owner(tx.path) == c
    case Miss(c) => w.log[w.clients[c].pos].author == c
    case Late(_, _) => false
    case _ => true
  }

  /**
   A discipline that is enough: besides, a client's transactions on one path enter the log and
   the client's own map in the same order. Sends on different paths may overtake each other.
   */
  predicate Disciplined(w: World, a: Action, owner: string -> nat)
    requires Possible(w, a)
  {
    var me := w.clients[a.c];
    && Owned(w, a, owner)
    && match a
       case Issue(_, tx) => NoneOf(me.unsettled, tx.path)
       case Publish(_, k) => NoneOf(me.outbox[..k], me.outbox[k].path)
       case PublishFirst(_, tx) => NoneOf(me.outbox, tx.path)
       case Settle(_, k) => NoneOf(me.unsettled[..k], me.unsettled[k].path)
       case _ => true
  }

  predicate DisciplinedRun(w: World, acts: seq<Action>, owner: string -> nat)
    decreases |acts|
  {
    acts == [] ||
    (Possible(w, acts[0]) && Disciplined(w, acts[0], owner) && DisciplinedRun(Do(w, acts[0]), acts[1..], owner))
  }

  /**
   One path as its owner has applied it: the log up to what is unsettled, then the outbox, and
   not both of these are in use.
   */
  ghost predicate OwnView(applied: seq<Tx>, logged: seq<Tx>, out: seq<Tx>, wait: seq<Tx>) {
    && (out == [] || wait == [])
    && |wait| <= |logged| && logged[|logged| - |wait|..] == wait
    && applied == logged[..|logged| - |wait|] + out
  }

  ghost predicate OwnPath(log: seq<Entry>, me: Client, p: string) {
    OwnView(Project(me.applied, p), Project(LogTxs(log), p), Project(me.outbox, p), Project(me.unsettled, p))
  }

  /** One path as any other client has applied it: the log up to what has been delivered. */
  ghost predicate OtherPath(log: seq<Entry>, me: Client, p: string)
    requires me.pos <= |log|
  {
    Project(me.applied, p) == Project(LogTxs(log[..me.pos]), p)
  }

  ghost predicate PathOk(log: seq<Entry>, me: Client, mine: bool, p: string)
    requires me.pos <= |log|
  {
    if mine then OwnPath(log, me, p) else OtherPath(log, me, p)
  }

  predicate Owns(c: nat, txs: seq<Tx>, owner: string -> nat) {
    forall i :: 0 <= i < |txs| ==> owner(txs[i].path) == c
  }

  ghost predicate ClientOk(log: seq<Entry>, c: nat, me: Client, owner: string -> nat) {
    && me.pos <= |log| && Owns(c, me.outbox, owner) && Owns(c, me.unsettled, owner)
    && forall p :: PathOk(log, me, owner(p) == c, p)
  }

  predicate Authored(log: seq<Entry>, owner: string -> nat) {
    forall i :: 0 <= i < |log| ==> log[i].author == owner(log[i].tx.path)
  }

  ghost predicate Consistent(w: World, owner: string -> nat) {
    && Authored(w.log, owner)
    && forall c :: 0 <= c < |w.clients| ==> ClientOk(w.log, c, w.clients[c], owner)
  }

  // ------------------------------------------------- one path, one transaction

  lemma ViewIssue(applied: seq<Tx>, logged: seq<Tx>, out: seq<Tx>, wait: seq<Tx>, one: seq<Tx>)
    requires OwnView(applied, logged, out, wait) && (one == [] || wait == [])
    ensures OwnView(applied + one, logged, out + one, wait)
  {
    Assoc(logged[..|logged| - |wait|], out, one);
  }

  lemma ViewPublish(applied: seq<Tx>, logged: seq<Tx>, rest: seq<Tx>, wait: seq<Tx>, one: seq<Tx>)
    requires OwnView(applied, logged, one + rest, wait)
    ensures OwnView(applied, logged + one, rest, wait)
  {
    if one == [] {
      assert logged + one == logged && one + rest == rest;
    } else {
      assert wait == [] && logged[..|logged|] == logged;
      assert (logged + one)[..|logged + one|] == logged + one;
      Assoc(logged, one, rest);
    }
  }

  lemma ViewPublishFirst(applied: seq<Tx>, logged: seq<Tx>, out: seq<Tx>, wait: seq<Tx>, one: seq<Tx>)
    requires OwnView(applied, logged, out, wait) && (one == [] || out == [])
    ensures OwnView(applied, logged + one, out, wait + one)
  {
    var n := |logged| - |wait|;
    assert (logged + one)[..n] == logged[..n];
    assert (logged + one)[n..] == wait + one;
  }

  lemma ViewSettle(applied: seq<Tx>, logged: seq<Tx>, out: seq<Tx>, rest: seq<Tx>, one: seq<Tx>)
    requires OwnView(applied, logged, out, one + rest)
    ensures OwnView(applied + one, logged, out, rest)
  {
    var n := |logged| - |one + rest|;
    assert logged[n..] == one + rest;
    assert logged[n + |one|..] == rest && logged[..n + |one|] == logged[..n] + one;
    if one == [] {
      assert applied + one == applied && logged[..n] + one == logged[..n];
    } else {
      assert out == [] && applied == logged[..n];
    }
  }

  lemma {:induction false} ProjectNone(s: seq<Tx>, p: string)
    requires NoneOf(s, p)
    ensures Project(s, p) == []
  {
    if s != [] { ProjectNone(s[..|s| - 1], p); }
  }

  lemma ProjectOne(tx: Tx, p: string)
    ensures Project([tx], p) == if tx.path == p && !tx.kind.UnknownTx? then [tx] else []
  {}

  lemma LogSnoc(log: seq<Entry>, e: Entry, p: string)
    ensures Project(LogTxs(log + [e]), p) == Project(LogTxs(log), p) + Project([e.tx], p)
  {
    assert LogTxs(log + [e]) == LogTxs(log) + [e.tx];
    ProjectConcat(LogTxs(log), [e.tx], p);
  }

  /** Taking out the first transaction of a path takes it off the front of the projection. */
  lemma ProjectWithout(s: seq<Tx>, k: nat, p: string)
    requires k < |s| && NoneOf(s[..k], s[k].path)
    ensures Project(s, p) == Project([s[k]], p) + Project(Without(s, k), p)
  {
    var a, x, b := s[..k], [s[k]], s[k + 1..];
    assert s == a + x + b;
    ProjectConcat(a + x, b, p);
    ProjectConcat(a, x, p);
    ProjectConcat(a, b, p);
    ProjectOne(s[k], p);
    if s[k].path == p { ProjectNone(a, p); }
    FrontOut(Project(a, p), Project(x, p), Project(b, p));
  }

  lemma FrontOut(a: seq<Tx>, x: seq<Tx>, b: seq<Tx>)
    requires a == [] || x == []
    ensures a + x + b == x + (a + b)
  {}

  lemma ProjectSnoc(s: seq<Tx>, tx: Tx, p: string)
    ensures Project(s + [tx], p) == Project(s, p) + Project([tx], p)
  {
    ProjectConcat(s, [tx], p);
  }

  // ---------------------------------------------------------------- whole steps

  /** The acting client's own path survives its step. */
  lemma OwnStep(w: World, a: Action, p: string, owner: string -> nat)
    requires Possible(w, a) && Disciplined(w, a, owner) && Authored(w.log, owner)
    requires owner(p) == a.c && OwnPath(w.log, w.clients[a.c], p)
    ensures OwnPath(w.log + Sent(w, a), Acted(w, a), p)
  {
    var me, log := w.clients[a.c], w.log;
    assert log + [] == log;
    match a
    case Issue(_, tx) => OwnIssue(log, me, tx, p);
    case Publish(_, k) => OwnPublish(log, me, a.c, k, p);
    case PublishFirst(_, tx) => OwnPublishFirst(log, me, a.c, tx, p);
    case Settle(_, k) => OwnSettle(log, me, k, p);
    case Deliver(_) =>
      var e := log[me.pos];
      if e.author != a.c {
        ProjectOne(e.tx, p);
        ProjectSnoc(me.applied, e.tx, p);
        assert Project(me.applied, p) + [] == Project(me.applied, p);
      }
    case Miss(_) =>
  }

  lemma OwnIssue(log: seq<Entry>, me: Client, tx: Tx, p: string)
    requires OwnPath(log, me, p) && NoneOf(me.unsettled, tx.path)
    ensures OwnPath(log, Applying(me, tx).(outbox := me.outbox + [tx]), p)
  {
    ProjectSnoc(me.outbox, tx, p);
    ProjectSnoc(me.applied, tx, p);
    ProjectOne(tx, p);
    if tx.path == p { ProjectNone(me.unsettled, p); }
    ViewIssue(Project(me.applied, p), Project(LogTxs(log), p), Project(me.outbox, p),
              Project(me.unsettled, p), Project([tx], p));
  }

  lemma OwnPublish(log: seq<Entry>, me: Client, c: nat, k: nat, p: string)
    requires OwnPath(log, me, p) && k < |me.outbox| && NoneOf(me.outbox[..k], me.outbox[k].path)
    ensures OwnPath(log + [Entry(c, me.outbox[k])], me.(outbox := Without(me.outbox, k)), p)
  {
    LogSnoc(log, Entry(c, me.outbox[k]), p);
    ProjectWithout(me.outbox, k, p);
    ViewPublish(Project(me.applied, p), Project(LogTxs(log), p), Project(Without(me.outbox, k), p),
                Project(me.unsettled, p), Project([me.outbox[k]], p));
  }

  lemma OwnPublishFirst(log: seq<Entry>, me: Client, c: nat, tx: Tx, p: string)
    requires OwnPath(log, me, p) && NoneOf(me.outbox, tx.path)
    ensures OwnPath(log + [Entry(c, tx)], me.(unsettled := me.unsettled + [tx]), p)
  {
    LogSnoc(log, Entry(c, tx), p);
    ProjectSnoc(me.unsettled, tx, p);
    ProjectOne(tx, p);
    if tx.path == p { ProjectNone(me.outbox, p); }
    ViewPublishFirst(Project(me.applied, p), Project(LogTxs(log), p), Project(me.outbox, p),
                     Project(me.unsettled, p), Project([tx], p));
  }

  lemma OwnSettle(log: seq<Entry>, me: Client, k: nat, p: string)
    requires OwnPath(log, me, p) && k < |me.unsettled| && NoneOf(me.unsettled[..k], me.unsettled[k].path)
    ensures OwnPath(log, Applying(me, me.unsettled[k]).(unsettled := Without(me.unsettled, k)), p)
  {
    ProjectWithout(me.unsettled, k, p);
    ProjectSnoc(me.applied, me.unsettled[k], p);
    ViewSettle(Project(me.applied, p), Project(LogTxs(log), p), Project(me.outbox, p),
               Project(Without(me.unsettled, k), p), Project([me.unsettled[k]], p));
  }

  lemma OtherApplying(log: seq<Entry>, me: Client, tx: Tx, p: string)
    requires me.pos <= |log| && OtherPath(log, me, p) && tx.path != p
    ensures OtherPath(log, Applying(me, tx), p)
  {
    ProjectSnoc(me.applied, tx, p);
    ProjectOne(tx, p);
    assert Project(me.applied, p) + [] == Project(me.applied, p);
  }

  lemma OtherReceiving(log: seq<Entry>, me: Client, c: nat, p: string)
    requires me.pos < |log| && OtherPath(log, me, p)
    requires log[me.pos].author == c ==> log[me.pos].tx.path != p
    ensures OtherPath(log, Receiving(me, c, log[me.pos]), p)
  {
    var e := log[me.pos];
    assert log[..me.pos + 1] == log[..me.pos] + [e];
    LogSnoc(log[..me.pos], e, p);
    ProjectSnoc(me.applied, e.tx, p);
    ProjectOne(e.tx, p);
    assert Project(me.applied, p) + [] == Project(me.applied, p);
  }

  /** A path of another client survives the acting client's step. */
  lemma OtherStep(w: World, a: Action, p: string, owner: string -> nat)
    requires Possible(w, a) && Owned(w, a, owner) && Authored(w.log, owner)
    requires Owns(a.c, w.clients[a.c].unsettled, owner) && owner(p) != a.c
    requires w.clients[a.c].pos <= |w.log| && OtherPath(w.log, w.clients[a.c], p)
    ensures Acted(w, a).pos <= |w.log|
    ensures OtherPath(w.log, Acted(w, a), p)
  {
    var me := w.clients[a.c];
    match a
    case Issue(_, tx) => OtherApplying(w.log, me, tx, p);
    case Settle(_, k) => OtherApplying(w.log, me, me.unsettled[k], p);
    case Deliver(_) => OtherReceiving(w.log, me, a.c, p);
    case Miss(_) => OtherReceiving(w.log, me, a.c, p);
    case _ =>
  }

  lemma OtherPathGrows(log: seq<Entry>, more: seq<Entry>, me: Client, p: string)
    requires me.pos <= |log| && OtherPath(log, me, p)
    ensures OtherPath(log + more, me, p)
  {
    assert (log + more)[..me.pos] == log[..me.pos];
  }

  lemma SentByOwner(w: World, a: Action, owner: string -> nat)
    requires Possible(w, a) && Owned(w, a, owner) && Authored(w.log, owner)
    requires Owns(a.c, w.clients[a.c].outbox, owner)
    ensures forall e :: e in Sent(w, a) ==> e.author == a.c == owner(e.tx.path)
    ensures |Sent(w, a)| <= 1 && Authored(w.log + Sent(w, a), owner)
  {}

  lemma ActorPath(w: World, a: Action, p: string, owner: string -> nat)
    requires Possible(w, a) && Disciplined(w, a, owner) && Authored(w.log, owner)
    requires w.clients[a.c].pos <= |w.log| && Owns(a.c, w.clients[a.c].unsettled, owner)
    requires PathOk(w.log, w.clients[a.c], owner(p) == a.c, p)
    ensures Acted(w, a).pos <= |w.log|
    ensures PathOk(w.log + Sent(w, a), Acted(w, a), owner(p) == a.c, p)
  {
    if owner(p) == a.c {
      OwnStep(w, a, p, owner);
    } else {
      OtherStep(w, a, p, owner);
      OtherPathGrows(w.log, Sent(w, a), Acted(w, a), p);
    }
  }

  lemma ActorOwns(w: World, a: Action, owner: string -> nat)
    requires Possible(w, a) && Owned(w, a, owner)
    requires Owns(a.c, w.clients[a.c].outbox, owner) && Owns(a.c, w.clients[a.c].unsettled, owner)
    ensures Owns(a.c, Acted(w, a).outbox, owner) && Owns(a.c, Acted(w, a).unsettled, owner)
  {}

  lemma ActorStep(w: World, a: Action, owner: string -> nat)
    requires Possible(w, a) && Disciplined(w, a, owner) && Authored(w.log, owner)
    requires ClientOk(w.log, a.c, w.clients[a.c], owner)
    ensures ClientOk(w.log + Sent(w, a), a.c, Acted(w, a), owner)
  {
    var log, me := w.log + Sent(w, a), Acted(w, a);
    ActorOwns(w, a, owner);
    forall p ensures me.pos <= |w.log| && PathOk(log, me, owner(p) == a.c, p) {
      assert PathOk(w.log, w.clients[a.c], owner(p) == a.c, p);
      ActorPath(w, a, p, owner);
    }
    assert me.pos <= |w.log| by { ActorPath(w, a, "", owner); }
  }

  lemma BystanderPath(log: seq<Entry>, sent: seq<Entry>, me: Client, mine: bool, p: string)
    requires me.pos <= |log| && PathOk(log, me, mine, p)
    requires |sent| <= 1 && (mine ==> forall e :: e in sent ==> e.tx.path != p)
    ensures PathOk(log + sent, me, mine, p)
  {
    if !mine {
      OtherPathGrows(log, sent, me, p);
    } else if sent == [] {
      assert log + sent == log;
    } else {
      assert sent == [sent[0]] && sent[0] in sent;
      LogSnoc(log, sent[0], p);
      ProjectOne(sent[0].tx, p);
      assert Project(LogTxs(log), p) + [] == Project(LogTxs(log), p);
    }
  }

  /** Clients that do not act keep their view. */
  lemma BystanderStep(w: World, a: Action, d: nat, owner: string -> nat)
    requires Possible(w, a) && Disciplined(w, a, owner) && Consistent(w, owner)
    requires d < |w.clients| && d != a.c
    ensures ClientOk(w.log + Sent(w, a), d, w.clients[d], owner)
  {
    var log, sent, me := w.log, Sent(w, a), w.clients[d];
    assert ClientOk(log, a.c, w.clients[a.c], owner);
    SentByOwner(w, a, owner);
    assert ClientOk(log, d, me, owner);
    forall p ensures PathOk(log + sent, me, owner(p) == d, p) {
      assert PathOk(log, me, owner(p) == d, p);
      BystanderPath(log, sent, me, owner(p) == d, p);
    }
  }

  lemma StepConsistent(w: World, a: Action, owner: string -> nat)
    requires Possible(w, a) && Disciplined(w, a, owner) && Consistent(w, owner)
    ensures Consistent(Do(w, a), owner)
  {
    assert ClientOk(w.log, a.c, w.clients[a.c], owner);
    SentByOwner(w, a, owner);
    ActorStep(w, a, owner);
    forall d | 0 <= d < |w.clients| && d != a.c
      ensures ClientOk(w.log + Sent(w, a), d, w.clients[d], owner)
    {
      BystanderStep(w, a, d, owner);
    }
  }

  lemma StartedConsistent(w: World, db0: Db, owner: string -> nat)
    requires Started(w, db0)
    ensures Consistent(w, owner) && Remembers(w, db0)
  {}

  lemma {:induction false} RunConsistent(w: World, acts: seq<Action>, owner: string -> nat)
    requires DisciplinedRun(w, acts, owner) && Consistent(w, owner)
    ensures DoAll(w, acts).Some? && Consistent(DoAll(w, acts).value, owner)
    decreases |acts|
  {
    if acts != [] {
      StepConsistent(w, acts[0], owner);
      RunConsistent(Do(w, acts[0]), acts[1..], owner);
    }
  }

  /** At quiescence a client that kept the discipline has applied each path as the log has it. */
  lemma QuiescentPath(log: seq<Entry>, me: Client, mine: bool, p: string)
    requires me.pos == |log| && me.outbox == [] && me.unsettled == [] && PathOk(log, me, mine, p)
    ensures Project(me.applied, p) == Project(LogTxs(log), p)
  {
    var logged := Project(LogTxs(log), p);
    assert log[..|log|] == log && logged[..|logged|] + [] == logged;
  }

  /**
   After a disciplined run, once everything issued is in the log, applied by its author and
   delivered to all, every client holds what a fresh replay of the log gives.
   */
  lemma Converged(w0: World, acts: seq<Action>, w: World, db0: Db, owner: string -> nat)
    requires Started(w0, db0) && DisciplinedRun(w0, acts, owner)
    requires DoAll(w0, acts) == Some(w) && Quiescent(w)
    ensures forall c :: 0 <= c < |w.clients| ==> w.clients[c].db == Replay(db0, LogTxs(w.log))
  {
    StartedConsistent(w0, db0, owner);
    RunConsistent(w0, acts, owner);
    forall c | 0 <= c < |w.clients| ensures w.clients[c].db == Replay(db0, LogTxs(w.log)) {
      var me := w.clients[c];
      assert ClientOk(w.log, c, me, owner);
      forall p ensures Outcome(db0, me.applied, p) == Outcome(db0, LogTxs(w.log), p) {
        assert PathOk(w.log, me, owner(p) == c, p);
        QuiescentPath(w.log, me, owner(p) == c, p);
      }
      ConvergesExactly(w0, acts, w, db0, c);
    }
  }

  // -------------------------------------------------- five ways not to converge

  lemma {:induction false} DoAllConcat(w: World, a: seq<Action>, b: seq<Action>)
    requires DoAll(w, a).Some?
    ensures DoAll(w, a + b) == DoAll(DoAll(w, a).value, b)
    decreases |a|
  {
    if a == [] {
      assert a + b == b;
    } else {
      ConcatFirst(a, b);
      DoAllConcat(Do(w, a[0]), a[1..], b);
    }
  }

  lemma DoTwo(w: World, a: Action, b: Action, mid: World, end: World)
    requires Possible(w, a) && Do(w, a) == mid && Possible(mid, b) && Do(mid, b) == end
    ensures DoAll(w, [a, b]) == Some(end)
  {
    assert [a, b][1..] == [b] && [b][1..] == [];
    assert DoAll(mid, [b]) == DoAll(end, []) == Some(end);
  }

  /** Delivery of a log of two entries to a client that has seen neither. */
  lemma DeliverBoth(w: World, c: nat, end: World)
    requires c < |w.clients| && |w.log| == 2 && w.clients[c].pos == 0 && end.log == w.log
    requires end.clients == w.clients[c := Receiving(Receiving(w.clients[c], c, w.log[0]), c, w.log[1])]
    ensures DoAll(w, [Deliver(c), Deliver(c)]) == Some(end)
  {
    var one := Receiving(w.clients[c], c, w.log[0]);
    var mid := World(w.log, w.clients[c := one]);
    assert w.log + [] == w.log && Do(w, Deliver(c)) == mid;
    assert mid.clients[c := Receiving(one, c, w.log[1])] == end.clients;
    DoTwo(w, Deliver(c), Deliver(c), mid, end);
  }

  /** A client that has issued one transaction and published it. */
  function Author(tx: Tx): Client { Client(Apply(map[], tx), [tx], [], [], 0) }

  lemma IssueAndPublish(w: World, c: nat, tx: Tx, end: World)
    requires c < |w.clients| && w.clients[c] == Client(map[], [], [], [], 0)
    requires end.log == w.log + [Entry(c, tx)] && end.clients == w.clients[c := Author(tx)]
    ensures DoAll(w, [Issue(c, tx), Publish(c, 0)]) == Some(end)
  {
    var me := w.clients[c];
    assert me.outbox + [tx] == [tx] && me.applied + [tx] == [tx] && Without([tx], 0) == [];
    var mid := World(w.log, w.clients[c := Author(tx).(outbox := [tx])]);
    assert w.log + [] == w.log && Do(w, Issue(c, tx)) == mid;
    assert mid.clients[c := Author(tx)] == end.clients;
    DoTwo(w, Issue(c, tx), Publish(c, 0), mid, end);
  }

  lemma LastOfTwo(a: Tx, b: Tx)
    requires a.path == b.path && !a.kind.UnknownTx? && !b.kind.UnknownTx?
    ensures Outcome(map[], [a, b], a.path) == if b.kind.WriteTx? then Some(b) else None
  {
    assert [a, b][..1] == [a] && [a][..0] == [];
  }

  /** Two clients that have each written, and neither of which has heard of the other. */
  function BothWrote(a: Tx, b: Tx): World {
    World([Entry(0, a), Entry(1, b)], [Author(a), Author(b)])
  }

  function AuthorReceiving(c: nat, own: Tx, a: Tx, b: Tx): Client {
    Receiving(Receiving(Author(own), c, Entry(0, a)), c, Entry(1, b))
  }

  function BothHeard(a: Tx, b: Tx): World {
    World([Entry(0, a), Entry(1, b)], [AuthorReceiving(0, a, a, b), AuthorReceiving(1, b, a, b)])
  }

  lemma BothWrite(a: Tx, b: Tx, w0: World)
    requires w0 == World([], [Client(map[], [], [], [], 0), Client(map[], [], [], [], 0)])
    ensures DoAll(w0, [Issue(0, a), Publish(0, 0)] + [Issue(1, b), Publish(1, 0)]) == Some(BothWrote(a, b))
  {
    var mid := World([Entry(0, a)], [Author(a), w0.clients[1]]);
    assert w0.log + [Entry(0, a)] == mid.log && mid.log + [Entry(1, b)] == BothWrote(a, b).log;
    IssueAndPublish(w0, 0, a, mid);
    IssueAndPublish(mid, 1, b, BothWrote(a, b));
    DoAllConcat(w0, [Issue(0, a), Publish(0, 0)], [Issue(1, b), Publish(1, 0)]);
  }

  lemma BothHear(a: Tx, b: Tx)
    ensures DoAll(BothWrote(a, b), [Deliver(0), Deliver(0)] + [Deliver(1), Deliver(1)]) == Some(BothHeard(a, b))
  {
    var w := BothWrote(a, b);
    var mid := World(w.log, [AuthorReceiving(0, a, a, b), Author(b)]);
    DeliverBoth(w, 0, mid);
    DeliverBoth(mid, 1, BothHeard(a, b));
    DoAllConcat(w, [Deliver(0), Deliver(0)], [Deliver(1), Deliver(1)]);
  }

  /**
   Two writers: clients that write the same path before either hears of the other end with
   different values, one of them with a value no replay gives.
   */
  lemma TwoWritersDiverge(a: Tx, b: Tx, w0: World, acts: seq<Action>, w: World)
    requires a.kind.WriteTx? && b.kind.WriteTx? && a.path == b.path && a != b
    requires w0 == World([], [Client(map[], [], [], [], 0), Client(map[], [], [], [], 0)])
    requires acts == [Issue(0, a), Publish(0, 0)] + [Issue(1, b), Publish(1, 0)]
      + ([Deliver(0), Deliver(0)] + [Deliver(1), Deliver(1)])
    requires w == BothHeard(a, b)
    ensures DoAll(w0, acts) == Some(w) && Quiescent(w) && LogTxs(w.log) == [a, b]
    ensures w.clients[0].applied == [a, b] && w.clients[1].applied == [b, a]
    ensures w.clients[1].db != Replay(map[], LogTxs(w.log))
  {
    BothWrite(a, b, w0);
    BothHear(a, b);
    DoAllConcat(w0, [Issue(0, a), Publish(0, 0)] + [Issue(1, b), Publish(1, 0)],
                [Deliver(0), Deliver(0)] + [Deliver(1), Deliver(1)]);
    assert [a] + [b] == [a, b] && [b] + [a] == [b, a];
    DifferentLast(w0, acts, w, 1, b, a);
  }

  /** A client whose last word on a path is not the log's last word does not hold the replay. */
  lemma DifferentLast(w0: World, acts: seq<Action>, w: World, c: nat, x: Tx, y: Tx)
    requires Started(w0, map[]) && DoAll(w0, acts) == Some(w) && c < |w.clients|
    requires w.clients[c].applied == [x, y] && LogTxs(w.log) == [y, x]
    requires x.path == y.path && x != y && !x.kind.UnknownTx? && !y.kind.UnknownTx?
    requires x.kind.WriteTx? || y.kind.WriteTx?
    ensures w.clients[c].db != Replay(map[], LogTxs(w.log))
  {
    LastOfTwo(x, y);
    LastOfTwo(y, x);
    ConvergesExactly(w0, acts, w, map[], c);
  }

  lemma ChainThree(w0: World, w1: World, w2: World, w3: World, a: seq<Action>, b: seq<Action>, c: seq<Action>)
    requires DoAll(w0, a) == Some(w1) && DoAll(w1, b) == Some(w2) && DoAll(w2, c) == Some(w3)
    ensures DoAll(w0, a + b + c) == Some(w3)
  {
    DoAllConcat(w0, a, b);
    DoAllConcat(w0, a + b, c);
  }

  /** A world of one client. */
  function Alone(log: seq<Tx>, applied: seq<Tx>, outbox: seq<Tx>, unsettled: seq<Tx>, pos: nat): World {
    World(seq(|log|, i requires 0 <= i < |log| => Entry(0, log[i])),
          [Client(Replay(map[], applied), applied, outbox, unsettled, pos)])
  }

  lemma AloneDeliver(x: Tx, y: Tx, applied: seq<Tx>)
    ensures DoAll(Alone([x, y], applied, [], [], 0), [Deliver(0), Deliver(0)]) == Some(Alone([x, y], applied, [], [], 2))
  {
    var w, end := Alone([x, y], applied, [], [], 0), Alone([x, y], applied, [], [], 2);
    assert end.clients == w.clients[0 := end.clients[0]];
    DeliverBoth(w, 0, end);
  }

  lemma AloneLog(log: seq<Tx>, tx: Tx, applied: seq<Tx>, outbox: seq<Tx>, unsettled: seq<Tx>)
    ensures Alone(log + [tx], applied, outbox, unsettled, 0).log == Alone(log, [], [], [], 0).log + [Entry(0, tx)]
    ensures LogTxs(Alone(log, applied, outbox, unsettled, 0).log) == log
  {}

  lemma AloneIssue(log: seq<Tx>, applied: seq<Tx>, outbox: seq<Tx>, unsettled: seq<Tx>, tx: Tx)
    ensures Do(Alone(log, applied, outbox, unsettled, 0), Issue(0, tx))
      == Alone(log, applied + [tx], outbox + [tx], unsettled, 0)
  {
    var w, w' := Alone(log, applied, outbox, unsettled, 0), Alone(log, applied + [tx], outbox + [tx], unsettled, 0);
    ApplyingRemembers(w.clients[0], tx, map[]);
    assert w.log + [] == w'.log && w.clients[0 := w'.clients[0]] == w'.clients;
  }

  lemma AloneSettle(log: seq<Tx>, applied: seq<Tx>, outbox: seq<Tx>, tx: Tx)
    ensures Do(Alone(log, applied, outbox, [tx], 0), Settle(0, 0)) == Alone(log, applied + [tx], outbox, [], 0)
  {
    var w, w' := Alone(log, applied, outbox, [tx], 0), Alone(log, applied + [tx], outbox, [], 0);
    ApplyingRemembers(w.clients[0], tx, map[]);
    assert Without([tx], 0) == [];
    assert w.log + [] == w'.log && w.clients[0 := w'.clients[0]] == w'.clients;
  }

  lemma AlonePublish(log: seq<Tx>, applied: seq<Tx>, outbox: seq<Tx>, k: nat)
    requires k < |outbox|
    ensures Do(Alone(log, applied, outbox, [], 0), Publish(0, k))
      == Alone(log + [outbox[k]], applied, Without(outbox, k), [], 0)
  {
    var w, w' := Alone(log, applied, outbox, [], 0), Alone(log + [outbox[k]], applied, Without(outbox, k), [], 0);
    AloneLog(log, outbox[k], applied, outbox, []);
    assert w.log + [Entry(0, outbox[k])] == w'.log && w.clients[0 := w'.clients[0]] == w'.clients;
  }

  lemma AlonePublishFirst(tx: Tx)
    ensures Do(Alone([], [], [], [], 0), PublishFirst(0, tx)) == Alone([tx], [], [], [tx], 0)
  {
    var w, w' := Alone([], [], [], [], 0), Alone([tx], [], [], [tx], 0);
    assert w.clients[0].unsettled + [tx] == [tx];
    assert w.log + [Entry(0, tx)] == w'.log && w.clients[0 := w'.clients[0]] == w'.clients;
  }

  /** A lone client that applied `x` then `y` while the log has them the other way round. */
  lemma AloneDiverges(mid: World, first: seq<Action>, second: seq<Action>, x: Tx, y: Tx)
    returns (acts: seq<Action>, w: World)
    requires DoAll(Alone([], [], [], [], 0), first) == Some(mid)
    requires DoAll(mid, second) == Some(Alone([y, x], [x, y], [], [], 0))
    requires x.path == y.path && x != y && !x.kind.UnknownTx? && !y.kind.UnknownTx?
    requires x.kind.WriteTx? || y.kind.WriteTx?
    ensures acts == first + second + [Deliver(0), Deliver(0)] && DoAll(Alone([], [], [], [], 0), acts) == Some(w)
    ensures |w.clients| == 1 && Quiescent(w)
    ensures LogTxs(w.log) == [y, x] && w.clients[0].applied == [x, y]
    ensures w.clients[0].db != Replay(map[], LogTxs(w.log))
  {
    var w0 := Alone([], [], [], [], 0);
    AloneDeliver(y, x, [x, y]);
    w := Alone([y, x], [x, y], [], [], 2);
    acts := first + second + [Deliver(0), Deliver(0)];
    ChainThree(w0, mid, Alone([y, x], [x, y], [], [], 0), w, first, second, [Deliver(0), Deliver(0)]);
    assert LogTxs(w.log) == [y, x];
    DifferentLast(w0, acts, w, 0, x, y);
  }

  /**
   Overtaking sends: when a delete enters the log before the write it follows, its author ends
   without the path and every replay ends with it.
   */
  lemma OvertakingDiverges(a: Tx) returns (acts: seq<Action>, w: World)
    requires a.kind.WriteTx?
    ensures
      var d := CreateDeleteTx(a.path);
      acts == [Issue(0, a), Issue(0, d)] + [Publish(0, 1), Publish(0, 0)] + [Deliver(0), Deliver(0)]
    ensures DoAll(Alone([], [], [], [], 0), acts) == Some(w)
    ensures |w.clients| == 1 && Quiescent(w)
    ensures LogTxs(w.log) == [CreateDeleteTx(a.path), a] && w.clients[0].applied == [a, CreateDeleteTx(a.path)]
    ensures w.clients[0].db != Replay(map[], LogTxs(w.log))
  {
    var d := CreateDeleteTx(a.path);
    var e: seq<Tx> := [];
    var w0, w1 := Alone(e, e, e, e, 0), Alone(e, [a, d], [a, d], e, 0);
    var w2 := Alone([d, a], [a, d], e, e, 0);
    assert e + [a] == [a] && [a] + [d] == [a, d] && e + [d] == [d] && [d] + [a] == [d, a];
    AloneIssue(e, e, e, e, a);
    AloneIssue(e, [a], [a], e, d);
    DoTwo(w0, Issue(0, a), Issue(0, d), Alone(e, [a], [a], e, 0), w1);
    assert Without([a, d], 1) == [a] && Without([a], 0) == e;
    AlonePublish(e, [a, d], [a, d], 1);
    AlonePublish([d], [a, d], [a], 0);
    DoTwo(w1, Publish(0, 1), Publish(0, 0), Alone([d], [a, d], [a], e, 0), w2);
    acts, w := AloneDiverges(w1, [Issue(0, a), Issue(0, d)], [Publish(0, 1), Publish(0, 0)], a, d);
  }

  /**
   A late insertion: one client, one writer, sends in issue order, and still a delete that
   falls between an upload's acknowledgement and its insertion is undone by the insertion.
   */
  lemma LateInsertionDiverges(a: Tx) returns (acts: seq<Action>, w: World)
    requires a.kind.WriteTx?
    ensures
      var d := CreateDeleteTx(a.path);
      acts == [PublishFirst(0, a), Issue(0, d)] + [Settle(0, 0), Publish(0, 0)] + [Deliver(0), Deliver(0)]
    ensures DoAll(Alone([], [], [], [], 0), acts) == Some(w)
    ensures |w.clients| == 1 && Quiescent(w)
    ensures LogTxs(w.log) == [a, CreateDeleteTx(a.path)] && w.clients[0].applied == [CreateDeleteTx(a.path), a]
    ensures w.clients[0].db != Replay(map[], LogTxs(w.log))
  {
    var d := CreateDeleteTx(a.path);
    var e: seq<Tx> := [];
    var w0, w1 := Alone(e, e, e, e, 0), Alone([a], [d], [d], [a], 0);
    var w2 := Alone([a, d], [d, a], e, e, 0);
    assert e + [d] == [d] && [d] + [a] == [d, a] && [a] + [d] == [a, d] && Without([d], 0) == e;
    AlonePublishFirst(a);
    AloneIssue([a], e, e, [a], d);
    DoTwo(w0, PublishFirst(0, a), Issue(0, d), Alone([a], e, e, [a], 0), w1);
    AloneSettle([a], [d], [d], a);
    AlonePublish([a], [d, a], [d], 0);
    DoTwo(w1, Settle(0, 0), Publish(0, 0), Alone([a], [d, a], [d], e, 0), w2);
    acts, w := AloneDiverges(w1, [PublishFirst(0, a), Issue(0, d)], [Settle(0, 0), Publish(0, 0)], d, a);
  }

  /** Two clients with a log that only the first has written. */
  function Pair(log: seq<Tx>, me: Client, you: Client): World {
    World(seq(|log|, i requires 0 <= i < |log| => Entry(0, log[i])), [me, you])
  }

  lemma PairIssue(log: seq<Tx>, me: Client, you: Client, tx: Tx)
    ensures Do(Pair(log, me, you), Issue(0, tx)) == Pair(log, Applying(me, tx).(outbox := me.outbox + [tx]), you)
  {
    assert Pair(log, me, you).log + [] == Pair(log, me, you).log;
  }

  lemma PairPublish(log: seq<Tx>, me: Client, you: Client, tx: Tx)
    requires me.outbox == [tx]
    ensures Do(Pair(log, me, you), Publish(0, 0)) == Pair(log + [tx], me.(outbox := []), you)
  {
    assert Without([tx], 0) == [];
    assert Pair(log, me, you).log + [Entry(0, tx)] == Pair(log + [tx], me, you).log;
  }

  lemma PairTold(log: seq<Tx>, me: Client, you: Client)
    requires me.pos < |log|
    ensures Do(Pair(log, me, you), Deliver(0)) == Pair(log, me.(pos := me.pos + 1), you)
  {
    assert Pair(log, me, you).log + [] == Pair(log, me, you).log;
  }

  lemma PairListens(log: seq<Tx>, me: Client, you: Client, k: nat)
    ensures you.pos < |log| ==>
      && Do(Pair(log, me, you), Miss(1)) == Pair(log, me, you.(pos := you.pos + 1))
      && Do(Pair(log, me, you), Deliver(1)) == Pair(log, me, Applying(you, log[you.pos]).(pos := you.pos + 1))
    ensures k < you.pos <= |log| ==>
      Do(Pair(log, me, you), Late(1, k)) == Pair(log, me, Applying(you, log[k]))
  {
    assert Pair(log, me, you).log + [] == Pair(log, me, you).log;
  }

  lemma DoThree(w: World, a: Action, b: Action, c: Action)
    requires Possible(w, a) && Possible(Do(w, a), b) && Possible(Do(Do(w, a), b), c)
    ensures DoAll(w, [a, b, c]) == Some(Do(Do(Do(w, a), b), c))
  {
    DoTwo(w, a, b, Do(w, a), Do(Do(w, a), b));
    DoAllConcat(w, [a, b], [c]);
    assert [a, b] + [c] == [a, b, c];
    assert DoAll(Do(Do(w, a), b), [c]) == DoAll(Do(Do(Do(w, a), b), c), []);
  }

  /** The first client adds one transaction to the log and is told of it. */
  function Speaking(tx: Tx): seq<Action> { [Issue(0, tx), Publish(0, 0), Deliver(0)] }

  function Spoken(me: Client, tx: Tx): Client { Applying(me, tx).(pos := me.pos + 1) }

  lemma Speak(log: seq<Tx>, me: Client, you: Client, tx: Tx)
    requires me.outbox == [] && me.pos == |log|
    ensures DoAll(Pair(log, me, you), Speaking(tx)) == Some(Pair(log + [tx], Spoken(me, tx), you))
  {
    var issued := Applying(me, tx).(outbox := [tx]);
    assert me.outbox + [tx] == [tx];
    PairIssue(log, me, you, tx);
    PairPublish(log, issued, you, tx);
    PairTold(log + [tx], issued.(outbox := []), you);
    DoThree(Pair(log, me, you), Issue(0, tx), Publish(0, 0), Deliver(0));
  }

  function Newcomer(): Client { Client(map[], [], [], [], 0) }

  /** A client that applied nothing does not hold the replay of a write. */
  lemma NothingApplied(w0: World, acts: seq<Action>, w: World, c: nat, a: Tx)
    requires Started(w0, map[]) && DoAll(w0, acts) == Some(w) && c < |w.clients|
    requires w.clients[c].applied == [] && LogTxs(w.log) == [a] && a.kind.WriteTx?
    ensures w.clients[c].db != Replay(map[], LogTxs(w.log))
  {
    ProjectOne(a, a.path);
    assert Outcome(map[], [a], a.path) == Some(a) && Outcome(map[], [], a.path) == None;
    ConvergesExactly(w0, acts, w, map[], c);
  }

  lemma SpeakAndMiss(a: Tx)
    ensures DoAll(Pair([], Newcomer(), Newcomer()), Speaking(a) + [Miss(1)])
         == Some(Pair([a], Spoken(Newcomer(), a), Newcomer().(pos := 1)))
  {
    var mid, end := Pair([a], Spoken(Newcomer(), a), Newcomer()), Pair([a], Spoken(Newcomer(), a), Newcomer().(pos := 1));
    assert [] + [a] == [a];
    Speak([], Newcomer(), Newcomer(), a);
    PairListens([a], mid.clients[0], Newcomer(), 0);
    assert DoAll(mid, [Miss(1)]) == DoAll(end, []) == Some(end);
    DoAllConcat(Pair([], Newcomer(), Newcomer()), Speaking(a), [Miss(1)]);
  }

  /** A missed delivery: one writer, all in order and published, and a listener without the path. */
  lemma MissedDeliveryDiverges(a: Tx, w: World)
    requires a.kind.WriteTx?
    requires w == Pair([a], Spoken(Newcomer(), a), Newcomer().(pos := 1))
    ensures
      var w0 := Pair([], Newcomer(), Newcomer());
      && Started(w0, map[]) && DoAll(w0, Speaking(a) + [Miss(1)]) == Some(w) && Quiescent(w)
      && w.clients[1].db != Replay(map[], LogTxs(w.log))
  {
    SpeakAndMiss(a);
    assert LogTxs(w.log) == [a];
    NothingApplied(Pair([], Newcomer(), Newcomer()), Speaking(a) + [Miss(1)], w, 1, a);
  }

  lemma SpeakTwice(a: Tx, d: Tx)
    ensures DoAll(Pair([], Newcomer(), Newcomer()), Speaking(a) + Speaking(d))
         == Some(Pair([a, d], Spoken(Spoken(Newcomer(), a), d), Newcomer()))
  {
    assert [] + [a] == [a] && [a] + [d] == [a, d];
    Speak([], Newcomer(), Newcomer(), a);
    Speak([a], Spoken(Newcomer(), a), Newcomer(), d);
    DoAllConcat(Pair([], Newcomer(), Newcomer()), Speaking(a), Speaking(d));
  }

  /** The second client after it heard `d`, then `a`, of a log of both. */
  function HeardBackwards(a: Tx, d: Tx): Client {
    Applying(Applying(Newcomer().(pos := 1), d).(pos := 2), a)
  }

  lemma HearBackwards(a: Tx, d: Tx, me: Client)
    ensures DoAll(Pair([a, d], me, Newcomer()), [Miss(1), Deliver(1), Late(1, 0)])
         == Some(Pair([a, d], me, HeardBackwards(a, d)))
  {
    var one := Newcomer().(pos := 1);
    var two := Applying(one, d).(pos := 2);
    PairListens([a, d], me, Newcomer(), 0);
    PairListens([a, d], me, one, 0);
    PairListens([a, d], me, two, 0);
    DoThree(Pair([a, d], me, Newcomer()), Miss(1), Deliver(1), Late(1, 0));
  }

  lemma SpeakTwiceHearBackwards(a: Tx, d: Tx)
    ensures DoAll(Pair([], Newcomer(), Newcomer()), Speaking(a) + Speaking(d) + [Miss(1), Deliver(1), Late(1, 0)])
         == Some(Pair([a, d], Spoken(Spoken(Newcomer(), a), d), HeardBackwards(a, d)))
  {
    SpeakTwice(a, d);
    HearBackwards(a, d, Spoken(Spoken(Newcomer(), a), d));
    DoAllConcat(Pair([], Newcomer(), Newcomer()), Speaking(a) + Speaking(d), [Miss(1), Deliver(1), Late(1, 0)]);
  }

  lemma HeardBackwardsApplied(a: Tx, d: Tx)
    ensures HeardBackwards(a, d).applied == [d, a] && Spoken(Spoken(Newcomer(), a), d).outbox == []
    ensures Quiescent(Pair([a, d], Spoken(Spoken(Newcomer(), a), d), HeardBackwards(a, d)))
    ensures LogTxs(Pair([a, d], Newcomer(), Newcomer()).log) == [a, d]
  {
    assert [] + [d] == [d] && [d] + [a] == [d, a];
  }

  /** A late delivery: the listener handles a write after the delete that follows it in the log. */
  lemma LateDeliveryDiverges(a: Tx, d: Tx, w: World)
    requires a.kind.WriteTx? && d == CreateDeleteTx(a.path)
    requires w == Pair([a, d], Spoken(Spoken(Newcomer(), a), d), HeardBackwards(a, d))
    ensures
      var w0, acts := Pair([], Newcomer(), Newcomer()), Speaking(a) + Speaking(d) + [Miss(1), Deliver(1), Late(1, 0)];
      && Started(w0, map[]) && DoAll(w0, acts) == Some(w) && Quiescent(w)
      && w.clients[1].db != Replay(map[], LogTxs(w.log))
  {
    var w0, acts := Pair([], Newcomer(), Newcomer()), Speaking(a) + Speaking(d) + [Miss(1), Deliver(1), Late(1, 0)];
    SpeakTwiceHearBackwards(a, d);
    HeardBackwardsApplied(a, d);
    DifferentLast(w0, acts, w, 1, d, a);
  }
}
