/**
 The batching writer: queued items are gathered into messages under a count and a size limit,
 with one item held over, and each sender gets the result at its item's position.
 */
module BatchingWriter {
  import opened Prelude
  import opened Transactions
  import opened TxLog

  datatype QueueItem = QueueItem(sender: nat, data: string)

  /** The outcome of one select: an item, or the timer. */
  datatype Event = Item(item: QueueItem) | Timeout

  function Items(events: seq<Event>): seq<QueueItem> {
    if events == [] then []
    else (if events[0].Item? then [events[0].item] else []) + Items(events[1..])
  }

  function TotalSize(items: seq<QueueItem>): nat {
    if items == [] then 0 else |items[0].data| + TotalSize(items[1..])
  }

  datatype Limits = Limits(count: nat, size: nat)

  /** One gathering round: what it takes, what it holds over, how many selects it makes. */
  datatype Round = Round(taken: seq<QueueItem>, hold: seq<QueueItem>, used: nat)

  /**
   Selects `i`, `i + 1`, ... of a round that has taken `total` bytes. Once no event is left
   the timer fires. The item held over from the last round counts towards neither limit.
   */
  function Collect(events: seq<Event>, i: nat, total: nat, max: Limits): (r: Round)
    ensures r.used <= |events|
    ensures events != [] && i < max.count ==> r.used > 0
  {
    if max.count <= i || events == [] then Round([], [], 0)
    else
      match events[0]
      case Timeout => Round([], [], 1)
      case Item(item) =>
        var size := total + |item.data|;
        if size > max.size then Round([], [item], 1)
        else
          var r := Collect(events[1..], i + 1, size, max);
          Round([item] + r.taken, r.hold, r.used + 1)
  }

  /** Nothing is lost or reordered in a round, and both limits hold for what it takes. */
  lemma {:induction false} CollectConserves(events: seq<Event>, i: nat, total: nat, max: Limits)
    requires i <= max.count && total <= max.size
    ensures
      var r := Collect(events, i, total, max);
      && r.taken + r.hold == Items(events[..r.used])
      && i + |r.taken| <= max.count && total + TotalSize(r.taken) <= max.size
      && |r.hold| <= 1
      && (r.hold != [] ==> i + |r.taken| < max.count
                           && max.size < total + TotalSize(r.taken) + |r.hold[0].data|)
  {
    var r := Collect(events, i, total, max);
    if i < max.count && events != [] {
      var head := events[..r.used];
      assert head[0] == events[0] && head[1..] == events[1..][..r.used - 1];
      if events[0].Item? && total + |events[0].item.data| <= max.size {
        CollectConserves(events[1..], i + 1, total + |events[0].item.data|, max);
        var rest := Collect(events[1..], i + 1, total + |events[0].item.data|, max);
        assert r.taken[1..] == rest.taken;
        assert r.taken + r.hold == [events[0].item] + (rest.taken + rest.hold);
      } else {
        assert head[1..] == [];
      }
    } else {
      assert events[..0] == [];
    }
  }

  /** Why a round ends: the count is reached, nothing is left, the timer, or an item that does not fit. */
  ghost predicate EndsRightly(events: seq<Event>, i: nat, total: nat, max: Limits, r: Round) {
    var n := |r.taken|;
    && n <= r.used <= |events| && (forall k :: 0 <= k < n ==> events[k] == Item(r.taken[k]))
    && (if r.used == n then r.hold == [] && (i + n == max.count || n == |events|)
        else
          && r.used == n + 1 && i + n < max.count
          && (if events[n].Timeout? then r.hold == []
              else r.hold == [events[n].item] && max.size < total + TotalSize(r.taken) + |events[n].item.data|))
  }

  lemma {:induction false} CollectExactly(events: seq<Event>, i: nat, total: nat, max: Limits)
    requires i <= max.count && total <= max.size
    ensures EndsRightly(events, i, total, max, Collect(events, i, total, max))
  {
    if i < max.count && events != [] && events[0].Item? {
      var size := total + |events[0].item.data|;
      if size <= max.size {
        CollectExactly(events[1..], i + 1, size, max);
        var rest, r := Collect(events[1..], i + 1, size, max), Collect(events, i, total, max);
        assert r.taken[1..] == rest.taken && r.taken[0] == events[0].item;
        forall k | 0 <= k < |r.taken| ensures events[k] == Item(r.taken[k]) {
          if k > 0 { assert events[1..][k - 1] == Item(rest.taken[k - 1]); }
        }
      }
    }
  }

  /** What a run sends, batch by batch, and what it still holds when the events end. */
  datatype Run = Run(batches: seq<seq<QueueItem>>, hold: seq<QueueItem>)

  function RunQueue(hold: seq<QueueItem>, events: seq<Event>, max: Limits): Run
    requires max.count > 0
    decreases |events|
  {
    if events == [] then Run([], hold)
    else
      var r := Collect(events, 0, 0, max);
      var items := hold + r.taken;
      var rest := RunQueue(r.hold, events[r.used..], max);
      Run((if items == [] then [] else [items]) + rest.batches, rest.hold)
  }

  function Flat<T>(batches: seq<seq<T>>): seq<T> {
    if batches == [] then [] else batches[0] + Flat(batches[1..])
  }

  /** A batch is at most one held item followed by items within both limits. */
  ghost predicate Bounded(batch: seq<QueueItem>, max: Limits) {
    exists h: nat :: h <= 1 && h <= |batch| && |batch| - h <= max.count && TotalSize(batch[h..]) <= max.size
  }

  lemma {:induction false} ItemsConcat(a: seq<Event>, b: seq<Event>)
    ensures Items(a + b) == Items(a) + Items(b)
  {
    if a == [] {
      assert a + b == b;
    } else {
      ConcatFirst(a, b);
      ItemsConcat(a[1..], b);
      Assoc(if a[0].Item? then [a[0].item] else [], Items(a[1..]), Items(b));
    }
  }

  lemma FlatCons<T>(b: seq<T>, batches: seq<seq<T>>)
    ensures Flat([b] + batches) == b + Flat(batches)
  {}

  lemma ItemsSplit(events: seq<Event>, k: nat)
    requires k <= |events|
    ensures Items(events) == Items(events[..k]) + Items(events[k..])
  {
    assert events == events[..k] + events[k..];
    ItemsConcat(events[..k], events[k..]);
  }

  /** One round of a run. */
  lemma RunStep(hold: seq<QueueItem>, events: seq<Event>, max: Limits)
    requires max.count > 0 && events != []
    ensures
      var r := Collect(events, 0, 0, max);
      var items, rest := hold + r.taken, RunQueue(r.hold, events[r.used..], max);
      var run := RunQueue(hold, events, max);
      && run.hold == rest.hold
      && run.batches == (if items == [] then [] else [items]) + rest.batches
      && (items == [] ==> run.batches == rest.batches)
      && Flat(run.batches) == items + Flat(rest.batches)
  {}

  /** In every run each batch is bounded, and a held item heads the very next one. */
  lemma {:induction false} RunBounded(hold: seq<QueueItem>, events: seq<Event>, max: Limits)
    requires max.count > 0 && |hold| <= 1
    ensures
      var run := RunQueue(hold, events, max);
      && |run.hold| <= 1
      && (hold != [] && events != [] ==> run.batches != [] && hold <= run.batches[0])
      && forall b :: b in run.batches ==> b != [] && Bounded(b, max)
    decreases |events|
  {
    if events != [] {
      CollectConserves(events, 0, 0, max);
      RunStep(hold, events, max);
      var r := Collect(events, 0, 0, max);
      RunBounded(r.hold, events[r.used..], max);
      var items := hold + r.taken;
      assert items[|hold|..] == r.taken;
      assert Bounded(items, max);
    }
  }

  /**
   Over every run, the items sent so far followed by the held one are exactly the dequeued
   items in order.
   */
  lemma {:induction false} RunConserves(hold: seq<QueueItem>, events: seq<Event>, max: Limits)
    requires max.count > 0 && |hold| <= 1
    ensures
      var run := RunQueue(hold, events, max);
      Flat(run.batches) + run.hold == hold + Items(events)
    decreases |events|
  {
    if events == [] {
      assert hold + [] == hold && [] + hold == hold;
    } else {
      CollectConserves(events, 0, 0, max);
      RunStep(hold, events, max);
      var r := Collect(events, 0, 0, max);
      ItemsSplit(events, r.used);
      var rest := RunQueue(r.hold, events[r.used..], max);
      RunConserves(r.hold, events[r.used..], max);
      RegroupRound(hold, r.taken, Flat(rest.batches), rest.hold, r.hold,
                   Items(events[..r.used]), Items(events[r.used..]));
    }
  }

  lemma RegroupRound<T>(hold: seq<T>, taken: seq<T>, sent: seq<T>, last: seq<T>,
                        held: seq<T>, now: seq<T>, later: seq<T>)
    requires sent + last == held + later && taken + held == now
    ensures (hold + taken) + sent + last == hold + (now + later)
  {
    Assoc(hold + taken, sent, last);
    Assoc(hold, taken, sent + last);
    Assoc(taken, held, later);
  }

  lemma {:induction false} TotalSizeConcat(a: seq<QueueItem>, b: seq<QueueItem>)
    ensures TotalSize(a + b) == TotalSize(a) + TotalSize(b)
  {
    if a == [] {
      assert a + b == b;
    } else {
      ConcatFirst(a, b);
      TotalSizeConcat(a[1..], b);
    }
  }

  /** One round of a run: what was held over into it and what it takes. Its batch is both. */
  datatype Gathered = Gathered(held: seq<QueueItem>, taken: seq<QueueItem>)

  function Rounds(hold: seq<QueueItem>, events: seq<Event>, max: Limits): seq<Gathered>
    requires max.count > 0
    decreases |events|
  {
    if events == [] then []
    else
      var r := Collect(events, 0, 0, max);
      [Gathered(hold, r.taken)] + Rounds(r.hold, events[r.used..], max)
  }

  function BatchesOf(rounds: seq<Gathered>): seq<seq<QueueItem>> {
    if rounds == [] then []
    else
      var batch := rounds[0].held + rounds[0].taken;
      (if batch == [] then [] else [batch]) + BatchesOf(rounds[1..])
  }

  /** The batches of a run are the rounds that gathered something. */
  lemma {:induction false} RunIsRounds(hold: seq<QueueItem>, events: seq<Event>, max: Limits)
    requires max.count > 0
    ensures RunQueue(hold, events, max).batches == BatchesOf(Rounds(hold, events, max))
    decreases |events|
  {
    if events != [] {
      RunStep(hold, events, max);
      var r := Collect(events, 0, 0, max);
      RunIsRounds(r.hold, events[r.used..], max);
      var rounds := Rounds(hold, events, max);
      assert rounds[1..] == Rounds(r.hold, events[r.used..], max);
    }
  }

  /** When the batch of a round is over one of the limits. */
  ghost predicate OverfullByHeld(g: Gathered, max: Limits) {
    && |g.held| <= 1 && |g.taken| <= max.count && TotalSize(g.taken) <= max.size
    && (|g.held + g.taken| > max.count <==> g.held != [] && |g.taken| == max.count)
    && (TotalSize(g.held + g.taken) > max.size <==>
        g.held != [] && |g.held[0].data| + TotalSize(g.taken) > max.size)
  }

  /** `next` holds the item that did not fit into `g`, or nothing. */
  ghost predicate HandsOver(g: Gathered, next: Gathered, max: Limits) {
    next.held != [] ==>
      |g.taken| < max.count && TotalSize(g.taken) + |next.held[0].data| > max.size
  }

  /**
   In every round of every run, what is taken meets both limits. So a batch is over the count
   exactly when an item was held over and a full count joined it, and over the size exactly
   when the held item and the bytes taken after it are. An item is held over only when it
   would have put the round before over the size.
   */
  lemma {:induction false} OverfullExactly(hold: seq<QueueItem>, events: seq<Event>, max: Limits)
    requires max.count > 0 && |hold| <= 1
    ensures
      var rounds := Rounds(hold, events, max);
      && (rounds != [] ==> rounds[0].held == hold)
      && (forall k :: 0 <= k < |rounds| ==> OverfullByHeld(rounds[k], max))
      && (forall k :: 0 < k < |rounds| ==> HandsOver(rounds[k - 1], rounds[k], max))
    decreases |events|
  {
    if events != [] {
      CollectConserves(events, 0, 0, max);
      var r := Collect(events, 0, 0, max);
      TotalSizeConcat(hold, r.taken);
      OverfullExactly(r.hold, events[r.used..], max);
      var rounds, later := Rounds(hold, events, max), Rounds(r.hold, events[r.used..], max);
      assert OverfullByHeld(rounds[0], max);
      forall k | 0 < k < |rounds|
        ensures OverfullByHeld(rounds[k], max) && HandsOver(rounds[k - 1], rounds[k], max)
      {
        assert rounds[k] == later[k - 1] && (k > 1 ==> rounds[k - 1] == later[k - 2]);
      }
    }
  }

  function Arrivals(items: seq<QueueItem>): seq<Event> {
    if items == [] then [] else [Item(items[0])] + Arrivals(items[1..])
  }

  /** Items that fit are all taken; the timer then ends the round unless the count did. */
  lemma {:induction false} AllTaken(items: seq<QueueItem>, i: nat, total: nat, max: Limits)
    requires i + |items| <= max.count && total + TotalSize(items) <= max.size
    ensures Collect(Arrivals(items) + [Timeout], i, total, max)
         == Round(items, [], |items| + if i + |items| < max.count then 1 else 0)
  {
    if items != [] {
      AllTaken(items[1..], i + 1, total + |items[0].data|, max);
      assert (Arrivals(items) + [Timeout])[1..] == Arrivals(items[1..]) + [Timeout];
      assert items == [items[0]] + items[1..];
    }
  }

  lemma {:induction false} ArrivalsLength(items: seq<QueueItem>)
    ensures |Arrivals(items)| == |items|
  {
    if items != [] {
      ArrivalsLength(items[1..]);
    }
  }

  /** An item held over is sent with everything that then fits. */
  lemma HeldJoined(held: QueueItem, items: seq<QueueItem>, max: Limits)
    requires max.count > 0 && |items| <= max.count && TotalSize(items) <= max.size
    ensures RunQueue([held], Arrivals(items) + [Timeout], max) == Run([[held] + items], [])
  {
    var events := Arrivals(items) + [Timeout];
    ArrivalsLength(items);
    AllTaken(items, 0, 0, max);
    RunStep([held], events, max);
    if |items| < max.count {
      assert events[|items| + 1..] == [];
    } else {
      assert events[|items|..] == [Timeout];
      assert Collect([Timeout], 0, 0, max) == Round([], [], 1);
      RunStep([], [Timeout], max);
      assert [Timeout][1..] == [];
    }
  }

  /**
   Reached from an empty hold: the second batch is one over the count when `items` fill a
   round, and over the size when `b`, which counts for neither, and `items` are.
   */
  lemma OverfullWitness(a: QueueItem, b: QueueItem, items: seq<QueueItem>, max: Limits)
    requires 2 <= max.count && |items| <= max.count && TotalSize(items) <= max.size
    requires |a.data| <= max.size < |a.data| + |b.data|
    ensures
      var batch := [b] + items;
      && RunQueue([], [Item(a), Item(b)] + (Arrivals(items) + [Timeout]), max) == Run([[a], batch], [])
      && (|batch| > max.count <==> |items| == max.count)
      && (TotalSize(batch) > max.size <==> |b.data| + TotalSize(items) > max.size)
  {
    var later := Arrivals(items) + [Timeout];
    var events := [Item(a), Item(b)] + later;
    assert events[1..] == [Item(b)] + later && events[1..][1..] == later && events[2..] == later;
    assert Collect(events[1..], 1, |a.data|, max) == Round([], [b], 1);
    assert [a] + [] == [a] && [] + [a] == [a];
    assert Collect(events, 0, 0, max) == Round([a], [b], 2);
    RunStep([], events, max);
    HeldJoined(b, items, max);
    assert [[a]] + [[b] + items] == [[a], [b] + items];
  }

  /**
   An item over the limit by itself is held and sent in the next round, alone when the timer
   comes first, and otherwise with a full round after it.
   */
  lemma OversizeWitness(big: QueueItem, items: seq<QueueItem>, max: Limits)
    requires 0 < max.count && |items| <= max.count && TotalSize(items) <= max.size < |big.data|
    ensures RunQueue([], [Item(big)] + (Arrivals(items) + [Timeout]), max) == Run([[big] + items], [])
    ensures TotalSize([big] + items) > max.size
    ensures RunQueue([], [Item(big), Timeout], max) == Run([[big]], [])
  {
    OversizeRun(big, items, max);
    OversizeRun(big, [], max);
    assert [Item(big)] + (Arrivals([]) + [Timeout]) == [Item(big), Timeout];
    assert [big] + [] == [big];
  }

  lemma OversizeRun(big: QueueItem, items: seq<QueueItem>, max: Limits)
    requires 0 < max.count && |items| <= max.count && TotalSize(items) <= max.size < |big.data|
    ensures RunQueue([], [Item(big)] + (Arrivals(items) + [Timeout]), max) == Run([[big] + items], [])
  {
    var later := Arrivals(items) + [Timeout];
    var events := [Item(big)] + later;
    assert Collect(events, 0, 0, max) == Round([], [big], 1);
    assert events[1..] == later;
    RunStep([], events, max);
    HeldJoined(big, items, max);
  }

  // --------------------------------------------------------- sending and replies

  /** How the k-th message fares: refused, or stored with an id for each attachment. */
  type Acks = nat -> Option<nat -> string>

  datatype Reply = Reply(sender: nat, fileID: Option<string>)

  function MessageOf(k: nat, batch: seq<QueueItem>, ids: nat -> string): Message {
    Message(k, seq(|batch|, i requires 0 <= i < |batch| => Attachment(ids(i), Some(batch[i].data))))
  }

  /** The messages of the accepted batches. */
  function Delivered(batches: seq<seq<QueueItem>>, acks: Acks): seq<Message> {
    if batches == [] then []
    else
      var k := |batches| - 1;
      Delivered(batches[..k], acks) +
      if acks(k).Some? then [MessageOf(k, batches[k], acks(k).value)] else []
  }

  function RepliesOf(k: nat, batch: seq<QueueItem>, acks: Acks): (r: seq<Reply>)
    ensures |r| == |batch|
  {
    seq(|batch|, i requires 0 <= i < |batch| =>
      Reply(batch[i].sender, if acks(k).Some? then Some(acks(k).value(i)) else None))
  }

  function Replies(batches: seq<seq<QueueItem>>, acks: Acks): seq<Reply> {
    if batches == [] then []
    else
      var k := |batches| - 1;
      Replies(batches[..k], acks) + RepliesOf(k, batches[k], acks)
  }

  /** The items of the accepted batches. */
  function Kept(batches: seq<seq<QueueItem>>, acks: Acks): seq<QueueItem> {
    if batches == [] then []
    else
      var k := |batches| - 1;
      Kept(batches[..k], acks) + if acks(k).Some? then batches[k] else []
  }

  lemma {:induction false} FlatSnoc<T>(batches: seq<seq<T>>, b: seq<T>)
    ensures Flat(batches + [b]) == Flat(batches) + b
  {
    if batches == [] {
      assert batches + [b] == [b] && [b][1..] == [];
    } else {
      assert (batches + [b])[1..] == batches[1..] + [b];
      FlatSnoc(batches[1..], b);
    }
  }

  lemma {:induction false} KeptAll(batches: seq<seq<QueueItem>>, acks: Acks)
    requires forall k: nat :: k < |batches| ==> acks(k).Some?
    ensures Kept(batches, acks) == Flat(batches)
  {
    if batches != [] {
      var k := |batches| - 1;
      KeptAll(batches[..k], acks);
      assert batches == batches[..k] + [batches[k]];
      FlatSnoc(batches[..k], batches[k]);
    }
  }

  /** Some stored attachment has this id and these bytes. */
  ghost predicate Holds(ms: seq<Message>, id: string, data: string) {
    exists m, i :: 0 <= m < |ms| && 0 <= i < |ms[m].attachments|
                   && ms[m].attachments[i] == Attachment(id, Some(data))
  }

  ghost predicate Answered(ms: seq<Message>, reply: Reply, item: QueueItem) {
    && reply.sender == item.sender
    && (reply.fileID.Some? ==> Holds(ms, reply.fileID.value, item.data))
  }

  lemma HoldsMore(ms: seq<Message>, more: seq<Message>, id: string, data: string)
    requires Holds(ms, id, data)
    ensures Holds(ms + more, id, data)
  {
    var m, i :| 0 <= m < |ms| && 0 <= i < |ms[m].attachments| && ms[m].attachments[i] == Attachment(id, Some(data));
    assert (ms + more)[m].attachments[i] == Attachment(id, Some(data));
  }

  lemma AnsweredNow(ms: seq<Message>, k: nat, batch: seq<QueueItem>, acks: Acks, i: nat)
    requires i < |batch|
    ensures Answered(ms + (if acks(k).Some? then [MessageOf(k, batch, acks(k).value)] else []),
                     RepliesOf(k, batch, acks)[i], batch[i])
  {
    if acks(k).Some? {
      var all := ms + [MessageOf(k, batch, acks(k).value)];
      assert all[|ms|].attachments[i] == Attachment(acks(k).value(i), Some(batch[i].data));
    }
  }

  /**
   Every sender is answered at its item's place in the order of dequeuing, with an id exactly
   when its message was accepted; that names the attachment that holds its own data.
   */
  lemma {:induction false} EverySenderAnswered(batches: seq<seq<QueueItem>>, acks: Acks)
    ensures |Replies(batches, acks)| == |Flat(batches)|
    ensures forall j :: 0 <= j < |Flat(batches)| ==>
      Answered(Delivered(batches, acks), Replies(batches, acks)[j], Flat(batches)[j])
    ensures forall k, i :: 0 <= k < |batches| && 0 <= i < |batches[k]| ==>
      AnsweredExactly(batches, acks, Delivered(batches, acks), Replies(batches, acks), k, i)
  {
    RepliesExactly(batches, acks);
    if batches != [] {
      var k := |batches| - 1;
      var front, last := batches[..k], batches[k];
      EverySenderAnswered(front, acks);
      assert batches == front + [last];
      FlatSnoc(front, last);
      var more := if acks(k).Some? then [MessageOf(k, last, acks(k).value)] else [];
      var n := |Flat(front)|;
      forall j | 0 <= j < |Flat(batches)|
        ensures Answered(Delivered(batches, acks), Replies(batches, acks)[j], Flat(batches)[j])
      {
        if j < n {
          var r := Replies(front, acks)[j];
          assert Answered(Delivered(front, acks), r, Flat(front)[j]);
          if r.fileID.Some? {
            HoldsMore(Delivered(front, acks), more, r.fileID.value, Flat(front)[j].data);
          }
        } else {
          AnsweredNow(Delivered(front, acks), k, last, acks, j - n);
        }
      }
    }
  }

  /**
   Item `i` of batch `k` is answered at its place: with an id exactly when its batch was
   accepted, and then with that of attachment `i` of that very message, which holds its data.
   */
  ghost predicate AnsweredExactly(batches: seq<seq<QueueItem>>, acks: Acks, ms: seq<Message>, replies: seq<Reply>,
                                  k: nat, i: nat)
    requires k < |batches| && i < |batches[k]|
  {
    var at := |Flat(batches[..k])| + i;
    && at < |replies| && replies[at].sender == batches[k][i].sender
    && (replies[at].fileID.Some? <==> acks(k).Some?)
    && (acks(k).Some? ==> replies[at].fileID.value == acks(k).value(i))
    && (acks(k).Some? ==> HasAttachment(ms, k, i, replies[at].fileID.value, batches[k][i].data))
  }

  /** Attachment `i` of message `id`. */
  ghost predicate HasAttachment(ms: seq<Message>, id: nat, i: nat, fileID: string, data: string) {
    exists m :: 0 <= m < |ms| && ms[m].id == id && i < |ms[m].attachments|
                && ms[m].attachments[i] == Attachment(fileID, Some(data))
  }

  lemma HasAttachmentMore(ms: seq<Message>, more: seq<Message>, id: nat, i: nat, fileID: string, data: string)
    requires HasAttachment(ms, id, i, fileID, data)
    ensures HasAttachment(ms + more, id, i, fileID, data)
  {
    var m :| 0 <= m < |ms| && ms[m].id == id && i < |ms[m].attachments|
             && ms[m].attachments[i] == Attachment(fileID, Some(data));
    assert (ms + more)[m] == ms[m];
  }

  lemma {:induction false} RepliesLength(batches: seq<seq<QueueItem>>, acks: Acks)
    ensures |Replies(batches, acks)| == |Flat(batches)|
  {
    if batches != [] {
      var k := |batches| - 1;
      RepliesLength(batches[..k], acks);
      assert batches == batches[..k] + [batches[k]];
      FlatSnoc(batches[..k], batches[k]);
    }
  }

  lemma LastAnswered(batches: seq<seq<QueueItem>>, acks: Acks, i: nat)
    requires batches != [] && i < |batches[|batches| - 1]|
    ensures AnsweredExactly(batches, acks, Delivered(batches, acks), Replies(batches, acks), |batches| - 1, i)
  {
    var k := |batches| - 1;
    var front, last := batches[..k], batches[k];
    RepliesLength(front, acks);
    assert Replies(batches, acks)[|Flat(front)| + i] == RepliesOf(k, last, acks)[i];
    if acks(k).Some? {
      var ms := Delivered(batches, acks);
      assert ms[|ms| - 1] == MessageOf(k, last, acks(k).value);
      assert ms[|ms| - 1].attachments[i] == Attachment(acks(k).value(i), Some(last[i].data));
    }
  }

  lemma AnsweredStays(front: seq<seq<QueueItem>>, last: seq<QueueItem>, acks: Acks, k: nat, i: nat)
    requires k < |front| && i < |front[k]|
    requires AnsweredExactly(front, acks, Delivered(front, acks), Replies(front, acks), k, i)
    ensures
      var batches := front + [last];
      AnsweredExactly(batches, acks, Delivered(batches, acks), Replies(batches, acks), k, i)
  {
    var batches := front + [last];
    assert batches[..|front|] == front && batches[..k] == front[..k];
    var n := |front|;
    var more := if acks(n).Some? then [MessageOf(n, last, acks(n).value)] else [];
    assert Delivered(batches, acks) == Delivered(front, acks) + more;
    var at := |Flat(front[..k])| + i;
    assert Replies(batches, acks)[at] == Replies(front, acks)[at];
    if acks(k).Some? {
      HasAttachmentMore(Delivered(front, acks), more, k, i, acks(k).value(i), front[k][i].data);
    }
  }

  /** Every sender gets its id or its refusal, by the fate of its own batch. */
  lemma {:induction false} RepliesExactly(batches: seq<seq<QueueItem>>, acks: Acks)
    ensures forall k, i :: 0 <= k < |batches| && 0 <= i < |batches[k]| ==>
      AnsweredExactly(batches, acks, Delivered(batches, acks), Replies(batches, acks), k, i)
  {
    if batches != [] {
      var n := |batches| - 1;
      var front, last := batches[..n], batches[n];
      assert batches == front + [last];
      RepliesExactly(front, acks);
      forall k, i | 0 <= k < |batches| && 0 <= i < |batches[k]|
        ensures AnsweredExactly(batches, acks, Delivered(batches, acks), Replies(batches, acks), k, i)
      {
        if k < n {
          AnsweredStays(front, last, acks, k, i);
        } else {
          LastAnswered(batches, acks, i);
        }
      }
    }
  }

  /** A message that carries a batch: its number, and the items as attachments in order. */
  predicate CarriesBatch(m: Message, k: nat, batch: seq<QueueItem>) {
    && m.id == k && |m.attachments| == |batch|
    && forall i :: 0 <= i < |batch| ==> m.attachments[i].data == Some(batch[i].data)
  }

  ghost predicate OnlyAccepted(ms: seq<Message>, batches: seq<seq<QueueItem>>, acks: Acks) {
    forall m :: 0 <= m < |ms| ==>
      ms[m].id < |batches| && acks(ms[m].id).Some? && CarriesBatch(ms[m], ms[m].id, batches[ms[m].id])
  }

  ghost predicate InOrder(ms: seq<Message>) {
    forall m, n :: 0 <= m < n < |ms| ==> ms[m].id < ms[n].id
  }

  ghost predicate HasMessage(ms: seq<Message>, k: nat) {
    exists m :: 0 <= m < |ms| && ms[m].id == k
  }

  lemma DeliveredNext(front: seq<seq<QueueItem>>, last: seq<QueueItem>, acks: Acks)
    ensures
      var n := |front|;
      Delivered(front + [last], acks) ==
        Delivered(front, acks) + if acks(n).Some? then [MessageOf(n, last, acks(n).value)] else []
  {
    assert (front + [last])[..|front|] == front;
  }

  lemma AcceptedNext(ms: seq<Message>, front: seq<seq<QueueItem>>, last: seq<QueueItem>, acks: Acks)
    requires OnlyAccepted(ms, front, acks) && InOrder(ms)
    ensures
      var n := |front|;
      var all := ms + if acks(n).Some? then [MessageOf(n, last, acks(n).value)] else [];
      && OnlyAccepted(all, front + [last], acks) && InOrder(all)
      && (forall k: nat :: HasMessage(ms, k) ==> HasMessage(all, k))
      && (acks(n).Some? ==> HasMessage(all, n))
  {
    var n := |front|;
    var all := ms + if acks(n).Some? then [MessageOf(n, last, acks(n).value)] else [];
    forall m | 0 <= m < |all|
      ensures all[m].id <= n && acks(all[m].id).Some? && CarriesBatch(all[m], all[m].id, (front + [last])[all[m].id])
    {
      if m < |ms| { assert all[m] == ms[m]; }
    }
    forall k: nat | HasMessage(ms, k) ensures HasMessage(all, k) {
      var m :| 0 <= m < |ms| && ms[m].id == k;
      assert all[m].id == k;
    }
    if acks(n).Some? { assert all[|ms|].id == n; }
  }

  /** What is in the channel is exactly one message for each accepted batch, in the order of sending. */
  lemma {:induction false} DeliveredExactly(batches: seq<seq<QueueItem>>, acks: Acks)
    ensures
      var ms := Delivered(batches, acks);
      && OnlyAccepted(ms, batches, acks) && InOrder(ms)
      && forall k: nat :: k < |batches| && acks(k).Some? ==> HasMessage(ms, k)
  {
    if batches != [] {
      var front, last := batches[..|batches| - 1], batches[|batches| - 1];
      assert batches == front + [last];
      DeliveredExactly(front, acks);
      DeliveredNext(front, last, acks);
      AcceptedNext(Delivered(front, acks), front, last, acks);
    }
  }

  // -------------------------------------------------------------- reading it back

  function ItemLines(items: seq<QueueItem>): seq<string> {
    if items == [] then [] else ItemLines(items[..|items| - 1]) + Lines(items[|items| - 1].data)
  }

  lemma {:induction false} ItemLinesConcat(a: seq<QueueItem>, b: seq<QueueItem>)
    ensures ItemLines(a + b) == ItemLines(a) + ItemLines(b)
  {
    if b == [] {
      assert a + b == a;
    } else {
      var n := |b| - 1;
      ConcatLast(a, b);
      ItemLinesConcat(a, b[..n]);
      Assoc(ItemLines(a), ItemLines(b[..n]), Lines(b[n].data));
    }
  }

  lemma {:induction false} AttachmentsReadBack(batch: seq<QueueItem>, atts: seq<Attachment>)
    requires |atts| == |batch| && forall i :: 0 <= i < |batch| ==> atts[i].data == Some(batch[i].data)
    ensures AttachmentLines(atts) == ItemLines(batch)
  {
    if batch != [] {
      var n := |batch| - 1;
      AttachmentsReadBack(batch[..n], atts[..n]);
    }
  }

  /** Message and attachment boundaries leave no trace in the lines read back. */
  lemma {:induction false} BatchesReadBack(batches: seq<seq<QueueItem>>, acks: Acks)
    ensures MessageLines(Delivered(batches, acks)) == ItemLines(Kept(batches, acks))
  {
    if batches != [] {
      var k := |batches| - 1;
      BatchesReadBack(batches[..k], acks);
      var front := Delivered(batches[..k], acks);
      if acks(k).Some? {
        var m := MessageOf(k, batches[k], acks(k).value);
        AttachmentsReadBack(batches[k], m.attachments);
        ItemLinesConcat(Kept(batches[..k], acks), batches[k]);
        assert (front + [m])[..|front|] == front;
      } else {
        assert front + [] == front && Kept(batches[..k], acks) + [] == Kept(batches[..k], acks);
      }
    }
  }

  /** One or more transactions as a sender queues them, a newline between two. */
  function EncodeAll(codec: Codec, txs: seq<Tx>): string
    requires txs != []
  {
    codec.encode(txs[0]) + if |txs| == 1 then "" else "\n" + EncodeAll(codec, txs[1..])
  }

  function Encodings(codec: Codec, txs: seq<Tx>): seq<string> {
    if txs == [] then [] else [codec.encode(txs[0])] + Encodings(codec, txs[1..])
  }

  lemma {:induction false} EncodeAllLines(codec: Codec, txs: seq<Tx>)
    requires RoundTrips(codec) && txs != []
    ensures Lines(EncodeAll(codec, txs)) == Encodings(codec, txs)
  {
    var line := codec.encode(txs[0]);
    assert IsLine(line);
    if |txs| == 1 {
      LinesOfLine(line);
      assert line + "" == line && txs[1..] == [];
    } else {
      EncodeAllLines(codec, txs[1..]);
      LinesAfterNewline(line, EncodeAll(codec, txs[1..]));
    }
  }

  lemma {:induction false} DecodeEncodings(codec: Codec, txs: seq<Tx>)
    requires RoundTrips(codec) && forall tx :: tx in txs ==> !tx.kind.UnknownTx?
    ensures Decoded(codec, Encodings(codec, txs)) == txs
  {
    if txs != [] {
      var line := codec.encode(txs[0]);
      assert codec.decode(line) == Some(txs[0]) && IsLine(line);
      DecodeEncodings(codec, txs[1..]);
      DecodedConcat(codec, [line], Encodings(codec, txs[1..]));
      assert [line][..0] == [];
      assert Decoded(codec, [line]) == [txs[0]];
    }
  }

  /** `items` queue the transactions `txss`, item by item. */
  ghost predicate Carries(codec: Codec, items: seq<QueueItem>, txss: seq<seq<Tx>>) {
    && |items| == |txss|
    && forall i :: 0 <= i < |items| ==>
      && txss[i] != [] && items[i].data == EncodeAll(codec, txss[i])
      && forall tx :: tx in txss[i] ==> !tx.kind.UnknownTx?
  }

  lemma {:induction false} EncodingsConcat(codec: Codec, a: seq<Tx>, b: seq<Tx>)
    ensures Encodings(codec, a + b) == Encodings(codec, a) + Encodings(codec, b)
  {
    if a == [] {
      assert a + b == b;
    } else {
      ConcatFirst(a, b);
      EncodingsConcat(codec, a[1..], b);
    }
  }

  /** The lines of queued items are the encodings of what they carry. */
  lemma {:induction false} CarriedLines(codec: Codec, items: seq<QueueItem>, txss: seq<seq<Tx>>)
    requires RoundTrips(codec) && Carries(codec, items, txss)
    ensures ItemLines(items) == Encodings(codec, Flat(txss))
    ensures forall tx :: tx in Flat(txss) ==> !tx.kind.UnknownTx?
  {
    if items != [] {
      var n := |items| - 1;
      CarriedLines(codec, items[..n], txss[..n]);
      EncodeAllLines(codec, txss[n]);
      assert txss == txss[..n] + [txss[n]];
      FlatSnoc(txss[..n], txss[n]);
      EncodingsConcat(codec, Flat(txss[..n]), txss[n]);
    }
  }

  /** Once nothing is held over and every send is accepted, the queue's lines are read back. */
  lemma QueueReadBack(events: seq<Event>, max: Limits, acks: Acks)
    requires max.count > 0 && RunQueue([], events, max).hold == []
    requires forall k: nat :: k < |RunQueue([], events, max).batches| ==> acks(k).Some?
    ensures MessageLines(Delivered(RunQueue([], events, max).batches, acks)) == ItemLines(Items(events))
  {
    var batches := RunQueue([], events, max).batches;
    RunConserves([], events, max);
    assert Flat(batches) + [] == Flat(batches) && [] + Items(events) == Items(events);
    BatchesReadBack(batches, acks);
    KeptAll(batches, acks);
  }

  /**
   Batching is invisible to replay: however the timer and the limits cut the queue into
   messages, once nothing is held over and every send is accepted, the lines read back are the
   queued transactions in the order they were dequeued, and replaying them is folding those.
   */
  lemma BatchingInvisible(codec: Codec, events: seq<Event>, max: Limits, acks: Acks, txss: seq<seq<Tx>>, db: Db)
    requires RoundTrips(codec) && max.count > 0 && Carries(codec, Items(events), txss)
    requires RunQueue([], events, max).hold == []
    requires forall k: nat :: k < |RunQueue([], events, max).batches| ==> acks(k).Some?
    ensures
      var sent := Delivered(RunQueue([], events, max).batches, acks);
      && MessageLines(sent) == Encodings(codec, Flat(txss))
      && TxsOf(codec, sent) == Flat(txss) && Replay(db, TxsOf(codec, sent)) == Replay(db, Flat(txss))
  {
    QueueReadBack(events, max, acks);
    CarriedLines(codec, Items(events), txss);
    DecodeEncodings(codec, Flat(txss));
  }

  // -------------------------------------------------------------------- the loop

  /** What a round still has to do after its first `used` selects, against the whole round. */
  ghost predicate Gathering(goal: Round, taken: seq<QueueItem>, used: nat, events: seq<Event>,
                            i: nat, total: nat, max: Limits)
  {
    && used <= |events|
    && var rest := Collect(events[used..], i, total, max);
       goal == Round(taken + rest.taken, rest.hold, used + rest.used)
  }

  lemma GatherEnds(goal: Round, taken: seq<QueueItem>, used: nat, events: seq<Event>,
                   i: nat, total: nat, max: Limits)
    requires Gathering(goal, taken, used, events, i, total, max)
    requires i < max.count ==> used == |events| || events[used].Timeout?
    ensures goal == Round(taken, [], if i < max.count && used < |events| then used + 1 else used)
  {
    assert taken + [] == taken;
  }

  lemma GatherHolds(goal: Round, taken: seq<QueueItem>, used: nat, events: seq<Event>,
                    i: nat, total: nat, max: Limits)
    requires Gathering(goal, taken, used, events, i, total, max)
    requires i < max.count && used < |events| && events[used].Item?
    requires total + |events[used].item.data| > max.size
    ensures goal == Round(taken, [events[used].item], used + 1)
  {
    assert taken + [] == taken;
  }

  lemma GatherTakes(goal: Round, taken: seq<QueueItem>, used: nat, events: seq<Event>,
                    i: nat, total: nat, max: Limits)
    requires Gathering(goal, taken, used, events, i, total, max)
    requires i < max.count && used < |events| && events[used].Item?
    requires total + |events[used].item.data| <= max.size
    ensures Gathering(goal, taken + [events[used].item], used + 1, events,
                      i + 1, total + |events[used].item.data|, max)
  {
    var item := events[used].item;
    assert events[used..][1..] == events[used + 1..];
    var rest := Collect(events[used + 1..], i + 1, total + |item.data|, max);
    Assoc(taken, [item], rest.taken);
  }

  /** What a run still has to do after sending `batches`, against the whole run. */
  ghost predicate Pending(goal: Run, batches: seq<seq<QueueItem>>, hold: seq<QueueItem>,
                          rest: seq<Event>, max: Limits)
    requires max.count > 0
  {
    var todo := RunQueue(hold, rest, max);
    goal == Run(batches + todo.batches, todo.hold)
  }

  lemma PendingStep(goal: Run, batches: seq<seq<QueueItem>>, hold: seq<QueueItem>,
                    rest: seq<Event>, max: Limits)
    requires max.count > 0 && rest != [] && Pending(goal, batches, hold, rest, max)
    ensures
      var r := Collect(rest, 0, 0, max);
      var items := hold + r.taken;
      Pending(goal, if items == [] then batches else batches + [items], r.hold, rest[r.used..], max)
  {
    var r := Collect(rest, 0, 0, max);
    RunStep(hold, rest, max);
    Assoc(batches, [hold + r.taken], RunQueue(r.hold, rest[r.used..], max).batches);
  }

  class Writer {
    const max: Limits
    var onhold: seq<QueueItem>
    var batches: seq<seq<QueueItem>>
    var channel: seq<Message>
    var replies: seq<Reply>

    constructor (max: Limits)
      ensures this.max == max && onhold == [] && batches == [] && channel == [] && replies == []
    {
      this.max := max;
      onhold, batches, channel, replies := [], [], [], [];
    }

    /** The inner loop: selects until the timer, the count limit or an item that does not fit. */
    method Gather(events: seq<Event>) returns (items: seq<QueueItem>, used: nat)
      requires max.count > 0
      modifies this`onhold
      ensures
        var r := Collect(events, 0, 0, max);
        items == old(onhold) + r.taken && onhold == r.hold && used == r.used
    {
      items, used := onhold, 0;
      onhold := [];
      ghost var goal := Collect(events, 0, 0, max);
      ghost var taken: seq<QueueItem> := [];
      var go := true;
      var i: nat, totalSize: nat := 0, 0;
      assert events[0..] == events;
      while go && i < max.count
        invariant used <= |events| && items == old(onhold) + taken
        invariant go ==> onhold == [] && Gathering(goal, taken, used, events, i, totalSize, max)
        invariant !go ==> goal == Round(taken, onhold, used)
        decreases go, max.count - i
      {
        if used == |events| || events[used].Timeout? {
          GatherEnds(goal, taken, used, events, i, totalSize, max);
          used := if used == |events| then used else used + 1;
          go := false;
        } else {
          var item := events[used].item;
          if totalSize + |item.data| > max.size {
            GatherHolds(goal, taken, used, events, i, totalSize, max);
            onhold := onhold + [item];
            go := false;
          } else {
            GatherTakes(goal, taken, used, events, i, totalSize, max);
            items := items + [item];
            taken := taken + [item];
          }
          totalSize := totalSize + |item.data|;
          used := used + 1;
        }
        i := i + 1;
      }
      if go {
        GatherEnds(goal, taken, used, events, i, totalSize, max);
      }
    }

    /** One message: all its items are sent together and answered by position. */
    method Send(items: seq<QueueItem>, acks: Acks)
      requires items != []
      requires channel == Delivered(batches, acks) && replies == Replies(batches, acks)
      modifies this`batches, this`channel, this`replies
      ensures batches == old(batches) + [items]
      ensures channel == Delivered(batches, acks) && replies == Replies(batches, acks)
      ensures |replies| == old(|replies|) + |items| && replies[..old(|replies|)] == old(replies)
      ensures forall i :: 0 <= i < |items| ==>
        var reply := replies[old(|replies|) + i];
        reply.sender == items[i].sender && (reply.fileID.Some? <==> acks(old(|batches|)).Some?)
      ensures acks(old(|batches|)).Some? ==>
        && |channel| == old(|channel|) + 1 && CarriesBatch(channel[old(|channel|)], old(|batches|), items)
        && forall i :: 0 <= i < |items| ==>
             replies[old(|replies|) + i].fileID == Some(channel[old(|channel|)].attachments[i].id)
      ensures acks(old(|batches|)).None? ==> channel == old(channel)
    {
      var k := |batches|;
      var ack := acks(k);
      if ack.Some? {
        channel := channel + [MessageOf(k, items, ack.value)];
      }
      var answers: seq<Reply> := [];
      for i := 0 to |items|
        invariant answers == RepliesOf(k, items, acks)[..i]
      {
        answers := answers + [Reply(items[i].sender, if ack.None? then None else Some(ack.value(i)))];
      }
      replies := replies + answers;
      batches := batches + [items];
      assert batches[..k] == old(batches);
    }

    /** The writer's loop over all the events it will see. */
    method ProcessQueue(events: seq<Event>, acks: Acks)
      requires max.count > 0 && onhold == [] && batches == [] && channel == [] && replies == []
      modifies this
      ensures batches == RunQueue([], events, max).batches && onhold == RunQueue([], events, max).hold
      ensures channel == Delivered(batches, acks) && replies == Replies(batches, acks)
      ensures |replies| == |Flat(batches)|
      ensures forall j :: 0 <= j < |replies| ==> Answered(channel, replies[j], Flat(batches)[j])
      ensures forall k, i :: 0 <= k < |batches| && 0 <= i < |batches[k]| ==>
        AnsweredExactly(batches, acks, channel, replies, k, i)
    {
      ghost var goal := RunQueue([], events, max);
      var rest := events;
      while rest != []
        invariant channel == Delivered(batches, acks) && replies == Replies(batches, acks)
        invariant Pending(goal, batches, onhold, rest, max)
        decreases |rest|
      {
        PendingStep(goal, batches, onhold, rest, max);
        var items, used := Gather(rest);
        rest := rest[used..];
        if |items| == 0 {
          continue;
        }
        Send(items, acks);
      }
      assert batches + [] == batches;
      EverySenderAnswered(batches, acks);
    }
  }
}
