/**
 The file system's promise about its metadata, across all parts: what a run of operations
 sends, however it is batched, replays to the map of paths the run ended with.
 */
module Persistence {
  import opened Prelude
  import opened Transactions
  import opened TxLog
  import opened BatchingWriter
  import opened Setup
  import opened Namespace

  /** Every event is an item or the timer; the items queue what the run sends, in order. */
  ghost predicate Queues(codec: Codec, events: seq<Event>, txss: seq<seq<Tx>>, sends: seq<Tx>) {
    Carries(codec, Items(events), txss) && Flat(txss) == sends
  }

  /**
   A client runs any operations, queues what they send in order, and the writer cuts the queue
   into messages in any way; a client that then loads the log holds the same map of paths.
   */
  lemma LogRebuildsNamespace(codec: Codec, states: seq<Ns>, ops: seq<Op>,
                             events: seq<Event>, txss: seq<seq<Tx>>, max: Limits, acks: Acks)
    requires RoundTrips(codec) && max.count > 0
    requires IsOpRun(states, ops) && AllWrites(states[0].db)
    requires Queues(codec, events, txss, AllSends(states, ops))
    requires RunQueue([], events, max).hold == []
    requires forall k: nat :: k < |RunQueue([], events, max).batches| ==> acks(k).Some?
    ensures
      Replay(states[0].db, TxsOf(codec, Delivered(RunQueue([], events, max).batches, acks)))
      == states[|ops|].db
  {
    RunIsReplay(states, ops);
    BatchingInvisible(codec, events, max, acks, txss, states[0].db);
  }

  lemma {:induction false} EncodingsAreGood(codec: Codec, txs: seq<Tx>)
    requires RoundTrips(codec) && forall tx :: tx in txs ==> !tx.kind.UnknownTx?
    ensures GoodLines(codec, Encodings(codec, txs)) == Encodings(codec, txs)
    ensures forall line :: line in Encodings(codec, txs) ==> SurvivesScan(codec, line)
  {
    if txs != [] {
      var line := codec.encode(txs[0]);
      assert codec.decode(line) == Some(txs[0]) && IsLine(line);
      EncodingsAreGood(codec, txs[1..]);
      DecodedConcat(codec, [line], Encodings(codec, txs[1..]));
      assert [line][..0] == [];
      assert GoodLines(codec, [line]) == [line] && DropCR(line) == line;
    }
  }

  /**
   The same with the log compacted in between: the compacted log carries every send exactly
   when their lines fit into one message, and then both logs replay to the final map.
   */
  lemma CompactedLogRebuildsNamespace(codec: Codec, states: seq<Ns>, ops: seq<Op>,
                                      events: seq<Event>, txss: seq<seq<Tx>>, max: Limits, acks: Acks)
    requires RoundTrips(codec) && max.count > 0
    requires IsOpRun(states, ops) && AllWrites(states[0].db)
    requires Queues(codec, events, txss, AllSends(states, ops))
    requires RunQueue([], events, max).hold == []
    requires forall k: nat :: k < |RunQueue([], events, max).batches| ==> acks(k).Some?
    ensures
      var sends := AllSends(states, ops);
      var sent := Delivered(RunQueue([], events, max).batches, acks);
      var compacted := AsMessages(Pack(GoodLines(codec, MessageLines(sent)), [], max.size).messages);
      && (TxsOf(codec, compacted) == sends <==> |Joined(Encodings(codec, sends))| <= max.size)
      && (|Joined(Encodings(codec, sends))| <= max.size ==>
          && Replay(states[0].db, TxsOf(codec, compacted)) == states[|ops|].db
          && Replay(states[0].db, TxsOf(codec, sent) + TxsOf(codec, compacted)) == states[|ops|].db)
  {
    LogRebuildsNamespace(codec, states, ops, events, txss, max, acks);
    var sent := Delivered(RunQueue([], events, max).batches, acks);
    BatchingInvisible(codec, events, max, acks, txss, states[0].db);
    CarriedLines(codec, Items(events), txss);
    EncodingsAreGood(codec, Flat(txss));
    CompactionPreservesReplay(codec, sent, max.size, states[0].db);
  }
}
