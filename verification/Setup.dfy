/**
 Start-up: loading the log from its pinned message, and compacting it into few messages.
 */
module Setup {
  import opened Prelude
  import opened Transactions
  import opened TxLog
  import opened BatchingWriter

  // ------------------------------------------------------------------- loading

  predicate IdsIncrease(channel: seq<Message>) {
    forall i, j :: 0 <= i < j < |channel| ==> channel[i].id < channel[j].id
  }

  function NewestFirst(ms: seq<Message>): (r: seq<Message>)
    ensures |r| == |ms| && forall i :: 0 <= i < |ms| ==> r[i] == ms[|ms| - 1 - i]
  {
    seq(|ms|, i requires 0 <= i < |ms| => ms[|ms| - 1 - i])
  }

  /** The messages that follow position `pos`, at most `limit` of them. */
  function Page(channel: seq<Message>, pos: nat, limit: nat): seq<Message>
    requires pos <= |channel|
  {
    channel[pos..Min(pos + limit, |channel|)]
  }

  /** One request for the messages after a given one: the next `limit` of them, newest first. */
  method FetchAfter(channel: seq<Message>, after: nat, limit: nat, ghost pos: nat) returns (batch: array<Message>)
    requires IdsIncrease(channel) && pos < |channel| && channel[pos].id == after
    ensures fresh(batch) && batch[..] == NewestFirst(Page(channel, pos + 1, limit))
  {
    var start := 0;
    while start < |channel| && channel[start].id <= after
      invariant 0 <= start <= pos + 1
    {
      start := start + 1;
    }
    assert start == pos + 1;
    var page := NewestFirst(Page(channel, start, limit));
    batch := new Message[|page|](i requires 0 <= i < |page| => page[i]);
    assert batch[..] == page;
  }

  /** Two indices that swap and close in on each other. */
  method ReverseInPlace(batch: array<Message>)
    modifies batch
    ensures batch[..] == NewestFirst(old(batch[..]))
  {
    var i, j := 0, batch.Length - 1;
    while i < j
      invariant 0 <= i <= batch.Length && i + j == batch.Length - 1
      invariant forall k :: 0 <= k < batch.Length ==>
        batch[k] == if k < i || j < k then old(batch[batch.Length - 1 - k]) else old(batch[k])
    {
      batch[i], batch[j] := batch[j], batch[i];
      i, j := i + 1, j - 1;
    }
    assert forall k :: 0 <= k < batch.Length ==> batch[k] == old(batch[batch.Length - 1 - k]);
  }

  lemma ReversedTwice(ms: seq<Message>)
    ensures NewestFirst(NewestFirst(ms)) == ms
  {}

  lemma NextPage(channel: seq<Message>, pin: nat, n: nat, limit: nat)
    requires pin <= n <= |channel|
    ensures channel[pin..n] + Page(channel, n, limit) == channel[pin..n + |Page(channel, n, limit)|]
    ensures |Page(channel, n, limit)| != limit ==> n + |Page(channel, n, limit)| == |channel|
  {}

  /** The next page in chronological order: fetched newest first, then reversed in place. */
  method NextBatch(channel: seq<Message>, after: nat, limit: nat, ghost pos: nat) returns (batch: seq<Message>)
    requires IdsIncrease(channel) && pos < |channel| && channel[pos].id == after
    ensures batch == Page(channel, pos + 1, limit)
  {
    var fetched := FetchAfter(channel, after, limit, pos);
    ReverseInPlace(fetched);
    ReversedTwice(Page(channel, pos + 1, limit));
    batch := fetched[..];
  }

  /** Page by page from the pinned message to the end of the channel. */
  method LoadLog(channel: seq<Message>, pin: nat, limit: nat) returns (messages: seq<Message>)
    requires IdsIncrease(channel) && pin < |channel| && limit > 0
    ensures messages == channel[pin..]
  {
    messages := [channel[pin]];
    ghost var n := pin + 1;
    while true
      invariant pin < n <= |channel| && messages == channel[pin..n]
      decreases |channel| - n
    {
      var last := messages[|messages| - 1];
      assert last == channel[n - 1];
      var batch := NextBatch(channel, last.id, limit, n - 1);
      NextPage(channel, pin, n, limit);
      if |batch| == 0 { break; }
      messages := messages + batch;
      n := n + |batch|;
      if |batch| != limit { break; }
    }
  }

  // ---------------------------------------------------------------- compaction

  /**
   What compaction sends, each message as its lines, and which lines it keeps. The line that
   overflows the buffer flushes it and is itself not put into the next one.
   */
  datatype Packed = Packed(messages: seq<seq<string>>, kept: seq<bool>, flushes: nat)

  function Pack(lines: seq<string>, buffer: seq<string>, max: nat): Packed {
    if lines == [] then Packed(if buffer == [] then [] else [buffer], [], 0)
    else if |Joined(buffer)| + |lines[0]| + 1 > max then
      var rest := Pack(lines[1..], [], max);
      Packed([buffer] + rest.messages, [false] + rest.kept, rest.flushes + 1)
    else
      var rest := Pack(lines[1..], buffer + [lines[0]], max);
      Packed(rest.messages, [true] + rest.kept, rest.flushes)
  }

  function Select(lines: seq<string>, kept: seq<bool>): seq<string>
    requires |kept| == |lines|
  {
    if lines == [] then []
    else (if kept[0] then [lines[0]] else []) + Select(lines[1..], kept[1..])
  }

  function Skipped(kept: seq<bool>): nat {
    if kept == [] then 0 else (if kept[0] then 0 else 1) + Skipped(kept[1..])
  }

  lemma JoinedSnoc(lines: seq<string>, line: string)
    ensures Joined(lines + [line]) == Joined(lines) + line + "\n"
    ensures |Joined(lines + [line])| == |Joined(lines)| + |line| + 1
  {}

  /**
   The accounting of compaction: no message exceeds the limit, and what is sent is the
   original lines less exactly one for each flush inside the loop.
   */
  lemma {:induction false} PackAccounts(lines: seq<string>, buffer: seq<string>, max: nat)
    requires |Joined(buffer)| <= max
    ensures
      var p := Pack(lines, buffer, max);
      && |p.kept| == |lines| && Skipped(p.kept) == p.flushes
      && Flat(p.messages) == buffer + Select(lines, p.kept)
      && forall m :: m in p.messages ==> |Joined(m)| <= max
  {
    if lines == [] {
      if buffer != [] {
        FlatCons(buffer, []);
      }
      assert buffer + [] == buffer;
    } else if |Joined(buffer)| + |lines[0]| + 1 > max {
      PackAccounts(lines[1..], [], max);
      var p, rest := Pack(lines, buffer, max), Pack(lines[1..], [], max);
      FlatCons(buffer, rest.messages);
      assert p.kept[1..] == rest.kept;
      assert Select(lines, p.kept) == [] + Select(lines[1..], rest.kept);
    } else {
      JoinedSnoc(buffer, lines[0]);
      PackAccounts(lines[1..], buffer + [lines[0]], max);
      var p, rest := Pack(lines, buffer, max), Pack(lines[1..], buffer + [lines[0]], max);
      assert p.kept[1..] == rest.kept;
      Assoc(buffer, [lines[0]], Select(lines[1..], rest.kept));
    }
  }

  lemma {:induction false} SelectCount(lines: seq<string>, kept: seq<bool>)
    requires |kept| == |lines|
    ensures |Select(lines, kept)| + Skipped(kept) == |lines|
    ensures Skipped(kept) == 0 ==> Select(lines, kept) == lines
  {
    if lines != [] {
      SelectCount(lines[1..], kept[1..]);
    }
  }

  lemma {:induction false} FlushesExactly(lines: seq<string>, buffer: seq<string>, max: nat)
    requires |Joined(buffer)| <= max
    ensures Pack(lines, buffer, max).flushes == 0 <==> |Joined(buffer + lines)| <= max
  {
    if lines == [] {
      assert buffer + [] == buffer;
    } else {
      JoinedSnoc(buffer, lines[0]);
      assert buffer + lines == buffer + [lines[0]] + lines[1..];
      JoinedGrows(buffer + [lines[0]], lines[1..]);
      if |Joined(buffer + [lines[0]])| <= max {
        FlushesExactly(lines[1..], buffer + [lines[0]], max);
      }
    }
  }

  lemma {:induction false} JoinedGrows(a: seq<string>, b: seq<string>)
    ensures |Joined(a)| <= |Joined(a + b)|
  {
    if b == [] {
      assert a + b == a;
    } else {
      ConcatLast(a, b);
      JoinedGrows(a, b[..|b| - 1]);
    }
  }

  /** Compaction keeps every line exactly when all of them fit into one message. */
  lemma CompactionLosslessExactly(lines: seq<string>, max: nat)
    ensures Flat(Pack(lines, [], max).messages) == lines <==> |Joined(lines)| <= max
    ensures |Joined(lines)| > max ==> |Flat(Pack(lines, [], max).messages)| < |lines|
  {
    var p := Pack(lines, [], max);
    PackAccounts(lines, [], max);
    SelectCount(lines, p.kept);
    FlushesExactly(lines, [], max);
    assert [] + lines == lines && [] + Select(lines, p.kept) == Select(lines, p.kept);
  }

  function Texts(messages: seq<seq<string>>): seq<string> {
    if messages == [] then [] else [Joined(messages[0])] + Texts(messages[1..])
  }

  /** `ReadBytes` up to and with the next newline. */
  method ReadLine(unread: string, ghost left: seq<string>) returns (b: string, rest: string)
    requires unread == Joined(left) && left != [] && '\n' !in left[0]
    ensures b == left[0] + "\n" && rest == Joined(left[1..])
  {
    assert left == [left[0]] + left[1..];
    JoinedCons(left[0], left[1..]);
    SplitAtNewline(left[0], Joined(left[1..]));
    var n := FirstNewline(unread);
    b, rest := unread[..n + 1], unread[n + 1..];
  }

  /** The sends still to come, against all of them. */
  ghost predicate Sending(goal: seq<string>, sent: seq<string>, left: seq<string>, buffer: seq<string>, max: nat) {
    goal == sent + Texts(Pack(left, buffer, max).messages)
  }

  lemma TextsFlush(sent: seq<string>, buffer: seq<string>, later: seq<seq<string>>)
    ensures sent + Texts([buffer] + later) == sent + [Joined(buffer)] + Texts(later)
    ensures |sent| < |sent + Texts([buffer] + later)| && sent <= sent + Texts([buffer] + later)
  {
    assert Texts([buffer] + later) == [Joined(buffer)] + Texts(later);
  }

  lemma SendingFlush(goal: seq<string>, sent: seq<string>, left: seq<string>, buffer: seq<string>, max: nat)
    requires Sending(goal, sent, left, buffer, max)
    requires left != [] && |Joined(buffer)| + |left[0]| + 1 > max
    ensures |sent| < |goal| && sent <= goal
    ensures Sending(goal, sent + [Joined(buffer)], left[1..], [], max)
  {
    TextsFlush(sent, buffer, Pack(left[1..], [], max).messages);
  }

  lemma SendingLast(goal: seq<string>, sent: seq<string>, buffer: seq<string>, max: nat)
    requires Sending(goal, sent, [], buffer, max) && buffer != []
    ensures |sent| < |goal| && sent <= goal && goal == sent + [Joined(buffer)]
  {
    TextsFlush(sent, buffer, []);
    assert [buffer] + [] == [buffer];
    assert sent + [Joined(buffer)] + [] == sent + [Joined(buffer)];
  }

  lemma SendingKeep(goal: seq<string>, sent: seq<string>, left: seq<string>, buffer: seq<string>, max: nat)
    requires Sending(goal, sent, left, buffer, max)
    requires left != [] && |Joined(buffer)| + |left[0]| + 1 <= max
    ensures Sending(goal, sent, left[1..], buffer + [left[0]], max)
    ensures Joined(buffer + [left[0]]) == Joined(buffer) + (left[0] + "\n")
  {
    JoinedSnoc(buffer, left[0]);
    Assoc(Joined(buffer), left[0], "\n");
  }

  lemma SendingDone(goal: seq<string>, sent: seq<string>, max: nat)
    requires Sending(goal, sent, [], [], max)
    ensures sent == goal
  {}

  /** What is sent is all of `goal`, or what comes before the first send that is refused. */
  ghost predicate SentUntilRefused(sent: seq<string>, complete: bool, goal: seq<string>, accept: nat -> bool) {
    && sent <= goal && (forall k: nat :: k < |sent| ==> accept(k))
    && if complete then sent == goal else |sent| < |goal| && !accept(|sent|)
  }

  /**
   The packing loop on bytes. `accept(k)` says whether the k-th send succeeds; the first that
   does not ends compaction, with the messages sent so far left in the channel.
   */
  method Compact(txBuffer: string, max: nat, accept: nat -> bool, ghost lines: seq<string>)
    returns (sent: seq<string>, complete: bool)
    requires txBuffer == Joined(lines) && forall line :: line in lines ==> '\n' !in line
    ensures SentUntilRefused(sent, complete, Texts(Pack(lines, [], max).messages), accept)
    ensures complete <==> forall k: nat :: k < |Texts(Pack(lines, [], max).messages)| ==> accept(k)
  {
    sent := [];
    var unread, messageBuffer := txBuffer, "";
    ghost var goal := Texts(Pack(lines, [], max).messages);
    ghost var left: seq<string>, inBuffer: seq<string> := lines, [];
    JoinedEmptyOnly(left);
    while unread != ""
      invariant unread == Joined(left) && messageBuffer == Joined(inBuffer)
      invariant unread == "" <==> left == []
      invariant forall line :: line in left ==> '\n' !in line
      invariant Sending(goal, sent, left, inBuffer, max)
      invariant forall k: nat :: k < |sent| ==> accept(k)
      decreases |left|
    {
      var b: string;
      b, unread := ReadLine(unread, left);
      if |messageBuffer| + |b| > max {
        SendingFlush(goal, sent, left, inBuffer, max);
        if !accept(|sent|) { return sent, false; }
        sent := sent + [messageBuffer];
        messageBuffer, inBuffer := "", [];
      } else {
        SendingKeep(goal, sent, left, inBuffer, max);
        messageBuffer := messageBuffer + b;
        inBuffer := inBuffer + [left[0]];
      }
      left := left[1..];
      JoinedEmptyOnly(left);
    }
    JoinedEmptyOnly(inBuffer);
    if messageBuffer != "" {
      SendingLast(goal, sent, inBuffer, max);
      if !accept(|sent|) { return sent, false; }
      sent := sent + [messageBuffer];
    } else {
      SendingDone(goal, sent, max);
    }
    complete := true;
  }

  lemma JoinedEmptyOnly(lines: seq<string>)
    ensures Joined(lines) == "" <==> lines == []
  {}

  // --------------------------------------------------- what start-up leaves behind

  /** Compacted lines as messages of the channel, one attachment each. */
  function AsMessages(messages: seq<seq<string>>): seq<Message> {
    if messages == [] then []
    else
      var k := |messages| - 1;
      AsMessages(messages[..k]) + [Message(k, [Attachment("", Some(Joined(messages[k])))])]
  }

  predicate NoNewlines(lines: seq<string>) {
    forall line :: line in lines ==> '\n' !in line
  }

  lemma OneMessage(ms: seq<Message>, k: nat, lines: seq<string>)
    requires NoNewlines(lines)
    ensures MessageLines(ms + [Message(k, [Attachment("", Some(Joined(lines)))])]) == MessageLines(ms) + Scanned(lines)
  {
    var m := Message(k, [Attachment("", Some(Joined(lines)))]);
    LinesOfJoined(lines);
    ConcatLast(ms, [m]);
    assert ms + [m][..0] == ms;
    assert m.attachments[..0] == [];
    assert AttachmentLines(m.attachments) == [] + Scanned(lines) == Scanned(lines);
  }

  lemma AsMessagesSnoc(front: seq<seq<string>>, last: seq<string>)
    ensures AsMessages(front + [last])
         == AsMessages(front) + [Message(|front|, [Attachment("", Some(Joined(last)))])]
  {
    assert (front + [last])[..|front|] == front;
  }

  /** Compacted messages are read back as the lines they were made of. */
  lemma {:induction false} CompactedLines(messages: seq<seq<string>>)
    requires forall m :: m in messages ==> NoNewlines(m)
    ensures MessageLines(AsMessages(messages)) == Scanned(Flat(messages))
  {
    if messages != [] {
      var front, last := messages[..|messages| - 1], messages[|messages| - 1];
      assert messages == front + [last] && last in messages;
      CompactedLines(front);
      AsMessagesSnoc(front, last);
      OneMessage(AsMessages(front), |front|, last);
      FlatSnoc(front, last);
      ScannedConcat(Flat(front), last);
    }
  }

  lemma {:induction false} FlatMember<T>(batches: seq<seq<T>>, b: seq<T>, x: T)
    requires b in batches && x in b
    ensures x in Flat(batches)
  {
    if b != batches[0] {
      FlatMember(batches[1..], b, x);
    }
  }

  lemma {:induction false} DecodedGood(codec: Codec, lines: seq<string>)
    ensures Decoded(codec, GoodLines(codec, lines)) == Decoded(codec, lines)
    ensures forall line :: line in GoodLines(codec, lines) ==> line in lines && Understood(codec, line)
  {
    if lines != [] {
      var n := |lines| - 1;
      DecodedGood(codec, lines[..n]);
      if Understood(codec, lines[n]) {
        ConcatLast(GoodLines(codec, lines[..n]), [lines[n]]);
        assert GoodLines(codec, lines[..n]) + [lines[n]][..0] == GoodLines(codec, lines[..n]);
      } else {
        assert GoodLines(codec, lines) == GoodLines(codec, lines[..n]);
      }
    }
  }

  /** A line that means the same without a carriage return at its end. */
  predicate SurvivesScan(codec: Codec, line: string) {
    Understood(codec, DropCR(line)) && codec.decode(DropCR(line)) == codec.decode(line)
  }

  lemma {:induction false} DecodedLength(codec: Codec, lines: seq<string>)
    ensures |Decoded(codec, lines)| <= |lines|
    ensures |Decoded(codec, lines)| == |lines| <==> forall line :: line in lines ==> Understood(codec, line)
  {
    if lines != [] {
      DecodedLength(codec, lines[..|lines| - 1]);
      assert lines == lines[..|lines| - 1] + [lines[|lines| - 1]];
    }
  }

  lemma SnocEqual<T>(a: seq<T>, x: T, b: seq<T>, y: T)
    ensures a + [x] == b + [y] <==> a == b && x == y
  {
    if a + [x] == b + [y] {
      ConcatLast(a, [x]);
      ConcatLast(b, [y]);
      assert [x][..0] == [y][..0] == [] && a + [] == a && b + [] == b;
    }
  }

  lemma DecodedSnoc(codec: Codec, front: seq<string>, last: string)
    ensures Decoded(codec, front + [last])
         == Decoded(codec, front) + if Understood(codec, last) then [codec.decode(last).value] else []
  {
    assert (front + [last])[..|front|] == front;
  }

  lemma ScannedStep(codec: Codec, front: seq<string>, last: string)
    requires Understood(codec, last) && forall line :: line in front ==> Understood(codec, line)
    ensures Decoded(codec, Scanned(front + [last])) == Decoded(codec, front + [last])
       <==> Decoded(codec, Scanned(front)) == Decoded(codec, front) && SurvivesScan(codec, last)
  {
    var a, b := Decoded(codec, Scanned(front)), Decoded(codec, front);
    ScannedConcat(front, [last]);
    assert Scanned([last]) == [DropCR(last)];
    DecodedSnoc(codec, Scanned(front), DropCR(last));
    DecodedSnoc(codec, front, last);
    if Understood(codec, DropCR(last)) {
      SnocEqual(a, codec.decode(DropCR(last)).value, b, codec.decode(last).value);
    } else {
      DecodedLength(codec, front);
      DecodedLength(codec, Scanned(front));
      assert |a + []| < |b + [codec.decode(last).value]|;
    }
  }

  lemma {:induction false} ScannedDecodes(codec: Codec, lines: seq<string>)
    requires forall line :: line in lines ==> Understood(codec, line)
    ensures Decoded(codec, Scanned(lines)) == Decoded(codec, lines)
       <==> forall line :: line in lines ==> SurvivesScan(codec, line)
  {
    if lines != [] {
      var front, last := lines[..|lines| - 1], lines[|lines| - 1];
      assert lines == front + [last];
      ScannedDecodes(codec, front);
      ScannedStep(codec, front, last);
    }
  }

  /**
   The compacted log carries the old log's transactions exactly when its lines fit into one
   message and none of them needs a carriage return at its end. It then replays to the same
   map, from the new pin alone or, if the old pin was never removed, after the whole old log.
   */
  lemma CompactionPreservesReplay(codec: Codec, ms: seq<Message>, max: nat, db: Db)
    ensures
      var lines := GoodLines(codec, MessageLines(ms));
      var compacted := AsMessages(Pack(lines, [], max).messages);
      && (TxsOf(codec, compacted) == TxsOf(codec, ms) <==>
          |Joined(lines)| <= max && forall line :: line in lines ==> SurvivesScan(codec, line))
      && (TxsOf(codec, compacted) == TxsOf(codec, ms) ==>
          Replay(db, TxsOf(codec, ms) + TxsOf(codec, compacted)) == Replay(db, TxsOf(codec, ms)))
  {
    var lines := GoodLines(codec, MessageLines(ms));
    var kept := Flat(Pack(lines, [], max).messages);
    CompactedLog(codec, ms, max);
    CompactionLosslessExactly(lines, max);
    ScannedDecodes(codec, lines);
    DecodedLength(codec, lines);
    DecodedLength(codec, Scanned(kept));
    var txs := TxsOf(codec, ms);
    ReplaySuffixAgain(db, txs, 0);
    assert txs[0..] == txs;
  }

  lemma CompactedLog(codec: Codec, ms: seq<Message>, max: nat)
    ensures
      var lines := GoodLines(codec, MessageLines(ms));
      var messages := Pack(lines, [], max).messages;
      && TxsOf(codec, AsMessages(messages)) == Decoded(codec, Scanned(Flat(messages)))
      && Decoded(codec, lines) == TxsOf(codec, ms)
      && forall line :: line in lines ==> Understood(codec, line) && '\n' !in line
  {
    var lines := GoodLines(codec, MessageLines(ms));
    var p := Pack(lines, [], max);
    DecodedGood(codec, MessageLines(ms));
    MessageLinesHaveNoNewline(ms);
    PackAccounts(lines, [], max);
    forall m, line | m in p.messages && line in m ensures line in lines {
      FlatMember(p.messages, m, line);
      SelectSome(lines, p.kept);
    }
    assert forall m :: m in p.messages ==> NoNewlines(m);
    CompactedLines(p.messages);
  }

  lemma {:induction false} SelectSome(lines: seq<string>, kept: seq<bool>)
    requires |kept| == |lines|
    ensures forall line :: line in Select(lines, kept) ==> line in lines
  {
    if lines != [] {
      SelectSome(lines[1..], kept[1..]);
    }
  }

  /** The transactions on a path leave it as it was. */
  ghost predicate LeftAsItWas(db: Db, late: seq<Tx>, p: string) {
    Project(late, p) != [] ==> After(None, Project(late, p)) == Lookup(db, p)
  }

  lemma LateAt(db: Db, past: seq<Tx>, late: seq<Tx>, p: string)
    ensures Lookup(Replay(db, past), p) == Lookup(Replay(db, past + late), p)
       <==> LeftAsItWas(Replay(db, past), late, p)
    ensures Lookup(Replay(db, past + late + past), p) == Lookup(Replay(db, past + late), p)
       <==> (Project(past, p) != [] ==> LeftAsItWas(Replay(db, past), late, p))
  {
    var start, x, y := Lookup(db, p), Project(past, p), Project(late, p);
    ReplayPerPath(db, past, p);
    ReplayPerPath(db, past + late, p);
    ReplayPerPath(db, past + late + past, p);
    ProjectConcat(past, late, p);
    ProjectConcat(past + late, past, p);
    AfterConcat(start, x, y);
    AfterConcat(start, x + y, x);
  }

  /** Only the later of two stretches of a path's history counts, unless it is empty. */
  lemma AfterConcat(start: Option<Tx>, x: seq<Tx>, y: seq<Tx>)
    ensures After(start, x + y) == if y == [] then After(start, x) else After(None, y)
  {
    if y == [] {
      assert x + y == x;
    } else {
      assert (x + y)[|x + y| - 1] == y[|y| - 1];
    }
  }

  lemma SameMapExactly(a: Db, b: Db)
    ensures a == b <==> forall p :: Lookup(a, p) == Lookup(b, p)
  {
    if forall p :: Lookup(a, p) == Lookup(b, p) { LookupDecides(a, b); }
  }

  /**
   What another client logs between the loading of `past` and the message that repeats it. The
   new pin alone gives the same map as the whole log exactly when those late transactions
   changed nothing, and with both pins exactly when they changed no path that `past` mentions.
   */
  lemma LateTransactionsExactly(db: Db, past: seq<Tx>, late: seq<Tx>)
    ensures Replay(db, past) == Replay(db, past + late)
       <==> forall p :: LeftAsItWas(Replay(db, past), late, p)
    ensures Replay(db, past + late + past) == Replay(db, past + late)
       <==> forall p :: Project(past, p) != [] ==> LeftAsItWas(Replay(db, past), late, p)
  {
    SameMapExactly(Replay(db, past), Replay(db, past + late));
    SameMapExactly(Replay(db, past + late + past), Replay(db, past + late));
    forall p
      ensures Lookup(Replay(db, past), p) == Lookup(Replay(db, past + late), p)
         <==> LeftAsItWas(Replay(db, past), late, p)
      ensures Lookup(Replay(db, past + late + past), p) == Lookup(Replay(db, past + late), p)
         <==> (Project(past, p) != [] ==> LeftAsItWas(Replay(db, past), late, p))
    {
      LateAt(db, past, late, p);
    }
  }

  /** So a late delete of a logged path is undone under either pin, and a late write lost under the new one. */
  lemma LateTransactionsLost(db: Db, past: seq<Tx>, gone: Tx, added: Tx)
    requires gone.kind.DeleteTx? && Project(past, gone.path) != [] && gone.path in Replay(db, past)
    requires added.kind.WriteTx? && added.path !in Replay(db, past)
    ensures Replay(db, past) != Replay(db, past + [gone])
    ensures Replay(db, past + [gone] + past) != Replay(db, past + [gone])
    ensures Replay(db, past) != Replay(db, past + [added])
  {
    LateTransactionsExactly(db, past, [gone]);
    LateTransactionsExactly(db, past, [added]);
    OneLate(gone);
    OneLate(added);
    assert !LeftAsItWas(Replay(db, past), [gone], gone.path);
    assert !LeftAsItWas(Replay(db, past), [added], added.path);
  }

  lemma OneLate(tx: Tx)
    requires !tx.kind.UnknownTx?
    ensures Project([tx], tx.path) == [tx]
  {
    assert [tx][..0] == [];
  }

  /** The same of a compaction that carries everything. */
  lemma CompactionWithLate(codec: Codec, ms: seq<Message>, late: seq<Message>, max: nat, db: Db)
    requires TxsOf(codec, AsMessages(Pack(GoodLines(codec, MessageLines(ms)), [], max).messages)) == TxsOf(codec, ms)
    ensures
      var compacted := AsMessages(Pack(GoodLines(codec, MessageLines(ms)), [], max).messages);
      var past, since := TxsOf(codec, ms), TxsOf(codec, late);
      var whole := Replay(db, past + since);
      && (Replay(db, TxsOf(codec, compacted)) == whole <==>
          forall p :: LeftAsItWas(Replay(db, past), since, p))
      && (Replay(db, past + since + TxsOf(codec, compacted)) == whole <==>
          forall p :: Project(past, p) != [] ==> LeftAsItWas(Replay(db, past), since, p))
  {
    LateTransactionsExactly(db, TxsOf(codec, ms), TxsOf(codec, late));
  }

  lemma PackKeeps(line: string, rest: seq<string>, buffer: seq<string>, max: nat)
    requires |Joined(buffer)| + |line| + 1 <= max
    ensures Pack([line] + rest, buffer, max).messages == Pack(rest, buffer + [line], max).messages
  {
    ConcatFirst([line], rest);
    assert [line][1..] + rest == rest;
  }

  lemma PackDrops(line: string, rest: seq<string>, buffer: seq<string>, max: nat)
    requires |Joined(buffer)| + |line| + 1 > max
    ensures Pack([line] + rest, buffer, max).messages == [buffer] + Pack(rest, [], max).messages
  {
    ConcatFirst([line], rest);
    assert [line][1..] + rest == rest;
  }

  lemma PackTwo(la: string, lb: string, max: nat)
    requires |la| + 1 <= max < |la| + |lb| + 2
    ensures Pack([la, lb], [], max).messages == [[la]]
  {
    var none: seq<string> := [];
    PackKeeps(la, [lb], none, max);
    JoinedSnoc(none, la);
    assert none + [la] == [la] && [la] + [lb] == [la, lb] && [lb] + none == [lb];
    PackDrops(lb, none, [la], max);
  }

  /** With two lines that fit only one at a time, the second is gone and so is what it wrote. */
  lemma CompactionLosesWitness(codec: Codec, a: Tx, b: Tx, max: nat)
    requires RoundTrips(codec) && a.kind.WriteTx? && b.kind.WriteTx? && a.path != b.path
    requires |codec.encode(a)| + 1 <= max < |codec.encode(a)| + |codec.encode(b)| + 2
    ensures
      var lines := [codec.encode(a), codec.encode(b)];
      var compacted := AsMessages(Pack(lines, [], max).messages);
      b.path in Replay(map[], Decoded(codec, lines)) && b.path !in Replay(map[], TxsOf(codec, compacted))
  {
    var la, lb := codec.encode(a), codec.encode(b);
    assert IsLine(la) && IsLine(lb) && codec.decode(lb) == Some(b) && codec.decode(la) == Some(a);
    PackTwo(la, lb, max);
    CompactedLines([[la]]);
    assert Scanned([la]) == [la];
    FlatCons([la], []);
    assert [[la]] == [[la]] + [] && [la] + Flat<string>([]) == [la];
    OneDecoded(codec, la, a);
    OneDecoded(codec, lb, b);
    DecodedConcat(codec, [la], [lb]);
    assert [la, lb] == [la] + [lb] && [a] + [b] == [a, b] && [a, b][..1] == [a] && [a][..0] == [];
  }

  lemma OneDecoded(codec: Codec, line: string, tx: Tx)
    requires line != "" && codec.decode(line) == Some(tx) && !tx.kind.UnknownTx?
    ensures Decoded(codec, [line]) == [tx]
  {}

  /** Start-up on an existing log; `compact` also repacks it. */
  method SetupDB(codec: Codec, channel: seq<Message>, pin: nat, limit: nat,
                 compact: bool, max: nat, accept: nat -> bool)
    returns (replica: Replica, sent: seq<string>, complete: bool)
    requires IdsIncrease(channel) && pin < |channel| && limit > 0
    ensures fresh(replica) && replica.db == Replay(map[], TxsOf(codec, channel[pin..])) && replica.open == {}
    ensures
      var goal := Texts(Pack(GoodLines(codec, MessageLines(channel[pin..])), [], max).messages);
      SentUntilRefused(sent, complete, if compact then goal else [], accept)
  {
    replica := new Replica();
    var messages := LoadLog(channel, pin, limit);
    var txBuffer := replica.ApplyMessageTxs(codec, messages, false);
    sent, complete := [], true;
    if compact {
      ghost var lines := GoodLines(codec, MessageLines(messages));
      DecodedGood(codec, MessageLines(messages));
      MessageLinesHaveNoNewline(messages);
      sent, complete := Compact(txBuffer, max, accept, lines);
    }
  }
}
