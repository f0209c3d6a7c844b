/**
 The transaction log: how messages are read back as transactions, and what replaying them
 into a map of paths depends on.
 */
module TxLog {
  import opened Prelude
  import opened Transactions

  type Db = map<string, Tx>

  function Lookup(db: Db, p: string): Option<Tx> {
    if p in db then Some(db[p]) else None
  }

  function Apply(db: Db, tx: Tx): Db {
    match tx.kind
    case WriteTx => db[tx.path := tx]
    case DeleteTx => db - {tx.path}
    case UnknownTx(_) => db
  }

  function Replay(db: Db, log: seq<Tx>): Db {
    if log == [] then db else Apply(Replay(db, log[..|log| - 1]), log[|log| - 1])
  }

  lemma {:induction false} ReplayConcat(db: Db, a: seq<Tx>, b: seq<Tx>)
    ensures Replay(db, a + b) == Replay(Replay(db, a), b)
  {
    if b == [] {
      assert a + b == a;
    } else {
      var n := |b| - 1;
      assert (a + b)[..|a + b| - 1] == a + b[..n];
      ReplayConcat(db, a, b[..n]);
    }
  }

  // ------------------------------------------------------- one path at a time

  /** The known transactions of one path, in log order. */
  function Project(log: seq<Tx>, p: string): (r: seq<Tx>) {
    if log == [] then []
    else
      var last := log[|log| - 1];
      Project(log[..|log| - 1], p) + if last.path == p && !last.kind.UnknownTx? then [last] else []
  }

  lemma {:induction false} ProjectConcat(a: seq<Tx>, b: seq<Tx>, p: string)
    ensures Project(a + b, p) == Project(a, p) + Project(b, p)
  {
    if b == [] {
      assert a + b == a;
    } else {
      var n := |b| - 1;
      assert (a + b)[..|a + b| - 1] == a + b[..n];
      ProjectConcat(a, b[..n], p);
    }
  }

  /** What a path holds after its own transactions: the last one decides. */
  function After(start: Option<Tx>, own: seq<Tx>): Option<Tx> {
    if own == [] then start
    else
      var last := own[|own| - 1];
      if last.kind.WriteTx? then Some(last) else None
  }

  /** Replay is decided path by path, by the last transaction of the path. */
  lemma {:induction false} ReplayPerPath(db: Db, log: seq<Tx>, p: string)
    ensures Lookup(Replay(db, log), p) == After(Lookup(db, p), Project(log, p))
  {
    if log != [] {
      ReplayPerPath(db, log[..|log| - 1], p);
    }
  }

  lemma LookupDecides(a: Db, b: Db)
    requires forall p :: Lookup(a, p) == Lookup(b, p)
    ensures a == b
  {
    forall p ensures p in a <==> p in b
      ensures p in a ==> a[p] == b[p]
    {
      assert Lookup(a, p) == Lookup(b, p);
    }
    assert a.Keys == b.Keys;
  }

  /** Logs that agree on every path's own order replay alike, however the paths interleave. */
  lemma ReplayDependsOnProjections(db: Db, a: seq<Tx>, b: seq<Tx>)
    requires forall p :: Project(a, p) == Project(b, p)
    ensures Replay(db, a) == Replay(db, b)
  {
    forall p ensures Lookup(Replay(db, a), p) == Lookup(Replay(db, b), p) {
      ReplayPerPath(db, a, p);
      ReplayPerPath(db, b, p);
    }
    LookupDecides(Replay(db, a), Replay(db, b));
  }

  lemma SuffixAgainAt(db: Db, front: seq<Tx>, back: seq<Tx>, p: string)
    ensures Lookup(Replay(db, front + back + back), p) == Lookup(Replay(db, front + back), p)
  {
    ReplayPerPath(db, front + back + back, p);
    ReplayPerPath(db, front + back, p);
    ProjectConcat(front + back, back, p);
    ProjectConcat(front, back, p);
    var x, y := Project(front, p), Project(back, p);
    if y != [] {
      assert (x + y + y)[|x + y + y| - 1] == y[|y| - 1] == (x + y)[|x + y| - 1];
    } else {
      assert x + y + y == x + y;
    }
  }

  /** Replaying any suffix of a log once more changes nothing. */
  lemma ReplaySuffixAgain(db: Db, log: seq<Tx>, k: nat)
    requires k <= |log|
    ensures Replay(db, log + log[k..]) == Replay(db, log)
  {
    assert log[..k] + log[k..] == log;
    forall p ensures Lookup(Replay(db, log + log[k..]), p) == Lookup(Replay(db, log), p) {
      SuffixAgainAt(db, log[..k], log[k..], p);
    }
    LookupDecides(Replay(db, log + log[k..]), Replay(db, log));
  }

  // --------------------------------------------------------- lines of a message

  function FirstNewline(d: string): (n: nat)
    ensures n <= |d| && '\n' !in d[..n] && (n < |d| ==> d[n] == '\n')
  {
    if d == "" || d[0] == '\n' then 0
    else
      var n := 1 + FirstNewline(d[1..]);
      assert d[..n] == [d[0]] + d[1..][..n - 1];
      n
  }

  function DropCR(line: string): string {
    if line != "" && line[|line| - 1] == '\r' then line[..|line| - 1] else line
  }

  /** What a line scanner yields: the last line needs no newline, a carriage return is dropped. */
  function Lines(d: string): seq<string> {
    if d == "" then []
    else
      var n := FirstNewline(d);
      [DropCR(d[..n])] + if n == |d| then [] else Lines(d[n + 1..])
  }

  /** An encoder that never breaks a line, and a decoder that undoes it. */
  datatype Codec = Codec(encode: Tx -> string, decode: string -> Option<Tx>)

  /** Text that survives the line scanner whole. */
  predicate IsLine(s: string) {
    s != "" && '\n' !in s && s[|s| - 1] != '\r'
  }

  ghost predicate RoundTrips(c: Codec) {
    forall tx: Tx {:trigger c.encode(tx)} :: c.decode(c.encode(tx)) == Some(tx) && IsLine(c.encode(tx))
  }

  lemma {:induction false} FirstNewlineAt(line: string, rest: string)
    requires '\n' !in line && (rest == "" || rest[0] == '\n')
    ensures FirstNewline(line + rest) == |line|
  {
    if line == "" {
      assert line + rest == rest;
    } else {
      assert (line + rest)[1..] == line[1..] + rest;
      FirstNewlineAt(line[1..], rest);
    }
  }

  lemma LinesOfLine(line: string)
    requires line != "" && '\n' !in line
    ensures Lines(line) == [DropCR(line)]
    ensures IsLine(line) ==> Lines(line) == [line]
  {
    FirstNewlineAt(line, "");
    assert line + "" == line && line[..|line|] == line;
  }

  lemma SplitAtNewline(line: string, rest: string)
    requires '\n' !in line
    ensures
      var d := line + "\n" + rest;
      d != "" && FirstNewline(d) == |line| && d[..|line|] == line && d[|line| + 1..] == rest
  {
    FirstNewlineAt(line, "\n" + rest);
    assert line + "\n" + rest == line + ("\n" + rest);
  }

  lemma LinesCons(line: string, rest: string)
    requires '\n' !in line
    ensures Lines(line + "\n" + rest) == [DropCR(line)] + Lines(rest)
  {
    SplitAtNewline(line, rest);
  }

  /** One carriage return before a newline belongs to the newline, and no other does. */
  lemma LinesCRLF(line: string, rest: string)
    requires '\n' !in line
    ensures Lines(line + "\r" + "\n" + rest) == [line] + Lines(rest)
    ensures line != "" && line[|line| - 1] != '\r' ==> Lines(line + "\n" + rest) == [line] + Lines(rest)
  {
    LinesCons(line + "\r", rest);
    LinesCons(line, rest);
    assert (line + "\r")[..|line|] == line;
  }

  lemma LinesAfterNewline(line: string, rest: string)
    requires IsLine(line)
    ensures Lines(line + ("\n" + rest)) == [line] + Lines(rest)
  {
    LinesCons(line, rest);
    Assoc(line, "\n", rest);
  }

  /** Every line followed by a newline, as the compaction buffer holds them. */
  function Joined(lines: seq<string>): string {
    if lines == [] then "" else Joined(lines[..|lines| - 1]) + lines[|lines| - 1] + "\n"
  }

  lemma {:induction false} JoinedCons(line: string, rest: seq<string>)
    ensures Joined([line] + rest) == line + "\n" + Joined(rest)
  {
    if rest == [] {
      assert [line] + rest == [line];
      assert [line][..0] == [];
    } else {
      var n := |rest| - 1;
      assert ([line] + rest)[..n + 1] == [line] + rest[..n];
      JoinedCons(line, rest[..n]);
    }
  }

  /** Each line as the scanner hands it over. */
  function Scanned(lines: seq<string>): seq<string> {
    seq(|lines|, i requires 0 <= i < |lines| => DropCR(lines[i]))
  }

  lemma ScannedConcat(a: seq<string>, b: seq<string>)
    ensures Scanned(a + b) == Scanned(a) + Scanned(b)
  {}

  /** Joined lines are read back as they were, except for a carriage return at their end. */
  lemma {:induction false} LinesOfJoined(lines: seq<string>)
    requires forall line :: line in lines ==> '\n' !in line
    ensures Lines(Joined(lines)) == Scanned(lines)
  {
    if lines != [] {
      assert lines == [lines[0]] + lines[1..];
      JoinedCons(lines[0], lines[1..]);
      LinesCons(lines[0], Joined(lines[1..]));
      LinesOfJoined(lines[1..]);
      ScannedConcat([lines[0]], lines[1..]);
    }
  }

  lemma {:induction false} LinesHaveNoNewline(d: string)
    ensures forall line :: line in Lines(d) ==> '\n' !in line
  {
    if d != "" {
      var n := FirstNewline(d);
      if n < |d| {
        LinesHaveNoNewline(d[n + 1..]);
      }
    }
  }

  // ----------------------------------------------------------- reading messages

  /** `data` is None when the attachment cannot be fetched. */
  datatype Attachment = Attachment(id: string, data: Option<string>)

  datatype Message = Message(id: nat, attachments: seq<Attachment>)

  predicate Understood(codec: Codec, line: string) {
    line != "" && codec.decode(line).Some? && !codec.decode(line).value.kind.UnknownTx?
  }

  /** The lines that carry a transaction of a known kind. */
  function GoodLines(codec: Codec, lines: seq<string>): seq<string> {
    if lines == [] then []
    else
      var last := lines[|lines| - 1];
      GoodLines(codec, lines[..|lines| - 1]) + if Understood(codec, last) then [last] else []
  }

  /** The transactions those lines carry. */
  function Decoded(codec: Codec, lines: seq<string>): seq<Tx> {
    if lines == [] then []
    else
      var last := lines[|lines| - 1];
      Decoded(codec, lines[..|lines| - 1]) +
      if Understood(codec, last) then [codec.decode(last).value] else []
  }

  function AttachmentLines(atts: seq<Attachment>): seq<string> {
    if atts == [] then []
    else
      var data := atts[|atts| - 1].data;
      AttachmentLines(atts[..|atts| - 1]) + if data.Some? then Lines(data.value) else []
  }

  lemma AttachmentNext(atts: seq<Attachment>, a: nat)
    requires a < |atts|
    ensures
      var before, next := AttachmentLines(atts[..a]), AttachmentLines(atts[..a + 1]);
      next == if atts[a].data.Some? then before + Lines(atts[a].data.value) else before
  {
    assert atts[..a + 1][..a] == atts[..a];
  }

  /** Messages, then attachments, then lines. */
  function MessageLines(ms: seq<Message>): seq<string> {
    if ms == [] then []
    else MessageLines(ms[..|ms| - 1]) + AttachmentLines(ms[|ms| - 1].attachments)
  }

  lemma {:induction false} AttachmentLinesHaveNoNewline(atts: seq<Attachment>)
    ensures forall line :: line in AttachmentLines(atts) ==> '\n' !in line
  {
    if atts != [] {
      AttachmentLinesHaveNoNewline(atts[..|atts| - 1]);
      var data := atts[|atts| - 1].data;
      if data.Some? {
        LinesHaveNoNewline(data.value);
      }
    }
  }

  lemma {:induction false} MessageLinesHaveNoNewline(ms: seq<Message>)
    ensures forall line :: line in MessageLines(ms) ==> '\n' !in line
  {
    if ms != [] {
      MessageLinesHaveNoNewline(ms[..|ms| - 1]);
      AttachmentLinesHaveNoNewline(ms[|ms| - 1].attachments);
    }
  }

  function TxsOf(codec: Codec, ms: seq<Message>): seq<Tx> {
    Decoded(codec, MessageLines(ms))
  }

  lemma {:induction false} DecodedConcat(codec: Codec, a: seq<string>, b: seq<string>)
    ensures Decoded(codec, a + b) == Decoded(codec, a) + Decoded(codec, b)
    ensures GoodLines(codec, a + b) == GoodLines(codec, a) + GoodLines(codec, b)
  {
    if b == [] {
      assert a + b == a;
    } else {
      var n := |b| - 1;
      ConcatLast(a, b);
      DecodedConcat(codec, a, b[..n]);
    }
  }

  /** The paths a sequence of transactions deletes. */
  function Deleted(txs: seq<Tx>): set<string> {
    set tx | tx in txs && tx.kind.DeleteTx? :: tx.path
  }

  /** `db`, `open` and `buffer` are what the lines `done` leave of `db0` and `open0`. */
  ghost predicate FoldedTo(codec: Codec, done: seq<string>, live: bool, db0: Db, open0: set<string>,
                           db: Db, open: set<string>, buffer: string)
  {
    && db == Replay(db0, Decoded(codec, done))
    && open == (if live then open0 - Deleted(Decoded(codec, done)) else open0)
    && buffer == Joined(GoodLines(codec, done))
  }

  lemma FoldSkip(codec: Codec, done: seq<string>, line: string)
    requires !Understood(codec, line)
    ensures Decoded(codec, done + [line]) == Decoded(codec, done)
    ensures GoodLines(codec, done + [line]) == GoodLines(codec, done)
  {}

  /** A blank line, one that does not decode and one of an unknown kind leave no trace, wherever they are. */
  lemma SkippedLine(codec: Codec, before: seq<string>, line: string, later: seq<string>)
    requires line == "" || codec.decode(line).None? || codec.decode(line).value.kind.UnknownTx?
    ensures Decoded(codec, before + [line] + later) == Decoded(codec, before + later)
    ensures GoodLines(codec, before + [line] + later) == GoodLines(codec, before + later)
  {
    FoldSkip(codec, before, line);
    DecodedConcat(codec, before + [line], later);
    DecodedConcat(codec, before, later);
  }

  /** Any other line adds its transaction at its place. */
  lemma TakenLine(codec: Codec, before: seq<string>, line: string, tx: Tx, later: seq<string>)
    requires line != "" && codec.decode(line) == Some(tx) && (tx.kind.WriteTx? || tx.kind.DeleteTx?)
    ensures Decoded(codec, before + [line] + later) == Decoded(codec, before) + [tx] + Decoded(codec, later)
    ensures GoodLines(codec, before + [line] + later) == GoodLines(codec, before) + [line] + GoodLines(codec, later)
  {
    DecodedConcat(codec, before + [line], later);
    DecodedConcat(codec, before, [line]);
    assert [line][..0] == [];
  }

  lemma KnownLine(codec: Codec, done: seq<string>, line: string)
    requires Understood(codec, line)
    ensures Decoded(codec, done + [line]) == Decoded(codec, done) + [codec.decode(line).value]
    ensures Joined(GoodLines(codec, done + [line])) == Joined(GoodLines(codec, done)) + line + "\n"
  {
    var next, good := done + [line], GoodLines(codec, done);
    assert next[..|next| - 1] == done;
    assert GoodLines(codec, next) == good + [line];
    assert (good + [line])[..|good|] == good;
  }

  lemma DeletedSnoc(txs: seq<Tx>, tx: Tx)
    ensures Deleted(txs + [tx]) == Deleted(txs) + if tx.kind.DeleteTx? then {tx.path} else {}
  {
    assert forall t :: t in txs + [tx] <==> t in txs || t == tx;
  }

  lemma FoldKnown(codec: Codec, done: seq<string>, live: bool, db0: Db, open0: set<string>,
                  db: Db, open: set<string>, buffer: string, line: string)
    requires FoldedTo(codec, done, live, db0, open0, db, open, buffer) && Understood(codec, line)
    ensures
      var tx := codec.decode(line).value;
      var open' := if live && tx.kind.DeleteTx? then open - {tx.path} else open;
      FoldedTo(codec, done + [line], live, db0, open0, Apply(db, tx), open', buffer + line + "\n")
  {
    var txs, tx := Decoded(codec, done), codec.decode(line).value;
    KnownLine(codec, done, line);
    DeletedSnoc(txs, tx);
    assert (txs + [tx])[..|txs|] == txs;
  }

  /** A client's map of paths, with the paths it has open. */
  class Replica {
    var db: Db
    var open: set<string>

    constructor ()
      ensures db == map[] && open == {}
    {
      db, open := map[], {};
    }

    /** The state after the lines `done`, from `db0` and `open0`. */
    ghost predicate Folded(codec: Codec, done: seq<string>, live: bool, db0: Db, open0: set<string>, buffer: string)
      reads this
    {
      FoldedTo(codec, done, live, db0, open0, db, open, buffer)
    }

    /** One line, which goes on to the buffer only if its transaction is of a known kind. */
    method ApplyLine(codec: Codec, line: string, live: bool, buffer: string,
                     ghost done: seq<string>, ghost db0: Db, ghost open0: set<string>)
      returns (buffer': string)
      requires Folded(codec, done, live, db0, open0, buffer)
      modifies this
      ensures Folded(codec, done + [line], live, db0, open0, buffer')
    {
      buffer' := buffer;
      if !Understood(codec, line) {
        FoldSkip(codec, done, line);
      } else {
        FoldKnown(codec, done, live, db0, open0, db, open, buffer, line);
      }
      if line == "" { return; }
      var decoded := codec.decode(line);
      if decoded.None? { return; }
      var tx := decoded.value;
      match tx.kind {
        case WriteTx =>
          db := db[tx.path := tx];
        case DeleteTx =>
          db := db - {tx.path};
          if live { open := open - {tx.path}; }
        case UnknownTx(_) =>
          return;
      }
      buffer' := buffer + line + "\n";
    }

    method ApplyAttachment(codec: Codec, data: string, live: bool, buffer: string,
                           ghost done: seq<string>, ghost db0: Db, ghost open0: set<string>)
      returns (buffer': string)
      requires Folded(codec, done, live, db0, open0, buffer)
      modifies this
      ensures Folded(codec, done + Lines(data), live, db0, open0, buffer')
    {
      var lines := Lines(data);
      buffer' := buffer;
      assert done + lines[..0] == done;
      for l := 0 to |lines|
        invariant Folded(codec, done + lines[..l], live, db0, open0, buffer')
      {
        buffer' := ApplyLine(codec, lines[l], live, buffer', done + lines[..l], db0, open0);
        assert done + lines[..l] + [lines[l]] == done + lines[..l + 1];
      }
      assert lines[..|lines|] == lines;
    }

    /** The attachments of one message; one that cannot be fetched is passed over. */
    method ApplyMessage(codec: Codec, atts: seq<Attachment>, live: bool, buffer: string,
                        ghost done: seq<string>, ghost db0: Db, ghost open0: set<string>)
      returns (buffer': string)
      requires Folded(codec, done, live, db0, open0, buffer)
      modifies this
      ensures Folded(codec, done + AttachmentLines(atts), live, db0, open0, buffer')
    {
      buffer' := buffer;
      assert done + [] == done;
      for a := 0 to |atts|
        invariant Folded(codec, done + AttachmentLines(atts[..a]), live, db0, open0, buffer')
      {
        AttachmentNext(atts, a);
        ghost var before := done + AttachmentLines(atts[..a]);
        if atts[a].data.None? { continue; }
        var data := atts[a].data.value;
        Assoc(done, AttachmentLines(atts[..a]), Lines(data));
        assert before + Lines(data) == done + AttachmentLines(atts[..a + 1]);
        buffer' := ApplyAttachment(codec, data, live, buffer', before, db0, open0);
      }
      assert atts[..|atts|] == atts;
    }

    /**
     Stored and live replay: both fold the understood lines, in order, into the map, and live
     replay also drops deleted paths from the open files. `buffer` gets those lines.
     */
    method ApplyMessageTxs(codec: Codec, ms: seq<Message>, live: bool) returns (buffer: string)
      modifies this
      ensures db == Replay(old(db), TxsOf(codec, ms))
      ensures open == if live then old(open) - Deleted(TxsOf(codec, ms)) else old(open)
      ensures forall p :: p in open <==>
        p in old(open) && !(live && exists tx :: tx in TxsOf(codec, ms) && tx.kind.DeleteTx? && tx.path == p)
      ensures buffer == Joined(GoodLines(codec, MessageLines(ms)))
    {
      buffer := "";
      ghost var db0, open0 := db, open;
      for m := 0 to |ms|
        invariant Folded(codec, MessageLines(ms[..m]), live, db0, open0, buffer)
      {
        ghost var done := MessageLines(ms[..m]);
        buffer := ApplyMessage(codec, ms[m].attachments, live, buffer, done, db0, open0);
        assert ms[..m + 1][..m] == ms[..m];
      }
      assert ms[..|ms|] == ms;
    }
  }
}
