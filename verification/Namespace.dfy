/**
 The namespace: a flat map of paths overlaid by the map of open files, standing for a tree.
 */
module Namespace {
  import opened Prelude
  import opened Transactions
  import opened TxLog
  import opened Paths

  datatype OpenFile = OpenFile(size: nat, mtim: int, ctim: int)

  datatype Ns = Ns(db: Db, open: map<string, OpenFile>)

  datatype Errno = OK | ENOENT | EEXIST | ENOTDIR | EISDIR | ENOTEMPTY

  /** `Commit` is the end of an upload started by Release. */
  datatype Op =
    | Mknod(p: string, file: OpenFile)
    | Mkdir(p: string)
    | Open(p: string)
    | Unlink(p: string)
    | Rmdir(p: string)
    | Rename(p: string, to: string)
    | Commit(p: string, tx: Tx)

  predicate IsFolder(db: Db, p: string) { p in db && db[p].inode.FolderType? }

  /** The test for emptiness: no other key in the map starts with the folder's path. */
  predicate LooksEmpty(db: Db, p: string) {
    forall k :: k in db && p <= k ==> k == p
  }

  function MoveOpen(open: map<string, OpenFile>, p: string, to: string): map<string, OpenFile> {
    if p in open then open[to := open[p]] - {p} else open
  }

  /** The first locked section of Rename; the second follows exactly when there is a record to move. */
  function BeginRename(ns: Ns, p: string, to: string): (Ns, Errno, Option<Tx>)
    requires IsPath(p) && IsPath(to)
  {
    if GetDir(to) !in ns.db then (ns, ENOENT, None)
    else if p !in ns.db then
      if p in ns.open then (ns.(open := MoveOpen(ns.open, p, to)), OK, None) else (ns, ENOENT, None)
    else if IsFolder(ns.db, p) && !LooksEmpty(ns.db, p) then (ns, ENOTEMPTY, None)
    else
      var open := if IsFolder(ns.db, p) then ns.open else MoveOpen(ns.open, p, to);
      (ns.(open := open), OK, Some(ns.db[p].(path := to)))
  }

  function EndRename(ns: Ns, p: string, to: string, moved: Tx): Ns {
    ns.(db := ns.db[to := moved] - {p})
  }

  /** What an operation does and returns. Opening an unknown path returns EEXIST, as the code has it. */
  function Step(ns: Ns, op: Op): (Ns, Errno)
    requires IsPath(op.p) && (op.Rename? ==> IsPath(op.to))
  {
    var p := op.p;
    match op
    case Mknod(_, file) =>
      if p in ns.open then (ns, EEXIST)
      else if GetDir(p) !in ns.db then (ns, ENOENT)
      else if p in ns.db then (ns, EEXIST)
      else (ns.(open := ns.open[p := file]), OK)
    case Mkdir(_) =>
      if GetDir(p) !in ns.db then (ns, ENOENT)
      else if p in ns.db then (ns, EEXIST)
      else (ns.(db := ns.db[p := CreateFolderTx(p)]), OK)
    case Open(_) =>
      if p in ns.open then (ns, OK)
      else if p !in ns.db then (ns, EEXIST)
      else if IsFolder(ns.db, p) then (ns, OK)
      else
        var tx := ns.db[p];
        (ns.(open := ns.open[p := OpenFile(tx.size, tx.mtim, tx.ctim)]), OK)
    case Unlink(_) =>
      if p !in ns.db then
        if p in ns.open then (ns.(open := ns.open - {p}), OK) else (ns, ENOENT)
      else if IsFolder(ns.db, p) then (ns, EISDIR)
      else (Ns(ns.db - {p}, ns.open - {p}), OK)
    case Rmdir(_) =>
      if p !in ns.db then (ns, ENOENT)
      else if !IsFolder(ns.db, p) then (ns, ENOTDIR)
      else if !LooksEmpty(ns.db, p) then (ns, ENOTEMPTY)
      else (ns.(db := ns.db - {p}), OK)
    case Rename(_, to) =>
      var (mid, err, moved) := BeginRename(ns, p, to);
      (if moved.Some? then EndRename(mid, p, to, moved.value) else mid, err)
    case Commit(_, tx) =>
      (ns.(db := ns.db[p := tx]), OK)
  }

  // ------------------------------------------------------------- the tree shape

  predicate Placed(db: Db, p: string) {
    IsPath(p) && (p != "/" ==> IsFolder(db, Parent(p)))
  }

  ghost predicate DbTree(db: Db) {
    IsFolder(db, "/") && forall p :: p in db ==> Placed(db, p) && db[p].path == p
  }

  ghost predicate OpenTree(db: Db, open: map<string, OpenFile>) {
    forall p :: p in open ==> Placed(db, p) && !IsFolder(db, p)
  }

  /** Every path but the root has a folder for its parent, and no folder is open as a file. */
  ghost predicate Tree(ns: Ns) {
    DbTree(ns.db) && OpenTree(ns.db, ns.open)
  }

  /** An open child; below a folder that looks empty it is in no other map. */
  ghost predicate HasOpenChild(ns: Ns, p: string) {
    exists q :: q in ns.open && IsPath(q) && q != p && Parent(q) == p
  }

  predicate Absent(ns: Ns, p: string) { p !in ns.db && p !in ns.open }

  /**
   What the kernel's own lookup and locking guarantee before it calls; and for the end of an
   upload, that its file is still open under the path it was released under.
   */
  ghost predicate KernelAllows(ns: Ns, op: Op) {
    && IsPath(op.p)
    && match op
       case Mknod(p, _) => p != "/" && IsFolder(ns.db, Parent(p)) && Absent(ns, p)
       case Mkdir(p) => p != "/" && IsFolder(ns.db, Parent(p)) && Absent(ns, p)
       case Rmdir(p) => p != "/"
       case Rename(p, to) =>
         && IsPath(to) && p != "/" && to != "/" && p != to && !(p + "/" <= to)
         && IsFolder(ns.db, Parent(to))
         && (if IsFolder(ns.db, p) then to !in ns.open && (to in ns.db ==> IsFolder(ns.db, to))
             else !IsFolder(ns.db, to))
       case Commit(p, tx) => p in ns.open && tx.path == p && tx.kind.WriteTx? && tx.inode.FileType?
       case _ => true
  }

  /** The case the emptiness test misses. */
  ghost predicate NothingOpenBelow(ns: Ns, op: Op) {
    (op.Rmdir? || op.Rename?) && IsFolder(ns.db, op.p) ==> !HasOpenChild(ns, op.p)
  }

  /** A folder that looks empty has no child in the map. */
  lemma LooksEmptyHasNoChild(db: Db, p: string, q: string)
    requires LooksEmpty(db, p) && q in db && IsPath(q) && q != "/" && IsPath(p)
    ensures Parent(q) != p
  {}

  /** A child of a folder other than the root is inside it. */
  lemma ChildIsInside(p: string, q: string)
    requires IsPath(p) && IsPath(q) && p != "/" && q != "/" && Parent(q) == p
    ensures p + "/" <= q
  {
    PathParts(q);
  }

  lemma PlacedStays(db: Db, db': Db, q: string)
    requires Placed(db, q) && (q != "/" ==> IsFolder(db, Parent(q)) ==> IsFolder(db', Parent(q)))
    ensures Placed(db', q)
  {}

  lemma DbPut(db: Db, p: string, tx: Tx)
    requires DbTree(db) && Placed(db, p) && tx.path == p && (IsFolder(db, p) ==> tx.inode.FolderType?)
    ensures DbTree(db[p := tx])
  {}

  lemma OpenPut(db: Db, open: map<string, OpenFile>, p: string, tx: Tx)
    requires OpenTree(db, open) && (IsFolder(db, p) ==> tx.inode.FolderType?)
    requires tx.inode.FolderType? ==> p !in open
    ensures OpenTree(db[p := tx], open)
  {}

  /** Adding or replacing an entry of the same type, at a place in the tree. */
  lemma TreePut(db: Db, open: map<string, OpenFile>, p: string, tx: Tx)
    requires DbTree(db) && OpenTree(db, open) && Placed(db, p) && tx.path == p
    requires IsFolder(db, p) ==> tx.inode.FolderType?
    requires tx.inode.FolderType? ==> p !in open
    ensures DbTree(db[p := tx]) && OpenTree(db[p := tx], open)
  {
    DbPut(db, p, tx);
    OpenPut(db, open, p, tx);
  }

  lemma TreeDropFile(db: Db, open: map<string, OpenFile>, p: string)
    requires DbTree(db) && OpenTree(db, open) && !IsFolder(db, p)
    ensures DbTree(db - {p}) && OpenTree(db - {p}, open)
  {
    var db' := db - {p};
    forall q | IsFolder(db, q) ensures IsFolder(db', q) {}
    forall q | q in db' || q in open ensures Placed(db', q) {
      PlacedStays(db, db', q);
    }
  }

  lemma DropFolderDb(db: Db, p: string)
    requires DbTree(db) && LooksEmpty(db, p) && IsPath(p) && p != "/"
    ensures DbTree(db - {p})
  {
    forall q | q in db && q != p ensures Placed(db - {p}, q) {
      if q != "/" { LooksEmptyHasNoChild(db, p, q); }
      PlacedStays(db, db - {p}, q);
    }
  }

  lemma DropFolderOpen(db: Db, open: map<string, OpenFile>, p: string)
    requires OpenTree(db, open) && IsFolder(db, p) && IsPath(p)
    ensures OpenTree(db - {p}, open) <==> !HasOpenChild(Ns(db, open), p)
  {}

  lemma TreeMoveOpen(db: Db, open: map<string, OpenFile>, p: string, to: string)
    requires OpenTree(db, open) && Placed(db, to) && !IsFolder(db, to)
    ensures OpenTree(db, MoveOpen(open, p, to))
  {}

  /** Removing a folder that looks empty leaves a tree exactly when no child of it is open. */
  lemma RmdirExact(ns: Ns, p: string)
    requires Tree(ns) && IsPath(p) && p != "/" && Step(ns, Rmdir(p)).1 == OK
    ensures Tree(Step(ns, Rmdir(p)).0) <==> !HasOpenChild(ns, p)
  {
    DropFolderDb(ns.db, p);
    DropFolderOpen(ns.db, ns.open, p);
    assert ns == Ns(ns.db, ns.open);
  }

  lemma MovedFolderDb(db: Db, p: string, to: string, tx: Tx)
    requires DbTree(db) && LooksEmpty(db, p) && IsPath(p) && p != "/"
    requires Placed(db, to) && to != p && to != "/" && Parent(to) != p
    requires tx.path == to && tx.inode.FolderType?
    ensures DbTree(db[to := tx] - {p})
  {
    DropFolderDb(db, p);
    var rest := db - {p};
    PlacedStays(db, rest, to);
    DbPut(rest, to, tx);
    PutThenDrop(db, p, to, tx);
  }

  lemma PutThenDrop(db: Db, p: string, to: string, tx: Tx)
    requires to != p
    ensures (db - {p})[to := tx] == db[to := tx] - {p}
  {}

  ghost predicate HasStoredChild(db: Db, p: string) {
    exists q :: q in db && IsPath(q) && q != "/" && Parent(q) == p
  }

  /** Some key goes on from the folder's path with another character than a slash. */
  predicate Continued(db: Db, p: string) {
    exists k :: k in db && p <= k && |p| < |k| && k[|p|] != '/'
  }

  /** Up the chain of parents from anything inside a folder there is a child of it. */
  lemma {:induction false} InsideHasChild(db: Db, p: string, k: string)
    requires DbTree(db) && IsPath(p) && p != "/" && k in db && p + "/" <= k
    ensures HasStoredChild(db, p)
    decreases |k|
  {
    assert Placed(db, k);
    ParentInside(p, k);
    if Parent(k) != p {
      PathParts(k);
      InsideHasChild(db, p, Parent(k));
    }
  }

  lemma ChildIsOther(db: Db, p: string)
    requires IsPath(p) && HasStoredChild(db, p)
    ensures !LooksEmpty(db, p)
  {
    var q :| q in db && IsPath(q) && q != "/" && Parent(q) == p;
    PathParts(q);
    assert p <= q && q != p;
  }

  lemma OtherIsInside(db: Db, p: string, k: string)
    requires DbTree(db) && IsPath(p) && p != "/" && k in db && p <= k && k != p
    ensures Continued(db, p) || HasStoredChild(db, p)
  {
    if k[|p|] == '/' {
      assert k[..|p| + 1] == p + "/";
      InsideHasChild(db, p, k);
    }
  }

  /** What the emptiness test decides: no child in the map, and no key that continues the name. */
  lemma LooksEmptyExactly(db: Db, p: string)
    requires DbTree(db) && IsPath(p) && p != "/"
    ensures LooksEmpty(db, p) <==> !HasStoredChild(db, p) && !Continued(db, p)
  {
    if HasStoredChild(db, p) {
      ChildIsOther(db, p);
    } else if k :| k in db && p <= k && k != p {
      OtherIsInside(db, p, k);
    }
  }

  ghost predicate Childless(ns: Ns, p: string) {
    !HasStoredChild(ns.db, p) && !HasOpenChild(ns, p)
  }

  /** What a failed operation does. */
  lemma RefusedChangesNothing(ns: Ns, op: Op)
    requires IsPath(op.p) && (op.Rename? ==> IsPath(op.to)) && Step(ns, op).1 != OK
    ensures Step(ns, op).0 == ns && Sends(ns, op) == []
  {}

  /** Every answer of Mknod, and what it adds: an open file, and no record. */
  lemma MknodAnswers(ns: Ns, p: string, file: OpenFile)
    requires IsPath(p)
    ensures
      var (t, err) := Step(ns, Mknod(p, file));
      && (err == OK <==> Absent(ns, p) && GetDir(p) in ns.db)
      && (err == ENOENT <==> p !in ns.open && GetDir(p) !in ns.db)
      && (err != OK && err != ENOENT ==> err == EEXIST)
      && (err == OK ==> t.db == ns.db && t.open.Keys == ns.open.Keys + {p} && t.open[p] == file
                        && forall q :: q in ns.open ==> t.open[q] == ns.open[q])
  {}

  /** Every answer of Mkdir, and what it adds: a record of a folder, and no open file. */
  lemma MkdirAnswers(ns: Ns, p: string, q: string)
    requires IsPath(p)
    ensures
      var (t, err) := Step(ns, Mkdir(p));
      && (err == OK <==> p !in ns.db && GetDir(p) in ns.db)
      && (err == ENOENT <==> GetDir(p) !in ns.db)
      && (err != OK && err != ENOENT ==> err == EEXIST)
      && (err == OK ==> t.open == ns.open && IsFolder(t.db, p) && t.db[p].path == p && t.db[p].kind.WriteTx?)
      && (q != p ==> Lookup(t.db, q) == Lookup(ns.db, q))
  {}

  /** Every answer of Open. A recorded file is open afterwards, with its recorded attributes if it was not. */
  lemma OpenAnswers(ns: Ns, p: string, q: string)
    requires IsPath(p)
    ensures
      var (t, err) := Step(ns, Open(p));
      && t.db == ns.db
      && (err == OK <==> p in ns.db || p in ns.open) && (err != OK ==> err == EEXIST)
      && (q in t.open <==> q in ns.open || (q == p && p in ns.db && !IsFolder(ns.db, p)))
      && (q in ns.open ==> t.open[q] == ns.open[q])
      && (p in t.open && p !in ns.open ==>
            && t.open[p].size == ns.db[p].size
            && t.open[p].mtim == ns.db[p].mtim && t.open[p].ctim == ns.db[p].ctim)
  {}

  /** Every answer of Unlink: also a file that is only open can be removed. */
  lemma UnlinkAnswers(ns: Ns, p: string)
    requires IsPath(p)
    ensures
      var (t, err) := Step(ns, Unlink(p));
      && (err == OK <==> !Absent(ns, p) && !IsFolder(ns.db, p))
      && (err == EISDIR <==> IsFolder(ns.db, p))
      && (err == ENOENT <==> Absent(ns, p))
      && (err == OK ==> t == Ns(ns.db - {p}, ns.open - {p}))
  {
    assert p !in ns.db ==> ns.db - {p} == ns.db;
  }

  /** Every answer of Rmdir; `RmdirDecides` says what the last one means in a tree. */
  lemma RmdirAnswers(ns: Ns, p: string)
    requires IsPath(p)
    ensures
      var (t, err) := Step(ns, Rmdir(p));
      && (err == ENOENT <==> p !in ns.db)
      && (err == ENOTDIR <==> p in ns.db && !IsFolder(ns.db, p))
      && (err == ENOTEMPTY <==> IsFolder(ns.db, p) && exists k :: k in ns.db && p <= k && k != p)
      && (err == OK <==> IsFolder(ns.db, p) && !exists k :: k in ns.db && p <= k && k != p)
      && (err == OK ==> t == Ns(ns.db - {p}, ns.open))
  {}

  /**
   A file, recorded or only open, can be renamed to any name, taken or not, whose directory the
   program finds.
   */
  lemma RenameFileDecides(ns: Ns, p: string, to: string)
    requires IsPath(p) && IsPath(to) && !IsFolder(ns.db, p)
    ensures Step(ns, Rename(p, to)).1 == OK <==> GetDir(to) in ns.db && !Absent(ns, p)
    ensures Step(ns, Rename(p, to)).1 != OK ==> Step(ns, Rename(p, to)) == (ns, ENOENT)
  {}

  /** What a rename does to the record of every path and to every open file. */
  lemma RenameRecords(ns: Ns, p: string, to: string, q: string)
    requires IsPath(p) && IsPath(to) && p != to && Step(ns, Rename(p, to)).1 == OK
    ensures
      var t := Step(ns, Rename(p, to)).0;
      && Lookup(t.db, q) ==
           (if p !in ns.db then Lookup(ns.db, q)
            else if q == p then None
            else if q == to then Some(ns.db[p].(path := to))
            else Lookup(ns.db, q))
      && (if p in ns.open && !IsFolder(ns.db, p)
          then
            && (q in t.open <==> q == to || (q != p && q in ns.open))
            && (q in t.open ==> t.open[q] == if q == to then ns.open[p] else ns.open[q])
          else t.open == ns.open)
  {}

  /** When the emptiness test is right about a folder. */
  ghost predicate JudgedRight(ns: Ns, p: string) {
    HasStoredChild(ns.db, p) || (HasOpenChild(ns, p) <==> Continued(ns.db, p))
  }

  /** A folder can be removed exactly when it is childless, if and only if the test is right. */
  lemma RmdirDecides(ns: Ns, p: string)
    requires Tree(ns) && IsPath(p) && p != "/" && IsFolder(ns.db, p)
    ensures Step(ns, Rmdir(p)).1 == OK <==> !HasStoredChild(ns.db, p) && !Continued(ns.db, p)
    ensures (Step(ns, Rmdir(p)).1 == OK <==> Childless(ns, p)) <==> JudgedRight(ns, p)
  {
    LooksEmptyExactly(ns.db, p);
  }

  /** The same for renaming it, where the program finds the target's folder. */
  lemma RenameFolderDecides(ns: Ns, p: string, to: string)
    requires Tree(ns) && KernelAllows(ns, Rename(p, to)) && IsFolder(ns.db, p)
    ensures
      var ok := Step(ns, Rename(p, to)).1 == OK;
      && (ok <==> GetDir(to) in ns.db && !HasStoredChild(ns.db, p) && !Continued(ns.db, p))
      && (GetDir(to) in ns.db ==> ((ok <==> Childless(ns, p)) <==> JudgedRight(ns, p)))
  {
    LooksEmptyExactly(ns.db, p);
  }

  /** Renaming a folder leaves a tree exactly when no child of it is open. */
  lemma RenameFolderExact(ns: Ns, p: string, to: string)
    requires Tree(ns) && KernelAllows(ns, Rename(p, to)) && IsFolder(ns.db, p)
    requires Step(ns, Rename(p, to)).1 == OK
    ensures Tree(Step(ns, Rename(p, to)).0) <==> !HasOpenChild(ns, p)
  {
    var tx := ns.db[p].(path := to);
    if Parent(to) == p { ChildIsInside(p, to); }
    MovedFolderDb(ns.db, p, to, tx);
    OpenPut(ns.db, ns.open, to, tx);
    DropFolderOpen(ns.db[to := tx], ns.open, p);
    assert HasOpenChild(Ns(ns.db[to := tx], ns.open), p) <==> HasOpenChild(ns, p);
  }

  lemma RenameFileTree(ns: Ns, p: string, to: string)
    requires Tree(ns) && KernelAllows(ns, Rename(p, to)) && !IsFolder(ns.db, p)
    ensures Tree(Step(ns, Rename(p, to)).0)
  {
    TreeMoveOpen(ns.db, ns.open, p, to);
    var open := MoveOpen(ns.open, p, to);
    if p in ns.db {
      var tx := ns.db[p].(path := to);
      TreePut(ns.db, open, to, tx);
      TreeDropFile(ns.db[to := tx], open, p);
    }
  }

  lemma OtherStepsTree(ns: Ns, op: Op)
    requires Tree(ns) && KernelAllows(ns, op) && !op.Rmdir? && !op.Rename?
    ensures Tree(Step(ns, op).0)
  {
    match op
    case Mkdir(p) => TreePut(ns.db, ns.open, p, CreateFolderTx(p));
    case Unlink(p) =>
      if p in ns.db && !IsFolder(ns.db, p) {
        TreeDropFile(ns.db, ns.open - {p}, p);
      }
    case Commit(p, tx) => TreePut(ns.db, ns.open, p, tx);
    case _ =>
  }

  lemma StepTree(ns: Ns, op: Op)
    requires Tree(ns) && KernelAllows(ns, op) && NothingOpenBelow(ns, op)
    ensures Tree(Step(ns, op).0)
  {
    match op
    case Rmdir(p) => if Step(ns, op).1 == OK { RmdirExact(ns, p); }
    case Rename(p, to) =>
      if !IsFolder(ns.db, p) {
        RenameFileTree(ns, p, to);
      } else if Step(ns, op).1 == OK {
        RenameFolderExact(ns, p, to);
      }
    case _ => OtherStepsTree(ns, op);
  }

  /** The tree shape survives every run of local operations. */
  lemma {:induction false} RunTree(states: seq<Ns>, ops: seq<Op>)
    requires |states| == |ops| + 1 && Tree(states[0])
    requires forall i :: 0 <= i < |ops| ==>
      && KernelAllows(states[i], ops[i]) && NothingOpenBelow(states[i], ops[i])
      && states[i + 1] == Step(states[i], ops[i]).0
    ensures Tree(states[|ops|])
  {
    if ops != [] {
      var n := |ops| - 1;
      RunTree(states[..n + 1], ops[..n]);
      StepTree(states[n], ops[n]);
    }
  }

  lemma FreshTree()
    ensures Tree(Ns(map["/" := CreateFolderTx("/")], map[]))
  {}

  // ---------------------------------------------------------------- deviations

  /** A sibling whose name merely continues the folder's blocks its removal. */
  lemma SiblingBlocksRmdir(ns: Ns, p: string, more: string)
    requires IsPath(p) && IsFolder(ns.db, p) && more != "" && p + more in ns.db
    ensures Step(ns, Rmdir(p)) == (ns, ENOTEMPTY)
  {}

  /** Where the kernel would create, the program does so exactly when it finds what it takes for the parent. */
  lemma CreationExact(ns: Ns, op: Op)
    requires Tree(ns) && KernelAllows(ns, op) && (op.Mknod? || op.Mkdir?)
    ensures Step(ns, op).1 == OK <==> '\\' !in Parent(op.p) || GetDir(op.p) in ns.db
    ensures Step(ns, op).1 != OK ==> Step(ns, op) == (ns, ENOENT)
  {
    GetDirExactly(op.p);
  }

  /** In a folder of the root with a backslash in its name, as in /a\b, nothing can be created. */
  lemma BackslashMkdirWitness(name: string, inner: string)
    requires '\\' in name && '/' !in name && inner != "" && '/' !in inner
    ensures IsPath("/" + name) && IsPath("/" + name + "/" + inner)
    ensures
      var e, f := "/" + name, "/" + name + "/" + inner;
      var ns := Ns(map["/" := CreateFolderTx("/"), e := CreateFolderTx(e)], map[]);
      && Tree(ns) && KernelAllows(ns, Mkdir(f)) && Step(ns, Mkdir(f)) == (ns, ENOENT)
  {
    RootChild(name);
    ChildPath("/" + name, inner);
    OneFolderTree("/" + name);
    NothingMadeIn("/" + name, "/" + name + "/" + inner);
  }

  lemma NothingMadeIn(e: string, f: string)
    requires IsPath(e) && IsPath(f) && e != "/" && f != "/" && f != e && Parent(f) == e && '\\' in e
    ensures
      var ns := Ns(map["/" := CreateFolderTx("/"), e := CreateFolderTx(e)], map[]);
      KernelAllows(ns, Mkdir(f)) && Step(ns, Mkdir(f)) == (ns, ENOENT)
  {
    assert |GetDir(f)| == |e| && '\\' !in GetDir(f);
  }

  lemma OneFolderTree(e: string)
    requires IsPath(e) && e != "/" && Parent(e) == "/"
    ensures Tree(Ns(map["/" := CreateFolderTx("/"), e := CreateFolderTx(e)], map[]))
  {
    var db := map["/" := CreateFolderTx("/"), e := CreateFolderTx(e)];
    assert Placed(db, e) && Placed(db, "/") && Parent("/") == "/";
  }

  /** Two folders in the root, as with /foo and /foobar: the shorter one is empty and stays. */
  lemma FooBarWitness(name: string, more: string)
    requires name != "" && more != "" && '/' !in name && '/' !in more
    ensures IsPath("/" + name) && IsPath("/" + name + more)
    ensures
      var p, q := "/" + name, "/" + name + more;
      var ns := Ns(map["/" := CreateFolderTx("/"), p := CreateFolderTx(p), q := CreateFolderTx(q)], map[]);
      && Tree(ns) && Step(ns, Rmdir(p)) == (ns, ENOTEMPTY)
      && forall k :: k in ns.db && IsPath(k) && k != p ==> Parent(k) != p
  {
    var p, q := "/" + name, "/" + name + more;
    assert q == "/" + (name + more);
    RootChild(name);
    RootChild(name + more);
    var db := map["/" := CreateFolderTx("/"), p := CreateFolderTx(p), q := CreateFolderTx(q)];
    assert p <= q && p != q && q in db;
    assert Placed(db, p) && Placed(db, q) && Placed(db, "/");
    assert Parent("/") == "/";
  }

  /** An upload that ends after its file and folder are gone leaves a path without a parent. */
  lemma LateCommitOrphans(ns: Ns, p: string, tx: Tx)
    requires Tree(ns) && IsPath(p) && p != "/" && p in ns.db && !IsFolder(ns.db, p) && Parent(p) != "/"
    requires forall q :: q in ns.db && Parent(p) <= q ==> q == Parent(p) || q == p
    ensures IsPath(Parent(p))
    ensures
      var a := Step(ns, Unlink(p));
      var b := Step(a.0, Rmdir(Parent(p)));
      a.1 == OK && b.1 == OK && !Tree(Step(b.0, Commit(p, tx)).0)
  {
    PathParts(p);
    var d := Parent(p);
    assert Placed(ns.db, p);
    var b := Step(Step(ns, Unlink(p)).0, Rmdir(d)).0;
    var c := Step(b, Commit(p, tx)).0;
    assert d !in c.db && p in c.db && !Placed(c.db, p);
  }

  /** The end of an upload leaves a tree exactly when the folder of its path is still there. */
  lemma CommitExact(ns: Ns, p: string, tx: Tx)
    requires Tree(ns) && IsPath(p) && p != "/" && !IsFolder(ns.db, p)
    requires tx.path == p && tx.inode.FileType?
    ensures Tree(Step(ns, Commit(p, tx)).0) <==> IsFolder(ns.db, Parent(p))
  {
    var ns' := Step(ns, Commit(p, tx)).0;
    if IsFolder(ns.db, Parent(p)) {
      TreePut(ns.db, ns.open, p, tx);
    } else {
      PathParts(p);
      assert p in ns'.db && !IsFolder(ns'.db, Parent(p));
    }
  }

  /** Whatever came in between, the second section of a file's rename leaves a tree exactly
      when the target's folder is still there. */
  lemma EndRenameExact(ns: Ns, p: string, to: string, moved: Tx)
    requires Tree(ns) && IsPath(p) && IsPath(to) && p != "/" && to != "/" && p != to
    requires !IsFolder(ns.db, p) && !IsFolder(ns.db, to) && moved.path == to && moved.inode.FileType?
    ensures Tree(EndRename(ns, p, to, moved)) <==> IsFolder(ns.db, Parent(to))
  {
    if IsFolder(ns.db, Parent(to)) {
      TreePut(ns.db, ns.open, to, moved);
      TreeDropFile(ns.db[to := moved], ns.open, p);
    } else {
      PathParts(to);
      var db' := EndRename(ns, p, to, moved).db;
      assert to in db' && !IsFolder(db', Parent(to));
    }
  }

  // ------------------------------------------------------ links to the log

  predicate AllWrites(db: Db) {
    forall q :: q in db ==> db[q].kind.WriteTx?
  }

  /** The transactions an operation sends. */
  function Sends(ns: Ns, op: Op): seq<Tx>
    requires IsPath(op.p) && (op.Rename? ==> IsPath(op.to))
  {
    if Step(ns, op).1 != OK then []
    else
      match op
      case Mkdir(p) => [CreateFolderTx(p)]
      case Unlink(p) => if p in ns.db then [CreateDeleteTx(p)] else []
      case Rmdir(p) => [CreateDeleteTx(p)]
      case Rename(p, to) =>
        if p in ns.db then [ns.db[p].(path := to), CreateDeleteTx(p)] else []
      case Commit(_, tx) => [tx]
      case _ => []
  }

  lemma ReplayTwo(db: Db, a: Tx, b: Tx)
    ensures Replay(db, [a]) == Apply(db, a)
    ensures Replay(db, [a, b]) == Apply(Apply(db, a), b)
  {}

  /**
   Nothing is sent in vain, and no change is kept back: a removal or a creation sends one
   transaction, about the record it changes; a rename of a recorded path two, the new name first.
   */
  lemma SendsExactly(ns: Ns, op: Op)
    requires IsPath(op.p) && (op.Rename? ==> IsPath(op.to) && op.to != op.p) && AllWrites(ns.db)
    ensures
      var sends, db := Sends(ns, op), Step(ns, op).0.db;
      && (op.Mknod? || op.Open? ==> sends == [])
      && (op.Commit? ==> sends == [op.tx])
      && (op.Mkdir? || op.Unlink? || op.Rmdir? ==>
            && |sends| == (if db == ns.db then 0 else 1)
            && forall tx :: tx in sends ==> tx.path == op.p && (tx.kind.WriteTx? <==> op.Mkdir?))
      && (op.Rename? ==>
            if Step(ns, op).1 == OK && op.p in ns.db
            then |sends| == 2 && sends[0] == ns.db[op.p].(path := op.to) && sends[1] == CreateDeleteTx(op.p)
            else sends == [])
  {
    if op.Mkdir? || op.Unlink? || op.Rmdir? {
      var db := Step(ns, op).0.db;
      assert Step(ns, op).1 == OK && (op.Mkdir? || op.p in ns.db) ==> (op.p in db <==> op.p !in ns.db);
    }
  }

  /** Every operation changes the map of paths as the replay of what it sends does. */
  lemma LocalIsReplay(ns: Ns, op: Op)
    requires IsPath(op.p) && (op.Rename? ==> IsPath(op.to))
    requires AllWrites(ns.db)
    requires op.Commit? ==> op.tx.kind.WriteTx? && op.tx.path == op.p
    ensures Step(ns, op).0.db == Replay(ns.db, Sends(ns, op))
  {
    var sends := Sends(ns, op);
    if sends != [] {
      ReplayTwo(ns.db, sends[0], sends[|sends| - 1]);
      assert sends == [sends[0]] || sends == [sends[0], sends[1]];
    }
  }

  /**
   An upload that ends between the two sections of its file's rename is wiped from the map. That
   is what replay gives if its transaction precedes those of the rename, and not if it follows.
   */
  lemma CommitInsideRename(ns: Ns, p: string, to: string, tx: Tx)
    requires IsPath(p) && IsPath(to) && p != to && AllWrites(ns.db)
    requires BeginRename(ns, p, to).2.Some? && tx.kind.WriteTx? && tx.path == p
    ensures
      var (mid, _, moved) := BeginRename(ns, p, to);
      var last := EndRename(Step(mid, Commit(p, tx)).0, p, to, moved.value).db;
      var sends := Sends(ns, Rename(p, to));
      && p !in last
      && last == Replay(ns.db, [tx] + sends)
      && last != Replay(ns.db, sends + [tx])
  {
    var (mid, _, moved) := BeginRename(ns, p, to);
    var last := EndRename(Step(mid, Commit(p, tx)).0, p, to, moved.value).db;
    var sends := Sends(ns, Rename(p, to));
    assert sends == [moved.value, CreateDeleteTx(p)];
    ReplayTwo(ns.db, tx, tx);
    ReplayTwo(ns.db[p := tx], moved.value, CreateDeleteTx(p));
    ReplayConcat(ns.db, [tx], sends);
    ReplayConcat(ns.db, sends, [tx]);
    ReplayTwo(Replay(ns.db, sends), tx, tx);
    assert p in Replay(ns.db, sends + [tx]);
  }

  predicate SendsOwnPath(op: Op) {
    && IsPath(op.p) && (op.Rename? ==> IsPath(op.to))
    && (op.Commit? ==> op.tx.kind.WriteTx? && op.tx.path == op.p)
  }

  /** Step `i` of a run. */
  predicate StepsAt(states: seq<Ns>, ops: seq<Op>, i: nat)
    requires i < |ops| && i + 1 < |states|
  {
    SendsOwnPath(ops[i]) && states[i + 1] == Step(states[i], ops[i]).0
  }

  /** A run of local operations, whatever they return. */
  ghost predicate IsOpRun(states: seq<Ns>, ops: seq<Op>) {
    |states| == |ops| + 1 && forall i :: 0 <= i < |ops| ==> StepsAt(states, ops, i)
  }

  lemma OpRunPrefix(states: seq<Ns>, ops: seq<Op>)
    requires IsOpRun(states, ops) && ops != []
    ensures IsOpRun(states[..|ops|], ops[..|ops| - 1])
  {
    var n := |ops| - 1;
    var front, done := states[..n + 1], ops[..n];
    forall i | 0 <= i < n ensures StepsAt(front, done, i) {
      assert StepsAt(states, ops, i);
    }
  }

  /** Everything a run sends, in order. */
  function AllSends(states: seq<Ns>, ops: seq<Op>): seq<Tx>
    requires IsOpRun(states, ops)
  {
    if ops == [] then []
    else
      var n := |ops| - 1;
      OpRunPrefix(states, ops);
      assert StepsAt(states, ops, n);
      AllSends(states[..n + 1], ops[..n]) + Sends(states[n], ops[n])
  }

  lemma StepKeepsWrites(ns: Ns, op: Op)
    requires AllWrites(ns.db) && SendsOwnPath(op)
    ensures AllWrites(Step(ns, op).0.db)
  {}

  /** The log of a run of local operations rebuilds its map of paths. */
  lemma {:induction false} RunIsReplay(states: seq<Ns>, ops: seq<Op>)
    requires IsOpRun(states, ops) && AllWrites(states[0].db)
    ensures AllWrites(states[|ops|].db)
    ensures states[|ops|].db == Replay(states[0].db, AllSends(states, ops))
  {
    if ops != [] {
      var n := |ops| - 1;
      OpRunPrefix(states, ops);
      RunIsReplay(states[..n + 1], ops[..n]);
      assert StepsAt(states, ops, n);
      StepKeepsWrites(states[n], ops[n]);
      LocalIsReplay(states[n], ops[n]);
      ReplayConcat(states[0].db, AllSends(states[..n + 1], ops[..n]), Sends(states[n], ops[n]));
    }
  }

  lemma MoveBack(open: map<string, OpenFile>, p: string, to: string)
    requires to !in open && p != to
    ensures MoveOpen(MoveOpen(open, p, to), to, p) == open
  {}

  lemma MapBack(db: Db, p: string, to: string)
    requires p in db && to !in db && db[p].path == p
    ensures
      var there := db[to := db[p].(path := to)] - {p};
      there[p := there[to].(path := p)] - {to} == db
  {}

  /**
   Renaming a file to an absent name and back restores everything, exactly when the program
   finds what it takes for the two parents.
   */
  lemma RenameBackExact(ns: Ns, p: string, to: string)
    requires Tree(ns) && KernelAllows(ns, Rename(p, to)) && p in ns.db && !IsFolder(ns.db, p) && Absent(ns, to)
    ensures
      var there := Step(ns, Rename(p, to));
      && (there.1 == OK <==> GetDir(to) in ns.db)
      && (there.1 == OK ==> (Step(there.0, Rename(to, p)) == (ns, OK) <==> GetDir(p) in there.0.db))
  {
    assert Placed(ns.db, p) && ns.db[p].path == p;
    MoveBack(ns.open, p, to);
    MapBack(ns.db, p, to);
  }

  /** No folder has a backslash in its name, or in that of a folder above it. */
  predicate PlainFolders(db: Db) {
    forall p :: p in db && IsFolder(db, p) ==> '\\' !in p
  }

  lemma RenameBack(ns: Ns, p: string, to: string)
    requires Tree(ns) && KernelAllows(ns, Rename(p, to)) && p in ns.db && !IsFolder(ns.db, p) && Absent(ns, to)
    requires PlainFolders(ns.db)
    ensures
      var there := Step(ns, Rename(p, to));
      there.1 == OK && Step(there.0, Rename(to, p)) == (ns, OK)
  {
    assert Placed(ns.db, p);
    GetDirExactly(p);
    GetDirExactly(to);
    RenameBackExact(ns, p, to);
    assert Parent(p) != p && Parent(p) in Step(ns, Rename(p, to)).0.db;
  }
}
