/** The file system object: its operations on the map of paths and the open files. */
module FileSystem {
  import opened Prelude
  import opened Transactions
  import opened TxLog
  import opened Paths
  import opened Namespace

  predicate NoDuplicates<T(==)>(s: seq<T>) {
    forall i, j :: 0 <= i < j < |s| ==> s[i] != s[j]
  }

  /** Keys in whatever order a map yields them. */
  method SomeOrder(keys: set<string>) returns (order: seq<string>)
    ensures NoDuplicates(order) && forall k :: k in order <==> k in keys
  {
    order := [];
    var left := keys;
    while left != {}
      invariant left <= keys && NoDuplicates(order)
      invariant forall k :: k in order <==> k in keys && k !in left
      decreases left
    {
      var k :| k in left;
      order := order + [k];
      left := left - {k};
    }
  }

  /** The simple map behind the DB interface. */
  class MapDB {
    var mapDB: Db

    constructor ()
      ensures mapDB == map[]
    {
      mapDB := map[];
    }

    method Get(key: string) returns (tx: Option<Tx>)
      ensures tx == Lookup(mapDB, key)
    {
      tx := if key in mapDB then Some(mapDB[key]) else None;
    }

    method Insert(key: string, tx: Tx)
      modifies this
      ensures mapDB == old(mapDB)[key := tx]
    {
      mapDB := mapDB[key := tx];
    }

    method Delete(key: string)
      modifies this
      ensures mapDB == old(mapDB) - {key}
    {
      mapDB := mapDB - {key};
    }

    /** Every key with the prefix once, in no particular order. */
    method Iterator(prefix: string) returns (keys: seq<string>)
      ensures NoDuplicates(keys)
      ensures forall k :: k in keys <==> k in mapDB && prefix <= k
    {
      keys := SomeOrder(set k | k in mapDB && prefix <= k);
    }
  }

  datatype Stat = Stat(folder: bool, size: nat, ctim: int, mtim: int)

  const FOLDER_STAT := Stat(true, 0, 0, 0)

  function TxStat(tx: Tx): Stat {
    if tx.inode.FileType? then Stat(false, tx.size, tx.ctim, tx.mtim) else FOLDER_STAT
  }

  function OpenStat(file: OpenFile): Stat {
    Stat(false, file.size, file.ctim, file.mtim)
  }

  /** The attributes of a path: those of the open file if there is one. */
  function StatOf(ns: Ns, p: string): Option<Stat> {
    if p in ns.open then Some(OpenStat(ns.open[p]))
    else if p in ns.db then Some(TxStat(ns.db[p]))
    else None
  }

  datatype Entry = Entry(name: string, stat: Option<Stat>)

  /** What a listing needs of the maps; orphans and children of removed folders are allowed. */
  ghost predicate CleanKeys(ns: Ns) {
    "/" !in ns.open && forall k :: k in ns.db || k in ns.open ==> IsPath(k)
  }

  /** Every operation keeps it, whatever the kernel checked, short of making the root a file. */
  lemma CleanKeysStay(ns: Ns, op: Op)
    requires CleanKeys(ns) && IsPath(op.p) && (op.Rename? ==> IsPath(op.to) && op.to != "/")
    requires op.p == "/" ==> !op.Mknod? && (op.Open? ==> IsFolder(ns.db, "/"))
    ensures CleanKeys(Step(ns, op).0)
  {}

  predicate IsChild(ns: Ns, dir: string, k: string) {
    (k in ns.db || k in ns.open) && IsPath(k) && k != dir && Parent(k) == dir
  }

  /** What the program takes for a child: by the slashed parent, and in the map by prefix too. */
  predicate IsListed(ns: Ns, dir: string, k: string) {
    && IsPath(k) && GetDir(k) == dir
    && (k in ns.open || (k in ns.db && dir <= k && k != dir))
  }

  /** A path as a listing shows it: its name, and what Getattr reports for it. */
  predicate Shows(ns: Ns, entry: Entry, k: string) {
    IsPath(k) && entry == Entry(Base(k), StatOf(ns, k))
  }

  /** `entries` describe the paths `keys`, one each. */
  ghost predicate Describes(ns: Ns, entries: seq<Entry>, keys: seq<string>) {
    |entries| == |keys| && forall i :: 0 <= i < |keys| ==> Shows(ns, entries[i], keys[i])
  }

  ghost predicate ShownIn(ns: Ns, entries: seq<Entry>, k: string) {
    exists entry :: entry in entries && Shows(ns, entry, k)
  }

  ghost predicate ShowsAChild(ns: Ns, dir: string, entry: Entry) {
    exists k :: IsChild(ns, dir, k) && Shows(ns, entry, k)
  }

  /** Every child is shown, nothing else is, and no name twice. */
  ghost predicate Lists(ns: Ns, dir: string, entries: seq<Entry>) {
    && (forall k :: IsChild(ns, dir, k) ==> ShownIn(ns, entries, k))
    && (forall entry :: entry in entries ==> ShowsAChild(ns, dir, entry))
    && forall i, j :: 0 <= i < j < |entries| ==> entries[i].name != entries[j].name
  }

  /** `entries` describe what the program takes for the children, once each. */
  ghost predicate ListsTaken(ns: Ns, dir: string, entries: seq<Entry>) {
    exists keys: seq<string> ::
      Describes(ns, entries, keys) && NoDuplicates(keys) && forall k :: k in keys <==> IsListed(ns, dir, k)
  }

  /** No child is under a folder with a backslash, and no open file is taken for another folder's. */
  ghost predicate ListedRight(ns: Ns, dir: string) {
    && (forall k :: IsChild(ns, dir, k) ==> '\\' !in dir)
    && forall k :: k in ns.open && IsPath(k) && GetDir(k) == dir ==> Parent(k) == dir
  }

  class Dsfs {
    const database: MapDB
    var open: map<string, OpenFile>

    ghost function State(): Ns
      reads this, database
    {
      Ns(database.mapDB, open)
    }

    /** A new log starts with the root folder. */
    constructor ()
      ensures fresh(database) && Tree(State()) && State() == Ns(map["/" := CreateFolderTx("/")], map[])
    {
      var db := new MapDB();
      db.Insert("/", CreateFolderTx("/"));
      database, open := db, map[];
      new;
      FreshTree();
    }

    method Mknod(path: string, now: int) returns (err: Errno)
      requires IsPath(path)
      modifies this, database
      ensures (State(), err) == Step(old(State()), Op.Mknod(path, OpenFile(0, now, now)))
    {
      if path in open { return EEXIST; }
      var parent := database.Get(GetDir(path));
      if parent.None? { return ENOENT; }
      var there := database.Get(path);
      if there.Some? { return EEXIST; }
      open := open[path := OpenFile(0, now, now)];
      err := OK;
    }

    method Mkdir(path: string) returns (err: Errno)
      requires IsPath(path)
      modifies this, database
      ensures (State(), err) == Step(old(State()), Op.Mkdir(path))
    {
      var parent := database.Get(GetDir(path));
      if parent.None? { return ENOENT; }
      var there := database.Get(path);
      if there.Some? { return EEXIST; }
      database.Insert(path, CreateFolderTx(path));
      err := OK;
    }

    method Open(path: string) returns (err: Errno)
      requires IsPath(path)
      modifies this, database
      ensures (State(), err) == Step(old(State()), Op.Open(path))
    {
      if path in open { return OK; }
      var found := database.Get(path);
      if found.None? { return EEXIST; }
      var tx := found.value;
      if tx.inode.FolderType? { return OK; }
      open := open[path := OpenFile(tx.size, tx.mtim, tx.ctim)];
      err := OK;
    }

    method Unlink(path: string) returns (err: Errno)
      requires IsPath(path)
      modifies this, database
      ensures (State(), err) == Step(old(State()), Op.Unlink(path))
    {
      var found := database.Get(path);
      if found.None? {
        if path in open {
          open := open - {path};
          return OK;
        }
        return ENOENT;
      }
      if found.value.inode.FolderType? { return EISDIR; }
      open := open - {path};
      database.Delete(path);
      err := OK;
    }

    /** The scan that decides emptiness; it stops at the first other key. */
    method FindsOther(path: string) returns (other: bool)
      ensures other <==> !LooksEmpty(database.mapDB, path)
    {
      var keys := database.Iterator(path);
      for i := 0 to |keys|
        invariant forall j :: 0 <= j < i ==> keys[j] == path
      {
        if keys[i] != path {
          assert keys[i] in keys;
          return true;
        }
      }
      other := false;
    }

    method Rmdir(path: string) returns (err: Errno)
      requires IsPath(path)
      modifies this, database
      ensures (State(), err) == Step(old(State()), Op.Rmdir(path))
    {
      var found := database.Get(path);
      if found.None? { return ENOENT; }
      if !found.value.inode.FolderType? { return ENOTDIR; }
      var other := FindsOther(path);
      if other { return ENOTEMPTY; }
      database.Delete(path);
      err := OK;
    }

    /** The first locked section: the checks, and the move of an open file. */
    method BeginRename(oldpath: string, newpath: string) returns (err: Errno, moved: Option<Tx>)
      requires IsPath(oldpath) && IsPath(newpath)
      modifies this, database
      ensures (State(), err, moved) == Namespace.BeginRename(old(State()), oldpath, newpath)
    {
      moved := None;
      var parent := database.Get(GetDir(newpath));
      if parent.None? { return ENOENT, None; }
      var found := database.Get(oldpath);
      if found.None? {
        if oldpath in open {
          open := open[newpath := open[oldpath]];
          open := open - {oldpath};
          return OK, None;
        }
        return ENOENT, None;
      }
      var tx := found.value;
      if tx.inode.FolderType? {
        var other := FindsOther(oldpath);
        if other { return ENOTEMPTY, None; }
      } else if oldpath in open {
        open := open[newpath := open[oldpath]];
        open := open - {oldpath};
      }
      err, moved := OK, Some(tx.(path := newpath));
    }

    /** The second locked section, after the sends have been started. */
    method EndRename(oldpath: string, newpath: string, moved: Tx)
      modifies this, database
      ensures State() == Namespace.EndRename(old(State()), oldpath, newpath, moved)
    {
      database.Insert(newpath, moved);
      database.Delete(oldpath);
    }

    /** Both sections with nothing in between. */
    method Rename(oldpath: string, newpath: string) returns (err: Errno)
      requires IsPath(oldpath) && IsPath(newpath)
      modifies this, database
      ensures (State(), err) == Step(old(State()), Op.Rename(oldpath, newpath))
    {
      var moved: Option<Tx>;
      err, moved := BeginRename(oldpath, newpath);
      if moved.Some? {
        EndRename(oldpath, newpath, moved.value);
      }
    }

    method Getattr(path: string) returns (err: Errno, stat: Option<Stat>)
      ensures stat == StatOf(State(), path) && err == if stat.Some? then OK else ENOENT
      ensures err == OK <==> !Absent(State(), path)
      ensures path in open ==>
        && stat.value.size == open[path].size && !stat.value.folder
        && stat.value.ctim == open[path].ctim && stat.value.mtim == open[path].mtim
      ensures path !in open && path in database.mapDB ==>
        var tx := database.mapDB[path];
        && (stat.value.folder <==> IsFolder(database.mapDB, path))
        && (stat.value.folder ==> stat.value.size == stat.value.ctim == stat.value.mtim == 0)
        && (!stat.value.folder ==>
              stat.value.size == tx.size && stat.value.ctim == tx.ctim && stat.value.mtim == tx.mtim)
    {
      if path in open {
        return OK, Some(OpenStat(open[path]));
      }
      var found := database.Get(path);
      if found.None? { return ENOENT, None; }
      err, stat := OK, Some(TxStat(found.value));
    }

    /**
     ".", "..", then whatever is taken for a child once, wherever it is recorded, with the
     attributes Getattr reports for it; the order is that of the maps. Exactly when no
     backslash misleads it, those are the children.
     */
    method Readdir(path: string) returns (entries: seq<Entry>)
      requires IsPath(path) && CleanKeys(State())
      ensures |entries| >= 2 && entries[..2] == [Entry(".", Some(FOLDER_STAT)), Entry("..", None)]
      ensures ListsTaken(State(), path, entries[2..])
      ensures Lists(State(), path, entries[2..]) <==> ListedRight(State(), path)
    {
      var stored, storedKeys := StoredChildren(path);
      var overlaid, openKeys := OpenChildren(path);
      entries := [Entry(".", Some(FOLDER_STAT)), Entry("..", None)];
      Assoc(entries, stored, overlaid);
      entries := entries + stored + overlaid;
      JoinListings(State(), path, stored, storedKeys, overlaid, openKeys);
      ListsExactly(State(), path, stored + overlaid, storedKeys + openKeys);
      assert entries[2..] == stored + overlaid;
    }

    /** The first loop: keys under the prefix, less the open files and what is no child. */
    method StoredChildren(path: string) returns (entries: seq<Entry>, ghost kept: seq<string>)
      requires IsPath(path) && CleanKeys(State())
      ensures Describes(State(), entries, kept) && NoDuplicates(kept)
      ensures forall k :: k in kept <==> k in StoredSet(State(), path)
    {
      entries, kept := [], [];
      ghost var pick := StoredSet(State(), path);
      var keys := database.Iterator(path);
      for i := 0 to |keys|
        invariant Describes(State(), entries, kept) && Filters(kept, keys[..i], pick)
      {
        var key := keys[i];
        FiltersNext(kept, keys, i, pick);
        assert key in keys && IsPath(key);
        if key in open { continue; }
        if key == path || GetDir(key) != path { continue; }
        var tx := database.mapDB[key];
        DescribesNext(State(), entries, kept, key);
        entries := entries + [Entry(Base(key), Some(TxStat(tx)))];
        kept := kept + [key];
      }
      assert keys[..|keys|] == keys;
    }

    /** The second loop: the open files whose parent this is. */
    method OpenChildren(path: string) returns (entries: seq<Entry>, ghost kept: seq<string>)
      requires IsPath(path) && CleanKeys(State())
      ensures Describes(State(), entries, kept) && NoDuplicates(kept)
      ensures forall k :: k in kept <==> k in OpenSet(State(), path)
    {
      entries, kept := [], [];
      ghost var pick := OpenSet(State(), path);
      var keys := SomeOrder(open.Keys);
      for i := 0 to |keys|
        invariant Describes(State(), entries, kept) && Filters(kept, keys[..i], pick)
      {
        var key := keys[i];
        FiltersNext(kept, keys, i, pick);
        assert key in keys && IsPath(key);
        if GetDir(key) != path { continue; }
        DescribesNext(State(), entries, kept, key);
        entries := entries + [Entry(Base(key), Some(OpenStat(open[key])))];
        kept := kept + [key];
      }
      assert keys[..|keys|] == keys;
    }
  }

  ghost function StoredSet(ns: Ns, dir: string): set<string> {
    set k | k in ns.db && k !in ns.open && IsListed(ns, dir, k)
  }

  ghost function OpenSet(ns: Ns, dir: string): set<string> {
    set k | k in ns.open && IsListed(ns, dir, k)
  }

  /** `kept` are those of `seen` that are in `pick`, once each. */
  ghost predicate Filters(kept: seq<string>, seen: seq<string>, pick: set<string>) {
    NoDuplicates(kept) && forall k :: k in kept <==> k in seen && k in pick
  }

  lemma FiltersNext(kept: seq<string>, keys: seq<string>, i: nat, pick: set<string>)
    requires i < |keys| && NoDuplicates(keys) && Filters(kept, keys[..i], pick)
    ensures keys[i] in pick ==> Filters(kept + [keys[i]], keys[..i + 1], pick)
    ensures keys[i] !in pick ==> Filters(kept, keys[..i + 1], pick)
  {}

  lemma DescribesNext(ns: Ns, entries: seq<Entry>, keys: seq<string>, key: string)
    requires Describes(ns, entries, keys) && IsPath(key)
    ensures Describes(ns, entries + [Entry(Base(key), StatOf(ns, key))], keys + [key])
  {}

  lemma JoinListings(ns: Ns, dir: string, a: seq<Entry>, ka: seq<string>, b: seq<Entry>, kb: seq<string>)
    requires Describes(ns, a, ka) && Describes(ns, b, kb) && NoDuplicates(ka) && NoDuplicates(kb)
    requires forall k :: k in ka <==> k in StoredSet(ns, dir)
    requires forall k :: k in kb <==> k in OpenSet(ns, dir)
    ensures Describes(ns, a + b, ka + kb) && NoDuplicates(ka + kb)
    ensures forall k :: k in ka + kb <==> IsListed(ns, dir, k)
  {
    forall i, j | 0 <= i < |ka| && 0 <= j < |kb| ensures ka[i] != kb[j] {
      assert ka[i] in ka && kb[j] in kb;
    }
    assert forall k :: k in ka + kb <==> k in ka || k in kb;
  }

  /** What is taken for a child is one, and the other way round, unless a backslash misleads. */
  lemma ListedIsChild(ns: Ns, dir: string, k: string)
    requires CleanKeys(ns) && IsPath(dir) && ListedRight(ns, dir)
    ensures IsListed(ns, dir, k) <==> IsChild(ns, dir, k)
  {
    if IsListed(ns, dir, k) && k != "/" {
      PathParts(k);
      assert |Parent(k)| == |GetDir(k)| == |dir| && Parent(k) == k[..|dir|];
      assert dir <= k ==> Parent(k) == dir;
    }
    if IsChild(ns, dir, k) {
      RootIsNoChild(ns, dir, k);
      PathParts(k);
      GetDirExactly(k);
    }
  }

  /** A file shown in the wrong folder either takes the name of a child or is none itself. */
  lemma ForeignSpoilsListing(ns: Ns, dir: string, entries: seq<Entry>, keys: seq<string>, k: string)
    requires Describes(ns, entries, keys) && forall q :: q in keys <==> IsListed(ns, dir, q)
    requires k in ns.open && IsPath(k) && GetDir(k) == dir && Parent(k) != dir
    ensures !Lists(ns, dir, entries)
  {
    assert IsListed(ns, dir, k) && k in keys;
    var i :| 0 <= i < |keys| && keys[i] == k;
    assert Shows(ns, entries[i], k);
    assert entries[i] in entries;
    if c :| IsChild(ns, dir, c) && Shows(ns, entries[i], c) {
      RootIsNoChild(ns, dir, c);
      PathParts(c);
      GetDirExactly(c);
      assert IsListed(ns, dir, c);
      var j :| 0 <= j < |keys| && keys[j] == c;
      assert Shows(ns, entries[j], c);
      assert entries[i].name == entries[j].name && i != j;
    } else {
      assert !ShowsAChild(ns, dir, entries[i]);
    }
  }

  lemma HasMember(keys: seq<string>)
    ensures keys == [] || exists q :: q in keys
  {
    if keys != [] { assert keys[0] in keys; }
  }

  lemma NothingListed(ns: Ns, dir: string, k: string)
    requires '\\' in dir
    ensures !IsListed(ns, dir, k)
  {}

  /** The listing is right exactly when no backslash misleads it. */
  lemma ListsExactly(ns: Ns, dir: string, entries: seq<Entry>, keys: seq<string>)
    requires CleanKeys(ns) && IsPath(dir)
    requires Describes(ns, entries, keys) && NoDuplicates(keys)
    requires forall k :: k in keys <==> IsListed(ns, dir, k)
    ensures ListsTaken(ns, dir, entries)
    ensures Lists(ns, dir, entries) <==> ListedRight(ns, dir)
  {
    if ListedRight(ns, dir) {
      forall k ensures k in keys <==> IsChild(ns, dir, k) { ListedIsChild(ns, dir, k); }
      DescribedIsListed(ns, dir, entries, keys);
    } else if k :| k in ns.open && IsPath(k) && GetDir(k) == dir && Parent(k) != dir {
      ForeignSpoilsListing(ns, dir, entries, keys, k);
    } else {
      var k :| IsChild(ns, dir, k) && '\\' in dir;
      forall q ensures !IsListed(ns, dir, q) { NothingListed(ns, dir, q); }
      HasMember(keys);
      assert !ShownIn(ns, entries, k);
    }
  }

  /** Without a backslash in the name of any folder every listing is right. */
  lemma PlainIsListedRight(ns: Ns, dir: string)
    requires Tree(ns) && PlainFolders(ns.db)
    ensures ListedRight(ns, dir)
  {
    forall k | k in ns.open && IsPath(k) && GetDir(k) == dir ensures Parent(k) == dir {
      assert Placed(ns.db, k);
      GetDirExactly(k);
    }
    forall k | IsChild(ns, dir, k) ensures '\\' !in dir {
      assert Placed(ns.db, k);
    }
  }

  /** With folders /a/b and /a\b, a file made in /a\b is listed in /a/b and not where it is. */
  lemma BackslashReaddirWitness(ns: Ns, wrong: string, right: string, f: string, file: OpenFile)
    requires Tree(ns) && IsFolder(ns.db, right) && IsFolder(ns.db, wrong)
    requires '\\' in right && wrong == Slashed(right)
    requires KernelAllows(ns, Op.Mknod(f, file)) && Parent(f) == right
    ensures
      var (made, err) := Step(ns, Op.Mknod(f, file));
      && err == OK && Tree(made)
      && IsChild(made, right, f) && !IsListed(made, right, f) && !ListedRight(made, right)
      && !IsChild(made, wrong, f) && IsListed(made, wrong, f) && !ListedRight(made, wrong)
  {
    PathParts(f);
    assert GetDir(f) == wrong != right;
    OtherStepsTree(ns, Op.Mknod(f, file));
    var made := Step(ns, Op.Mknod(f, file)).0;
    assert made.db == ns.db && f in made.open;
    assert IsChild(made, right, f);
    NothingListed(made, right, f);
  }

  /** Children described once each make a listing: their names differ. */
  lemma DescribedIsListed(ns: Ns, dir: string, entries: seq<Entry>, keys: seq<string>)
    requires Describes(ns, entries, keys) && NoDuplicates(keys)
    requires forall k :: k in keys <==> IsChild(ns, dir, k)
    ensures Lists(ns, dir, entries)
  {
    forall k | IsChild(ns, dir, k) ensures ShownIn(ns, entries, k) {
      var i :| 0 <= i < |keys| && keys[i] == k;
      assert entries[i] in entries && Shows(ns, entries[i], k);
    }
    forall i | 0 <= i < |entries| ensures ShowsAChild(ns, dir, entries[i]) {
      assert keys[i] in keys && IsChild(ns, dir, keys[i]) && Shows(ns, entries[i], keys[i]);
    }
    forall i, j | 0 <= i < j < |entries| ensures entries[i].name != entries[j].name {
      var p, q := keys[i], keys[j];
      assert p in keys && q in keys && Shows(ns, entries[i], p) && Shows(ns, entries[j], q);
      if Base(p) == Base(q) {
        RootIsNoChild(ns, dir, p);
        RootIsNoChild(ns, dir, q);
        BaseInjective(p, q);
      }
    }
  }

  lemma RootIsNoChild(ns: Ns, dir: string, k: string)
    requires IsChild(ns, dir, k)
    ensures k != "/"
  {}

  // ------------------------------------- what operations do to reported attributes

  /** A path is shown as a folder exactly when it is recorded as one and not open. */
  lemma ShownAsFolderExactly(ns: Ns, p: string)
    ensures StatOf(ns, p).Some? && StatOf(ns, p).value.folder <==> IsFolder(ns.db, p) && p !in ns.open
  {}

  /** What was just made has its own attributes, and no other path's change. */
  lemma CreationShows(ns: Ns, op: Op, q: string)
    requires IsPath(op.p) && (op.Mknod? || op.Mkdir?) && op.p !in ns.open && Step(ns, op).1 == OK
    ensures
      var seen := StatOf(Step(ns, op).0, q);
      if q != op.p then seen == StatOf(ns, q)
      else seen.Some? && if op.Mkdir? then seen.value.folder
                         else seen == Some(Stat(false, op.file.size, op.file.ctim, op.file.mtim))
  {}

  /** Opening a file changes no path's attributes. */
  lemma OpenKeepsAttributes(ns: Ns, p: string, q: string)
    requires Tree(ns) && IsPath(p)
    ensures StatOf(Step(ns, Op.Open(p)).0, q) == StatOf(ns, q)
  {}

  /** Removal takes away exactly the path removed. */
  lemma RemovalIsExact(ns: Ns, op: Op, q: string)
    requires Tree(ns) && IsPath(op.p) && (op.Unlink? || op.Rmdir?) && Step(ns, op).1 == OK
    ensures StatOf(Step(ns, op).0, q) == if q == op.p then None else StatOf(ns, q)
  {
    RemovedState(ns, op);
    Dropped(ns, op.p, q);
  }

  lemma RemovedState(ns: Ns, op: Op)
    requires Tree(ns) && IsPath(op.p) && (op.Unlink? || op.Rmdir?) && Step(ns, op).1 == OK
    ensures Step(ns, op).0 == Ns(ns.db - {op.p}, ns.open - {op.p})
  {
    assert op.Rmdir? ==> op.p !in ns.open;
    assert op.p !in ns.open ==> ns.open - {op.p} == ns.open;
    assert op.p !in ns.db ==> ns.db - {op.p} == ns.db;
  }

  lemma Dropped(ns: Ns, p: string, q: string)
    ensures StatOf(Ns(ns.db - {p}, ns.open - {p}), q) == if q == p then None else StatOf(ns, q)
  {}

  /** A rename target that is open keeps its open file when a closed file replaces it. */
  predicate ShadowedTarget(ns: Ns, p: string, to: string) {
    to in ns.open && p !in ns.open
  }

  /**
   Renaming moves the attributes of the old path to the new one and changes no other path,
   except that a target which was open while the source was not still shows the replaced file.
   */
  lemma RenameMovesAttributes(ns: Ns, p: string, to: string, q: string)
    requires Tree(ns) && KernelAllows(ns, Rename(p, to)) && Step(ns, Rename(p, to)).1 == OK
    ensures StatOf(Step(ns, Rename(p, to)).0, q) ==
      if q == p then None
      else if q == to && !ShadowedTarget(ns, p, to) then StatOf(ns, p)
      else StatOf(ns, q)
  {
    RenamedState(ns, p, to);
  }

  lemma RenamedState(ns: Ns, p: string, to: string)
    requires Tree(ns) && KernelAllows(ns, Rename(p, to)) && Step(ns, Rename(p, to)).1 == OK
    ensures
      var there := Step(ns, Rename(p, to)).0;
      && there.open == MoveOpen(ns.open, p, to)
      && there.db == if p in ns.db then ns.db[to := ns.db[p].(path := to)] - {p} else ns.db
    ensures p in ns.db || p in ns.open
    ensures p in ns.db && to in ns.open ==> !IsFolder(ns.db, p)
  {
    assert IsFolder(ns.db, p) ==> p !in ns.open;
  }

  /** Finishing an upload of an open file changes no reported attribute. */
  lemma CommitKeepsAttributes(ns: Ns, p: string, tx: Tx, q: string)
    requires KernelAllows(ns, Commit(p, tx))
    ensures StatOf(Step(ns, Commit(p, tx)).0, q) == StatOf(ns, q)
  {}
}
