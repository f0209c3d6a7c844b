/**
 The jobs that move a file body between its cache and the attachment store: the upload
 started by Release, the download started by Open, and the patching done by ApplyLiveTx.
 */
module Transfer {
  import opened Prelude
  import opened Ranges
  import opened FileCache
  import opened FileModel
  import opened OpenFiles
  import opened Transactions
  import opened Blocks

  lemma {:induction false} Longest(ids: set<string>) returns (n: nat)
    ensures forall id :: id in ids ==> |id| <= n
  {
    n := 0;
    if ids != {} {
      var id :| id in ids;
      var m := Longest(ids - {id});
      n := Max(|id|, m);
      assert forall other :: other in ids ==> other == id || other in ids - {id};
    }
  }

  lemma FreshId(ids: set<string>)
    ensures exists id: string :: id !in ids
  {
    var n := Longest(ids);
    var id := seq(n + 1, _ => '0');
    assert id !in ids;
  }

  /**
   Attachments by id, and the channel that takes transactions. Attachments never change once
   stored. Any request may be refused; `refused` counts how many were.
   */
  class AttachmentStore {
    var blobs: map<string, Bytes>
    ghost var refused: nat

    method SendData(data: Bytes) returns (r: Option<string>)
      modifies this
      ensures r.Some? ==> r.value !in old(blobs) && blobs == old(blobs)[r.value := data]
      ensures r.None? ==> blobs == old(blobs)
      ensures refused == old(refused) + if r.None? then 1 else 0
    {
      if * {
        refused := refused + 1;
        return None;
      }
      FreshId(blobs.Keys);
      var id: string :| id !in blobs;
      blobs := blobs[id := data];
      r := Some(id);
    }

    /** The answer for an unknown id is some other page, which the caller takes for the body. */
    method GetDataFile(id: string, buffer: nat) returns (r: Option<Bytes>)
      modifies this`refused
      ensures r.Some? ==> |r.value| <= buffer
      ensures r.Some? && id in blobs ==> r.value == blobs[id][..Min(|blobs[id]|, buffer)]
      ensures refused == old(refused) + if r.None? then 1 else 0
    {
      if * {
        refused := refused + 1;
        return None;
      }
      var body: Bytes := [];
      if id in blobs {
        body := blobs[id];
      } else {
        body := *;
      }
      r := Some(body[..Min(|body|, buffer)]);
    }

    /** The send of a transaction, as far as its sender sees it. */
    method SendTx(tx: Tx) returns (ok: bool)
      modifies this`refused
      ensures refused == old(refused) + if ok then 0 else 1
    {
      ok := *;
      if !ok { refused := refused + 1; }
    }
  }

  // -------------------------------------------------------------------- upload

  /** Block `i` may keep its old id. */
  predicate Unchanged(c: Bytes, previous: Option<Tx>, B: nat, h: Checksum, i: nat)
    requires Offset(i, B) <= |c|
  {
    previous.Some? && i < |previous.value.sums| && previous.value.sums[i] == h(Block(c, i, B))
  }

  /** Entry `i` of an upload: the old id for an unchanged block, a new attachment otherwise. */
  ghost predicate PublishedBlock(c: Bytes, previous: Option<Tx>, ids: seq<string>, sums: seq<string>,
                                 had: map<string, Bytes>, has: map<string, Bytes>, B: nat, h: Checksum, i: nat)
    requires i < |ids| == |sums|
    requires previous.Some? ==> |previous.value.sums| <= |previous.value.ids|
  {
    && Offset(i, B) <= |c| && sums[i] == h(Block(c, i, B))
    && if Unchanged(c, previous, B, h, i) then ids[i] == previous.value.ids[i]
       else ids[i] !in had && ids[i] in has && has[ids[i]] == Block(c, i, B)
  }

  ghost predicate Extends(had: map<string, Bytes>, has: map<string, Bytes>) {
    forall id :: id in had ==> id in has && has[id] == had[id]
  }

  ghost predicate PublishedTo(c: Bytes, previous: Option<Tx>, ids: seq<string>, sums: seq<string>,
                              had: map<string, Bytes>, has: map<string, Bytes>, B: nat, h: Checksum)
    requires previous.Some? ==> |previous.value.sums| <= |previous.value.ids|
  {
    && |ids| == |sums| && Extends(had, has)
    && forall i :: 0 <= i < |ids| ==> PublishedBlock(c, previous, ids, sums, had, has, B, h, i)
  }

  /** Block `i` was sent as attachment `ids[i]`. */
  predicate SentBlock(c: Bytes, previous: Option<Tx>, ids: seq<string>, B: nat, h: Checksum, i: nat) {
    i < |ids| && Offset(i, B) <= |c| && !Unchanged(c, previous, B, h, i)
  }

  /** Each attachment new since `had` is that of a block that was sent, and no two blocks share one. */
  ghost predicate Frugal(c: Bytes, previous: Option<Tx>, ids: seq<string>,
                         had: map<string, Bytes>, has: map<string, Bytes>, B: nat, h: Checksum)
  {
    && (forall id :: id in has && id !in had ==>
          exists i :: 0 <= i < |ids| && ids[i] == id && SentBlock(c, previous, ids, B, h, i))
    && (forall i, j :: 0 <= i < j < |ids| && ids[i] == ids[j] ==>
          !(SentBlock(c, previous, ids, B, h, i) && SentBlock(c, previous, ids, B, h, j)))
  }

  ghost predicate Published(c: Bytes, previous: Option<Tx>, tx: Tx,
                            had: map<string, Bytes>, has: map<string, Bytes>, B: nat, h: Checksum)
    requires B > 0
    requires previous.Some? ==> |previous.value.sums| <= |previous.value.ids|
  {
    && tx.kind == WriteTx && tx.inode == FileType && tx.size == |c|
    && |tx.ids| == BlockCount(|c|, B)
    && PublishedTo(c, previous, tx.ids, tx.sums, had, has, B, h)
  }

  /** The checksums a transaction records are those of the attachments it names. */
  ghost predicate Summed(tx: Tx, blobs: map<string, Bytes>, h: Checksum) {
    && |tx.sums| <= |tx.ids|
    && forall i :: 0 <= i < |tx.sums| ==> tx.ids[i] in blobs && tx.sums[i] == h(blobs[tx.ids[i]])
  }

  /** What an upload publishes stores exactly the bytes of the cache. */
  lemma PublishedStores(c: Bytes, previous: Option<Tx>, tx: Tx,
                        had: map<string, Bytes>, has: map<string, Bytes>, B: nat, h: Checksum)
    requires B > 0 && Injective(h)
    requires previous.Some? ==> Summed(previous.value, had, h)
    requires Published(c, previous, tx, had, has, B, h)
    ensures WellFormed(tx, has, B, h) && Stores(tx, has, B, c)
    ensures forall id :: id in tx.ids ==> id in has
    ensures Content(tx.ids, has) == c
  {
    forall i | 0 <= i < |tx.ids|
      ensures HoldsBlock(c, tx.ids, has, B, i) && BlockWellFormed(tx, has, B, h, i)
    {
      assert PublishedBlock(c, previous, tx.ids, tx.sums, had, has, B, h, i);
      BlockBounds(|c|, B, i);
    }
    StoresContent(tx, has, B, c);
  }

  /** The bytes of block `i`, by its place in the file. */
  lemma BlockAt(c: Bytes, i: nat, B: nat)
    requires B > 0 && i < BlockCount(|c|, B)
    ensures 0 <= i * B <= |c| && Offset(i, B) <= |c| && Block(c, i, B) == c[i * B..Min(i * B + B, |c|)]
  {
    OffsetIsProduct(i, B);
    BlockBounds(|c|, B, i);
  }

  /**
   Which ids an upload takes over: wherever the transaction before has, for the bytes at the
   same place, the right checksum, and nowhere else.
   */
  lemma KeptIds(c: Bytes, previous: Option<Tx>, tx: Tx,
                had: map<string, Bytes>, has: map<string, Bytes>, B: nat, h: Checksum, i: nat)
    requires B > 0 && i < |tx.ids|
    requires previous.Some? ==> |previous.value.sums| <= |previous.value.ids|
    requires Published(c, previous, tx, had, has, B, h)
    ensures 0 <= i * B <= |c|
    ensures
      if previous.Some? && i < |previous.value.sums| && previous.value.sums[i] == h(c[i * B..Min(i * B + B, |c|)])
      then tx.ids[i] == previous.value.ids[i]
      else tx.ids[i] !in had && tx.ids[i] in has && has[tx.ids[i]] == c[i * B..Min(i * B + B, |c|)]
  {
    BlockAt(c, i, B);
    assert PublishedBlock(c, previous, tx.ids, tx.sums, had, has, B, h, i);
  }

  /** Publishing again the bytes that the transaction before stores sends nothing. */
  lemma RepublishSendsNothing(c: Bytes, previous: Tx, tx: Tx,
                              had: map<string, Bytes>, has: map<string, Bytes>, B: nat, h: Checksum)
    requires B > 0 && WellFormed(previous, had, B, h) && Stores(previous, had, B, c)
    requires Published(c, Some(previous), tx, had, has, B, h) && Frugal(c, Some(previous), tx.ids, had, has, B, h)
    ensures tx.ids == previous.ids && has == had
  {
    forall i | 0 <= i < |tx.ids|
      ensures tx.ids[i] == previous.ids[i] && !SentBlock(c, Some(previous), tx.ids, B, h, i)
    {
      assert HoldsBlock(c, previous.ids, had, B, i);
      assert BlockWellFormed(previous, had, B, h, i);
      assert PublishedBlock(c, Some(previous), tx.ids, tx.sums, had, has, B, h, i);
    }
    assert tx.ids == previous.ids;
    assert has.Keys == had.Keys;
  }

  lemma WellFormedSummed(tx: Tx, blobs: map<string, Bytes>, B: nat, h: Checksum)
    requires B > 0 && WellFormed(tx, blobs, B, h)
    ensures Summed(tx, blobs, h)
  {
    forall i | 0 <= i < |tx.sums| ensures tx.ids[i] in blobs && tx.sums[i] == h(blobs[tx.ids[i]]) {
      assert BlockWellFormed(tx, blobs, B, h, i);
    }
  }

  lemma StoresMore(tx: Tx, had: map<string, Bytes>, has: map<string, Bytes>, B: nat, c: Bytes)
    requires B > 0 && Stores(tx, had, B, c) && Extends(had, has)
    ensures Stores(tx, has, B, c)
  {
    forall i | 0 <= i < |tx.ids| ensures HoldsBlock(c, tx.ids, has, B, i) {
      assert HoldsBlock(c, tx.ids, had, B, i);
    }
  }

  /** One upload: the cache it took, the transaction it made, and the store after it. */
  datatype Version = Version(cache: Bytes, tx: Tx, blobs: map<string, Bytes>)

  /** Version `i` was uploaded after version `i - 1`, reusing what it could of it. */
  ghost predicate FollowsAt(first: map<string, Bytes>, vs: seq<Version>, i: nat, B: nat, h: Checksum)
    requires B > 0 && i < |vs|
  {
    if i == 0 then Published(vs[0].cache, None, vs[0].tx, first, vs[0].blobs, B, h)
    else
      && |vs[i - 1].tx.sums| <= |vs[i - 1].tx.ids|
      && Published(vs[i].cache, Some(vs[i - 1].tx), vs[i].tx, vs[i - 1].blobs, vs[i].blobs, B, h)
  }

  /** Uploads of one path, one after the other. */
  ghost predicate IsHistory(first: map<string, Bytes>, vs: seq<Version>, B: nat, h: Checksum)
    requires B > 0
  {
    forall i :: 0 <= i < |vs| ==> FollowsAt(first, vs, i, B, h)
  }

  /** After any number of uploads every version, old or new, is still stored byte for byte. */
  lemma {:induction false} EveryVersionStays(first: map<string, Bytes>, vs: seq<Version>, B: nat, h: Checksum)
    requires B > 0 && Injective(h) && IsHistory(first, vs, B, h)
    ensures forall i, j :: 0 <= i <= j < |vs| ==> Stores(vs[i].tx, vs[j].blobs, B, vs[i].cache)
    ensures vs != [] ==> WellFormed(vs[|vs| - 1].tx, vs[|vs| - 1].blobs, B, h)
  {
    if vs != [] {
      var n := |vs| - 1;
      var front := vs[..n];
      forall i | 0 <= i < n ensures FollowsAt(first, front, i, B, h) {
        assert FollowsAt(first, vs, i, B, h);
      }
      EveryVersionStays(first, front, B, h);
      assert FollowsAt(first, vs, n, B, h);
      if n == 0 {
        PublishedStores(vs[0].cache, None, vs[0].tx, first, vs[0].blobs, B, h);
      } else {
        var last := front[n - 1];
        WellFormedSummed(last.tx, last.blobs, B, h);
        PublishedStores(vs[n].cache, Some(last.tx), vs[n].tx, last.blobs, vs[n].blobs, B, h);
        forall i | 0 <= i < n ensures Stores(vs[i].tx, vs[n].blobs, B, vs[i].cache) {
          assert Stores(front[i].tx, last.blobs, B, front[i].cache);
          StoresMore(vs[i].tx, last.blobs, vs[n].blobs, B, vs[i].cache);
        }
      }
      forall i, j | 0 <= i <= j < |vs| ensures Stores(vs[i].tx, vs[j].blobs, B, vs[i].cache) {
        if j < n { assert Stores(front[i].tx, front[j].blobs, B, front[i].cache); }
      }
    }
  }

  /** The bytes of one block, read through the cache into a buffer of the block's size. */
  method ReadBlock(file: FileData, i: nat, B: nat) returns (block: Bytes)
    requires file.Valid() && B > 0 && i < BlockCount(|file.State().cache|, B)
    ensures Offset(i, B) <= |file.State().cache| && block == Block(file.State().cache, i, B)
  {
    OffsetIsProduct(i, B);
    BlockBounds(|file.State().cache|, B, i);
    var ofst := i * B;
    var end := Min(ofst + B, file.cache.Size());
    var buffer := new byte[end - ofst];
    var n := file.cache.ReadRange(ofst, end, buffer);
    block := buffer[..];
  }

  lemma PublishedNext(c: Bytes, previous: Option<Tx>, ids: seq<string>, sums: seq<string>, id: string,
                      had: map<string, Bytes>, has0: map<string, Bytes>, has: map<string, Bytes>, B: nat, h: Checksum)
    requires previous.Some? ==> |previous.value.sums| <= |previous.value.ids|
    requires Offset(|ids|, B) <= |c| && Extends(has0, has)
    requires PublishedTo(c, previous, ids, sums, had, has0, B, h)
    requires
      var i := |ids|;
      if Unchanged(c, previous, B, h, i) then id == previous.value.ids[i]
      else id !in has0 && id in has && has[id] == Block(c, i, B)
    ensures PublishedTo(c, previous, ids + [id], sums + [h(Block(c, |ids|, B))], had, has, B, h)
  {
    var ids', sums' := ids + [id], sums + [h(Block(c, |ids|, B))];
    forall k | 0 <= k < |ids'| ensures PublishedBlock(c, previous, ids', sums', had, has, B, h, k) {
      if k < |ids| { assert PublishedBlock(c, previous, ids, sums, had, has0, B, h, k); }
    }
  }

  lemma FrugalNext(c: Bytes, previous: Option<Tx>, ids: seq<string>, sums: seq<string>, id: string,
                   had: map<string, Bytes>, has0: map<string, Bytes>, has: map<string, Bytes>, B: nat, h: Checksum)
    requires previous.Some? ==> |previous.value.sums| <= |previous.value.ids|
    requires Offset(|ids|, B) <= |c| && PublishedTo(c, previous, ids, sums, had, has0, B, h)
    requires Frugal(c, previous, ids, had, has0, B, h)
    requires
      if Unchanged(c, previous, B, h, |ids|) then has == has0
      else id !in has0 && has.Keys == has0.Keys + {id}
    ensures Frugal(c, previous, ids + [id], had, has, B, h)
  {
    var ids' := ids + [id];
    var n := |ids|;
    forall i | 0 <= i < n
      ensures SentBlock(c, previous, ids', B, h, i) <==> SentBlock(c, previous, ids, B, h, i)
      ensures SentBlock(c, previous, ids, B, h, i) ==> ids[i] in has0
    {
      assert PublishedBlock(c, previous, ids, sums, had, has0, B, h, i);
    }
    forall added | added in has && added !in had
      ensures exists i :: 0 <= i < |ids'| && ids'[i] == added && SentBlock(c, previous, ids', B, h, i)
    {
      if added in has0 {
        var i :| 0 <= i < n && ids[i] == added && SentBlock(c, previous, ids, B, h, i);
        assert ids'[i] == added && SentBlock(c, previous, ids', B, h, i);
      } else {
        assert ids'[n] == added && SentBlock(c, previous, ids', B, h, n);
      }
    }
    forall i, j | 0 <= i < j < |ids'| && ids'[i] == ids'[j]
      ensures !(SentBlock(c, previous, ids', B, h, i) && SentBlock(c, previous, ids', B, h, j))
    {
      if j < n { assert ids[i] == ids[j]; }
    }
  }

  /** The upload of the next block: its old id when the checksum is still right, or a send. */
  method UploadBlock(file: FileData, previous: Option<Tx>, ids: seq<string>, sums: seq<string>,
                     store: AttachmentStore, B: nat, h: Checksum, ghost had: map<string, Bytes>)
    returns (ok: bool, ids': seq<string>, sums': seq<string>)
    requires file.Valid() && B > 0 && NeverEmpty(h)
    requires previous.Some? ==> |previous.value.sums| <= |previous.value.ids|
    requires |ids| < BlockCount(|file.State().cache|, B)
    requires PublishedTo(file.State().cache, previous, ids, sums, had, store.blobs, B, h)
    requires Frugal(file.State().cache, previous, ids, had, store.blobs, B, h)
    modifies store
    ensures Extends(had, store.blobs)
    ensures Frugal(file.State().cache, previous, ids', had, store.blobs, B, h)
    ensures !ok ==> ids' == ids && sums' == sums
    ensures PublishedTo(file.State().cache, previous, ids', sums', had, store.blobs, B, h)
    ensures store.refused == old(store.refused) + if ok then 0 else 1
    ensures ok ==> |ids'| == |ids| + 1
  {
    var i := |ids|;
    ok, ids', sums' := false, ids, sums;
    var fileID, checksum := "", "";
    if previous.Some? && i < |previous.value.sums| {
      fileID, checksum := previous.value.ids[i], previous.value.sums[i];
    }
    var block := ReadBlock(file, i, B);
    var newSum := h(block);
    ghost var has0 := store.blobs;
    if checksum != newSum {
      var sent := store.SendData(block);
      if sent.None? { return; }
      fileID := sent.value;
    }
    PublishedNext(file.State().cache, previous, ids, sums, fileID, had, has0, store.blobs, B, h);
    FrugalNext(file.State().cache, previous, ids, sums, fileID, had, has0, store.blobs, B, h);
    ok, ids', sums' := true, ids + [fileID], sums + [newSum];
  }

  /** These bytes are those of the file from `i * B` on, up to a block's size. */
  predicate IsBlockAt(c: Bytes, i: nat, B: nat, b: Bytes) {
    0 <= i * B <= |c| && b == c[i * B..Max(i * B, Min(i * B + B, |c|))]
  }

  /** Whatever was sent is a block of the file. */
  ghost predicate OnlyBlocks(c: Bytes, had: map<string, Bytes>, has: map<string, Bytes>, B: nat)
    requires B > 0
  {
    forall id :: id in has && id !in had ==>
      exists i :: 0 <= i < BlockCount(|c|, B) && IsBlockAt(c, i, B, has[id])
  }

  /**
   An id is taken over wherever the transaction before has, for the bytes of the file at that
   place, the right checksum, and nowhere else.
   */
  ghost predicate KeepsIds(c: Bytes, previous: Option<Tx>, ids: seq<string>, had: map<string, Bytes>, B: nat, h: Checksum)
    requires previous.Some? ==> |previous.value.sums| <= |previous.value.ids|
  {
    forall i: nat :: i < |ids| ==>
      && 0 <= i * B <= |c| && i * B <= Min(i * B + B, |c|)
      && (if previous.Some? && i < |previous.value.sums|
             && previous.value.sums[i] == h(c[i * B..Min(i * B + B, |c|)])
          then ids[i] == previous.value.ids[i]
          else ids[i] !in had)
  }

  lemma OnlyBlocksSent(c: Bytes, previous: Option<Tx>, ids: seq<string>, sums: seq<string>,
                       had: map<string, Bytes>, has: map<string, Bytes>, B: nat, h: Checksum)
    requires previous.Some? ==> |previous.value.sums| <= |previous.value.ids|
    requires B > 0 && |ids| <= BlockCount(|c|, B)
    requires PublishedTo(c, previous, ids, sums, had, has, B, h) && Frugal(c, previous, ids, had, has, B, h)
    ensures OnlyBlocks(c, had, has, B)
  {
    forall id | id in has && id !in had
      ensures exists i :: 0 <= i < BlockCount(|c|, B) && IsBlockAt(c, i, B, has[id])
    {
      var i :| 0 <= i < |ids| && ids[i] == id && SentBlock(c, previous, ids, B, h, i);
      assert PublishedBlock(c, previous, ids, sums, had, has, B, h, i);
      BlockAt(c, i, B);
      assert IsBlockAt(c, i, B, has[id]);
    }
  }

  lemma ReleasedIds(c: Bytes, previous: Option<Tx>, tx: Tx,
                    had: map<string, Bytes>, has: map<string, Bytes>, B: nat, h: Checksum)
    requires previous.Some? ==> |previous.value.sums| <= |previous.value.ids|
    requires B > 0 && Published(c, previous, tx, had, has, B, h) && Frugal(c, previous, tx.ids, had, has, B, h)
    ensures KeepsIds(c, previous, tx.ids, had, B, h)
    ensures previous.Some? && WellFormed(previous.value, had, B, h) && Stores(previous.value, had, B, c) ==>
      tx.ids == previous.value.ids && has == had
  {
    forall i: nat | i < |tx.ids|
      ensures 0 <= i * B <= |c| && i * B <= Min(i * B + B, |c|)
      ensures
        if previous.Some? && i < |previous.value.sums|
           && previous.value.sums[i] == h(c[i * B..Min(i * B + B, |c|)])
        then tx.ids[i] == previous.value.ids[i]
        else tx.ids[i] !in had
    {
      KeptIds(c, previous, tx, had, has, B, h, i);
    }
    if previous.Some? && WellFormed(previous.value, had, B, h) && Stores(previous.value, had, B, c) {
      RepublishSendsNothing(c, previous.value, tx, had, has, B, h);
    }
  }

  /**
   Release, with the job it starts on a dirty file run to its end and no other section in
   between. It commits a transaction exactly when the file was dirty and no request was
   refused. The first refusal ends the job, and still leaves the file marked clean.
   */
  method Release(file: FileData, path: string, mtim: int, ctim: int, previous: Option<Tx>,
                 store: AttachmentStore, B: nat, h: Checksum) returns (tx: Option<Tx>)
    requires file.Valid() && B > 0 && NeverEmpty(h)
    requires previous.Some? ==> |previous.value.sums| <= |previous.value.ids|
    modifies store, file`dirty
    ensures !file.dirty
    ensures tx.Some? <==> old(file.dirty) && store.refused == old(store.refused)
    ensures old(store.refused) <= store.refused <= old(store.refused) + 1
    ensures !old(file.dirty) ==> store.blobs == old(store.blobs) && store.refused == old(store.refused)
    ensures Extends(old(store.blobs), store.blobs)
    ensures OnlyBlocks(file.State().cache, old(store.blobs), store.blobs, B)
    ensures tx.Some? ==> KeepsIds(file.State().cache, previous, tx.value.ids, old(store.blobs), B, h)
    ensures tx.Some? ==> Frugal(file.State().cache, previous, tx.value.ids, old(store.blobs), store.blobs, B, h)
    ensures tx.Some? && old(previous.Some? && WellFormed(previous.value, store.blobs, B, h)
                            && Stores(previous.value, store.blobs, B, file.State().cache)) ==>
      tx.value.ids == previous.value.ids && store.blobs == old(store.blobs)
    ensures tx.Some? ==>
      && Published(file.State().cache, previous, tx.value, old(store.blobs), store.blobs, B, h)
      && tx.value.path == path && tx.value.mtim == mtim && tx.value.ctim == ctim
  {
    tx := None;
    if !file.dirty { return; }
    var size := file.cache.Size();
    ghost var had := store.blobs;
    ghost var c := file.State().cache;
    var ok, ids, sums := UploadBlocks(file, previous, store, B, h);
    OnlyBlocksSent(c, previous, ids, sums, had, store.blobs, B, h);
    file.dirty := false;
    assert file.State().cache == c;
    if !ok { return; }
    var made := Tx(WriteTx, path, FileType, ids, sums, size, mtim, ctim);
    ReleasedIds(c, previous, made, had, store.blobs, B, h);
    var sent := store.SendTx(made);
    if sent {
      tx := Some(made);
    }
  }

  /** The blocks of the file in order, up to the first refused request. */
  method UploadBlocks(file: FileData, previous: Option<Tx>, store: AttachmentStore, B: nat, h: Checksum)
    returns (ok: bool, ids: seq<string>, sums: seq<string>)
    requires file.Valid() && B > 0 && NeverEmpty(h)
    requires previous.Some? ==> |previous.value.sums| <= |previous.value.ids|
    modifies store
    ensures store.refused == old(store.refused) + if ok then 0 else 1
    ensures PublishedTo(file.State().cache, previous, ids, sums, old(store.blobs), store.blobs, B, h)
    ensures Frugal(file.State().cache, previous, ids, old(store.blobs), store.blobs, B, h)
    ensures |ids| <= BlockCount(|file.State().cache|, B)
    ensures ok <==> |ids| == BlockCount(|file.State().cache|, B)
  {
    var size := file.cache.Size();
    var end := size / B;
    if size % B != 0 { end := end + 1; }
    ghost var had := store.blobs;
    ids, sums := [], [];
    var i := 0;
    while i < end
      invariant 0 <= i <= end && |ids| == i
      invariant PublishedTo(file.State().cache, previous, ids, sums, had, store.blobs, B, h)
      invariant Frugal(file.State().cache, previous, ids, had, store.blobs, B, h)
      invariant store.refused == old(store.refused)
    {
      ok, ids, sums := UploadBlock(file, previous, ids, sums, store, B, h, had);
      if !ok { return; }
      i := i + 1;
    }
    ok := true;
  }

  // ------------------------------------------------------------------ download

  /** The part of the file that is marked ready holds the content, and nothing else is marked. */
  ghost predicate PartOf(s: FileState, c: Bytes) {
    && |s.cache| == |c|
    && forall x :: Covered(s.ranges, x) ==> 0 <= x < |c| && s.cache[x] == c[x]
  }

  /** The order in which the job asks for the blocks: the first, the last, then the others. */
  function DownloadOrder(n: nat): (order: seq<nat>)
    ensures |order| == n
  {
    if n < 2 then seq(n, i => i) else [0, n - 1] + seq(n - 2, i => i + 1)
  }

  /** What the arrival of these blocks marks, in order of arrival. */
  function MarksOf(order: seq<nat>, B: nat, size: nat): (rs: seq<Range>)
    ensures |rs| == |order|
  {
    seq(|order|, i requires 0 <= i < |order| => Range(Offset(order[i], B), BlockEnd(order[i], B, size)))
  }

  /** Every block is asked for once, so all marks together cover the file. */
  lemma OrderCovers(size: nat, B: nat)
    requires B > 0
    ensures CoversAll(MarksOf(DownloadOrder(BlockCount(size, B)), B, size), 0, size)
  {
    var n := BlockCount(size, B);
    var order := DownloadOrder(n);
    var rs := MarksOf(order, B, size);
    forall x | 0 <= x < size ensures Covered(rs, x) {
      var k := BlockOf(size, B, x);
      var at := if k == 0 then 0 else if k == n - 1 then 1 else k + 1;
      assert order[at] == k && rs[at] in rs;
    }
  }

  lemma MarksNext(order: seq<nat>, k: nat, B: nat, size: nat)
    requires k < |order|
    ensures MarksOf(order[..k + 1], B, size)
      == MarksOf(order[..k], B, size) + [Range(Offset(order[k], B), BlockEnd(order[k], B, size))]
  {}

  /** The first `k` blocks have arrived, and nothing else has happened to the file. */
  ghost predicate ArrivedTo(s: FileState, tx: Tx, B: nat, c: Bytes, k: nat) {
    && PartOf(s, c) && k <= |tx.ids|
    && s.ranges == MarksOf(DownloadOrder(|tx.ids|)[..k], B, tx.size)
  }

  /** Offset `x` is ready after `k` of `n` blocks: the first one, then the last, then on from the first. */
  predicate ReadyAfter(k: nat, n: nat, B: nat, size: nat, x: int) {
    0 <= x < size && k > 0 && (x < B || (k >= 2 && (x < (k - 1) * B || (n - 1) * B <= x)))
  }

  lemma OrderAt(n: nat, k: nat)
    requires k < n
    ensures DownloadOrder(n)[k] == if k == 0 then 0 else if k == 1 then n - 1 else k - 1
  {}

  /** What is marked at any point of the download, in terms of offsets alone. */
  lemma {:induction false} MarkedAfter(size: nat, B: nat, k: nat)
    requires B > 0 && k <= BlockCount(size, B)
    ensures forall x :: Covered(MarksOf(DownloadOrder(BlockCount(size, B))[..k], B, size), x)
                   <==> ReadyAfter(k, BlockCount(size, B), B, size, x)
  {
    var n := BlockCount(size, B);
    var order := DownloadOrder(n);
    if k > 0 {
      MarkedAfter(size, B, k - 1);
      OrderAt(n, k - 1);
      MarksNext(order, k - 1, B, size);
      var i := order[k - 1];
      OffsetIsProduct(i, B);
      AppendCovers(MarksOf(order[..k - 1], B, size), Range(Offset(i, B), BlockEnd(i, B, size)));
      LastBlockEnds(size, B);
      forall x ensures ReadyAfter(k, n, B, size, x)
                  <==> ReadyAfter(k - 1, n, B, size, x) || i * B <= x < Min(i * B + B, size)
      {
        ReadyNext(k - 1, n, B, size, x);
      }
    }
  }

  lemma LastBlockEnds(size: nat, B: nat)
    requires B > 0 && BlockCount(size, B) > 0
    ensures (BlockCount(size, B) - 1) * B < size <= (BlockCount(size, B) - 1) * B + B
  {
    var n := BlockCount(size, B);
    OffsetIsProduct(n - 1, B);
    BlockBounds(size, B, n - 1);
    BlockBounds(size, B, n);
  }

  lemma ReadyNext(k: nat, n: nat, B: nat, size: nat, x: int)
    requires B > 0 && k < n && (n - 1) * B < size <= (n - 1) * B + B
    ensures
      var i := if k == 0 then 0 else if k == 1 then n - 1 else k - 1;
      ReadyAfter(k + 1, n, B, size, x) <==> ReadyAfter(k, n, B, size, x) || i * B <= x < Min(i * B + B, size)
  {
    if k >= 1 {
      Multiples(k, n, B);
      ReadyNextAt((k - 1) * B, (n - 1) * B, B, size, x);
    }
  }

  lemma Multiples(k: nat, n: nat, B: nat)
    requires 1 <= k < n
    ensures 0 <= (k - 1) * B && k * B == (k - 1) * B + B && k * B <= (n - 1) * B
  {
    OffsetIsProduct(k - 1, B);
    OffsetIsProduct(k, B);
    OffsetIsProduct(n - 1, B);
    BlocksApart(B, k - 1, n - 1);
  }

  lemma ReadyNextAt(p: nat, q: nat, B: nat, size: nat, x: int)
    requires p + B <= q < size <= q + B
    ensures 0 <= x < size && (x < B || x < p + B || q <= x) <==>
      (0 <= x < size && (x < B || x < p || q <= x)) || p <= x < Min(p + B, size)
    ensures 0 <= x < size && q <= x <==> q <= x < Min(q + B, size)
  {}

  /** A piece of the content that arrives at its place keeps what is marked right. */
  lemma PartNext(s: FileState, t: FileState, c: Bytes, from: nat, to: nat)
    requires PartOf(s, c) && from <= to <= |c| && Downloaded(s, t, from, c[from..to])
    ensures PartOf(t, c) && t.ranges == s.ranges + [Range(from, to)]
  {
    AppendCovers(s.ranges, Range(from, to));
  }

  lemma ArrivedNext(s: FileState, t: FileState, tx: Tx, B: nat, c: Bytes, k: nat, i: nat)
    requires ArrivedTo(s, tx, B, c, k) && k < |tx.ids| && i == DownloadOrder(|tx.ids|)[k]
    requires |c| == tx.size && Offset(i, B) <= |c|
    requires Downloaded(s, t, Offset(i, B), Block(c, i, B))
    ensures ArrivedTo(t, tx, B, c, k + 1)
  {
    MarksNext(DownloadOrder(|tx.ids|), k, B, tx.size);
    PartNext(s, t, c, Offset(i, B), BlockEnd(i, B, tx.size));
  }

  /** Block `i`, the one that follows the first `k` in the order of the job. */
  method DownloadBlock(file: FileData, tx: Tx, i: nat, store: AttachmentStore, B: nat, ghost c: Bytes, ghost k: nat)
    returns (ok: bool)
    requires file.Valid() && B > 0 && store !in file.Footprint()
    requires Stores(tx, store.blobs, B, c) && ArrivedTo(file.State(), tx, B, c, k)
    requires k < |tx.ids| && i == DownloadOrder(|tx.ids|)[k]
    requires i < |tx.ids|
    modifies file.Footprint(), store`refused
    ensures file.Valid() && fresh(file.Footprint() - old(file.Footprint()))
    ensures ArrivedTo(file.State(), tx, B, c, if ok then k + 1 else k) && file.dirty == old(file.dirty)
    ensures store.refused == old(store.refused) + if ok then 0 else 1
  {
    assert HoldsBlock(c, tx.ids, store.blobs, B, i);
    OffsetIsProduct(i, B);
    var got := store.GetDataFile(tx.ids[i], B);
    if got.None? { return false; }
    assert got.value == Block(c, i, B);
    ghost var s := file.State();
    ok := file.Arrive(i * B, got.value);
    ArrivedNext(s, file.State(), tx, B, c, k, i);
  }

  /**
   The job Open starts: first block, last block, then the rest in order. It stops at the first
   refused request, after `arrived` blocks, and only there.
   */
  method DownloadJob(file: FileData, tx: Tx, store: AttachmentStore, B: nat, ghost c: Bytes)
    returns (ok: bool, arrived: nat)
    requires file.Valid() && B > 0 && store !in file.Footprint()
    requires Stores(tx, store.blobs, B, c) && file.State() == FileState(Zeros(tx.size), [])
    modifies file.Footprint(), store`refused
    ensures file.Valid() && fresh(file.Footprint() - old(file.Footprint()))
    ensures ArrivedTo(file.State(), tx, B, c, arrived) && (ok <==> arrived == |tx.ids|)
    ensures store.refused == old(store.refused) + if ok then 0 else 1
    ensures ok ==> file.State().cache == c && CoversAll(file.State().ranges, 0, |c|)
    ensures arrived >= 1 ==> CoversAll(file.State().ranges, 0, Min(B, |c|))
    ensures arrived >= 2 ==> CoversAll(file.State().ranges, (|tx.ids| - 1) * B, |c|)
    ensures arrived == 0 ==> forall x :: !Covered(file.State().ranges, x)
    ensures arrived == 1 ==> forall x :: Covered(file.State().ranges, x) <==> 0 <= x < Min(B, |c|)
    ensures arrived >= 2 ==> forall x :: Covered(file.State().ranges, x) <==>
      0 <= x < |c| && (x < Max(1, arrived - 1) * B || (|tx.ids| - 1) * B <= x)
    ensures file.dirty == old(file.dirty)
  {
    arrived := DownloadBlocks(file, tx, store, B, c);
    ok := arrived == |tx.ids|;
    ReadyParts(file.State(), tx, B, c, arrived);
    if ok {
      AllArrived(file.State(), tx, B, c);
    }
  }

  lemma ReadyParts(s: FileState, tx: Tx, B: nat, c: Bytes, k: nat)
    requires B > 0 && |c| == tx.size && |tx.ids| == BlockCount(tx.size, B) && ArrivedTo(s, tx, B, c, k)
    ensures k >= 1 ==> CoversAll(s.ranges, 0, Min(B, |c|))
    ensures k >= 2 ==> CoversAll(s.ranges, (|tx.ids| - 1) * B, |c|)
    ensures k == 0 ==> forall x :: !Covered(s.ranges, x)
    ensures k == 1 ==> forall x :: Covered(s.ranges, x) <==> 0 <= x < Min(B, |c|)
    ensures k >= 2 ==> forall x :: Covered(s.ranges, x) <==>
      0 <= x < |c| && (x < Max(1, k - 1) * B || (|tx.ids| - 1) * B <= x)
  {
    MarkedAfter(tx.size, B, k);
    if k >= 2 {
      OffsetIsProduct(k - 1, B);
      OffsetIsProduct(|tx.ids| - 1, B);
      assert Offset(k - 1, B) == Offset(k - 2, B) + B && Max(1, k - 1) == k - 1;
    }
  }

  /** The requests of the job, as many as were not refused. */
  method DownloadBlocks(file: FileData, tx: Tx, store: AttachmentStore, B: nat, ghost c: Bytes)
    returns (arrived: nat)
    requires file.Valid() && B > 0 && store !in file.Footprint()
    requires Stores(tx, store.blobs, B, c) && file.State() == FileState(Zeros(tx.size), [])
    modifies file.Footprint(), store`refused
    ensures file.Valid() && fresh(file.Footprint() - old(file.Footprint()))
    ensures ArrivedTo(file.State(), tx, B, c, arrived) && file.dirty == old(file.dirty)
    ensures store.refused == old(store.refused) + if arrived == |tx.ids| then 0 else 1
  {
    arrived := 0;
    if |tx.ids| == 0 { return; }
    var ok := DownloadBlock(file, tx, 0, store, B, c, arrived);
    if !ok { return; }
    arrived := 1;
    if |tx.ids| == 1 { return; }
    ok := DownloadBlock(file, tx, |tx.ids| - 1, store, B, c, arrived);
    if !ok { return; }
    arrived := DownloadRest(file, tx, store, B, c);
  }

  /** The blocks between the first and the last, once those two have arrived. */
  method DownloadRest(file: FileData, tx: Tx, store: AttachmentStore, B: nat, ghost c: Bytes)
    returns (arrived: nat)
    requires file.Valid() && B > 0 && store !in file.Footprint() && |tx.ids| >= 2
    requires Stores(tx, store.blobs, B, c) && ArrivedTo(file.State(), tx, B, c, 2)
    modifies file.Footprint(), store`refused
    ensures file.Valid() && fresh(file.Footprint() - old(file.Footprint()))
    ensures ArrivedTo(file.State(), tx, B, c, arrived) && file.dirty == old(file.dirty)
    ensures store.refused == old(store.refused) + if arrived == |tx.ids| then 0 else 1
  {
    arrived := 2;
    var last := |tx.ids| - 1;
    var i := 1;
    while i < last
      invariant 1 <= i <= last && arrived == i + 1
      invariant file.Valid() && fresh(file.Footprint() - old(file.Footprint())) && store !in file.Footprint()
      invariant ArrivedTo(file.State(), tx, B, c, arrived) && store.refused == old(store.refused)
      invariant file.dirty == old(file.dirty)
    {
      var ok := DownloadBlock(file, tx, i, store, B, c, arrived);
      if !ok { return; }
      arrived := arrived + 1;
      i := i + 1;
    }
  }

  /** Once every block has arrived the whole content is there and marked. */
  lemma AllArrived(s: FileState, tx: Tx, B: nat, c: Bytes)
    requires B > 0 && |c| == tx.size && |tx.ids| == BlockCount(tx.size, B)
    requires ArrivedTo(s, tx, B, c, |tx.ids|)
    ensures s.cache == c && CoversAll(s.ranges, 0, |c|)
  {
    var order := DownloadOrder(|tx.ids|);
    assert order[..|order|] == order;
    OrderCovers(tx.size, B);
    CoveredPartIsAll(s, c);
  }

  lemma CoveredPartIsAll(s: FileState, c: Bytes)
    requires PartOf(s, c) && CoversAll(s.ranges, 0, |c|)
    ensures s.cache == c
  {
    assert forall x :: 0 <= x < |c| ==> Covered(s.ranges, x);
  }

  /**
   Releasing a dirty file and opening what was published gives the same bytes, all of them
   ready, exactly when no request was refused on the way.
   */
  method ReleaseThenOpen(file: FileData, path: string, mtim: int, ctim: int, previous: Option<Tx>,
                         store: AttachmentStore, B: nat, h: Checksum)
    returns (tx: Option<Tx>, copy: FileData, complete: bool)
    requires file.Valid() && B > 0 && NeverEmpty(h) && Injective(h)
    requires previous.Some? ==> Summed(previous.value, store.blobs, h)
    modifies store, file`dirty
    ensures copy.Valid() && fresh(copy.Footprint()) && !copy.dirty && !file.dirty
    ensures tx.Some? ==>
      && WellFormed(tx.value, store.blobs, B, h)
      && |tx.value.ids| == BlockCount(|file.State().cache|, B)
    ensures complete <==> old(file.dirty) && store.refused == old(store.refused)
    ensures complete ==>
      && tx.Some?
      && copy.State().cache == file.State().cache
      && CoversAll(copy.State().ranges, 0, |file.State().cache|)
  {
    ghost var c := file.State().cache;
    tx := Release(file, path, mtim, ctim, previous, store, B, h);
    complete := false;
    if tx.None? {
      copy := new FileData(0);
    } else {
      PublishedStores(c, previous, tx.value, old(store.blobs), store.blobs, B, h);
      copy, complete := OpenPublished(tx.value, store, B, c);
    }
  }

  /** Open of a recorded file, with the download it starts run to its end. */
  method OpenPublished(tx: Tx, store: AttachmentStore, B: nat, ghost c: Bytes)
    returns (copy: FileData, complete: bool)
    requires B > 0 && Stores(tx, store.blobs, B, c)
    modifies store`refused
    ensures copy.Valid() && fresh(copy.Footprint()) && !copy.dirty
    ensures store.refused == old(store.refused) + if complete then 0 else 1
    ensures complete ==> copy.State().cache == c && CoversAll(copy.State().ranges, 0, |c|)
  {
    copy := new FileData(tx.size);
    var arrived: nat;
    complete, arrived := DownloadJob(copy, tx, store, B, c);
  }

  // ------------------------------------------------------------- live patching

  datatype Outcome = Done | FetchFailed | Changed | Panicked

  /** Blocks before `i` are the content's, the others are as the resized cache had them. */
  ghost predicate PatchedTo(now: Bytes, start: Bytes, c: Bytes, B: nat, i: nat) {
    && |now| == |start| == |c|
    && forall x: nat :: x < |c| ==> now[x] == if x < Offset(i, B) then c[x] else start[x]
  }

  /** The block of offset `x` differs between the two contents of equal size. */
  ghost predicate Differs(start: Bytes, c: Bytes, B: nat, k: nat, x: int)
    requires |start| == |c|
  {
    && Offset(k, B) <= x < BlockEnd(k, B, |c|)
    && Block(start, k, B) != Block(c, k, B)
  }

  /** Offset `x` is in one of the first `i` blocks that differ. */
  ghost predicate DiffersBefore(start: Bytes, c: Bytes, B: nat, i: nat, x: int)
    requires |start| == |c|
  {
    exists k: nat :: k < i && Differs(start, c, B, k, x)
  }

  lemma DiffersNext(start: Bytes, c: Bytes, B: nat, i: nat, x: int)
    requires |start| == |c|
    ensures DiffersBefore(start, c, B, i + 1, x) <==> DiffersBefore(start, c, B, i, x) || Differs(start, c, B, i, x)
  {
    if k: nat :| k < i + 1 && Differs(start, c, B, k, x) {
      assert k < i || k == i;
    }
  }

  /** What patching the first `i` blocks marks: what was marked, and the differing blocks. */
  ghost predicate MarkedTo(rs: seq<Range>, rs0: seq<Range>, start: Bytes, c: Bytes, B: nat, i: nat)
    requires |start| == |c|
  {
    forall x :: Covered(rs, x) <==> Covered(rs0, x) || DiffersBefore(start, c, B, i, x)
  }

  lemma MarkedKeep(rs: seq<Range>, rs0: seq<Range>, start: Bytes, c: Bytes, B: nat, i: nat)
    requires |start| == |c| && Offset(i, B) <= |c| && MarkedTo(rs, rs0, start, c, B, i)
    requires Block(start, i, B) == Block(c, i, B)
    ensures MarkedTo(rs, rs0, start, c, B, i + 1)
  {
    forall x ensures Covered(rs, x) <==> Covered(rs0, x) || DiffersBefore(start, c, B, i + 1, x) {
      DiffersNext(start, c, B, i, x);
    }
  }

  lemma MarkedAdd(rs: seq<Range>, rs': seq<Range>, rs0: seq<Range>, start: Bytes, c: Bytes, B: nat, i: nat)
    requires |start| == |c| && Offset(i, B) <= |c| && MarkedTo(rs, rs0, start, c, B, i)
    requires Block(start, i, B) != Block(c, i, B)
    requires forall x :: Covered(rs', x) <==>
      Covered(rs, x) || Offset(i, B) <= x < BlockEnd(i, B, |c|)
    ensures MarkedTo(rs', rs0, start, c, B, i + 1)
  {
    forall x ensures Covered(rs', x) <==> Covered(rs0, x) || DiffersBefore(start, c, B, i + 1, x) {
      DiffersNext(start, c, B, i, x);
    }
  }

  /** A block that has not been dealt with is as resizing left it. */
  lemma BlockAsItWas(now: Bytes, start: Bytes, c: Bytes, B: nat, i: nat)
    requires B > 0 && PatchedTo(now, start, c, B, i) && i < BlockCount(|c|, B)
    ensures Offset(i, B) <= |c| && Block(now, i, B) == Block(start, i, B)
  {
    BlockBounds(|c|, B, i);
  }

  lemma PatchedSkip(now: Bytes, start: Bytes, c: Bytes, B: nat, i: nat)
    requires PatchedTo(now, start, c, B, i) && Offset(i, B) <= |c|
    requires Block(start, i, B) == Block(c, i, B)
    ensures PatchedTo(now, start, c, B, i + 1)
  {
    var o, e := Offset(i, B), BlockEnd(i, B, |c|);
    forall x: nat | o <= x < e ensures start[x] == c[x] {
      assert start[x] == Block(start, i, B)[x - o] && c[x] == Block(c, i, B)[x - o];
    }
  }

  lemma PatchedWrite(now: Bytes, start: Bytes, c: Bytes, B: nat, i: nat)
    requires PatchedTo(now, start, c, B, i) && Offset(i, B) <= |c|
    ensures PatchedTo(Patch(now, Offset(i, B), Block(c, i, B)), start, c, B, i + 1)
  {
    var o, b := Offset(i, B), Block(c, i, B);
    var t := Patch(now, o, b);
    assert Offset(i + 1, B) == o + B && |b| == Min(B, |c| - o);
    forall x: nat | x < |c| ensures t[x] == if x < o + B then c[x] else start[x] {
      if o <= x < o + |b| {
        assert t[x] == b[x - o] == c[x];
      } else {
        assert t[x] == now[x];
      }
    }
  }

  ghost predicate Patching(s: FileState, rs0: seq<Range>, start: Bytes, c: Bytes, B: nat, i: nat) {
    PatchedTo(s.cache, start, c, B, i) && MarkedTo(s.ranges, rs0, start, c, B, i)
  }

  /** One round of the patching loop. */
  method PatchIndex(file: FileData, tx: Tx, idx: nat, store: AttachmentStore, B: nat, h: Checksum,
                    ghost rs0: seq<Range>, ghost start: Bytes, ghost c: Bytes)
    returns (outcome: Outcome)
    requires file.Valid() && B > 0 && store !in file.Footprint() && Injective(h)
    requires Stores(tx, store.blobs, B, c) && WellFormed(tx, store.blobs, B, h) && idx < |tx.sums|
    requires Patching(file.State(), rs0, start, c, B, idx)
    modifies file.Footprint(), store`refused
    ensures file.Valid() && fresh(file.Footprint() - old(file.Footprint()))
    ensures (outcome == Done || outcome == FetchFailed) && file.dirty == old(file.dirty)
    ensures store.refused == old(store.refused) + if outcome == Done then 0 else 1
    ensures outcome == Done ==> Patching(file.State(), rs0, start, c, B, idx + 1)
    ensures outcome == FetchFailed ==>
      && file.State() == old(file.State())
      && Offset(idx, B) <= |c| && Block(start, idx, B) != Block(c, idx, B)
  {
    ghost var now := file.State();
    BlockAsItWas(now.cache, start, c, B, idx);
    assert HoldsBlock(c, tx.ids, store.blobs, B, idx);
    assert BlockWellFormed(tx, store.blobs, B, h, idx);
    OffsetIsProduct(idx, B);
    BlockBounds(|c|, B, idx);
    var ofst := idx * B;
    if ofst >= file.cache.Size() { return Changed; }
    var block := ReadBlock(file, idx, B);
    if tx.sums[idx] == h(block) {
      PatchedSkip(now.cache, start, c, B, idx);
      MarkedKeep(now.ranges, rs0, start, c, B, idx);
    } else {
      var got := store.GetDataFile(tx.ids[idx], |block|);
      if got.None? { return FetchFailed; }
      assert got.value == Block(c, idx, B);
      PatchedWrite(now.cache, start, c, B, idx);
      PatchBlock(file, ofst, got.value);
      MarkedAdd(now.ranges, file.State().ranges, rs0, start, c, B, idx);
    }
    outcome := Done;
  }

  /** A live transaction of this size can be trimmed to without a panic. */
  ghost predicate TrimSafe(s: FileState, size: nat) {
    |s.cache| <= size || TruncateSafe(s.ranges, size)
  }

  /**
   The file after the first `i` blocks of content `c` have been dealt with, `s` being the file
   before: those blocks hold `c`, the rest is what resizing left, and besides what stayed
   marked exactly the differing ones among those blocks are marked.
   */
  ghost predicate PatchedFrom(s: FileState, t: FileState, c: Bytes, B: nat, i: nat) {
    var start := Resize(s.cache, |c|);
    && PatchedTo(t.cache, start, c, B, i)
    && forall x :: Covered(t.ranges, x) <==> StillMarked(s, |c|, x) || DiffersBefore(start, c, B, i, x)
  }

  /** How far into the content the first `i` blocks reach. */
  function Reach(i: nat, B: nat, size: nat): nat { Min(Offset(i, B), size) }

  /** Patching is the live step of the run model, so it too decides if marked bytes are right. */
  lemma PatchedIsLive(s: FileState, t: FileState, c: Bytes, B: nat, i: nat)
    requires PatchedFrom(s, t, c, B, i)
    ensures LivePatched(s, t, c, Reach(i, B, |c|))
    ensures Faithful(Tracked(t, c, map[])) <==> OldMarksAgree(s, c, Reach(i, B, |c|))
  {
    var start := Resize(s.cache, |c|);
    forall x | DiffersBefore(start, c, B, i, x) ensures 0 <= x < Reach(i, B, |c|) {
      var k: nat :| k < i && Differs(start, c, B, k, x);
      BlocksApart(B, k, i);
    }
    LiveFaithfulExactly(Tracked(s, c, map[]), Tracked(t, c, map[]), c, Reach(i, B, |c|));
  }

  /** Its first section alone is the live step that reaches nothing. */
  lemma TrimmedIsLive(s: FileState, t: FileState, c: Bytes)
    requires t.cache == Resize(s.cache, |c|)
    requires forall x :: Covered(t.ranges, x) <==> StillMarked(s, |c|, x)
    ensures LivePatched(s, t, c, 0)
  {}

  /** Block `i` is one that has to be fetched. */
  ghost predicate NeedsFetch(s: FileState, c: Bytes, B: nat, i: nat) {
    Offset(i, B) <= |c| && Block(Resize(s.cache, |c|), i, B) != Block(c, i, B)
  }

  /**
   A remote write applied to an open file, with no other section in between: the file is cut
   or extended to the new size and every block whose checksum differs is fetched. It ends
   with the whole new content, whatever the cache held, exactly when trimming is safe and no
   request was refused; a refusal leaves the first `patched` blocks dealt with.
   */
  method ApplyLiveTx(file: FileData, tx: Tx, store: AttachmentStore, B: nat, h: Checksum)
    returns (outcome: Outcome, patched: nat)
    requires file.Valid() && B > 0 && store !in file.Footprint()
    requires Injective(h) && WellFormed(tx, store.blobs, B, h)
    modifies file.Footprint(), store`refused
    ensures file.Valid() && fresh(file.Footprint() - old(file.Footprint()))
    ensures forall id :: id in tx.ids ==> id in store.blobs
    ensures file.dirty == old(file.dirty)
    ensures outcome == Panicked <==> !TrimSafe(old(file.State()), tx.size)
    ensures outcome == Done <==> TrimSafe(old(file.State()), tx.size) && store.refused == old(store.refused)
    ensures store.refused == old(store.refused) + if outcome == FetchFailed then 1 else 0
    ensures outcome == Done || outcome == FetchFailed || outcome == Panicked
    ensures outcome != Panicked ==>
      var c := Content(tx.ids, store.blobs);
      && PatchedFrom(old(file.State()), file.State(), c, B, patched)
      && LivePatched(old(file.State()), file.State(), c, Reach(patched, B, |c|))
    ensures outcome == Done ==>
      patched == |tx.ids| && file.State().cache == Content(tx.ids, store.blobs)
    ensures outcome == FetchFailed ==>
      patched < |tx.ids| && NeedsFetch(old(file.State()), Content(tx.ids, store.blobs), B, patched)
  {
    ghost var s := file.State();
    patched := 0;
    WellFormedStores(tx, store.blobs, B, h);
    ghost var c := Content(tx.ids, store.blobs);
    var trimmed := TrimTo(file, tx.size);
    if !trimmed { return Panicked, patched; }
    ghost var start, rs0 := Resize(s.cache, tx.size), file.State().ranges;
    outcome, patched := PatchLoop(file, tx, store, B, h, rs0, start, c);
    PatchedIsLive(s, file.State(), c, B, patched);
  }

  /** The first locked section of ApplyLiveTx. */
  method TrimTo(file: FileData, size: nat) returns (ok: bool)
    requires file.Valid()
    modifies file.Footprint()
    ensures file.Valid() && fresh(file.Footprint() - old(file.Footprint()))
    ensures (ok <==> TrimSafe(old(file.State()), size)) && file.dirty == old(file.dirty)
    ensures ok ==> file.State().cache == Resize(old(file.State()).cache, size)
    ensures ok ==> forall x :: Covered(file.State().ranges, x) <==> StillMarked(old(file.State()), size, x)
    ensures ok ==> forall c: Bytes :: |c| == size ==> LivePatched(old(file.State()), file.State(), c, 0)
  {
    ghost var s := file.State();
    ok := true;
    var filesize := file.cache.Size();
    if size < filesize {
      TruncateExact(s.ranges, size);
      ok := file.load.Truncate(size);
      if !ok { return; }
    }
    file.cache.Truncate(size);
    forall c: Bytes | |c| == size ensures LivePatched(s, file.State(), c, 0) {
      TrimmedIsLive(s, file.State(), c);
    }
  }

  method PatchLoop(file: FileData, tx: Tx, store: AttachmentStore, B: nat, h: Checksum,
                   ghost rs0: seq<Range>, ghost start: Bytes, ghost c: Bytes)
    returns (outcome: Outcome, idx: nat)
    requires file.Valid() && B > 0 && store !in file.Footprint() && Injective(h)
    requires Stores(tx, store.blobs, B, c) && WellFormed(tx, store.blobs, B, h)
    requires file.State() == FileState(start, rs0) && |start| == |c|
    modifies file.Footprint(), store`refused
    ensures file.Valid() && fresh(file.Footprint() - old(file.Footprint()))
    ensures (outcome == Done || outcome == FetchFailed) && file.dirty == old(file.dirty)
    ensures store.refused == old(store.refused) + if outcome == Done then 0 else 1
    ensures Patching(file.State(), rs0, start, c, B, idx)
    ensures outcome == Done ==> file.State().cache == c && idx == |tx.ids|
    ensures outcome == FetchFailed ==>
      idx < |tx.ids| && Offset(idx, B) <= |c| && Block(start, idx, B) != Block(c, idx, B)
  {
    idx := 0;
    while idx < |tx.sums|
      invariant 0 <= idx <= |tx.sums|
      invariant file.Valid() && fresh(file.Footprint() - old(file.Footprint())) && store !in file.Footprint()
      invariant Patching(file.State(), rs0, start, c, B, idx) && store.refused == old(store.refused)
      invariant file.dirty == old(file.dirty)
    {
      outcome := PatchIndex(file, tx, idx, store, B, h, rs0, start, c);
      if outcome != Done { return; }
      idx := idx + 1;
    }
    BlockBounds(|c|, B, idx);
    assert file.State().cache == c;
    outcome := Done;
  }

  /** The last locked section of ApplyLiveTx. */
  method PatchBlock(file: FileData, ofst: nat, block: Bytes)
    requires file.Valid() && ofst + |block| <= |file.State().cache|
    modifies file.Footprint()
    ensures file.Valid() && fresh(file.Footprint() - old(file.Footprint()))
    ensures Refetched(old(file.State()), file.State(), block, ofst)
    ensures Landed(old(file.State()), file.State(), block, ofst) && file.dirty == old(file.dirty)
  {
    ghost var s := file.State();
    var n := file.cache.WriteRange(ofst, ofst + |block|, block);
    assert block[..|block|] == block;
    file.load.MarkReady(ofst, ofst + |block|);
    RefetchedLanded(s, file.State(), block, ofst);
  }

  /**
   One client releases a dirty file and another, which has it open with any contents at all,
   receives the transaction. The second ends with the first one's bytes exactly when no
   request was refused and trimming is safe there.
   */
  method ReleaseThenApply(file: FileData, remote: FileData, path: string, mtim: int, ctim: int, previous: Option<Tx>,
                          store: AttachmentStore, B: nat, h: Checksum)
    returns (tx: Option<Tx>, outcome: Option<Outcome>)
    requires file.Valid() && remote.Valid() && file.Footprint() !! remote.Footprint()
    requires store !in file.Footprint() && store !in remote.Footprint()
    requires B > 0 && NeverEmpty(h) && Injective(h)
    requires previous.Some? ==> Summed(previous.value, store.blobs, h)
    modifies store, file`dirty, remote.Footprint()
    ensures file.Valid() && remote.Valid() && file.State() == old(file.State())
    ensures !file.dirty && remote.dirty == old(remote.dirty)
    ensures outcome.Some? <==> tx.Some?
    ensures old(store.refused) <= store.refused <= old(store.refused) + 1
    ensures tx.Some? ==> old(file.dirty)
    ensures old(file.dirty) && store.refused == old(store.refused) ==> tx.Some?
    ensures outcome == Some(Panicked) <==>
      tx.Some? && !TrimSafe(old(remote.State()), |file.State().cache|)
    ensures outcome == Some(Done) <==>
      && old(file.dirty) && store.refused == old(store.refused)
      && TrimSafe(old(remote.State()), |file.State().cache|)
    ensures outcome == Some(Done) ==> remote.State().cache == file.State().cache
  {
    ghost var c := file.State().cache;
    tx := Release(file, path, mtim, ctim, previous, store, B, h);
    outcome := None;
    if tx.Some? {
      PublishedStores(c, previous, tx.value, old(store.blobs), store.blobs, B, h);
      var how, patched := ApplyLiveTx(remote, tx.value, store, B, h);
      outcome := Some(how);
    }
  }

  /**
   A local write survives as a change to be published whatever a live transaction does to the
   file afterwards: the next Release, none of whose requests is refused, returns a transaction.
   */
  method WriteThenApplyThenRelease(file: FileData, b: Bytes, o: nat, live: Tx,
                                   path: string, mtim: int, ctim: int, previous: Option<Tx>,
                                   store: AttachmentStore, B: nat, h: Checksum)
    returns (outcome: Outcome, tx: Option<Tx>)
    requires file.Valid() && store !in file.Footprint()
    requires B > 0 && NeverEmpty(h) && Injective(h) && WellFormed(live, store.blobs, B, h)
    requires previous.Some? ==> |previous.value.sums| <= |previous.value.ids|
    modifies store, file.Footprint()
    ensures file.Valid() && fresh(file.Footprint() - old(file.Footprint()))
    ensures outcome != Panicked ==>
      (tx.Some? <==> store.refused == old(store.refused) + if outcome == Done then 0 else 1)
    ensures outcome == Done ==> Stores(live, old(store.blobs), B, file.State().cache)
    ensures outcome != Panicked && tx.Some? ==> tx.value.size == |file.State().cache| && tx.value.path == path
  {
    WellFormedStores(live, store.blobs, B, h);
    var n := file.Write(b, o);
    var patched: nat;
    outcome, patched := ApplyLiveTx(file, live, store, B, h);
    tx := None;
    if outcome != Panicked {
      tx := Release(file, path, mtim, ctim, previous, store, B, h);
    }
  }
}
