/**
 How a file body is cut into blocks of a fixed positive size `B` and stored as attachments.
 The checksum is a function on blocks that is never empty; where blocks are identified by
 their checksums it is taken to be injective.
 */
module Blocks {
  import opened Prelude
  import opened Transactions

  type Checksum = Bytes -> string

  ghost predicate Injective(h: Checksum) {
    forall a: Bytes, b: Bytes {:trigger h(a), h(b)} :: h(a) == h(b) ==> a == b
  }

  ghost predicate NeverEmpty(h: Checksum) {
    forall a: Bytes {:trigger h(a)} :: h(a) != ""
  }

  /** Where block `i` starts, without the product. */
  function Offset(i: nat, B: nat): nat {
    if i == 0 then 0 else Offset(i - 1, B) + B
  }

  function BlockCount(size: nat, B: nat): nat
    requires B > 0
  {
    size / B + if size % B != 0 then 1 else 0
  }

  function BlockEnd(i: nat, B: nat, size: nat): int { Min(Offset(i, B) + B, size) }

  lemma {:induction false} OffsetIsProduct(i: nat, B: nat)
    ensures Offset(i, B) == i * B
  {
    if i > 0 {
      OffsetIsProduct(i - 1, B);
      assert i * B == (i - 1) * B + B;
    }
  }

  /** Distinct blocks do not overlap. */
  lemma {:induction false} BlocksApart(B: nat, i: nat, j: nat)
    requires i < j
    ensures Offset(i, B) + B <= Offset(j, B)
  {
    if i + 1 < j { BlocksApart(B, i, j - 1); }
  }

  lemma BlockBounds(size: nat, B: nat, i: nat)
    requires B > 0
    ensures i < BlockCount(size, B) <==> Offset(i, B) < size
  {
    var q := size / B;
    OffsetIsProduct(q, B);
    assert size == q * B + size % B;
    assert Offset(q + 1, B) == Offset(q, B) + B;
    if i < q {
      BlocksApart(B, i, q);
    } else if q + 1 < i {
      BlocksApart(B, q + 1, i);
    }
  }

  /** The block that holds offset `x`. */
  lemma BlockOf(size: nat, B: nat, x: nat) returns (i: nat)
    requires B > 0 && x < size
    ensures i < BlockCount(size, B) && Offset(i, B) <= x < BlockEnd(i, B, size)
  {
    i := x / B;
    OffsetIsProduct(i, B);
    assert x == i * B + x % B;
    BlockBounds(size, B, i);
  }

  function Block(c: Bytes, i: nat, B: nat): Bytes
    requires Offset(i, B) <= |c|
  {
    c[Offset(i, B)..BlockEnd(i, B, |c|)]
  }

  /** The stored blocks, one after the other. */
  function Content(ids: seq<string>, blobs: map<string, Bytes>): Bytes
    requires forall id :: id in ids ==> id in blobs
  {
    if ids == [] then []
    else Content(ids[..|ids| - 1], blobs) + blobs[ids[|ids| - 1]]
  }

  /** Entry `i` of `ids` names an attachment that holds block `i` of `c`. */
  ghost predicate HoldsBlock(c: Bytes, ids: seq<string>, blobs: map<string, Bytes>, B: nat, i: nat)
    requires i < |ids|
  {
    Offset(i, B) <= |c| && ids[i] in blobs && blobs[ids[i]] == Block(c, i, B)
  }

  /** `c` is what the blocks of `tx` spell, block by block. */
  ghost predicate Stores(tx: Tx, blobs: map<string, Bytes>, B: nat, c: Bytes)
    requires B > 0
  {
    && |c| == tx.size && |tx.ids| == BlockCount(tx.size, B)
    && forall i :: 0 <= i < |tx.ids| ==> HoldsBlock(c, tx.ids, blobs, B, i)
  }

  ghost predicate BlockWellFormed(tx: Tx, blobs: map<string, Bytes>, B: nat, h: Checksum, i: nat)
    requires i < |tx.ids| == |tx.sums|
  {
    && tx.ids[i] in blobs && tx.sums[i] == h(blobs[tx.ids[i]])
    && Offset(i, B) + |blobs[tx.ids[i]]| == BlockEnd(i, B, tx.size)
  }

  /** One id and one checksum per block, and every block present, of its size and summed. */
  ghost predicate WellFormed(tx: Tx, blobs: map<string, Bytes>, B: nat, h: Checksum)
    requires B > 0
  {
    && |tx.ids| == |tx.sums| == BlockCount(tx.size, B)
    && forall i :: 0 <= i < |tx.ids| ==> BlockWellFormed(tx, blobs, B, h, i)
  }

  lemma {:induction false} ContentPrefix(tx: Tx, blobs: map<string, Bytes>, B: nat, c: Bytes, n: nat)
    requires B > 0 && Stores(tx, blobs, B, c) && n <= |tx.ids|
    ensures forall i :: 0 <= i < n ==> tx.ids[i] in blobs
    ensures Content(tx.ids[..n], blobs) == c[..Min(Offset(n, B), tx.size)]
  {
    forall i | 0 <= i < n ensures tx.ids[i] in blobs {
      assert HoldsBlock(c, tx.ids, blobs, B, i);
    }
    if n > 0 {
      var m := n - 1;
      ContentPrefix(tx, blobs, B, c, m);
      assert HoldsBlock(c, tx.ids, blobs, B, m);
      assert tx.ids[..n][..m] == tx.ids[..m];
      BlockBounds(tx.size, B, m);
      assert Offset(n, B) == Offset(m, B) + B;
      assert c[..Offset(m, B)] + Block(c, m, B) == c[..BlockEnd(m, B, tx.size)];
    }
  }

  /** Block-wise agreement fixes the whole content. */
  lemma StoresContent(tx: Tx, blobs: map<string, Bytes>, B: nat, c: Bytes)
    requires B > 0 && Stores(tx, blobs, B, c)
    ensures forall id :: id in tx.ids ==> id in blobs
    ensures Content(tx.ids, blobs) == c
  {
    var n := |tx.ids|;
    ContentPrefix(tx, blobs, B, c, n);
    assert tx.ids[..n] == tx.ids;
    BlockBounds(tx.size, B, n);
    assert c[..|c|] == c;
  }

  /** Appending a block of the right size keeps the earlier blocks in place. */
  lemma LayoutNext(ids: seq<string>, blobs: map<string, Bytes>, B: nat, c: Bytes, m: nat, block: Bytes)
    requires m < |ids| && |c| == Offset(m, B) && |block| <= B
    requires ids[m] in blobs && blobs[ids[m]] == block
    requires forall i :: 0 <= i < m ==> HoldsBlock(c, ids, blobs, B, i)
    ensures forall i :: 0 <= i <= m ==> HoldsBlock(c + block, ids, blobs, B, i)
  {
    forall i | 0 <= i <= m ensures HoldsBlock(c + block, ids, blobs, B, i) {
      if i == m {
        assert Block(c + block, m, B) == block;
      } else {
        assert HoldsBlock(c, ids, blobs, B, i);
        BlocksApart(B, i, m);
        assert Block(c + block, i, B) == Block(c, i, B);
      }
    }
  }

  lemma {:induction false} LayoutPrefix(tx: Tx, blobs: map<string, Bytes>, B: nat, h: Checksum, n: nat)
    requires B > 0 && WellFormed(tx, blobs, B, h) && n <= |tx.ids|
    ensures forall i :: 0 <= i < n ==> tx.ids[i] in blobs
    ensures |Content(tx.ids[..n], blobs)| == Min(Offset(n, B), tx.size)
    ensures forall i :: 0 <= i < n ==> HoldsBlock(Content(tx.ids[..n], blobs), tx.ids, blobs, B, i)
  {
    forall i | 0 <= i < n ensures tx.ids[i] in blobs {
      assert BlockWellFormed(tx, blobs, B, h, i);
    }
    if n > 0 {
      var m := n - 1;
      LayoutPrefix(tx, blobs, B, h, m);
      assert tx.ids[..n][..m] == tx.ids[..m];
      assert BlockWellFormed(tx, blobs, B, h, m);
      BlockBounds(tx.size, B, m);
      LayoutNext(tx.ids, blobs, B, Content(tx.ids[..m], blobs), m, blobs[tx.ids[m]]);
    }
  }

  /** A well-formed transaction stores its content. */
  lemma WellFormedStores(tx: Tx, blobs: map<string, Bytes>, B: nat, h: Checksum)
    requires B > 0 && WellFormed(tx, blobs, B, h)
    ensures forall id :: id in tx.ids ==> id in blobs
    ensures Stores(tx, blobs, B, Content(tx.ids, blobs))
  {
    var n := |tx.ids|;
    LayoutPrefix(tx, blobs, B, h, n);
    assert tx.ids[..n] == tx.ids;
    BlockBounds(tx.size, B, n);
  }
}
