/** Merkle trees laid out in one array, and the branches that prove a leaf. */
module Merkle {
  import opened Options
  import opened Powers

  type Digest = nat

  /** The hash of two hashes put together comes from outside this model. */
  type Combine = (Digest, Digest) -> Digest

  datatype Transaction = Transaction(txid: Digest, wtxid: Digest)

  /** The hash a transaction puts at the bottom of the tree. */
  function Leaf(txns: seq<Transaction>, i: nat, segwit: bool): Digest
    requires i < |txns|
  {
    if !segwit then txns[i].txid else if i == 0 then 0 else txns[i].wtxid
  }

  function Leaves(txns: seq<Transaction>, segwit: bool): (s: seq<Digest>)
    ensures |s| == |txns|
  {
    seq(|txns|, i requires 0 <= i < |txns| => Leaf(txns, i, segwit))
  }

  // ----- The root by its definition -----

  /** One level up: neighbours are combined, an odd last one with itself. */
  function PairUp(s: seq<Digest>, h: Combine): (r: seq<Digest>)
    ensures |r| == (|s| + 1) / 2
  {
    seq((|s| + 1) / 2,
      i requires 0 <= i < (|s| + 1) / 2 => h(s[2 * i], if 2 * i + 1 < |s| then s[2 * i + 1] else s[2 * i]))
  }

  function Root(s: seq<Digest>, h: Combine): Digest
    requires s != []
    decreases |s|
  {
    if |s| == 1 then s[0] else Root(PairUp(s, h), h)
  }

  // ----- The array -----

  /** A cell of the array may be empty. */
  type Cell = Option<Digest>

  function Parent(left: Cell, right: Cell, h: Combine): Cell {
    if left.None? then None
    else if right.None? then Some(h(left.value, left.value))
    else Some(h(left.value, right.value))
  }

  /** The first `width` cells are the leaves, and every later cell is the parent of the
      next two cells from the front. */
  ghost predicate IsStore(store: seq<Cell>, width: nat, h: Combine) {
    && width >= 1 && |store| == 2 * width - 1
    && forall k :: 0 <= k < width - 1 ==> IsParent(store, width, k, h)
  }

  /** The `k`th cell after the leaves is the parent of the `k`th pair of cells. */
  ghost predicate IsParent(store: seq<Cell>, width: nat, k: nat, h: Combine)
    requires width + k < |store| && 2 * k + 1 < |store|
  {
    store[width + k] == Parent(store[2 * k], store[2 * k + 1], h)
  }

  /** The leaves, with empty cells up to the width. */
  ghost predicate Padded(level: seq<Cell>, s: seq<Digest>) {
    && |s| <= |level| < 2 * |s|
    && (forall i :: 0 <= i < |s| ==> level[i] == Some(s[i]))
    && (forall i :: |s| <= i < |level| ==> level[i] == None)
  }

  /** Above the leaves lies the array of the next level. */
  lemma StoreAbove(store: seq<Cell>, q: nat, h: Combine)
    requires q >= 1 && IsStore(store, 2 * q, h)
    ensures IsStore(store[2 * q..], q, h)
  {
    var above := store[2 * q..];
    forall k | 0 <= k < q - 1
      ensures IsParent(above, q, k, h)
    {
      assert IsParent(store, 2 * q, q + k, h);
      assert above[q + k] == store[2 * q + (q + k)];
      assert above[2 * k] == store[2 * (q + k)] && above[2 * k + 1] == store[2 * (q + k) + 1];
    }
  }

  /** The next level is the paired level, padded. */
  lemma PaddedAbove(store: seq<Cell>, q: nat, s: seq<Digest>, h: Combine)
    requires q >= 1 && IsStore(store, 2 * q, h) && Padded(store[..2 * q], s)
    ensures Padded(store[2 * q..][..q], PairUp(s, h))
  {
    var level, above, up := store[..2 * q], store[2 * q..][..q], PairUp(s, h);
    forall i | 0 <= i < q
      ensures above[i] == if i < |up| then Some(up[i]) else None
    {
      assert above[i] == ParentAt(store, q, i, h);
      assert store[2 * i] == level[2 * i] && store[2 * i + 1] == level[2 * i + 1];
    }
  }

  /** A cell of the second level. */
  ghost function ParentAt(store: seq<Cell>, q: nat, i: nat, h: Combine): (c: Cell)
    requires q >= 1 && IsStore(store, 2 * q, h) && i < q
    ensures c == store[2 * q..][..q][i] == store[2 * q + i]
  {
    if i < 2 * q - 1 then
      assert IsParent(store, 2 * q, i, h);
      Parent(store[2 * i], store[2 * i + 1], h)
    else None
  }

  /** The last cell of the array is the root. */
  lemma {:induction false} LastIsRoot(store: seq<Cell>, d: nat, s: seq<Digest>, h: Combine)
    requires IsStore(store, Pow2(d), h) && Padded(store[..Pow2(d)], s)
    ensures store[|store| - 1] == Some(Root(s, h))
    decreases d
  {
    hide PairUp, IsParent;
    if d > 0 {
      var q := Pow2(d - 1);
      StoreAbove(store, q, h);
      PaddedAbove(store, q, s, h);
      LastIsRoot(store[2 * q..], d - 1, PairUp(s, h), h);
    }
  }

  // ----- Building the array -----

  function CeilLog2(n: nat): (d: nat)
    requires n >= 1
    ensures Pow2(d) / 2 < n <= Pow2(d)
  {
    if n == 1 then 0 else 1 + CeilLog2((n + 1) / 2)
  }

  /** The smallest power of two that is not below a number. */
  function NextPowerOfTwo(n: nat): (p: nat)
    requires n >= 1
    ensures n <= p < 2 * n
  {
    Pow2(CeilLog2(n))
  }

  method FillLeaves(merkles: array<Cell>, txns: seq<Transaction>, segwit: bool)
    requires |txns| <= merkles.Length && forall i :: 0 <= i < merkles.Length ==> merkles[i] == None
    modifies merkles
    ensures forall i :: 0 <= i < |txns| ==> merkles[i] == Some(Leaves(txns, segwit)[i])
    ensures forall i :: |txns| <= i < merkles.Length ==> merkles[i] == None
    ensures forall w :: |txns| <= w < 2 * |txns| && w <= merkles.Length ==> Padded(merkles[..w], Leaves(txns, segwit))
  {
    for i := 0 to |txns|
      invariant forall k :: 0 <= k < i ==> merkles[k] == Some(Leaves(txns, segwit)[k])
      invariant forall k :: i <= k < merkles.Length ==> merkles[k] == None
    {
      merkles[i] := Some(Leaf(txns, i, segwit));
    }
  }

  /** Builds the array level by level; its last cell is the root. */
  method BuildMerkleTreeStore(txns: seq<Transaction>, segwit: bool, h: Combine) returns (merkles: array<Cell>)
    requires |txns| >= 1
    ensures IsStore(merkles[..], NextPowerOfTwo(|txns|), h)
    ensures Padded(merkles[..NextPowerOfTwo(|txns|)], Leaves(txns, segwit))
    ensures merkles[merkles.Length - 1] == Some(Root(Leaves(txns, segwit), h))
    ensures !segwit ==> forall i :: 0 <= i < |txns| ==> merkles[i] == Some(txns[i].txid)
    ensures segwit ==> merkles[0] == Some(0) && forall i :: 0 < i < |txns| ==> merkles[i] == Some(txns[i].wtxid)
  {
    hide Root, CeilLog2, Padded, Leaves, Leaf;
    var nextPoT := NextPowerOfTwo(|txns|);
    var arraySize := nextPoT * 2 - 1;
    merkles := new Cell[arraySize](_ => None);
    FillLeaves(merkles, txns, segwit);
    var offset, i := nextPoT, 0;
    while i < arraySize - 1
      invariant 0 <= i <= arraySize - 1 && i == 2 * (offset - nextPoT)
      invariant Padded(merkles[..nextPoT], Leaves(txns, segwit))
      invariant forall k :: 0 <= k < offset - nextPoT ==> IsParent(merkles[..], nextPoT, k, h)
    {
      ghost var was := merkles[..];
      if merkles[i].None? {
        merkles[offset] := None;
      } else if merkles[i + 1].None? {
        merkles[offset] := Some(h(merkles[i].value, merkles[i].value));
      } else {
        merkles[offset] := Some(h(merkles[i].value, merkles[i + 1].value));
      }
      forall k | 0 <= k <= offset - nextPoT
        ensures IsParent(merkles[..], nextPoT, k, h)
      {
        assert k < offset - nextPoT ==> IsParent(was, nextPoT, k, h);
      }
      assert merkles[..nextPoT] == was[..nextPoT];
      offset := offset + 1;
      i := i + 2;
    }
    LastIsRoot(merkles[..], CeilLog2(|txns|), Leaves(txns, segwit), h);
    LeavesAre(merkles[..nextPoT], txns, segwit);
  }

  /** What is at the bottom of the array. */
  lemma LeavesAre(level: seq<Cell>, txns: seq<Transaction>, segwit: bool)
    requires Padded(level, Leaves(txns, segwit)) && |txns| >= 1
    ensures !segwit ==> forall i :: 0 <= i < |txns| ==> level[i] == Some(txns[i].txid)
    ensures segwit ==> level[0] == Some(0) && forall i :: 0 < i < |txns| ==> level[i] == Some(txns[i].wtxid)
  {
  }

  // ----- What the root depends on -----

  /** A root over witness hashes does not depend on the first transaction, and one over plain
      hashes not on any witness. */
  lemma RootDependsOn(txns: seq<Transaction>, txns': seq<Transaction>, segwit: bool, h: Combine)
    requires |txns| == |txns'| >= 1
    requires forall i :: 0 <= i < |txns| ==>
      if segwit then i > 0 ==> txns[i].wtxid == txns'[i].wtxid else txns[i].txid == txns'[i].txid
    ensures Root(Leaves(txns, segwit), h) == Root(Leaves(txns', segwit), h)
  {
    assert Leaves(txns, segwit) == Leaves(txns', segwit);
  }

  // ----- The root as a tree -----

  /** The root of a tree of depth `d`, from the top down: the left half is full, and without a
      right half the left one stands for it. */
  function TreeRoot(s: seq<Digest>, d: nat, h: Combine): Digest
    requires 1 <= |s| <= Pow2(d)
  {
    if d == 0 then s[0]
    else
      var half := Pow2(d - 1);
      if |s| <= half then h(TreeRoot(s, d - 1, h), TreeRoot(s, d - 1, h))
      else h(TreeRoot(s[..half], d - 1, h), TreeRoot(s[half..], d - 1, h))
  }

  /** Pairing the leaves takes one level off the bottom. */
  lemma {:induction false} PairUpIsLevel(s: seq<Digest>, d: nat, h: Combine)
    requires 1 <= |s| <= Pow2(d + 1)
    ensures 1 <= |PairUp(s, h)| <= Pow2(d) && TreeRoot(s, d + 1, h) == TreeRoot(PairUp(s, h), d, h)
    decreases d
  {
    hide PairUp, Pow2;
    HalfAgain(d);
    if d == 0 {
      BottomLevel(s, h);
    } else if |s| <= Pow2(d) {
      HalfAgain(d - 1);
      PairUpIsLevel(s, d - 1, h);
    } else {
      HalfAgain(d - 1);
      PairUpIsLevel(s[..Pow2(d)], d - 1, h);
      PairUpIsLevel(s[Pow2(d)..], d - 1, h);
      PairUpSplits(s, Pow2(d - 1), h);
    }
  }

  lemma HalfAgain(d: nat)
    ensures Pow2(d + 1) == 2 * Pow2(d) && Pow2(0) == 1
  {
  }

  lemma BottomLevel(s: seq<Digest>, h: Combine)
    requires 1 <= |s| <= 2
    ensures Pow2(1) == 2 && Pow2(0) == 1 && TreeRoot(s, 1, h) == TreeRoot(PairUp(s, h), 0, h)
  {
    assert s[1..] == if |s| == 2 then [s[1]] else [];
  }

  lemma PairUpSplits(s: seq<Digest>, q: nat, h: Combine)
    requires 2 * q <= |s|
    ensures PairUp(s, h)[..q] == PairUp(s[..2 * q], h) && PairUp(s, h)[q..] == PairUp(s[2 * q..], h)
  {
  }

  /** Pairing level by level gives the root of the smallest tree that holds the leaves. */
  lemma {:induction false} RootIsTreeRoot(s: seq<Digest>, h: Combine)
    requires s != []
    ensures Root(s, h) == TreeRoot(s, CeilLog2(|s|), h)
    decreases |s|
  {
    hide PairUp, TreeRoot;
    if |s| == 1 {
      OneLeaf(s, h);
    } else {
      RootIsTreeRoot(PairUp(s, h), h);
      PairUpIsLevel(s, CeilLog2(|PairUp(s, h)|), h);
    }
  }

  lemma OneLeaf(s: seq<Digest>, h: Combine)
    requires |s| == 1
    ensures TreeRoot(s, 0, h) == s[0] && CeilLog2(1) == 0
  {
  }

  // ----- Branches -----

  function Sibling(i: nat): nat {
    if i % 2 == 0 then i + 1 else i - 1
  }

  /** The siblings met on the way from a leaf to the root. */
  ghost function Branch(store: seq<Cell>, d: nat, i: nat): (r: seq<Cell>)
    requires |store| == 2 * Pow2(d) - 1 && i < Pow2(d)
    ensures |r| == d
    decreases d
  {
    if d == 0 then [] else [store[Sibling(i)]] + Branch(store[Pow2(d)..], d - 1, i / 2)
  }

  /** One step up from a node at position `i` and its sibling. */
  function Climb(x: Digest, i: nat, sibling: Cell, h: Combine): Digest {
    if sibling.None? then h(x, x) else if i % 2 == 0 then h(x, sibling.value) else h(sibling.value, x)
  }

  function Fold(x: Digest, i: nat, branch: seq<Cell>, h: Combine): Digest
    decreases |branch|
  {
    if branch == [] then x else Fold(Climb(x, i, branch[0], h), i / 2, branch[1..], h)
  }

  /** Folding a leaf with its branch gives the root. */
  lemma {:induction false} BranchProves(store: seq<Cell>, d: nat, s: seq<Digest>, i: nat, h: Combine)
    requires IsStore(store, Pow2(d), h) && Padded(store[..Pow2(d)], s) && i < |s|
    ensures Fold(s[i], i, Branch(store, d, i), h) == Root(s, h)
    decreases d
  {
    if d > 0 {
      var q := Pow2(d - 1);
      StoreAbove(store, q, h);
      PaddedAbove(store, q, s, h);
      assert store[Sibling(i)] == store[..2 * q][Sibling(i)];
      assert Climb(s[i], i, store[Sibling(i)], h) == PairUp(s, h)[i / 2];
      BranchProves(store[2 * q..], d - 1, PairUp(s, h), i / 2, h);
    }
  }

  /** The fold of the share check: every hash of the branch goes to the right. */
  function LeftFold(x: Digest, branch: seq<Digest>, h: Combine): Digest
    decreases |branch|
  {
    if branch == [] then x else LeftFold(h(x, branch[0]), branch[1..], h)
  }

  predicate Full(branch: seq<Cell>) {
    forall i :: 0 <= i < |branch| ==> branch[i].Some?
  }

  function Hashes(branch: seq<Cell>): (r: seq<Digest>)
    requires Full(branch)
    ensures |r| == |branch|
  {
    if branch == [] then [] else [branch[0].value] + Hashes(branch[1..])
  }

  lemma FirstPair(store: seq<Cell>, q: nat, s: seq<Digest>, h: Combine)
    requires q >= 1 && 2 * q <= |store| && Padded(store[..2 * q], s)
    ensures |s| >= 2 && store[1] == Some(s[1]) && PairUp(s, h)[0] == h(s[0], s[1])
  {
    assert store[1] == store[..2 * q][1];
  }

  /** The branch of the first leaf has no empty cell, and the left-only fold takes it to the
      root: the share check accepts what is served. */
  lemma {:induction false} FirstBranchFull(store: seq<Cell>, d: nat, s: seq<Digest>, h: Combine)
    requires IsStore(store, Pow2(d), h) && Padded(store[..Pow2(d)], s)
    ensures Full(Branch(store, d, 0))
    ensures LeftFold(s[0], Hashes(Branch(store, d, 0)), h) == Root(s, h)
    decreases d
  {
    hide PairUp;
    if d > 0 {
      var q := Pow2(d - 1);
      StoreAbove(store, q, h);
      PaddedAbove(store, q, s, h);
      FirstPair(store, q, s, h);
      var rest := Branch(store[2 * q..], d - 1, 0);
      FirstBranchFull(store[2 * q..], d - 1, PairUp(s, h), h);
      assert Branch(store, d, 0) == [Some(s[1])] + rest;
      assert Hashes([Some(s[1])] + rest) == [s[1]] + Hashes(rest);
      assert ([s[1]] + Hashes(rest))[1..] == Hashes(rest);
    }
  }

  function TrailingZeros(n: nat): nat
    requires n >= 1
  {
    if n % 2 == 1 then 0 else 1 + TrailingZeros(n / 2)
  }

  lemma {:induction false} TrailingZerosOfPow2(d: nat)
    ensures TrailingZeros(Pow2(d)) == d
  {
    if d > 0 {
      TrailingZerosOfPow2(d - 1);
    }
  }

  lemma BranchStep(tree: seq<Cell>, idx: nat, o: nat, ino: nat)
    requires o > 0 && idx <= |tree| && |tree[idx..]| == 2 * Pow2(o) - 1 && ino < Pow2(o)
    ensures Pow2(o) == 2 * Pow2(o - 1) && idx + Pow2(o) <= |tree| && ino / 2 < Pow2(o - 1) && Sibling(ino) < Pow2(o)
    ensures Branch(tree[idx..], o, ino) == [tree[idx + Sibling(ino)]] + Branch(tree[idx + Pow2(o)..], o - 1, ino / 2)
  {
    assert tree[idx..][Sibling(ino)] == tree[idx + Sibling(ino)];
    assert tree[idx..][Pow2(o)..] == tree[idx + Pow2(o)..];
  }

  lemma BranchDone(store: seq<Cell>, ino: nat)
    requires |store| == 2 * Pow2(0) - 1 && ino < Pow2(0)
    ensures Branch(store, 0, ino) == []
  {
  }

  /** Walks up from a leaf, one level at a time. */
  method CollectBranch(txIndex: nat, tree: seq<Cell>, depth: nat) returns (out: seq<Cell>)
    requires |tree| == 2 * Pow2(depth) - 1 && txIndex < Pow2(depth)
    ensures out == Branch(tree, depth, txIndex)
  {
    hide Branch, Pow2, Sibling;
    out := [];
    var ino: nat, idx: nat, o: nat := txIndex, 0, depth;
    assert tree[idx..] == tree;
    while o > 0
      invariant idx <= |tree| && |tree[idx..]| == 2 * Pow2(o) - 1 && ino < Pow2(o)
      invariant out + Branch(tree[idx..], o, ino) == Branch(tree, depth, txIndex)
    {
      BranchStep(tree, idx, o, ino);
      out := out + [tree[idx + Sibling(ino)]];
      idx := idx + Pow2(o);
      ino := ino / 2;
      o := o - 1;
    }
    BranchDone(tree[idx..], ino);
  }

  /** The branch of a leaf, read off the array. */
  method GetMerkleBranch(txIndex: nat, tree: seq<Cell>, ghost d: nat) returns (out: seq<Cell>)
    requires |tree| == 2 * Pow2(d) - 1 && txIndex < Pow2(d)
    ensures out == Branch(tree, d, txIndex)
  {
    if |tree| < 2 {
      return [];
    }
    TrailingZerosOfPow2(d);
    var depth := TrailingZeros((|tree| + 1) / 2);
    out := CollectBranch(txIndex, tree, depth);
  }

  /** The share check's loop. */
  method CheckShare(txHash: Digest, branch: seq<Digest>, root: Digest, h: Combine) returns (ok: bool)
    ensures ok <==> LeftFold(txHash, branch, h) == root
  {
    var hash := txHash;
    for i := 0 to |branch|
      invariant LeftFold(hash, branch[i..], h) == LeftFold(txHash, branch, h)
    {
      assert branch[i..][1..] == branch[i + 1..];
      hash := h(hash, branch[i]);
    }
    return hash == root;
  }

  /** The branch served with a template takes its first transaction to the header's root. */
  method ServedBranchAccepted(txns: seq<Transaction>, h: Combine) returns (ok: bool)
    requires |txns| >= 1
    ensures ok
  {
    hide Root, Branch, LeftFold, IsStore, Padded, CeilLog2;
    var merkles := BuildMerkleTreeStore(txns, false, h);
    ghost var d := CeilLog2(|txns|);
    StoreSize(merkles[..], d, h);
    var proof := GetMerkleBranch(0, merkles[..], d);
    FirstBranchFull(merkles[..], d, Leaves(txns, false), h);
    ok := CheckShare(txns[0].txid, Hashes(proof), merkles[merkles.Length - 1].value, h);
  }

  lemma StoreSize(store: seq<Cell>, d: nat, h: Combine)
    requires IsStore(store, Pow2(d), h)
    ensures |store| == 2 * Pow2(d) - 1
  {
  }
}
