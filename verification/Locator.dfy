/** Block locators: exponentially spaced ancestor hashes, the five-step logarithm that
    sizes them, and the search that answers them. */
module Locator {
  import opened BlockTree
  import BlockIndex
  import opened ChainView
  import opened Powers

  /** The exponent of the highest power of two that fits in `n`; zero for zero. */
  ghost predicate IsLog2Floor(n: nat, r: nat) {
    Pow2(r) <= n < Pow2(r + 1) || (n == 0 && r == 0)
  }

  lemma Log2FloorUnique(n: nat, r: nat, s: nat)
    requires IsLog2Floor(n, r) && IsLog2Floor(n, s)
    ensures r == s
  {
    if r < s {
      Pow2Grows(r + 1, s);
    } else if s < r {
      Pow2Grows(s + 1, r);
    }
  }

  /** Dropping `e` low bits of a number that has more than `e` bits lowers its logarithm by `e`. */
  lemma Log2Shift(n: nat, e: nat, r: nat)
    requires n >= Pow2(e)
    requires IsLog2Floor(Shr(n, e), r)
    ensures IsLog2Floor(n, r + e)
  {
    var p, q := Pow2(e), Shr(n, e);
    ShrBounds(n, e);
    assert q >= 1;
    Pow2Add(r, e);
    Pow2Add(r + 1, e);
    MulLe(Pow2(r), q, p);
    MulLe(q + 1, Pow2(r + 1), p);
    assert Pow2(r + e + 1) == Pow2(r + 1 + e);
  }

  /** Whether `n` has any of the `e` bits from 2^e up, which is what the mask
      (2^e - 1) * 2^e selects. */
  predicate MaskHits(n: nat, e: nat) {
    Shr(n, e) % Pow2(e) != 0
  }

  lemma MaskTest(n: nat, e: nat)
    requires n < Pow2(2 * e)
    ensures MaskHits(n, e) <==> n >= Pow2(e)
    ensures Shr(n, e) < Pow2(e)
  {
    hide Pow2, Shr;
    Pow2Add(e, e);
    ShrBounds(n, e);
    SmallShift(n, Pow2(e), Shr(n, e));
    SmallMod(Shr(n, e), Pow2(e));
  }

  lemma SmallShift(n: nat, p: nat, q: nat)
    requires q * p <= n < (q + 1) * p && n < p * p
    ensures q < p && (q != 0 <==> n >= p)
  {
    if q >= p {
      MulLe(p, q, p);
    } else if q >= 1 {
      MulLe(1, q, p);
    }
  }

  /** What is left to find: the logarithm of `num` is `rv` more than that of `n`. */
  ghost predicate LogRemains(num: nat, n: nat, rv: nat) {
    forall r: nat :: IsLog2Floor(n, r) ==> IsLog2Floor(num, r + rv)
  }

  lemma LogStep(num: nat, n: nat, rv: nat, e: nat)
    requires n < Pow2(2 * e) && LogRemains(num, n, rv)
    ensures MaskHits(n, e) ==> LogRemains(num, Shr(n, e), rv + e) && Shr(n, e) < Pow2(e)
    ensures !MaskHits(n, e) ==> n < Pow2(e)
  {
    MaskTest(n, e);
    if MaskHits(n, e) {
      forall r: nat | IsLog2Floor(Shr(n, e), r)
        ensures IsLog2Floor(num, r + (rv + e))
      {
        Log2Shift(n, e, r);
        assert IsLog2Floor(num, r + e + rv);
      }
    }
  }

  lemma Pow2Of32()
    ensures Pow2(32) == 0x1_0000_0000
  {
    assert Pow2(8) == 0x100;
    Pow2Add(8, 8);
    Pow2Add(16, 16);
  }

  /** floor(log2(num)) in five halving steps. */
  method FastLog2Floor(num: nat) returns (rv: nat)
    requires num < 0x1_0000_0000
    ensures IsLog2Floor(num, rv)
    ensures rv < 32
  {
    hide MaskHits;
    Pow2Of32();
    rv := 0;
    var n: nat := num;
    var exponent := 16;
    ghost var bound := 32;
    for i := 0 to 5
      invariant exponent == [16, 8, 4, 2, 1, 0][i]
      invariant bound == if i == 5 then 1 else 2 * exponent
      invariant rv + bound <= 32
      invariant n < Pow2(bound)
      invariant LogRemains(num, n, rv)
    {
      LogStep(num, n, rv, exponent);
      if MaskHits(n, exponent) {
        rv := rv + exponent;
        n := Shr(n, exponent);
      }
      bound := exponent;
      exponent := exponent / 2;
    }
    assert IsLog2Floor(n, 0);
  }

  // ----- Building a locator -----

  /** Height of entry `i` before it is cut off at genesis: eleven consecutive heights,
      then steps that double. */
  ghost function RawHeight(h: nat, i: nat): int {
    if i <= 10 then h - i else h - 9 - Pow2(i - 10)
  }

  ghost function EntryHeight(h: nat, i: nat): nat {
    if RawHeight(h, i) < 0 then 0 else RawHeight(h, i)
  }

  ghost function StepAfter(i: nat): nat {
    if i <= 10 then 1 else Pow2(i - 10)
  }

  /** The promised number of entries for a node of height `h`. */
  ghost predicate IsLocatorLength(h: nat, len: nat) {
    if h <= 12 then len == h + 1 else len >= 12 && IsLog2Floor(h - 10, len - 12)
  }

  /** The locator of a branch lists the hashes at the entry heights below its last node. */
  ghost predicate IsLocator(locator: seq<Hash>, branch: seq<BlockNode>) {
    branch != [] && IsLocatorLength(|branch| - 1, |locator|) && ListsEntries(locator, |branch| - 1, branch)
  }

  ghost predicate ListsEntries(locator: seq<Hash>, h: nat, branch: seq<BlockNode>)
    requires |branch| == h + 1
  {
    forall i :: 0 <= i < |locator| ==> EntryHeight(h, i) <= h && locator[i] == branch[EntryHeight(h, i)].hash
  }

  lemma ListsOneMore(locator: seq<Hash>, h: nat, branch: seq<BlockNode>, node: BlockNode)
    requires |branch| == h + 1 && ListsEntries(locator, h, branch)
    requires EntryHeight(h, |locator|) <= h && node == branch[EntryHeight(h, |locator|)]
    ensures ListsEntries(locator + [node.hash], h, branch)
  {
  }

  lemma RawStep(h: nat, i: nat)
    ensures RawHeight(h, i + 1) == RawHeight(h, i) - StepAfter(i)
    ensures StepAfter(i) >= 1
    ensures StepAfter(i + 1) == if i >= 10 then 2 * StepAfter(i) else StepAfter(i)
  {
  }

  /** While heights stay above genesis the step fits 31 bits. */
  lemma StepFits(h: nat, i: nat)
    requires h < 0x8000_0000 && RawHeight(h, i) > 0
    ensures StepAfter(i) < 0x8000_0000
  {
  }

  /** One step of the walk: the next height, and the step to take from there unless that
      is genesis. */
  lemma EntryStep(h: nat, i: nat)
    requires h < 0x8000_0000 && EntryHeight(h, i) > 0
    ensures
      var next := EntryHeight(h, i) - StepAfter(i);
      EntryHeight(h, i + 1) == (if next < 0 then 0 else next) < EntryHeight(h, i)
    ensures EntryHeight(h, i + 1) > 0 ==>
      StepAfter(i + 1) == if i >= 10 then Int32(2 * StepAfter(i)) else StepAfter(i)
  {
    RawStep(h, i);
    if EntryHeight(h, i + 1) > 0 {
      StepFits(h, i + 1);
    }
  }

  lemma {:induction false} RawDescends(h: nat, i: nat, j: nat)
    requires i <= j
    ensures RawHeight(h, j) <= RawHeight(h, i) - (j - i)
    decreases j
  {
    if i < j {
      RawDescends(h, i, j - 1);
      RawStep(h, j - 1);
    }
  }

  /** The walk reaches genesis at exactly the promised entry. */
  lemma LengthAtGenesis(h: nat, i: nat)
    requires EntryHeight(h, i) == 0 && (i == 0 || EntryHeight(h, i - 1) > 0)
    ensures IsLocatorLength(h, i + 1)
  {
    if h > 10 && i > 11 {
      assert Pow2(i - 11) < h - 9 <= Pow2(i - 10);
      if h <= 12 {
        Pow2Grows(i - 11, i - 10);
        assert i == 12;
      }
    }
  }

  lemma EndsAtGenesis(h: nat, len: nat)
    requires IsLocatorLength(h, len)
    ensures len >= 1 && RawHeight(h, len - 1) <= 0 && EntryHeight(h, len - 1) == 0
    ensures len >= 2 ==> RawHeight(h, len - 2) > 0
  {
  }

  /** Locator heights start at the node, strictly descend and end at genesis. */
  lemma LocatorShape(h: nat, len: nat)
    requires IsLocatorLength(h, len)
    ensures EntryHeight(h, 0) == h
    ensures len >= 1 && EntryHeight(h, len - 1) == 0
    ensures forall i, j :: 0 <= i < j < len ==> EntryHeight(h, j) < EntryHeight(h, i)
  {
    EndsAtGenesis(h, len);
    forall i, j | 0 <= i < j < len
      ensures EntryHeight(h, j) < EntryHeight(h, i)
    {
      RawDescends(h, i, len - 2);
      RawDescends(h, i, j);
    }
  }

  function Int32(x: int): (r: int)
    ensures -0x8000_0000 <= r < 0x8000_0000
    ensures -0x8000_0000 <= x < 0x8000_0000 ==> r == x
  {
    if -0x8000_0000 <= x < 0x8000_0000 then x
    else (x + 0x8000_0000) % 0x1_0000_0000 - 0x8000_0000
  }

  /** The capacity reserved for the locator of a node is its exact length. */
  method MaxEntries(height: nat) returns (maxEntries: nat)
    requires height < 0x8000_0000
    ensures IsLocatorLength(height, maxEntries)
    ensures maxEntries < 0x100
  {
    if height <= 12 {
      maxEntries := height + 1;
    } else {
      var log := FastLog2Floor(height - 10);
      maxEntries := 12 + log;
    }
  }

  /** From a node of a branch to a lower one: a slot lookup when the view contains the
      node, a parent walk otherwise. */
  method Hop(view: View, ghost top: BlockNode, node: BlockNode, height: nat) returns (r: BlockNode)
    requires view.Valid() && Rooted(top)
    requires height <= node.height <= top.height && node == Lineage(top)[node.height]
    ensures r == Lineage(top)[height] && r.height == height
  {
    hide Linked, Lineage, Rooted;
    LineageIsLinked(top);
    LineagePrefix(top, node.height);
    LineagePrefix(top, height);
    if view.Contains(node) {
      LinkedAgree(Lineage(top), view.Branch(), node.height);
      r := view.nodes[height];
    } else {
      r := Ancestor(node, height);
    }
  }

  /** Builds the locator of a node, or of the tip when none is given.  The 32-bit step may
      wrap around only after its last use. */
  method BlockLocator(view: View, start: BlockNode?) returns (locator: seq<Hash>)
    requires view.Valid() && view.len <= 0x8000_0000
    requires start != null ==> Rooted(start) && start.height < 0x8000_0000
    ensures start == null && view.len == 0 ==> locator == []
    ensures start != null ==> IsLocator(locator, Lineage(start))
    ensures start == null && view.len > 0 ==> IsLocator(locator, view.Branch())
  {
    var node := start;
    if node == null {
      node := view.Tip();
      if node != null {
        view.BranchOfTip();
      }
    }
    if node == null {
      return [];
    }
    var capacity;
    locator, capacity := LocatorFrom(view, node);
  }

  // ----- Every so many blocks -----

  datatype Interval = Hashes(hashes: seq<Hash>) | UnknownBlock | NotValidated

  /** The hashes at the positive multiples of the interval along a line. */
  ghost predicate AtMultiples(hashes: seq<Hash>, line: seq<BlockNode>, interval: nat) {
    interval > 0 && line != [] && |hashes| == Quotient(|line| - 1, interval)
    && forall i {:trigger Product(i, interval)} :: 1 <= i <= |hashes| ==>
      Product(i, interval) < |line| && hashes[i - 1] == line[Product(i, interval)].hash
  }

  lemma MultipleFits(i: nat, h: nat, interval: nat)
    requires interval > 0 && i <= Quotient(h, interval)
    ensures Product(i, interval) <= h
    ensures i > 0 ==> Product(i - 1, interval) <= Product(i, interval)
  {
    DivBounds(h, interval);
    MulLe(i, Quotient(h, interval), interval);
    if i > 0 {
      MulLe(i - 1, i, interval);
    }
  }

  /** Walks down the multiples of the interval below a node. */
  method WalkMultiples(view: View, end: BlockNode, interval: nat) returns (hashes: seq<Hash>)
    requires view.Valid() && Rooted(end) && interval > 0
    ensures AtMultiples(hashes, Lineage(end), interval)
  {
    hide Product, Quotient, Linked, Rooted, Lineage;
    var count := Quotient(end.height, interval);
    hashes := seq(count, _ => 0);
    var node, i := end, count;
    MultipleFits(count, end.height, interval);
    while i > 0
      invariant i <= count && |hashes| == count && Product(i, interval) <= node.height <= end.height
      invariant node == Lineage(end)[node.height]
      invariant forall j {:trigger Product(j, interval)} :: i < j <= count ==>
        Product(j, interval) <= end.height && hashes[j - 1] == Lineage(end)[Product(j, interval)].hash
    {
      node := Hop(view, end, node, Product(i, interval));
      hashes := hashes[i - 1 := node.hash];
      MultipleFits(i, end.height, interval);
      i := i - 1;
    }
  }

  /** The hashes of a validated block's ancestors at every positive multiple of the
      interval, whatever the view. */
  method IntervalBlockHashes(index: BlockIndex.Index, view: View, endHash: Hash, interval: nat) returns (r: Interval)
    requires index.Valid() && view.Valid() && interval > 0
    ensures r == UnknownBlock <==> endHash !in index.index
    ensures r == NotValidated <==> endHash in index.index && !KnownValid(index.index[endHash].status)
    ensures r.Hashes? ==>
      && endHash in index.index && Rooted(index.index[endHash])
      && AtMultiples(r.hashes, Lineage(index.index[endHash]), interval)
  {
    var end := index.LookupNode(endHash);
    if end == null {
      return UnknownBlock;
    }
    if !KnownValid(end.status) {
      return NotValidated;
    }
    index.LineageIndexed(end);
    var hashes := WalkMultiples(view, end, interval);
    return Hashes(hashes);
  }

  lemma LengthUnique(h: nat, a: nat, b: nat)
    requires IsLocatorLength(h, a) && IsLocatorLength(h, b)
    ensures a == b
  {
    if h > 12 {
      Log2FloorUnique(h - 10, a - 12, b - 12);
    }
  }

  /** The capacity reserved up front is exactly the number of entries appended. */
  method LocatorFrom(view: View, top: BlockNode) returns (locator: seq<Hash>, capacity: nat)
    requires view.Valid() && Rooted(top) && top.height < 0x8000_0000
    ensures IsLocator(locator, Lineage(top))
    ensures |locator| == capacity
  {
    capacity := MaxEntries(top.height);
    locator := Walk(view, top);
    LengthUnique(top.height, |locator|, capacity);
  }

  method Walk(view: View, top: BlockNode) returns (locator: seq<Hash>)
    requires view.Valid() && Rooted(top) && top.height < 0x8000_0000
    ensures IsLocator(locator, Lineage(top))
  {
    hide Pow2, Lineage;
    ghost var h := top.height;
    ghost var branch := Lineage(top);
    var node := top;
    locator := [];
    var step := 1;
    while true
      invariant node.height == EntryHeight(h, |locator|) <= h && node == branch[node.height]
      invariant |locator| > 0 ==> EntryHeight(h, |locator| - 1) > 0
      invariant node.height > 0 ==> step == StepAfter(|locator|)
      invariant ListsEntries(locator, h, branch)
      decreases node.height
    {
      ghost var i := |locator|;
      ListsOneMore(locator, h, branch, node);
      locator := locator + [node.hash];
      if node.height == 0 {
        LengthAtGenesis(h, i);
        break;
      }
      EntryStep(h, i);
      var height := node.height - step;
      if height < 0 {
        height := 0;
      }
      node := Hop(view, top, node, height);
      if |locator| > 10 {
        step := Int32(step * 2);
      }
    }
  }

  // ----- Answering a locator -----

  type Index = map<Hash, BlockNode>

  /** Every entry is a rooted node filed under its own hash. */
  ghost predicate ValidIndex(index: Index) {
    forall h :: h in index ==> index[h].hash == h && Rooted(index[h])
  }

  ghost predicate OnBranch(index: Index, branch: seq<BlockNode>, hash: Hash) {
    hash in index && index[hash] in branch
  }

  /** Height of the first locator hash on the branch; genesis when there is none. */
  ghost function StartHeight(index: Index, branch: seq<BlockNode>, locator: seq<Hash>): nat {
    if locator == [] then 0
    else if OnBranch(index, branch, locator[0]) then index[locator[0]].height
    else StartHeight(index, branch, locator[1..])
  }

  lemma {:induction false} StartAtFirst(index: Index, branch: seq<BlockNode>, locator: seq<Hash>, i: nat)
    requires i < |locator| && OnBranch(index, branch, locator[i])
    requires forall j :: 0 <= j < i ==> !OnBranch(index, branch, locator[j])
    ensures StartHeight(index, branch, locator) == index[locator[i]].height
  {
    if i > 0 {
      StartAtFirst(index, branch, locator[1..], i - 1);
    }
  }

  lemma {:induction false} StartAtGenesis(index: Index, branch: seq<BlockNode>, locator: seq<Hash>)
    requires forall j :: 0 <= j < |locator| ==> !OnBranch(index, branch, locator[j])
    ensures StartHeight(index, branch, locator) == 0
  {
    if locator != [] {
      StartAtGenesis(index, branch, locator[1..]);
    }
  }

  /** Where a run ends that nothing cuts short: at the stop block when that lies ahead on the
      best branch, else at the tip. */
  ghost function EndHeight(index: Index, branch: seq<BlockNode>, start: nat, hashStop: Hash): nat
    requires start < |branch|
  {
    if OnBranch(index, branch, hashStop) && index[hashStop].height >= start then index[hashStop].height
    else |branch| - 1
  }

  /** A run of `n` blocks: no longer than asked for, and shorter only because it has come to
      its end. */
  ghost predicate RunsTo(start: nat, end: nat, maxEntries: nat, n: nat) {
    n <= maxEntries && start + n <= end + 1 && (n < maxEntries ==> start + n == end + 1)
  }

  /** The most recent locator block on the best branch, or its genesis block. */
  method FirstKnown(index: Index, view: View, locator: seq<Hash>) returns (start: BlockNode)
    requires ValidIndex(index) && view.Valid() && view.len > 0
    ensures start in view.Branch()
    ensures start.height == StartHeight(index, view.Branch(), locator)
  {
    ghost var branch := view.Branch();
    start := view.Genesis();
    var i := 0;
    while i < |locator|
      invariant 0 <= i <= |locator|
      invariant StartHeight(index, branch, locator) == StartHeight(index, branch, locator[i..])
    {
      if locator[i] in index && view.Contains(index[locator[i]]) {
        return index[locator[i]];
      }
      assert locator[i..][1..] == locator[i + 1..];
      i := i + 1;
    }
  }

  method LocateInventory(index: Index, view: View, locator: seq<Hash>, hashStop: Hash, maxEntries: nat)
    returns (node: BlockNode?, total: nat)
    requires ValidIndex(index) && view.Valid() && view.len > 0
    ensures locator == [] && hashStop in index ==> node == index[hashStop] && total == 1
    ensures locator == [] && hashStop !in index ==> node == null && total == 0
    ensures locator != [] ==>
      var start := StartHeight(index, view.Branch(), locator) + 1;
      if start >= view.len then node == null && total == 0
      else
        node == view.Branch()[start] &&
        RunsTo(start, EndHeight(index, view.Branch(), start, hashStop), maxEntries, total)
  {
    if |locator| == 0 {
      if hashStop !in index {
        return null, 0;
      }
      return index[hashStop], 1;
    }
    var known := FirstKnown(index, view, locator);
    var next := view.Next(known);
    if next == null {
      return null, 0;
    }
    node := next;
    total := EntriesNeeded(index, view, next, hashStop, maxEntries);
  }

  method EntriesNeeded(index: Index, view: View, start: BlockNode, hashStop: Hash, maxEntries: nat)
    returns (total: nat)
    requires ValidIndex(index) && view.Valid() && start.height < view.len
    ensures RunsTo(start.height, EndHeight(index, view.Branch(), start.height, hashStop), maxEntries, total)
  {
    total := view.Tip().height - start.height + 1;
    if hashStop in index && view.Contains(index[hashStop]) && index[hashStop].height >= start.height {
      total := index[hashStop].height - start.height + 1;
    }
    if total > maxEntries {
      total := maxEntries;
    }
  }

  /** A run of best-branch hashes, contiguous and within the branch. */
  ghost predicate Consecutive(hashes: seq<Hash>, branch: seq<BlockNode>, start: nat, len: nat) {
    && start + len <= |branch|
    && |hashes| == len
    && forall i :: 0 <= i < len ==> hashes[i] == branch[start + i].hash
  }

  method LocateBlocks(index: Index, view: View, locator: seq<Hash>, hashStop: Hash, maxHashes: nat)
    returns (hashes: seq<Hash>)
    requires ValidIndex(index) && view.Valid() && view.len > 0
    ensures locator == [] ==> hashes == if hashStop in index then [hashStop] else []
    ensures locator != [] ==>
      var start := StartHeight(index, view.Branch(), locator) + 1;
      && (start >= view.len ==> hashes == [])
      && (start < view.len ==> Consecutive(hashes, view.Branch(), start, |hashes|))
    ensures locator != [] && StartHeight(index, view.Branch(), locator) + 1 < view.len ==>
      var known, branch := StartHeight(index, view.Branch(), locator), view.Branch();
      var stops := hashStop in index && index[hashStop] in branch && index[hashStop].height > known;
      && |hashes| <= maxHashes && (maxHashes > 0 ==> hashes != [])
      && (stops ==> known + |hashes| <= index[hashStop].height)
      && (0 < |hashes| < maxHashes ==> hashes[|hashes| - 1] == if stops then hashStop else branch[|branch| - 1].hash)
  {
    var node, total := LocateInventory(index, view, locator, hashStop, maxHashes);
    if total == 0 {
      return [];
    }
    if locator == [] {
      return [node.hash];
    }
    StopFits(index, view.Branch(), StartHeight(index, view.Branch(), locator) + 1, hashStop);
    hashes := Collect(view, node, total);
  }

  /** Follows the view for `total` nodes from a node of its branch. */
  method Collect(view: View, first: BlockNode, total: nat) returns (hashes: seq<Hash>)
    requires view.Valid() && first.height + total <= view.len
    requires total > 0 && first == view.Branch()[first.height]
    ensures Consecutive(hashes, view.Branch(), first.height, total)
  {
    hashes := [];
    ghost var branch, start := view.Branch(), first.height;
    var node: BlockNode? := first;
    for i := 0 to total
      invariant Consecutive(hashes, branch, start, i)
      invariant node == if start + i < |branch| then branch[start + i] else null
    {
      hashes := hashes + [node.hash];
      node := view.Next(node);
    }
  }

  lemma StopFits(index: Index, branch: seq<BlockNode>, start: nat, hashStop: Hash)
    requires Linked(branch) && start < |branch|
    ensures start <= EndHeight(index, branch, start, hashStop) < |branch|
  {
  }

  // ----- The resend bound -----

  /** A locator taken from a node that leaves the best branch `d` blocks below itself
      restarts the exchange at the fork block when d is at most 10, and at most d - 11
      blocks below it otherwise. */
  lemma ResendBound(index: Index, branch: seq<BlockNode>, node: BlockNode, locator: seq<Hash>)
    requires Linked(branch) && Rooted(node) && IsLocator(locator, Lineage(node))
    requires forall n :: n in Lineage(node) ==> n.hash in index && index[n.hash] == n
    requires CommonLength(Lineage(node), branch) > 0
    ensures
      var fork := CommonLength(Lineage(node), branch) - 1;
      var d := node.height - fork;
      var start := StartHeight(index, branch, locator);
      && start <= fork
      && (if d <= 10 then start == fork else start >= fork - (d - 11))
  {
    var mine := Lineage(node);
    LineageIsLinked(node);
    forall j | 0 <= j < |locator|
      ensures OnBranch(index, branch, locator[j]) <==> EntryHeight(node.height, j) < CommonLength(mine, branch)
      ensures OnBranch(index, branch, locator[j]) ==> index[locator[j]].height == EntryHeight(node.height, j)
    {
      var e := EntryHeight(node.height, j);
      assert mine[e] in mine && locator[j] == mine[e].hash;
      SharedBelow(mine, branch, e);
    }
    ResumeBound(index, branch, node.height, locator, CommonLength(mine, branch) - 1);
  }

  lemma ResumeBound(index: Index, branch: seq<BlockNode>, h: nat, locator: seq<Hash>, fork: nat)
    requires IsLocatorLength(h, |locator|) && fork <= h
    requires forall j :: 0 <= j < |locator| ==>
      (OnBranch(index, branch, locator[j]) <==> EntryHeight(h, j) <= fork)
    requires forall j :: 0 <= j < |locator| && OnBranch(index, branch, locator[j]) ==>
      index[locator[j]].height == EntryHeight(h, j)
    ensures
      var start := StartHeight(index, branch, locator);
      && start <= fork
      && (if h - fork <= 10 then start == fork else start >= fork - (h - fork - 11))
  {
    EndsAtGenesis(h, |locator|);
    var i := FirstEntryAtOrBelow(h, |locator|, fork);
    StartAtFirst(index, branch, locator, i);
  }

  /** The first entry at or below a height misses it by less than the distance covered. */
  lemma FirstEntryAtOrBelow(h: nat, len: nat, fork: nat) returns (i: nat)
    requires IsLocatorLength(h, len) && fork <= h
    requires EntryHeight(h, len - 1) == 0 && len >= 1
    ensures i < len && EntryHeight(h, i) <= fork
    ensures forall j :: 0 <= j < i ==> EntryHeight(h, j) > fork
    ensures h - fork <= 10 ==> EntryHeight(h, i) == fork
    ensures h - fork >= 11 ==> EntryHeight(h, i) >= fork - (h - fork - 11)
  {
    i := 0;
    while EntryHeight(h, i) > fork
      invariant i < len
      invariant forall j :: 0 <= j < i ==> EntryHeight(h, j) > fork
      decreases len - i
    {
      i := i + 1;
    }
    if h - fork <= 10 {
      assert EntryHeight(h, h - fork) == fork;
    } else {
      assert i >= 11;
      assert EntryHeight(h, i - 1) > fork;
      RawStep(h, i - 1);
    }
  }
}
