/** The past median time of a block, which bounds the timestamps that may follow it. */
module MedianTime {
  import opened BlockTree

  ghost predicate IsSorted(s: seq<int>) {
    forall i, j :: 0 <= i <= j < |s| ==> s[i] <= s[j]
  }

  function Insert(x: int, s: seq<int>): (r: seq<int>)
    ensures |r| == |s| + 1
  {
    if s == [] || x <= s[0] then [x] + s else [s[0]] + Insert(x, s[1..])
  }

  function Sort(s: seq<int>): (r: seq<int>)
    ensures |r| == |s|
  {
    if s == [] then [] else Insert(s[0], Sort(s[1..]))
  }

  /** How many numbers lie below a bound. */
  function Below(s: seq<int>, m: int): (n: nat)
    ensures n <= |s|
  {
    if s == [] then 0 else (if s[0] < m then 1 else 0) + Below(s[1..], m)
  }

  lemma {:induction false} InsertSorted(x: int, s: seq<int>)
    requires IsSorted(s)
    ensures IsSorted(Insert(x, s)) && forall y :: y in Insert(x, s) <==> y == x || y in s
  {
    if s != [] && x > s[0] {
      InsertSorted(x, s[1..]);
      var rest := Insert(x, s[1..]);
      assert s == [s[0]] + s[1..];
      forall i | 0 <= i < |rest|
        ensures s[0] <= rest[i]
      {
        assert rest[i] in rest;
        if rest[i] != x {
          var j :| 0 <= j < |s[1..]| && s[1..][j] == rest[i];
          assert s[0] <= s[j + 1];
        }
      }
    }
  }

  lemma {:induction false} InsertBelow(x: int, s: seq<int>, m: int)
    ensures Below(Insert(x, s), m) == Below(s, m) + if x < m then 1 else 0
  {
    if s == [] || x <= s[0] {
      assert ([x] + s)[1..] == s;
    } else {
      InsertBelow(x, s[1..], m);
      assert ([s[0]] + Insert(x, s[1..]))[1..] == Insert(x, s[1..]);
    }
  }

  /** Sorting sorts, and keeps how many numbers lie below any bound. */
  lemma {:induction false} SortCorrect(s: seq<int>, m: int)
    ensures IsSorted(Sort(s)) && Below(Sort(s), m) == Below(s, m)
  {
    if s != [] {
      SortCorrect(s[1..], m);
      InsertSorted(s[0], Sort(s[1..]));
      InsertBelow(s[0], Sort(s[1..]), m);
    }
  }

  lemma {:induction false} BelowAppend(s: seq<int>, t: seq<int>, m: int)
    ensures Below(s + t, m) == Below(s, m) + Below(t, m)
  {
    if s == [] {
      assert s + t == t;
    } else {
      assert (s + t)[1..] == s[1..] + t;
      BelowAppend(s[1..], t, m);
    }
  }

  /** In a sorted sequence, a position holds at least `m` exactly when no more numbers than
      that lie below `m`. */
  lemma {:induction false} Rank(s: seq<int>, i: nat, m: int)
    requires IsSorted(s) && i < |s|
    ensures s[i] >= m <==> Below(s, m) <= i
  {
    if s[0] < m {
      if i > 0 {
        Rank(s[1..], i - 1, m);
      }
    } else {
      NoneBelow(s, m);
    }
  }

  lemma {:induction false} NoneBelow(s: seq<int>, m: int)
    requires forall i :: 0 <= i < |s| ==> s[i] >= m
    ensures Below(s, m) == 0
  {
    if s != [] {
      NoneBelow(s[1..], m);
    }
  }

  /** The element in the middle of the sorted sequence; the upper one of two. */
  function Median(s: seq<int>): int
    requires s != []
  {
    Sort(s)[|s| / 2]
  }

  lemma MedianRank(s: seq<int>, m: int)
    requires s != []
    ensures Median(s) >= m <==> Below(s, m) <= |s| / 2
  {
    SortCorrect(s, m);
    Rank(Sort(s), |s| / 2, m);
  }

  // ----- Blocks -----

  /** The timestamps of up to `w` blocks that end a line, latest first. */
  function Window(line: seq<BlockNode>, w: nat): (s: seq<int>)
    ensures |s| == if w <= |line| then w else |line|
    decreases w
  {
    if w == 0 || line == [] then [] else [line[|line| - 1].timestamp] + Window(line[..|line| - 1], w - 1)
  }

  function PastMedian(line: seq<BlockNode>, w: nat): int
    requires line != [] && w >= 1
  {
    Median(Window(line, w))
  }

  /** The window holds the timestamps of the last blocks, or of all when there are fewer. */
  lemma {:induction false} WindowMeans(line: seq<BlockNode>, w: nat, i: nat)
    requires i < w && i < |line|
    ensures i < |Window(line, w)| && Window(line, w)[i] == line[|line| - 1 - i].timestamp
    decreases w
  {
    if i > 0 {
      WindowMeans(line[..|line| - 1], w - 1, i - 1);
    }
  }

  /** How many of the last `n` blocks are earlier than a time. */
  ghost function Earlier(line: seq<BlockNode>, n: nat, m: int): nat
    requires n <= |line|
  {
    if n == 0 then 0 else Earlier(line, n - 1, m) + if line[|line| - n].timestamp < m then 1 else 0
  }

  lemma {:induction false} BelowIsEarlier(line: seq<BlockNode>, s: seq<int>, n: nat, m: int)
    requires n <= |s| <= |line| && forall i :: 0 <= i < |s| ==> s[i] == line[|line| - 1 - i].timestamp
    ensures Below(s[..n], m) == Earlier(line, n, m)
  {
    if n > 0 {
      BelowIsEarlier(line, s, n - 1, m);
      assert s[..n] == s[..n - 1] + [s[n - 1]];
      BelowAppend(s[..n - 1], [s[n - 1]], m);
    }
  }

  /** The past median is not before a time exactly when at most half of the last blocks are. */
  lemma PastMedianMeans(line: seq<BlockNode>, w: nat, m: int)
    requires line != [] && w >= 1
    ensures
      var n := if w <= |line| then w else |line|;
      PastMedian(line, w) >= m <==> Earlier(line, n, m) <= n / 2
  {
    var s := Window(line, w);
    forall i | 0 <= i < |s|
      ensures s[i] == line[|line| - 1 - i].timestamp
    {
      WindowMeans(line, w, i);
    }
    BelowIsEarlier(line, s, |s|, m);
    assert s[..|s|] == s;
    MedianRank(s, m);
  }

  lemma WindowStep(line: seq<BlockNode>, left: nat, w: nat)
    requires left <= |line|
    ensures left == 0 || w == 0 ==> Window(line[..left], w) == []
    ensures left > 0 && w > 0 ==>
      Window(line[..left], w) == [line[left - 1].timestamp] + Window(line[..left - 1], w - 1)
  {
    assert left > 0 ==> line[..left][..left - 1] == line[..left - 1];
  }

  /** Walks back from a block and collects timestamps. */
  method Collect(node: BlockNode, medianTimeBlocks: nat) returns (timestamps: seq<int>)
    requires Rooted(node)
    ensures timestamps == Window(Lineage(node), medianTimeBlocks)
  {
    hide Window;
    ghost var line := Lineage(node);
    LineageIsLinked(node);
    timestamps := [];
    var i: nat := 0;
    var iterNode: BlockNode? := node;
    ghost var left := |line|;
    assert line[..left] == line;
    while i < medianTimeBlocks && iterNode != null
      invariant 0 <= left <= |line| && i <= medianTimeBlocks
      invariant iterNode == if left == 0 then null else line[left - 1]
      invariant timestamps + Window(line[..left], medianTimeBlocks - i) == Window(line, medianTimeBlocks)
    {
      WindowStep(line, left, medianTimeBlocks - i);
      assert line[left - 1].parent == if left == 1 then null else line[left - 2];
      timestamps := timestamps + [iterNode.timestamp];
      iterNode := iterNode.parent;
      i := i + 1;
      left := left - 1;
    }
    WindowStep(line, left, medianTimeBlocks - i);
  }

  method CalcPastMedianTime(node: BlockNode, medianTimeBlocks: nat) returns (median: int)
    requires Rooted(node) && medianTimeBlocks >= 1
    ensures median == PastMedian(Lineage(node), medianTimeBlocks)
  {
    var timestamps := Collect(node, medianTimeBlocks);
    var numNodes := |timestamps|;
    timestamps := Sort(timestamps);
    median := timestamps[numNodes / 2];
  }

  /** One block more: the window gains the new timestamp and may lose its earliest. */
  lemma {:induction false} WindowNext(line: seq<BlockNode>, w: nat)
    requires |line| >= 2 && w >= 1
    ensures
      var before, after := Window(line[..|line| - 1], w), Window(line, w);
      && after == [line[|line| - 1].timestamp] + Window(line[..|line| - 1], w - 1)
      && Window(line[..|line| - 1], w - 1) <= before
  {
    WindowShrinks(line[..|line| - 1], w);
  }

  lemma {:induction false} WindowShrinks(line: seq<BlockNode>, w: nat)
    requires w >= 1
    ensures Window(line, w - 1) <= Window(line, w)
    decreases w
  {
    if w > 1 && line != [] {
      WindowShrinks(line[..|line| - 1], w - 1);
    }
  }

  /** Each block is later than the past median time of its parent. */
  ghost predicate TimesAdvance(line: seq<BlockNode>, w: nat)
    requires w >= 1
  {
    forall h :: 1 <= h < |line| ==> Later(line, h, w)
  }

  ghost predicate Later(line: seq<BlockNode>, h: nat, w: nat)
    requires w >= 1 && 1 <= h < |line|
  {
    line[h].timestamp > PastMedian(line[..h], w)
  }

  /** The past median time does not fall from a block to the next. */
  lemma {:induction false} MedianStep(line: seq<BlockNode>, w: nat)
    requires |line| >= 2 && w >= 1 && line[|line| - 1].timestamp >= PastMedian(line[..|line| - 1], w)
    ensures PastMedian(line, w) >= PastMedian(line[..|line| - 1], w)
  {
    hide Window, Sort, Median;
    var init, t := line[..|line| - 1], line[|line| - 1].timestamp;
    var before, kept, after := Window(init, w), Window(init, w - 1), Window(line, w);
    var m := Median(before);
    WindowNext(line, w);
    MedianRank(before, m);
    BelowAppend(kept, before[|kept|..], m);
    assert before == kept + before[|kept|..];
    BelowAppend([t], kept, m);
    BelowOne(t, m);
    MedianRank(after, m);
  }

  lemma BelowOne(t: int, m: int)
    ensures Below([t], m) == if t < m then 1 else 0
  {
  }

  /** Along any line whose timestamps advance, for any window, and near genesis too, the
      past median time never falls. */
  lemma {:induction false} MedianNeverFalls(line: seq<BlockNode>, w: nat, i: nat, j: nat)
    requires w >= 1 && TimesAdvance(line, w) && i <= j < |line|
    ensures PastMedian(line[..i + 1], w) <= PastMedian(line[..j + 1], w)
    decreases j
  {
    hide PastMedian;
    if i < j {
      MedianNeverFalls(line, w, i, j - 1);
      assert Later(line, j, w);
      assert line[..j + 1][..j] == line[..j];
      MedianStep(line[..j + 1], w);
    }
  }
}
