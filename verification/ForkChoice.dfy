/** Which branch is best: how the arrival of a block changes validation flags and the best
    branch, and what every run of arrivals keeps. */
module ForkChoice {
  import opened BlockTree
  import opened ChainView

  /** What full validation says about a block.  A store failure is an error that is not a
      statement about the block. */
  datatype Verdict = Accept | RuleViolation | StoreFailure

  ghost function Tip(branch: seq<BlockNode>): BlockNode
    requires branch != []
  {
    branch[|branch| - 1]
  }

  /** The node sits on the line at a height from `lo` up to but not including `hi`. */
  ghost predicate Between(line: seq<BlockNode>, lo: nat, hi: nat, n: BlockNode) {
    lo <= n.height < hi <= |line| && line[n.height] == n
  }

  ghost function Mark(st: Statuses, line: seq<BlockNode>, lo: nat, hi: nat, flags: set<Flag>): Statuses {
    map n | n in st :: if Between(line, lo, hi, n) then st[n] + flags else st[n]
  }

  /** A linked line of known nodes. */
  ghost predicate Known(st: Statuses, line: seq<BlockNode>) {
    Linked(line) && forall i :: 0 <= i < |line| ==> line[i] in st
  }

  ghost predicate AllValid(st: Statuses, line: seq<BlockNode>)
    requires Known(st, line)
  {
    forall i :: 0 <= i < |line| ==> KnownValid(st[line[i]])
  }

  // ----- The outcome of one arrival -----

  /** The first height from `k` up whose node is not yet known valid and is rejected by
      validation; the end of the line when there is none. */
  ghost function FirstReject(st: Statuses, line: seq<BlockNode>, k: nat, verdict: Hash -> Verdict): (f: nat)
    requires Known(st, line) && k <= |line|
    ensures k <= f <= |line|
    ensures f < |line| ==> !KnownValid(st[line[f]]) && verdict(line[f].hash) != Accept
    decreases |line| - k
  {
    if k == |line| || (!KnownValid(st[line[k]]) && verdict(line[k].hash) != Accept) then k
    else FirstReject(st, line, k + 1, verdict)
  }

  /** Flags after the node at height `f` failed: the rest of the line has an invalid ancestor. */
  ghost function AfterFailure(st: Statuses, line: seq<BlockNode>, f: nat): Statuses {
    Mark(Mark(st, line, f, f + 1, {ValidateFailed}), line, f + 1, |line|, {InvalidAncestor})
  }

  /** Flags after checking the line from height `k` up: valid below the first rejected
      node; on a rule violation that node has failed and the rest have an invalid ancestor. */
  ghost function AfterCheck(st: Statuses, line: seq<BlockNode>, k: nat, verdict: Hash -> Verdict): Statuses
    requires Known(st, line) && k <= |line|
  {
    var f := FirstReject(st, line, k, verdict);
    var checked := Mark(st, line, k, f, {Validated});
    if f < |line| && verdict(line[f].hash) == RuleViolation then AfterFailure(checked, line, f)
    else checked
  }

  /** One more than the highest height from `k` to `top` whose node is known invalid; `k`
      when there is none. */
  ghost function CleanFrom(st: Statuses, line: seq<BlockNode>, k: nat, top: nat): (j: nat)
    requires Known(st, line) && k <= top <= |line|
    ensures k <= j <= top
    ensures j > k ==> KnownInvalid(st[line[j - 1]])
    ensures forall i :: j <= i < top ==> !KnownInvalid(st[line[i]])
    decreases top
  {
    if top == k || KnownInvalid(st[line[top - 1]]) then top else CleanFrom(st, line, k, top - 1)
  }

  /** Whether the block was taken without error, and for an error which kind it was. */
  datatype Result = MainChain | SideChain | Rejected(verdict: Verdict)

  datatype Selection = Selection(st: Statuses, branch: seq<BlockNode>, result: Result)

  /** The line from height `j` up has an invalid ancestor. */
  ghost function Scanned(st: Statuses, branch: seq<BlockNode>, line: seq<BlockNode>, j: nat): Selection {
    Selection(Mark(st, line, j, |line|, {InvalidAncestor}), branch, MainChain)
  }

  /** Moving to the line when validation passes all of it from height `k` up. */
  ghost function Checked(st: Statuses, branch: seq<BlockNode>, line: seq<BlockNode>, k: nat,
                         verdict: Hash -> Verdict): Selection
    requires Known(st, line) && k <= |line|
  {
    var f, after := FirstReject(st, line, k, verdict), AfterCheck(st, line, k, verdict);
    if f == |line| then Selection(after, line, MainChain)
    else Selection(after, branch, Rejected(verdict(line[f].hash)))
  }

  /** Moving to the line, whose first `k` nodes are on the branch, if nothing on it is
      known or found to be invalid. */
  ghost function Reorganize(st: Statuses, branch: seq<BlockNode>, line: seq<BlockNode>, k: nat,
                            verdict: Hash -> Verdict): Selection
    requires Known(st, line) && k <= |line| && |line| >= 2
  {
    var j := CleanFrom(st, line, k, |line|);
    if KnownInvalid(st[line[|line| - 2]]) then Scanned(st, branch, line, |line| - 1)
    else if j > k then Scanned(st, branch, line, j)
    else Checked(st, branch, line, k, verdict)
  }

  ghost function Extend(st: Statuses, branch: seq<BlockNode>, line: seq<BlockNode>, verdict: Verdict,
                        fastAdd: bool): Selection
    requires Known(st, line) && line != []
  {
    var h := |line| - 1;
    if fastAdd || KnownValid(st[line[h]]) || verdict == Accept then
      Selection(Mark(st, line, h, h + 1, {Validated}), line, MainChain)
    else if verdict == RuleViolation then
      Selection(Mark(st, line, h, h + 1, {ValidateFailed}), branch, Rejected(verdict))
    else
      Selection(st, branch, Rejected(verdict))
  }

  /** What becomes of the best branch when the block that ends `line` has been indexed.
      The result MainChain only means that no error arose: it is also the result when the
      block turns out to have an invalid ancestor; MainChainMeans says exactly when. */
  ghost function Select(st: Statuses, branch: seq<BlockNode>, line: seq<BlockNode>, verdict: Hash -> Verdict,
                        fastAdd: bool): Selection
    requires Known(st, line) && |line| >= 2 && branch != []
  {
    var node := Tip(line);
    if node.parent == Tip(branch) then
      Extend(st, branch, line, verdict(node.hash), fastAdd)
    else if node.workSum <= Tip(branch).workSum then
      Selection(st, branch, SideChain)
    else
      Reorganize(st, branch, line, CommonLength(line, branch), verdict)
  }

  // ----- Computing the outcome step by step -----

  lemma SelectExtends(st: Statuses, branch: seq<BlockNode>, line: seq<BlockNode>, verdict: Hash -> Verdict,
                      fastAdd: bool)
    requires Known(st, line) && |line| >= 2 && branch != [] && Tip(line).parent == Tip(branch)
    ensures Select(st, branch, line, verdict, fastAdd) == Extend(st, branch, line, verdict(Tip(line).hash), fastAdd)
    ensures Select(st, branch, line, verdict, fastAdd).result != SideChain
  {
  }

  lemma SelectStays(st: Statuses, branch: seq<BlockNode>, line: seq<BlockNode>, verdict: Hash -> Verdict, fastAdd: bool)
    requires Known(st, line) && |line| >= 2 && branch != [] && Tip(line).parent != Tip(branch)
    requires Tip(line).workSum <= Tip(branch).workSum
    ensures Select(st, branch, line, verdict, fastAdd) == Selection(st, branch, SideChain)
  {
  }

  lemma SelectReorganizes(st: Statuses, branch: seq<BlockNode>, line: seq<BlockNode>, verdict: Hash -> Verdict,
                          fastAdd: bool)
    requires Known(st, line) && |line| >= 2 && branch != [] && Tip(line).parent != Tip(branch)
    requires Tip(line).workSum > Tip(branch).workSum
    ensures Select(st, branch, line, verdict, fastAdd) == Reorganize(st, branch, line, CommonLength(line, branch),
      verdict)
    ensures Select(st, branch, line, verdict, fastAdd).result != SideChain
  {
  }

  lemma MarkNone(st: Statuses, line: seq<BlockNode>, lo: nat, flags: set<Flag>)
    ensures Mark(st, line, lo, lo, flags) == st
  {
  }

  /** Marking one node more. */
  lemma MarkStep(st: Statuses, line: seq<BlockNode>, lo: nat, i: nat, flags: set<Flag>)
    requires Known(st, line) && lo <= i < |line|
    ensures line[i] in Mark(st, line, lo, i, flags) && Mark(st, line, lo, i, flags)[line[i]] == st[line[i]]
    ensures Mark(st, line, lo, i + 1, flags) == Mark(st, line, lo, i, flags)[line[i] := st[line[i]] + flags]
  {
  }

  /** Known valid already, or accepted by validation. */
  ghost predicate Passes(st: Statuses, n: BlockNode, verdict: Hash -> Verdict)
    requires n in st
  {
    KnownValid(st[n]) || verdict(n.hash) == Accept
  }

  ghost predicate AllPass(st: Statuses, line: seq<BlockNode>, k: nat, f: nat, verdict: Hash -> Verdict)
    requires Known(st, line)
  {
    f <= |line| && forall i :: k <= i < f ==> Passes(st, line[i], verdict)
  }

  lemma OnePassesMore(st: Statuses, line: seq<BlockNode>, k: nat, f: nat, verdict: Hash -> Verdict)
    requires Known(st, line) && AllPass(st, line, k, f, verdict) && f < |line| && Passes(st, line[f], verdict)
    ensures AllPass(st, line, k, f + 1, verdict)
  {
  }

  /** The first rejected height is the one below which everything passes. */
  lemma {:induction false} RejectUnique(st: Statuses, line: seq<BlockNode>, k: nat, f: nat, verdict: Hash -> Verdict)
    requires Known(st, line) && k <= f <= |line|
    requires AllPass(st, line, k, f, verdict)
    requires f < |line| ==> !Passes(st, line[f], verdict)
    ensures f == FirstReject(st, line, k, verdict)
    decreases f - k
  {
    if k < f {
      assert Passes(st, line[k], verdict);
      RejectUnique(st, line, k + 1, f, verdict);
    }
  }

  /** The place where a downward scan stops is unique. */
  lemma {:induction false} CleanUnique(st: Statuses, line: seq<BlockNode>, k: nat, top: nat, j: nat)
    requires Known(st, line) && k <= j <= top <= |line|
    requires j > k ==> KnownInvalid(st[line[j - 1]])
    requires forall i :: j <= i < top ==> !KnownInvalid(st[line[i]])
    ensures j == CleanFrom(st, line, k, top)
    decreases top
  {
    if j < top {
      CleanUnique(st, line, k, top - 1, j);
    }
  }

  // ----- Flags stay sound -----

  /** Flags make sense: validity is inherited from parents, never contradicted, and an
      invalid ancestor shows on the parent. */
  ghost predicate Sound(st: Statuses) {
    forall n {:trigger SoundAt(st, n)} :: n in st ==> SoundAt(st, n)
  }

  ghost predicate SoundAt(st: Statuses, n: BlockNode)
    requires n in st
  {
    && (n.parent != null ==> n.parent in st)
    && (KnownValid(st[n]) && n.parent != null ==> KnownValid(st[n.parent]))
    && !(KnownValid(st[n]) && KnownInvalid(st[n]))
    && (InvalidAncestor in st[n] ==> n.parent != null && KnownInvalid(st[n.parent]))
  }

  lemma ValidKeepsSound(st: Statuses, line: seq<BlockNode>, lo: nat, hi: nat)
    requires Sound(st) && Known(st, line) && 1 <= lo <= hi <= |line| && KnownValid(st[line[lo - 1]])
    requires forall i :: lo <= i < hi ==> !KnownInvalid(st[line[i]])
    ensures Sound(Mark(st, line, lo, hi, {Validated}))
  {
    var after := Mark(st, line, lo, hi, {Validated});
    forall n | n in after
      ensures SoundAt(after, n)
    {
      assert SoundAt(st, n);
      if Between(line, lo, hi, n) {
        assert line[n.height].parent == line[n.height - 1];
      }
    }
  }

  lemma FailedKeepsSound(st: Statuses, line: seq<BlockNode>, h: nat)
    requires Sound(st) && Known(st, line) && h < |line| && !KnownValid(st[line[h]])
    ensures Sound(Mark(st, line, h, h + 1, {ValidateFailed}))
  {
    var after := Mark(st, line, h, h + 1, {ValidateFailed});
    forall n | n in after
      ensures SoundAt(after, n)
    {
      assert SoundAt(st, n);
    }
  }

  lemma InvalidKeepsSound(st: Statuses, line: seq<BlockNode>, lo: nat)
    requires Sound(st) && Known(st, line) && 1 <= lo <= |line| && KnownInvalid(st[line[lo - 1]])
    ensures Sound(Mark(st, line, lo, |line|, {InvalidAncestor}))
  {
    var after := Mark(st, line, lo, |line|, {InvalidAncestor});
    forall n | n in after
      ensures SoundAt(after, n)
    {
      assert SoundAt(st, n);
      if Between(line, lo, |line|, n) {
        assert SoundAt(st, line[lo - 1]);
        NotValidAbove(st, line, lo - 1, n.height);
        assert line[n.height].parent == line[n.height - 1];
      }
    }
  }

  /** Nothing above a node that is not known valid is known valid. */
  lemma {:induction false} NotValidAbove(st: Statuses, line: seq<BlockNode>, i: nat, m: nat)
    requires Sound(st) && Known(st, line) && i <= m < |line| && !KnownValid(st[line[i]])
    ensures !KnownValid(st[line[m]])
    decreases m
  {
    if i < m {
      NotValidAbove(st, line, i, m - 1);
      assert line[m].parent == line[m - 1];
      assert SoundAt(st, line[m]);
    }
  }

  lemma FailureKeepsSound(st: Statuses, line: seq<BlockNode>, f: nat)
    requires Sound(st) && Known(st, line) && f < |line| && !KnownValid(st[line[f]])
    ensures Sound(AfterFailure(st, line, f))
  {
    FailedKeepsSound(st, line, f);
    InvalidKeepsSound(Mark(st, line, f, f + 1, {ValidateFailed}), line, f + 1);
  }

  lemma CheckKeepsSound(st: Statuses, line: seq<BlockNode>, k: nat, verdict: Hash -> Verdict)
    requires Sound(st) && Known(st, line) && 1 <= k <= |line| && KnownValid(st[line[k - 1]])
    requires forall i :: k <= i < |line| ==> !KnownInvalid(st[line[i]])
    ensures Sound(AfterCheck(st, line, k, verdict))
  {
    var f := FirstReject(st, line, k, verdict);
    ValidKeepsSound(st, line, k, f);
    if f < |line| && verdict(line[f].hash) == RuleViolation {
      FailureKeepsSound(Mark(st, line, k, f, {Validated}), line, f);
    }
  }

  /** Flags are only ever added. */
  ghost predicate Grows(st: Statuses, st': Statuses) {
    st.Keys == st'.Keys && forall n :: n in st ==> st[n] <= st'[n]
  }

  lemma MarkGrows(st: Statuses, line: seq<BlockNode>, lo: nat, hi: nat, flags: set<Flag>)
    ensures Grows(st, Mark(st, line, lo, hi, flags))
  {
  }

  lemma FailureMarks(st: Statuses, line: seq<BlockNode>, f: nat)
    requires Known(st, line) && f < |line|
    ensures Grows(st, AfterFailure(st, line, f)) && KnownInvalid(AfterFailure(st, line, f)[Tip(line)])
  {
    MarkGrows(st, line, f, f + 1, {ValidateFailed});
    MarkGrows(Mark(st, line, f, f + 1, {ValidateFailed}), line, f + 1, |line|, {InvalidAncestor});
    assert f == |line| - 1 || Between(line, f + 1, |line|, Tip(line));
  }

  /** Without a reject the whole line above the fork is valid; a rule violation makes its
      last node known invalid. */
  lemma CheckMarks(st: Statuses, line: seq<BlockNode>, k: nat, verdict: Hash -> Verdict)
    requires Known(st, line) && k < |line|
    ensures
      var f, after := FirstReject(st, line, k, verdict), AfterCheck(st, line, k, verdict);
      && Grows(st, after)
      && (f == |line| ==> forall i :: k <= i < |line| ==> KnownValid(after[line[i]]))
      && (f < |line| && verdict(line[f].hash) == RuleViolation ==> KnownInvalid(after[Tip(line)]))
  {
    var f := FirstReject(st, line, k, verdict);
    MarkGrows(st, line, k, f, {Validated});
    if f < |line| && verdict(line[f].hash) == RuleViolation {
      FailureMarks(Mark(st, line, k, f, {Validated}), line, f);
    }
  }

  // ----- The safety of one arrival -----

  /** A sound state in which the block that ends `line` has just been indexed. */
  ghost predicate Arrived(st: Statuses, branch: seq<BlockNode>, line: seq<BlockNode>) {
    && Known(st, branch) && Known(st, line) && branch != [] && |line| >= 2 && branch[0] == line[0]
    && Sound(st) && AllValid(st, branch)
    && st[Tip(line)] == {DataStored}
  }

  /** Every known node with more work than the best branch is known invalid. */
  ghost predicate Heaviest(st: Statuses, branch: seq<BlockNode>)
    requires branch != []
  {
    forall n :: n in st && n.workSum > Tip(branch).workSum ==> KnownInvalid(st[n])
  }

  /** Nothing but the new block can be a better tip. */
  ghost predicate HeaviestButNew(st: Statuses, branch: seq<BlockNode>, node: BlockNode)
    requires branch != []
  {
    forall n :: n in st && n != node && n.workSum > Tip(branch).workSum ==> KnownInvalid(st[n])
  }

  /** What an arrival promises: flags stay sound and are only added, the best branch stays
      or becomes the new line, it is all valid, and it changes only by extension or for
      strictly more work.  A rule violation leaves the new block known invalid.  Unless the
      store failed, the best branch is again the heaviest that is not known invalid. */
  ghost predicate Promised(st: Statuses, branch: seq<BlockNode>, line: seq<BlockNode>, s: Selection)
    requires branch != [] && line != []
  {
    && Sound(s.st) && Grows(st, s.st)
    && (s.branch == branch || (s.branch == line && Outranks(line, branch)))
    && Known(s.st, s.branch) && AllValid(s.st, s.branch)
    && (s.result == Rejected(RuleViolation) ==> Tip(line) in s.st && KnownInvalid(s.st[Tip(line)]))
    && (HeaviestButNew(st, branch, Tip(line)) && s.result != Rejected(StoreFailure) ==> Heaviest(s.st, s.branch))
  }

  ghost predicate Outranks(line: seq<BlockNode>, branch: seq<BlockNode>)
    requires branch != [] && line != []
  {
    || Tip(line).workSum > Tip(branch).workSum
    || (line == branch + [Tip(line)] && Tip(line).workSum == Tip(branch).workSum)
  }

  lemma SelectSafe(st: Statuses, branch: seq<BlockNode>, line: seq<BlockNode>, verdict: Hash -> Verdict, fastAdd: bool)
    requires Arrived(st, branch, line)
    ensures Promised(st, branch, line, Select(st, branch, line, verdict, fastAdd))
  {
    if Tip(line).parent == Tip(branch) {
      ExtendSafe(st, branch, line, verdict(Tip(line).hash), fastAdd);
    } else if Tip(line).workSum > Tip(branch).workSum {
      ReorganizeSafe(st, branch, line, verdict);
    }
  }

  /** Keeping the branch is safe if the new block is known invalid or no heavier. */
  lemma StaySafe(st: Statuses, branch: seq<BlockNode>, line: seq<BlockNode>, after: Statuses, result: Result)
    requires Arrived(st, branch, line) && Sound(after) && Grows(st, after)
    requires result == Rejected(StoreFailure) || KnownInvalid(after[Tip(line)])
    ensures Promised(st, branch, line, Selection(after, branch, result))
  {
  }

  lemma SwitchSafe(st: Statuses, branch: seq<BlockNode>, line: seq<BlockNode>, after: Statuses)
    requires Arrived(st, branch, line) && Outranks(line, branch)
    requires Sound(after) && Grows(st, after)
    requires forall i :: 0 <= i < |line| ==> KnownValid(after[line[i]])
    ensures Promised(st, branch, line, Selection(after, line, MainChain))
  {
  }

  lemma ExtendsLine(branch: seq<BlockNode>, line: seq<BlockNode>)
    requires Linked(branch) && Linked(line) && branch != [] && |line| >= 2 && Tip(line).parent == Tip(branch)
    ensures line == branch + [Tip(line)] && Outranks(line, branch)
  {
    assert line[|line| - 1].parent == line[|line| - 2];
    assert Derived(line[|line| - 1]);
    LinkedAgree(line, branch, |branch| - 1);
  }

  lemma BelowNewTip(st: Statuses, branch: seq<BlockNode>, line: seq<BlockNode>)
    requires Arrived(st, branch, line) && Tip(line).parent == Tip(branch)
    ensures Outranks(line, branch)
    ensures forall i :: 0 <= i < |line| - 1 ==> KnownValid(st[line[i]])
  {
    ExtendsLine(branch, line);
    assert forall i :: 0 <= i < |line| - 1 ==> line[i] == branch[i];
  }

  lemma ExtendSafe(st: Statuses, branch: seq<BlockNode>, line: seq<BlockNode>, verdict: Verdict, fastAdd: bool)
    requires Arrived(st, branch, line) && Tip(line).parent == Tip(branch)
    ensures Promised(st, branch, line, Extend(st, branch, line, verdict, fastAdd))
  {
    var h := |line| - 1;
    BelowNewTip(st, branch, line);
    if fastAdd || verdict == Accept {
      ValidKeepsSound(st, line, h, h + 1);
      SwitchSafe(st, branch, line, Mark(st, line, h, h + 1, {Validated}));
    } else if verdict == RuleViolation {
      FailedKeepsSound(st, line, h);
      StaySafe(st, branch, line, Mark(st, line, h, h + 1, {ValidateFailed}), Rejected(verdict));
    } else {
      StaySafe(st, branch, line, st, Rejected(verdict));
    }
  }

  lemma ReorganizeSafe(st: Statuses, branch: seq<BlockNode>, line: seq<BlockNode>, verdict: Hash -> Verdict)
    requires Arrived(st, branch, line) && Tip(line).workSum > Tip(branch).workSum
    ensures Promised(st, branch, line, Reorganize(st, branch, line, CommonLength(line, branch), verdict))
  {
    hide Promised, Mark, Checked, Sound;
    var k := CommonLength(line, branch);
    var j := CleanFrom(st, line, k, |line|);
    if KnownInvalid(st[line[|line| - 2]]) {
      ScannedSafe(st, branch, line, |line| - 1);
    } else if j > k {
      ScannedSafe(st, branch, line, j);
    } else {
      CheckedSafe(st, branch, line, verdict);
    }
  }

  lemma ScannedSafe(st: Statuses, branch: seq<BlockNode>, line: seq<BlockNode>, j: nat)
    requires Arrived(st, branch, line) && 1 <= j <= |line| && KnownInvalid(st[line[j - 1]])
    ensures Promised(st, branch, line, Scanned(st, branch, line, j))
  {
    InvalidKeepsSound(st, line, j);
    StaySafe(st, branch, line, Mark(st, line, j, |line|, {InvalidAncestor}), MainChain);
  }

  lemma CheckedSafe(st: Statuses, branch: seq<BlockNode>, line: seq<BlockNode>, verdict: Hash -> Verdict)
    requires Arrived(st, branch, line) && Tip(line).workSum > Tip(branch).workSum
    requires forall i :: CommonLength(line, branch) <= i < |line| ==> !KnownInvalid(st[line[i]])
    ensures Promised(st, branch, line, Checked(st, branch, line, CommonLength(line, branch), verdict))
  {
    var k := CommonLength(line, branch);
    var f, after := FirstReject(st, line, k, verdict), AfterCheck(st, line, k, verdict);
    ForkBelowTip(st, branch, line);
    CheckKeepsSound(st, line, k, verdict);
    CheckMarks(st, line, k, verdict);
    if f == |line| {
      SwitchSafe(st, branch, line, after);
    } else {
      StaySafe(st, branch, line, after, Rejected(verdict(line[f].hash)));
    }
  }

  lemma ForkBelowTip(st: Statuses, branch: seq<BlockNode>, line: seq<BlockNode>)
    requires Arrived(st, branch, line)
    ensures
      var k := CommonLength(line, branch);
      1 <= k < |line| && forall i :: 0 <= i < k ==> KnownValid(st[line[i]])
  {
    var k := CommonLength(line, branch);
    assert forall i :: 0 <= i < k ==> line[i] == line[..k][i] == branch[i];
  }

  // ----- Whole runs -----

  datatype State = State(st: Statuses, branch: seq<BlockNode>)

  datatype Arrival = Arrival(node: BlockNode, verdict: Hash -> Verdict, fastAdd: bool)

  /** One tree under one root, sound flags, and an all-valid best branch within the tree. */
  ghost predicate Safe(s: State) {
    && s.branch != [] && Known(s.st, s.branch) && AllValid(s.st, s.branch)
    && (forall n :: n in s.st ==> Rooted(n))
    && (forall n :: n in s.st && n.parent == null ==> n == s.branch[0])
    && Sound(s.st)
  }

  /** The block is new, and its parent is known and not known invalid. */
  ghost predicate Admissible(s: State, a: Arrival) {
    && a.node !in s.st && Rooted(a.node)
    && a.node.parent != null && a.node.parent in s.st && !KnownInvalid(s.st[a.node.parent])
  }

  lemma {:induction false} LineageKnown(st: Statuses, n: BlockNode)
    requires n in st && Rooted(n) && Sound(st)
    ensures Known(st, Lineage(n)) && Lineage(n)[0].parent == null
    decreases n.height
  {
    assert SoundAt(st, n);
    LineageIsLinked(n);
    if n.parent != null {
      LineageKnown(st, n.parent);
    }
  }

  ghost function Indexed(s: State, a: Arrival): Statuses {
    s.st[a.node := {DataStored}]
  }

  lemma ArrivalReady(s: State, a: Arrival)
    requires Safe(s) && Admissible(s, a)
    ensures Arrived(Indexed(s, a), s.branch, Lineage(a.node))
  {
    var st := Indexed(s, a);
    forall n | n in st
      ensures SoundAt(st, n)
    {
      if n != a.node {
        assert SoundAt(s.st, n);
      }
    }
    LineageKnown(st, a.node);
  }

  ghost function Step(s: State, a: Arrival): Selection
    requires Safe(s) && Admissible(s, a)
  {
    ArrivalReady(s, a);
    Select(Indexed(s, a), s.branch, Lineage(a.node), a.verdict, a.fastAdd)
  }

  ghost function Next(s: State, a: Arrival): State
    requires Safe(s) && Admissible(s, a)
  {
    State(Step(s, a).st, Step(s, a).branch)
  }

  lemma StepSafe(s: State, a: Arrival)
    requires Safe(s) && Admissible(s, a)
    ensures Safe(Next(s, a))
    ensures Tip(Next(s, a).branch).workSum >= Tip(s.branch).workSum
    ensures Next(s, a).branch == s.branch || Tip(Next(s, a).branch) == a.node
    ensures Next(s, a).branch != s.branch ==>
      Tip(Next(s, a).branch).workSum > Tip(s.branch).workSum || Next(s, a).branch == s.branch + [a.node]
    ensures Grows(Indexed(s, a), Next(s, a).st)
    ensures Step(s, a).result == Rejected(RuleViolation) ==> KnownInvalid(Next(s, a).st[a.node])
    ensures Heaviest(s.st, s.branch) && Step(s, a).result != Rejected(StoreFailure) ==>
      Heaviest(Next(s, a).st, Next(s, a).branch)
  {
    ArrivalReady(s, a);
    SelectSafe(Indexed(s, a), s.branch, Lineage(a.node), a.verdict, a.fastAdd);
  }

  /** A genesis block alone is a safe state. */
  lemma GenesisSafe(node: BlockNode)
    requires node.parent == null && Rooted(node)
    ensures
      var s := State(map[node := {DataStored, Validated}], [node]);
      Safe(s) && Heaviest(s.st, s.branch)
  {
    assert SoundAt(map[node := {DataStored, Validated}], node);
  }

  /** A run is a sequence of admissible arrivals, each with verdicts of its own. */
  ghost predicate IsRun(s: State, arrivals: seq<Arrival>)
    decreases |arrivals|
  {
    Safe(s) && (arrivals == [] || (Admissible(s, arrivals[0]) && IsRun(Next(s, arrivals[0]), arrivals[1..])))
  }

  ghost function Final(s: State, arrivals: seq<Arrival>): State
    requires IsRun(s, arrivals)
    decreases |arrivals|
  {
    if arrivals == [] then s else Final(Next(s, arrivals[0]), arrivals[1..])
  }

  ghost predicate StoreHeld(s: State, arrivals: seq<Arrival>)
    requires IsRun(s, arrivals)
    decreases |arrivals|
  {
    arrivals == [] ||
    (Step(s, arrivals[0]).result != Rejected(StoreFailure) && StoreHeld(Next(s, arrivals[0]), arrivals[1..]))
  }

  /** Over any run the tree stays sound, the best branch stays valid and its work never
      falls; unless its work grew, it still begins with the branch it was, so that equal
      work never displaces a tip; and while the store holds, no known block has more work
      unless it is known to be invalid. */
  lemma {:induction false} RunSafe(s: State, arrivals: seq<Arrival>)
    requires IsRun(s, arrivals)
    ensures Safe(Final(s, arrivals))
    ensures Tip(Final(s, arrivals).branch).workSum >= Tip(s.branch).workSum
    ensures Tip(Final(s, arrivals).branch).workSum > Tip(s.branch).workSum || s.branch <= Final(s, arrivals).branch
    ensures Heaviest(s.st, s.branch) && StoreHeld(s, arrivals) ==>
      Heaviest(Final(s, arrivals).st, Final(s, arrivals).branch)
    decreases |arrivals|
  {
    if arrivals != [] {
      StepSafe(s, arrivals[0]);
      RunSafe(Next(s, arrivals[0]), arrivals[1..]);
    }
  }

  // ----- What the result MainChain means -----

  /** Some node from height `k` up is known invalid. */
  ghost predicate InvalidFrom(st: Statuses, line: seq<BlockNode>, k: nat) {
    exists i :: k <= i < |line| && line[i] in st && KnownInvalid(st[line[i]])
  }

  /** A heavier line whose own last node is new is scanned, not checked, exactly when
      something above the fork is known invalid. */
  lemma ReorganizeStays(st: Statuses, branch: seq<BlockNode>, line: seq<BlockNode>, k: nat, verdict: Hash -> Verdict)
    requires Known(st, line) && 1 <= k < |line| && branch != line && !KnownInvalid(st[line[k - 1]])
    ensures
      var r := Reorganize(st, branch, line, k, verdict);
      && (r.result == MainChain && r.branch == branch <==> InvalidFrom(st, line, k))
      && (r.branch == branch || (r.branch == line && r.result == MainChain))
      && r.result != SideChain
  {
    var j := CleanFrom(st, line, k, |line|);
    if j > k {
      assert KnownInvalid(st[line[j - 1]]);
    }
  }

  lemma SelectMeans(st: Statuses, branch: seq<BlockNode>, line: seq<BlockNode>, verdict: Hash -> Verdict, fastAdd: bool)
    requires Arrived(st, branch, line) && branch != line
    ensures
      var r := Select(st, branch, line, verdict, fastAdd);
      && (r.result == MainChain && r.branch == branch <==>
          && Tip(line).parent != Tip(branch) && Tip(line).workSum > Tip(branch).workSum
          && InvalidFrom(st, line, CommonLength(line, branch)))
      && (r.branch == branch || (r.branch == line && r.result == MainChain))
  {
    hide Mark, InvalidFrom, Reorganize, Linked;
    var k := CommonLength(line, branch);
    ForkBelowTip(st, branch, line);
    assert SoundAt(st, line[k - 1]);
    ReorganizeStays(st, branch, line, k, verdict);
  }

  lemma NewNotInvalid(s: State, a: Arrival, line: seq<BlockNode>, k: nat)
    requires a.node !in s.st
    ensures InvalidFrom(Indexed(s, a), line, k) <==> InvalidFrom(s.st, line, k)
  {
    var st := Indexed(s, a);
    assert forall n :: n in st && KnownInvalid(st[n]) <==> n in s.st && KnownInvalid(s.st[n]);
  }

  /** The result MainChain leaves the best branch as it was exactly when the block is off
      the tip and heavier, and something on its way from the fork is known invalid; else it
      puts the block on the best branch. */
  lemma MainChainMeans(s: State, a: Arrival)
    requires Safe(s) && Admissible(s, a)
    ensures
      var line := Lineage(a.node);
      Step(s, a).result == MainChain && Next(s, a).branch == s.branch <==>
      && a.node.parent != Tip(s.branch) && a.node.workSum > Tip(s.branch).workSum
      && InvalidFrom(s.st, line, CommonLength(line, s.branch))
    ensures Next(s, a).branch != s.branch <==> Next(s, a).branch == Lineage(a.node)
    ensures Next(s, a).branch != s.branch ==> Step(s, a).result == MainChain
  {
    hide Select, InvalidFrom;
    ArrivalReady(s, a);
    SelectMeans(Indexed(s, a), s.branch, Lineage(a.node), a.verdict, a.fastAdd);
    NewNotInvalid(s, a, Lineage(a.node), CommonLength(Lineage(a.node), s.branch));
  }

  // ----- What an arrival does, case by case -----

  /** Only the flags of one node may differ. */
  ghost predicate OnlyAt(st: Statuses, st': Statuses, n: BlockNode) {
    st'.Keys == st.Keys && forall m :: m in st && m != n ==> st'[m] == st[m]
  }

  /** A block on the tip extends the best branch exactly when validation is waived or accepts
      it; then it is valid.  Otherwise the verdict is passed on and the branch stays, and the
      block has failed validation exactly when it violates a rule.  No other block's flags
      change. */
  lemma TipMeans(s: State, a: Arrival)
    requires Safe(s) && Admissible(s, a) && a.node.parent == Tip(s.branch)
    ensures
      var r := Step(s, a);
      && (r.branch == s.branch + [a.node] <==> a.fastAdd || a.verdict(a.node.hash) == Accept)
      && r.result ==
        (if a.fastAdd || a.verdict(a.node.hash) == Accept then MainChain else Rejected(a.verdict(a.node.hash)))
      && (r.result != MainChain ==> r.branch == s.branch)
      && OnlyAt(Indexed(s, a), r.st, a.node)
      && r.st[a.node] ==
        if r.result == MainChain then {DataStored, Validated}
        else if a.verdict(a.node.hash) == RuleViolation then {DataStored, ValidateFailed}
        else {DataStored}
  {
    hide Linked, Rooted;
    ArrivalReady(s, a);
    var st, line := Indexed(s, a), Lineage(a.node);
    ExtendsLine(s.branch, line);
    assert forall n :: n in st && Between(line, |line| - 1, |line|, n) ==> n == a.node;
  }

  /** A block off the tip with no more work changes nothing but that it is known. */
  lemma SideMeans(s: State, a: Arrival)
    requires Safe(s) && Admissible(s, a)
    ensures Step(s, a).result == SideChain <==>
      a.node.parent != Tip(s.branch) && a.node.workSum <= Tip(s.branch).workSum
    ensures Step(s, a).result == SideChain ==> Next(s, a) == State(Indexed(s, a), s.branch)
  {
    ArrivalReady(s, a);
    ForkBelowTip(Indexed(s, a), s.branch, Lineage(a.node));
  }

  /** When the way from the fork is known invalid somewhere, exactly the blocks above the
      highest such place are flagged, as having an invalid ancestor. */
  lemma AsideMeans(s: State, a: Arrival, j: nat)
    requires Safe(s) && Admissible(s, a) && a.node.parent != Tip(s.branch) && a.node.workSum > Tip(s.branch).workSum
    requires
      var st, line := Indexed(s, a), Lineage(a.node);
      && CommonLength(line, s.branch) < j <= |line| && line[j - 1] in st && KnownInvalid(st[line[j - 1]])
      && forall i :: j <= i < |line| ==> line[i] in st && !KnownInvalid(st[line[i]])
    ensures
      var st, line, next := Indexed(s, a), Lineage(a.node), Next(s, a);
      && Step(s, a).result == MainChain && next.branch == s.branch && next.st.Keys == st.Keys
      && forall n :: n in st ==> next.st[n] == if n in line[j..] then st[n] + {InvalidAncestor} else st[n]
  {
    hide Linked, Rooted, Lineage, CommonLength, Safe, Sound, Mark, Checked;
    ArrivalReady(s, a);
    var st, line := Indexed(s, a), Lineage(a.node);
    ParentFine(s, a);
    CleanUnique(st, line, CommonLength(line, s.branch), |line|, j);
    MarkShows(st, line, j, {InvalidAncestor});
  }

  /** The parent is the last node but one, and not known invalid; the block itself is new. */
  lemma ParentFine(s: State, a: Arrival)
    requires Safe(s) && Admissible(s, a)
    ensures
      var st, line := Indexed(s, a), Lineage(a.node);
      && |line| >= 2 && line[|line| - 1] == a.node && line[|line| - 2] == a.node.parent
      && line[|line| - 2] in st && !KnownInvalid(st[line[|line| - 2]]) && !KnownInvalid(st[line[|line| - 1]])
  {
  }

  lemma MarkShows(st: Statuses, line: seq<BlockNode>, j: nat, flags: set<Flag>)
    requires Linked(line) && j <= |line|
    ensures
      var st' := Mark(st, line, j, |line|, flags);
      st'.Keys == st.Keys && forall n :: n in st ==> st'[n] == if n in line[j..] then st[n] + flags else st[n]
  {
    hide Linked;
    BetweenIs(line, j, |line|);
    assert line[j..|line|] == line[j..];
  }

  /** Being on a stretch of a line is being listed there. */
  lemma BetweenIs(line: seq<BlockNode>, lo: nat, hi: nat)
    requires Linked(line) && lo <= hi <= |line|
    ensures forall n :: Between(line, lo, hi, n) <==> n in line[lo..hi]
  {
    forall n
      ensures Between(line, lo, hi, n) <==> n in line[lo..hi]
    {
      if Between(line, lo, hi, n) {
        assert line[lo..hi][n.height - lo] == n;
      }
    }
  }

  /** The flags that a check leaves: valid below the first block turned down, and when that
      violated a rule, failed there and an invalid ancestor above; nothing else changes. */
  ghost predicate CheckShown(st: Statuses, st': Statuses, line: seq<BlockNode>, k: nat, f: nat, failed: bool)
    requires k <= f <= |line|
  {
    && st'.Keys == st.Keys
    && forall n :: n in st ==>
      st'[n] ==
      if n in line[k..f] then st[n] + {Validated}
      else if failed && f < |line| && n == line[f] then st[n] + {ValidateFailed}
      else if failed && f < |line| && n in line[f + 1..] then st[n] + {InvalidAncestor}
      else st[n]
  }

  lemma CheckShows(st: Statuses, line: seq<BlockNode>, k: nat, verdict: Hash -> Verdict)
    requires Known(st, line) && k <= |line|
    ensures
      var f := FirstReject(st, line, k, verdict);
      CheckShown(st, AfterCheck(st, line, k, verdict), line, k, f,
                 f < |line| && verdict(line[f].hash) == RuleViolation)
  {
    hide Linked, FirstReject;
    var f := FirstReject(st, line, k, verdict);
    BetweenIs(line, k, f);
    if f < |line| {
      BetweenIs(line, f, f + 1);
      BetweenIs(line, f + 1, |line|);
      assert line[f..f + 1] == [line[f]] && line[f + 1..|line|] == line[f + 1..];
      OnePlace(line, k, f);
    }
  }

  /** No node is in two places of a line. */
  lemma OnePlace(line: seq<BlockNode>, k: nat, f: nat)
    requires Linked(line) && k <= f < |line|
    ensures line[f] !in line[k..f] && line[f] !in line[f + 1..]
    ensures forall n :: n in line[k..f] ==> n !in line[f + 1..]
  {
  }

  /** A heavier line with nothing known invalid above the fork: its blocks are looked at in
      turn, and `f` is the first that neither is known valid nor is accepted.  Without one the
      line becomes the best branch, all valid.  Otherwise the branch stays and the verdict on
      that block is passed on.  The flags of every known block are those that the check leaves. */
  lemma ReorganizationMeans(s: State, a: Arrival, f: nat)
    requires Safe(s) && Admissible(s, a) && a.node.parent != Tip(s.branch) && a.node.workSum > Tip(s.branch).workSum
    requires !InvalidFrom(s.st, Lineage(a.node), CommonLength(Lineage(a.node), s.branch))
    requires
      var st, line := Indexed(s, a), Lineage(a.node);
      && CommonLength(line, s.branch) <= f <= |line|
      && (forall i :: CommonLength(line, s.branch) <= i < f ==>
          line[i] in st && (Validated in st[line[i]] || a.verdict(line[i].hash) == Accept))
      && (f < |line| ==> line[f] in st && Validated !in st[line[f]] && a.verdict(line[f].hash) != Accept)
    ensures
      var st, line, next := Indexed(s, a), Lineage(a.node), Next(s, a);
      var k := CommonLength(line, s.branch);
      if f == |line| then
        next.branch == line && Step(s, a).result == MainChain && CheckShown(st, next.st, line, k, f, false)
      else
        && next.branch == s.branch && Step(s, a).result == Rejected(a.verdict(line[f].hash))
        && CheckShown(st, next.st, line, k, f, a.verdict(line[f].hash) == RuleViolation)
  {
    hide Mark, CheckShown, Linked, AfterCheck;
    var st, line := Indexed(s, a), Lineage(a.node);
    var k := CommonLength(line, s.branch);
    ArrivalReady(s, a);
    ForkBelowTip(st, s.branch, line);
    assert SoundAt(st, line[k - 1]);
    NewNotInvalid(s, a, line, k);
    NoneInvalid(st, line, k);
    RejectUnique(st, line, k, f, a.verdict);
    CheckShows(st, line, k, a.verdict);
  }

  lemma NoneInvalid(st: Statuses, line: seq<BlockNode>, k: nat)
    requires Known(st, line) && 1 <= k < |line| && !KnownInvalid(st[line[k - 1]]) && !InvalidFrom(st, line, k)
    ensures !KnownInvalid(st[line[|line| - 2]]) && CleanFrom(st, line, k, |line|) == k
  {
    CleanUnique(st, line, k, |line|, k);
  }

  /** A known-invalid node has a failed node in its lineage. */
  lemma {:induction false} InvalidHasFailure(st: Statuses, n: BlockNode)
    requires Sound(st) && n in st && Rooted(n) && KnownInvalid(st[n])
    ensures exists m :: m in Lineage(n) && m in st && ValidateFailed in st[m]
    decreases n.height
  {
    assert SoundAt(st, n);
    if ValidateFailed in st[n] {
      assert n in Lineage(n);
    } else {
      InvalidHasFailure(st, n.parent);
      var m :| m in Lineage(n.parent) && m in st && ValidateFailed in st[m];
      assert m in Lineage(n);
    }
  }

  /** Most work wins: a branch none of whose blocks failed validation has no more work
      than the best one. */
  lemma MostWorkWins(s: State, n: BlockNode)
    requires Safe(s) && Heaviest(s.st, s.branch) && n in s.st
    requires forall m :: m in Lineage(n) && m in s.st ==> ValidateFailed !in s.st[m]
    ensures n.workSum <= Tip(s.branch).workSum
  {
    if n.workSum > Tip(s.branch).workSum {
      InvalidHasFailure(s.st, n);
    }
  }
}
