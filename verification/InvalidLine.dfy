/** A block accepted as main chain that is not on the best chain: a run from genesis that
    ends with one. */
module InvalidLine {
  import opened BlockTree
  import opened ChainView
  import opened Compact
  import opened ForkChoice
  import opened Powers

  lemma SideStep(s: State, a: Arrival)
    requires Safe(s) && Admissible(s, a)
    requires a.node.parent != Tip(s.branch) && a.node.workSum <= Tip(s.branch).workSum
    ensures Next(s, a) == State(Indexed(s, a), s.branch) && Safe(Next(s, a))
  {
    ArrivalReady(s, a);
    SelectStays(Indexed(s, a), s.branch, Lineage(a.node), a.verdict, a.fastAdd);
    StepSafe(s, a);
  }

  lemma ExtendStep(s: State, a: Arrival)
    requires Safe(s) && Admissible(s, a) && a.node.parent == Tip(s.branch) && a.verdict(a.node.hash) == Accept
    ensures Next(s, a) == State(s.st[a.node := {DataStored, Validated}], s.branch + [a.node]) && Safe(Next(s, a))
  {
    hide Mark, Sound, Linked, Rooted, Select;
    var st, line := Indexed(s, a), Lineage(a.node);
    ArrivalReady(s, a);
    SelectExtends(st, s.branch, line, a.verdict, a.fastAdd);
    ExtendsLine(s.branch, line);
    StepSafe(s, a);
    MarkNone(st, line, |line| - 1, {Validated});
    MarkStep(st, line, |line| - 1, |line| - 1, {Validated});
    assert {DataStored} + {Validated} == {DataStored, Validated};
  }

  /** The tree: a tip, a lighter line of two blocks beside it, and a heavier block on each
      of the two. */
  ghost predicate Shape(g: BlockNode, tip: BlockNode, bad: BlockNode, mid: BlockNode, first: BlockNode,
                        second: BlockNode) {
    && g.parent == null && tip.parent == g && bad.parent == g && bad != tip
    && mid.parent == bad && first.parent == bad && mid != first && second.parent == mid && second != first
    && Rooted(g) && Rooted(tip) && Rooted(bad) && Rooted(mid) && Rooted(first) && Rooted(second)
    && bad.workSum <= tip.workSum && mid.workSum <= tip.workSum
    && first.workSum > tip.workSum && second.workSum > tip.workSum
  }

  ghost function Arrives(n: BlockNode, v: Verdict): Arrival {
    Arrival(n, _ => v, false)
  }

  lemma RunCons(s: State, a: Arrival, rest: seq<Arrival>)
    requires Safe(s) && Admissible(s, a) && IsRun(Next(s, a), rest)
    ensures IsRun(s, [a] + rest) && Final(s, [a] + rest) == Final(Next(s, a), rest)
  {
    hide Safe, Next;
    assert ([a] + rest)[1..] == rest;
  }

  ghost function Start(g: BlockNode): State {
    State(map[g := {DataStored, Validated}], [g])
  }

  ghost function Extended(g: BlockNode, tip: BlockNode): State {
    State(map[g := {DataStored, Validated}, tip := {DataStored, Validated}], [g, tip])
  }

  /** The tip is accepted; the line beside it is no heavier and stays unchecked. */
  ghost function Beside(g: BlockNode, tip: BlockNode, bad: BlockNode, mid: BlockNode): State {
    State(Extended(g, tip).st[bad := {DataStored}][mid := {DataStored}], [g, tip])
  }

  lemma ToExtended(g: BlockNode, tip: BlockNode, bad: BlockNode, mid: BlockNode, first: BlockNode, second: BlockNode)
    requires Shape(g, tip, bad, mid, first, second)
    ensures Safe(Start(g)) && Admissible(Start(g), Arrives(tip, Accept))
    ensures Next(Start(g), Arrives(tip, Accept)) == Extended(g, tip) && Safe(Extended(g, tip))
  {
    hide Safe, Step, Rooted;
    GenesisSafe(g);
    ExtendStep(Start(g), Arrives(tip, Accept));
    assert [g] + [tip] == [g, tip];
  }

  lemma ToBeside(g: BlockNode, tip: BlockNode, bad: BlockNode, mid: BlockNode, first: BlockNode, second: BlockNode)
    requires Shape(g, tip, bad, mid, first, second)
    ensures
      var s, a, b := Extended(g, tip), Arrives(bad, Accept), Arrives(mid, Accept);
      && Safe(s) && Admissible(s, a) && Safe(Next(s, a)) && Admissible(Next(s, a), b)
      && Next(Next(s, a), b) == Beside(g, tip, bad, mid) && Safe(Beside(g, tip, bad, mid))
  {
    hide Safe, Step, Rooted;
    ToExtended(g, tip, bad, mid, first, second);
    var s, a, b := Extended(g, tip), Arrives(bad, Accept), Arrives(mid, Accept);
    SideStep(s, a);
    assert Admissible(Next(s, a), b);
    SideStep(Next(s, a), b);
  }

  lemma LineOfThree(g: BlockNode, n: BlockNode, m: BlockNode)
    requires g.parent == null && n.parent == g && m.parent == n && Rooted(m)
    ensures Lineage(m) == [g, n, m] && Linked([g, n, m])
  {
    assert Lineage(g) == [g];
    assert Lineage(n) == [g, n];
    LineageIsLinked(m);
  }

  /** The flags after the line has failed. */
  ghost predicate Failed(s: State, g: BlockNode, tip: BlockNode, bad: BlockNode, mid: BlockNode, first: BlockNode) {
    && s.branch == [g, tip] && s.st.Keys == {g, tip, bad, mid, first}
    && ValidateFailed in s.st[bad] && s.st[mid] == {DataStored}
  }

  /** The heavier block on the line makes its bottom block fail; the other block on it is
      not told. */
  lemma LineFails(g: BlockNode, tip: BlockNode, bad: BlockNode, mid: BlockNode, first: BlockNode, second: BlockNode)
    requires Shape(g, tip, bad, mid, first, second)
    ensures
      var s, a := Beside(g, tip, bad, mid), Arrives(first, RuleViolation);
      Safe(s) && Admissible(s, a) && Safe(Next(s, a)) && Failed(Next(s, a), g, tip, bad, mid, first)
  {
    hide Safe, Step, Rooted, Lineage, Linked, CommonLength, FirstReject;
    var s, a, line := Beside(g, tip, bad, mid), Arrives(first, RuleViolation), [g, bad, first];
    ToBeside(g, tip, bad, mid, first, second);
    StepSafe(s, a);
    LineOfThree(g, bad, first);
    ForksAtOne(line, s.branch);
    ReorganizationMeans(s, a, 1);
    assert CheckShown(Indexed(s, a), Next(s, a).st, line, 1, 1, true);
    assert line[1..1] == [] && line[2..] == [first];
  }

  lemma ForksAtOne(line: seq<BlockNode>, branch: seq<BlockNode>)
    requires |line| >= 2 && |branch| >= 2 && line[0] == branch[0] && line[1] != branch[1]
    ensures CommonLength(line, branch) == 1
  {
  }

  /** The block is taken as main chain and is not on the best branch. */
  ghost predicate MainButOff(s: State, a: Arrival) {
    Safe(s) && Admissible(s, a) && Step(s, a).result == MainChain && a.node !in Next(s, a).branch
  }

  /** A block on the failed line is taken as main chain, and the best chain is the one it
      was. */
  lemma TakenAside(g: BlockNode, tip: BlockNode, bad: BlockNode, mid: BlockNode, first: BlockNode, second: BlockNode)
    requires Shape(g, tip, bad, mid, first, second)
    ensures
      var run := [Arrives(tip, Accept), Arrives(bad, Accept), Arrives(mid, Accept), Arrives(first, RuleViolation)];
      IsRun(Start(g), run) && MainButOff(Final(Start(g), run), Arrives(second, Accept))
  {
    hide Safe, Step, Rooted, Lineage, Linked, CommonLength;
    var a, b, c, d := Arrives(tip, Accept), Arrives(bad, Accept), Arrives(mid, Accept), Arrives(first, RuleViolation);
    ToExtended(g, tip, bad, mid, first, second);
    ToBeside(g, tip, bad, mid, first, second);
    LineFails(g, tip, bad, mid, first, second);
    var s1, s3 := Extended(g, tip), Beside(g, tip, bad, mid);
    var s4 := Next(s3, d);
    RunCons(s3, d, []);
    RunCons(Next(s1, b), c, [d]);
    RunCons(s1, b, [c, d]);
    RunCons(Start(g), a, [b, c, d]);
    AsideOn(s4, g, tip, bad, mid, first, second);
  }

  lemma AsideOn(s: State, g: BlockNode, tip: BlockNode, bad: BlockNode, mid: BlockNode, first: BlockNode,
                second: BlockNode)
    requires Shape(g, tip, bad, mid, first, second) && Safe(s) && Failed(s, g, tip, bad, mid, first)
    ensures MainButOff(s, Arrives(second, Accept))
  {
    hide Safe, Step, Rooted, Linked, CommonLength;
    var a := Arrives(second, Accept);
    LineOfThree(g, bad, mid);
    var line := Lineage(second);
    assert line == [g, bad, mid, second];
    ForksAtOne(line, s.branch);
    MainChainMeans(s, a);
  }

  /** The work of a small target, written with an exponent of three. */
  lemma SmallTarget(m: nat)
    requires 0 < m < 0x80_0000
    ensures CalcWork(0x0300_0000 + m) == Pow2(256) / (m + 1)
  {
    assert (0x0300_0000 + m) % 0x80_0000 == m && (0x0300_0000 + m) / ONE_24 == 3 && (0x0300_0000 + m) / 0x80_0000 == 6;
  }

  lemma Quarters()
    ensures exists q: nat :: q > 0 && Pow2(256) == 4 * q
  {
    assert Pow2(256) == 4 * Pow2(254);
  }

  lemma HeavyAndLight()
    ensures CalcWork(0x0300_0001) == 2 * CalcWork(0x0300_0003) > 0
  {
    hide CalcWork, Pow2;
    SmallTarget(1);
    SmallTarget(3);
    Quarters();
  }

  /** There is such a tree. */
  method SuchATree()
    returns (g: BlockNode, tip: BlockNode, bad: BlockNode, mid: BlockNode, first: BlockNode, second: BlockNode)
    ensures Shape(g, tip, bad, mid, first, second)
  {
    hide CalcWork;
    HeavyAndLight();
    var heavy, light := 0x0300_0001, 0x0300_0003;
    g := new BlockNode(0, heavy, 0, null);
    tip := new BlockNode(1, heavy, 1, g);
    bad := new BlockNode(2, light, 1, g);
    mid := new BlockNode(3, light, 2, bad);
    first := new BlockNode(4, heavy, 2, bad);
    second := new BlockNode(5, heavy, 3, mid);
  }
}
