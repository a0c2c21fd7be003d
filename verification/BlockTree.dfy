/** Block nodes: an immutable tree of headers linked by parent references, each node
    carrying a mutable set of validation flags. */
module BlockTree {
  import opened Compact

  /** Block hashes are only ever compared for equality. */
  type Hash = nat

  datatype Flag = DataStored | Validated | ValidateFailed | InvalidAncestor

  predicate KnownValid(status: set<Flag>) {
    Validated in status
  }

  predicate KnownInvalid(status: set<Flag>) {
    ValidateFailed in status || InvalidAncestor in status
  }

  /** The flags of a set of nodes at one moment. */
  type Statuses = map<BlockNode, set<Flag>>

  class BlockNode {
    const parent: BlockNode?
    const hash: Hash
    const workSum: nat
    const height: nat
    const bits: Uint32
    const timestamp: int
    var status: set<Flag>

    constructor (hash: Hash, bits: Uint32, timestamp: int, parent: BlockNode?)
      requires parent != null ==> Rooted(parent)
      ensures Rooted(this)
      ensures this.parent == parent && this.hash == hash && this.bits == bits && this.timestamp == timestamp
      ensures status == {} && height == if parent == null then 0 else parent.height + 1
      ensures
        var before := if parent == null then 0 else parent.workSum;
        workSum >= before && IsWork(CompactToBig(bits), workSum - before)
    {
      hide CalcWork, CompactToBig, IsWork;
      WorkMeans(bits);
      this.parent := parent;
      this.hash := hash;
      this.bits := bits;
      this.timestamp := timestamp;
      this.status := {};
      if parent == null {
        this.height := 0;
        this.workSum := CalcWork(bits);
      } else {
        this.height := parent.height + 1;
        this.workSum := parent.workSum + CalcWork(bits);
      }
    }
  }

  /** The node hangs off a root by a chain of parents along which heights count up by
      one and work adds up. */
  ghost predicate Rooted(n: BlockNode)
    decreases n.height
  {
    Derived(n) && (n.parent != null ==> Rooted(n.parent))
  }

  /** The branch that ends in `n`, root first. */
  ghost function Lineage(n: BlockNode): (r: seq<BlockNode>)
    requires Rooted(n)
    ensures |r| == n.height + 1
    ensures r[n.height] == n
    decreases n.height
  {
    if n.parent == null then [n] else Lineage(n.parent) + [n]
  }

  /** Every node of a branch sits at the index of its height and ends the matching prefix. */
  lemma {:induction false} LineagePrefix(n: BlockNode, h: nat)
    requires Rooted(n) && h <= n.height
    ensures Rooted(Lineage(n)[h])
    ensures Lineage(n)[h].height == h
    ensures Lineage(Lineage(n)[h]) == Lineage(n)[..h + 1]
    decreases n.height
  {
    if h < n.height {
      LineagePrefix(n.parent, h);
      assert Lineage(n)[..h + 1] == Lineage(n.parent)[..h + 1];
    }
  }

  /** Height and work follow from the parent's. */
  ghost predicate Derived(n: BlockNode) {
    if n.parent == null then
      n.height == 0 && n.workSum == CalcWork(n.bits)
    else
      n.height == n.parent.height + 1 && n.workSum == n.parent.workSum + CalcWork(n.bits)
  }

  /** The work behind a branch. */
  ghost function TotalWork(line: seq<BlockNode>): nat {
    if line == [] then 0 else TotalWork(line[..|line| - 1]) + CalcWork(line[|line| - 1].bits)
  }

  /** A node's work sum is the work of every block of its lineage, and its height their number
      but for the root. */
  lemma {:induction false} WorkSumMeans(n: BlockNode)
    requires Rooted(n)
    ensures n.workSum == TotalWork(Lineage(n)) && n.height + 1 == |Lineage(n)|
    decreases n.height
  {
    hide CalcWork;
    if n.parent == null {
      assert Lineage(n)[..0] == [];
    } else {
      WorkSumMeans(n.parent);
      assert Lineage(n)[..|Lineage(n)| - 1] == Lineage(n.parent);
    }
  }

  /** A branch laid out by height: every node links to the one before it. */
  ghost predicate Linked(s: seq<BlockNode?>) {
    && (forall i :: 0 <= i < |s| ==> s[i] != null && s[i].height == i)
    && (forall i {:trigger Derived(s[i])} :: 0 <= i < |s| ==> Derived(s[i]))
    && (forall i {:trigger s[i].parent} :: 0 <= i < |s| ==> s[i].parent == if i == 0 then null else s[i - 1])
  }

  /** The linked sequences are exactly the lineages of their last nodes. */
  lemma {:induction false} LinkedIsLineage(s: seq<BlockNode?>)
    requires Linked(s) && s != []
    ensures Rooted(s[|s| - 1]) && Lineage(s[|s| - 1]) == s
  {
    if |s| > 1 {
      LinkedIsLineage(s[..|s| - 1]);
      assert s == s[..|s| - 1] + [s[|s| - 1]];
    }
  }

  lemma {:induction false} LineageIsLinked(n: BlockNode)
    requires Rooted(n)
    ensures Linked(Lineage(n))
    decreases n.height
  {
    if n.parent != null {
      LineageIsLinked(n.parent);
    }
  }

  /** Stepping to the parent steps one position down the branch. */
  lemma ParentStep(n: BlockNode, m: BlockNode)
    requires Rooted(n) && m.height <= n.height && m == Lineage(n)[m.height]
    ensures Rooted(m)
    ensures m.parent == if m.height == 0 then null else Lineage(n)[m.height - 1]
    ensures m.parent != null ==> m.parent.height == m.height - 1 && Rooted(m.parent)
  {
    LineagePrefix(n, m.height);
    if m.height > 0 {
      assert Lineage(m)[m.height - 1] == Lineage(n)[..m.height + 1][m.height - 1];
    }
  }

  /** The parent walk finds the ancestor at a height, and nothing outside the branch. */
  method Ancestor(node: BlockNode, height: int) returns (r: BlockNode?)
    requires Rooted(node)
    ensures r == if 0 <= height <= node.height then Lineage(node)[height] else null
  {
    if height < 0 || height > node.height {
      return null;
    }
    var n: BlockNode? := node;
    while n != null && n.height != height
      invariant n != null
      invariant Rooted(n) && height <= n.height <= node.height && n == Lineage(node)[n.height]
      decreases if n == null then 0 else n.height
    {
      ParentStep(node, n);
      n := n.parent;
    }
    return n;
  }

  method RelativeAncestor(node: BlockNode, distance: int) returns (r: BlockNode?)
    requires Rooted(node)
    ensures r == if 0 <= distance <= node.height then Lineage(node)[node.height - distance] else null
  {
    r := Ancestor(node, node.height - distance);
  }
}
