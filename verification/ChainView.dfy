/** A flat view of one branch of the block tree, indexed by height. */
module ChainView {
  import opened BlockTree

  const APPROX_NODES_PER_WEEK := 6 * 24 * 7

  /** How many leading positions two branches share. */
  ghost function CommonLength(a: seq<BlockNode>, b: seq<BlockNode>): (k: nat)
    ensures k <= |a| && k <= |b|
    ensures a[..k] == b[..k]
    ensures k < |a| && k < |b| ==> a[k] != b[k]
  {
    if a != [] && b != [] && a[0] == b[0] then
      var k := 1 + CommonLength(a[1..], b[1..]);
      assert a[..k] == [a[0]] + a[1..][..k - 1] && b[..k] == [b[0]] + b[1..][..k - 1];
      k
    else 0
  }

  /** Two branches that share a node share everything below it. */
  lemma {:induction false} LinkedAgree(a: seq<BlockNode?>, b: seq<BlockNode?>, h: nat)
    requires Linked(a) && Linked(b) && h < |a| && h < |b| && a[h] == b[h]
    ensures forall k :: 0 <= k <= h ==> a[k] == b[k]
  {
    if h > 0 {
      assert a[h].parent == a[h - 1] && b[h].parent == b[h - 1];
      LinkedAgree(a, b, h - 1);
    }
  }

  /** A node of one branch lies on the other exactly when its height is under their
      common length. */
  lemma SharedBelow(a: seq<BlockNode>, b: seq<BlockNode>, h: nat)
    requires Linked(a) && Linked(b) && h < |a|
    ensures a[h] in b <==> h < CommonLength(a, b)
    ensures a[h] in b ==> h < |b| && b[h] == a[h]
  {
    var k := CommonLength(a, b);
    if h < k {
      assert a[h] == a[..k][h] == b[..k][h];
    } else if a[h] in b {
      LinkedAgree(a, b, h);
    }
  }

  class View {
    /** Backing storage: `|nodes|` is the capacity, the first `len` slots are the view.
        Slots beyond `len` keep whatever a longer view left there. */
    var nodes: seq<BlockNode?>
    var len: nat

    ghost predicate Valid()
      reads this
    {
      len <= |nodes| && Linked(nodes[..len])
    }

    /** The branch the view shows, root first. */
    ghost function Branch(): (s: seq<BlockNode>)
      requires Valid()
      reads this
      ensures |s| == len
    {
      nodes[..len]
    }

    /** The view is the whole lineage of its tip. */
    lemma BranchOfTip()
      requires Valid() && len > 0
      ensures Tip() != null && Rooted(Tip()) && Branch() == Lineage(Tip())
    {
      LinkedIsLineage(nodes[..len]);
    }

    constructor (tip: BlockNode?)
      requires tip != null ==> Rooted(tip)
      ensures Valid()
      ensures Branch() == if tip == null then [] else Lineage(tip)
    {
      nodes := [];
      len := 0;
      new;
      SetTip(tip);
    }

    /** Grows or shrinks the view; slots that come into view are cleared. */
    method Resize(needed: nat)
      requires len <= |nodes|
      modifies this
      ensures len == needed <= |nodes|
      ensures forall i :: 0 <= i < len ==> nodes[i] == if i < old(len) then old(nodes[i]) else null
    {
      if |nodes| < needed {
        nodes := nodes[..len] + seq(needed + APPROX_NODES_PER_WEEK - len, _ => null);
        len := needed;
      } else {
        var prevLen := len;
        len := needed;
        var i := prevLen;
        while i < needed
          invariant i == prevLen || prevLen <= i <= needed
          invariant |nodes| == |old(nodes)| && len == needed
          invariant forall j :: 0 <= j < needed ==>
            nodes[j] == if prevLen <= j < i then null else old(nodes[j])
        {
          nodes := nodes[i := null];
          i := i + 1;
        }
      }
    }

    /** The walk down from `node`: overwrites slots until one already holds its node. */
    method Rewrite(node: BlockNode, ghost before: seq<BlockNode>) returns (stop: BlockNode?)
      requires Rooted(node) && len == node.height + 1 <= |nodes|
      requires forall h :: 0 <= h < len ==> nodes[h] == if h < |before| then before[h] else null
      modifies `nodes
      ensures |nodes| == |old(nodes)|
      ensures stop != null ==>
        && stop.height < |before| && stop.height < len
        && stop == Lineage(node)[stop.height] == before[stop.height]
      ensures forall h :: 0 <= h < len ==>
        nodes[h] == if stop != null && h <= stop.height && h < |before| then before[h] else Lineage(node)[h]
    {
      hide Linked, Rooted, Lineage;
      ghost var branch := Lineage(node);
      var n: BlockNode? := node;
      while n != null && nodes[n.height] != n
        invariant |nodes| == |old(nodes)|
        invariant n != null ==> n.height < len && n == branch[n.height]
        invariant forall h :: 0 <= h < len ==>
          nodes[h] == if n == null || n.height < h then branch[h] else if h < |before| then before[h] else null
        decreases if n == null then 0 else n.height + 1
      {
        nodes := nodes[n.height := n];
        ParentStep(node, n);
        n := n.parent;
      }
      return n;
    }

    /** Rewrites the slots from the top down and stops at the first slot that already
        holds the right node; the whole branch is right afterwards. */
    method SetTip(node: BlockNode?)
      requires Valid()
      requires node != null ==> Rooted(node)
      modifies this
      ensures Valid()
      ensures Branch() == if node == null then [] else Lineage(node)
    {
      if node == null {
        len := 0;
        return;
      }
      ghost var before := Branch();
      LineageIsLinked(node);
      Resize(node.height + 1);
      var stop := Rewrite(node, before);
      if stop != null {
        // The early stop: below it the old branch and the new one are the same.
        LinkedAgree(before, Lineage(node), stop.height);
      }
      assert nodes[..len] == Lineage(node);
    }

    function Genesis(): (n: BlockNode?)
      requires Valid()
      reads this
      ensures n == if len == 0 then null else Branch()[0]
    {
      if len == 0 then null else nodes[0]
    }

    function Tip(): (n: BlockNode?)
      requires Valid()
      reads this
      ensures n == if len == 0 then null else Branch()[len - 1]
      ensures n != null ==> n.height == len - 1
    {
      if len == 0 then null else nodes[len - 1]
    }

    function NodeByHeight(height: int): (n: BlockNode?)
      requires Valid()
      reads this
      ensures n == if 0 <= height < len then Branch()[height] else null
    {
      if height < 0 || height >= len then null else nodes[height]
    }

    /** A slot comparison decides membership of the branch. */
    function Contains(node: BlockNode): (b: bool)
      requires Valid()
      reads this
      ensures b <==> node in Branch()
    {
      NodeByHeight(node.height) == node
    }

    function Next(node: BlockNode?): (n: BlockNode?)
      requires Valid()
      reads this
      ensures n == if node != null && node in Branch() && node.height + 1 < len
                   then Branch()[node.height + 1] else null
    {
      if node == null || !Contains(node) then null else NodeByHeight(node.height + 1)
    }

    /** Two views with the same tip show the same branch. */
    function Equals(other: View): (b: bool)
      requires Valid() && other.Valid()
      reads this, other
      ensures b <==> Branch() == other.Branch()
    {
      var same := len == other.len && Tip() == other.Tip();
      assert same ==> Branch() == other.Branch() by {
        if same && len > 0 {
          LinkedAgree(Branch(), other.Branch(), len - 1);
        }
      }
      same
    }

    /** The fork is the last node shared by the view and the node's own branch. */
    method FindFork(node: BlockNode?) returns (fork: BlockNode?)
      requires Valid() && (node != null ==> Rooted(node))
      ensures node == null ==> fork == null
      ensures node != null ==>
        var k := CommonLength(Lineage(node), Branch());
        fork == if k == 0 then null else Lineage(node)[k - 1]
    {
      if node == null {
        return null;
      }
      ghost var branch, mine := Branch(), Lineage(node);
      LineageIsLinked(node);
      ghost var k := CommonLength(mine, branch);
      var n: BlockNode? := node;
      if n.height > len - 1 {
        n := Ancestor(n, len - 1);
      }
      while n != null && !Contains(n)
        invariant n != null ==> k <= n.height + 1 <= len && n.height < |mine| && n == mine[n.height]
        invariant n == null ==> k == 0
        decreases if n == null then 0 else n.height + 1
      {
        SharedBelow(mine, branch, n.height);
        assert mine[n.height].parent == if n.height == 0 then null else mine[n.height - 1];
        n := n.parent;
      }
      if n == null {
        return null;
      }
      SharedBelow(mine, branch, n.height);
      assert k == n.height + 1;
      return n;
    }
  }
}
