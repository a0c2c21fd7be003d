/** The in-memory index of every known block node, and the rows that persist it. */
module BlockIndex {
  import opened BlockTree
  import opened Compact

  /** What the database keeps of a node: its header and its validation flags. */
  datatype Row = Row(prev: Hash, bits: Uint32, timestamp: int, status: set<Flag>)

  /** Rows are filed under height first, so key order is height order. */
  datatype RowKey = RowKey(height: nat, hash: Hash)

  /** The previous-block hash of a root header. */
  const ZERO_HASH: Hash := 0

  function KeyOf(n: BlockNode): RowKey {
    RowKey(n.height, n.hash)
  }

  function RowOf(n: BlockNode): Row
    reads n
  {
    Row(if n.parent == null then ZERO_HASH else n.parent.hash, n.bits, n.timestamp, n.status)
  }

  class Index {
    var index: map<Hash, BlockNode>
    var dirty: set<BlockNode>
    var rows: map<RowKey, Row>
    ghost var nodes: set<BlockNode>
    /** The flags of every indexed node, as one value. */
    ghost var statuses: Statuses

    /** The index files each of its nodes under its own hash, and holds the parent of
        every node it holds. */
    ghost predicate ValidTree()
      reads this
    {
      && (forall h :: h in index ==> index[h] in nodes && index[h].hash == h)
      && (forall n :: n in nodes ==> n.hash in index && index[n.hash] == n)
      && (forall n {:trigger Derived(n)} :: n in nodes ==> Derived(n))
      && (forall n {:trigger n.parent} :: n in nodes && n.parent != null ==> n.parent in nodes)
    }

    /** The node's row is stored and current, or the node is dirty. */
    ghost predicate RowCurrent(n: BlockNode)
      reads this, n
    {
      n !in dirty ==> KeyOf(n) in rows && rows[KeyOf(n)] == RowOf(n)
    }

    /** A stored node's parent is stored. */
    ghost predicate ParentStored(n: BlockNode)
      reads this
    {
      n.parent != null && KeyOf(n) in rows ==> KeyOf(n.parent) in rows
    }

    /** A stored row has the node's header, whatever its flags. */
    ghost predicate HeaderStored(n: BlockNode)
      reads this, n
    {
      KeyOf(n) in rows ==> rows[KeyOf(n)].(status := n.status) == RowOf(n)
    }

    /** The stored rows are current for every node that is not dirty; only indexed nodes
        have rows. */
    ghost predicate ValidRows()
      reads this, nodes
    {
      && dirty <= nodes
      && (forall n {:trigger RowCurrent(n)} :: n in nodes ==> RowCurrent(n))
      && (forall n {:trigger ParentStored(n)} :: n in nodes ==> ParentStored(n))
      && (forall n {:trigger HeaderStored(n)} :: n in nodes ==> HeaderStored(n))
      && (forall k :: k in rows ==> k.hash in index && KeyOf(index[k.hash]) == k)
    }

    ghost predicate ValidStatuses()
      reads this, nodes
    {
      statuses.Keys == nodes && forall n {:trigger n.status} :: n in nodes ==> n.status == statuses[n]
    }

    ghost predicate Valid()
      reads this, nodes
    {
      ValidTree() && ValidRows() && ValidStatuses()
    }

    constructor ()
      ensures Valid() && nodes == {} && index == map[] && dirty == {} && rows == map[]
    {
      index, dirty, rows, nodes, statuses := map[], {}, map[], {}, map[];
    }

    /** An index whose only entry is a valid root, already stored. */
    constructor WithRoot(root: BlockNode)
      requires root.parent == null && Derived(root)
      modifies root
      ensures Valid() && nodes == {root} && index == map[root.hash := root] && dirty == {} && KeyOf(root) in rows
      ensures statuses == map[root := {DataStored, Validated}]
    {
      index, dirty, nodes := map[root.hash := root], {}, {root};
      statuses := map[root := {DataStored, Validated}];
      rows := map[KeyOf(root) := Row(ZERO_HASH, root.bits, root.timestamp, {DataStored, Validated})];
      new;
      root.status := {DataStored, Validated};
    }

    /** Every indexed node hangs off a root, and its whole lineage is indexed. */
    lemma {:induction false} LineageIndexed(n: BlockNode)
      requires ValidTree() && n in nodes
      ensures Rooted(n)
      ensures forall m :: m in Lineage(n) ==> m in nodes
      decreases n.height
    {
      assert Derived(n);
      if n.parent != null {
        LineageIndexed(n.parent);
      }
    }

    function LookupNode(hash: Hash): (n: BlockNode?)
      requires ValidTree()
      reads this
      ensures n != null <==> hash in index
      ensures n != null ==> n in nodes && n.hash == hash
    {
      if hash in index then index[hash] else null
    }

    method AddNode(node: BlockNode)
      requires Valid() && node.hash !in index
      requires Derived(node) && (node.parent != null ==> node.parent in nodes)
      modifies this
      ensures Valid()
      ensures index == old(index)[node.hash := node] && nodes == old(nodes) + {node}
      ensures statuses == old(statuses)[node := node.status]
      ensures dirty == old(dirty) + {node} && rows == old(rows)
    {
      assert KeyOf(node) !in rows;
      index := index[node.hash := node];
      nodes := nodes + {node};
      statuses := statuses[node := node.status];
      dirty := dirty + {node};
      forall n | n in nodes
        ensures RowCurrent(n) && ParentStored(n) && HeaderStored(n)
      {
        assert n != node ==> old(RowCurrent(n) && ParentStored(n) && HeaderStored(n));
      }
    }

    method SetStatusFlags(node: BlockNode, flags: set<Flag>)
      requires Valid() && node in nodes
      modifies `dirty, `statuses, node`status
      ensures Valid()
      ensures statuses == old(statuses[node := statuses[node] + flags])
      ensures dirty == old(dirty) + {node}
    {
      node.status := node.status + flags;
      statuses := statuses[node := node.status];
      dirty := dirty + {node};
      forall n | n in nodes
        ensures RowCurrent(n) && ParentStored(n) && HeaderStored(n)
      {
        assert old(RowCurrent(n) && ParentStored(n) && HeaderStored(n));
      }
    }

    /** Writes every dirty node in one transaction; a failed transaction changes nothing. */
    method FlushToDB(commits: bool)
      requires Valid()
      modifies `dirty, `rows
      ensures Valid()
      ensures commits ==> dirty == {}
      ensures !commits ==> dirty == old(dirty) && rows == old(rows)
      ensures forall k :: k in old(rows) ==> k in rows
    {
      if dirty == {} || !commits {
        return;
      }
      var written := rows;
      var rest := dirty;
      while rest != {}
        invariant rest <= dirty
        invariant forall n {:trigger KeyOf(n)} :: n in dirty && n !in rest ==>
          KeyOf(n) in written && written[KeyOf(n)] == RowOf(n)
        invariant forall k :: k in written ==>
          k in rows || (k.hash in index && index[k.hash] in dirty - rest && KeyOf(index[k.hash]) == k)
        invariant forall k :: k in rows ==> k in written && (written[k] == rows[k] || index[k.hash] in dirty)
        decreases rest
      {
        var n :| n in rest;
        assert index[KeyOf(n).hash] == n;
        written := written[KeyOf(n) := RowOf(n)];
        rest := rest - {n};
      }
      rows := written;
      dirty := {};
      forall n | n in nodes
        ensures RowCurrent(n) && HeaderStored(n)
      {
        assert old(RowCurrent(n)) && index[KeyOf(n).hash] == n;
      }
      forall n | n in nodes
        ensures ParentStored(n)
      {
        if n.parent != null {
          assert old(RowCurrent(n.parent)) && RowCurrent(n.parent);
        }
      }
    }
  }
}
