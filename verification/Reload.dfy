/** Loading the block index from its rows when the node starts. */
module Reload {
  import opened BlockTree
  import opened BlockIndex
  import Chain
  import opened ChainView
  import opened Options
  import T = Tables
  import opened Vlq

  // ----- The order of keys -----

  /** A 32-bit number, most significant byte first. */
  function BigEndian(n: nat): (s: seq<Byte>)
    requires n < 0x1_0000_0000
    ensures |s| == 4
  {
    [n / 0x100_0000, n / 0x1_0000 % 256, n / 256 % 256, n % 256]
  }

  /** The key of a row, as bytes: the height and then the hash. */
  function KeyBytes(height: nat, hash: seq<Byte>): seq<Byte>
    requires height < 0x1_0000_0000
  {
    BigEndian(height) + hash
  }

  lemma BigEndianOrder(a: nat, b: nat)
    requires a < b < 0x1_0000_0000
    ensures Less(BigEndian(a), BigEndian(b))
  {
    var s, t := BigEndian(a), BigEndian(b);
    Split(a);
    Split(b);
    LessBytes(s, t);
  }

  lemma Split(n: nat)
    requires n < 0x1_0000_0000
    ensures Number(BigEndian(n)) == n
  {
  }

  function Number(s: seq<Byte>): int
    requires |s| == 4
  {
    var a: int, b: int, c: int, d: int := s[0], s[1], s[2], s[3];
    ((a * 256 + b) * 256 + c) * 256 + d
  }

  lemma LessBytes(s: seq<Byte>, t: seq<Byte>)
    requires |s| == |t| == 4 && Number(s) < Number(t)
    ensures Less(s, t)
  {
    assert s == [s[0]] + [s[1]] + [s[2]] + [s[3]] && t == [t[0]] + [t[1]] + [t[2]] + [t[3]];
    assert Less(s[3..], t[3..]) <==> s[3] < t[3];
    assert s[2..][1..] == s[3..] && t[2..][1..] == t[3..];
    assert s[1..][1..] == s[2..] && t[1..][1..] == t[2..];
  }

  /** The database's byte order of keys is the order of heights. */
  lemma KeysByHeight(a: nat, hash: seq<Byte>, b: nat, hash': seq<Byte>)
    requires a < 0x1_0000_0000 && b < 0x1_0000_0000 && Less(KeyBytes(a, hash), KeyBytes(b, hash'))
    ensures a <= b
  {
    if b < a {
      BigEndianOrder(b, a);
      LessAppend(BigEndian(b), BigEndian(a), hash', hash);
      NotBoth(KeyBytes(b, hash'), KeyBytes(a, hash));
    }
  }

  lemma {:induction false} NotBoth(s: seq<Byte>, t: seq<Byte>)
    requires Less(s, t)
    ensures !Less(t, s)
  {
    if s != [] && s[0] == t[0] {
      NotBoth(s[1..], t[1..]);
    }
  }

  lemma {:induction false} LessTransitive(s: seq<Byte>, t: seq<Byte>, u: seq<Byte>)
    requires Less(s, t) && Less(t, u)
    ensures Less(s, u)
  {
    if s != [] && s[0] == t[0] == u[0] {
      LessTransitive(s[1..], t[1..], u[1..]);
    }
  }

  // ----- The order of a cursor -----

  /** The key of a row in the bucket; `bytes` gives hashes as byte strings. */
  ghost function BucketKey(k: RowKey, bytes: Hash -> seq<Byte>): seq<Byte>
    requires k.height < 0x1_0000_0000
  {
    KeyBytes(k.height, bytes(k.hash))
  }

  /** A cursor goes through the rows by the next greater key each time.  Heights are
      32-bit. */
  ghost predicate ByCursor(keys: seq<RowKey>, rows: map<RowKey, Row>, bytes: Hash -> seq<Byte>) {
    && (forall k :: k in rows <==> k in keys)
    && (forall i :: 0 <= i < |keys| ==> keys[i].height < 0x1_0000_0000)
    && (forall i :: 0 < i < |keys| ==> Less(BucketKey(keys[i - 1], bytes), BucketKey(keys[i], bytes)))
  }

  lemma {:induction false} CursorAscends(keys: seq<RowKey>, rows: map<RowKey, Row>, bytes: Hash -> seq<Byte>, i: nat,
                                         j: nat)
    requires ByCursor(keys, rows, bytes) && i < j < |keys|
    ensures Less(BucketKey(keys[i], bytes), BucketKey(keys[j], bytes))
    decreases j
  {
    hide Less;
    assert Less(BucketKey(keys[j - 1], bytes), BucketKey(keys[j], bytes));
    if i < j - 1 {
      CursorAscends(keys, rows, bytes, i, j - 1);
      LessTransitive(BucketKey(keys[i], bytes), BucketKey(keys[j - 1], bytes), BucketKey(keys[j], bytes));
    }
  }

  /** The keys of the rows, each once, in an order that never goes down in height. */
  ghost predicate InOrder(keys: seq<RowKey>, rows: map<RowKey, Row>) {
    && (forall k :: k in rows <==> k in keys)
    && (forall i, j :: 0 <= i < j < |keys| ==> keys[i] != keys[j] && keys[i].height <= keys[j].height)
  }

  /** Because keys begin with the big-endian height, a cursor meets the rows in order of
      height. */
  lemma {:induction false} CursorInOrder(keys: seq<RowKey>, rows: map<RowKey, Row>, bytes: Hash -> seq<Byte>)
    requires ByCursor(keys, rows, bytes)
    ensures InOrder(keys, rows)
  {
    hide Less, KeyBytes;
    forall i, j | 0 <= i < j < |keys|
      ensures keys[i] != keys[j] && keys[i].height <= keys[j].height
    {
      CursorAscends(keys, rows, bytes, i, j);
      NotBoth(BucketKey(keys[i], bytes), BucketKey(keys[j], bytes));
      KeysByHeight(keys[i].height, bytes(keys[i].hash), keys[j].height, bytes(keys[j].hash));
    }
  }

  // ----- Loading -----

  /** The rows are those of some nodes of one tree: each row has its node, the parents of
      stored nodes are stored, and the genesis block is the only root. */
  ghost predicate Persisted(rows: map<RowKey, Row>, origin: map<Hash, BlockNode>, genesis: Hash) {
    && (forall k :: k in rows ==> HasNode(rows, origin, k))
    && (forall k :: k in rows ==> ParentHasRow(rows, origin, k, genesis))
  }

  ghost predicate HasNode(rows: map<RowKey, Row>, origin: map<Hash, BlockNode>, k: RowKey)
    requires k in rows
  {
    && k.hash in origin && KeyOf(origin[k.hash]) == k && Rooted(origin[k.hash])
    && var n := origin[k.hash];
    rows[k].prev == (if n.parent == null then ZERO_HASH else n.parent.hash) && rows[k].bits == n.bits &&
      rows[k].timestamp == n.timestamp
  }

  ghost predicate ParentHasRow(rows: map<RowKey, Row>, origin: map<Hash, BlockNode>, k: RowKey, genesis: Hash)
    requires k in rows
  {
    k.hash in origin &&
    var n := origin[k.hash];
    if n.parent == null then k.hash == genesis
    else KeyOf(n.parent) in rows && n.parent.hash in origin && origin[n.parent.hash] == n.parent
  }

  /** A loaded node stands for a node that was stored. */
  ghost predicate Twin(n: BlockNode, m: BlockNode) {
    && n.hash == m.hash && n.bits == m.bits && n.timestamp == m.timestamp && n.height == m.height &&
      n.workSum == m.workSum
    && (n.parent == null <==> m.parent == null) && (n.parent != null ==> n.parent.hash == m.parent.hash)
  }

  /** A loaded node is a twin, and hangs off a loaded node. */
  ghost predicate HangsOff(index: map<Hash, BlockNode>, origin: map<Hash, BlockNode>, h: Hash)
    requires h in index
  {
    && h in origin && Twin(index[h], origin[h])
    && (index[h].parent != null ==> index[h].parent.hash in index && index[index[h].parent.hash] == index[h].parent)
  }

  ghost function HashesOf(keys: seq<RowKey>, i: nat): set<Hash>
    requires i <= |keys|
  {
    set j | 0 <= j < i :: keys[j].hash
  }

  /** The index holds a twin for each of the first keys, linked among themselves. */
  ghost predicate Loaded(index: map<Hash, BlockNode>, keys: seq<RowKey>, i: nat, origin: map<Hash, BlockNode>)
    requires i <= |keys|
  {
    index.Keys == HashesOf(keys, i) && forall h :: h in index ==> HangsOff(index, origin, h)
  }

  ghost predicate FlagsLoaded(index: map<Hash, BlockNode>, keys: seq<RowKey>, i: nat, rows: map<RowKey, Row>)
    requires i <= |keys|
    reads index.Values
  {
    forall j :: 0 <= j < i ==>
      keys[j].hash in index && keys[j] in rows && index[keys[j].hash].status == rows[keys[j]].status
  }

  /** When a row's turn comes, it is new, and its parent has been loaded; only the genesis
      block, which comes first, has none. */
  ghost predicate Ready(index: map<Hash, BlockNode>, keys: seq<RowKey>, i: nat, rows: map<RowKey, Row>,
                        origin: map<Hash, BlockNode>, genesis: Hash)
    requires i < |keys|
  {
    var k := keys[i];
    && k.hash in origin && k.hash !in index && k in rows
    && var n := origin[k.hash];
    if i == 0 then k.hash == genesis && n.parent == null
    else n.parent != null && rows[k].prev == n.parent.hash && rows[k].prev in index
  }

  ghost predicate AllRooted(index: map<Hash, BlockNode>) {
    forall h :: h in index ==> Rooted(index[h]) && index[h].hash == h
  }

  /** The parent of the row at a position: none for the first, else by hash. */
  method FindParent(index: map<Hash, BlockNode>, lastNode: BlockNode?, key: RowKey, row: Row, genesis: Hash)
    returns (ok: bool, parent: BlockNode?)
    requires AllRooted(index) && (lastNode != null ==> lastNode.hash in index && index[lastNode.hash] == lastNode)
    ensures ok <==> if lastNode == null then key.hash == genesis else row.prev in index
    ensures ok ==> parent == if lastNode == null then null else index[row.prev]
  {
    if lastNode == null {
      return key.hash == genesis, null;
    }
    if row.prev == lastNode.hash {
      return true, lastNode;
    }
    if row.prev !in index {
      return false, null;
    }
    return true, index[row.prev];
  }

  /** Makes the node of a row, if its parent is found. */
  method LoadRow(index: map<Hash, BlockNode>, lastNode: BlockNode?, keys: seq<RowKey>, i: nat, rows: map<RowKey, Row>,
                 genesis: Hash,
                 ghost origin: map<Hash, BlockNode>, ghost good: bool)
    returns (node: BlockNode?)
    requires i < |keys| && keys[i] in rows && AllRooted(index) && (lastNode == null <==> i == 0)
    requires lastNode != null ==> lastNode.hash in index && index[lastNode.hash] == lastNode
    requires good ==> InOrder(keys, rows) && Persisted(rows, origin, genesis) && Loaded(index, keys, i, origin)
    ensures good ==> node != null && keys[i].hash !in index && Loaded(index[node.hash := node], keys, i + 1, origin)
    ensures node != null <==> if i == 0 then keys[i].hash == genesis else rows[keys[i]].prev in index
    ensures node != null ==>
      fresh(node) && Rooted(node) && node.hash == keys[i].hash && node.status == rows[keys[i]].status
    ensures node != null && node.parent != null ==> node.parent.hash in index && index[node.parent.hash] == node.parent
  {
    hide InOrder, Persisted, Loaded;
    var key, row := keys[i], rows[keys[i]];
    if good {
      ParentLoaded(index, keys, i, rows, origin, genesis);
    }
    var ok, parent := FindParent(index, lastNode, key, row, genesis);
    if !ok {
      return null;
    }
    node := new BlockNode(key.hash, row.bits, row.timestamp, parent);
    node.status := row.status;
    if good {
      LoadedStep(index, keys, i, rows, origin, genesis, node);
    }
  }

  /** The first row is that of the genesis block, and every other row's parent has an earlier
      row. */
  ghost predicate ParentsEarlier(keys: seq<RowKey>, n: nat, rows: map<RowKey, Row>, genesis: Hash)
    requires n <= |keys|
  {
    forall i :: 0 <= i < n ==>
      keys[i] in rows && if i == 0 then keys[i].hash == genesis else rows[keys[i]].prev in HashesOf(keys, i)
  }

  lemma ParentsNext(keys: seq<RowKey>, i: nat, rows: map<RowKey, Row>, genesis: Hash)
    requires i < |keys| && keys[i] in rows
    ensures HashesOf(keys, i + 1) == HashesOf(keys, i) + {keys[i].hash}
    ensures
      var found := if i == 0 then keys[i].hash == genesis else rows[keys[i]].prev in HashesOf(keys, i);
      && (ParentsEarlier(keys, i, rows, genesis) && found ==> ParentsEarlier(keys, i + 1, rows, genesis))
      && (!found ==> !ParentsEarlier(keys, |keys|, rows, genesis))
  {
  }

  /** The parents of the nodes are among them. */
  ghost predicate ClosedUp(nodes: set<BlockNode>) {
    forall n {:trigger n.parent} :: n in nodes && n.parent != null ==> n.parent in nodes
  }

  /** Builds the block index from its rows, in the order a cursor meets them.  It fails only
      for a row whose parent has no earlier row.  For rows that were stored it never fails,
      and every stored block comes back with its parent, height, work and flags. */
  method LoadIndex(rows: map<RowKey, Row>, keys: seq<RowKey>, genesis: Hash, ghost origin: map<Hash, BlockNode>,
                   ghost bytes: Hash -> seq<Byte>)
    returns (r: Option<map<Hash, BlockNode>>, ghost made: set<BlockNode>)
    requires ByCursor(keys, rows, bytes)
    ensures fresh(made) && ClosedUp(made)
    ensures r.Some? <==> ParentsEarlier(keys, |keys|, rows, genesis)
    ensures r.Some? ==>
      && r.value.Keys == HashesOf(keys, |keys|) && AllRooted(r.value)
      && forall h :: h in r.value ==> r.value[h] in made
    ensures Persisted(rows, origin, genesis) ==>
      r.Some? && Loaded(r.value, keys, |keys|, origin) && FlagsLoaded(r.value, keys, |keys|, rows)
  {
    hide InOrder, Persisted, Loaded, Rooted, Less, BucketKey, HashesOf, ParentsEarlier;
    NoParentsYet(keys, rows, genesis);
    CursorInOrder(keys, rows, bytes);
    ghost var good := Persisted(rows, origin, genesis);
    var index: map<Hash, BlockNode> := map[];
    var lastNode: BlockNode? := null;
    NothingLoaded(keys, origin);
    made := {};
    for i := 0 to |keys|
      invariant AllRooted(index) && fresh(made) && ClosedUp(made) && (forall h :: h in index ==> index[h] in made)
      invariant lastNode != null ==> lastNode.hash in index && index[lastNode.hash] == lastNode
      invariant lastNode == null <==> i == 0
      invariant index.Keys == HashesOf(keys, i) && ParentsEarlier(keys, i, rows, genesis)
      invariant good ==> Loaded(index, keys, i, origin)
      invariant good ==> FlagsLoaded(index, keys, i, rows)
    {
      ParentsNext(keys, i, rows, genesis);
      var node := LoadRow(index, lastNode, keys, i, rows, genesis, origin, good);
      if node == null {
        return None, made;
      }
      made := made + {node};
      index := index[node.hash := node];
      lastNode := node;
    }
    r := Some(index);
  }

  lemma NoParentsYet(keys: seq<RowKey>, rows: map<RowKey, Row>, genesis: Hash)
    ensures HashesOf(keys, 0) == {} && ParentsEarlier(keys, 0, rows, genesis)
  {
  }

  lemma NothingLoaded(keys: seq<RowKey>, origin: map<Hash, BlockNode>)
    ensures Loaded(map[], keys, 0, origin)
  {
  }

  /** The row of a lower block comes earlier. */
  lemma {:induction false} LowerIsEarlier(keys: seq<RowKey>, i: nat, rows: map<RowKey, Row>, p: RowKey)
    requires InOrder(keys, rows) && i < |keys| && p in rows && p.height < keys[i].height
    ensures p.hash in HashesOf(keys, i)
  {
    var j :| 0 <= j < |keys| && keys[j] == p;
    assert j < i;
  }

  /** What the row of a block says of its parent. */
  lemma {:induction false} ParentOf(rows: map<RowKey, Row>, origin: map<Hash, BlockNode>, k: RowKey, genesis: Hash)
    requires Persisted(rows, origin, genesis) && k in rows
    ensures
      && k.hash in origin && origin[k.hash].height == k.height
      && var n := origin[k.hash];
      if n.parent == null then k.hash == genesis
      else KeyOf(n.parent) in rows && rows[k].prev == n.parent.hash && n.parent.height < k.height
  {
    assert HasNode(rows, origin, k) && ParentHasRow(rows, origin, k, genesis);
    assert Derived(origin[k.hash]);
  }

  lemma {:induction false} ParentLoaded(index: map<Hash, BlockNode>, keys: seq<RowKey>, i: nat, rows: map<RowKey, Row>,
                                        origin: map<Hash, BlockNode>, genesis: Hash)
    requires InOrder(keys, rows) && Persisted(rows, origin, genesis) && i < |keys| && Loaded(index, keys, i, origin)
    ensures Ready(index, keys, i, rows, origin, genesis)
  {
    hide HangsOff, Persisted;
    var k := keys[i];
    ParentOf(rows, origin, k, genesis);
    NewKey(keys, i, rows, origin, genesis);
    if origin[k.hash].parent != null {
      LowerIsEarlier(keys, i, rows, KeyOf(origin[k.hash].parent));
    } else if i > 0 {
      RootFirst(keys, i, rows, origin, genesis);
    }
  }

  /** No two keys have the same hash. */
  lemma {:induction false} NewKey(keys: seq<RowKey>, i: nat, rows: map<RowKey, Row>, origin: map<Hash, BlockNode>,
                                  genesis: Hash)
    requires InOrder(keys, rows) && Persisted(rows, origin, genesis) && i < |keys|
    ensures keys[i].hash !in HashesOf(keys, i)
  {
    assert HasNode(rows, origin, keys[i]);
    forall j | 0 <= j < i
      ensures keys[j].hash != keys[i].hash
    {
      assert HasNode(rows, origin, keys[j]);
    }
  }

  /** There is one root, and it comes first. */
  lemma {:induction false} RootFirst(keys: seq<RowKey>, i: nat, rows: map<RowKey, Row>, origin: map<Hash, BlockNode>,
                                     genesis: Hash)
    requires InOrder(keys, rows) && Persisted(rows, origin, genesis) && 0 < i < |keys|
    ensures keys[i].hash in origin && origin[keys[i].hash].parent != null
  {
    hide Persisted;
    OnlyRoot(rows, origin, keys[0], genesis);
    OnlyRoot(rows, origin, keys[i], genesis);
    assert keys[0] != keys[i];
  }

  /** A block without a parent is at height zero, and one at height zero has none. */
  lemma OnlyRoot(rows: map<RowKey, Row>, origin: map<Hash, BlockNode>, k: RowKey, genesis: Hash)
    requires Persisted(rows, origin, genesis) && k in rows
    ensures k.hash in origin && (origin[k.hash].parent == null <==> k.height == 0)
    ensures k.height == 0 ==> k == RowKey(0, genesis)
  {
    assert HasNode(rows, origin, k) && ParentHasRow(rows, origin, k, genesis);
    assert Derived(origin[k.hash]);
  }

  lemma {:induction false} TwinOf(index: map<Hash, BlockNode>, keys: seq<RowKey>, i: nat, rows: map<RowKey, Row>,
                                  origin: map<Hash, BlockNode>, genesis: Hash, node: BlockNode)
    requires Persisted(rows, origin, genesis) && i < |keys| && Loaded(index, keys, i, origin)
    requires Ready(index, keys, i, rows, origin, genesis) && Derived(node)
    requires node.hash == keys[i].hash && node.bits == rows[keys[i]].bits && node.timestamp == rows[keys[i]].timestamp
    requires node.parent == if i == 0 then null else index[rows[keys[i]].prev]
    ensures Twin(node, origin[keys[i].hash])
    ensures i > 0 ==> HangsOff(index, origin, rows[keys[i]].prev)
  {
    var k := keys[i];
    assert HasNode(rows, origin, k);
    assert Derived(origin[k.hash]);
    if i > 0 {
      assert HangsOff(index, origin, rows[k].prev);
      ParentTwin(rows, origin, k, genesis);
    }
  }

  lemma {:induction false} LoadedStep(index: map<Hash, BlockNode>, keys: seq<RowKey>, i: nat, rows: map<RowKey, Row>,
                                      origin: map<Hash, BlockNode>, genesis: Hash, node: BlockNode)
    requires Persisted(rows, origin, genesis) && i < |keys| && Loaded(index, keys, i, origin)
    requires Ready(index, keys, i, rows, origin, genesis) && Derived(node)
    requires node.hash == keys[i].hash && node.bits == rows[keys[i]].bits && node.timestamp == rows[keys[i]].timestamp
    requires node.parent == if i == 0 then null else index[rows[keys[i]].prev]
    requires AllRooted(index)
    ensures Loaded(index[node.hash := node], keys, i + 1, origin)
  {
    hide Persisted, Twin, Derived, Rooted;
    TwinOf(index, keys, i, rows, origin, genesis, node);
    var more := index[node.hash := node];
    forall h | h in more
      ensures HangsOff(more, origin, h)
    {
      assert h != node.hash ==> HangsOff(index, origin, h);
    }
    assert HashesOf(keys, i + 1) == HashesOf(keys, i) + {keys[i].hash};
  }

  lemma ParentTwin(rows: map<RowKey, Row>, origin: map<Hash, BlockNode>, k: RowKey, genesis: Hash)
    requires Persisted(rows, origin, genesis) && k in rows && origin[k.hash].parent != null
    ensures k.hash in origin && origin[k.hash].parent.hash in origin &&
      origin[origin[k.hash].parent.hash] == origin[k.hash].parent
  {
    assert ParentHasRow(rows, origin, k, genesis);
  }

  /** What a chain keeps in its block index bucket can always be loaded again. */
  lemma {:induction false} ChainReloads(chain: Chain.BlockChain)
    requires chain.Consistent()
    ensures Persisted(chain.index.rows, chain.index.index, chain.genesis.hash)
  {
    var rows, index := chain.index.rows, chain.index.index;
    forall k | k in rows
      ensures HasNode(rows, index, k) && ParentHasRow(rows, index, k, chain.genesis.hash)
    {
      var n := index[k.hash];
      chain.index.LineageIndexed(n);
      assert chain.index.HeaderStored(n) && chain.index.ParentStored(n);
    }
  }

  // ----- The best chain -----

  /** What a start comes to: the block index, the view of the best chain and the snapshot, or
      what was not found. */
  datatype Start =
    | Started(index: map<Hash, BlockNode>, bestChain: View, snapshot: T.BestState)
    | BadIndex
    | NoTip
    | NoBody
    | NoRecord

  ghost predicate CanStart(db: T.Database, rows: map<RowKey, Row>, keys: seq<RowKey>, genesis: Hash) {
    && ParentsEarlier(keys, |keys|, rows, genesis) && db.best.hash in HashesOf(keys, |keys|)
    && db.best.hash in db.blocks && db.best.hash in db.elections
  }

  /** The flags are the stored ones, and those of the line are valid besides. */
  ghost predicate FlagsRaised(index: map<Hash, BlockNode>, keys: seq<RowKey>, rows: map<RowKey, Row>,
                              line: seq<BlockNode>)
    reads index.Values
  {
    forall j :: 0 <= j < |keys| ==>
      && keys[j].hash in index && keys[j] in rows
      && var n := index[keys[j].hash];
      n.status == rows[keys[j]].status + if n in line then {Validated} else {}
  }

  /** Marks every node of a lineage as valid that is not. */
  method MarkValid(tip: BlockNode, ghost line: seq<BlockNode>)
    requires Linked(line) && line != [] && line[|line| - 1] == tip
    modifies (set n | n in line)`status
    ensures forall n :: n in line ==> n.status == old(n.status) + {Validated}
  {
    var n: BlockNode? := tip;
    ghost var i := |line|;
    while n != null
      invariant 0 <= i <= |line| && n == if i == 0 then null else line[i - 1]
      invariant forall j :: i <= j < |line| ==> line[j].status == old(line[j].status) + {Validated}
      invariant forall j :: 0 <= j < i ==> line[j].status == old(line[j].status)
      decreases i
    {
      assert n in line;
      if !KnownValid(n.status) {
        n.status := n.status + {Validated};
      }
      i := i - 1;
      assert line[i].parent == if i == 0 then null else line[i - 1];
      n := n.parent;
    }
  }

  lemma {:induction false} LineageMade(nodes: set<BlockNode>, n: BlockNode)
    requires ClosedUp(nodes) && n in nodes && Rooted(n)
    ensures forall m :: m in Lineage(n) ==> m in nodes
    decreases n.height
  {
    if n.parent != null {
      LineageMade(nodes, n.parent);
    }
  }

  /** Restores the chain from the database: the index from its rows, the best chain from the
      best-state row, every block of it marked valid, and the snapshot. */
  method InitChainState(db: T.Database, rows: map<RowKey, Row>, keys: seq<RowKey>, genesis: Hash,
                        ghost origin: map<Hash, BlockNode>, ghost bytes: Hash -> seq<Byte>)
    returns (r: Start)
    requires ByCursor(keys, rows, bytes)
    ensures r.Started? <==> CanStart(db, rows, keys, genesis)
    ensures Persisted(rows, origin, genesis) ==> ParentsEarlier(keys, |keys|, rows, genesis)
    ensures r.Started? ==>
      && db.best.hash in r.index && AllRooted(r.index) && fresh(r.bestChain) && r.bestChain.Valid()
      && r.bestChain.Branch() == Lineage(r.index[db.best.hash])
      && r.snapshot == SnapshotOf(r.index[db.best.hash], db)
    ensures r.Started? && Persisted(rows, origin, genesis) ==>
      Loaded(r.index, keys, |keys|, origin) && FlagsRaised(r.index, keys, rows, r.bestChain.Branch())
  {
    hide InOrder, Persisted, Loaded, Rooted, Lineage, Less, BucketKey, HashesOf, ParentsEarlier, Linked, ByCursor;
    var loaded;
    ghost var made;
    loaded, made := LoadIndex(rows, keys, genesis, origin, bytes);
    if loaded.None? {
      return BadIndex;
    }
    var index := loaded.value;
    if db.best.hash !in index {
      return NoTip;
    }
    var tip := index[db.best.hash];
    var bestChain := new View(tip);
    if tip.hash !in db.blocks {
      return NoBody;
    }
    LineageMade(made, tip);
    LineageEnds(tip);
    MarkValid(tip, Lineage(tip));
    if tip.hash !in db.elections {
      return NoRecord;
    }
    return Started(index, bestChain, SnapshotOf(tip, db));
  }

  function SnapshotOf(tip: BlockNode, db: T.Database): T.BestState
    requires tip.hash in db.blocks && tip.hash in db.elections
  {
    T.BestState(tip.hash, tip.height, tip.bits, db.blocks[tip.hash].TxCount(), db.best.totalTxns,
                db.elections[tip.hash])
  }

  lemma LineageEnds(tip: BlockNode)
    requires Rooted(tip)
    ensures Lineage(tip) != [] && Lineage(tip)[|Lineage(tip)| - 1] == tip && Linked(Lineage(tip))
  {
    hide Linked;
    LineageIsLinked(tip);
  }

  /** Node for node, the one line stands for the other. */
  ghost predicate TwinLines(line: seq<BlockNode>, was: seq<BlockNode>) {
    |line| == |was| && forall i :: 0 <= i < |line| ==> Twin(line[i], was[i])
  }

  lemma {:induction false} LineageTwins(index: map<Hash, BlockNode>, keys: seq<RowKey>, rows: map<RowKey, Row>,
                                        origin: map<Hash, BlockNode>, genesis: Hash, h: Hash)
    requires InOrder(keys, rows) && Persisted(rows, origin, genesis) && Loaded(index, keys, |keys|, origin)
    requires AllRooted(index) && h in index
    ensures h in origin && Rooted(origin[h]) && TwinLines(Lineage(index[h]), Lineage(origin[h]))
    decreases index[h].height
  {
    hide InOrder, Persisted, Loaded, TwinLines;
    OfLoaded(index, keys, rows, origin, genesis, h);
    var n := index[h];
    if n.parent == null {
      OneTwin(n, origin[h]);
    } else {
      LineageTwins(index, keys, rows, origin, genesis, n.parent.hash);
      OneMoreTwin(n, origin[h]);
    }
  }

  /** A loaded node, its original, and the parents of both. */
  lemma OfLoaded(index: map<Hash, BlockNode>, keys: seq<RowKey>, rows: map<RowKey, Row>, origin: map<Hash, BlockNode>,
                 genesis: Hash, h: Hash)
    requires InOrder(keys, rows) && Persisted(rows, origin, genesis) && Loaded(index, keys, |keys|, origin) &&
      h in index
    ensures h in origin && Twin(index[h], origin[h]) && Rooted(origin[h])
    ensures
      var p := index[h].parent;
      p != null ==> p.hash in index && index[p.hash] == p && p.hash in origin && origin[p.hash] == origin[h].parent
  {
    hide Rooted;
    assert HangsOff(index, origin, h);
    var j :| 0 <= j < |keys| && keys[j].hash == h;
    assert HasNode(rows, origin, keys[j]) && ParentHasRow(rows, origin, keys[j], genesis);
  }

  lemma OneTwin(n: BlockNode, m: BlockNode)
    requires Twin(n, m) && n.parent == null && Rooted(n) && Rooted(m)
    ensures TwinLines(Lineage(n), Lineage(m))
  {
  }

  lemma OneMoreTwin(n: BlockNode, m: BlockNode)
    requires Twin(n, m) && n.parent != null && Rooted(n) && Rooted(m)
    requires m.parent != null && TwinLines(Lineage(n.parent), Lineage(m.parent))
    ensures TwinLines(Lineage(n), Lineage(m))
  {
  }

  /** A chain can always be started again from what it has stored: the same best chain, block for
      block, and the same snapshot.  Every block with a row comes back with its parent, height
      and work, and with its stored flags; those of the best chain are valid. */
  method Restart(chain: Chain.BlockChain, keys: seq<RowKey>, ghost bytes: Hash -> seq<Byte>) returns (r: Start)
    requires chain.Consistent() && ByCursor(keys, chain.index.rows, bytes)
    ensures r.Started? && fresh(r.bestChain) && r.bestChain.Valid()
    ensures TwinLines(r.bestChain.Branch(), chain.bestChain.Branch()) && r.snapshot == chain.stateSnapshot
    ensures Loaded(r.index, keys, |keys|, chain.index.index)
    ensures FlagsRaised(r.index, keys, chain.index.rows, r.bestChain.Branch())
  {
    hide Persisted, Loaded, Rooted, Lineage, Less, BucketKey, Linked, ByCursor, T.Mirrors, Chain.OneTree,
      Index.Valid, FlagsRaised, TwinLines, ParentsEarlier;
    ghost var tip := chain.bestChain.Tip();
    ChainReloads(chain);
    TipThere(chain, keys, bytes);
    r := InitChainState(chain.db, chain.index.rows, keys, chain.genesis.hash, chain.index.index, bytes);
    CursorInOrder(keys, chain.index.rows, bytes);
    LineageTwins(r.index, keys, chain.index.rows, chain.index.index, chain.genesis.hash, tip.hash);
    OfLoaded(r.index, keys, chain.index.rows, chain.index.index, chain.genesis.hash, tip.hash);
  }

  lemma TipThere(chain: Chain.BlockChain, keys: seq<RowKey>, bytes: Hash -> seq<Byte>)
    requires chain.Consistent() && ByCursor(keys, chain.index.rows, bytes)
    ensures
      var tip, db := chain.bestChain.Tip(), chain.db;
      && tip != null && tip.hash == db.best.hash && tip.hash in HashesOf(keys, |keys|)
      && tip.hash in db.blocks && tip.hash in db.elections && chain.stateSnapshot == SnapshotOf(tip, db)
      && tip.hash in chain.index.index && chain.index.index[tip.hash] == tip && Rooted(tip) &&
      Lineage(tip) == chain.bestChain.Branch()
  {
    hide Less, BucketKey;
    var branch := chain.bestChain.Branch();
    LinkedIsLineage(branch);
    assert KeyOf(branch[|branch| - 1]) in chain.index.rows;
  }
}
