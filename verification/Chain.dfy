/** The chain state machine: how blocks extend and reorganize the best chain, in memory and
    in the database. */
module Chain {
  import opened BlockTree
  import opened BlockIndex
  import opened ChainView
  import Election
  import J = Journal
  import opened Options
  import Scripts
  import opened Tables
  import opened ForkChoice

  datatype Error =
    | DuplicateBlock
    | SanityRejected
    | ProofRejected
    | CheckpointRejected
    | PreviousBlockUnknown
    | InvalidAncestorBlock
    | BadCoinbaseHeight
    | ContextRejected
    | ConnectRejected
    | StoreError
    | AssertionFailure

  predicate IsRuleError(e: Error) {
    e != StoreError && e != AssertionFailure
  }

  datatype Outcome = Done | Failed(error: Error)

  /** Validation, vote counting and spent outputs come from outside this model: for each
      block they may answer anything. */
  datatype Oracle = Oracle(context: Hash -> Verdict, connect: Hash -> Verdict, effects: Effects)

  ghost predicate BodyMatches(n: BlockNode, blocks: map<Hash, Block>) {
    && n.hash in blocks && blocks[n.hash].hash == n.hash
    && (n.parent != null ==> blocks[n.hash].prev == n.parent.hash)
  }

  /** One tree under one genesis block, with the body of every node stored. */
  ghost predicate OneTree(nodes: set<BlockNode>, genesis: BlockNode, blocks: map<Hash, Block>) {
    && genesis in nodes && genesis.parent == null
    && (forall n {:trigger n.parent} :: n in nodes && n.parent == null ==> n == genesis)
    && (forall n {:trigger BodyMatches(n, blocks)} :: n in nodes ==> BodyMatches(n, blocks))
  }

  lemma OneTreeGrows(nodes: set<BlockNode>, genesis: BlockNode, blocks: map<Hash, Block>, node: BlockNode, block: Block)
    requires OneTree(nodes, genesis, blocks) && block.hash == node.hash && block.hash !in blocks
    requires node.parent != null && block.prev == node.parent.hash
    ensures OneTree(nodes + {node}, genesis, blocks[block.hash := block])
  {
    forall n | n in nodes + {node}
      ensures BodyMatches(n, blocks[block.hash := block])
    {
      assert n != node ==> BodyMatches(n, blocks);
    }
  }

  lemma GenesisTree(node: BlockNode, block: Block, elect: ElectionState, curve: Scripts.KeyCurve)
    requires node.hash == block.hash && node.parent == null
    ensures
      var db := GenesisDatabase(node, block, elect, curve);
      && OneTree({node}, node, db.blocks) && db.blocks == map[block.hash := block] && db.best.workSum == node.workSum
      && GenesisSnapshot(node, block, elect).elect == elect && db.elections == map[node.hash := elect]
  {
    assert BodyMatches(node, GenesisDatabase(node, block, elect, curve).blocks);
  }

  ghost predicate InTree(branch: seq<BlockNode>, nodes: set<BlockNode>, genesis: BlockNode) {
    branch != [] && branch[0] == genesis && forall i :: 0 <= i < |branch| ==> branch[i] in nodes
  }

  /** Every node of the branch has its row in the block index bucket. */
  ghost predicate Stored(branch: seq<BlockNode>, rows: map<RowKey, BlockIndex.Row>) {
    forall i :: 0 <= i < |branch| ==> KeyOf(branch[i]) in rows
  }

  lemma GenesisBranch(node: BlockNode, rows: map<RowKey, BlockIndex.Row>)
    requires KeyOf(node) in rows
    ensures InTree([node], {node}, node) && Stored([node], rows)
  {
  }

  /** The list holds the branch from its end down to height `k`. */
  ghost predicate EndDownTo(detach: seq<BlockNode>, branch: seq<BlockNode>, k: nat) {
    && k <= |branch| && |detach| == |branch| - k
    && forall i :: 0 <= i < |detach| ==> detach[i] == branch[|branch| - 1 - i]
  }

  /** What the search for reorganization nodes comes back with: nothing, with flags set,
      when the line is known invalid; else the branch from its tip down to the fork and
      the line from the fork up. */
  ghost predicate ReorgNodes(st: Statuses, st': Statuses, branch: seq<BlockNode>, line: seq<BlockNode>, k: nat,
                             detach: seq<BlockNode>, attach: seq<BlockNode>)
    requires Known(st, line) && |line| >= 2 && k <= |line|
  {
    var j := CleanFrom(st, line, k, |line|);
    if KnownInvalid(st[line[|line| - 2]]) then
      detach == [] && attach == [] && st' == Mark(st, line, |line| - 1, |line|, {InvalidAncestor})
    else if j > k then
      detach == [] && attach == [] && st' == Mark(st, line, j, |line|, {InvalidAncestor})
    else
      EndDownTo(detach, branch, k) && attach == line[k..] && st' == st
  }

  /** The error a verdict other than acceptance is reported as. */
  function ErrorOf(v: Verdict): Error {
    if v == RuleViolation then ConnectRejected else StoreError
  }

  function OutcomeOf(result: Result): Outcome {
    match result
    case Rejected(v) => Failed(ErrorOf(v))
    case _ => Done
  }

  /** The line leaves the branch at height `k`. */
  ghost predicate ForksAt(line: seq<BlockNode>, branch: seq<BlockNode>, k: nat) {
    1 <= k < |line| && k <= |branch| && line[..k] == branch[..k]
  }

  /** Why a block is turned away before it is filed, if it is. */
  ghost function Refusal(index: map<Hash, BlockNode>, st: Statuses, block: Block, oracle: Oracle): Option<Error> {
    if block.prev !in index then Some(PreviousBlockUnknown)
    else
      var prev := index[block.prev];
      if prev in st && KnownInvalid(st[prev]) then Some(InvalidAncestorBlock)
      else if block.height.Some? && block.height.value != prev.height + 1 then Some(BadCoinbaseHeight)
      else if oracle.context(block.hash) == RuleViolation then Some(ContextRejected)
      else if oracle.context(block.hash) == StoreFailure then Some(StoreError)
      else None
  }

  /** A block is filed exactly when its parent is known and not known invalid, the height it
      claims is one above its parent's, and its context accepts it.  An error names the first of
      these that fails. */
  lemma RefusalMeans(index: map<Hash, BlockNode>, st: Statuses, block: Block, oracle: Oracle)
    ensures
      var known := block.prev in index;
      var flags := if known && index[block.prev] in st then st[index[block.prev]] else {};
      var valid := known && ValidateFailed !in flags && InvalidAncestor !in flags;
      var level := known && (block.height == None || block.height == Some(index[block.prev].height + 1));
      var r, context := Refusal(index, st, block, oracle), oracle.context(block.hash);
      && (r == None <==> known && valid && level && context == Accept)
      && (r == Some(PreviousBlockUnknown) <==> !known)
      && (r == Some(InvalidAncestorBlock) <==> known && !valid)
      && (r == Some(BadCoinbaseHeight) <==> known && valid && !level)
      && (r == Some(ContextRejected) <==> known && valid && level && context == RuleViolation)
      && (r == Some(StoreError) <==> known && valid && level && context == StoreFailure)
  {
  }

  /** What there is to know of the chain: which node is filed under which hash, the flags,
      and the best branch. */
  datatype Books = Books(index: map<Hash, BlockNode>, state: State)

  /** How the books change when a block is offered: not at all when it is refused, else by
      filing a node for it on its parent and one step of chain selection. */
  ghost predicate Offered(b: Books, block: Block, oracle: Oracle, fastAdd: bool, b': Books) {
    if Refusal(b.index, b.state.st, block, oracle).Some? then b' == b
    else
      && Safe(b.state) && block.prev in b.index && block.hash in b'.index
      && var a := ArrivalOf(block, oracle, fastAdd, b');
      && a.node.hash == block.hash && a.node.parent == b.index[block.prev] && Admissible(b.state, a)
      && a.node.bits == block.bits && a.node.timestamp == block.timestamp
      && b' == Books(b.index[block.hash := a.node], Next(b.state, a))
  }

  ghost function ArrivalOf(block: Block, oracle: Oracle, fastAdd: bool, b': Books): Arrival
    requires block.hash in b'.index
  {
    Arrival(b'.index[block.hash], oracle.connect, fastAdd)
  }

  /** What the caller is told about an offered block. */
  ghost predicate Answered(b: Books, block: Block, oracle: Oracle, fastAdd: bool, b': Books, isMain: bool, r: Outcome)
    requires Offered(b, block, oracle, fastAdd, b')
  {
    var refusal := Refusal(b.index, b.state.st, block, oracle);
    if refusal.Some? then !isMain && r == Failed(refusal.value)
    else
      var result := Step(b.state, ArrivalOf(block, oracle, fastAdd, b')).result;
      r == OutcomeOf(result) && (isMain <==> result == MainChain)
  }

  /** Nothing but block bodies may differ. */
  ghost predicate SameTables(db: Database, db': Database) {
    db' == db.(blocks := db'.blocks)
  }

  class BlockChain {
    const index: Index
    const bestChain: View
    const genesis: BlockNode
    var stateSnapshot: BestState
    var db: Database

    /** Everything indexed is one tree, with its bodies in the database. */
    ghost predicate TreeValid()
      reads `db, index, index.nodes
    {
      && index.Valid()
      && OneTree(index.nodes, genesis, db.blocks)
      && db.blocks.Keys == index.index.Keys
    }

    /** The tables and the snapshot mirror the view. */
    ghost predicate BranchValid()
      reads this, bestChain
    {
      bestChain.Valid() && Mirrors(bestChain.Branch(), db, stateSnapshot)
    }

    ghost predicate Consistent()
      reads this, index, index.nodes, bestChain
    {
      && TreeValid() && BranchValid() && InTree(bestChain.Branch(), index.nodes, genesis)
      && Stored(bestChain.Branch(), index.rows)
    }

    /** A fresh chain holds the genesis block and nothing else. */
    constructor (block: Block, steward: Election.Script, curve: Scripts.KeyCurve)
      ensures Valid() && Heaviest(index.statuses, bestChain.Branch())
      ensures fresh(index) && fresh(index.nodes) && fresh(bestChain)
      ensures index.nodes == {genesis} && genesis.hash == block.hash && genesis.bits == block.bits
      ensures bestChain.Branch() == [genesis] && index.statuses == map[genesis := {DataStored, Validated}]
      ensures stateSnapshot.elect == Election.ElectionState(steward, 0) && db.best.workSum == genesis.workSum
      ensures db.elections == map[genesis.hash := stateSnapshot.elect] && db.blocks == map[block.hash := block]
    {
      hide Mirrors, Safe, Heaviest, OneTree, Index.ValidTree, Index.ValidRows, GenesisSnapshot, GenesisDatabase, Linked,
        InTree, Stored;
      var node := new BlockNode(block.hash, block.bits, block.timestamp, null);
      index := new Index.WithRoot(node);
      bestChain := new View(node);
      genesis := node;
      stateSnapshot := GenesisSnapshot(node, block, Election.ElectionState(steward, 0));
      db := GenesisDatabase(node, block, Election.ElectionState(steward, 0), curve);
      GenesisMirrors(node, block, Election.ElectionState(steward, 0), curve);
      GenesisTree(node, block, Election.ElectionState(steward, 0), curve);
      assert Lineage(node) == [node];
      new;
      GenesisBranch(genesis, index.rows);
      assert TreeValid();
      assert BranchValid();
      GenesisSafe(genesis);
    }

    lemma OnTop(branch: seq<BlockNode>, node: BlockNode)
      requires index.ValidTree() && node in index.nodes && Linked(branch) && branch != []
      requires forall i :: 0 <= i < |branch| ==> branch[i] in index.nodes
      requires node.parent != null && node.parent.hash == branch[|branch| - 1].hash
      ensures node.parent == branch[|branch| - 1] && NewOn(branch, node) && Linked(branch + [node])
    {
      assert Derived(node);
    }

    /** Puts a node on the branch, in the database and in memory. */
    method Attach(node: BlockNode, block: Block, elect: ElectionState, stxos: seq<J.Spent>)
      requires BranchValid() && NewOn(bestChain.Branch(), node) && Linked(bestChain.Branch() + [node])
      requires node.hash in db.blocks && block == db.blocks[node.hash] && |stxos| == block.SpendCount()
      modifies this, bestChain
      ensures BranchValid()
      ensures bestChain.Branch() == old(bestChain.Branch()) + [node]
      ensures stateSnapshot == SnapshotAfter(old(stateSnapshot), node, block, elect)
      ensures db == PutBlock(old(db), stateSnapshot, node, stxos)
    {
      ghost var branch := bestChain.Branch() + [node];
      PutMirrors(bestChain.Branch(), db, stateSnapshot, node, elect, stxos);
      LinkedIsLineage(branch);
      stateSnapshot := SnapshotAfter(stateSnapshot, node, block, elect);
      db := PutBlock(db, stateSnapshot, node, stxos);
      bestChain.SetTip(node);
    }

    /** Attaching an indexed node keeps the tree. */
    method AttachIndexed(node: BlockNode, block: Block, elect: ElectionState, stxos: seq<J.Spent>)
      requires Consistent() && node in index.nodes && node.parent == bestChain.Tip() && KeyOf(node) in index.rows
      requires node.hash in db.blocks && block == db.blocks[node.hash] && |stxos| == block.SpendCount()
      modifies this, bestChain
      ensures Consistent()
      ensures bestChain.Branch() == old(bestChain.Branch()) + [node]
      ensures stateSnapshot == SnapshotAfter(old(stateSnapshot), node, block, elect)
      ensures db == PutBlock(old(db), stateSnapshot, node, stxos)
    {
      hide Mirrors, OneTree, Index.ValidRows, Index.ValidStatuses;
      OnTop(bestChain.Branch(), node);
      Attach(node, block, elect, stxos);
    }

    /** Writes out changed flags; nothing else changes, and every node has its row. */
    method Flush()
      requires Consistent()
      modifies index`dirty, index`rows
      ensures Consistent() && forall n :: n in index.nodes ==> KeyOf(n) in index.rows
    {
      hide Mirrors, OneTree, Linked, Index.ValidTree, Index.ValidStatuses;
      index.FlushToDB(true);
      assert forall n :: n in index.nodes ==> index.RowCurrent(n);
    }

    /** Puts a block on top of the best chain, given one spent output for each of its inputs. */
    method ConnectBlock(node: BlockNode, block: Block, elect: ElectionState, stxos: seq<J.Spent>) returns (r: Outcome)
      requires Consistent() && node in index.nodes && node != genesis && block == db.blocks[node.hash]
      modifies this, index`dirty, index`rows, bestChain
      ensures Consistent()
      ensures r == if node.parent == old(bestChain.Tip()) && |stxos| == block.SpendCount() then Done
                   else Failed(AssertionFailure)
      ensures r.Failed? ==>
        bestChain.Branch() == old(bestChain.Branch()) && db == old(db) && stateSnapshot == old(stateSnapshot)
      ensures r.Done? ==>
        && bestChain.Branch() == old(bestChain.Branch()) + [node]
        && stateSnapshot == SnapshotAfter(old(stateSnapshot), node, block, elect)
        && db == PutBlock(old(db), stateSnapshot, node, stxos)
    {
      hide Mirrors, Stored, Index.ValidRows, Index.ValidStatuses, PutBlock;
      assert BodyMatches(node, db.blocks);
      if block.prev != bestChain.Tip().hash {
        return Failed(AssertionFailure);
      }
      var count := J.CountInputs(block.Spenders());
      if |stxos| != count {
        return Failed(AssertionFailure);
      }
      Flush();
      AttachIndexed(node, block, elect, stxos);
      return Done;
    }

    /** The branch without its last node: what it is the lineage of, and what the tables and
        the snapshot become. */
    static lemma WithoutLast(branch: seq<BlockNode>, db: Database, snap: BestState)
      requires Mirrors(branch, db, snap) && Linked(branch) && |branch| >= 2
      ensures
        var node, prev := branch[|branch| - 1], branch[|branch| - 2];
        && node.parent == prev && Rooted(prev) && Lineage(prev) == branch[..|branch| - 1]
        && node.hash in db.blocks && prev.hash in db.blocks && prev.hash in db.elections
        && db.blocks[node.hash].TxCount() <= snap.totalTxns
        && var state := SnapshotBefore(snap, db.blocks[node.hash], prev, db.blocks[prev.hash], db.elections[prev.hash]);
        Mirrors(branch[..|branch| - 1], RemoveBlock(db, state, node), state)
    {
      hide IndexesMatch, JournalReads;
      assert branch[|branch| - 1].parent == branch[|branch| - 2];
      RemoveMirrors(branch, db, snap);
      LinkedIsLineage(branch[..|branch| - 1]);
    }

    /** Takes the last node off the branch, in the database and in memory. */
    method Detach(node: BlockNode, block: Block)
      requires BranchValid() && |bestChain.Branch()| >= 2 && node == bestChain.Branch()[bestChain.len - 1]
      requires node.hash in db.blocks && block == db.blocks[node.hash]
      modifies this, bestChain
      ensures BranchValid()
      ensures bestChain.Branch() == old(bestChain.Branch())[..old(bestChain.len) - 1]
      ensures db == RemoveBlock(old(db), stateSnapshot, node)
      ensures node.parent != null && stateSnapshot.hash == node.parent.hash
    {
      hide Mirrors, Linked, RemoveBlock, Rooted, Lineage;
      WithoutLast(bestChain.Branch(), db, stateSnapshot);
      var prevNode := node.parent;
      stateSnapshot := SnapshotBefore(stateSnapshot, block, prevNode, db.blocks[prevNode.hash],
        db.elections[prevNode.hash]);
      db := RemoveBlock(db, stateSnapshot, node);
      bestChain.SetTip(prevNode);
    }

    method DetachIndexed(node: BlockNode, block: Block)
      requires Consistent() && bestChain.len >= 2 && node == bestChain.Tip()
      requires node.hash in db.blocks && block == db.blocks[node.hash]
      modifies this, bestChain
      ensures Consistent()
      ensures bestChain.Branch() == old(bestChain.Branch())[..old(bestChain.len) - 1]
      ensures db == RemoveBlock(old(db), stateSnapshot, node)
      ensures node.parent != null && stateSnapshot.hash == node.parent.hash
    {
      hide Mirrors, Index.Valid, Derived;
      Detach(node, block);
    }

    /** The tip's parent has a stored body and an election record to go back to, and the tip's
        spent outputs can be read. */
    lemma ParentLoadable(node: BlockNode)
      requires Consistent() && node in index.nodes && node != genesis && node.hash == bestChain.Tip().hash
      ensures node == bestChain.Tip() && bestChain.len >= 2 && node.parent != null
      ensures node.parent.hash in db.blocks && node.parent.hash in db.elections
      ensures RowReads(node.hash, db)
    {
      hide RowReads;
      var branch := bestChain.Branch();
      assert node == branch[|branch| - 1];
      assert branch[|branch| - 1].parent == if |branch| == 1 then null else branch[|branch| - 2];
    }

    /** Takes the tip off the best chain and hands back the outputs that it spent, as the journal
        has them.  Its parent's body and election record are always there to be loaded, and the
        journal can always be read. */
    method DisconnectBlock(node: BlockNode, block: Block) returns (r: Outcome, stxos: seq<J.SpentTxOut>)
      requires Consistent() && node in index.nodes && node != genesis && block == db.blocks[node.hash]
      modifies this, index`dirty, index`rows, bestChain
      ensures Consistent()
      ensures r == if node == old(bestChain.Tip()) then Done else Failed(AssertionFailure)
      ensures r.Failed? ==>
        bestChain.Branch() == old(bestChain.Branch()) && db == old(db) && stateSnapshot == old(stateSnapshot)
      ensures r.Done? ==>
        && bestChain.Branch() == old(bestChain.Branch())[..old(bestChain.len) - 1]
        && db == RemoveBlock(old(db), stateSnapshot, node)
        && db.best.hash == node.parent.hash && db.best.workSum == node.workSum
        && RowReads(node.hash, old(db))
        && J.Entries(stxos) == J.ReadJournal(old(db).journal[node.hash], block.SpendCount(), db.curve)
    {
      hide Index.Valid, Mirrors, J.ReadJournal;
      if node.hash != bestChain.Tip().hash {
        return Failed(AssertionFailure), [];
      }
      ParentLoadable(node);
      var entry := J.DeserializeSpendJournalEntry(db.journal[node.hash], block.Spenders(), db.curve);
      Flush();
      DetachIndexed(node, block);
      return Done, entry.stxos;
    }

    // ----- Reorganizing -----

    ghost predicate LineOf(node: BlockNode, line: seq<BlockNode>)
      reads index
    {
      && Linked(line) && line != [] && line[|line| - 1] == node
      && forall i :: 0 <= i < |line| ==> line[i] in index.nodes
    }

    /** Sets flags on the next node of a line. */
    method SetNext(n: BlockNode, flags: set<Flag>, ghost st: Statuses, ghost line: seq<BlockNode>, ghost lo: nat,
                   ghost h: nat)
      requires index.Valid() && Known(st, line) && lo <= h < |line| && n == line[h]
      requires index.statuses == Mark(st, line, lo, h, flags)
      modifies index`dirty, index`statuses, n`status
      ensures index.Valid()
      ensures index.statuses == Mark(st, line, lo, h + 1, flags)
    {
      MarkStep(st, line, lo, h, flags);
      index.SetStatusFlags(n, flags);
    }

    /** Sets flags on consecutive nodes of a line. */
    method SetFlags(ns: seq<BlockNode>, flags: set<Flag>, ghost st: Statuses, ghost line: seq<BlockNode>, ghost lo: nat,
                    ghost hi: nat)
      requires index.Valid() && index.statuses == st && Known(st, line)
      requires lo <= hi <= |line| && ns == line[lo..hi]
      modifies index`dirty, index`statuses, index.nodes
      ensures index.Valid()
      ensures index.statuses == Mark(st, line, lo, hi, flags)
    {
      hide Index.ValidTree, Index.ValidRows;
      MarkNone(st, line, lo, flags);
      ghost var h := lo;
      for i := 0 to |ns|
        invariant h == lo + i && index.Valid()
        invariant index.statuses == Mark(st, line, lo, h, flags)
      {
        assert ns[i] == line[h];
        SetNext(ns[i], flags, st, line, lo, h);
        h := h + 1;
      }
    }

    /** Walks down from the node to the fork, collecting nodes until one is known invalid. */
    method ScanLine(node: BlockNode, fork: BlockNode, ghost line: seq<BlockNode>, ghost k: nat)
      returns (invalid: bool, attach: seq<BlockNode>)
      requires index.Valid() && LineOf(node, line) && 1 <= k <= |line| && fork == line[k - 1]
      ensures
        var j := CleanFrom(index.statuses, line, k, |line|);
        attach == line[j..] && (invalid <==> j > k)
    {
      ghost var st := index.statuses;
      invalid := false;
      attach := [];
      var n := node;
      ghost var i := |line|;
      while n != fork
        invariant k <= i <= |line| && n == line[i - 1] && attach == line[i..]
        invariant forall m :: i <= m < |line| ==> !KnownInvalid(st[line[m]])
        decreases i
      {
        assert st[n] == n.status;
        if KnownInvalid(n.status) {
          invalid := true;
          break;
        }
        attach := [n] + attach;
        i := i - 1;
        assert line[i].parent == line[i - 1];
        n := n.parent;
      }
      CleanUnique(st, line, k, |line|, i);
    }

    /** Walks down from the tip to the fork. */
    method CollectDetach(fork: BlockNode, ghost k: nat) returns (detach: seq<BlockNode>)
      requires bestChain.Valid() && 1 <= k <= bestChain.len && fork == bestChain.Branch()[k - 1]
      ensures EndDownTo(detach, bestChain.Branch(), k)
    {
      ghost var branch := bestChain.Branch();
      detach := [];
      var n := bestChain.Tip();
      while n != fork
        invariant |detach| <= |branch| - k && n == branch[|branch| - 1 - |detach|]
        invariant forall i :: 0 <= i < |detach| ==> detach[i] == branch[|branch| - 1 - i]
        decreases |branch| - |detach|
      {
        detach := detach + [n];
        assert branch[|branch| - |detach|].parent == branch[|branch| - 1 - |detach|];
        n := n.parent;
      }
    }

    /** The fork of an indexed node and the best chain. */
    method ForkOf(node: BlockNode, ghost line: seq<BlockNode>) returns (fork: BlockNode, ghost k: nat)
      requires LineOf(node, line) && bestChain.Valid() && bestChain.len > 0 && bestChain.Branch()[0] == line[0]
      ensures k == CommonLength(line, bestChain.Branch()) && 1 <= k <= |line| && k <= bestChain.len
      ensures fork == line[k - 1] == bestChain.Branch()[k - 1]
    {
      LinkedIsLineage(line);
      k := CommonLength(line, bestChain.Branch());
      SharedBelow(line, bestChain.Branch(), 0);
      SharedBelow(line, bestChain.Branch(), k - 1);
      fork := bestChain.FindFork(node);
    }

    /** Finds the fork and scans down to it. */
    method ScanToFork(node: BlockNode, ghost line: seq<BlockNode>)
      returns (fork: BlockNode, ghost k: nat, ghost j: nat, invalid: bool, attach: seq<BlockNode>)
      requires index.Valid() && LineOf(node, line) && bestChain.Valid() && bestChain.len > 0 &&
        bestChain.Branch()[0] == line[0]
      ensures k == CommonLength(line, bestChain.Branch()) && 1 <= k <= bestChain.len &&
        fork == bestChain.Branch()[k - 1]
      ensures j == CleanFrom(index.statuses, line, k, |line|) && (invalid <==> j > k)
      ensures attach == line[j..|line|]
    {
      fork, k := ForkOf(node, line);
      invalid, attach := ScanLine(node, fork, line, k);
      j := CleanFrom(index.statuses, line, k, |line|);
    }

    /** The search once the parent is not known invalid. */
    method ReorganizeNodesAbove(node: BlockNode, ghost st: Statuses, ghost line: seq<BlockNode>)
      returns (detach: seq<BlockNode>, attach: seq<BlockNode>)
      requires index.Valid() && index.statuses == st && Known(st, line) && LineOf(node, line) && |line| >= 2
      requires bestChain.Valid() && bestChain.len > 0 && bestChain.Branch()[0] == line[0]
      requires !KnownInvalid(st[line[|line| - 2]])
      modifies index`dirty, index`statuses, index.nodes
      ensures index.Valid()
      ensures ReorgNodes(st, index.statuses, bestChain.Branch(), line,
                         CommonLength(line, bestChain.Branch()), detach, attach)
    {
      hide Index.Valid, Linked, CommonLength, CleanFrom;
      ghost var k, j;
      var fork, invalid;
      fork, k, j, invalid, attach := ScanToFork(node, line);
      if invalid {
        SetFlags(attach, {InvalidAncestor}, st, line, j, |line|);
        return [], [];
      }
      detach := CollectDetach(fork, k);
    }

    /** The nodes to take off and to put on, or none when an ancestor is known invalid. */
    method GetReorganizeNodes(node: BlockNode, ghost st: Statuses, ghost line: seq<BlockNode>)
      returns (detach: seq<BlockNode>, attach: seq<BlockNode>)
      requires index.Valid() && index.statuses == st && Known(st, line) && LineOf(node, line) && |line| >= 2
      requires bestChain.Valid() && bestChain.len > 0 && bestChain.Branch()[0] == line[0]
      modifies index`dirty, index`statuses, index.nodes
      ensures index.Valid()
      ensures ReorgNodes(st, index.statuses, bestChain.Branch(), line,
                         CommonLength(line, bestChain.Branch()), detach, attach)
    {
      assert line[|line| - 1].parent == line[|line| - 2];
      assert st[node.parent] == node.parent.status;
      if KnownInvalid(node.parent.status) {
        assert [node] == line[|line| - 1..|line|];
        SetFlags([node], {InvalidAncestor}, st, line, |line| - 1, |line|);
        return [], [];
      }
      detach, attach := ReorganizeNodesAbove(node, st, line);
    }

    /** Checks one node, unless it is known valid already. */
    method CheckNext(n: BlockNode, oracle: Oracle, ghost st: Statuses, ghost line: seq<BlockNode>, ghost k: nat,
                     ghost h: nat)
      returns (v: Verdict)
      requires index.Valid() && Known(st, line) && k <= h < |line| && n == line[h]
      requires index.statuses == Mark(st, line, k, h, {Validated})
      modifies index`dirty, index`statuses, index.nodes
      ensures index.Valid()
      ensures v == Accept <==> Passes(st, n, oracle.connect)
      ensures v != Accept ==> v == oracle.connect(n.hash)
      ensures index.statuses == Mark(st, line, k, if v == Accept then h + 1 else h, {Validated})
    {
      MarkStep(st, line, k, h, {Validated});
      assert n.status == index.statuses[n];
      if KnownValid(n.status) {
        assert st[n] + {Validated} == st[n];
        return Accept;
      }
      v := oracle.connect(n.hash);
      if v == Accept {
        SetNext(n, {Validated}, st, line, k, h);
      }
    }

    /** Checks node after node up to the first that is rejected. */
    method CheckUpTo(attach: seq<BlockNode>, oracle: Oracle, ghost st: Statuses, ghost line: seq<BlockNode>,
                     ghost k: nat)
      returns (i: nat, v: Verdict, ghost f: nat)
      requires index.Valid() && index.statuses == st && Known(st, line) && k <= |line| && attach == line[k..]
      modifies index`dirty, index`statuses, index.nodes
      ensures index.Valid()
      ensures f == FirstReject(st, line, k, oracle.connect) && f == k + i
      ensures v == if f < |line| then oracle.connect(line[f].hash) else Accept
      ensures index.statuses == Mark(st, line, k, f, {Validated})
    {
      hide Index.Valid, OneTree, Mirrors, Linked, Mark;
      MarkNone(st, line, k, {Validated});
      f, i, v := k, 0, Accept;
      while i < |attach| && v == Accept
        invariant i <= |attach| && f == k + i
        invariant index.Valid() && index.statuses == Mark(st, line, k, f, {Validated})
        invariant AllPass(st, line, k, f, oracle.connect)
        invariant v != Accept ==>
          f < |line| && !Passes(st, line[f], oracle.connect) && v == oracle.connect(line[f].hash)
        decreases |attach| - i, v == Accept
      {
        assert attach[i] == line[f];
        v := CheckNext(attach[i], oracle, st, line, k, f);
        if v == Accept {
          OnePassesMore(st, line, k, f, oracle.connect);
          i, f := i + 1, f + 1;
        }
      }
      RejectUnique(st, line, k, f, oracle.connect);
    }

    /** Checks the nodes to attach without connecting any of them.  A rule violation marks
        its node and everything after it; a store failure marks nothing more. */
    method CheckAttach(attach: seq<BlockNode>, oracle: Oracle, ghost st: Statuses, ghost line: seq<BlockNode>,
                       ghost k: nat)
      returns (r: Outcome)
      requires index.Valid() && index.statuses == st && Known(st, line) && k <= |line| && attach == line[k..]
      modifies index`dirty, index`statuses, index.nodes
      ensures index.Valid()
      ensures index.statuses == AfterCheck(st, line, k, oracle.connect)
      ensures
        var f := FirstReject(st, line, k, oracle.connect);
        r == if f == |line| then Done else Failed(ErrorOf(oracle.connect(line[f].hash)))
    {
      ghost var f;
      var i, v;
      i, v, f := CheckUpTo(attach, oracle, st, line, k);
      if v == RuleViolation {
        FailAttach(attach[i..], Mark(st, line, k, f, {Validated}), line, f);
      }
      r := if v == Accept then Done else Failed(ErrorOf(v));
    }

    /** The first node failed validation, the others have it as an ancestor. */
    method FailAttach(rest: seq<BlockNode>, ghost st: Statuses, ghost line: seq<BlockNode>, ghost f: nat)
      requires index.Valid() && index.statuses == st && Known(st, line) && f < |line| && rest == line[f..]
      modifies index`dirty, index`statuses, index.nodes
      ensures index.Valid()
      ensures index.statuses == AfterFailure(st, line, f)
    {
      assert [rest[0]] == line[f..f + 1] && rest[1..] == line[f + 1..|line|];
      SetFlags([rest[0]], {ValidateFailed}, st, line, f, f + 1);
      SetFlags(rest[1..], {InvalidAncestor}, Mark(st, line, f, f + 1, {ValidateFailed}), line, f + 1, |line|);
    }

    /** Disconnects the tip, which is the end of a prefix of `branch`. */
    method DetachStep(n: BlockNode, ghost branch: seq<BlockNode>)
      requires Consistent() && 2 <= bestChain.len <= |branch| && bestChain.Branch() == branch[..bestChain.len]
      requires n == branch[bestChain.len - 1]
      modifies this, index`dirty, index`rows, bestChain
      ensures Consistent() && db.blocks == old(db.blocks) && db.curve == old(db.curve)
      ensures db.elections == old(db.elections) && db.journal == old(db.journal) - {n.hash}
      ensures bestChain.len == old(bestChain.len) - 1 && bestChain.Branch() == branch[..bestChain.len]
    {
      hide Index.Valid, Mirrors;
      assert n in index.nodes && n != genesis && n == bestChain.Tip() && BodyMatches(n, db.blocks);
      var r, stxos := DisconnectBlock(n, db.blocks[n.hash]);
    }

    /** Disconnects the listed nodes one after the other. */
    method DetachAll(detach: seq<BlockNode>, ghost k: nat)
      requires Consistent() && 1 <= k && EndDownTo(detach, bestChain.Branch(), k)
      modifies this, index`dirty, index`rows, bestChain
      ensures Consistent() && db.blocks == old(db.blocks) && db.curve == old(db.curve)
      ensures db.elections == old(db.elections) && db.journal == old(db.journal) - Above(old(bestChain.Branch()), k)
      ensures bestChain.Branch() == old(bestChain.Branch())[..k]
    {
      hide Index.Valid, OneTree, Mirrors, Linked, Above;
      ghost var branch := bestChain.Branch();
      AboveNone(branch, db.journal);
      for i := 0 to |detach|
        invariant Consistent() && db.blocks == old(db.blocks) && db.curve == old(db.curve)
        invariant bestChain.len == |branch| - i && bestChain.Branch() == branch[..bestChain.len]
        invariant db.elections == old(db.elections) && db.journal == old(db.journal) - Above(branch, |branch| - i)
      {
        assert detach[i] == branch[|branch| - 1 - i];
        AboveOneMore(branch, |branch| - 1 - i, old(db.journal));
        DetachStep(detach[i], branch);
      }
    }

    /** Connects the next node of a line. */
    method AttachStep(n: BlockNode, oracle: Oracle, ghost line: seq<BlockNode>)
      requires Consistent() && Linked(line) && n in index.nodes
      requires bestChain.len < |line| && bestChain.Branch() == line[..bestChain.len] && n == line[bestChain.len]
      modifies this, index`dirty, index`rows, bestChain
      ensures Consistent() && db.blocks == old(db.blocks) && db.curve == old(db.curve)
      ensures bestChain.len == old(bestChain.len) + 1 && bestChain.Branch() == line[..bestChain.len]
      ensures db.best.workSum == n.workSum
      ensures db.journal == old(db.journal)[n.hash := JournalRow(oracle.effects, n.hash, db)]
      ensures
        var before := RecordOf(old(db.elections), line[old(bestChain.len) - 1].hash);
        db.elections == old(db.elections)[n.hash := oracle.effects.elect(n.hash, before)]
    {
      hide Index.Valid, Mirrors, Stored;
      TipRecord(bestChain.Branch(), db, stateSnapshot);
      assert line[bestChain.len].parent == line[bestChain.len - 1];
      assert BodyMatches(n, db.blocks);
      var r := ConnectBlock(n, db.blocks[n.hash], oracle.effects.elect(n.hash, stateSnapshot.elect),
        SpentBy(oracle.effects, n.hash, db.blocks[n.hash]));
    }

    /** The snapshot has the tip's election record. */
    static lemma TipRecord(branch: seq<BlockNode>, db: Database, snap: BestState)
      requires Mirrors(branch, db, snap)
      ensures branch != [] && snap.elect == RecordOf(db.elections, branch[|branch| - 1].hash)
    {
    }

    /** Connects the listed nodes one after the other. */
    method AttachAll(attach: seq<BlockNode>, oracle: Oracle, ghost line: seq<BlockNode>)
      requires Consistent() && Linked(line) && 1 <= bestChain.len < |line| &&
        bestChain.Branch() == line[..bestChain.len]
      requires attach == line[bestChain.len..] && forall i :: 0 <= i < |line| ==> line[i] in index.nodes
      modifies this, index`dirty, index`rows, bestChain
      ensures Consistent() && db.blocks == old(db.blocks) && db.curve == old(db.curve)
      ensures bestChain.Branch() == line && db.best.workSum == line[|line| - 1].workSum
      ensures db.elections == Elected(old(db.elections), line, old(bestChain.len), |line|, oracle.effects)
      ensures db.journal == Journalled(old(db.journal), line, old(bestChain.len), |line|, oracle.effects, db)
    {
      hide Index.Valid, OneTree, Mirrors, Linked, JournalRow, InTree;
      ghost var k := bestChain.len;
      for i := 0 to |attach|
        invariant Consistent() && db.blocks == old(db.blocks) && db.curve == old(db.curve)
        invariant bestChain.len == k + i && bestChain.Branch() == line[..bestChain.len]
        invariant i > 0 ==> db.best.workSum == attach[i - 1].workSum
        invariant db.elections == Elected(old(db.elections), line, k, k + i, oracle.effects)
        invariant db.journal == Journalled(old(db.journal), line, k, k + i, oracle.effects, db)
      {
        ghost var before := db;
        AttachStep(attach[i], oracle, line);
        JournalledFrame(old(db.journal), line, k, k + i, oracle.effects, before, db);
      }
      assert line[..|line|] == line && attach[|attach| - 1] == line[|line| - 1];
    }

    /** Checking changes flags only. */
    method CheckReorg(attach: seq<BlockNode>, oracle: Oracle,
                      ghost st: Statuses, ghost line: seq<BlockNode>, ghost k: nat,
                      ghost s: Selection) returns (r: Outcome)
      requires Consistent() && index.statuses == st && Known(st, line) && k <= |line| && attach == line[k..]
      requires s == Checked(st, bestChain.Branch(), line, k, oracle.connect)
      modifies index`dirty, index`statuses, index.nodes
      ensures Consistent()
      ensures index.statuses == s.st && r == OutcomeOf(s.result)
      ensures s.branch == if r.Done? then line else bestChain.Branch()
    {
      hide Index.Valid, OneTree, Mirrors, Linked;
      r := CheckAttach(attach, oracle, st, line, k);
    }

    /** Takes the best chain down to the fork and up the line. */
    method SwitchTo(detach: seq<BlockNode>, attach: seq<BlockNode>, oracle: Oracle,
                    ghost st: Statuses, ghost line: seq<BlockNode>, ghost k: nat)
      requires index.statuses == st
      requires Consistent() && Linked(line) && ForksAt(line, bestChain.Branch(), k)
      requires EndDownTo(detach, bestChain.Branch(), k) && attach == line[k..]
      requires forall i :: 0 <= i < |line| ==> line[i] in index.nodes
      modifies this, index`dirty, index`rows, bestChain
      ensures Consistent() && db.blocks == old(db.blocks)
      ensures index.statuses == st
      ensures bestChain.Branch() == line && Moved(old(db), db, old(bestChain.Branch()), line, k, oracle.effects)
    {
      hide Index.Valid, OneTree, Mirrors, Linked, Elected, Journalled, Above;
      DetachAll(detach, k);
      assert index.statuses == st;
      AttachAll(attach, oracle, line);
    }

    /** Moves the best chain to another line, if every node of it above the fork passes
        validation.  The check comes first, so a failure leaves the best chain, its tables
        and the snapshot as they were. */
    method ReorganizeChain(detach: seq<BlockNode>, attach: seq<BlockNode>, oracle: Oracle,
                           ghost st: Statuses, ghost line: seq<BlockNode>, ghost k: nat,
                           ghost s: Selection) returns (r: Outcome)
      requires Consistent() && index.statuses == st && Known(st, line)
      requires ForksAt(line, bestChain.Branch(), k)
      requires EndDownTo(detach, bestChain.Branch(), k) && attach == line[k..]
      requires s == Checked(st, bestChain.Branch(), line, k, oracle.connect)
      modifies this, index`dirty, index`rows, index`statuses, index.nodes, bestChain
      ensures Consistent() && db.blocks == old(db.blocks)
      ensures index.statuses == s.st && bestChain.Branch() == s.branch && r == OutcomeOf(s.result)
      ensures r.Done? ==> Moved(old(db), db, old(bestChain.Branch()), line, k, oracle.effects)
      ensures r.Failed? ==> db == old(db) && stateSnapshot == old(stateSnapshot)
    {
      hide Moved, Mirrors, Checked;
      r := CheckReorg(attach, oracle, st, line, k, s);
      if r.Done? {
        SwitchTo(detach, attach, oracle, s.st, line, k);
      }
    }

    /** The search changes flags only. */
    method FindReorg(node: BlockNode, ghost st: Statuses, ghost line: seq<BlockNode>)
      returns (detach: seq<BlockNode>, attach: seq<BlockNode>)
      requires Consistent() && index.statuses == st && Known(st, line) && LineOf(node, line) && |line| >= 2
      requires bestChain.Branch()[0] == line[0]
      modifies index`dirty, index`statuses, index.nodes
      ensures Consistent()
      ensures ReorgNodes(st, index.statuses, bestChain.Branch(), line,
                         CommonLength(line, bestChain.Branch()), detach, attach)
    {
      hide Index.ValidRows, Mark;
      detach, attach := GetReorganizeNodes(node, st, line);
    }

    /** The reorganization that a heavier side chain causes. */
    method ConnectSideChain(node: BlockNode, oracle: Oracle, ghost st: Statuses, ghost line: seq<BlockNode>,
                            ghost s: Selection)
      returns (r: Outcome)
      requires Consistent() && index.statuses == st && Known(st, line) && LineOf(node, line) && |line| >= 2
      requires ForksAt(line, bestChain.Branch(), CommonLength(line, bestChain.Branch()))
      requires s == Reorganize(st, bestChain.Branch(), line, CommonLength(line, bestChain.Branch()), oracle.connect)
      modifies this, index`dirty, index`rows, index`statuses, index.nodes, bestChain
      ensures Consistent() && db.blocks == old(db.blocks)
      ensures index.statuses == s.st && bestChain.Branch() == s.branch && r == OutcomeOf(s.result)
      ensures s.branch == old(bestChain.Branch()) ==> db == old(db) && stateSnapshot == old(stateSnapshot)
      ensures s.branch != old(bestChain.Branch()) ==>
        Moved(old(db), db, old(bestChain.Branch()), line, CommonLength(line, old(bestChain.Branch())), oracle.effects)
    {
      hide Index.Valid, OneTree, Mirrors, Linked, Moved;
      ghost var k := CommonLength(line, bestChain.Branch());
      var detach, attach := FindReorg(node, st, line);
      if detach == [] && attach == [] {
        return Done;
      }
      r := ReorganizeChain(detach, attach, oracle, st, line, k, s);
    }

    /** Sets flags on the last node of a line and writes them out. */
    method FlagTip(node: BlockNode, flags: set<Flag>, ghost st: Statuses, ghost line: seq<BlockNode>)
      requires Consistent() && index.statuses == st && Known(st, line) && line != [] && node == line[|line| - 1]
      modifies index`dirty, index`rows, index`statuses, node`status
      ensures Consistent()
      ensures index.statuses == Mark(st, line, |line| - 1, |line|, flags)
    {
      hide Index.Valid, OneTree, Mirrors, Linked;
      MarkNone(st, line, |line| - 1, flags);
      SetNext(node, flags, st, line, |line| - 1, |line| - 1);
      index.FlushToDB(true);
    }

    /** Connects a node that sits on the tip; only the best chain and its tables change. */
    method ConnectTip(node: BlockNode, oracle: Oracle, ghost st: Statuses)
      requires Consistent() && node in index.nodes && node.parent == bestChain.Tip() && index.statuses == st
      modifies this, index`dirty, index`rows, bestChain
      ensures Consistent() && db.blocks == old(db.blocks) && index.statuses == st
      ensures bestChain.Branch() == old(bestChain.Branch()) + [node]
      ensures Moved(old(db), db, old(bestChain.Branch()), old(bestChain.Branch()) + [node], old(bestChain.len),
        oracle.effects)
    {
      hide Index.Valid, Mirrors, Moved, Stored, SpentBy, RecordOf, Linked;
      assert BodyMatches(node, db.blocks) && genesis.parent == null;
      TipRecord(bestChain.Branch(), db, stateSnapshot);
      ghost var before := db;
      var r := ConnectBlock(node, db.blocks[node.hash], oracle.effects.elect(node.hash, stateSnapshot.elect),
        SpentBy(oracle.effects, node.hash, db.blocks[node.hash]));
      MovedByOne(before, db, old(bestChain.Branch()), node, oracle.effects);
    }

    /** The new block sits on the tip: validate it unless that is known or waived, then
        connect it. */
    method ExtendBest(node: BlockNode, oracle: Oracle, fastAdd: bool, ghost st: Statuses, ghost line: seq<BlockNode>,
                      ghost s: Selection)
      returns (r: Outcome)
      requires Consistent() && index.statuses == st && Known(st, line)
      requires line == bestChain.Branch() + [node] && node.parent == bestChain.Tip()
      requires s == Extend(st, bestChain.Branch(), line, oracle.connect(node.hash), fastAdd)
      modifies this, index`dirty, index`rows, index`statuses, index.nodes, bestChain
      ensures Consistent() && db.blocks == old(db.blocks)
      ensures index.statuses == s.st && bestChain.Branch() == s.branch && r == OutcomeOf(s.result)
      ensures r.Failed? ==> db == old(db) && stateSnapshot == old(stateSnapshot)
      ensures r.Done? ==> Moved(old(db), db, old(bestChain.Branch()), line, old(bestChain.len), oracle.effects)
    {
      hide Moved, Index.ValidTree, Index.ValidRows, OneTree, Mirrors, Linked;
      assert st[node] == node.status;
      if fastAdd || KnownValid(node.status) {
        ConnectTip(node, oracle, st);
        FlagTip(node, {Validated}, st, line);
        return Done;
      }
      var verdict := oracle.connect(node.hash);
      if verdict == Accept {
        FlagTip(node, {Validated}, st, line);
        ConnectTip(node, oracle, s.st);
        return Done;
      }
      if verdict == RuleViolation {
        FlagTip(node, {ValidateFailed}, st, line);
      }
      return Failed(ErrorOf(verdict));
    }

    /** The reorganization, with its flags written out. */
    method ReorganizeBest(node: BlockNode, oracle: Oracle, ghost st: Statuses, ghost line: seq<BlockNode>,
                          ghost s: Selection)
      returns (isMain: bool, r: Outcome)
      requires Consistent() && index.statuses == st && Known(st, line) && LineOf(node, line) && |line| >= 2
      requires ForksAt(line, bestChain.Branch(), CommonLength(line, bestChain.Branch()))
      requires s == Reorganize(st, bestChain.Branch(), line, CommonLength(line, bestChain.Branch()), oracle.connect)
      modifies this, index`dirty, index`rows, index`statuses, index.nodes, bestChain
      ensures Consistent() && db.blocks == old(db.blocks)
      ensures index.statuses == s.st && bestChain.Branch() == s.branch
      ensures r == OutcomeOf(s.result) && (isMain <==> s.result == MainChain)
      ensures s.branch == old(bestChain.Branch()) ==> db == old(db) && stateSnapshot == old(stateSnapshot)
      ensures s.branch != old(bestChain.Branch()) ==>
        Moved(old(db), db, old(bestChain.Branch()), line, CommonLength(line, old(bestChain.Branch())), oracle.effects)
    {
      hide Index.Valid, OneTree, Mirrors, Linked, Moved;
      assert s.result != SideChain;
      r := ConnectSideChain(node, oracle, st, line, s);
      Flush();
      isMain := r.Done?;
    }

    /** The extension, in the terms of chain selection. */
    method ConnectOnTip(node: BlockNode, oracle: Oracle, fastAdd: bool, ghost st: Statuses, ghost line: seq<BlockNode>,
                        ghost s: Selection)
      returns (isMain: bool, r: Outcome)
      requires Consistent() && index.statuses == st && Known(st, line)
      requires line == bestChain.Branch() + [node] && node.parent == bestChain.Tip()
      requires s == Extend(st, bestChain.Branch(), line, oracle.connect(node.hash), fastAdd)
      modifies this, index`dirty, index`rows, index`statuses, index.nodes, bestChain
      ensures Consistent() && db.blocks == old(db.blocks)
      ensures index.statuses == s.st && bestChain.Branch() == s.branch
      ensures r == OutcomeOf(s.result) && (isMain <==> s.result == MainChain)
      ensures s.branch == old(bestChain.Branch()) ==> db == old(db) && stateSnapshot == old(stateSnapshot)
      ensures s.branch != old(bestChain.Branch()) ==>
        Moved(old(db), db, old(bestChain.Branch()), line, CommonLength(line, old(bestChain.Branch())), oracle.effects)
    {
      hide Moved, CommonLength, Stored, Mirrors, Index.Valid;
      CommonPrefix(bestChain.Branch(), node);
      assert s.result != SideChain && (s.branch == bestChain.Branch() <==> s.result != MainChain);
      r := ExtendBest(node, oracle, fastAdd, st, line, s);
      isMain := r.Done?;
    }

    static lemma CommonPrefix(branch: seq<BlockNode>, node: BlockNode)
      ensures CommonLength(branch + [node], branch) == |branch|
    {
      assert forall i :: 0 <= i < |branch| ==> (branch + [node])[i] == branch[i];
    }

    /** Chain selection for a node that has just been indexed. */
    method ConnectBestChain(node: BlockNode, oracle: Oracle, fastAdd: bool, ghost st: Statuses,
                            ghost line: seq<BlockNode>, ghost s: Selection)
      returns (isMain: bool, r: Outcome)
      requires Consistent() && index.statuses == st && LineOf(node, line)
      requires Known(st, line) && |line| >= 2 &&
        ForksAt(line, bestChain.Branch(), CommonLength(line, bestChain.Branch()))
      requires s == Select(st, bestChain.Branch(), line, oracle.connect, fastAdd)
      modifies this, index`dirty, index`rows, index`statuses, index.nodes, bestChain
      ensures Consistent() && db.blocks == old(db.blocks)
      ensures index.statuses == s.st && bestChain.Branch() == s.branch
      ensures r == OutcomeOf(s.result) && (isMain <==> s.result == MainChain)
      ensures s.branch == old(bestChain.Branch()) ==> db == old(db) && stateSnapshot == old(stateSnapshot)
      ensures s.branch != old(bestChain.Branch()) ==>
        Moved(old(db), db, old(bestChain.Branch()), line, CommonLength(line, old(bestChain.Branch())), oracle.effects)
    {
      hide Index.Valid, OneTree, Mirrors, Linked, Moved;
      ghost var branch := bestChain.Branch();
      var onTip, heavier := Rank(node, line);
      if onTip {
        SelectExtends(st, branch, line, oracle.connect, fastAdd);
        isMain, r := ConnectOnTip(node, oracle, fastAdd, st, line, s);
      } else if heavier {
        SelectReorganizes(st, branch, line, oracle.connect, fastAdd);
        isMain, r := ReorganizeBest(node, oracle, st, line, s);
      } else {
        SelectStays(st, branch, line, oracle.connect, fastAdd);
        isMain, r := false, Done;
      }
    }

    /** Whether the node sits on the tip, and whether it has more work.  Among indexed nodes
        equal hashes are equal nodes. */
    method Rank(node: BlockNode, ghost line: seq<BlockNode>) returns (onTip: bool, heavier: bool)
      requires Consistent() && LineOf(node, line) && |line| >= 2
      ensures onTip <==> node.parent == Tip(bestChain.Branch())
      ensures heavier <==> node.workSum > Tip(bestChain.Branch()).workSum
      ensures onTip ==> line == bestChain.Branch() + [node]
    {
      assert line[|line| - 1].parent == line[|line| - 2];
      var tip := bestChain.Tip();
      onTip, heavier := node.parent.hash == tip.hash, node.workSum > tip.workSum;
      if onTip {
        ExtendsLine(bestChain.Branch(), line);
      }
    }

    // ----- Accepting -----

    ghost function ChainState(): State
      requires bestChain.Valid()
      reads index, bestChain
    {
      State(index.statuses, bestChain.Branch())
    }

    /** What holds between calls: besides consistency, sound flags, an all-valid best chain,
        and the tip's work sum on record. */
    ghost predicate Valid()
      reads this, index, index.nodes, bestChain
    {
      && Consistent() && Safe(ChainState())
      && db.best.workSum == Tip(bestChain.Branch()).workSum
    }

    /** A node for a block, not yet filed. */
    method NewNode(block: Block, prev: BlockNode) returns (node: BlockNode)
      requires Rooted(prev)
      ensures fresh(node) && Rooted(node) && node.status == {DataStored}
      ensures node.hash == block.hash && node.bits == block.bits && node.timestamp == block.timestamp &&
        node.parent == prev
    {
      node := new BlockNode(block.hash, block.bits, block.timestamp, prev);
      node.status := {DataStored};
    }

    /** Stores a block's body and files its node. */
    method FileNode(block: Block, node: BlockNode)
      requires Consistent() && block.hash == node.hash && block.hash !in index.index && Derived(node)
      requires node.parent != null && node.parent in index.nodes && block.prev == node.parent.hash
      modifies `db, index
      ensures Consistent()
      ensures index.index == old(index.index)[block.hash := node] && index.nodes == old(index.nodes) + {node}
      ensures index.statuses == old(index.statuses)[node := node.status]
      ensures db == old(db).(blocks := old(db.blocks)[block.hash := block])
    {
      hide Mirrors, OneTree, Linked, Index.ValidTree, Index.ValidRows, Index.ValidStatuses, Stored, Derived;
      StoreMirrors(bestChain.Branch(), db, stateSnapshot, block);
      OneTreeGrows(index.nodes, genesis, db.blocks, node, block);
      db := db.(blocks := db.blocks[block.hash := block]);
      index.AddNode(node);
    }

    /** Stores a block's body and files a new node for it. */
    method IndexBlock(block: Block, prev: BlockNode) returns (node: BlockNode)
      requires Consistent() && block.hash !in index.index && prev in index.nodes && block.prev == prev.hash &&
        Rooted(prev)
      modifies `db, index
      ensures Consistent() && fresh(node) && Rooted(node)
      ensures node.hash == block.hash && node.bits == block.bits && node.timestamp == block.timestamp &&
        node.parent == prev
      ensures index.index == old(index.index)[block.hash := node] && index.nodes == old(index.nodes) + {node}
      ensures index.statuses == old(index.statuses)[node := {DataStored}]
      ensures db == old(db).(blocks := old(db.blocks)[block.hash := block])
    {
      hide Index.Valid, OneTree, Mirrors, Linked;
      node := NewNode(block, prev);
      FileNode(block, node);
      Flush();
    }

    /** An admissible arrival has its line laid out for chain selection. */
    lemma ArrivalLine(before: State, a: Arrival)
      requires Safe(before) && Admissible(before, a) && index.Valid() && index.statuses == Indexed(before, a)
      ensures
        var line := Lineage(a.node);
        && LineOf(a.node, line) && Known(index.statuses, line) && |line| >= 2
        && ForksAt(line, before.branch, CommonLength(line, before.branch))
    {
      ArrivalReady(before, a);
      ForkBelowTip(index.statuses, before.branch, Lineage(a.node));
    }

    /** Runs chain selection for a node just filed: the state moves by one step. */
    method SelectFor(node: BlockNode, oracle: Oracle, fastAdd: bool, ghost before: State, ghost a: Arrival)
      returns (isMain: bool, r: Outcome)
      requires Consistent() && a == Arrival(node, oracle.connect, fastAdd)
      requires Safe(before) && Admissible(before, a)
      requires index.statuses == Indexed(before, a) && bestChain.Branch() == before.branch
      requires db.best.workSum == Tip(before.branch).workSum
      modifies this, index`dirty, index`rows, index`statuses, index.nodes, bestChain
      ensures Valid() && db.blocks == old(db.blocks)
      ensures ChainState() == Next(before, a)
      ensures Heaviest(before.st, before.branch) && r != Failed(StoreError) ==>
        Heaviest(index.statuses, bestChain.Branch())
      ensures r == OutcomeOf(Step(before, a).result) && (isMain <==> Step(before, a).result == MainChain)
      ensures bestChain.Branch() == before.branch ==> db == old(db) && stateSnapshot == old(stateSnapshot)
      ensures bestChain.Branch() != before.branch ==>
        Moved(old(db), db, before.branch, bestChain.Branch(), CommonLength(bestChain.Branch(), before.branch),
          oracle.effects)
    {
      hide Index.Valid, OneTree, Mirrors, Linked, Moved, Safe, Heaviest, InvalidFrom, Admissible, CommonLength,
        Rooted, Lineage, Select, Stored;
      StepSafe(before, a);
      MainChainMeans(before, a);
      ArrivalLine(before, a);
      isMain, r := ConnectBestChain(node, oracle, fastAdd, index.statuses, Lineage(node), Step(before, a));
      if bestChain.Branch() != before.branch {
        MovedWork(old(db), db, before.branch, bestChain.Branch(), CommonLength(bestChain.Branch(), before.branch),
          oracle.effects);
      }
    }

    /** The checks that come before filing. */
    method CheckArrival(block: Block, oracle: Oracle) returns (prev: BlockNode?, r: Outcome)
      requires index.Valid()
      ensures Refusal(index.index, index.statuses, block, oracle) == if r.Done? then None else Some(r.error)
      ensures r != Failed(AssertionFailure)
      ensures r.Done? ==>
        block.prev in index.index && prev == index.index[block.prev] && prev in index.nodes &&
        prev.hash == block.prev && !KnownInvalid(prev.status)
    {
      prev := index.LookupNode(block.prev);
      if prev == null {
        return null, Failed(PreviousBlockUnknown);
      }
      if KnownInvalid(prev.status) {
        return prev, Failed(InvalidAncestorBlock);
      }
      if block.height.Some? && block.height.value != prev.height + 1 {
        return prev, Failed(BadCoinbaseHeight);
      }
      var verdict := oracle.context(block.hash);
      if verdict != Accept {
        return prev, Failed(if verdict == RuleViolation then ContextRejected else StoreError);
      }
      return prev, Done;
    }

    /** Files a block on a known parent: an admissible arrival in every state of this chain. */
    method FileArrival(block: Block, prev: BlockNode, oracle: Oracle, fastAdd: bool, ghost before: State)
      returns (node: BlockNode, ghost a: Arrival)
      requires Valid() && before == ChainState() && block.hash !in index.index
      requires prev in index.nodes && prev.hash == block.prev && !KnownInvalid(prev.status)
      modifies `db, index
      ensures Consistent() && fresh(node) && node.hash == block.hash && node.parent == prev &&
        node.bits == block.bits && node.timestamp == block.timestamp
      ensures a == Arrival(node, oracle.connect, fastAdd) && Admissible(before, a)
      ensures index.statuses == Indexed(before, a) && bestChain.Branch() == before.branch
      ensures index.index == old(index.index)[block.hash := node] && index.nodes == old(index.nodes) + {node}
      ensures db == old(db).(blocks := old(db.blocks)[block.hash := block])
    {
      node := IndexBlock(block, prev);
      a := Arrival(node, oracle.connect, fastAdd);
    }

    /** Files a block on a known parent and runs chain selection for it. */
    method AcceptOn(prev: BlockNode, block: Block, oracle: Oracle, fastAdd: bool, ghost before: State)
      returns (isMain: bool, r: Outcome, ghost a: Arrival)
      requires Valid() && before == ChainState() && block.hash !in index.index
      requires prev in index.nodes && prev.hash == block.prev && !KnownInvalid(prev.status)
      modifies this, index, index.nodes, bestChain
      ensures Valid() && fresh(a.node) && index.nodes == old(index.nodes) + {a.node}
      ensures a == Arrival(a.node, oracle.connect, fastAdd) && a.node.hash == block.hash && a.node.parent == prev &&
        Admissible(before, a)
      ensures a.node.bits == block.bits && a.node.timestamp == block.timestamp
      ensures index.index == old(index.index)[block.hash := a.node]
      ensures ChainState() == Next(before, a)
      ensures Heaviest(before.st, before.branch) && r != Failed(StoreError) ==>
        Heaviest(index.statuses, bestChain.Branch())
      ensures r == OutcomeOf(Step(before, a).result) && (isMain <==> Step(before, a).result == MainChain)
      ensures db.blocks == old(db.blocks)[block.hash := block]
      ensures
        var after := bestChain.Branch();
        if after == before.branch then SameTables(old(db), db) && stateSnapshot == old(stateSnapshot)
        else Moved(old(db), db, before.branch, after, CommonLength(after, before.branch), oracle.effects)
    {
      hide Index.Valid, OneTree, Mirrors, Linked, Elected, Journalled, Above, InTree, Safe, Step;
      var node;
      node, a := FileArrival(block, prev, oracle, fastAdd, before);
      isMain, r := SelectFor(node, oracle, fastAdd, before, a);
    }

    ghost function CurrentBooks(): Books
      requires bestChain.Valid()
      reads index, bestChain
    {
      Books(index.index, ChainState())
    }

    /** Offers a block to the chain.  A refused block changes nothing; a filed one moves the
        chain by one step of chain selection. */
    method MaybeAcceptBlock(block: Block, oracle: Oracle, fastAdd: bool) returns (isMain: bool, r: Outcome)
      requires Valid() && block.hash !in index.index
      modifies this, index, index.nodes, bestChain
      ensures Valid() && forall n :: n in index.nodes && n !in old(index.nodes) ==> fresh(n)
      ensures Offered(old(CurrentBooks()), block, oracle, fastAdd, CurrentBooks())
      ensures Answered(old(CurrentBooks()), block, oracle, fastAdd, CurrentBooks(), isMain, r)
      ensures old(Heaviest(index.statuses, bestChain.Branch())) && r != Failed(StoreError) ==>
        Heaviest(index.statuses, bestChain.Branch())
      ensures r != Failed(AssertionFailure)
      ensures index.index == old(index.index) ==> db == old(db) && stateSnapshot == old(stateSnapshot)
      ensures index.index != old(index.index) ==>
        && db.blocks == old(db.blocks)[block.hash := block]
        && var before, after := old(bestChain.Branch()), bestChain.Branch();
        if after == before then SameTables(old(db), db) && stateSnapshot == old(stateSnapshot)
        else Moved(old(db), db, before, after, CommonLength(after, before), oracle.effects)
    {
      hide Index.Valid, OneTree, Mirrors, Linked, Safe, Heaviest, Moved, CommonLength, Step, Admissible;
      ghost var before := ChainState();
      var prev;
      prev, r := CheckArrival(block, oracle);
      if r.Failed? {
        return false, r;
      }
      ghost var a;
      isMain, r, a := AcceptOn(prev, block, oracle, fastAdd, before);
    }
  }
}
