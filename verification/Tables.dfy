/** The database tables that mirror the best branch, and the transactions that connect and
    disconnect a block in them. */
module Tables {
  import opened BlockTree
  import opened Compact
  import Election
  import J = Journal
  import opened Options
  import Scripts

  /** A block as the chain sees it: `inputs` are the numbers of inputs of its transactions, the
      coinbase first, and `height` is the height it claims, if any. */
  datatype Block = Block(hash: Hash, prev: Hash, bits: Uint32, timestamp: int, inputs: seq<nat>, height: Option<nat>)
  {
    function TxCount(): nat {
      |inputs|
    }

    /** The transactions that spend: all but the coinbase. */
    function Spenders(): seq<nat> {
      if inputs == [] then [] else inputs[1..]
    }

    function SpendCount(): nat {
      J.TotalInputs(Spenders())
    }
  }

  /** The steward in office and the value voting against it. */
  type ElectionState = Election.ElectionState

  datatype BestState = BestState(hash: Hash, height: nat, bits: Uint32, numTxns: nat, totalTxns: nat,
                                 elect: ElectionState)

  /** The persisted summary of the best chain. */
  datatype BestRow = BestRow(hash: Hash, height: nat, totalTxns: nat, workSum: nat)

  type Row = seq<J.Vlq.Byte>

  /** The database: block bodies, the tables that mirror the best branch, and the curve by
      which the spend journal shortens keys. */
  datatype Database = Database(
    blocks: map<Hash, Block>,
    best: BestRow,
    hashIndex: map<Hash, nat>,
    heightIndex: map<nat, Hash>,
    journal: map<Hash, Row>,
    elections: map<Hash, ElectionState>,
    curve: Scripts.KeyCurve)

  function PutBlock(db: Database, state: BestState, node: BlockNode, stxos: seq<J.Spent>): Database {
    db.(best := BestRow(state.hash, state.height, state.totalTxns, node.workSum),
        elections := db.elections[node.hash := state.elect],
        hashIndex := db.hashIndex[node.hash := node.height],
        heightIndex := db.heightIndex[node.height := node.hash],
        journal := db.journal[node.hash := J.JournalBytes(stxos, db.curve)])
  }

  /** The work sum written is the removed node's own, not its parent's. */
  function RemoveBlock(db: Database, state: BestState, node: BlockNode): Database {
    db.(best := BestRow(state.hash, state.height, state.totalTxns, node.workSum),
        hashIndex := db.hashIndex - {node.hash},
        heightIndex := db.heightIndex - {node.height},
        journal := db.journal - {node.hash})
  }

  // ----- What the tables say of a branch -----

  ghost predicate BodiesStored(branch: seq<BlockNode>, blocks: map<Hash, Block>) {
    forall i :: 0 <= i < |branch| ==> branch[i].hash in blocks
  }

  ghost function TotalTxns(branch: seq<BlockNode>, blocks: map<Hash, Block>): (total: nat)
    requires BodiesStored(branch, blocks)
  {
    if branch == [] then 0
    else TotalTxns(branch[..|branch| - 1], blocks) + blocks[branch[|branch| - 1].hash].TxCount()
  }

  /** Storing one more body does not change the count. */
  lemma {:induction false} TotalTxnsFrame(branch: seq<BlockNode>, blocks: map<Hash, Block>, hash: Hash, block: Block)
    requires BodiesStored(branch, blocks) && hash !in blocks
    ensures TotalTxns(branch, blocks) == TotalTxns(branch, blocks[hash := block])
  {
    if branch != [] {
      TotalTxnsFrame(branch[..|branch| - 1], blocks, hash, block);
    }
  }

  /** The two tables are inverse to each other and both list exactly the branch. */
  ghost predicate IndexesMatch(branch: seq<BlockNode>, hashIndex: map<Hash, nat>, heightIndex: map<nat, Hash>) {
    && (forall h :: h in heightIndex <==> 0 <= h < |branch|)
    && (forall h :: 0 <= h < |branch| ==> heightIndex[h] == branch[h].hash)
    && (forall x :: x in hashIndex ==> hashIndex[x] < |branch| && branch[hashIndex[x]].hash == x)
    && (forall h :: 0 <= h < |branch| ==> branch[h].hash in hashIndex && hashIndex[branch[h].hash] == h)
  }

  /** Spends are journalled for exactly the blocks above genesis. */
  ghost predicate JournalMatches(branch: seq<BlockNode>, hashIndex: map<Hash, nat>, journal: map<Hash, Row>)
    requires branch != []
  {
    forall x :: x in journal <==> x in hashIndex && x != branch[0].hash
  }

  /** The spent outputs of every block above genesis can be read. */
  ghost predicate JournalReads(branch: seq<BlockNode>, db: Database) {
    forall i :: 1 <= i < |branch| ==> RowReads(branch[i].hash, db)
  }

  ghost predicate RowReads(hash: Hash, db: Database) {
    && hash in db.journal && hash in db.blocks
    && J.ReadJournal(db.journal[hash], db.blocks[hash].SpendCount(), db.curve).Entries?
  }

  /** Every block of the branch has an election record. */
  ghost predicate ElectionsKept(branch: seq<BlockNode>, elections: map<Hash, ElectionState>) {
    forall i :: 0 <= i < |branch| ==> branch[i].hash in elections
  }

  ghost predicate SnapshotMatches(branch: seq<BlockNode>, db: Database, snap: BestState)
    requires branch != [] && BodiesStored(branch, db.blocks) && ElectionsKept(branch, db.elections)
  {
    var tip := branch[|branch| - 1];
    && snap == BestState(tip.hash, tip.height, tip.bits, db.blocks[tip.hash].TxCount(),
                         TotalTxns(branch, db.blocks), db.elections[tip.hash])
    && db.best.hash == tip.hash && db.best.height == tip.height && db.best.totalTxns == snap.totalTxns
  }

  /** The tables and the snapshot say what the branch says. */
  ghost predicate Mirrors(branch: seq<BlockNode>, db: Database, snap: BestState) {
    && branch != [] && BodiesStored(branch, db.blocks)
    && IndexesMatch(branch, db.hashIndex, db.heightIndex)
    && JournalMatches(branch, db.hashIndex, db.journal)
    && JournalReads(branch, db)
    && ElectionsKept(branch, db.elections)
    && SnapshotMatches(branch, db, snap)
  }

  // ----- Creating -----

  function GenesisSnapshot(node: BlockNode, block: Block, elect: ElectionState): BestState {
    BestState(node.hash, node.height, node.bits, block.TxCount(), block.TxCount(), elect)
  }

  function GenesisDatabase(node: BlockNode, block: Block, elect: ElectionState, curve: Scripts.KeyCurve): Database {
    Database(map[block.hash := block], BestRow(node.hash, node.height, block.TxCount(), node.workSum),
             map[node.hash := node.height], map[node.height := node.hash], map[], map[node.hash := elect], curve)
  }

  lemma GenesisMirrors(node: BlockNode, block: Block, elect: ElectionState, curve: Scripts.KeyCurve)
    requires node.hash == block.hash && node.height == 0
    ensures Mirrors([node], GenesisDatabase(node, block, elect, curve), GenesisSnapshot(node, block, elect))
  {
    assert [node][..0] == [];
  }

  /** Storing the body of a block that is not on the branch keeps the mirror. */
  lemma StoreMirrors(branch: seq<BlockNode>, db: Database, snap: BestState, block: Block)
    requires Mirrors(branch, db, snap) && block.hash !in db.blocks
    ensures Mirrors(branch, db.(blocks := db.blocks[block.hash := block]), snap)
  {
    hide RowReads;
    TotalTxnsFrame(branch, db.blocks, block.hash, block);
    forall i | 1 <= i < |branch|
      ensures RowReads(branch[i].hash, db.(blocks := db.blocks[block.hash := block]))
    {
      RowKept(branch[i].hash, db, db.(blocks := db.blocks[block.hash := block]));
    }
  }

  lemma RowKept(hash: Hash, db: Database, db': Database)
    requires RowReads(hash, db) && hash in db'.journal && hash in db'.blocks && db'.curve == db.curve
    requires db'.journal[hash] == db.journal[hash] && db'.blocks[hash] == db.blocks[hash]
    ensures RowReads(hash, db')
  {
  }

  // ----- Connecting -----

  /** The snapshot taken when a block is connected on top of `snap`. */
  function SnapshotAfter(snap: BestState, node: BlockNode, block: Block, elect: ElectionState): BestState {
    BestState(node.hash, node.height, node.bits, block.TxCount(), snap.totalTxns + block.TxCount(), elect)
  }

  ghost predicate NewOn(branch: seq<BlockNode>, node: BlockNode) {
    node.height == |branch| && forall i :: 0 <= i < |branch| ==> branch[i].hash != node.hash
  }

  lemma PutIndexes(branch: seq<BlockNode>, hashIndex: map<Hash, nat>, heightIndex: map<nat, Hash>, node: BlockNode)
    requires IndexesMatch(branch, hashIndex, heightIndex) && NewOn(branch, node)
    ensures IndexesMatch(branch + [node], hashIndex[node.hash := node.height], heightIndex[node.height := node.hash])
    ensures node.hash !in hashIndex && node.height !in heightIndex
  {
  }

  lemma PutSnapshot(branch: seq<BlockNode>, db: Database, snap: BestState, node: BlockNode, elect: ElectionState,
                    stxos: seq<J.Spent>)
    requires Mirrors(branch, db, snap) && node.hash in db.blocks
    ensures
      var state := SnapshotAfter(snap, node, db.blocks[node.hash], elect);
      var db' := PutBlock(db, state, node, stxos);
      && BodiesStored(branch + [node], db'.blocks) && ElectionsKept(branch + [node], db'.elections)
      && SnapshotMatches(branch + [node], db', state)
  {
    assert (branch + [node])[..|branch|] == branch;
  }

  /** The row put for a block gives back its spent outputs, as the journal stores them. */
  lemma PutRow(db: Database, state: BestState, node: BlockNode, stxos: seq<J.Spent>)
    requires node.hash in db.blocks && |stxos| == db.blocks[node.hash].SpendCount()
    ensures
      var db' := PutBlock(db, state, node, stxos);
      && RowReads(node.hash, db')
      && J.ReadJournal(db'.journal[node.hash], |stxos|, db'.curve) == J.Entries(J.AllRecovered(stxos))
    ensures J.AllRecovered(stxos) == stxos <==> J.AllStorable(stxos)
  {
    hide J.ReadJournal, J.JournalBytes, J.AllRecovered, J.AllStorable;
    J.BlockJournalRoundTrip(stxos, db.blocks[node.hash].Spenders(), db.curve);
  }

  lemma PutReads(branch: seq<BlockNode>, db: Database, state: BestState, node: BlockNode, stxos: seq<J.Spent>)
    requires JournalReads(branch, db) && node.hash in db.blocks && NewOn(branch, node) && branch != []
    requires |stxos| == db.blocks[node.hash].SpendCount()
    ensures JournalReads(branch + [node], PutBlock(db, state, node, stxos))
  {
    hide RowReads;
    var db' := PutBlock(db, state, node, stxos);
    PutRow(db, state, node, stxos);
    forall i | 1 <= i < |branch|
      ensures RowReads(branch[i].hash, db')
    {
      assert RowReads(branch[i].hash, db);
      RowPut(branch[i].hash, db, state, node, stxos);
    }
  }

  lemma RowPut(hash: Hash, db: Database, state: BestState, node: BlockNode, stxos: seq<J.Spent>)
    requires RowReads(hash, db) && hash != node.hash
    ensures RowReads(hash, PutBlock(db, state, node, stxos))
  {
  }

  /** Connecting a block keeps the mirror. */
  lemma PutMirrors(branch: seq<BlockNode>, db: Database, snap: BestState, node: BlockNode, elect: ElectionState,
                   stxos: seq<J.Spent>)
    requires Mirrors(branch, db, snap) && node.hash in db.blocks && NewOn(branch, node)
    requires |stxos| == db.blocks[node.hash].SpendCount()
    ensures
      var state := SnapshotAfter(snap, node, db.blocks[node.hash], elect);
      Mirrors(branch + [node], PutBlock(db, state, node, stxos), state)
  {
    PutIndexes(branch, db.hashIndex, db.heightIndex, node);
    PutSnapshot(branch, db, snap, node, elect, stxos);
    PutReads(branch, db, SnapshotAfter(snap, node, db.blocks[node.hash], elect), node, stxos);
  }

  // ----- Disconnecting -----

  /** The snapshot taken when `block` is disconnected and `prev` becomes the tip. */
  function SnapshotBefore(snap: BestState, block: Block, prev: BlockNode, prevBlock: Block,
                          elect: ElectionState): BestState
    requires block.TxCount() <= snap.totalTxns
  {
    BestState(prev.hash, prev.height, prev.bits, prevBlock.TxCount(), snap.totalTxns - block.TxCount(), elect)
  }

  lemma RemoveIndexes(branch: seq<BlockNode>, hashIndex: map<Hash, nat>, heightIndex: map<nat, Hash>)
    requires IndexesMatch(branch, hashIndex, heightIndex) && branch != [] && branch[|branch| - 1].height == |branch| - 1
    ensures
      var node := branch[|branch| - 1];
      IndexesMatch(branch[..|branch| - 1], hashIndex - {node.hash}, heightIndex - {node.height})
  {
  }

  lemma RemoveReads(branch: seq<BlockNode>, db: Database, state: BestState)
    requires JournalReads(branch, db) && branch != [] && IndexesMatch(branch, db.hashIndex, db.heightIndex)
    ensures JournalReads(branch[..|branch| - 1], RemoveBlock(db, state, branch[|branch| - 1]))
  {
    hide RowReads;
    var last := branch[|branch| - 1];
    forall i | 1 <= i < |branch| - 1
      ensures RowReads(branch[i].hash, RemoveBlock(db, state, last))
    {
      assert RowReads(branch[i].hash, db) && branch[i].hash != last.hash;
      RowLeft(branch[i].hash, db, state, last);
    }
  }

  lemma RowLeft(hash: Hash, db: Database, state: BestState, node: BlockNode)
    requires RowReads(hash, db) && hash != node.hash
    ensures RowReads(hash, RemoveBlock(db, state, node))
  {
  }

  /** A block that has a parent can always be disconnected, and that keeps the mirror. */
  lemma RemoveMirrors(branch: seq<BlockNode>, db: Database, snap: BestState)
    requires Mirrors(branch, db, snap) && |branch| >= 2 && branch[|branch| - 1].height == |branch| - 1
    ensures
      var node, prev := branch[|branch| - 1], branch[|branch| - 2];
      && db.blocks[node.hash].TxCount() <= snap.totalTxns
      && var state := SnapshotBefore(snap, db.blocks[node.hash], prev, db.blocks[prev.hash], db.elections[prev.hash]);
         Mirrors(branch[..|branch| - 1], RemoveBlock(db, state, node), state)
  {
    hide RowReads;
    RemoveIndexes(branch, db.hashIndex, db.heightIndex);
    RemoveReads(branch, db, SnapshotBefore(snap, db.blocks[branch[|branch| - 1].hash], branch[|branch| - 2],
      db.blocks[branch[|branch| - 2].hash], db.elections[branch[|branch| - 2].hash]));
    assert branch[..|branch| - 1][|branch| - 2] == branch[|branch| - 2];
  }

  /** Disconnecting a block just connected restores the tables, whatever the snapshots. */
  lemma RemoveUndoesPut(branch: seq<BlockNode>, db: Database, snap: BestState, node: BlockNode, stxos: seq<J.Spent>,
                        state: BestState, state': BestState)
    requires Mirrors(branch, db, snap) && NewOn(branch, node)
    ensures
      var undone := RemoveBlock(PutBlock(db, state, node, stxos), state', node);
      undone.hashIndex == db.hashIndex && undone.heightIndex == db.heightIndex && undone.journal == db.journal
  {
    PutIndexes(branch, db.hashIndex, db.heightIndex, node);
    AddRemove(db.hashIndex, node.hash, node.height);
    AddRemove(db.heightIndex, node.height, node.hash);
    AddRemove(db.journal, node.hash, J.JournalBytes(stxos, db.curve));
  }

  lemma AddRemove<K, V>(m: map<K, V>, k: K, v: V)
    requires k !in m
    ensures m[k := v] - {k} == m
  {
  }

  // ----- Moving to another branch -----

  /** How a block's election state follows from its parent's, and the output that each of its
      inputs spends. */
  datatype Effects = Effects(elect: (Hash, ElectionState) -> ElectionState, spends: (Hash, nat) -> J.Spent)

  /** The outputs a block spends, one for each input. */
  function SpentBy(effects: Effects, hash: Hash, block: Block): (stxos: seq<J.Spent>)
    ensures |stxos| == block.SpendCount()
  {
    seq<J.Spent>(block.SpendCount(), (i: nat) => effects.spends(hash, i))
  }

  /** The election records once the line is connected from height `k` up to `j`: each follows
      from its parent's. */
  ghost function Elected(elections: map<Hash, ElectionState>, line: seq<BlockNode>, k: nat, j: nat,
                         effects: Effects): map<Hash, ElectionState>
    requires 1 <= k <= j <= |line|
    decreases j
  {
    if j == k then elections
    else
      var before := Elected(elections, line, k, j - 1, effects);
      before[line[j - 1].hash := effects.elect(line[j - 1].hash, RecordOf(before, line[j - 2].hash))]
  }

  ghost function RecordOf(elections: map<Hash, ElectionState>, hash: Hash): ElectionState {
    if hash in elections then elections[hash] else Election.ElectionState([], 0)
  }

  /** The journal once the line is connected from height `k` up to `j`. */
  ghost function Journalled(journal: map<Hash, Row>, line: seq<BlockNode>, k: nat, j: nat, effects: Effects,
                            db: Database): map<Hash, Row>
    requires 1 <= k <= j <= |line|
    decreases j
  {
    if j == k then journal
    else
      Journalled(journal, line, k, j - 1, effects, db)[line[j - 1].hash := JournalRow(effects, line[j - 1].hash, db)]
  }

  /** The journal row of a block. */
  ghost function JournalRow(effects: Effects, hash: Hash, db: Database): Row {
    if hash in db.blocks then J.JournalBytes(SpentBy(effects, hash, db.blocks[hash]), db.curve) else []
  }

  /** Rows depend on bodies and curve only. */
  lemma {:induction false} JournalledFrame(journal: map<Hash, Row>, line: seq<BlockNode>, k: nat, j: nat,
                                           effects: Effects, db: Database, db': Database)
    requires 1 <= k <= j <= |line| && db'.blocks == db.blocks && db'.curve == db.curve
    ensures Journalled(journal, line, k, j, effects, db') == Journalled(journal, line, k, j, effects, db)
    decreases j
  {
    if j > k {
      JournalledFrame(journal, line, k, j - 1, effects, db, db');
    }
  }

  /** The hashes of a branch from height `k` up. */
  ghost function Above(branch: seq<BlockNode>, k: nat): set<Hash> {
    set i | k <= i < |branch| :: branch[i].hash
  }

  /** What becomes of the records that the branch itself does not determine, when the best
      branch moves to a line that shares its first `k` nodes. */
  ghost predicate Moved(db: Database, db': Database, branch: seq<BlockNode>, line: seq<BlockNode>, k: nat,
                        effects: Effects) {
    && 1 <= k < |line| && db'.curve == db.curve
    && db'.elections == Elected(db.elections, line, k, |line|, effects)
    && db'.journal == Journalled(db.journal - Above(branch, k), line, k, |line|, effects, db')
    && db'.best.workSum == line[|line| - 1].workSum
  }

  lemma MovedWork(db: Database, db': Database, branch: seq<BlockNode>, line: seq<BlockNode>, k: nat, effects: Effects)
    requires Moved(db, db', branch, line, k, effects)
    ensures line != [] && db'.best.workSum == line[|line| - 1].workSum
  {
  }

  /** Connecting one block on top. */
  lemma MovedByOne(db: Database, db': Database, branch: seq<BlockNode>, node: BlockNode, effects: Effects)
    requires branch != [] && db'.best.workSum == node.workSum && db'.curve == db.curve
    requires db'.elections == db.elections[node.hash := effects.elect(node.hash,
      RecordOf(db.elections, branch[|branch| - 1].hash))]
    requires db'.journal == db.journal[node.hash := JournalRow(effects, node.hash, db')]
    ensures Moved(db, db', branch, branch + [node], |branch|, effects)
  {
    assert Above(branch, |branch|) == {} && db.journal - {} == db.journal;
  }

  /** Taking one more block off. */
  lemma AboveOneMore(branch: seq<BlockNode>, k: nat, journal: map<Hash, Row>)
    requires k < |branch|
    ensures journal - Above(branch, k + 1) - {branch[k].hash} == journal - Above(branch, k)
  {
    assert Above(branch, k) == Above(branch, k + 1) + {branch[k].hash};
  }

  lemma AboveNone(branch: seq<BlockNode>, journal: map<Hash, Row>)
    ensures journal - Above(branch, |branch|) == journal
  {
  }
}
