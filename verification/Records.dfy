/** The election records of the chain: when they tell the value of the unspent outputs that
    vote against their stewards. */
module Records {
  import opened BlockTree
  import opened BlockIndex
  import opened ChainView
  import opened Chain
  import opened Election
  import opened ForkChoice
  import Scripts
  import T = Tables

  /** What there is to count: the outputs unspent at each block, how scripts vote, and how much
      money there is at each block. */
  datatype Accounts = Accounts(prevOf: Hash -> Hash, utxos: Hash -> Utxos, votes: Votes, money: Hash -> nat)

  /** The views through which blocks are counted; they may differ from one time to the next. */
  type Views = Hash -> Election.View

  /** A block's view takes its parent's outputs to its own, and keys stay apart. */
  ghost predicate Proper(l: Accounts, views: Views) {
    forall h {:trigger views(h)} :: ProperAt(l, views, h)
  }

  ghost predicate ProperAt(l: Accounts, views: Views, h: Hash) {
    var u := l.utxos(l.prevOf(h));
    Faithful(u, views(h)) && PadsApart(u, views(h), l.votes) && l.utxos(h) == After(u, views(h))
  }

  /** The record's disapproval is the value voting against its steward. */
  ghost predicate Right(l: Accounts, h: Hash, e: ElectionState) {
    e.disapproval == Value(l.utxos(h), Against, e.steward, l.votes)
  }

  /** The effects hold elections: a block's state is the outcome of its view on the state
      before it. */
  ghost predicate HoldsElections(l: Accounts, views: Views, effects: T.Effects) {
    forall h, e {:trigger effects.elect(h, e)} :: Elects(l, views, h, e, effects.elect(h, e))
  }

  ghost predicate Elects(l: Accounts, views: Views, h: Hash, e: ElectionState, r: ElectionState) {
    exists c :: IsOutcome(e, l.utxos(l.prevOf(h)), views(h), l.votes, l.money(h), r, c)
  }

  ghost predicate AllRight(l: Accounts, elections: map<Hash, ElectionState>) {
    forall h :: h in elections ==> Right(l, h, elections[h])
  }

  /** A block's view misses nothing against a steward: what it both created and spent weighs as
      much as what it counts though the set had it already. */
  ghost predicate Clean(l: Accounts, views: Views, h: Hash, steward: Script) {
    var u := l.utxos(l.prevOf(h));
    Value(Ephemeral(u, views(h)), Against, steward, l.votes) == Value(Restated(u, views(h)), Against, steward, l.votes)
  }

  /** A right record before a block gives a right record after it if and only if the block's
      view misses nothing against the steward. */
  lemma RightNext(l: Accounts, views: Views, effects: T.Effects, h: Hash, e: ElectionState)
    requires Proper(l, views) && HoldsElections(l, views, effects) && Right(l, l.prevOf(h), e)
    ensures Right(l, h, effects.elect(h, e)) <==> Clean(l, views, h, effects.elect(h, e).steward)
  {
    hide Faithful, PadsApart, After, IsOutcome, Value, Ephemeral, Restated;
    assert ProperAt(l, views, h) && Elects(l, views, h, e, effects.elect(h, e));
    var c :| IsOutcome(e, l.utxos(l.prevOf(h)), views(h), l.votes, l.money(h), effects.elect(h, e), c);
    DisapprovalKept(e, l.utxos(l.prevOf(h)), views(h), l.votes, l.money(h), effects.elect(h, e), c);
  }

  /** The hashes of the line commit to their parents and differ from each other. */
  ghost predicate Commits(l: Accounts, line: seq<BlockNode>) {
    && (forall i :: 0 < i < |line| ==> l.prevOf(line[i].hash) == line[i - 1].hash)
    && (forall i, j :: 0 <= i < j < |line| ==> line[i].hash != line[j].hash)
  }

  /** No view of the line from height `k` up to `j` misses anything against the steward then on
      record. */
  ghost predicate CleanLine(l: Accounts, views: Views, records: map<Hash, ElectionState>, line: seq<BlockNode>, k: nat,
                            j: nat)
    requires j <= |line|
  {
    forall i :: k <= i < j ==> Clean(l, views, line[i].hash, T.RecordOf(records, line[i].hash).steward)
  }

  ghost predicate LineRight(l: Accounts, records: map<Hash, ElectionState>, line: seq<BlockNode>, k: nat, j: nat)
    requires j <= |line|
  {
    forall i :: k <= i < j ==> line[i].hash in records && Right(l, line[i].hash, records[line[i].hash])
  }

  /** Connecting a line leaves its records right if and only if no view misses anything. */
  lemma {:induction false} LineElected(l: Accounts, views: Views, effects: T.Effects,
                                       elections: map<Hash, ElectionState>, line: seq<BlockNode>, k: nat, j: nat)
    requires Proper(l, views) && HoldsElections(l, views, effects) && Commits(l, line)
    requires 1 <= k <= j <= |line| && line[k - 1].hash in elections
    requires Right(l, line[k - 1].hash, elections[line[k - 1].hash])
    ensures
      var records := T.Elected(elections, line, k, j, effects);
      && line[j - 1].hash in records
      && (j == k ==> records == elections)
      && (LineRight(l, records, line, k, j) <==> CleanLine(l, views, records, line, k, j))
    decreases j
  {
    hide Proper, HoldsElections, Right, Clean;
    if j > k {
      LineElected(l, views, effects, elections, line, k, j - 1);
      var before := T.Elected(elections, line, k, j - 1, effects);
      LineOneMore(l, views, effects, before, line, k, j);
    }
  }

  lemma LineOneMore(l: Accounts, views: Views, effects: T.Effects, before: map<Hash, ElectionState>,
                    line: seq<BlockNode>, k: nat, j: nat)
    requires Proper(l, views) && HoldsElections(l, views, effects) && Commits(l, line)
    requires 1 <= k < j <= |line| && line[j - 2].hash in before
    requires j == k + 1 ==> Right(l, line[k - 1].hash, before[line[k - 1].hash])
    requires LineRight(l, before, line, k, j - 1) <==> CleanLine(l, views, before, line, k, j - 1)
    ensures
      var h := line[j - 1].hash;
      var records := before[h := effects.elect(h, before[line[j - 2].hash])];
      LineRight(l, records, line, k, j) <==> CleanLine(l, views, records, line, k, j)
  {
    hide Proper, HoldsElections, Right, Clean;
    var h, e := line[j - 1].hash, before[line[j - 2].hash];
    var records := before[h := effects.elect(h, e)];
    RightOneMore(l, before, line, k, j, records[h]);
    CleanOneMore(l, views, before, line, k, j, records[h]);
    if LineRight(l, before, line, k, j - 1) {
      RightNext(l, views, effects, h, e);
    }
  }

  lemma RightOneMore(l: Accounts, before: map<Hash, ElectionState>, line: seq<BlockNode>, k: nat, j: nat,
                     e: ElectionState)
    requires Commits(l, line) && 1 <= k < j <= |line|
    ensures LineRight(l, before[line[j - 1].hash := e], line, k, j) <==>
      LineRight(l, before, line, k, j - 1) && Right(l, line[j - 1].hash, e)
  {
    hide Right;
    var records := before[line[j - 1].hash := e];
    assert forall i :: k <= i < j - 1 && line[i].hash in before ==> records[line[i].hash] == before[line[i].hash];
    assert LineRight(l, records, line, k, j) ==> Right(l, line[j - 1].hash, records[line[j - 1].hash]);
  }

  lemma CleanOneMore(l: Accounts, views: Views, before: map<Hash, ElectionState>, line: seq<BlockNode>, k: nat, j: nat,
                     e: ElectionState)
    requires Commits(l, line) && 1 <= k < j <= |line|
    ensures CleanLine(l, views, before[line[j - 1].hash := e], line, k, j) <==>
      CleanLine(l, views, before, line, k, j - 1) && Clean(l, views, line[j - 1].hash, e.steward)
  {
    hide Clean;
    var records := before[line[j - 1].hash := e];
    assert forall i :: k <= i < j - 1 ==> T.RecordOf(records, line[i].hash) == T.RecordOf(before, line[i].hash);
    assert CleanLine(l, views, records, line, k, j) ==>
        Clean(l, views, line[j - 1].hash, T.RecordOf(records, line[j - 1].hash).steward);
  }

  /** Connecting a line touches the records of its own blocks only. */
  lemma {:induction false} ElectedElsewhere(elections: map<Hash, ElectionState>, line: seq<BlockNode>, k: nat, j: nat,
                                            effects: T.Effects, h: Hash)
    requires 1 <= k <= j <= |line| && forall i :: k <= i < j ==> line[i].hash != h
    ensures
      var records := T.Elected(elections, line, k, j, effects);
      (h in records <==> h in elections) && (h in records ==> records[h] == elections[h])
    decreases j
  {
    if j > k {
      ElectedElsewhere(elections, line, k, j - 1, effects, h);
    }
  }

  lemma {:induction false} ElectedThere(elections: map<Hash, ElectionState>, line: seq<BlockNode>, k: nat, j: nat,
                                        effects: T.Effects, i: nat)
    requires 1 <= k <= i < j <= |line|
    ensures line[i].hash in T.Elected(elections, line, k, j, effects)
    decreases j
  {
    if i < j - 1 {
      ElectedThere(elections, line, k, j - 1, effects, i);
    }
  }

  /** When all records were right, connecting a line leaves all of them right if and only if
      no view misses anything. */
  lemma {:induction false} ElectedRight(l: Accounts, views: Views, effects: T.Effects,
                                        elections: map<Hash, ElectionState>, line: seq<BlockNode>, k: nat, j: nat)
    requires Proper(l, views) && HoldsElections(l, views, effects) && AllRight(l, elections) && Commits(l, line)
    requires 1 <= k <= j <= |line| && line[k - 1].hash in elections
    ensures
      var records := T.Elected(elections, line, k, j, effects);
      AllRight(l, records) <==> CleanLine(l, views, records, line, k, j)
  {
    hide Proper, HoldsElections, Right, CleanLine, T.Elected, Commits;
    var records := T.Elected(elections, line, k, j, effects);
    LineElected(l, views, effects, elections, line, k, j);
    forall i | k <= i < j
      ensures line[i].hash in records
    {
      ElectedThere(elections, line, k, j, effects, i);
    }
    if LineRight(l, records, line, k, j) {
      forall h | h in records
        ensures Right(l, h, records[h])
      {
        if forall i :: k <= i < j ==> line[i].hash != h {
          ElectedElsewhere(elections, line, k, j, effects, h);
        }
      }
    }
  }

  /** Every stored block's hash commits to its parent. */
  ghost predicate Bodies(l: Accounts, blocks: map<Hash, T.Block>) {
    forall h :: h in blocks ==> blocks[h].prev == l.prevOf(h)
  }

  lemma BranchCommits(l: Accounts, chain: BlockChain)
    requires chain.Consistent() && Bodies(l, chain.db.blocks)
    ensures Commits(l, chain.bestChain.Branch())
  {
    var branch := chain.bestChain.Branch();
    forall i | 0 < i < |branch|
      ensures l.prevOf(branch[i].hash) == branch[i - 1].hash
    {
      assert branch[i] in chain.index.nodes && BodyMatches(branch[i], chain.db.blocks);
      assert branch[i].parent == branch[i - 1];
    }
  }

  /** The records of a fresh chain are right if and only if nothing votes against its first
      steward. */
  method NewCounted(block: T.Block, steward: Script, curve: Scripts.KeyCurve, ghost l: Accounts)
    returns (chain: BlockChain)
    ensures chain.Valid() && fresh(chain) && fresh(chain.index) && fresh(chain.index.nodes) && fresh(chain.bestChain)
    ensures Bodies(l, chain.db.blocks) <==> block.prev == l.prevOf(block.hash)
    ensures AllRight(l, chain.db.elections) <==> Value(l.utxos(block.hash), Against, steward, l.votes) == 0
  {
    hide T.Mirrors, OneTree, Index.Valid, Safe, Heaviest, Value;
    chain := new BlockChain(block, steward, curve);
    assert block.hash in chain.db.elections && block.hash in chain.db.blocks;
  }

  /** The records once the best branch has moved to a line. */
  lemma MovedRight(l: Accounts, views: Views, effects: T.Effects, db: T.Database, db': T.Database,
                   branch: seq<BlockNode>, line: seq<BlockNode>, k: nat)
    requires Proper(l, views) && HoldsElections(l, views, effects) && AllRight(l, db.elections) && Commits(l, line)
    requires T.Moved(db, db', branch, line, k, effects) && line[k - 1].hash in db.elections
    ensures AllRight(l, db'.elections) <==> CleanLine(l, views, db'.elections, line, k, |line|)
  {
    ElectedRight(l, views, effects, db.elections, line, k, |line|);
  }

  /** Along every run: a block offered to the chain leaves the records of a chain whose records
      were right as they were, when the best branch stays; when it moves, all records are right
      again if and only if no view of a block connected missed anything against its steward. */
  method AcceptCounted(chain: BlockChain, block: T.Block, oracle: Oracle, fastAdd: bool, ghost l: Accounts,
                       ghost views: Views)
    returns (isMain: bool, r: Outcome)
    requires chain.Valid() && block.hash !in chain.index.index && block.prev == l.prevOf(block.hash)
    requires Proper(l, views) && HoldsElections(l, views, oracle.effects) && Bodies(l, chain.db.blocks)
    modifies chain, chain.index, chain.index.nodes, chain.bestChain
    ensures chain.Valid() && Bodies(l, chain.db.blocks)
    ensures old(AllRight(l, chain.db.elections)) ==>
      var branch, line := old(chain.bestChain.Branch()), chain.bestChain.Branch();
      if line == branch then chain.db.elections == old(chain.db.elections)
      else
        AllRight(l, chain.db.elections) <==>
        CleanLine(l, views, chain.db.elections, line, CommonLength(line, branch), |line|)
  {
    hide Proper, HoldsElections, AllRight, T.Mirrors, OneTree, Index.Valid, Safe, Heaviest, Offered, Answered,
      T.Elected, T.Journalled, Commits;
    hide Linked, CleanLine, CommonLength;
    ghost var branch, db, books := chain.bestChain.Branch(), chain.db, chain.CurrentBooks();
    RecordsThere(chain);
    isMain, r := chain.MaybeAcceptBlock(block, oracle, fastAdd);
    ghost var line := chain.bestChain.Branch();
    NotFiled(books, block, oracle, fastAdd, chain.CurrentBooks());
    if line != branch && AllRight(l, db.elections) {
      BranchCommits(l, chain);
      ghost var k := CommonLength(line, branch);
      assert line[k - 1] == line[..k][k - 1] == branch[..k][k - 1] == branch[k - 1];
      MovedRight(l, views, oracle.effects, db, chain.db, branch, line, k);
    }
  }

  /** A block that is not filed moves nothing. */
  lemma NotFiled(b: Books, block: T.Block, oracle: Oracle, fastAdd: bool, b': Books)
    requires Offered(b, block, oracle, fastAdd, b') && block.hash !in b.index
    ensures b'.index == b.index ==> b' == b
  {
  }

  lemma RecordsThere(chain: BlockChain)
    requires chain.BranchValid()
    ensures forall i :: 0 <= i < chain.bestChain.len ==> chain.bestChain.Branch()[i].hash in chain.db.elections
  {
  }
}
