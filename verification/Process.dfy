/** Block processing: duplicates, orphans, and the accepted blocks that orphans were
    waiting for. */
module Process {
  import opened BlockTree
  import opened Options
  import opened Tables
  import opened ForkChoice
  import opened Chain
  import Election
  import Scripts
  import opened Orphans

  // ----- Offering orphans -----

  ghost function Hashes(list: seq<Orphan>): set<Hash> {
    set o | o in list :: o.block.hash
  }

  ghost predicate ParentFirst(hash: Hash, offered: seq<Orphan>) {
    forall i :: 0 <= i < |offered| ==> offered[i].block.prev in {hash} + Hashes(offered[..i])
  }

  /** The offered orphans were in the pool and have left it, each once, and each after its
      parent. */
  ghost predicate Offering(pool: map<Hash, Orphan>, left: map<Hash, Orphan>, hash: Hash, offered: seq<Orphan>) {
    && left == pool - Hashes(offered) && Distinct(offered) && ParentFirst(hash, offered)
    && forall o :: o in offered ==> o.block.hash in pool && pool[o.block.hash] == o
  }

  /** Only parents in `open` still have children waiting. */
  ghost predicate Pending(left: map<Hash, Orphan>, hash: Hash, offered: seq<Orphan>, open: set<Hash>) {
    forall h :: h in left && left[h].block.prev in {hash} + Hashes(offered) ==> left[h].block.prev in open
  }

  lemma HashesOneMore(offered: seq<Orphan>, o: Orphan)
    ensures Hashes(offered + [o]) == Hashes(offered) + {o.block.hash}
  {
    assert forall x :: x in offered + [o] <==> x in offered || x == o;
  }

  lemma ParentFirstOneMore(hash: Hash, offered: seq<Orphan>, o: Orphan)
    requires ParentFirst(hash, offered) && o.block.prev in {hash} + Hashes(offered)
    ensures ParentFirst(hash, offered + [o])
  {
    var more := offered + [o];
    forall i | 0 <= i < |more|
      ensures more[i].block.prev in {hash} + Hashes(more[..i])
    {
      assert more[..i] == offered[..i];
      assert i == |offered| ==> offered[..i] == offered;
    }
  }

  lemma DistinctOneMore(offered: seq<Orphan>, o: Orphan)
    requires Distinct(offered) && o.block.hash !in Hashes(offered)
    ensures Distinct(offered + [o])
  {
    forall i | 0 <= i < |offered|
      ensures offered[i].block.hash != o.block.hash
    {
      assert offered[i] in offered && offered[i].block.hash in Hashes(offered);
    }
  }

  lemma OfferOne(pool: map<Hash, Orphan>, left: map<Hash, Orphan>, hash: Hash, offered: seq<Orphan>, o: Orphan)
    requires Offering(pool, left, hash, offered)
    requires o.block.hash in left && left[o.block.hash] == o && o.block.prev in {hash} + Hashes(offered)
    ensures Offering(pool, left - {o.block.hash}, hash, offered + [o])
    ensures Hashes(offered + [o]) == Hashes(offered) + {o.block.hash}
    ensures forall open :: Pending(left, hash, offered, open) ==>
      Pending(left - {o.block.hash}, hash, offered + [o], open + {o.block.hash})
  {
    hide Distinct, ParentFirst, Hashes;
    HashesOneMore(offered, o);
    ParentFirstOneMore(hash, offered, o);
    DistinctOneMore(offered, o);
  }

  /** A chain of orphans, each the parent of the next, that starts from a child of `hash`. */
  ghost predicate IsPath(pool: map<Hash, Orphan>, hash: Hash, path: seq<Hash>) {
    && path != [] && (forall i :: 0 <= i < |path| ==> path[i] in pool)
    && pool[path[0]].block.prev == hash
    && (forall i :: 0 < i < |path| ==> pool[path[i]].block.prev == path[i - 1])
  }

  ghost predicate Reachable(pool: map<Hash, Orphan>, hash: Hash, h: Hash) {
    exists path :: IsPath(pool, hash, path) && path[|path| - 1] == h
  }

  lemma ReachableStep(pool: map<Hash, Orphan>, hash: Hash, h: Hash)
    requires h in pool && (pool[h].block.prev == hash || Reachable(pool, hash, pool[h].block.prev))
    ensures Reachable(pool, hash, h)
  {
    if pool[h].block.prev == hash {
      assert IsPath(pool, hash, [h]);
    } else {
      var path :| IsPath(pool, hash, path) && path[|path| - 1] == pool[h].block.prev;
      assert IsPath(pool, hash, path + [h]);
    }
  }

  lemma {:induction false} OfferedReachable(pool: map<Hash, Orphan>, left: map<Hash, Orphan>, hash: Hash,
                                            offered: seq<Orphan>, i: nat)
    requires Offering(pool, left, hash, offered) && i < |offered|
    ensures Reachable(pool, hash, offered[i].block.hash)
    decreases i
  {
    hide Reachable, Distinct;
    var o := offered[i];
    assert o in offered;
    if o.block.prev != hash {
      assert o.block.prev in Hashes(offered[..i]);
      var p :| p in offered[..i] && p.block.hash == o.block.prev;
      var j :| 0 <= j < i && offered[j] == p;
      OfferedReachable(pool, left, hash, offered, j);
    }
    ReachableStep(pool, hash, o.block.hash);
  }

  lemma {:induction false} PathOffered(pool: map<Hash, Orphan>, left: map<Hash, Orphan>, hash: Hash,
                                       offered: seq<Orphan>, path: seq<Hash>)
    requires Offering(pool, left, hash, offered) && Pending(left, hash, offered, {}) && IsPath(pool, hash, path)
    ensures path[|path| - 1] in Hashes(offered)
    decreases |path|
  {
    var h := path[|path| - 1];
    if |path| > 1 {
      PathOffered(pool, left, hash, offered, path[..|path| - 1]);
      assert pool[h].block.prev == path[|path| - 2] == path[..|path| - 1][|path| - 2];
    }
    assert h !in left;
  }

  /** When nothing is pending, exactly the reachable orphans have been offered. */
  lemma ExactlyReachableOffered(pool: map<Hash, Orphan>, left: map<Hash, Orphan>, hash: Hash, offered: seq<Orphan>)
    requires Offering(pool, left, hash, offered) && Pending(left, hash, offered, {})
    ensures forall h :: h in Hashes(offered) <==> Reachable(pool, hash, h)
    ensures forall h :: h in pool && h !in left <==> Reachable(pool, hash, h)
  {
    forall h
      ensures h in Hashes(offered) <==> Reachable(pool, hash, h)
    {
      if h in Hashes(offered) {
        var o :| o in offered && o.block.hash == h;
        var i :| 0 <= i < |offered| && offered[i] == o;
        OfferedReachable(pool, left, hash, offered, i);
      }
      if Reachable(pool, hash, h) {
        var path :| IsPath(pool, hash, path) && path[|path| - 1] == h;
        PathOffered(pool, left, hash, offered, path);
      }
    }
  }

  // ----- Nothing acceptable is left waiting -----

  /** Every waiting orphan's parent is unknown, known invalid, or in `open`. */
  ghost predicate Settled(orphans: map<Hash, Orphan>, index: map<Hash, BlockNode>, st: Statuses, open: set<Hash>) {
    forall h {:trigger Waits(orphans[h], index, st, open)} :: h in orphans ==> Waits(orphans[h], index, st, open)
  }

  ghost predicate Waits(o: Orphan, index: map<Hash, BlockNode>, st: Statuses, open: set<Hash>) {
    var p := o.block.prev;
    p in index ==> p in open || (index[p] in st && KnownInvalid(st[index[p]]))
  }

  ghost predicate Apart(orphans: map<Hash, Orphan>, index: map<Hash, BlockNode>) {
    forall h :: h in orphans ==> h !in index
  }

  /** Offering a block keeps what waits settled, but for its own children; and for those
      too when it breaks a rule. */
  lemma SettledAfterOffer(orphans: map<Hash, Orphan>, b: Books, block: Block, oracle: Oracle, fastAdd: bool, b': Books,
                          isMain: bool, r: Outcome, open: set<Hash>)
    requires Offered(b, block, oracle, fastAdd, b') && Answered(b, block, oracle, fastAdd, b', isMain, r)
    ensures Settled(orphans, b.index, b.state.st, open) ==> Settled(orphans, b'.index, b'.state.st, open + {block.hash})
    ensures r.Failed? && r.error != StoreError && Settled(orphans, b.index, b.state.st, open) ==>
      Settled(orphans, b'.index, b'.state.st, open)
  {
    hide Safe, Step;
    if Refusal(b.index, b.state.st, block, oracle).None? {
      StepSafe(b.state, ArrivalOf(block, oracle, fastAdd, b'));
    }
    forall h | h in orphans && Waits(orphans[h], b.index, b.state.st, open)
      ensures Waits(orphans[h], b'.index, b'.state.st, open + {block.hash})
      ensures r.Failed? && r.error != StoreError ==> Waits(orphans[h], b'.index, b'.state.st, open)
    {
    }
  }

  lemma IndexAfterOffer(b: Books, block: Block, oracle: Oracle, fastAdd: bool, b': Books)
    requires Offered(b, block, oracle, fastAdd, b')
    ensures forall h :: h in b'.index ==> h in b.index || h == block.hash
  {
  }

  /** The books after each orphan was offered, one after the other. */
  ghost predicate IsTrace(trace: seq<Books>, offered: seq<Orphan>, oracle: Oracle, fastAdd: bool) {
    && |trace| == |offered| + 1
    && forall i :: 0 <= i < |offered| ==> Offered(trace[i], offered[i].block, oracle, fastAdd, trace[i + 1])
  }

  lemma TraceOneMore(trace: seq<Books>, offered: seq<Orphan>, oracle: Oracle, fastAdd: bool, o: Orphan, b: Books)
    requires IsTrace(trace, offered, oracle, fastAdd) && Offered(trace[|offered|], o.block, oracle, fastAdd, b)
    ensures IsTrace(trace + [b], offered + [o], oracle, fastAdd)
  {
    hide Offered;
  }

  lemma SettledFewer(orphans: map<Hash, Orphan>, index: map<Hash, BlockNode>, st: Statuses, open: set<Hash>, hash: Hash)
    ensures Settled(orphans, index, st, open) ==> Settled(orphans - {hash}, index, st, open)
  {
    forall h | h in orphans - {hash}
      ensures Waits(orphans[h], index, st, open) ==> Waits((orphans - {hash})[h], index, st, open)
    {
    }
  }

  ghost function Elements(queue: seq<Hash>): set<Hash> {
    set h | h in queue
  }

  /** A parent none of whose children is left is no longer pending. */
  lemma CloseParent(pool: OrphanPool, hash: Hash, offered: seq<Orphan>, index: map<Hash, BlockNode>, st: Statuses,
                    p: Hash, open: set<Hash>)
    requires pool.Valid() && Children(pool.prevOrphans, p) == []
    requires Pending(pool.orphans, hash, offered, {p} + open)
    ensures Pending(pool.orphans, hash, offered, open)
    ensures Settled(pool.orphans, index, st, {p} + open) ==> Settled(pool.orphans, index, st, open)
  {
    forall h | h in pool.orphans
      ensures pool.orphans[h].block.prev != p
      ensures Waits(pool.orphans[h], index, st, {p} + open) ==> Waits(pool.orphans[h], index, st, open)
    {
      assert pool.orphans[h] in Children(pool.prevOrphans, pool.orphans[h].block.prev);
    }
  }

  lemma FirstChild(pool: OrphanPool, p: Hash)
    requires pool.Valid() && Children(pool.prevOrphans, p) != []
    ensures
      var o := Children(pool.prevOrphans, p)[0];
      && o.block.prev == p && o.block.hash in pool.orphans && pool.orphans[o.block.hash] == o && pool.Committed(o)
      && |pool.orphans - {o.block.hash}| == |pool.orphans| - 1
  {
    assert ListOf(pool.orphans, p, pool.prevOrphans[p]);
    assert pool.prevOrphans[p][0] in pool.prevOrphans[p];
    OrphanPool.Shrinks(pool.orphans, pool.prevOrphans[p][0].block.hash);
  }

  /** What the proof-of-work check said; a good proof tells the block's height. */
  datatype Proof = ProofSkipped | ProofBad | ProofGood(height: nat)

  /** What the checks that do not depend on the chain said. */
  datatype Checks = Checks(sanity: Verdict, proof: Proof, checkpoint: Verdict)

  function WithHeight(block: Block, proof: Proof): Block {
    if proof.ProofGood? then block.(height := Some(proof.height)) else block
  }

  /** How a block was taken in: the books once it had been offered, what the answer was,
      then the orphans offered after it and the books before and after each of them. */
  datatype History = History(accepted: Books, wasMain: bool, answer: Outcome, offered: seq<Orphan>, trace: seq<Books>)

  lemma AnswerMain(b: Books, block: Block, oracle: Oracle, fastAdd: bool, b': Books, isMain: bool, r: Outcome)
    requires Offered(b, block, oracle, fastAdd, b') && Answered(b, block, oracle, fastAdd, b', isMain, r)
    ensures isMain ==> r.Done?
  {
  }

  /** Why a block is turned away before its parent is looked at, if it is. */
  ghost function Refused(known: bool, checks: Checks): Option<Error> {
    if known then Some(DuplicateBlock)
    else if checks.sanity != Accept then Some(if checks.sanity == RuleViolation then SanityRejected else StoreError)
    else if checks.proof == ProofBad then Some(ProofRejected)
    else if checks.checkpoint != Accept
      then Some(if checks.checkpoint == RuleViolation then CheckpointRejected else StoreError)
    else None
  }

  /** A block is looked at further exactly when it is new, passes the sanity check, has no bad
      proof, and no checkpoint is against it.  An error names the first of these that fails. */
  lemma RefusedMeans(known: bool, checks: Checks)
    ensures
      var r, proved := Refused(known, checks), checks.proof != ProofBad;
      && (r == None <==> !known && checks.sanity == Accept && proved && checks.checkpoint == Accept)
      && (r == Some(DuplicateBlock) <==> known)
      && (r == Some(SanityRejected) <==> !known && checks.sanity == RuleViolation)
      && (r == Some(ProofRejected) <==> !known && checks.sanity == Accept && !proved)
      && (r == Some(CheckpointRejected) <==>
          !known && checks.sanity == Accept && proved && checks.checkpoint == RuleViolation)
      && (r == Some(StoreError) <==>
          !known && (checks.sanity == StoreFailure ||
            (checks.sanity == Accept && proved && checks.checkpoint == StoreFailure)))
  {
  }

  /** What held before and is to hold again: that nothing acceptable waits, and that the
      best chain is the heaviest.  After a store failure either may no longer hold. */
  datatype Keeps = Keeps(settled: bool, best: bool)

  class Processor {
    const chain: BlockChain
    const pool: OrphanPool

    /** The chain and the pool are each in order, and no block is in both. */
    ghost predicate Valid()
      reads chain, chain.index, chain.index.nodes, chain.bestChain, pool
    {
      chain.Valid() && pool.Valid() && Apart(pool.orphans, chain.index.index)
    }

    ghost predicate SettledBut(open: set<Hash>)
      reads chain.index, pool
    {
      Settled(pool.orphans, chain.index.index, chain.index.statuses, open)
    }

    /** No known block outweighs the best chain unless it is known invalid. */
    ghost predicate Best()
      reads chain.index, chain.bestChain
    {
      && chain.bestChain.Valid() && chain.bestChain.len > 0
      && Heaviest(chain.index.statuses, chain.bestChain.Branch())
    }

    ghost predicate Holds(keeps: Keeps, open: set<Hash>)
      reads chain.index, chain.bestChain, pool
    {
      (keeps.settled ==> SettledBut(open)) && (keeps.best ==> Best())
    }

    constructor (genesis: Block, steward: Election.Script, curve: Scripts.KeyCurve, ghost prevOf: Hash -> Hash)
      ensures Valid() && SettledBut({}) && Best() && pool.prevOf == prevOf && pool.orphans == map[]
      ensures fresh(chain) && fresh(chain.index) && fresh(chain.index.nodes) && fresh(chain.bestChain) && fresh(pool)
    {
      hide BlockChain.TreeValid, Mirrors, Safe, OrphanPool.Valid, Heaviest;
      chain := new BlockChain(genesis, steward, curve);
      pool := new OrphanPool(prevOf);
    }

    ghost function BooksNow(): Books
      reads chain.index, chain.bestChain
    {
      if chain.bestChain.Valid() then chain.CurrentBooks() else Books(chain.index.index, State(map[], []))
    }

    /** Offers a block that is not in the pool to the chain. */
    method Submit(block: Block, oracle: Oracle, fastAdd: bool, ghost open: set<Hash>, ghost keeps: Keeps)
      returns (isMain: bool, r: Outcome)
      requires Valid() && Holds(keeps, open)
      requires block.hash !in chain.index.index && block.hash !in pool.orphans
      modifies chain, chain.index, chain.index.nodes, chain.bestChain
      ensures Valid() && forall n :: n in chain.index.nodes && n !in old(chain.index.nodes) ==> fresh(n)
      ensures Offered(old(BooksNow()), block, oracle, fastAdd, BooksNow())
      ensures Answered(old(BooksNow()), block, oracle, fastAdd, BooksNow(), isMain, r)
      ensures keeps.settled ==> SettledBut(open + {block.hash})
      ensures keeps.settled && r.Failed? && r.error != StoreError ==> SettledBut(open)
      ensures keeps.best && r != Failed(StoreError) ==> Best()
      ensures r != Failed(AssertionFailure)
    {
      hide Heaviest, Settled, Offered, Answered, BlockChain.TreeValid, Mirrors, OrphanPool.Valid, SameTables;
      ghost var before := BooksNow();
      isMain, r := chain.MaybeAcceptBlock(block, oracle, fastAdd);
      SettledAfterOffer(pool.orphans, before, block, oracle, fastAdd, BooksNow(), isMain, r, open);
      IndexAfterOffer(before, block, oracle, fastAdd, BooksNow());
    }

    /** Mid-way through the orphans that descend from `hash`: some are offered, the parents
        in `open` are still to be looked at, and a heaviest best chain is still heaviest. */
    ghost predicate Progress(orphans: map<Hash, Orphan>, hash: Hash, offered: seq<Orphan>, open: set<Hash>,
                             keeps: Keeps)
      reads chain, chain.index, chain.index.nodes, chain.bestChain, pool
    {
      && Valid() && Holds(keeps, open)
      && Offering(orphans, pool.orphans, hash, offered) && Pending(pool.orphans, hash, offered, open)
    }

    /** Taking an orphan out of the pool leaves the rest settled. */
    method TakeOut(o: Orphan, ghost open: set<Hash>, ghost keeps: Keeps)
      requires Valid() && Holds(keeps, open)
      requires o.block.hash in pool.orphans && pool.orphans[o.block.hash] == o && pool.Committed(o)
      modifies pool
      ensures Valid() && pool.orphans == old(pool.orphans) - {o.block.hash} && o.block.hash !in chain.index.index
      ensures Holds(keeps, open)
    {
      hide BlockChain.Valid, Best, Settled, OrphanPool.Filed, OrphanPool.Bounded, OrphanPool.Committed, Refile, Without;
      SettledFewer(pool.orphans, chain.index.index, chain.index.statuses, open, o.block.hash);
      pool.RemoveOrphanBlock(o);
    }

    /** Takes one orphan whose parent has been dealt with out of the pool and offers it. */
    method Offer(o: Orphan, oracle: Oracle, fastAdd: bool, ghost open: set<Hash>, ghost keeps: Keeps)
      returns (r: Outcome)
      requires Valid() && Holds(keeps, open)
      requires o.block.hash in pool.orphans && pool.orphans[o.block.hash] == o && pool.Committed(o)
      modifies chain, chain.index, chain.index.nodes, chain.bestChain, pool
      ensures Valid() && forall n :: n in chain.index.nodes && n !in old(chain.index.nodes) ==> fresh(n)
      ensures pool.orphans == old(pool.orphans) - {o.block.hash}
      ensures keeps.settled ==> SettledBut(open + {o.block.hash})
      ensures Offered(old(BooksNow()), o.block, oracle, fastAdd, BooksNow())
      ensures keeps.best && r != Failed(StoreError) ==> Best()
      ensures r != Failed(AssertionFailure)
    {
      hide BlockChain.Valid, OrphanPool.Valid, Best, Settled, Apart, Offered, Answered;
      TakeOut(o, open, keeps);
      var isMain;
      isMain, r := Submit(o.block, oracle, fastAdd, open, keeps);
    }

    /** What a round of offering leaves: unless the store failed, progress with the parents
        in `open` still to be looked at. */
    ghost predicate Round(r: Outcome, orphans: map<Hash, Orphan>, hash: Hash, offered: seq<Orphan>, open: set<Hash>,
                          keeps: Keeps)
      reads chain, chain.index, chain.index.nodes, chain.bestChain, pool
    {
      && (r.Done? ==> Progress(orphans, hash, offered, open, keeps) && open <= {hash} + Hashes(offered))
      && (r.Failed? ==> r.error == StoreError && Valid() && Offering(orphans, pool.orphans, hash, offered))
    }

    /** The trace leads from the books at its start to the books now. */
    ghost predicate Traced(trace: seq<Books>, offered: seq<Orphan>, oracle: Oracle, fastAdd: bool)
      reads chain.index, chain.bestChain
    {
      IsTrace(trace, offered, oracle, fastAdd) && trace[|offered|] == BooksNow()
    }

    /** Offers the first child of a parent that is being dealt with.  A child that breaks a
        rule is dropped without an error. */
    method OfferFirst(p: Hash, oracle: Oracle, fastAdd: bool,
                      ghost orphans: map<Hash, Orphan>, ghost hash: Hash, ghost offered: seq<Orphan>,
                      ghost open: set<Hash>, ghost keeps: Keeps)
      returns (o: Orphan, r: Outcome)
      requires Round(Done, orphans, hash, offered, open, keeps)
      requires p in open && Children(pool.prevOrphans, p) != []
      modifies chain, chain.index, chain.index.nodes, chain.bestChain, pool
      ensures Round(r, orphans, hash, offered + [o], open + {o.block.hash}, keeps)
      ensures Offered(old(BooksNow()), o.block, oracle, fastAdd, BooksNow())
      ensures forall n :: n in chain.index.nodes && n !in old(chain.index.nodes) ==> fresh(n)
      ensures |pool.orphans| == old(|pool.orphans|) - 1
    {
      hide Offered, Answered, BooksNow, Offering, Pending, Settled, Best, BlockChain.Valid, OrphanPool.Valid, Apart,
        Hashes;
      FirstChild(pool, p);
      o := Children(pool.prevOrphans, p)[0];
      OfferOne(orphans, pool.orphans, hash, offered, o);
      r := Offer(o, oracle, fastAdd, open, keeps);
      if r.Failed? && IsRuleError(r.error) {
        r := Done;
      }
    }

    /** Offers every child of one parent and queues them as parents in turn. */
    method OfferChildren(p: Hash, queue: seq<Hash>, oracle: Oracle, fastAdd: bool,
                         ghost orphans: map<Hash, Orphan>, ghost hash: Hash, ghost offered: seq<Orphan>,
                         ghost trace: seq<Books>, ghost keeps: Keeps)
      returns (r: Outcome, queue': seq<Hash>, ghost offered': seq<Orphan>, ghost trace': seq<Books>)
      requires Round(Done, orphans, hash, offered, {p} + Elements(queue), keeps) &&
        Traced(trace, offered, oracle, fastAdd)
      modifies chain, chain.index, chain.index.nodes, chain.bestChain, pool
      ensures Round(r, orphans, hash, offered', Elements(queue'), keeps)
      ensures Traced(trace', offered', oracle, fastAdd) && trace'[0] == trace[0]
      ensures forall n :: n in chain.index.nodes && n !in old(chain.index.nodes) ==> fresh(n)
      ensures |pool.orphans| + |queue'| <= old(|pool.orphans|) + |queue|
    {
      hide BlockChain.Valid, OrphanPool.Valid, Best, Offering, Pending, Settled, Keyed, Offered, BooksNow;
      r, queue', offered', trace' := Done, queue, offered, trace;
      ghost var open := {p} + Elements(queue);
      while r.Done? && Children(pool.prevOrphans, p) != []
        invariant Round(r, orphans, hash, offered', open, keeps)
        invariant r.Done? ==> open == {p} + Elements(queue')
        invariant Traced(trace', offered', oracle, fastAdd) && trace'[0] == trace[0]
        invariant forall n :: n in chain.index.nodes && n !in old(chain.index.nodes) ==> fresh(n)
        invariant |pool.orphans| + |queue'| <= old(|pool.orphans|) + |queue|
        decreases |pool.orphans|
      {
        var o;
        o, r := OfferFirst(p, oracle, fastAdd, orphans, hash, offered', open, keeps);
        TraceOneMore(trace', offered', oracle, fastAdd, o, BooksNow());
        offered', trace', open := offered' + [o], trace' + [BooksNow()], open + {o.block.hash};
        if r.Done? {
          queue' := queue' + [o.block.hash];
        }
      }
      if r.Done? {
        CloseParent(pool, hash, offered', chain.index.index, chain.index.statuses, p, Elements(queue'));
      }
    }

    /** Offers every orphan that descends from a block just dealt with. */
    method ProcessOrphans(hash: Hash, oracle: Oracle, fastAdd: bool, ghost keeps: Keeps)
      returns (r: Outcome, ghost offered: seq<Orphan>, ghost trace: seq<Books>)
      requires Valid() && Holds(keeps, {hash})
      modifies chain, chain.index, chain.index.nodes, chain.bestChain, pool
      ensures Valid() && Offering(old(pool.orphans), pool.orphans, hash, offered)
      ensures Traced(trace, offered, oracle, fastAdd) && trace[0] == old(BooksNow())
      ensures forall n :: n in chain.index.nodes && n !in old(chain.index.nodes) ==> fresh(n)
      ensures r.Done? || r == Failed(StoreError)
      ensures r.Done? ==> Holds(keeps, {})
      ensures r.Done? ==> forall h ::
        h in old(pool.orphans) && h !in pool.orphans <==> Reachable(old(pool.orphans), hash, h)
    {
      hide BlockChain.Valid, OrphanPool.Valid, Apart, Best, Offering, Pending, Settled, Reachable, Offered, BooksNow;
      ghost var orphans := pool.orphans;
      var queue := [hash];
      r, offered, trace := Done, [], [BooksNow()];
      StartOffering(orphans, hash);
      while r.Done? && queue != []
        invariant Round(r, orphans, hash, offered, Elements(queue), keeps)
        invariant Traced(trace, offered, oracle, fastAdd) && trace[0] == old(BooksNow())
        invariant forall n :: n in chain.index.nodes && n !in old(chain.index.nodes) ==> fresh(n)
        decreases |pool.orphans| + |queue|, r.Done?
      {
        var p := queue[0];
        assert Elements(queue) == {p} + Elements(queue[1..]);
        r, queue, offered, trace := OfferChildren(p, queue[1..], oracle, fastAdd, orphans, hash, offered, trace, keeps);
      }
      if r.Done? {
        assert Elements(queue) == {};
        ExactlyReachableOffered(orphans, pool.orphans, hash, offered);
      }
    }

    twostate predicate PoolGrown(clock: Hash -> int, o: Orphan)
      reads pool
    {
      exists mark :: Added(old(pool.orphans), old(pool.oldestOrphan), clock, mark, o, pool.orphans, pool.oldestOrphan)
    }

    /** Puts a block whose parent is unknown into the pool. */
    method Keep(block: Block, clock: Hash -> int, expiration: int, ghost keeps: Keeps)
      requires Valid() && Holds(keeps, {}) && block.prev == pool.prevOf(block.hash)
      requires block.hash !in chain.index.index && block.hash !in pool.orphans && block.prev !in chain.index.index
      modifies pool
      ensures Valid() && Holds(keeps, {})
      ensures PoolGrown(clock, Orphan(block, expiration))
    {
      hide BlockChain.Valid, OrphanPool.Filed, OrphanPool.Bounded, Settled, IsOldest, Overflows;
      ghost var orphans := pool.orphans;
      ghost var mark := pool.AddOrphanBlock(block, clock, expiration);
      SettledAdds(orphans, pool.orphans, chain.index.index, chain.index.statuses, block.hash);
    }

    /** What it means to take in a block whose parent is known: it is offered first; when
        that goes well, exactly the orphans that descend from it are offered after it. */
    twostate predicate TakenIn(block: Block, oracle: Oracle, fastAdd: bool, new history: History, isMain: bool,
                               r: Outcome)
      reads chain.index, chain.bestChain, pool
    {
      && Offered(old(BooksNow()), block, oracle, fastAdd, history.accepted)
      && Answered(old(BooksNow()), block, oracle, fastAdd, history.accepted, history.wasMain, history.answer)
      && (isMain <==> history.wasMain && r.Done?)
      && (history.answer.Failed? ==>
            r == history.answer && BooksNow() == history.accepted && pool.orphans == old(pool.orphans))
      && (history.answer.Done? ==>
            && Offering(old(pool.orphans), pool.orphans, block.hash, history.offered)
            && Traced(history.trace, history.offered, oracle, fastAdd) && history.trace[0] == history.accepted
            && (r.Done? ==> forall h ::
                  h in old(pool.orphans) && h !in pool.orphans <==> Reachable(old(pool.orphans), block.hash, h)))
    }

    /** Offers a block whose parent is known, and then the orphans that descend from it. */
    method AcceptWithOrphans(block: Block, oracle: Oracle, fastAdd: bool, ghost keeps: Keeps)
      returns (isMain: bool, r: Outcome, ghost history: History)
      requires Valid() && Holds(keeps, {})
      requires block.hash !in chain.index.index && block.hash !in pool.orphans
      modifies chain, chain.index, chain.index.nodes, chain.bestChain, pool
      ensures Valid() && forall n :: n in chain.index.nodes && n !in old(chain.index.nodes) ==> fresh(n)
      ensures r != Failed(StoreError) ==> Holds(keeps, {})
      ensures TakenIn(block, oracle, fastAdd, history, isMain, r) && (isMain ==> r.Done?)
    {
      hide BlockChain.Valid, OrphanPool.Valid, Best, Settled, Offering, Reachable, Apart, Offered, BooksNow, IsTrace;
      isMain, r := Submit(block, oracle, fastAdd, {}, keeps);
      history := History(BooksNow(), isMain, r, [], []);
      if r.Failed? {
        AnswerMain(old(BooksNow()), block, oracle, fastAdd, BooksNow(), isMain, r);
        return;
      }
      assert {} + {block.hash} == {block.hash};
      ghost var offered, trace;
      r, offered, trace := ProcessOrphans(block.hash, oracle, fastAdd, keeps);
      history := history.(offered := offered, trace := trace);
      isMain := isMain && r.Done?;
    }

    twostate predicate ChainKept()
      reads chain, chain.index, chain.bestChain
    {
      && chain.index.index == old(chain.index.index) && chain.index.statuses == old(chain.index.statuses)
      && chain.bestChain.nodes == old(chain.bestChain.nodes) && chain.bestChain.len == old(chain.bestChain.len)
      && chain.db == old(chain.db) && chain.stateSnapshot == old(chain.stateSnapshot)
    }

    twostate predicate PoolKept()
      reads pool
    {
      pool.orphans == old(pool.orphans) && pool.prevOrphans == old(pool.prevOrphans) &&
        pool.oldestOrphan == old(pool.oldestOrphan)
    }

    /** Handles a block that has just come in.  Unless the store fails, no orphan is left
        waiting whose parent is known and not known invalid, and the best chain is still
        the heaviest that is not known invalid. */
    method ProcessBlock(block: Block, checks: Checks, oracle: Oracle, fastAdd: bool, clock: Hash -> int,
                        expiration: int, ghost keeps: Keeps)
      returns (isMain: bool, isOrphan: bool, r: Outcome, ghost history: History)
      requires Valid() && Holds(keeps, {}) && block.prev == pool.prevOf(block.hash)
      modifies chain, chain.index, chain.index.nodes, chain.bestChain, pool
      ensures Valid() && forall n :: n in chain.index.nodes && n !in old(chain.index.nodes) ==> fresh(n)
      ensures r != Failed(StoreError) ==> Holds(keeps, {})
      ensures isMain ==> r.Done? && !isOrphan
      ensures
        var refusal := Refused(old(block.hash in chain.index.index || block.hash in pool.orphans), checks);
        var parentKnown := old(block.prev in chain.index.index);
        var counted := block.(height := if checks.proof.ProofGood? then Some(checks.proof.height) else block.height);
        && (refusal.Some? ==> r == Failed(refusal.value) && ChainKept() && PoolKept()
                              && isOrphan == (refusal == Some(ProofRejected) && !parentKnown))
        && (refusal.None? && !parentKnown ==>
              r.Done? && isOrphan && ChainKept() &&
                PoolGrown(clock, Orphan(counted, expiration)))
        && (refusal.None? && parentKnown ==>
          !isOrphan && TakenIn(counted, oracle, fastAdd, history, isMain, r))
    {
      hide BlockChain.Valid, OrphanPool.Valid, Best, Settled, Apart, TakenIn, PoolGrown;
      isMain, isOrphan, history := false, false, History(BooksNow(), false, Done, [], []);
      r := Done;
      var parentKnown := block.prev in chain.index.index;
      if block.hash in chain.index.index || block.hash in pool.orphans {
        r := Failed(DuplicateBlock);
        return;
      }
      if checks.sanity != Accept {
        r := Failed(if checks.sanity == RuleViolation then SanityRejected else StoreError);
        return;
      }
      if checks.proof == ProofBad {
        isOrphan, r := !parentKnown, Failed(ProofRejected);
        return;
      }
      if checks.checkpoint != Accept {
        r := Failed(if checks.checkpoint == RuleViolation then CheckpointRejected else StoreError);
        return;
      }
      var block' := WithHeight(block, checks.proof);
      if !parentKnown {
        Keep(block', clock, expiration, keeps);
        isOrphan := true;
        return;
      }
      isMain, r, history := AcceptWithOrphans(block', oracle, fastAdd, keeps);
    }
  }

  lemma SettledAdds(orphans: map<Hash, Orphan>, orphans': map<Hash, Orphan>, index: map<Hash, BlockNode>, st: Statuses,
                    hash: Hash)
    requires hash in orphans' && orphans'[hash].block.prev !in index
    requires forall h :: h in orphans' && h != hash ==> h in orphans && orphans'[h] == orphans[h]
    ensures Settled(orphans, index, st, {}) ==> Settled(orphans', index, st, {})
  {
    forall h | h in orphans' && h != hash && Waits(orphans[h], index, st, {})
      ensures Waits(orphans'[h], index, st, {})
    {
    }
  }

  lemma StartOffering(orphans: map<Hash, Orphan>, hash: Hash)
    ensures Offering(orphans, orphans, hash, []) && Pending(orphans, hash, [], {hash}) && Elements([hash]) == {hash} &&
      Hashes([]) == {}
  {
  }
}
