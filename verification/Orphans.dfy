/** The pool of blocks whose parent is not known yet. */
module Orphans {
  import opened BlockTree
  import opened Options
  import opened Tables

  const MAX_ORPHAN_BLOCKS := 100

  datatype Orphan = Orphan(block: Block, expiration: int)

  /** The list without the entries for one hash. */
  function Without(list: seq<Orphan>, hash: Hash): (r: seq<Orphan>)
    ensures |r| <= |list|
    ensures forall o :: o in r <==> o in list && o.block.hash != hash
  {
    if list == [] then []
    else if list[|list| - 1].block.hash == hash then Without(list[..|list| - 1], hash)
    else Without(list[..|list| - 1], hash) + [list[|list| - 1]]
  }

  /** The children filed under a hash; none when there is no list. */
  function Children(prevOrphans: map<Hash, seq<Orphan>>, hash: Hash): seq<Orphan> {
    if hash in prevOrphans then prevOrphans[hash] else []
  }

  /** A child list with one entry list replaced, the list itself gone when it is empty. */
  function Refile(prevOrphans: map<Hash, seq<Orphan>>, hash: Hash, list: seq<Orphan>): map<Hash, seq<Orphan>> {
    if list == [] then prevOrphans - {hash} else prevOrphans[hash := list]
  }

  /** No two entries have the same hash. */
  ghost predicate Distinct(list: seq<Orphan>) {
    forall i, j :: 0 <= i < j < |list| ==> list[i].block.hash != list[j].block.hash
  }

  lemma {:induction false} WithoutDistinct(list: seq<Orphan>, hash: Hash)
    requires Distinct(list)
    ensures Distinct(Without(list, hash))
  {
    if list != [] {
      var init, last := list[..|list| - 1], list[|list| - 1];
      WithoutDistinct(init, hash);
      forall o | o in Without(init, hash)
        ensures o.block.hash != last.block.hash
      {
        var i :| 0 <= i < |init| && init[i] == o;
        assert list[i] == o;
      }
    }
  }

  /** Every orphan is filed under its own hash. */
  ghost predicate Keyed(orphans: map<Hash, Orphan>) {
    forall h :: h in orphans ==> orphans[h].block.hash == h
  }

  /** A proper child list of `p`: some orphans of the pool, all with that parent, each once. */
  ghost predicate ListOf(orphans: map<Hash, Orphan>, p: Hash, list: seq<Orphan>) {
    && list != [] && Distinct(list)
    && forall o :: o in list ==> o.block.prev == p && o.block.hash in orphans && orphans[o.block.hash] == o
  }

  /** The child lists name exactly the pool's orphans, each once and under its own parent;
      no list is empty. */
  ghost predicate FiledByParent(orphans: map<Hash, Orphan>, prevOrphans: map<Hash, seq<Orphan>>) {
    && (forall p {:trigger ListOf(orphans, p, prevOrphans[p])} :: p in prevOrphans ==>
      ListOf(orphans, p, prevOrphans[p]))
    && (forall h :: h in orphans ==> orphans[h] in Children(prevOrphans, orphans[h].block.prev))
  }

  /** Taking an orphan off its parent's list leaves proper lists. */
  lemma ListsLeft(orphans: map<Hash, Orphan>, prevOrphans: map<Hash, seq<Orphan>>, hash: Hash, prev: Hash, p: Hash)
    requires FiledByParent(orphans, prevOrphans) && (hash in orphans ==> orphans[hash].block.prev == prev)
    ensures
      var lists := Refile(prevOrphans, prev, Without(Children(prevOrphans, prev), hash));
      p in lists ==> ListOf(orphans - {hash}, p, lists[p])
  {
    hide Distinct, Without;
    if p in prevOrphans {
      assert ListOf(orphans, p, prevOrphans[p]);
      WithoutDistinct(prevOrphans[p], hash);
    }
    NothingWithout(hash);
  }

  lemma NothingWithout(hash: Hash)
    ensures Without([], hash) == []
  {
  }

  /** Every other orphan stays on its list. */
  lemma OthersListed(orphans: map<Hash, Orphan>, prevOrphans: map<Hash, seq<Orphan>>, hash: Hash, prev: Hash, h: Hash)
    requires Keyed(orphans) && FiledByParent(orphans, prevOrphans) && h in orphans && h != hash
    ensures
      var lists := Refile(prevOrphans, prev, Without(Children(prevOrphans, prev), hash));
      orphans[h] in Children(lists, orphans[h].block.prev)
  {
    hide ListOf, Without;
    assert orphans[h] in Children(prevOrphans, orphans[h].block.prev) && orphans[h].block.hash == h;
  }

  lemma RefileRemoves(orphans: map<Hash, Orphan>, prevOrphans: map<Hash, seq<Orphan>>, hash: Hash, prev: Hash)
    requires Keyed(orphans) && FiledByParent(orphans, prevOrphans)
    requires hash in orphans ==> orphans[hash].block.prev == prev
    ensures FiledByParent(orphans - {hash}, Refile(prevOrphans, prev, Without(Children(prevOrphans, prev), hash)))
  {
    hide ListOf, Without, Refile, Children, Keyed;
    var after, lists := orphans - {hash}, Refile(prevOrphans, prev, Without(Children(prevOrphans, prev), hash));
    forall p | p in lists
      ensures ListOf(after, p, lists[p])
    {
      ListsLeft(orphans, prevOrphans, hash, prev, p);
    }
    forall h | h in after
      ensures after[h] in Children(lists, after[h].block.prev)
    {
      OthersListed(orphans, prevOrphans, hash, prev, h);
    }
  }

  lemma RefileAdds(orphans: map<Hash, Orphan>, prevOrphans: map<Hash, seq<Orphan>>, o: Orphan)
    requires Keyed(orphans) && FiledByParent(orphans, prevOrphans) && o.block.hash !in orphans
    ensures FiledByParent(orphans[o.block.hash := o],
                          prevOrphans[o.block.prev := Children(prevOrphans, o.block.prev) + [o]])
  {
    var after, lists := orphans[o.block.hash := o],
      prevOrphans[o.block.prev := Children(prevOrphans, o.block.prev) + [o]];
    forall p | p in lists
      ensures ListOf(after, p, lists[p])
    {
      assert p in prevOrphans ==> ListOf(orphans, p, prevOrphans[p]);
    }
    forall h | h in after
      ensures after[h] in Children(lists, after[h].block.prev)
    {
      assert h in orphans ==> orphans[h] in Children(prevOrphans, orphans[h].block.prev);
    }
  }

  /** The orphans whose clock reading is not past their expiration. */
  ghost function Alive(orphans: map<Hash, Orphan>, clock: Hash -> int): map<Hash, Orphan> {
    map h | h in orphans && clock(h) <= orphans[h].expiration :: orphans[h]
  }

  /** `after` is what becomes of the oldest-orphan mark once the given survivors have been
      looked at: the old mark unless a survivor expires before it. */
  ghost predicate IsOldest(before: Option<Orphan>, after: Option<Orphan>, survivors: map<Hash, Orphan>) {
    && (forall h :: h in survivors ==> after.Some? && after.value.expiration <= survivors[h].expiration)
    && (after == before
        || (after.Some? && after.value.block.hash in survivors && survivors[after.value.block.hash] == after.value
            && (before.Some? ==> after.value.expiration < before.value.expiration)))
  }

  function Older(mark: Option<Orphan>, o: Orphan): Option<Orphan> {
    if mark.None? || o.expiration < mark.value.expiration then Some(o) else mark
  }

  /** When adding an orphan takes the pool above its limit: the survivors alone exceed it,
      or they meet it and the mark is on none of them but would go first. */
  ghost predicate Overflows(pool: map<Hash, Orphan>, mark: Option<Orphan>, clock: Hash -> int) {
    var alive := Alive(pool, clock);
    || |alive| > MAX_ORPHAN_BLOCKS
    || (&& |alive| == MAX_ORPHAN_BLOCKS && mark.Some? && mark.value.block.hash !in alive
        && forall h :: h in alive ==> mark.value.expiration <= alive[h].expiration)
  }

  /** What adding an orphan makes of the pool, when the mark stands at `moved` once the
      survivors have been looked at: expired orphans go; then, at the limit, the orphan
      marked oldest goes, if it is there at all. */
  ghost predicate Added(pool: map<Hash, Orphan>, mark: Option<Orphan>, clock: Hash -> int, moved: Option<Orphan>,
                        o: Orphan,
                        pool': map<Hash, Orphan>, mark': Option<Orphan>) {
    var alive := Alive(pool, clock);
    && IsOldest(mark, moved, alive)
    && if |alive| < MAX_ORPHAN_BLOCKS then pool' == alive[o.block.hash := o] && mark' == moved
       else moved.Some? && pool' == (alive - {moved.value.block.hash})[o.block.hash := o] && mark' == None
  }

  /** What adding does to every other orphan: it stays exactly when its time is not past and it
      does not have to make room.  Only at the limit does one have to, the one the mark is on; no
      survivor expires before it, and it is itself a survivor unless the mark was there before. */
  lemma AddedMeans(pool: map<Hash, Orphan>, mark: Option<Orphan>, clock: Hash -> int, moved: Option<Orphan>, o: Orphan,
                   pool': map<Hash, Orphan>, mark': Option<Orphan>, h: Hash)
    requires Added(pool, mark, clock, moved, o, pool', mark') && h != o.block.hash && h in pool
    ensures
      var alive := set k | k in pool && !(clock(k) > pool[k].expiration);
      && (h in pool' <==>
          !(clock(h) > pool[h].expiration) &&
          !(|alive| >= 100 && moved.Some? && moved.value.block.hash == h))
      && (h in pool' ==> pool'[h] == pool[h])
      && (moved != mark ==>
        moved.Some? && moved.value.block.hash in alive && moved.value == pool[moved.value.block.hash])
      && (forall k :: k in alive ==> moved.Some? && moved.value.expiration <= pool[k].expiration)
  {
    var alive := set k | k in pool && !(clock(k) > pool[k].expiration);
    assert Alive(pool, clock).Keys == alive;
    assert |Alive(pool, clock)| == |Alive(pool, clock).Keys|;
  }

  /** The pool when everything but `rest` has been looked at. */
  ghost function Swept(pool: map<Hash, Orphan>, rest: set<Hash>, clock: Hash -> int): map<Hash, Orphan> {
    map h | h in pool && (h in rest || clock(h) <= pool[h].expiration) :: pool[h]
  }

  lemma SweptAll(pool: map<Hash, Orphan>, clock: Hash -> int)
    ensures Swept(pool, {}, clock) == Alive(pool, clock)
    ensures Swept(pool, {}, clock) - {} == Alive(pool, clock)
    ensures Swept(pool, pool.Keys, clock) == pool
  {
  }

  /** Looking at one more orphan. */
  lemma SweepOne(pool: map<Hash, Orphan>, rest: set<Hash>, clock: Hash -> int, h: Hash, before: Option<Orphan>,
                 mark: Option<Orphan>)
    requires Keyed(pool) && h in rest && rest <= pool.Keys && IsOldest(before, mark, Swept(pool, rest, clock) - rest)
    ensures h in Swept(pool, rest, clock) && Swept(pool, rest, clock)[h] == pool[h]
    ensures
      var next := Swept(pool, rest - {h}, clock);
      if clock(h) > pool[h].expiration then
        next == Swept(pool, rest, clock) - {h} && IsOldest(before, mark, next - (rest - {h}))
      else
        next == Swept(pool, rest, clock) && IsOldest(before, Older(mark, pool[h]), next - (rest - {h}))
  {
    var seen, next := Swept(pool, rest, clock) - rest, Swept(pool, rest - {h}, clock);
    if clock(h) > pool[h].expiration {
      assert next - (rest - {h}) == seen;
    } else {
      assert next - (rest - {h}) == seen[h := pool[h]];
    }
  }

  class OrphanPool {
    var orphans: map<Hash, Orphan>
    var prevOrphans: map<Hash, seq<Orphan>>
    var oldestOrphan: Option<Orphan>
    /** A block's hash commits to its parent. */
    ghost const prevOf: Hash -> Hash

    ghost predicate Committed(o: Orphan) {
      o.block.prev == prevOf(o.block.hash)
    }

    /** The pool holds one more than its nominal limit only while no orphan is marked oldest. */
    ghost predicate Bounded()
      reads this
    {
      |orphans| <= MAX_ORPHAN_BLOCKS + 1 && (|orphans| == MAX_ORPHAN_BLOCKS + 1 ==> oldestOrphan.None?)
    }

    ghost predicate Filed()
      reads this
    {
      && Keyed(orphans) && FiledByParent(orphans, prevOrphans)
      && (forall h :: h in orphans ==> Committed(orphans[h]))
      && (oldestOrphan.Some? ==> Committed(oldestOrphan.value))
    }

    ghost predicate Valid()
      reads this
    {
      Filed() && Bounded()
    }

    constructor (ghost prevOf: Hash -> Hash)
      ensures Valid() && orphans == map[] && prevOrphans == map[] && oldestOrphan == None
      ensures this.prevOf == prevOf
    {
      orphans, prevOrphans, oldestOrphan := map[], map[], None;
      this.prevOf := prevOf;
    }

    /** Drops the list entries for one hash, in place. */
    static method DropEntries(list: seq<Orphan>, hash: Hash) returns (r: seq<Orphan>)
      ensures r == Without(list, hash)
    {
      r := list;
      var i := 0;
      ghost var done := 0;
      while i < |r|
        invariant 0 <= i <= |r| && done <= |list| && |r| - i == |list| - done
        invariant r[..i] == Without(list[..done], hash) && r[i..] == list[done..]
        decreases |r| - i
      {
        assert r[i] == r[i..][0] == list[done] && list[..done + 1][..done] == list[..done];
        if r[i].block.hash == hash {
          assert r[i + 1..] == r[i..][1..] == list[done..][1..] == list[done + 1..];
          r := r[..i] + r[i + 1..];
        } else {
          assert r[..i + 1] == r[..i] + [r[i]];
          assert r[i + 1..] == r[i..][1..] == list[done..][1..] == list[done + 1..];
          i := i + 1;
        }
        done := done + 1;
      }
      assert r[..i] == r && list[..done] == list;
    }

    /** Takes an orphan out of the pool, if it is there at all. */
    method RemoveOrphanBlock(orphan: Orphan)
      requires Filed() && Committed(orphan)
      modifies `orphans, `prevOrphans
      ensures Filed()
      ensures orphans == old(orphans) - {orphan.block.hash}
      ensures prevOrphans == Refile(old(prevOrphans), orphan.block.prev,
                                    Without(Children(old(prevOrphans), orphan.block.prev), orphan.block.hash))
      ensures old(Bounded()) ==> Bounded()
    {
      hide Children, Refile, Without, FiledByParent;
      var hash, prev := orphan.block.hash, orphan.block.prev;
      assert hash in orphans ==> Committed(orphans[hash]);
      RefileRemoves(orphans, prevOrphans, hash, prev);
      assert |orphans - {hash}| <= |orphans| by {
        Shrinks(orphans, hash);
      }
      orphans := orphans - {hash};
      var list := DropEntries(Children(prevOrphans, prev), hash);
      prevOrphans := Refile(prevOrphans, prev, list);
    }

    /** Looks at one orphan: drops it when it has expired, else lets it compete for the
        oldest mark. */
    method DropOrKeep(h: Hash, now: int)
      requires Filed() && h in orphans
      modifies this
      ensures Filed()
      ensures now > old(orphans)[h].expiration ==> orphans == old(orphans) - {h} && oldestOrphan == old(oldestOrphan)
      ensures now <= old(orphans)[h].expiration ==>
        orphans == old(orphans) && oldestOrphan == Older(old(oldestOrphan), orphans[h])
    {
      var o := orphans[h];
      if now > o.expiration {
        RemoveOrphanBlock(o);
      } else if oldestOrphan.None? || o.expiration < oldestOrphan.value.expiration {
        oldestOrphan := Some(o);
      }
    }

    /** Removes expired orphans and moves the oldest mark to the first to expire. */
    method DropExpired(clock: Hash -> int)
      requires Filed()
      modifies this
      ensures Filed()
      ensures orphans == Alive(old(orphans), clock)
      ensures IsOldest(old(oldestOrphan), oldestOrphan, orphans)
    {
      ghost var pool, mark := orphans, oldestOrphan;
      var rest := orphans.Keys;
      while rest != {}
        invariant Filed() && rest <= pool.Keys
        invariant orphans == Swept(pool, rest, clock)
        invariant IsOldest(mark, oldestOrphan, Swept(pool, rest, clock) - rest)
        decreases |rest|
      {
        var h :| h in rest;
        SweepOne(pool, rest, clock, h, mark, oldestOrphan);
        DropOrKeep(h, clock(h));
        rest := rest - {h};
      }
      SweptAll(pool, clock);
    }

    /** Makes room for one more: at the limit the orphan marked oldest goes, if it is still
        there. */
    method MakeRoom()
      requires Filed() && (orphans != map[] ==> oldestOrphan.Some?)
      modifies this
      ensures Filed()
      ensures if |old(orphans)| < MAX_ORPHAN_BLOCKS then orphans == old(orphans) && oldestOrphan == old(oldestOrphan)
              else orphans == old(orphans) - {old(oldestOrphan.value.block.hash)} && oldestOrphan == None
    {
      if |orphans| + 1 > MAX_ORPHAN_BLOCKS {
        RemoveOrphanBlock(oldestOrphan.value);
        oldestOrphan := None;
      }
    }

    /** Files a new orphan under its hash and under its parent. */
    method Insert(o: Orphan)
      requires Filed() && o.block.hash !in orphans && Committed(o)
      modifies `orphans, `prevOrphans
      ensures Filed() && orphans == old(orphans)[o.block.hash := o]
      ensures Children(prevOrphans, o.block.prev) == Children(old(prevOrphans), o.block.prev) + [o]
    {
      RefileAdds(orphans, prevOrphans, o);
      orphans := orphans[o.block.hash := o];
      prevOrphans := prevOrphans[o.block.prev := Children(prevOrphans, o.block.prev) + [o]];
    }

    /** Adds a block to the pool.  Expired orphans go first; then, at the limit, the orphan
        marked oldest goes.  The mark may be on an orphan that left the pool long ago, and
        then nothing makes room. */
    method AddOrphanBlock(block: Block, clock: Hash -> int, expiration: int) returns (ghost mark: Option<Orphan>)
      requires Valid() && block.hash !in orphans && block.prev == prevOf(block.hash)
      modifies this
      ensures Valid()
      ensures Added(old(orphans), old(oldestOrphan), clock, mark, Orphan(block, expiration), orphans, oldestOrphan)
      ensures |orphans| > MAX_ORPHAN_BLOCKS <==> Overflows(old(orphans), old(oldestOrphan), clock)
    {
      hide Alive, IsOldest, Overflows, Keyed, FiledByParent, OrphanPool.Filed, Children, OrphanPool.Committed;
      ghost var pool := orphans;
      DropExpired(clock);
      mark := oldestOrphan;
      RoomIsMade(pool, old(oldestOrphan), clock, mark, block.hash);
      MakeRoom();
      Grown(orphans, block.hash, Orphan(block, expiration));
      Insert(Orphan(block, expiration));
    }

    static lemma Grown(m: map<Hash, Orphan>, hash: Hash, o: Orphan)
      requires hash !in m
      ensures |m[hash := o]| == |m| + 1
    {
    }

    /** However many orphans there were, at most the limit are left once room is made, and
        exactly the limit only without a mark. */
    static lemma RoomIsMade(pool: map<Hash, Orphan>, before: Option<Orphan>, clock: Hash -> int, mark: Option<Orphan>,
                            hash: Hash)
      requires |pool| <= MAX_ORPHAN_BLOCKS + 1 && (|pool| == MAX_ORPHAN_BLOCKS + 1 ==> before.None?)
      requires IsOldest(before, mark, Alive(pool, clock)) && hash !in pool
      ensures
        var alive := Alive(pool, clock);
        && hash !in alive && (alive != map[] ==> mark.Some?)
        && (|alive| >= MAX_ORPHAN_BLOCKS ==>
            && mark.Some? && |alive - {mark.value.block.hash}| <= MAX_ORPHAN_BLOCKS
            && (|alive - {mark.value.block.hash}| == MAX_ORPHAN_BLOCKS <==> Overflows(pool, before, clock)))
        && (|alive| < MAX_ORPHAN_BLOCKS ==> !Overflows(pool, before, clock))
    {
      var alive := Alive(pool, clock);
      AliveShrinks(pool, clock);
      if |alive| >= MAX_ORPHAN_BLOCKS {
        var h :| h in alive;
        Shrinks(alive, mark.value.block.hash);
      }
    }

    static lemma AliveShrinks(pool: map<Hash, Orphan>, clock: Hash -> int)
      ensures |Alive(pool, clock)| <= |pool|
    {
      var alive := Alive(pool, clock);
      CardinalityMonotone(alive.Keys, pool.Keys);
      assert |alive| == |alive.Keys| && |pool| == |pool.Keys|;
    }

    static lemma {:induction false} CardinalityMonotone(a: set<Hash>, b: set<Hash>)
      requires a <= b
      ensures |a| <= |b|
    {
      if a != {} {
        var x :| x in a;
        CardinalityMonotone(a - {x}, b - {x});
      }
    }

    static lemma Shrinks(m: map<Hash, Orphan>, hash: Hash)
      ensures |m - {hash}| == if hash in m then |m| - 1 else |m|
    {
      if hash in m {
        assert m == (m - {hash})[hash := m[hash]];
      } else {
        assert m - {hash} == m;
      }
    }
  }

  // ----- The limit can be exceeded -----

  const FIRST := Block(1, 0, 0, 0, [], None)

  /** `n` orphans that outlive the one marked oldest, which is not among them. */
  ghost predicate Stale(pool: OrphanPool, n: nat)
    reads pool
  {
    && pool.Valid() && (forall h :: pool.prevOf(h) == 0) && |pool.orphans| == n
    && (forall h :: h in pool.orphans ==> 2 <= h < n + 2 && pool.orphans[h].expiration == 10)
    && pool.oldestOrphan == Some(Orphan(FIRST, 0))
  }

  method FirstOrphan() returns (pool: OrphanPool)
    ensures fresh(pool) && pool.Valid() && (forall h :: pool.prevOf(h) == 0)
    ensures pool.orphans == map[1 := Orphan(FIRST, 0)] && pool.oldestOrphan == None
  {
    pool := new OrphanPool(_ => 0);
    var clock := (h: Hash) => 0;
    assert Alive(map[], clock) == map[];
    ghost var mark := pool.AddOrphanBlock(FIRST, clock, 0);
  }

  /** An orphan is marked oldest when the next one comes. */
  method SecondOrphan(pool: OrphanPool)
    requires pool.Valid() && (forall h :: pool.prevOf(h) == 0) && pool.orphans == map[1 := Orphan(FIRST, 0)]
    requires pool.oldestOrphan == None
    modifies pool
    ensures pool.Valid() && pool.orphans == map[1 := Orphan(FIRST, 0), 2 := Orphan(FIRST.(hash := 2), 10)]
    ensures pool.oldestOrphan == Some(Orphan(FIRST, 0))
  {
    var clock := (h: Hash) => 0;
    assert Alive(pool.orphans, clock) == pool.orphans;
    ghost var mark := pool.AddOrphanBlock(FIRST.(hash := 2), clock, 10);
  }

  /** Taking the marked orphan out leaves the mark. */
  method MarkAndTake() returns (pool: OrphanPool)
    ensures fresh(pool) && Stale(pool, 1)
  {
    hide Without, Children, FiledByParent, OrphanPool.Filed;
    pool := FirstOrphan();
    SecondOrphan(pool);
    pool.RemoveOrphanBlock(Orphan(FIRST, 0));
    assert pool.orphans == map[2 := Orphan(FIRST.(hash := 2), 10)];
  }

  lemma StaleAlive(pool: OrphanPool, n: nat, clock: Hash -> int)
    requires Stale(pool, n) && forall h :: clock(h) == 0
    ensures Alive(pool.orphans, clock) == pool.orphans && pool.orphans - {1} == pool.orphans
  {
  }

  /** One more orphan joins them. */
  method JoinStale(pool: OrphanPool, n: nat)
    requires Stale(pool, n) && n < MAX_ORPHAN_BLOCKS
    modifies pool
    ensures Stale(pool, n + 1)
  {
    hide Children, FiledByParent, OrphanPool.Filed;
    var clock := (h: Hash) => 0;
    StaleAlive(pool, n, clock);
    ghost var mark := pool.AddOrphanBlock(FIRST.(hash := n + 2), clock, 10);
  }

  /** The nominal limit can be exceeded: mark an orphan as oldest, take it out, and fill the
      pool; making room for the next one then takes out an orphan that is not there. */
  method ExceedLimit() returns (pool: OrphanPool)
    ensures pool.Valid() && |pool.orphans| == MAX_ORPHAN_BLOCKS + 1
  {
    pool := MarkAndTake();
    for i := 1 to MAX_ORPHAN_BLOCKS
      invariant fresh(pool) && Stale(pool, i)
    {
      JoinStale(pool, i);
    }
    var clock := (h: Hash) => 0;
    StaleAlive(pool, MAX_ORPHAN_BLOCKS, clock);
    ghost var mark := pool.AddOrphanBlock(FIRST.(hash := MAX_ORPHAN_BLOCKS + 2), clock, 10);
  }
}
