/** The bookkeeping behind the address manager, as values: which addresses are known, which
    new buckets hold each of them, and which tried bucket. */
module AddrLedger {
  const TRIED_BUCKET_SIZE := 256
  const TRIED_BUCKET_COUNT := 64
  const NEW_BUCKET_SIZE := 64
  const NEW_BUCKET_COUNT := 1024
  const NEW_BUCKETS_PER_ADDRESS := 8

  /** An address as a key: host and port. */
  type Key = string

  datatype Ledger = Ledger(keys: set<Key>, news: seq<set<Key>>, tried: seq<seq<Key>>)

  /** In how many buckets an address is. */
  ghost function Count(buckets: seq<set<Key>>, k: Key): (n: nat)
    ensures n <= |buckets|
  {
    if buckets == [] then 0
    else Count(buckets[..|buckets| - 1], k) + if k in buckets[|buckets| - 1] then 1 else 0
  }

  function One(b: bool): nat {
    if b then 1 else 0
  }

  lemma {:induction false} CountUpdate(buckets: seq<set<Key>>, b: nat, s: set<Key>, k: Key)
    requires b < |buckets|
    ensures Count(buckets[b := s], k) + One(k in buckets[b]) == Count(buckets, k) + One(k in s)
  {
    var last := |buckets| - 1;
    if b == last {
      assert buckets[b := s][..last] == buckets[..last];
    } else {
      assert buckets[b := s][..last] == buckets[..last][b := s];
      CountUpdate(buckets[..last], b, s, k);
    }
  }

  lemma {:induction false} CountZero(buckets: seq<set<Key>>, k: Key)
    ensures Count(buckets, k) == 0 <==> forall b :: 0 <= b < |buckets| ==> k !in buckets[b]
  {
    if buckets != [] {
      CountZero(buckets[..|buckets| - 1], k);
    }
  }

  lemma {:induction false} CountIsCardinality(buckets: seq<set<Key>>, k: Key)
    ensures Count(buckets, k) == |set b | 0 <= b < |buckets| && k in buckets[b]|
  {
    if buckets != [] {
      var last := |buckets| - 1;
      CountIsCardinality(buckets[..last], k);
      var some := set b | 0 <= b < last && k in buckets[..last][b];
      assert (set b | 0 <= b < |buckets| && k in buckets[b]) == some + if k in buckets[last] then {last} else {};
    }
  }

  /** The addresses in the tried buckets. */
  ghost function TriedKeys(tried: seq<seq<Key>>): set<Key> {
    set b, i | 0 <= b < |tried| && 0 <= i < |tried[b]| :: tried[b][i]
  }

  /** How many entries the tried buckets have. */
  ghost function Total(tried: seq<seq<Key>>): nat {
    if tried == [] then 0 else Total(tried[..|tried| - 1]) + |tried[|tried| - 1]|
  }

  lemma {:induction false} TotalUpdate(tried: seq<seq<Key>>, b: nat, s: seq<Key>)
    requires b < |tried|
    ensures Total(tried[b := s]) + |tried[b]| == Total(tried) + |s|
  {
    var last := |tried| - 1;
    if b == last {
      assert tried[b := s][..last] == tried[..last];
    } else {
      assert tried[b := s][..last] == tried[..last][b := s];
      TotalUpdate(tried[..last], b, s);
    }
  }

  /** No address has two places in the tried buckets. */
  ghost predicate PlacedOnce(tried: seq<seq<Key>>) {
    forall b, i, b', i' ::
      (0 <= b < |tried| && 0 <= i < |tried[b]| && 0 <= b' < |tried| && 0 <= i' < |tried[b']| &&
        tried[b][i] == tried[b'][i'])
      ==> b == b' && i == i'
  }

  ghost predicate Shaped(l: Ledger) {
    && |l.news| == NEW_BUCKET_COUNT && |l.tried| == TRIED_BUCKET_COUNT
    && (forall b :: 0 <= b < |l.news| ==> l.news[b] <= l.keys && |l.news[b]| <= NEW_BUCKET_SIZE + 1)
    && (forall b :: 0 <= b < |l.tried| ==> |l.tried[b]| <= TRIED_BUCKET_SIZE)
    && TriedKeys(l.tried) <= l.keys && PlacedOnce(l.tried)
  }

  /** A known address is either tried and in no new bucket, or in one to eight of them. */
  ghost predicate Settled(l: Ledger, k: Key) {
    if k in TriedKeys(l.tried) then Count(l.news, k) == 0
    else 1 <= Count(l.news, k) <= NEW_BUCKETS_PER_ADDRESS
  }

  ghost predicate Inv(l: Ledger) {
    Shaped(l) && forall k :: k in l.keys ==> Settled(l, k)
  }

  /** How many known addresses are not tried. */
  ghost function NewCount(l: Ledger): nat {
    |l.keys - TriedKeys(l.tried)|
  }

  // ----- Putting an address into a new bucket -----

  ghost function Place(l: Ledger, b: nat, k: Key): Ledger
    requires b < |l.news|
  {
    Ledger(l.keys + {k}, l.news[b := l.news[b] + {k}], l.tried)
  }

  /** There is room in the bucket, and the address is unknown or can take one more. */
  ghost predicate CanPlace(l: Ledger, b: nat, k: Key) {
    && b < |l.news| && k !in l.news[b] && |l.news[b]| <= NEW_BUCKET_SIZE
    && k !in TriedKeys(l.tried) && Count(l.news, k) < NEW_BUCKETS_PER_ADDRESS
  }

  lemma {:induction false} PlaceInv(l: Ledger, b: nat, k: Key)
    requires Inv(l) && CanPlace(l, b, k)
    ensures Inv(Place(l, b, k))
    ensures Count(Place(l, b, k).news, k) == Count(l.news, k) + 1
    ensures NewCount(Place(l, b, k)) == NewCount(l) + One(k !in l.keys)
  {
    hide Count, TriedKeys, PlacedOnce;
    var l' := Place(l, b, k);
    CountUpdate(l.news, b, l.news[b] + {k}, k);
    forall x | x in l'.keys
      ensures Settled(l', x)
    {
      CountUpdate(l.news, b, l.news[b] + {k}, x);
      assert x != k ==> Settled(l, x);
    }
    if k !in l.keys {
      assert l'.keys - TriedKeys(l.tried) == (l.keys - TriedKeys(l.tried)) + {k};
    } else {
      assert l'.keys == l.keys;
    }
  }

  // ----- Expiring entries of a new bucket -----

  /** The entries that have no other bucket. */
  ghost function Orphaned(l: Ledger, gone: set<Key>): set<Key> {
    set k | k in gone && Count(l.news, k) == 1
  }

  ghost function Expire(l: Ledger, b: nat, gone: set<Key>): Ledger
    requires b < |l.news|
  {
    Ledger(l.keys - Orphaned(l, gone), l.news[b := l.news[b] - gone], l.tried)
  }

  lemma {:induction false} ExpireInv(l: Ledger, b: nat, gone: set<Key>)
    requires Inv(l) && b < |l.news| && gone <= l.news[b]
    ensures Inv(Expire(l, b, gone))
    ensures NewCount(Expire(l, b, gone)) == NewCount(l) - |Orphaned(l, gone)|
    ensures |Expire(l, b, gone).news[b]| == |l.news[b]| - |gone|
  {
    hide Count, TriedKeys, PlacedOnce;
    var l', lost := Expire(l, b, gone), Orphaned(l, gone);
    forall k | k in l'.keys
      ensures Settled(l', k)
    {
      ExpireEffect(l, b, gone, k);
    }
    forall k | k in lost
      ensures k !in TriedKeys(l.tried) && k in l.keys
    {
      ExpireEffect(l, b, gone, k);
    }
    forall c | 0 <= c < |l'.news|
      ensures l'.news[c] <= l'.keys && |l'.news[c]| <= NEW_BUCKET_SIZE + 1
    {
      assert l.news[c] <= l.keys && |l.news[c]| <= NEW_BUCKET_SIZE + 1;
      forall k | k in l'.news[c]
        ensures k in l'.keys
      {
        ExpireEffect(l, b, gone, k);
      }
    }
    ExpireSizes(l, b, gone);
    var others := l.keys - TriedKeys(l.tried);
    assert l'.keys - TriedKeys(l.tried) == others - lost;
    SubsetSize(lost, others);
  }

  /** What becomes of one known address. */
  lemma {:induction false} ExpireEffect(l: Ledger, b: nat, gone: set<Key>, k: Key)
    requires Inv(l) && b < |l.news| && gone <= l.news[b] && k in l.keys
    ensures k in Expire(l, b, gone).keys ==> Settled(Expire(l, b, gone), k)
    ensures k in Orphaned(l, gone) ==> k !in TriedKeys(l.tried)
    ensures forall c :: 0 <= c < |l.news| && k in Expire(l, b, gone).news[c] ==> k in Expire(l, b, gone).keys
  {
    hide Count, TriedKeys, PlacedOnce;
    var l' := Expire(l, b, gone);
    assert Settled(l, k);
    CountUpdate(l.news, b, l.news[b] - gone, k);
    CountZero(l'.news, k);
    CountZero(l.news, k);
  }

  lemma {:induction false} ExpireSizes(l: Ledger, b: nat, gone: set<Key>)
    requires b < |l.news| && gone <= l.news[b]
    ensures |l.news[b] - gone| == |l.news[b]| - |gone|
  {
    SubsetSize(gone, l.news[b]);
  }

  lemma {:induction false} SubsetSize(a: set<Key>, b: set<Key>)
    requires a <= b
    ensures |b - a| == |b| - |a|
  {
    assert b == (b - a) + a;
  }

  /** Expiring one entry after others. */
  lemma {:induction false} ExpireOneMore(l: Ledger, b: nat, gone: set<Key>, k: Key)
    requires b < |l.news| && gone <= l.news[b] && k in l.news[b] - gone
    ensures Expire(Expire(l, b, gone), b, {k}) == Expire(l, b, gone + {k})
    ensures Count(Expire(l, b, gone).news, k) == Count(l.news, k)
  {
    hide Count;
    var l' := Expire(l, b, gone);
    CountUpdate(l.news, b, l.news[b] - gone, k);
    assert l'.news[b] - {k} == l.news[b] - (gone + {k});
    assert l'.news[b := l'.news[b] - {k}] == l.news[b := l.news[b] - (gone + {k})];
    assert l.keys - Orphaned(l, gone) - Orphaned(l', {k}) == l.keys - Orphaned(l, gone + {k});
  }

  // ----- Taking an address out of the new buckets -----

  /** The buckets with an address taken out of the first `n` of them. */
  ghost function Strip(news: seq<set<Key>>, n: nat, k: Key): (r: seq<set<Key>>)
    requires n <= |news|
    ensures |r| == |news|
  {
    seq(|news|, i requires 0 <= i < |news| => if i < n then news[i] - {k} else news[i])
  }

  lemma {:induction false} StripStep(news: seq<set<Key>>, n: nat, k: Key)
    requires n < |news|
    ensures Strip(news, n + 1, k) == Strip(news, n, k)[n := news[n] - {k}]
    ensures Count(Strip(news, n + 1, k), k) == Count(Strip(news, n, k), k) - One(k in news[n])
  {
    hide Count;
    var r := Strip(news, n, k);
    assert Strip(news, n + 1, k) == r[n := news[n] - {k}];
    CountUpdate(r, n, news[n] - {k}, k);
  }

  lemma {:induction false} StripOthers(news: seq<set<Key>>, n: nat, k: Key, x: Key)
    requires n <= |news| && x != k
    ensures Count(Strip(news, n, k), x) == Count(news, x)
  {
    hide Count;
    if n > 0 {
      StripOthers(news, n - 1, k, x);
      var r := Strip(news, n - 1, k);
      assert Strip(news, n, k) == r[n - 1 := news[n - 1] - {k}];
      CountUpdate(r, n - 1, news[n - 1] - {k}, x);
    } else {
      assert Strip(news, 0, k) == news;
    }
  }

  lemma StripAll(news: seq<set<Key>>, k: Key)
    ensures Count(Strip(news, |news|, k), k) == 0
  {
    hide Count;
    CountZero(Strip(news, |news|, k), k);
  }

  /** An address leaves the new buckets and the ledger. */
  ghost function Promote(l: Ledger, k: Key): Ledger {
    Ledger(l.keys - {k}, Strip(l.news, |l.news|, k), l.tried)
  }

  lemma {:induction false} PromoteInv(l: Ledger, k: Key)
    requires Inv(l) && k in l.keys && k !in TriedKeys(l.tried)
    ensures Inv(Promote(l, k)) && NewCount(Promote(l, k)) == NewCount(l) - 1
    ensures forall b :: 0 <= b < |l.news| ==> |Promote(l, k).news[b]| == |l.news[b]| - One(k in l.news[b])
  {
    hide Count, TriedKeys, PlacedOnce;
    var l' := Promote(l, k);
    forall x | x in l'.keys
      ensures Settled(l', x)
    {
      assert Settled(l, x);
      StripOthers(l.news, |l.news|, k, x);
    }
    forall b | 0 <= b < |l.news|
      ensures |l'.news[b]| == |l.news[b]| - One(k in l.news[b])
    {
      assert l'.news[b] == l.news[b] - {k};
    }
    assert l'.keys - TriedKeys(l.tried) == (l.keys - TriedKeys(l.tried)) - {k};
  }

  // ----- The tried buckets -----

  ghost function Push(l: Ledger, t: nat, k: Key): Ledger
    requires t < |l.tried|
  {
    Ledger(l.keys + {k}, l.news, l.tried[t := l.tried[t] + [k]])
  }

  lemma {:induction false} PushTriedKeys(tried: seq<seq<Key>>, t: nat, k: Key)
    requires t < |tried| && k !in TriedKeys(tried) && PlacedOnce(tried)
    ensures TriedKeys(tried[t := tried[t] + [k]]) == TriedKeys(tried) + {k}
    ensures PlacedOnce(tried[t := tried[t] + [k]])
  {
    var after := tried[t := tried[t] + [k]];
    forall x | x in TriedKeys(tried)
      ensures x in TriedKeys(after)
    {
      var b, i :| 0 <= b < |tried| && 0 <= i < |tried[b]| && tried[b][i] == x;
      assert after[b][i] == x;
    }
    assert after[t][|tried[t]|] == k;
  }

  /** The address has left the new buckets and there is room in its tried bucket. */
  ghost predicate CanPush(l: Ledger, t: nat, k: Key) {
    t < |l.tried| && k !in l.keys && Count(l.news, k) == 0 && |l.tried[t]| < TRIED_BUCKET_SIZE
  }

  lemma {:induction false} PushInv(l: Ledger, t: nat, k: Key)
    requires Inv(l) && CanPush(l, t, k)
    ensures Inv(Push(l, t, k)) && NewCount(Push(l, t, k)) == NewCount(l)
    ensures TriedKeys(Push(l, t, k).tried) == TriedKeys(l.tried) + {k}
    ensures Total(Push(l, t, k).tried) == Total(l.tried) + 1
  {
    hide Count, TriedKeys, PlacedOnce, Total;
    var l' := Push(l, t, k);
    PushTriedKeys(l.tried, t, k);
    TotalUpdate(l.tried, t, l.tried[t] + [k]);
    forall x | x in l'.keys
      ensures Settled(l', x)
    {
      assert x != k ==> Settled(l, x);
    }
    assert l'.keys - TriedKeys(l'.tried) == l.keys - TriedKeys(l.tried);
  }

  /** An address takes another's place in a tried bucket; the other leaves the ledger. */
  ghost function Swap(l: Ledger, t: nat, i: nat, k: Key): Ledger
    requires t < |l.tried| && i < |l.tried[t]|
  {
    Ledger(l.keys - {l.tried[t][i]} + {k}, l.news, l.tried[t := l.tried[t][i := k]])
  }

  lemma {:induction false} SwapTriedKeys(tried: seq<seq<Key>>, t: nat, i: nat, k: Key)
    requires t < |tried| && i < |tried[t]| && k !in TriedKeys(tried) && PlacedOnce(tried)
    ensures TriedKeys(tried[t := tried[t][i := k]]) == TriedKeys(tried) - {tried[t][i]} + {k}
    ensures PlacedOnce(tried[t := tried[t][i := k]])
  {
    var after, rm := tried[t := tried[t][i := k]], tried[t][i];
    forall x | x in TriedKeys(tried) && x != rm
      ensures x in TriedKeys(after)
    {
      var b, j :| 0 <= b < |tried| && 0 <= j < |tried[b]| && tried[b][j] == x;
      assert after[b][j] == x;
    }
    forall x | x in TriedKeys(after)
      ensures x == k || (x in TriedKeys(tried) && x != rm)
    {
      var b, j :| 0 <= b < |after| && 0 <= j < |after[b]| && after[b][j] == x;
      assert x != k ==> tried[b][j] == x;
    }
    assert after[t][i] == k;
  }

  lemma {:induction false} SwapInv(l: Ledger, t: nat, i: nat, k: Key)
    requires Inv(l) && t < |l.tried| && i < |l.tried[t]| && k !in l.keys && Count(l.news, k) == 0
    ensures
      var l', rm := Swap(l, t, i, k), l.tried[t][i];
      && Inv(l') && NewCount(l') == NewCount(l) && Total(l'.tried) == Total(l.tried)
      && TriedKeys(l'.tried) == TriedKeys(l.tried) - {rm} + {k}
      && rm !in l'.keys && Count(l'.news, rm) == 0 && rm in l.keys
  {
    hide Count, PlacedOnce, Total;
    var l', rm := Swap(l, t, i, k), l.tried[t][i];
    assert rm in TriedKeys(l.tried);
    assert Settled(l, rm);
    SwapTriedKeys(l.tried, t, i, k);
    TotalUpdate(l.tried, t, l.tried[t][i := k]);
    CountZero(l.news, rm);
    SwapSettled(l, t, i, k);
    assert l'.keys - TriedKeys(l'.tried) == l.keys - TriedKeys(l.tried);
  }

  lemma {:induction false} SwapSettled(l: Ledger, t: nat, i: nat, k: Key)
    requires Inv(l) && t < |l.tried| && i < |l.tried[t]| && k !in l.keys && Count(l.news, k) == 0
    requires TriedKeys(Swap(l, t, i, k).tried) == TriedKeys(l.tried) - {l.tried[t][i]} + {k}
    ensures forall x :: x in Swap(l, t, i, k).keys ==> Settled(Swap(l, t, i, k), x)
  {
    hide Count, TriedKeys, PlacedOnce;
    var l' := Swap(l, t, i, k);
    forall x | x in l'.keys
      ensures Settled(l', x)
    {
      assert x != k ==> Settled(l, x);
    }
  }

  // ----- Counting tried addresses -----

  /** The tried buckets have as many entries as there are tried addresses. */
  lemma {:induction false} TriedCount(tried: seq<seq<Key>>)
    requires PlacedOnce(tried)
    ensures |TriedKeys(tried)| == Total(tried)
  {
    if tried != [] {
      var init, last := tried[..|tried| - 1], tried[|tried| - 1];
      assert PlacedOnce(init) by {
        assert forall b, i :: 0 <= b < |init| && 0 <= i < |init[b]| ==> init[b][i] == tried[b][i];
      }
      TriedCount(init);
      TriedSplit(tried);
      Elements(last);
    }
  }

  lemma {:induction false} TriedSplit(tried: seq<seq<Key>>)
    requires tried != [] && PlacedOnce(tried)
    ensures
      var init, last := tried[..|tried| - 1], tried[|tried| - 1];
      var inLast := set i | 0 <= i < |last| :: last[i];
      && TriedKeys(tried) == TriedKeys(init) + inLast && TriedKeys(init) !! inLast
      && forall i, j :: 0 <= i < j < |last| ==> last[i] != last[j]
  {
    var n := |tried| - 1;
    var init, last := tried[..n], tried[n];
    forall x | x in TriedKeys(init)
      ensures x in TriedKeys(tried) && x !in (set i | 0 <= i < |last| :: last[i])
    {
      var b, i :| 0 <= b < |init| && 0 <= i < |init[b]| && init[b][i] == x;
      assert tried[b][i] == x;
    }
    forall x | x in TriedKeys(tried)
      ensures x in TriedKeys(init) || x in (set i | 0 <= i < |last| :: last[i])
    {
      var b, i :| 0 <= b < |tried| && 0 <= i < |tried[b]| && tried[b][i] == x;
      if b < n {
        assert init[b][i] == x;
      }
    }
    forall i | 0 <= i < |last|
      ensures last[i] in TriedKeys(tried)
    {
      assert tried[n][i] == last[i];
    }
    forall i, j | 0 <= i < j < |last|
      ensures last[i] != last[j]
    {
      assert tried[n][i] == last[i] && tried[n][j] == last[j];
    }
  }

  lemma {:induction false} Elements(s: seq<Key>)
    requires forall i, j :: 0 <= i < j < |s| ==> s[i] != s[j]
    ensures |set i | 0 <= i < |s| :: s[i]| == |s|
  {
    if s != [] {
      var init := s[..|s| - 1];
      Elements(init);
      assert (set i | 0 <= i < |s| :: s[i]) == (set i | 0 <= i < |init| :: init[i]) + {s[|s| - 1]};
    }
  }
}
