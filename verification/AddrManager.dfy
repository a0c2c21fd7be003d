/** The address manager: known addresses, shared between an index, the new buckets and the
    tried buckets. */
module AddrManager {
  import opened AddrLedger

  class KnownAddress {
    const key: Key
    const src: Key
    var timestamp: int
    var services: set<nat>
    var attempts: nat
    var lastAttempt: int
    var lastSuccess: int
    var tried: bool
    var refs: int

    constructor (key: Key, src: Key, timestamp: int, services: set<nat>)
      ensures this.key == key && this.src == src && this.timestamp == timestamp && this.services == services
      ensures attempts == 0 && !tried && refs == 0
    {
      this.key, this.src, this.timestamp, this.services := key, src, timestamp, services;
      attempts, lastAttempt, lastSuccess, tried, refs := 0, 0, 0, false, 0;
    }
  }

  ghost predicate NewFiled(index: map<Key, KnownAddress>, bucket: map<Key, KnownAddress>, keys: set<Key>) {
    bucket.Keys == keys && forall k :: k in bucket ==> k in index && bucket[k] == index[k]
  }

  ghost predicate TriedFiled(index: map<Key, KnownAddress>, list: seq<KnownAddress>, keys: seq<Key>) {
    && |list| == |keys|
    && forall i :: 0 <= i < |list| ==> list[i].key == keys[i] && keys[i] in index && index[keys[i]] == list[i]
  }

  /** Every bucket entry is the indexed address itself, and the ledger names the same
      entries.  An address in limbo is indexed but not in the ledger. */
  ghost predicate Filed(index: map<Key, KnownAddress>, news: seq<map<Key, KnownAddress>>, tried: seq<seq<KnownAddress>>,
                        book: Ledger, limbo: set<Key>) {
    && index.Keys == book.keys + limbo && book.keys !! limbo
    && (forall k :: k in index ==> index[k].key == k)
    && |news| == |book.news| && |tried| == |book.tried|
    && (forall b :: 0 <= b < |news| ==> NewFiled(index, news[b], book.news[b]))
    && (forall b :: 0 <= b < |tried| ==> TriedFiled(index, tried[b], book.tried[b]))
  }

  lemma {:induction false} PlaceCounts(book: Ledger, b: nat, k: Key)
    requires b < |book.news|
    ensures forall x :: x != k ==> Count(Place(book, b, k).news, x) == Count(book.news, x)
  {
    hide Count;
    forall x | x != k
      ensures Count(Place(book, b, k).news, x) == Count(book.news, x)
    {
      CountUpdate(book.news, b, book.news[b] + {k}, x);
    }
  }

  lemma {:induction false} FiledPlace(index: map<Key, KnownAddress>, news: seq<map<Key, KnownAddress>>,
                                      tried: seq<seq<KnownAddress>>,
                   book: Ledger, limbo: set<Key>, b: nat, k: Key)
    requires Filed(index, news, tried, book, limbo) && limbo <= {k} && k in index && b < |book.news| &&
      k !in book.news[b]
    ensures |news| == |book.news| && Filed(index, news[b := news[b][k := index[k]]], tried, Place(book, b, k), {})
    ensures forall x :: x in index && x != k ==> index[x] != index[k]
    ensures forall x :: x in index && x != k ==> Count(Place(book, b, k).news, x) == Count(book.news, x)
    ensures |limbo| == One(k !in book.keys)
  {
    hide Count, TriedFiled, NewFiled;
    PlaceCounts(book, b, k);
    assert limbo == if k in book.keys then {} else {k};
    var news', book' := news[b := news[b][k := index[k]]], Place(book, b, k);
    assert NewFiled(index, news[b], book.news[b]);
    NewFiledOneMore(index, news[b], book.news[b], k);
    forall c | 0 <= c < |news'|
      ensures NewFiled(index, news'[c], book'.news[c])
    {
      assert NewFiled(index, news[c], book.news[c]);
    }
  }

  lemma NewFiledOneMore(index: map<Key, KnownAddress>, bucket: map<Key, KnownAddress>, keys: set<Key>, k: Key)
    requires NewFiled(index, bucket, keys) && k in index
    ensures NewFiled(index, bucket[k := index[k]], keys + {k})
  {
  }

  /** The index once an address has left a bucket: without it if that was its last one. */
  ghost function IndexAfter(index: map<Key, KnownAddress>, book: Ledger, k: Key): map<Key, KnownAddress> {
    if Count(book.news, k) == 1 then index - {k} else index
  }

  /** What is filed in a bucket stays filed when an entry goes from one. */
  lemma {:induction false} NewExpire(index: map<Key, KnownAddress>, news: seq<map<Key, KnownAddress>>, book: Ledger,
                                     b: nat, k: Key, c: nat)
    requires |news| == |book.news| && b < |news| && c < |news| && k in book.news[b]
    requires NewFiled(index, news[c], book.news[c])
    ensures NewFiled(IndexAfter(index, book, k), news[b := news[b] - {k}][c], Expire(book, b, {k}).news[c])
  {
    hide Count;
    LastPlace(book, b, k, c);
  }

  lemma {:induction false} TriedExpire(index: map<Key, KnownAddress>, list: seq<KnownAddress>, book: Ledger, b: nat,
                                       k: Key, c: nat)
    requires Inv(book) && b < |book.news| && k in book.news[b] && c < |book.tried|
    requires TriedFiled(index, list, book.tried[c])
    ensures TriedFiled(IndexAfter(index, book, k), list, book.tried[c])
  {
    hide Count, TriedKeys, PlacedOnce;
    ExpireCounts(book, b, k);
    NotTried(book, k, c);
  }

  lemma KeysExpire(index: map<Key, KnownAddress>, book: Ledger, limbo: set<Key>, b: nat, k: Key)
    requires index.Keys == book.keys + limbo && book.keys !! limbo && b < |book.news| && k in book.keys
    ensures IndexAfter(index, book, k).Keys == Expire(book, b, {k}).keys + limbo
  {
    hide Count;
    assert Orphaned(book, {k}) == if Count(book.news, k) == 1 then {k} else {};
  }

  lemma {:induction false} FiledExpire(index: map<Key, KnownAddress>, news: seq<map<Key, KnownAddress>>,
                                       tried: seq<seq<KnownAddress>>,
                                       book: Ledger, limbo: set<Key>, b: nat, k: Key)
    requires Filed(index, news, tried, book, limbo) && Inv(book) && b < |book.news| && k in book.news[b]
    ensures |news| == |book.news| && k in news[b] && k in index && news[b][k] == index[k]
    ensures Filed(IndexAfter(index, book, k), news[b := news[b] - {k}], tried, Expire(book, b, {k}), limbo)
    ensures forall x :: x in index && x != k ==> index[x] != index[k]
  {
    hide Count, Inv, Orphaned, TriedFiled;
    assert NewFiled(index, news[b], book.news[b]);
    KnownInBucket(book, b, k);
    KeysExpire(index, book, limbo, b, k);
    var index', news', book' := IndexAfter(index, book, k), news[b := news[b] - {k}], Expire(book, b, {k});
    forall c | 0 <= c < |news'|
      ensures NewFiled(index', news'[c], book'.news[c])
    {
      NewExpire(index, news, book, b, k, c);
    }
    forall c | 0 <= c < |tried|
      ensures TriedFiled(index', tried[c], book.tried[c])
    {
      TriedExpire(index, tried[c], book, b, k, c);
    }
  }

  lemma KnownInBucket(l: Ledger, b: nat, k: Key)
    requires Inv(l) && b < |l.news| && k in l.news[b]
    ensures k in l.keys
  {
  }

  /** An address in just one bucket is in no other. */
  lemma {:induction false} LastPlace(book: Ledger, b: nat, k: Key, c: nat)
    requires b < |book.news| && c < |book.news| && k in book.news[b]
    ensures k in book.news[c] && b != c ==> Count(book.news, k) >= 2
  {
    hide Count;
    var without := book.news[b := book.news[b] - {k}];
    CountUpdate(book.news, b, book.news[b] - {k}, k);
    CountZero(without, k);
    assert b != c ==> without[c] == book.news[c];
  }

  lemma NotTried(book: Ledger, k: Key, c: nat)
    requires c < |book.tried| && k !in TriedKeys(book.tried)
    ensures k !in book.tried[c]
  {
  }

  lemma {:induction false} ExpireCounts(book: Ledger, b: nat, k: Key)
    requires Inv(book) && b < |book.news| && k in book.news[b]
    ensures k in book.keys && k !in TriedKeys(book.tried) && Count(book.news, k) >= 1
    ensures Count(Expire(book, b, {k}).news, k) == Count(book.news, k) - 1
    ensures forall x :: x != k ==> Count(Expire(book, b, {k}).news, x) == Count(book.news, x)
    ensures |Orphaned(book, {k})| == One(Count(book.news, k) == 1)
  {
    hide Count, TriedKeys;
    CountUpdate(book.news, b, book.news[b] - {k}, k);
    CountZero(book.news, k);
    assert Settled(book, k);
    forall x | x != k
      ensures Count(Expire(book, b, {k}).news, x) == Count(book.news, x)
    {
      CountUpdate(book.news, b, book.news[b] - {k}, x);
    }
    assert Orphaned(book, {k}) == if Count(book.news, k) == 1 then {k} else {};
  }

  /** Among the visited addresses, `oldest` is one that is not bad and has the smallest
      timestamp; there is none when all of them are bad. */
  ghost predicate IsOldest(oldest: KnownAddress?, index: map<Key, KnownAddress>, visited: set<Key>, bad: Key -> bool)
    reads (if oldest == null then {} else {oldest})`timestamp, index.Values`timestamp
  {
    if oldest == null then forall k :: k in visited ==> bad(k)
    else
      && oldest.key in visited && oldest.key in index && index[oldest.key] == oldest && !bad(oldest.key)
      && forall k :: k in visited && k in index && !bad(k) ==> oldest.timestamp <= index[k].timestamp
  }

  ghost function Bad(keys: set<Key>, bad: Key -> bool): (r: set<Key>)
    ensures r <= keys
  {
    set k | k in keys && bad(k)
  }

  /** The bad entries and the oldest of the others. */
  ghost function Doomed(keys: set<Key>, bad: Key -> bool, oldest: KnownAddress?): set<Key> {
    Bad(keys, bad) + if oldest == null then {} else {oldest.key}
  }

  /** Addresses outside a bucket stay indexed, and no address changes. */
  ghost predicate SubIndex(index: map<Key, KnownAddress>, before: map<Key, KnownAddress>, bucket: set<Key>) {
    && (forall k :: k in index ==> k in before && index[k] == before[k])
    && (forall k :: k in before && k !in bucket ==> k in index)
  }

  /** News that is later, or names more services, renews the timestamp and adds the services. */
  ghost predicate Refreshed(time: int, services: set<nat>, time': int, services': set<nat>, newTime: int,
                            newServices: set<nat>) {
    if newTime > time || !(newServices <= services) then time' == newTime && services' == services + newServices
    else time' == time && services' == services
  }

  /** Services are only added, and only those the news names.  The timestamp goes forward exactly
      when the news is later, and back exactly when it is earlier but names a new service. */
  lemma RefreshedMeans(time: int, services: set<nat>, time': int, services': set<nat>, newTime: int,
                       newServices: set<nat>)
    requires Refreshed(time, services, time', services', newTime, newServices)
    ensures services <= services' <= services + newServices && time' in {time, newTime}
    ensures time' > time <==> newTime > time
    ensures time' < time <==> newTime < time && exists x :: x in newServices && x !in services
    ensures newServices <= services'
  {
  }

  /** The older of the two; the later one visited wins a tie. */
  ghost function Elder(oldest: KnownAddress?, v: KnownAddress): KnownAddress
    reads (if oldest == null then {} else {oldest})`timestamp, v`timestamp
  {
    if oldest == null || !(v.timestamp > oldest.timestamp) then v else oldest
  }

  /** Before any entry is visited there is neither a bad one nor an oldest. */
  lemma NoneVisited(index: map<Key, KnownAddress>, keys: set<Key>, bad: Key -> bool)
    ensures keys - keys == {} && keys - {} == keys && Bad({}, bad) == {}
    ensures IsOldest(null, index, {}, bad)
  {
  }

  /** One more entry visited: a bad one is marked, another stands against the oldest. */
  lemma OneVisited(oldest: KnownAddress?, index: map<Key, KnownAddress>, keys: set<Key>, rest: set<Key>,
                   bad: Key -> bool, k: Key)
    requires rest <= keys && k in rest
    requires IsOldest(oldest, index, keys - rest, bad) && k in index && index[k].key == k
    ensures Bad(keys - (rest - {k}), bad) == Bad(keys - rest, bad) + if bad(k) then {k} else {}
    ensures IsOldest(if bad(k) then oldest else Elder(oldest, index[k]), index, keys - (rest - {k}), bad)
  {
    assert keys - (rest - {k}) == (keys - rest) + {k};
  }

  lemma SubIndexNext(index: map<Key, KnownAddress>, before: map<Key, KnownAddress>, bucket: set<Key>, book: Ledger,
                     k: Key)
    requires SubIndex(index, before, bucket)
    ensures k in bucket ==> SubIndex(IndexAfter(index, book, k), before, bucket)
    ensures k in index ==> k in before && before[k] == index[k]
    ensures index.Values <= before.Values
  {
  }

  lemma SubIndexSelf(index: map<Key, KnownAddress>, bucket: set<Key>)
    ensures SubIndex(index, index, bucket)
  {
  }

  class Manager {
    var addrIndex: map<Key, KnownAddress>
    var addrNew: seq<map<Key, KnownAddress>>
    var addrTried: seq<seq<KnownAddress>>
    var nNew: int
    var nTried: int
    ghost var book: Ledger
    /** The buckets come from hashing, which is outside this model. */
    const newBucketOf: (Key, Key) -> nat
    const triedBucketOf: Key -> nat

    /** An address's own fields agree with the ledger. */
    ghost predicate Flagged(k: Key)
      requires k in addrIndex
      reads this, addrIndex.Values`refs, addrIndex.Values`tried
    {
      addrIndex[k].refs == Count(book.news, k) && (addrIndex[k].tried <==> k in TriedKeys(book.tried))
    }

    /** The counters and the addresses agree with the ledger; `extra` addresses more or
        fewer are counted as new. */
    ghost predicate Counted(extra: int)
      reads this, addrIndex.Values`refs, addrIndex.Values`tried
    {
      && (forall k :: k in addrIndex ==> Flagged(k))
      && nNew == NewCount(book) + extra && nTried == Total(book.tried)
    }

    ghost predicate ValidBut(limbo: set<Key>, extra: int)
      reads this, addrIndex.Values`refs, addrIndex.Values`tried
    {
      Inv(book) && Filed(addrIndex, addrNew, addrTried, book, limbo) && Counted(extra)
    }

    /** The reference count of every known address is the number of new buckets it is in;
        a known address is tried, with one place in the tried buckets, or in one to eight
        new buckets, never both; the counters count the two kinds; and bucket sizes are
        bounded. */
    ghost predicate Valid()
      reads this, addrIndex.Values`refs, addrIndex.Values`tried
    {
      ValidBut({}, 0)
    }

    /** A place in the tried buckets. */
    ghost predicate TriedPlace(t: int, i: int)
      reads `addrTried
    {
      0 <= t < |addrTried| && 0 <= i < |addrTried[t]|
    }

    /** What is in a tried place is a tried address, and the ledger names it there. */
    lemma InPlace(t: int, i: int)
      requires Valid() && TriedPlace(t, i)
      ensures t < |book.tried| && i < |book.tried[t]| && book.tried[t][i] == addrTried[t][i].key
      ensures
        var ka := addrTried[t][i];
        ka.key in addrIndex && addrIndex[ka.key] == ka && ka.tried
    {
      hide Count, Total, PlacedOnce, Settled;
      assert TriedFiled(addrIndex, addrTried[t], book.tried[t]);
      assert book.tried[t][i] in TriedKeys(book.tried) && Flagged(book.tried[t][i]);
    }

    lemma HasPlace(k: Key)
      requires Valid() && k in addrIndex && addrIndex[k].tried
      ensures exists t, i :: TriedPlace(t, i) && addrTried[t][i] == addrIndex[k]
    {
      hide Count, Total, PlacedOnce, Settled;
      assert Flagged(k);
      var t, i :| 0 <= t < |book.tried| && 0 <= i < |book.tried[t]| && book.tried[t][i] == k;
      assert TriedFiled(addrIndex, addrTried[t], book.tried[t]);
      assert TriedPlace(t, i);
    }

    /** The addresses in the tried buckets are the tried ones, and each has one place. */
    lemma TriedPlaces()
      requires Valid()
      ensures forall k :: k in addrIndex ==>
        (addrIndex[k].tried <==> exists t, i :: TriedPlace(t, i) && addrTried[t][i] == addrIndex[k])
      ensures forall t, i, t', i' ::
        TriedPlace(t, i) && TriedPlace(t', i') && addrTried[t][i] == addrTried[t'][i'] ==> t == t' && i == i'
    {
      hide Count, Total, TriedKeys, Settled, Filed, Counted;
      forall k | k in addrIndex
        ensures addrIndex[k].tried <==> exists t, i :: TriedPlace(t, i) && addrTried[t][i] == addrIndex[k]
      {
        if addrIndex[k].tried {
          HasPlace(k);
        }
        forall t, i | TriedPlace(t, i)
          ensures addrTried[t][i].tried
        {
          InPlace(t, i);
        }
      }
      forall t, i, t', i' | TriedPlace(t, i) && TriedPlace(t', i') && addrTried[t][i] == addrTried[t'][i']
        ensures t == t' && i == i'
      {
        InPlace(t, i);
        InPlace(t', i');
      }
    }

    lemma BucketBounds()
      requires Valid()
      ensures forall b :: 0 <= b < |addrNew| ==> |addrNew[b]| <= NEW_BUCKET_SIZE + 1
      ensures forall b :: 0 <= b < |addrTried| ==> |addrTried[b]| <= TRIED_BUCKET_SIZE
    {
      hide Count, TriedKeys, Total, PlacedOnce, Settled;
      forall b | 0 <= b < |addrNew|
        ensures |addrNew[b]| <= NEW_BUCKET_SIZE + 1
      {
        assert NewFiled(addrIndex, addrNew[b], book.news[b]);
        assert |addrNew[b]| == |addrNew[b].Keys|;
      }
      forall b | 0 <= b < |addrTried|
        ensures |addrTried[b]| <= TRIED_BUCKET_SIZE
      {
        assert TriedFiled(addrIndex, addrTried[b], book.tried[b]);
      }
    }

    lemma RefsMean(k: Key)
      requires Valid() && k in addrIndex
      ensures addrIndex[k].refs == |set b | 0 <= b < |addrNew| && k in addrNew[b]|
      ensures addrIndex[k].tried <==> k in TriedKeys(book.tried)
      ensures if addrIndex[k].tried then addrIndex[k].refs == 0 else 1 <= addrIndex[k].refs <= NEW_BUCKETS_PER_ADDRESS
    {
      hide Count, TriedKeys, Total, PlacedOnce;
      assert Flagged(k) && Settled(book, k);
      CountIsCardinality(book.news, k);
      SamePlaces(addrIndex, addrNew, addrTried, book, k);
    }

    /** The counters count the addresses that are not tried and those that are. */
    lemma CountersMean()
      requires Valid()
      ensures nNew == |set k | k in addrIndex && !addrIndex[k].tried|
      ensures nTried == |set k | k in addrIndex && addrIndex[k].tried|
    {
      hide Count, TriedKeys, Total, Filed, PlacedOnce, Inv, Settled, Shaped;
      TriedShape(book);
      TriedCount(book.tried);
      FiledIndexKeys(addrIndex, addrNew, addrTried, book);
      forall k | k in addrIndex
        ensures addrIndex[k].tried <==> k in TriedKeys(book.tried)
      {
        RefsMean(k);
      }
      assert (set k | k in addrIndex && addrIndex[k].tried) == TriedKeys(book.tried);
      assert (set k | k in addrIndex && !addrIndex[k].tried) == book.keys - TriedKeys(book.tried);
    }

    /** What validity means without the ledger. */
    lemma Meaning()
      requires Valid()
      ensures nNew == |set k | k in addrIndex && !addrIndex[k].tried|
      ensures nTried == |set k | k in addrIndex && addrIndex[k].tried|
      ensures forall k :: k in addrIndex ==> addrIndex[k].refs == |set b | 0 <= b < |addrNew| && k in addrNew[b]|
      ensures forall k :: k in addrIndex ==>
        if addrIndex[k].tried then addrIndex[k].refs == 0 else 1 <= addrIndex[k].refs <= NEW_BUCKETS_PER_ADDRESS
      ensures forall b :: 0 <= b < |addrNew| ==> |addrNew[b]| <= NEW_BUCKET_SIZE + 1
      ensures forall b :: 0 <= b < |addrTried| ==> |addrTried[b]| <= TRIED_BUCKET_SIZE
      ensures forall k :: k in addrIndex ==>
        (addrIndex[k].tried <==> exists t, i :: TriedPlace(t, i) && addrTried[t][i] == addrIndex[k])
      ensures forall t, i, t', i' ::
        TriedPlace(t, i) && TriedPlace(t', i') && addrTried[t][i] == addrTried[t'][i'] ==> t == t' && i == i'
    {
      hide TriedPlace, ValidBut;
      TriedPlaces();
      CountersMean();
      BucketBounds();
      forall k | k in addrIndex
        ensures addrIndex[k].refs == |set b | 0 <= b < |addrNew| && k in addrNew[b]|
        ensures if addrIndex[k].tried then addrIndex[k].refs == 0 else 1 <= addrIndex[k].refs <= NEW_BUCKETS_PER_ADDRESS
      {
        RefsMean(k);
      }
    }

    /** The ledger's new buckets are the keys of the new buckets. */
    lemma BucketSizes()
      requires Valid()
      ensures |addrNew| == |book.news| == NEW_BUCKET_COUNT
      ensures forall b :: 0 <= b < NEW_BUCKET_COUNT ==> addrNew[b].Keys == book.news[b]
      ensures forall b :: 0 <= b < NEW_BUCKET_COUNT ==> |addrNew[b]| == |book.news[b]|
    {
      hide Inv, Filed, Counted;
      BucketCount();
      FiledShape(addrIndex, addrNew, addrTried, book);
      forall b | 0 <= b < NEW_BUCKET_COUNT
        ensures addrNew[b].Keys == book.news[b] && |addrNew[b]| == |book.news[b]|
      {
        BucketIs(b, {});
        assert |addrNew[b]| == |addrNew[b].Keys|;
      }
    }

    constructor (newBucketOf: (Key, Key) -> nat, triedBucketOf: Key -> nat)
      ensures Valid() && addrIndex == map[] && nNew == 0 && nTried == 0
      ensures this.newBucketOf == newBucketOf && this.triedBucketOf == triedBucketOf
    {
      this.newBucketOf, this.triedBucketOf := newBucketOf, triedBucketOf;
      addrIndex := map[];
      addrNew := seq(NEW_BUCKET_COUNT, _ => map[]);
      addrTried := seq(TRIED_BUCKET_COUNT, _ => []);
      nNew, nTried := 0, 0;
      book := Ledger({}, seq(NEW_BUCKET_COUNT, _ => {}), seq(TRIED_BUCKET_COUNT, _ => []));
      new;
      EmptyTotal(book.tried);
    }

    static lemma {:induction false} EmptyTotal(tried: seq<seq<Key>>)
      requires forall b :: 0 <= b < |tried| ==> tried[b] == []
      ensures Total(tried) == 0
    {
      if tried != [] {
        EmptyTotal(tried[..|tried| - 1]);
      }
    }

    /** Puts an address into a new bucket. */
    method PlaceIn(ka: KnownAddress, b: nat, ghost limbo: set<Key>)
      requires ValidBut(limbo, |limbo|) && limbo <= {ka.key} && ka.key in addrIndex && addrIndex[ka.key] == ka
      requires CanPlace(book, b, ka.key)
      modifies this, ka`refs
      ensures Valid() && book == Place(old(book), b, ka.key) && addrIndex == old(addrIndex)
    {
      hide Inv, Count, TriedKeys, Total, NewCount, Filed;
      var k := ka.key;
      PlaceInv(book, b, k);
      FiledPlace(addrIndex, addrNew, addrTried, book, limbo, b, k);
      ka.refs := ka.refs + 1;
      addrNew := addrNew[b := addrNew[b][k := ka]];
      book := Place(book, b, k);
    }

    /** Takes an entry out of a new bucket, and out of the index if that was its last one. */
    method ExpireOne(b: nat, k: Key, ghost limbo: set<Key>, ghost extra: int)
      requires ValidBut(limbo, extra) && b < |book.news| && k in book.news[b]
      modifies this, addrIndex.Values`refs
      ensures ValidBut(limbo, extra) && book == Expire(old(book), b, {k})
      ensures addrIndex == IndexAfter(old(addrIndex), old(book), k)
    {
      hide Inv, Count, TriedKeys, Total, NewCount, Filed, Orphaned;
      ExpireInv(book, b, {k});
      ExpireCounts(book, b, k);
      FiledExpire(addrIndex, addrNew, addrTried, book, limbo, b, k);
      var v := addrNew[b][k];
      assert Flagged(k);
      addrNew := addrNew[b := addrNew[b] - {k}];
      v.refs := v.refs - 1;
      if v.refs == 0 {
        nNew := nNew - 1;
        addrIndex := addrIndex - {k};
      }
      book := Expire(book, b, {k});
      forall x | x in addrIndex
        ensures Flagged(x)
      {
        assert old(Flagged(x));
      }
    }

    /** The entry at a key of a bucket, as the ledger and the index have it. */
    lemma EntryAt(b: nat, k: Key, limbo: set<Key>)
      requires Filed(addrIndex, addrNew, addrTried, book, limbo) && b < |book.news| && k in book.news[b]
      ensures b < |addrNew| && k in addrNew[b] && k in addrIndex && addrNew[b][k] == addrIndex[k] &&
        addrIndex[k].key == k
    {
      assert NewFiled(addrIndex, addrNew[b], book.news[b]);
    }

    static lemma ExpireNone(l: Ledger, b: nat)
      requires b < |l.news|
      ensures Expire(l, b, {}) == l
    {
      assert l.news[b] - {} == l.news[b] && Orphaned(l, {}) == {};
    }

    static lemma ExpireNext(l: Ledger, b: nat, gone: set<Key>, k: Key)
      requires b < |l.news| && gone <= l.news[b] && k in l.news[b] - gone
      ensures b < |Expire(l, b, gone).news| && k in Expire(l, b, gone).news[b]
      ensures Expire(Expire(l, b, gone), b, {k}) == Expire(l, b, gone + {k})
    {
      ExpireOneMore(l, b, gone, k);
    }

    /** Looks at one entry of a bucket: a bad one goes, another may be the oldest so far. */
    method VisitEntry(b: nat, k: Key, isBad: bool, oldest: KnownAddress?, ghost limbo: set<Key>, ghost extra: int)
      returns (oldest': KnownAddress?)
      requires ValidBut(limbo, extra) && b < |book.news| && k in book.news[b]
      modifies this, addrIndex.Values`refs
      ensures ValidBut(limbo, extra)
      ensures isBad ==> book == Expire(old(book), b, {k}) && oldest' == oldest
      ensures !isBad ==> k in addrIndex && book == old(book) && oldest' == Elder(oldest, addrIndex[k])
      ensures addrIndex == if isBad then IndexAfter(old(addrIndex), old(book), k) else old(addrIndex)
    {
      hide Inv, Count, Filed, Counted, Expire;
      EntryAt(b, k, limbo);
      var v := addrNew[b][k];
      oldest' := oldest;
      if isBad {
        ExpireOne(b, k, limbo, extra);
      } else if oldest == null || !(v.timestamp > oldest.timestamp) {
        oldest' := v;
      }
    }

    /** Part of a bucket's entries has been looked at: the bad ones of them are gone, and the
        oldest of the others is known. */
    ghost predicate Sweeping(b: nat, bad: Key -> bool, limbo: set<Key>, extra: int, start: Ledger,
                             index: map<Key, KnownAddress>, rest: set<Key>, oldest: KnownAddress?, gone: set<Key>)
      reads this, addrIndex.Values`refs, addrIndex.Values`tried, index.Values`timestamp
      reads (if oldest == null then {} else {oldest})`timestamp
    {
      && ValidBut(limbo, extra) && b < |start.news| && rest <= start.news[b]
      && gone == Bad(start.news[b] - rest, bad) && book == Expire(start, b, gone)
      && IsOldest(oldest, index, start.news[b] - rest, bad) && SubIndex(addrIndex, index, start.news[b])
    }

    /** Looks at one more entry. */
    method SweepEntry(b: nat, bad: Key -> bool, k: Key, oldest: KnownAddress?, ghost limbo: set<Key>, ghost extra: int,
                      ghost start: Ledger, ghost index: map<Key, KnownAddress>, ghost rest: set<Key>,
                      ghost gone: set<Key>)
      returns (oldest': KnownAddress?, ghost gone': set<Key>)
      requires Sweeping(b, bad, limbo, extra, start, index, rest, oldest, gone) && k in rest
      modifies this, index.Values`refs
      ensures Sweeping(b, bad, limbo, extra, start, index, rest - {k}, oldest', gone')
    {
      hide Inv, Count, TriedKeys, Total, NewCount, Filed, Counted, Expire, IsOldest, Bad, SubIndex, IndexAfter;
      ExpireNext(start, b, gone, k);
      EntryAt(b, k, limbo);
      SubIndexNext(addrIndex, index, start.news[b], book, k);
      oldest' := VisitEntry(b, k, bad(k), oldest, limbo, extra);
      OneVisited(oldest, index, start.news[b], rest, bad, k);
      gone' := if bad(k) then gone + {k} else gone;
    }

    /** Takes the bad entries out of a bucket and finds the oldest of the others. */
    method SweepBucket(b: nat, bad: Key -> bool, ghost limbo: set<Key>, ghost extra: int)
      returns (oldest: KnownAddress?, ghost gone: set<Key>)
      requires ValidBut(limbo, extra) && b < |book.news|
      modifies this, addrIndex.Values`refs
      ensures ValidBut(limbo, extra) && gone == Bad(old(book.news[b]), bad)
      ensures book == Expire(old(book), b, gone)
      ensures IsOldest(oldest, old(addrIndex), old(book.news[b]), bad)
      ensures SubIndex(addrIndex, old(addrIndex), old(book.news[b]))
    {
      hide Inv, Count, TriedKeys, Total, NewCount, Filed, Counted, Expire, IsOldest, Bad, SubIndex;
      ghost var start, index := book, addrIndex;
      ExpireNone(start, b);
      BucketIs(b, limbo);
      NoneVisited(index, start.news[b], bad);
      SubIndexSelf(index, start.news[b]);
      oldest, gone := null, {};
      var rest := addrNew[b].Keys;
      while rest != {}
        invariant Sweeping(b, bad, limbo, extra, start, index, rest, oldest, gone)
        decreases |rest|
      {
        var k :| k in rest;
        oldest, gone := SweepEntry(b, bad, k, oldest, limbo, extra, start, index, rest, gone);
        rest := rest - {k};
      }
    }

    /** Makes room in a new bucket: every bad entry goes, and the oldest of the others. */
    method ExpireNew(b: nat, bad: Key -> bool, ghost limbo: set<Key>, ghost extra: int)
      returns (ghost eldest: KnownAddress?)
      requires ValidBut(limbo, extra) && b < |book.news|
      modifies this, addrIndex.Values`refs
      ensures ValidBut(limbo, extra)
      ensures book == Expire(old(book), b, Doomed(old(book.news[b]), bad, eldest))
      ensures IsOldest(eldest, old(addrIndex), old(book.news[b]), bad)
      ensures SubIndex(addrIndex, old(addrIndex), old(book.news[b]))
    {
      hide Inv, Count, TriedKeys, Total, NewCount, Filed, Counted, Expire;
      ghost var start, keys := book, book.news[b];
      ghost var gone;
      var oldest;
      oldest, gone := SweepBucket(b, bad, limbo, extra);
      eldest := oldest;
      if oldest != null {
        var key := oldest.key;
        ExpireNext(start, b, gone, key);
        ExpireOne(b, key, limbo, extra);
      }
      assert Doomed(keys, bad, eldest) == if eldest == null then gone else gone + {eldest.key};
    }

    lemma BucketIs(b: nat, limbo: set<Key>)
      requires Filed(addrIndex, addrNew, addrTried, book, limbo) && b < |book.news|
      ensures b < |addrNew| && addrNew[b].Keys == book.news[b]
      ensures forall k :: k in addrNew[b] ==> k in addrIndex && addrNew[b][k] == addrIndex[k]
    {
      assert NewFiled(addrIndex, addrNew[b], book.news[b]);
    }

    // ----- Hearing of an address -----

    /** Indexes an address that is not in any bucket yet, and counts it as new. */
    method Introduce(key: Key, src: Key, timestamp: int, services: set<nat>) returns (ka: KnownAddress)
      requires Valid() && key !in addrIndex
      modifies this
      ensures ValidBut({key}, 1) && book == old(book) && addrIndex == old(addrIndex)[key := ka]
      ensures fresh(ka) && ka.key == key && ka.src == src && ka.timestamp == timestamp && ka.services == services
      ensures Count(book.news, key) == 0 && key !in TriedKeys(book.tried)
      ensures forall b :: 0 <= b < |book.news| ==> key !in book.news[b]
    {
      hide Inv, Count, TriedKeys, Total, NewCount, Filed;
      FiledIndexKeys(addrIndex, addrNew, addrTried, book);
      UnknownNowhere(book, key);
      ka := new KnownAddress(key, src, timestamp, services);
      FiledIntroduce(addrIndex, addrNew, addrTried, book, key, ka);
      addrIndex := addrIndex[key := ka];
      nNew := nNew + 1;
    }

    /** Renews what is known of an address when the news is later or names more services. */
    method Refresh(ka: KnownAddress, timestamp: int, services: set<nat>)
      modifies ka`timestamp, ka`services
      ensures Refreshed(old(ka.timestamp), old(ka.services), ka.timestamp, ka.services, timestamp, services)
    {
      if timestamp > ka.timestamp || !(services <= ka.services) {
        ka.timestamp := timestamp;
        ka.services := ka.services + services;
      }
    }

    /** Puts an address into a bucket it is not in, making room first when it is over full. */
    method AddToBucket(ka: KnownAddress, b: nat, bad: Key -> bool, ghost limbo: set<Key>)
      returns (ghost eldest: KnownAddress?)
      requires ValidBut(limbo, |limbo|) && limbo <= {ka.key} && ka.key in addrIndex && addrIndex[ka.key] == ka
      requires b < |book.news| && ka.key !in book.news[b] && ka.key !in TriedKeys(book.tried)
      requires Count(book.news, ka.key) < NEW_BUCKETS_PER_ADDRESS
      modifies this, addrIndex.Values`refs
      ensures Valid()
      ensures |old(book.news[b])| > NEW_BUCKET_SIZE ==> IsOldest(eldest, old(addrIndex), old(book.news[b]), bad)
      ensures book == Joined(old(book), b, ka.key, bad, eldest)
      ensures |book.news| == |old(book.news)| && (|book.news[b]| > NEW_BUCKET_SIZE <==> FillsUp(old(book.news[b]), bad))
      ensures forall c :: 0 <= c < |book.news| && c != b ==> book.news[c] == old(book.news[c])
      ensures SubIndex(addrIndex, old(addrIndex), old(book.news[b]))
    {
      hide Inv, Count, TriedKeys, Total, NewCount, Filed, Counted, Expire, Doomed, FillsUp, IsOldest, Bad;
      ghost var start, keys := book, book.news[b];
      BucketIs(b, limbo);
      assert |addrNew[b]| == |addrNew[b].Keys|;
      eldest := null;
      if |addrNew[b]| > NEW_BUCKET_SIZE {
        eldest := ExpireNew(b, bad, limbo, |limbo|);
        OldestFacts(eldest, old(addrIndex), keys, bad);
        DoomedNonempty(keys, bad, eldest);
        RoomMade(start, b, ka.key, Doomed(keys, bad, eldest));
      }
      BucketBound(start, b);
      JoinedSize(start, b, ka.key, bad, eldest);
      PlaceIn(ka, b, limbo);
    }

    /** What the ledger says of an indexed address is what the address says of itself. */
    lemma KnownFacts(k: Key)
      requires Valid() && k in addrIndex
      ensures k in book.keys && addrIndex[k].key == k
      ensures addrIndex[k].refs == Count(book.news, k) && (addrIndex[k].tried <==> k in TriedKeys(book.tried))
      ensures !addrIndex[k].tried ==> 1 <= addrIndex[k].refs <= NEW_BUCKETS_PER_ADDRESS
      ensures addrIndex[k].tried ==> addrIndex[k].refs == 0
    {
      assert Flagged(k) && Settled(book, k);
    }

    /** When an address joins a bucket, by what is kept of it: it is not there, and it is unknown,
        or it is not tried, has fewer than eight references, and draws zero out of twice as many
        as it has. */
    lemma JoinsMeans(key: Key, b: nat, draw: nat -> nat)
      requires Valid() && b < |book.news|
      ensures b < |addrNew| && (key in addrIndex && !addrIndex[key].tried ==> addrIndex[key].refs >= 0)
      ensures Joins(book, b, key, draw) <==>
        && key !in addrNew[b]
        && (key in addrIndex ==>
            && !addrIndex[key].tried && addrIndex[key].refs < 8
            && draw(2 * if addrIndex[key].refs >= 0 then addrIndex[key].refs else 0) == 0)
    {
      hide Inv, Filed, Counted;
      BucketIs(b, {});
      FiledIndexKeys(addrIndex, addrNew, addrTried, book);
      if key in addrIndex {
        KnownFacts(key);
      }
    }

    /** Hears of an address from a source.  The bucket it joins ends above its nominal size if and
        only if it held exactly that many, or one more with no bad entry among them; every other
        bucket is as it was. */
    method UpdateAddress(key: Key, src: Key, timestamp: int, services: set<nat>, routable: bool, draw: nat -> nat,
                         bad: Key -> bool)
      returns (ghost eldest: KnownAddress?)
      requires Valid()
      modifies this, addrIndex.Values
      ensures Valid()
      ensures
        var b := newBucketOf(key, src) % NEW_BUCKET_COUNT;
        if routable && Joins(old(book), b, key, draw) then
          && book == Joined(old(book), b, key, bad, eldest)
          && (|old(book.news[b])| > NEW_BUCKET_SIZE ==> IsOldest(eldest, old(addrIndex), old(book.news[b]), bad))
        else book == old(book) && addrIndex == old(addrIndex)
      ensures
        var b := newBucketOf(key, src) % NEW_BUCKET_COUNT;
        forall c :: 0 <= c < NEW_BUCKET_COUNT ==>
          (|book.news[c]| > NEW_BUCKET_SIZE <==>
            if c == b && routable && Joins(old(book), b, key, draw) then FillsUp(old(book.news[c]), bad)
            else |old(book.news[c])| > NEW_BUCKET_SIZE)
      ensures routable ==> key in addrIndex
      ensures routable && key in old(addrIndex) ==>
        && addrIndex[key] == old(addrIndex[key])
        && Refreshed(old(addrIndex[key].timestamp), old(addrIndex[key].services), addrIndex[key].timestamp,
          addrIndex[key].services, timestamp, services)
      ensures routable && key !in old(addrIndex) ==>
        fresh(addrIndex[key]) && addrIndex[key].src == src && addrIndex[key].timestamp == timestamp &&
          addrIndex[key].services == services
      ensures forall k :: k in addrIndex && k != key ==> k in old(addrIndex) && addrIndex[k] == old(addrIndex[k])
    {
      hide Inv, Count, TriedKeys, Total, NewCount, Filed, Counted, Joined, FillsUp;
      eldest := null;
      BucketCount();
      var b := newBucketOf(key, src) % NEW_BUCKET_COUNT;
      FiledIndexKeys(addrIndex, addrNew, addrTried, book);
      if !routable {
        return;
      }
      var ka;
      ghost var limbo := {};
      if key in addrIndex {
        ka := addrIndex[key];
        KnownFacts(key);
        Refresh(ka, timestamp, services);
        KnownFacts(key);
        if ka.tried {
          return;
        }
        if ka.refs == NEW_BUCKETS_PER_ADDRESS {
          return;
        }
        var factor := 2 * ka.refs;
        assert factor > 0;
        if draw(factor) != 0 {
          return;
        }
      } else {
        ka := Introduce(key, src, timestamp, services);
        limbo := {key};
      }
      BucketIs(b, limbo);
      if key in addrNew[b] {
        return;
      }
      eldest := AddToBucket(ka, b, bad, limbo);
    }

    lemma BucketCount()
      requires Valid()
      ensures |book.news| == NEW_BUCKET_COUNT && |book.tried| == TRIED_BUCKET_COUNT
    {
    }

    // ----- A good connection -----

    /** Takes an address out of every new bucket, and remembers the first of them. */
    method StripBuckets(ka: KnownAddress) returns (oldBucket: int)
      requires Filed(addrIndex, addrNew, addrTried, book, {}) && |addrNew| == |book.news|
      requires ka.refs == Count(book.news, ka.key)
      modifies `addrNew, ka`refs
      ensures |addrNew| == |book.news| && addrNew == StripMaps(old(addrNew), |addrNew|, ka.key)
      ensures ka.refs == Count(Strip(book.news, |book.news|, ka.key), ka.key)
      ensures
        if oldBucket == -1 then forall b :: 0 <= b < |book.news| ==> ka.key !in book.news[b]
        else 0 <= oldBucket < |book.news| && ka.key in book.news[oldBucket] && forall b :: 0 <= b < oldBucket ==>
          ka.key !in book.news[b]
    {
      hide Count, Filed, Strip, NewFiled;
      var k := ka.key;
      StripStart(book.news, addrNew, k);
      oldBucket := -1;
      for i := 0 to |addrNew|
        invariant |addrNew| == |book.news| && addrNew == StripMaps(old(addrNew), i, k)
        invariant ka.refs == Count(Strip(book.news, i, k), k)
        invariant oldBucket == -1 ==> forall b :: 0 <= b < i ==> k !in book.news[b]
        invariant oldBucket != -1 ==>
          0 <= oldBucket < i && k in book.news[oldBucket] && forall b :: 0 <= b < oldBucket ==> k !in book.news[b]
      {
        StripStep(book.news, i, k);
        StripMapsStep(old(addrNew), i, k);
        BucketHas(addrIndex, old(addrNew), addrTried, book, i, k);
        if k in addrNew[i] {
          addrNew := addrNew[i := addrNew[i] - {k}];
          ka.refs := ka.refs - 1;
          if oldBucket == -1 {
            oldBucket := i;
          }
        }
      }
    }

    /** An address leaves the new buckets, to be placed among the tried ones. */
    method LeaveNew(ka: KnownAddress) returns (oldBucket: int)
      requires Valid() && ka.key in addrIndex && addrIndex[ka.key] == ka && !ka.tried
      modifies this, ka`refs
      ensures ValidBut({ka.key}, 0) && book == Promote(old(book), ka.key) && addrIndex == old(addrIndex)
      ensures 0 <= oldBucket < |book.news| && ka.key in old(book.news[oldBucket])
      ensures forall b :: 0 <= b < oldBucket ==> ka.key !in old(book.news[b])
    {
      hide Inv, Count, TriedKeys, Total, NewCount, Filed, Promote, Strip, NewFiled;
      var k := ka.key;
      KnownFacts(k);
      PromoteInv(book, k);
      FiledPromote(addrIndex, addrNew, addrTried, book, k);
      PromoteCounts(book, k);
      oldBucket := StripBuckets(ka);
      StripAll(book.news, k);
      nNew := nNew - 1;
      SomeBucket(book, k);
      book := Promote(book, k);
    }

    /** Puts an address at the end of a tried bucket with room. */
    method PushTried(ka: KnownAddress, t: nat)
      requires ValidBut({ka.key}, 0) && ka.key in addrIndex && addrIndex[ka.key] == ka && CanPush(book, t, ka.key)
      modifies this, ka`tried
      ensures Valid() && book == Push(old(book), t, ka.key) && addrIndex == old(addrIndex)
    {
      hide Inv, Count, TriedKeys, Total, NewCount, Filed;
      var k := ka.key;
      PushInv(book, t, k);
      FiledPush(addrIndex, addrNew, addrTried, book, t, k);
      ka.tried := true;
      addrTried := addrTried[t := addrTried[t] + [ka]];
      nTried := nTried + 1;
      book := Push(book, t, k);
    }

    /** Puts an address in the place of another in a tried bucket; the other counts as new but
        is in no bucket yet. */
    method SwapTried(ka: KnownAddress, t: nat, i: nat) returns (rm: KnownAddress)
      requires ValidBut({ka.key}, 0) && ka.key in addrIndex && addrIndex[ka.key] == ka && Count(book.news, ka.key) == 0
      requires t < |book.tried| && i < |book.tried[t]|
      modifies this, addrIndex.Values`tried
      ensures ValidBut({rm.key}, 1) && book == Swap(old(book), t, i, ka.key) && addrIndex == old(addrIndex)
      ensures rm.key == old(book.tried[t][i]) && rm.key in addrIndex && addrIndex[rm.key] == rm
    {
      hide Inv, Count, TriedKeys, Total, NewCount, Filed;
      var k := ka.key;
      LimboKey(addrIndex, addrNew, addrTried, book, k);
      SwapInv(book, t, i, k);
      FiledSwap(addrIndex, addrNew, addrTried, book, t, i, k);
      rm := addrTried[t][i];
      addrTried := addrTried[t := addrTried[t][i := ka]];
      ka.tried := true;
      rm.tried := false;
      nNew := nNew + 1;
      book := Swap(book, t, i, k);
    }

    /** The first entry of a tried bucket with the smallest timestamp. */
    method PickTried(t: nat) returns (i: nat)
      requires t < |addrTried| && addrTried[t] != []
      ensures i < |addrTried[t]|
      ensures forall j :: 0 <= j < |addrTried[t]| ==> addrTried[t][i].timestamp <= addrTried[t][j].timestamp
      ensures forall j :: 0 <= j < i ==> addrTried[t][i].timestamp < addrTried[t][j].timestamp
    {
      i := 0;
      for j := 1 to |addrTried[t]|
        invariant i < j
        invariant forall m :: 0 <= m < j ==> addrTried[t][i].timestamp <= addrTried[t][m].timestamp
        invariant forall m :: 0 <= m < i ==> addrTried[t][i].timestamp < addrTried[t][m].timestamp
      {
        if addrTried[t][i].timestamp > addrTried[t][j].timestamp {
          i := j;
        }
      }
    }

    lemma TriedListIs(t: nat, limbo: set<Key>)
      requires Filed(addrIndex, addrNew, addrTried, book, limbo) && t < |book.tried|
      ensures t < |addrTried| && |addrTried[t]| == |book.tried[t]|
      ensures forall j :: 0 <= j < |addrTried[t]| ==>
        book.tried[t][j] == addrTried[t][j].key && book.tried[t][j] in addrIndex &&
          addrIndex[book.tried[t][j]] == addrTried[t][j]
    {
      assert TriedFiled(addrIndex, addrTried[t], book.tried[t]);
    }

    /** Makes an address tried in the place of the oldest one of its full bucket, which goes
        back to the new buckets: to its own bucket, or to the one just left if that is full. */
    method Evict(ka: KnownAddress, t: nat, oldBucket: nat) returns (ghost i: nat)
      requires ValidBut({ka.key}, 0) && ka.key in addrIndex && addrIndex[ka.key] == ka && Count(book.news, ka.key) == 0
      requires t < |book.tried| && book.tried[t] != [] && oldBucket < |book.news| &&
        |book.news[oldBucket]| <= NEW_BUCKET_SIZE
      modifies this, addrIndex.Values`tried, addrIndex.Values`refs
      ensures Valid() && addrIndex == old(addrIndex)
      ensures Eldest(addrIndex, old(book.tried[t]), i)
      ensures Exchanged(old(book), book, addrIndex, newBucketOf, ka.key, t, i, oldBucket)
    {
      hide Inv, Count, TriedKeys, Total, NewCount, Filed, Counted, Place, Swap;
      LedgerShape(book);
      TriedListIs(t, {ka.key});
      var e := PickTried(t);
      i := e;
      var rm := addrTried[t][e];
      var newBucket := newBucketOf(rm.key, rm.src) % NEW_BUCKET_COUNT;
      BucketIs(newBucket, {ka.key});
      assert |addrNew[newBucket]| == |addrNew[newBucket].Keys|;
      if |addrNew[newBucket]| >= NEW_BUCKET_SIZE {
        newBucket := oldBucket;
      }
      LimboKey(addrIndex, addrNew, addrTried, book, ka.key);
      SwapRoom(book, t, e, ka.key, newBucket);
      rm := SwapTried(ka, t, e);
      PlaceIn(rm, newBucket, {rm.key});
    }

    /** Makes an address tried. */
    method MakeTried(ka: KnownAddress) returns (ghost i: nat, ghost oldBucket: nat)
      requires Valid() && ka.key in addrIndex && addrIndex[ka.key] == ka && !ka.tried
      modifies this, addrIndex.Values`tried, addrIndex.Values`refs
      ensures Valid() && addrIndex == old(addrIndex)
      ensures Bettered(old(book), book, addrIndex, newBucketOf, ka.key, triedBucketOf(ka.key) % TRIED_BUCKET_COUNT,
        i, oldBucket)
      ensures
        var t := triedBucketOf(ka.key) % TRIED_BUCKET_COUNT;
        t < |old(book.tried)| && |old(book.tried)[t]| >= TRIED_BUCKET_SIZE ==> Eldest(addrIndex, old(book.tried)[t], i)
    {
      hide Inv, Count, TriedKeys, Total, NewCount, Filed, Counted, Promote, Exchanged, Eldest;
      KnownFacts(ka.key);
      LedgerShape(book);
      PromoteRoom(book, ka.key);
      ghost var start := book;
      var first := LeaveNew(ka);
      i, oldBucket := 0, first;
      if first == -1 {
        return;
      }
      LedgerShape(book);
      var t := triedBucketOf(ka.key) % TRIED_BUCKET_COUNT;
      TriedListIs(t, {ka.key});
      LimboKey(addrIndex, addrNew, addrTried, book, ka.key);
      if |addrTried[t]| < TRIED_BUCKET_SIZE {
        PushTried(ka, t);
        return;
      }
      i := Evict(ka, t, first);
    }

    /** Marks an address as good after a successful connection. */
    method Good(key: Key, now: int) returns (ghost i: nat, ghost oldBucket: nat)
      requires Valid()
      modifies this, addrIndex.Values
      ensures Valid() && addrIndex == old(addrIndex)
      ensures key !in addrIndex || old(addrIndex[key].tried) ==> book == old(book)
      ensures key in addrIndex ==>
        addrIndex[key].lastSuccess == now && addrIndex[key].lastAttempt == now && addrIndex[key].attempts == 0 &&
          addrIndex[key].tried
      ensures key in addrIndex && !old(addrIndex[key].tried) ==>
        Bettered(old(book), book, addrIndex, newBucketOf, key, triedBucketOf(key) % TRIED_BUCKET_COUNT, i, oldBucket)
      ensures
        var t := triedBucketOf(key) % TRIED_BUCKET_COUNT;
        key in addrIndex && !old(addrIndex[key].tried) && t < |old(book.tried)| &&
          |old(book.tried)[t]| >= TRIED_BUCKET_SIZE ==>
          Eldest(addrIndex, old(book.tried)[t], i)
    {
      hide Inv, Count, TriedKeys, Total, NewCount, Filed, Counted, Bettered, Promote, Eldest;
      i, oldBucket := 0, 0;
      if key !in addrIndex {
        return;
      }
      var ka := addrIndex[key];
      KnownFacts(key);
      ka.lastSuccess, ka.lastAttempt, ka.attempts := now, now, 0;
      if ka.tried {
        return;
      }
      ghost var start := book;
      i, oldBucket := MakeTried(ka);
      BetteredTried(start, book, addrIndex, newBucketOf, key, triedBucketOf(key) % TRIED_BUCKET_COUNT, i, oldBucket);
      KnownFacts(key);
    }

    /** Counts an attempt. */
    method Attempt(key: Key, now: int)
      requires Valid()
      modifies addrIndex.Values`attempts, addrIndex.Values`lastAttempt
      ensures Valid()
      ensures key in addrIndex ==>
        addrIndex[key].attempts == old(addrIndex[key].attempts) + 1 && addrIndex[key].lastAttempt == now
      ensures forall k :: k in addrIndex && k != key ==>
        addrIndex[k].attempts == old(addrIndex[k].attempts) && addrIndex[k].lastAttempt == old(addrIndex[k].lastAttempt)
    {
      hide Inv, Count, TriedKeys;
      if key in addrIndex {
        var ka := addrIndex[key];
        ka.attempts, ka.lastAttempt := ka.attempts + 1, now;
      }
    }

    /** Sets the services of an address. */
    method SetServices(key: Key, services: set<nat>)
      requires Valid()
      modifies addrIndex.Values`services
      ensures Valid()
      ensures key in addrIndex ==> addrIndex[key].services == services
      ensures forall k :: k in addrIndex && k != key ==> addrIndex[k].services == old(addrIndex[k].services)
    {
      hide Inv, Count, TriedKeys;
      if key in addrIndex {
        var ka := addrIndex[key];
        if ka.services != services {
          ka.services := services;
        }
      }
    }

    /** Renews the timestamp of a connected address, at most once in twenty minutes. */
    method Connected(key: Key, now: int)
      requires Valid()
      modifies addrIndex.Values`timestamp
      ensures Valid()
      ensures key in addrIndex ==>
        addrIndex[key].timestamp == if now > old(addrIndex[key].timestamp) + 20 * 60 then now
          else old(addrIndex[key].timestamp)
      ensures forall k :: k in addrIndex && k != key ==> addrIndex[k].timestamp == old(addrIndex[k].timestamp)
    {
      hide Inv, Count, TriedKeys;
      if key in addrIndex {
        var ka := addrIndex[key];
        if now > ka.timestamp + 20 * 60 {
          ka.timestamp := now;
        }
      }
    }
  }

  // ----- A bucket one over its nominal size -----

  /** Keys told apart by their length. */
  ghost function Keys(n: nat): (r: set<Key>)
    ensures |r| == n && forall k :: k in r <==> exists i :: 0 <= i < n && k == KeyNo(i)
  {
    if n == 0 then {} else Keys(n - 1) + {KeyNo(n - 1)}
  }

  function KeyNo(n: nat): (k: Key)
    ensures |k| == n
  {
    seq(n, _ => 'a')
  }

  lemma KeysGrow(n: nat)
    ensures KeyNo(n) !in Keys(n) && Keys(n + 1) == Keys(n) + {KeyNo(n)}
  {
  }

  /** The first bucket holds the first `n` keys, and they are all there is. */
  ghost predicate Filling(m: Manager, n: nat)
    reads m, m.addrIndex.Values`refs, m.addrIndex.Values`tried
  {
    && m.Valid() && (forall k, src :: m.newBucketOf(k, src) == 0)
    && |m.book.news| == NEW_BUCKET_COUNT && m.book.keys == Keys(n) && m.book.news[0] == Keys(n)
  }

  lemma NothingYet(m: Manager)
    requires m.Valid() && m.addrIndex == map[] && forall k, src :: m.newBucketOf(k, src) == 0
    ensures Filling(m, 0)
  {
    m.BucketCount();
    FiledIndexKeys(m.addrIndex, m.addrNew, m.addrTried, m.book);
    assert m.book.news[0] <= m.book.keys;
  }

  /** An address not heard of before joins a bucket with room. */
  lemma FirstHeard(l: Ledger, b: nat, k: Key, draw: nat -> nat, bad: Key -> bool, eldest: KnownAddress?)
    requires Inv(l) && b < |l.news| && k !in l.keys && |l.news[b]| <= NEW_BUCKET_SIZE
    ensures Joins(l, b, k, draw) && Joined(l, b, k, bad, eldest) == Place(l, b, k)
  {
    hide Count, TriedKeys;
    UnknownNowhere(l, k);
  }

  method FillNext(m: Manager, n: nat)
    requires Filling(m, n) && n <= NEW_BUCKET_SIZE
    modifies m, m.addrIndex.Values
    ensures Filling(m, n + 1)
    ensures forall k :: k in m.addrIndex ==>
      fresh(m.addrIndex[k]) || (k in old(m.addrIndex) && m.addrIndex[k] == old(m.addrIndex[k]))
  {
    hide Inv, Count, TriedKeys, Filed, Keys, KeyNo, Manager.Counted, Refreshed, Joins, FillsUp, IsOldest, Joined;
    var key := KeyNo(n);
    KeysGrow(n);
    FiledIndexKeys(m.addrIndex, m.addrNew, m.addrTried, m.book);
    ghost var book := m.book;
    ghost var eldest := m.UpdateAddress(key, key, 0, {}, true, _ => 0, _ => false);
    FirstHeard(book, 0, key, _ => 0, _ => false, eldest);
  }

  /** A bucket takes one entry more than its nominal size before any has to go. */
  method FillBucket() returns (m: Manager)
    ensures m.Valid() && |m.addrNew| > 0 && |m.addrNew[0]| == NEW_BUCKET_SIZE + 1
  {
    hide Inv, Filed, Keys, Manager.Counted;
    m := new Manager((_, _) => 0, _ => 0);
    NothingYet(m);
    for i := 0 to NEW_BUCKET_SIZE + 1
      invariant fresh(m) && Filling(m, i) && forall k :: k in m.addrIndex ==> fresh(m.addrIndex[k])
    {
      FillNext(m, i);
    }
    m.BucketIs(0, {});
    assert |m.addrNew[0]| == |m.addrNew[0].Keys|;
  }

  /** What becoming tried does to the ledger: a place at the end of its bucket, or when that
      is full an exchange. */
  ghost predicate Bettered(l: Ledger, l': Ledger, index: map<Key, KnownAddress>, newBucketOf: (Key, Key) -> nat,
                           k: Key, t: nat, i: nat, oldBucket: nat) {
    var p := Promote(l, k);
    && t < |p.tried| && oldBucket < |l.news| && k in l.news[oldBucket]
    && (forall b :: 0 <= b < oldBucket ==> k !in l.news[b])
    && if |p.tried[t]| < TRIED_BUCKET_SIZE then l' == Push(p, t, k)
       else Exchanged(p, l', index, newBucketOf, k, t, i, oldBucket)
  }

  /** The address is among the tried ones afterwards. */
  lemma {:induction false} BetteredTried(l: Ledger, l': Ledger, index: map<Key, KnownAddress>,
                                         newBucketOf: (Key, Key) -> nat,
                                         k: Key, t: nat, i: nat, oldBucket: nat)
    requires Bettered(l, l', index, newBucketOf, k, t, i, oldBucket)
    ensures k in TriedKeys(l'.tried)
  {
    hide Promote;
    var p := Promote(l, k);
    if |p.tried[t]| < TRIED_BUCKET_SIZE {
      assert l'.tried[t][|p.tried[t]|] == k;
    } else {
      assert l'.tried[t][i] == k;
    }
  }

  /** What becoming tried does, bucket by bucket: the address leaves every new bucket and takes
      a place in its tried bucket, at the end if there is room.  In a full bucket it takes the
      place of the one at `i`, which goes into its own new bucket if that then has room for one
      more within its nominal size, else into the first of the buckets that the address left. */
  lemma {:induction false} BetteredMeans(l: Ledger, l': Ledger, index: map<Key, KnownAddress>,
                                         newBucketOf: (Key, Key) -> nat, k: Key, t: nat, i: nat, oldBucket: nat)
    requires Inv(l) && Bettered(l, l', index, newBucketOf, k, t, i, oldBucket) && k in l.keys
    ensures l'.keys == l.keys && |l'.news| == |l.news| && t < |l.tried|
    ensures |l.tried[t]| < TRIED_BUCKET_SIZE ==>
      && l'.tried == l.tried[t := l.tried[t] + [k]]
      && forall b :: 0 <= b < |l.news| ==> l'.news[b] == l.news[b] - {k}
    ensures |l.tried[t]| >= TRIED_BUCKET_SIZE ==>
      && i < |l.tried[t]| && l'.tried == l.tried[t := l.tried[t][i := k]] && l.tried[t][i] in index
      && var rm := index[l.tried[t][i]];
      var own := newBucketOf(rm.key, rm.src) % 1024;
      && own < |l.news|
      && var home := if |l.news[own] - {k}| < 64 then own else oldBucket;
      forall b :: 0 <= b < |l.news| ==>
        l'.news[b] == (l.news[b] - {k}) + if b == home then {l.tried[t][i]} else {}
  {
    hide Count, TriedKeys, PlacedOnce, Settled;
    var p := Promote(l, k);
    StripsAll(l.news, k);
    if |l.tried[t]| >= TRIED_BUCKET_SIZE {
      assert l.tried[t][i] in TriedKeys(l.tried) by {
        InTried(l.tried, t, i);
      }
      NotItself(l, k, oldBucket, l.tried[t][i]);
    }
  }

  lemma InTried(tried: seq<seq<Key>>, t: nat, i: nat)
    requires t < |tried| && i < |tried[t]|
    ensures tried[t][i] in TriedKeys(tried)
  {
  }

  lemma {:induction false} NotItself(l: Ledger, k: Key, b: nat, rm: Key)
    requires Inv(l) && b < |l.news| && k in l.news[b] && rm in TriedKeys(l.tried)
    ensures rm != k && rm in l.keys
  {
    CountZero(l.news, k);
    assert k in l.keys && Settled(l, k);
  }

  lemma StripsAll(news: seq<set<Key>>, k: Key)
    ensures |Strip(news, |news|, k)| == |news|
    ensures forall b :: 0 <= b < |news| ==> Strip(news, |news|, k)[b] == news[b] - {k}
  {
  }

  /** What joining a bucket does: the address is in it, every other bucket is as it was; when the
      bucket held more than its nominal size, exactly the bad entries and the eldest of the
      others are gone from it; an address is known no longer exactly when that was its only
      bucket. */
  lemma {:induction false} JoinedMeans(l: Ledger, b: nat, k: Key, bad: Key -> bool, eldest: KnownAddress?, x: Key)
    requires b < |l.news| && (|l.news[b]| > 64 && eldest != null ==> eldest.key in l.news[b])
    ensures
      var l' := Joined(l, b, k, bad, eldest);
      var gone := |l.news[b]| > 64 && x in l.news[b] && (bad(x) || (eldest != null && x == eldest.key));
      && l'.tried == l.tried && |l'.news| == |l.news|
      && (forall c :: 0 <= c < |l.news| && c != b ==> l'.news[c] == l.news[c])
      && (x in l'.news[b] <==> x == k || (x in l.news[b] && !gone))
      && (x in l'.keys <==> x == k || (x in l.keys && !(gone && InOnly(l.news, x, b))))
  {
    hide Count;
    if x in l.news[b] {
      OnlyOne(l.news, x, b);
    }
  }

  /** The address is in that bucket and in no other. */
  ghost predicate InOnly(news: seq<set<Key>>, x: Key, b: nat) {
    b < |news| && x in news[b] && forall c :: 0 <= c < |news| && c != b ==> x !in news[c]
  }

  lemma {:induction false} OnlyOne(news: seq<set<Key>>, x: Key, b: nat)
    requires b < |news| && x in news[b]
    ensures Count(news, x) == 1 <==> InOnly(news, x, b)
  {
    var none := news[b := news[b] - {x}];
    CountUpdate(news, b, news[b] - {x}, x);
    CountZero(none, x);
    assert forall c :: 0 <= c < |news| && c != b ==> none[c] == news[c];
  }

  /** Leaving its buckets makes room in each of them. */
  lemma {:induction false} PromoteRoom(l: Ledger, k: Key)
    requires Inv(l) && k in l.keys && k !in TriedKeys(l.tried)
    ensures |Promote(l, k).news| == |l.news| && Promote(l, k).tried == l.tried && Count(Promote(l, k).news, k) == 0
    ensures forall b :: 0 <= b < |l.news| && k in l.news[b] ==> |Promote(l, k).news[b]| <= NEW_BUCKET_SIZE
  {
    hide Count, TriedKeys, PlacedOnce;
    PromoteInv(l, k);
    PromoteCounts(l, k);
  }

  lemma SamePlaces(index: map<Key, KnownAddress>, news: seq<map<Key, KnownAddress>>, tried: seq<seq<KnownAddress>>,
                   book: Ledger, k: Key)
    requires Filed(index, news, tried, book, {})
    ensures (set b | 0 <= b < |news| && k in news[b]) == (set b | 0 <= b < |book.news| && k in book.news[b])
  {
    forall b | 0 <= b < |news|
      ensures k in news[b] <==> k in book.news[b]
    {
      assert NewFiled(index, news[b], book.news[b]);
    }
  }

  lemma LedgerShape(l: Ledger)
    requires Inv(l)
    ensures |l.news| == NEW_BUCKET_COUNT && |l.tried| == TRIED_BUCKET_COUNT
  {
  }

  /** The address swapped out can go into any bucket with room. */
  lemma {:induction false} SwapRoom(l: Ledger, t: nat, i: nat, k: Key, nb: nat)
    requires Inv(l) && t < |l.tried| && i < |l.tried[t]| && k !in l.keys && Count(l.news, k) == 0
    requires nb < |l.news| && |l.news[nb]| <= NEW_BUCKET_SIZE
    ensures CanPlace(Swap(l, t, i, k), nb, l.tried[t][i])
  {
    hide Count, TriedKeys, Inv;
    SwapInv(l, t, i, k);
    CountZero(l.news, l.tried[t][i]);
  }

  /** The new bucket an evicted address goes to: its own, or when that is full another. */
  ghost function Returns(l: Ledger, rm: KnownAddress, newBucketOf: (Key, Key) -> nat, other: nat): nat {
    var own := newBucketOf(rm.key, rm.src) % NEW_BUCKET_COUNT;
    if own < |l.news| && |l.news[own]| >= NEW_BUCKET_SIZE then other else own
  }

  /** What an eviction does to the ledger. */
  ghost predicate Exchanged(l: Ledger, l': Ledger, index: map<Key, KnownAddress>, newBucketOf: (Key, Key) -> nat,
                            k: Key, t: nat, i: nat, other: nat) {
    && t < |l.tried| && i < |l.tried[t]| && l.tried[t][i] in index
    && var rm := l.tried[t][i];
    && var nb := Returns(l, index[rm], newBucketOf, other);
    && nb < |l.news| && l' == Place(Swap(l, t, i, k), nb, rm)
  }

  /** The first of the listed addresses with the smallest timestamp. */
  ghost predicate Eldest(index: map<Key, KnownAddress>, keys: seq<Key>, i: nat)
    reads index.Values
  {
    && i < |keys| && (forall j :: 0 <= j < |keys| ==> keys[j] in index)
    && (forall j :: 0 <= j < |keys| ==> index[keys[i]].timestamp <= index[keys[j]].timestamp)
    && (forall j :: 0 <= j < i ==> index[keys[i]].timestamp < index[keys[j]].timestamp)
  }

  lemma {:induction false} FiledPush(index: map<Key, KnownAddress>, news: seq<map<Key, KnownAddress>>,
                                     tried: seq<seq<KnownAddress>>,
                                     book: Ledger, t: nat, k: Key)
    requires Filed(index, news, tried, book, {k}) && k in index && t < |book.tried|
    ensures |tried| == |book.tried|
    ensures Filed(index, news, tried[t := tried[t] + [index[k]]], Push(book, t, k), {})
    ensures forall x :: x in index && x != k ==> index[x] != index[k]
  {
    var tried', book' := tried[t := tried[t] + [index[k]]], Push(book, t, k);
    forall c | 0 <= c < |tried'|
      ensures TriedFiled(index, tried'[c], book'.tried[c])
    {
      assert TriedFiled(index, tried[c], book.tried[c]);
    }
  }

  lemma LimboKey(index: map<Key, KnownAddress>, news: seq<map<Key, KnownAddress>>, tried: seq<seq<KnownAddress>>,
                 book: Ledger, k: Key)
    requires Filed(index, news, tried, book, {k})
    ensures k !in book.keys
  {
  }

  lemma {:induction false} FiledSwap(index: map<Key, KnownAddress>, news: seq<map<Key, KnownAddress>>,
                                     tried: seq<seq<KnownAddress>>,
                                     book: Ledger, t: nat, i: nat, k: Key)
    requires Filed(index, news, tried, book, {k}) && k in index && t < |book.tried| && i < |book.tried[t]| &&
      book.tried[t][i] in book.keys
    ensures |tried| == |book.tried| && |tried[t]| == |book.tried[t]|
    ensures
      var rm := book.tried[t][i];
      && tried[t][i].key == rm && rm != k && rm in index && index[rm] == tried[t][i]
      && Filed(index, news, tried[t := tried[t][i := index[k]]], Swap(book, t, i, k), {rm})
      && forall x :: x in index && x != k && x != rm ==> index[x] != index[k] && index[x] != index[rm]
  {
    var tried', book' := tried[t := tried[t][i := index[k]]], Swap(book, t, i, k);
    assert TriedFiled(index, tried[t], book.tried[t]);
    forall c | 0 <= c < |tried'|
      ensures TriedFiled(index, tried'[c], book'.tried[c])
    {
      assert TriedFiled(index, tried[c], book.tried[c]);
    }
  }

  /** The bucket maps with an address taken out of the first `n` of them. */
  ghost function StripMaps(news: seq<map<Key, KnownAddress>>, n: nat, k: Key): (r: seq<map<Key, KnownAddress>>)
    requires n <= |news|
    ensures |r| == |news|
  {
    seq(|news|, i requires 0 <= i < |news| => if i < n then news[i] - {k} else news[i])
  }

  lemma StripStart(news: seq<set<Key>>, maps: seq<map<Key, KnownAddress>>, k: Key)
    ensures Strip(news, 0, k) == news && StripMaps(maps, 0, k) == maps
  {
  }

  lemma {:induction false} StripMapsStep(news: seq<map<Key, KnownAddress>>, n: nat, k: Key)
    requires n < |news|
    ensures StripMaps(news, n, k)[n] == news[n]
    ensures StripMaps(news, n + 1, k) == StripMaps(news, n, k)[n := news[n] - {k}]
    ensures k !in news[n] ==> StripMaps(news, n + 1, k) == StripMaps(news, n, k)
  {
    assert k !in news[n] ==> news[n] - {k} == news[n];
  }

  lemma BucketHas(index: map<Key, KnownAddress>, news: seq<map<Key, KnownAddress>>, tried: seq<seq<KnownAddress>>,
                  book: Ledger, b: nat, k: Key)
    requires Filed(index, news, tried, book, {}) && b < |news|
    ensures b < |book.news| && (k in news[b] <==> k in book.news[b])
  {
    assert NewFiled(index, news[b], book.news[b]);
  }

  lemma {:induction false} FiledPromote(index: map<Key, KnownAddress>, news: seq<map<Key, KnownAddress>>,
                                        tried: seq<seq<KnownAddress>>,
                                        book: Ledger, k: Key)
    requires Filed(index, news, tried, book, {}) && k in index
    ensures |news| == |book.news|
    ensures Filed(index, StripMaps(news, |news|, k), tried, Promote(book, k), {k})
    ensures forall x :: x in index && x != k ==> index[x] != index[k]
  {
    var news', book' := StripMaps(news, |news|, k), Promote(book, k);
    forall b | 0 <= b < |news'|
      ensures NewFiled(index, news'[b], book'.news[b])
    {
      assert NewFiled(index, news[b], book.news[b]);
    }
  }

  lemma {:induction false} PromoteCounts(book: Ledger, k: Key)
    ensures |Promote(book, k).news| == |book.news| && Promote(book, k).tried == book.tried
    ensures Count(Promote(book, k).news, k) == 0
    ensures Promote(book, k).news == Strip(book.news, |book.news|, k)
    ensures forall x :: x != k ==> Count(Promote(book, k).news, x) == Count(book.news, x)
  {
    StripAll(book.news, k);
    forall x | x != k
      ensures Count(Promote(book, k).news, x) == Count(book.news, x)
    {
      StripOthers(book.news, |book.news|, k, x);
    }
  }

  /** An address that is not tried is in some new bucket. */
  lemma {:induction false} SomeBucket(book: Ledger, k: Key)
    requires Inv(book) && k in book.keys && k !in TriedKeys(book.tried)
    ensures exists b :: 0 <= b < |book.news| && k in book.news[b]
  {
    assert Settled(book, k);
    CountZero(book.news, k);
  }

  lemma DoomedNonempty(keys: set<Key>, bad: Key -> bool, oldest: KnownAddress?)
    requires keys != {} && (if oldest == null then Bad(keys, bad) == keys else oldest.key in keys)
    ensures Doomed(keys, bad, oldest) != {} && Doomed(keys, bad, oldest) <= keys
  {
    var k :| k in keys;
    assert oldest == null ==> k in Doomed(keys, bad, oldest);
    assert oldest != null ==> oldest.key in Doomed(keys, bad, oldest);
  }

  /** An address goes into another bucket: an unknown one always, a known one if it is not
      tried, is in fewer than eight buckets, and is lucky. */
  ghost predicate Joins(l: Ledger, b: nat, k: Key, draw: nat -> nat)
    requires b < |l.news|
  {
    && k !in l.news[b]
    && (k in l.keys ==>
      k !in TriedKeys(l.tried) && Count(l.news, k) != NEW_BUCKETS_PER_ADDRESS && draw(2 * Count(l.news, k)) == 0)
  }

  /** The bucket an address joins, once room is made. */
  ghost function Joined(l: Ledger, b: nat, k: Key, bad: Key -> bool, eldest: KnownAddress?): Ledger
    requires b < |l.news|
  {
    Place(if |l.news[b]| > NEW_BUCKET_SIZE then Expire(l, b, Doomed(l.news[b], bad, eldest)) else l, b, k)
  }

  /** One more entry takes a bucket above its nominal size: it holds that many, or one more with
      no bad entry to go. */
  ghost predicate FillsUp(keys: set<Key>, bad: Key -> bool) {
    |keys| == NEW_BUCKET_SIZE || (|keys| == NEW_BUCKET_SIZE + 1 && Bad(keys, bad) == {})
  }

  lemma FiledShape(index: map<Key, KnownAddress>, news: seq<map<Key, KnownAddress>>, tried: seq<seq<KnownAddress>>,
                   book: Ledger)
    requires Filed(index, news, tried, book, {})
    ensures |news| == |book.news|
  {
  }

  lemma TriedShape(l: Ledger)
    requires Inv(l)
    ensures TriedKeys(l.tried) <= l.keys && PlacedOnce(l.tried)
  {
  }

  lemma BucketBound(l: Ledger, b: nat)
    requires Inv(l) && b < |l.news|
    ensures |l.news[b]| <= NEW_BUCKET_SIZE + 1
  {
  }

  lemma OldestFacts(oldest: KnownAddress?, index: map<Key, KnownAddress>, keys: set<Key>, bad: Key -> bool)
    requires IsOldest(oldest, index, keys, bad)
    ensures if oldest == null then Bad(keys, bad) == keys else oldest.key in keys && !bad(oldest.key)
  {
  }

  /** How large the bucket that is joined becomes, and that the others stay. */
  lemma {:induction false} JoinedSize(l: Ledger, b: nat, k: Key, bad: Key -> bool, eldest: KnownAddress?)
    requires b < |l.news| && k !in l.news[b] && |l.news[b]| <= NEW_BUCKET_SIZE + 1
    requires |l.news[b]| > NEW_BUCKET_SIZE ==>
      if eldest == null then Bad(l.news[b], bad) == l.news[b] else eldest.key in l.news[b] && !bad(eldest.key)
    ensures
      var l' := Joined(l, b, k, bad, eldest);
      && |l'.news| == |l.news| && (|l'.news[b]| > NEW_BUCKET_SIZE <==> FillsUp(l.news[b], bad))
      && forall c :: 0 <= c < |l.news| && c != b ==> l'.news[c] == l.news[c]
  {
    var keys := l.news[b];
    if |keys| > NEW_BUCKET_SIZE {
      var doomed := Doomed(keys, bad, eldest);
      SubsetSize(doomed, keys);
      assert |doomed| == |Bad(keys, bad)| + One(eldest != null);
      assert Bad(keys, bad) == {} <==> |Bad(keys, bad)| == 0;
    }
  }

  /** Without the doomed entries there is room for one more. */
  lemma {:induction false} RoomMade(l: Ledger, b: nat, k: Key, gone: set<Key>)
    requires Inv(l) && b < |l.news| && gone <= l.news[b] && gone != {} && CanJoin(l, b, k)
    ensures CanPlace(Expire(l, b, gone), b, k)
  {
    hide Count, TriedKeys, PlacedOnce;
    ExpireInv(l, b, gone);
    CountUpdate(l.news, b, l.news[b] - gone, k);
  }

  ghost predicate CanJoin(l: Ledger, b: nat, k: Key) {
    && b < |l.news| && k !in l.news[b] && k !in TriedKeys(l.tried)
    && Count(l.news, k) < NEW_BUCKETS_PER_ADDRESS
  }

  lemma {:induction false} UnknownNowhere(l: Ledger, k: Key)
    requires Inv(l) && k !in l.keys
    ensures Count(l.news, k) == 0 && k !in TriedKeys(l.tried)
    ensures forall b :: 0 <= b < |l.news| ==> k !in l.news[b]
  {
    CountZero(l.news, k);
  }

  lemma FiledIndexKeys(index: map<Key, KnownAddress>, news: seq<map<Key, KnownAddress>>, tried: seq<seq<KnownAddress>>,
                       book: Ledger)
    requires Filed(index, news, tried, book, {})
    ensures index.Keys == book.keys
  {
  }

  lemma {:induction false} FiledIntroduce(index: map<Key, KnownAddress>, news: seq<map<Key, KnownAddress>>,
                                          tried: seq<seq<KnownAddress>>,
                                          book: Ledger, k: Key, ka: KnownAddress)
    requires Filed(index, news, tried, book, {}) && k !in index && ka.key == k
    ensures Filed(index[k := ka], news, tried, book, {k})
  {
    forall b | 0 <= b < |news|
      ensures NewFiled(index[k := ka], news[b], book.news[b])
    {
      assert NewFiled(index, news[b], book.news[b]);
    }
    forall b | 0 <= b < |tried|
      ensures TriedFiled(index[k := ka], tried[b], book.tried[b])
    {
      assert TriedFiled(index, tried[b], book.tried[b]);
    }
  }
}
