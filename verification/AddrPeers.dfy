/** Saving the address manager to its file and loading it again.  Reference counts, tried
    marks and counters are not saved; loading works them out from the buckets. */
module AddrPeers {
  import opened AddrLedger
  import opened AddrManager
  import opened Options

  const SERIALISATION_VERSION := 2
  const NODE_NETWORK: set<nat> := {0}

  datatype SavedAddress = SavedAddress(key: Key, src: Key, timestamp: int, attempts: nat, lastAttempt: int,
                                       lastSuccess: int, services: set<nat>)

  /** The buckets are lists of keys. */
  datatype PeersFile = PeersFile(version: int, addresses: seq<SavedAddress>, newBuckets: seq<seq<Key>>,
                                 triedBuckets: seq<seq<Key>>)

  /** What is found where the file should be. */
  datatype Found = Missing | Unreadable | Read(file: PeersFile)

  // ----- Lists of keys -----

  ghost function Elems(s: seq<Key>): set<Key> {
    set k | k in s
  }

  ghost predicate EachOnce(s: seq<Key>) {
    forall i, j :: 0 <= i < j < |s| ==> s[i] != s[j]
  }

  /** The lists one after the other. */
  ghost function Flat(lists: seq<seq<Key>>): seq<Key> {
    if lists == [] then [] else Flat(lists[..|lists| - 1]) + lists[|lists| - 1]
  }

  ghost function Sets(lists: seq<seq<Key>>): (r: seq<set<Key>>)
    ensures |r| == |lists|
  {
    seq(|lists|, b requires 0 <= b < |lists| => Elems(lists[b]))
  }

  lemma OnceMeans(s: seq<Key>, k: Key)
    requires EachOnce(s)
    ensures multiset(s)[k] == One(k in s)
  {
    if k in s {
      var i :| 0 <= i < |s| && s[i] == k;
      assert s == s[..i] + [k] + s[i + 1..];
      assert k !in s[..i] && k !in s[i + 1..];
    }
  }

  lemma TwiceMeans(s: seq<Key>)
    requires !EachOnce(s)
    ensures exists k :: multiset(s)[k] >= 2
  {
    var i, j :| 0 <= i < j < |s| && s[i] == s[j];
    assert s == s[..i] + [s[i]] + s[i + 1..j] + [s[j]] + s[j + 1..];
    assert multiset(s)[s[i]] >= 2;
  }

  ghost predicate NoRepeat(lists: seq<seq<Key>>, k: Key) {
    forall b :: 0 <= b < |lists| ==> multiset(lists[b])[k] <= 1
  }

  lemma NoRepeatSplit(init: seq<seq<Key>>, last: seq<Key>, k: Key)
    ensures NoRepeat(init + [last], k) <==> NoRepeat(init, k) && multiset(last)[k] <= 1
    ensures NoRepeat([], k)
  {
    assert forall b :: 0 <= b < |init| ==> (init + [last])[b] == init[b];
    assert (init + [last])[|init|] == last;
  }

  lemma SetsSplit(init: seq<seq<Key>>, last: seq<Key>)
    ensures Sets(init + [last]) == Sets(init) + [Elems(last)]
  {
  }

  /** A key occurs in the lists at least as often as there are lists with it, and no more
      often exactly when no list repeats it. */
  lemma {:induction false} FlatCount(lists: seq<seq<Key>>, k: Key)
    ensures multiset(Flat(lists))[k] >= Count(Sets(lists), k)
    ensures multiset(Flat(lists))[k] == Count(Sets(lists), k) <==> NoRepeat(lists, k)
  {
    hide NoRepeat, Sets;
    if lists == [] {
      NoRepeatSplit([], [], k);
    } else {
      var init, last := lists[..|lists| - 1], lists[|lists| - 1];
      FlatCount(init, k);
      SetsSplit(init, last);
      assert k in last <==> multiset(last)[k] >= 1;
      NoRepeatSplit(init, last, k);
      assert lists == init + [last];
    }
  }

  /** The counts of all keys agree exactly when no list repeats any. */
  lemma {:induction false} CountsAgree(lists: seq<seq<Key>>, keys: set<Key>)
    requires Elems(Flat(lists)) <= keys
    ensures (forall k :: k in keys ==> multiset(Flat(lists))[k] == Count(Sets(lists), k)) <==>
      (forall b :: 0 <= b < |lists| ==> EachOnce(lists[b]))
  {
    hide Count, Flat;
    forall k
      ensures multiset(Flat(lists))[k] == Count(Sets(lists), k) <==> NoRepeat(lists, k)
    {
      FlatCount(lists, k);
    }
    forall b | 0 <= b < |lists|
      ensures EachOnce(lists[b]) <==> forall k :: k in keys ==> multiset(lists[b])[k] <= 1
    {
      OnceOrTwice(lists, b, keys);
    }
  }

  lemma {:induction false} OnceOrTwice(lists: seq<seq<Key>>, b: nat, keys: set<Key>)
    requires b < |lists| && Elems(Flat(lists)) <= keys
    ensures EachOnce(lists[b]) <==> forall k :: k in keys ==> multiset(lists[b])[k] <= 1
  {
    if EachOnce(lists[b]) {
      forall k | k in keys
        ensures multiset(lists[b])[k] <= 1
      {
        OnceMeans(lists[b], k);
      }
    } else {
      TwiceMeans(lists[b]);
      var k :| multiset(lists[b])[k] >= 2;
      FlatHas(lists, k);
      assert k in lists[b];
    }
  }

  lemma {:induction false} FlatHas(lists: seq<seq<Key>>, k: Key)
    ensures k in Flat(lists) <==> exists b :: 0 <= b < |lists| && k in lists[b]
  {
    if lists != [] {
      var init := lists[..|lists| - 1];
      FlatHas(init, k);
      assert forall b :: 0 <= b < |init| ==> init[b] == lists[b];
    }
  }

  lemma {:induction false} FlatTried(tried: seq<seq<Key>>)
    ensures Elems(Flat(tried)) == TriedKeys(tried)
    ensures |Flat(tried)| == Total(tried)
  {
    forall k
      ensures k in Flat(tried) <==> k in TriedKeys(tried)
    {
      FlatHas(tried, k);
    }
    FlatLength(tried);
  }

  lemma {:induction false} FlatLength(tried: seq<seq<Key>>)
    ensures |Flat(tried)| == Total(tried)
  {
    if tried != [] {
      FlatLength(tried[..|tried| - 1]);
    }
  }

  // ----- What a file says -----

  /** An address string as loading reads it: the key of the address it stands for, if it
      stands for one. */
  type Resolver = Key -> Option<Key>

  ghost predicate AllResolve(addresses: seq<SavedAddress>, resolve: Resolver) {
    forall i :: 0 <= i < |addresses| ==> resolve(addresses[i].key).Some? && resolve(addresses[i].src).Some?
  }

  ghost function KnownKeys(addresses: seq<SavedAddress>, resolve: Resolver): set<Key> {
    set i | 0 <= i < |addresses| && resolve(addresses[i].key).Some? :: resolve(addresses[i].key).value
  }

  /** The addresses are taken in; the buckets are looked at only then. */
  ghost predicate Accepted(file: PeersFile, resolve: Resolver) {
    file.version <= SERIALISATION_VERSION && AllResolve(file.addresses, resolve)
  }

  /** Everything in the buckets, in the order loading meets it. */
  ghost function Entries(file: PeersFile): seq<Key> {
    Flat(file.newBuckets) + Flat(file.triedBuckets)
  }

  /** Loading succeeds when the buckets hold known addresses only and every address is new
      or tried and not both. */
  ghost predicate Loads(file: PeersFile, resolve: Resolver) {
    Accepted(file, resolve) && BucketsLoad(file, KnownKeys(file.addresses, resolve))
  }

  ghost predicate BucketsLoad(file: PeersFile, keys: set<Key>) {
    && Elems(Entries(file)) <= keys
    && forall k :: k in keys ==> (k in Flat(file.newBuckets) <==> k !in Flat(file.triedBuckets))
  }

  /** The file breaks off the load before anything is counted. */
  ghost predicate CountsNothing(file: PeersFile, resolve: Resolver) {
    || !Accepted(file, resolve) || Entries(file) == []
    || Entries(file)[0] !in KnownKeys(file.addresses, resolve)
  }

  ghost function LedgerOf(file: PeersFile, keys: set<Key>): Ledger {
    Ledger(keys, Sets(file.newBuckets), file.triedBuckets)
  }

  /** The buckets make a ledger as the manager keeps it, and none repeats an entry. */
  ghost predicate WellFormed(file: PeersFile, keys: set<Key>) {
    Inv(LedgerOf(file, keys)) && forall b :: 0 <= b < |file.newBuckets| ==> EachOnce(file.newBuckets[b])
  }

  // ----- Loading the addresses -----

  function Services(version: int, services: set<nat>): set<nat> {
    if version == 1 then NODE_NETWORK else services
  }

  /** An address as it comes back.  Its timestamp is the time of loading. */
  ghost predicate Restored(ka: KnownAddress, v: SavedAddress, version: int, resolve: Resolver, now: int)
    reads ka`attempts, ka`lastAttempt, ka`lastSuccess, ka`services, ka`timestamp
  {
    && resolve(v.key) == Some(ka.key) && resolve(v.src) == Some(ka.src)
    && ka.attempts == v.attempts && ka.lastAttempt == v.lastAttempt && ka.lastSuccess == v.lastSuccess
    && ka.services == Services(version, v.services) && ka.timestamp == now
  }

  /** The index holds, for each key, the last of the first `n` addresses that has it. */
  ghost predicate IndexLoaded(index: map<Key, KnownAddress>, file: PeersFile, n: nat, resolve: Resolver, now: int)
    requires n <= |file.addresses|
    reads index.Values`attempts, index.Values`lastAttempt, index.Values`lastSuccess, index.Values`services
    reads index.Values`timestamp
  {
    && index.Keys == KnownKeys(file.addresses[..n], resolve)
    && forall k :: k in index ==> index[k].key == k && RestoredLast(index[k], file, n, resolve, now)
  }

  ghost predicate RestoredLast(ka: KnownAddress, file: PeersFile, n: nat, resolve: Resolver, now: int)
    requires n <= |file.addresses|
    reads ka`attempts, ka`lastAttempt, ka`lastSuccess, ka`services, ka`timestamp
  {
    exists i :: 0 <= i < n && Restored(ka, file.addresses[i], file.version, resolve, now)
      && forall j :: i < j < n ==> resolve(file.addresses[j].key) != Some(ka.key)
  }

  ghost predicate Untouched(index: map<Key, KnownAddress>)
    reads index.Values`refs, index.Values`tried
  {
    forall k :: k in index ==> index[k].refs == 0 && !index[k].tried
  }

  method LoadAddress(v: SavedAddress, version: int, resolve: Resolver, now: int) returns (ka: KnownAddress?)
    ensures ka == null <==> resolve(v.key).None? || resolve(v.src).None?
    ensures ka != null ==> fresh(ka) && Restored(ka, v, version, resolve, now) && ka.refs == 0 && !ka.tried
  {
    var key, src := resolve(v.key), resolve(v.src);
    if key.None? || src.None? {
      return null;
    }
    ka := new KnownAddress(key.value, src.value, now, Services(version, v.services));
    ka.attempts, ka.lastAttempt, ka.lastSuccess := v.attempts, v.lastAttempt, v.lastSuccess;
  }

  lemma NothingIndexed(file: PeersFile, resolve: Resolver, now: int)
    ensures IndexLoaded(map[], file, 0, resolve, now) && Untouched(map[])
  {
  }

  lemma IndexNext(index: map<Key, KnownAddress>, file: PeersFile, n: nat, resolve: Resolver, now: int, ka: KnownAddress)
    requires n < |file.addresses| && IndexLoaded(index, file, n, resolve, now) && Untouched(index)
    requires Restored(ka, file.addresses[n], file.version, resolve, now) && ka.refs == 0 && !ka.tried
    ensures IndexLoaded(index[ka.key := ka], file, n + 1, resolve, now) && Untouched(index[ka.key := ka])
  {
    var more := index[ka.key := ka];
    assert file.addresses[..n + 1] == file.addresses[..n] + [file.addresses[n]];
    forall k | k in more
      ensures more[k].key == k && RestoredLast(more[k], file, n + 1, resolve, now)
    {
      if k != ka.key {
        assert RestoredLast(index[k], file, n, resolve, now);
      }
    }
  }

  /** Fills the index from the address list. */
  method LoadAddresses(m: Manager, file: PeersFile, resolve: Resolver, now: int) returns (ok: bool)
    requires m.addrIndex == map[]
    modifies m`addrIndex
    ensures ok <==> AllResolve(file.addresses, resolve)
    ensures ok ==>
      && IndexLoaded(m.addrIndex, file, |file.addresses|, resolve, now) && Untouched(m.addrIndex)
      && forall k :: k in m.addrIndex ==> fresh(m.addrIndex[k])
  {
    hide IndexLoaded, Untouched, Restored;
    NothingIndexed(file, resolve, now);
    for i := 0 to |file.addresses|
      invariant IndexLoaded(m.addrIndex, file, i, resolve, now) && Untouched(m.addrIndex)
      invariant forall k :: k in m.addrIndex ==> fresh(m.addrIndex[k])
      invariant AllResolve(file.addresses[..i], resolve)
    {
      var ka := LoadAddress(file.addresses[i], file.version, resolve, now);
      if ka == null {
        return false;
      }
      IndexNext(m.addrIndex, file, i, resolve, now, ka);
      m.addrIndex := m.addrIndex[ka.key := ka];
    }
    assert file.addresses[..|file.addresses|] == file.addresses;
    return true;
  }

  // ----- Loading the buckets -----

  ghost predicate OwnKeys(index: map<Key, KnownAddress>) {
    forall k :: k in index ==> index[k].key == k
  }

  /** Each address counts how often it has been met. */
  ghost predicate RefsAre(index: map<Key, KnownAddress>, done: seq<Key>)
    reads index.Values`refs
  {
    forall k :: k in index ==> index[k].refs == multiset(done)[k]
  }

  ghost predicate TriedAre(index: map<Key, KnownAddress>, done: seq<Key>)
    reads index.Values`tried
  {
    forall k :: k in index ==> (index[k].tried <==> k in done)
  }

  /** The first `n` entries are known, and the next one, if any, is not. */
  ghost predicate Stops(entries: seq<Key>, keys: set<Key>, n: nat) {
    n <= |entries| && (forall i :: 0 <= i < n ==> entries[i] in keys) && (n < |entries| ==> entries[n] !in keys)
  }

  lemma MetMore(done: seq<Key>, k: Key)
    ensures multiset(done)[k] == 0 <==> k !in done
    ensures |Elems(done + [k])| == |Elems(done)| + One(k !in done)
    ensures forall x :: multiset(done + [k])[x] == multiset(done)[x] + One(x == k)
  {
    assert Elems(done + [k]) == if k in done then Elems(done) else Elems(done) + {k};
  }

  method LoadNewEntry(m: Manager, ka: KnownAddress, b: nat, ghost done: seq<Key>)
    requires ka.key in m.addrIndex && m.addrIndex[ka.key] == ka && OwnKeys(m.addrIndex) && b < |m.addrNew|
    requires RefsAre(m.addrIndex, done) && m.nNew == |Elems(done)|
    modifies m`addrNew, m`nNew, ka`refs
    ensures RefsAre(m.addrIndex, done + [ka.key]) && m.nNew == |Elems(done + [ka.key])|
    ensures m.addrNew == old(m.addrNew)[b := old(m.addrNew)[b][ka.key := ka]]
  {
    MetMore(done, ka.key);
    if ka.refs == 0 {
      m.nNew := m.nNew + 1;
    }
    ka.refs := ka.refs + 1;
    m.addrNew := m.addrNew[b := m.addrNew[b][ka.key := ka]];
  }

  lemma FiledNext(index: map<Key, KnownAddress>, bucket: map<Key, KnownAddress>, list: seq<Key>, j: nat)
    requires j < |list| && list[j] in index && NewFiled(index, bucket, Elems(list[..j]))
    ensures NewFiled(index, bucket[list[j] := index[list[j]]], Elems(list[..j + 1]))
    ensures list[..j + 1] == list[..j] + [list[j]]
  {
  }

  /** The bucket holds the first `j` entries of its list, and the counts include them. */
  ghost predicate BucketLoaded(m: Manager, b: nat, list: seq<Key>, j: nat, done: seq<Key>)
    reads m, m.addrIndex.Values`refs
  {
    && j <= |list| && b < |m.addrNew| && Elems(list[..j]) <= m.addrIndex.Keys
    && RefsAre(m.addrIndex, done + list[..j]) && m.nNew == |Elems(done + list[..j])|
    && NewFiled(m.addrIndex, m.addrNew[b], Elems(list[..j]))
  }

  method LoadNewNext(m: Manager, b: nat, list: seq<Key>, j: nat, ghost done: seq<Key>)
    requires OwnKeys(m.addrIndex) && j < |list| && list[j] in m.addrIndex && BucketLoaded(m, b, list, j, done)
    modifies m`addrNew, m`nNew, m.addrIndex.Values`refs
    ensures BucketLoaded(m, b, list, j + 1, done)
    ensures |m.addrNew| == |old(m.addrNew)|
    ensures forall c :: 0 <= c < |m.addrNew| && c != b ==> m.addrNew[c] == old(m.addrNew[c])
  {
    hide RefsAre, NewFiled;
    FiledNext(m.addrIndex, m.addrNew[b], list, j);
    assert done + list[..j + 1] == done + list[..j] + [list[j]];
    LoadNewEntry(m, m.addrIndex[list[j]], b, done + list[..j]);
  }

  method LoadNewBucket(m: Manager, b: nat, list: seq<Key>, ghost done: seq<Key>) returns (ok: bool, ghost n: nat)
    requires OwnKeys(m.addrIndex) && b < |m.addrNew| && m.addrNew[b] == map[]
    requires RefsAre(m.addrIndex, done) && m.nNew == |Elems(done)|
    modifies m`addrNew, m`nNew, m.addrIndex.Values`refs
    ensures Stops(list, m.addrIndex.Keys, n) && (ok <==> n == |list|)
    ensures BucketLoaded(m, b, list, n, done) && |m.addrNew| == |old(m.addrNew)|
    ensures forall c :: 0 <= c < |m.addrNew| && c != b ==> m.addrNew[c] == old(m.addrNew[c])
  {
    hide RefsAre, NewFiled;
    NoneFiled(m.addrIndex, list, done);
    for j := 0 to |list|
      invariant forall i :: 0 <= i < j ==> list[i] in m.addrIndex
      invariant BucketLoaded(m, b, list, j, done) && |m.addrNew| == |old(m.addrNew)|
      invariant forall c :: 0 <= c < |m.addrNew| && c != b ==> m.addrNew[c] == old(m.addrNew[c])
    {
      if list[j] !in m.addrIndex {
        return false, j;
      }
      LoadNewNext(m, b, list, j, done);
    }
    return true, |list|;
  }

  lemma NoneFiled(index: map<Key, KnownAddress>, list: seq<Key>, done: seq<Key>)
    ensures NewFiled(index, map[], Elems(list[..0])) && done + list[..0] == done
  {
  }

  /** Fills the new buckets, counting every address once and every entry for its address. */
  method LoadNew(m: Manager, lists: seq<seq<Key>>) returns (ok: bool, ghost n: nat)
    requires OwnKeys(m.addrIndex) && |m.addrNew| == |lists| && (forall b :: 0 <= b < |lists| ==> m.addrNew[b] == map[])
    requires RefsAre(m.addrIndex, []) && m.nNew == 0
    modifies m`addrNew, m`nNew, m.addrIndex.Values`refs
    ensures Stops(Flat(lists), m.addrIndex.Keys, n) && (ok <==> n == |Flat(lists)|)
    ensures RefsAre(m.addrIndex, Flat(lists)[..n]) && m.nNew == |Elems(Flat(lists)[..n])|
    ensures |m.addrNew| == |lists|
    ensures ok ==> forall b :: 0 <= b < |lists| ==> NewFiled(m.addrIndex, m.addrNew[b], Elems(lists[b]))
  {
    hide RefsAre, NewFiled, Elems, Flat, Stops;
    ghost var keys := m.addrIndex.Keys;
    FlatStart(lists, keys);
    for b := 0 to |lists|
      invariant |m.addrNew| == |lists| && (forall c :: b <= c < |lists| ==> m.addrNew[c] == map[])
      invariant RefsAre(m.addrIndex, Flat(lists[..b])) && m.nNew == |Elems(Flat(lists[..b]))|
      invariant forall c :: 0 <= c < b ==> NewFiled(m.addrIndex, m.addrNew[c], Elems(lists[c]))
      invariant Stops(Flat(lists[..b]), keys, |Flat(lists[..b])|)
    {
      ok, n := LoadNewBucket(m, b, lists[b], Flat(lists[..b]));
      FlatNext(lists, b, keys, n);
      if !ok {
        n := |Flat(lists[..b])| + n;
        return;
      }
    }
    assert lists[..|lists|] == lists;
    n := |Flat(lists)|;
    assert Flat(lists)[..n] == Flat(lists);
    return true, n;
  }

  lemma FlatStart(lists: seq<seq<Key>>, keys: set<Key>)
    ensures Flat(lists[..0]) == [] && Stops([], keys, 0) && Elems([]) == {}
  {
  }

  /** One more list, up to where it stops. */
  lemma {:induction false} FlatNext(lists: seq<seq<Key>>, b: nat, keys: set<Key>, n: nat)
    requires b < |lists| && Stops(lists[b], keys, n)
    requires Stops(Flat(lists[..b]), keys, |Flat(lists[..b])|)
    ensures Flat(lists[..b + 1]) == Flat(lists[..b]) + lists[b]
    ensures n == |lists[b]| ==>
      Stops(Flat(lists[..b + 1]), keys, |Flat(lists[..b + 1])|) &&
        Flat(lists[..b]) + lists[b][..n] == Flat(lists[..b + 1])
    ensures n != |lists[b]| ==>
      && |Flat(lists[..b])| + n < |Flat(lists)| && Stops(Flat(lists), keys, |Flat(lists[..b])| + n)
      && Flat(lists[..b]) + lists[b][..n] == Flat(lists)[..|Flat(lists[..b])| + n]
    ensures n == |lists[b]| ==> lists[b][..n] == lists[b]
  {
    assert lists[..b + 1][..b] == lists[..b];
    FlatPrefix(lists, b + 1);
  }

  lemma {:induction false} FlatPrefix(lists: seq<seq<Key>>, b: nat)
    requires b <= |lists|
    ensures Flat(lists[..b]) <= Flat(lists)
    decreases |lists|
  {
    if b == |lists| {
      assert lists[..b] == lists;
    } else {
      FlatPrefix(lists[..|lists| - 1], b);
      assert lists[..|lists| - 1][..b] == lists[..b];
    }
  }

  method LoadTriedEntry(m: Manager, ka: KnownAddress, b: nat, ghost done: seq<Key>)
    requires ka.key in m.addrIndex && m.addrIndex[ka.key] == ka && OwnKeys(m.addrIndex) && b < |m.addrTried|
    requires TriedAre(m.addrIndex, done) && m.nTried == |done|
    modifies m`addrTried, m`nTried, ka`tried
    ensures TriedAre(m.addrIndex, done + [ka.key]) && m.nTried == |done + [ka.key]|
    ensures m.addrTried == old(m.addrTried)[b := old(m.addrTried)[b] + [ka]]
  {
    ka.tried := true;
    m.nTried := m.nTried + 1;
    m.addrTried := m.addrTried[b := m.addrTried[b] + [ka]];
  }

  ghost predicate ListLoaded(m: Manager, b: nat, list: seq<Key>, j: nat, done: seq<Key>)
    reads m, m.addrIndex.Values`tried
  {
    && j <= |list| && b < |m.addrTried|
    && TriedAre(m.addrIndex, done + list[..j]) && m.nTried == |done + list[..j]|
    && TriedFiled(m.addrIndex, m.addrTried[b], list[..j])
  }

  method LoadTriedNext(m: Manager, b: nat, list: seq<Key>, j: nat, ghost done: seq<Key>)
    requires OwnKeys(m.addrIndex) && j < |list| && list[j] in m.addrIndex && ListLoaded(m, b, list, j, done)
    modifies m`addrTried, m`nTried, m.addrIndex.Values`tried
    ensures ListLoaded(m, b, list, j + 1, done)
    ensures |m.addrTried| == |old(m.addrTried)|
    ensures forall c :: 0 <= c < |m.addrTried| && c != b ==> m.addrTried[c] == old(m.addrTried[c])
  {
    hide TriedAre;
    assert done + list[..j + 1] == done + list[..j] + [list[j]];
    LoadTriedEntry(m, m.addrIndex[list[j]], b, done + list[..j]);
  }

  method LoadTriedBucket(m: Manager, b: nat, list: seq<Key>, ghost done: seq<Key>) returns (ok: bool, ghost n: nat)
    requires OwnKeys(m.addrIndex) && b < |m.addrTried| && m.addrTried[b] == []
    requires TriedAre(m.addrIndex, done) && m.nTried == |done|
    modifies m`addrTried, m`nTried, m.addrIndex.Values`tried
    ensures Stops(list, m.addrIndex.Keys, n) && (ok <==> n == |list|)
    ensures ListLoaded(m, b, list, n, done) && |m.addrTried| == |old(m.addrTried)|
    ensures forall c :: 0 <= c < |m.addrTried| && c != b ==> m.addrTried[c] == old(m.addrTried[c])
  {
    hide TriedAre;
    assert done + list[..0] == done;
    for j := 0 to |list|
      invariant forall i :: 0 <= i < j ==> list[i] in m.addrIndex
      invariant ListLoaded(m, b, list, j, done) && |m.addrTried| == |old(m.addrTried)|
      invariant forall c :: 0 <= c < |m.addrTried| && c != b ==> m.addrTried[c] == old(m.addrTried[c])
    {
      if list[j] !in m.addrIndex {
        return false, j;
      }
      LoadTriedNext(m, b, list, j, done);
    }
    return true, |list|;
  }

  /** Fills the tried buckets, marking and counting. */
  method LoadTried(m: Manager, lists: seq<seq<Key>>) returns (ok: bool, ghost n: nat)
    requires OwnKeys(m.addrIndex) && |m.addrTried| == |lists| && (forall b :: 0 <= b < |lists| ==> m.addrTried[b] == [])
    requires TriedAre(m.addrIndex, []) && m.nTried == 0
    modifies m`addrTried, m`nTried, m.addrIndex.Values`tried
    ensures Stops(Flat(lists), m.addrIndex.Keys, n) && (ok <==> n == |Flat(lists)|)
    ensures TriedAre(m.addrIndex, Flat(lists)[..n]) && m.nTried == n
    ensures |m.addrTried| == |lists|
    ensures ok ==> forall b :: 0 <= b < |lists| ==> TriedFiled(m.addrIndex, m.addrTried[b], lists[b])
  {
    hide TriedAre, TriedFiled, Flat, Stops;
    ghost var keys := m.addrIndex.Keys;
    FlatStart(lists, keys);
    for b := 0 to |lists|
      invariant |m.addrTried| == |lists| && (forall c :: b <= c < |lists| ==> m.addrTried[c] == [])
      invariant TriedAre(m.addrIndex, Flat(lists[..b])) && m.nTried == |Flat(lists[..b])|
      invariant forall c :: 0 <= c < b ==> TriedFiled(m.addrIndex, m.addrTried[c], lists[c])
      invariant Stops(Flat(lists[..b]), keys, |Flat(lists[..b])|)
    {
      ok, n := LoadTriedBucket(m, b, lists[b], Flat(lists[..b]));
      FlatNext(lists, b, keys, n);
      if !ok {
        n := |Flat(lists[..b])| + n;
        return;
      }
    }
    assert lists[..|lists|] == lists;
    n := |Flat(lists)|;
    assert Flat(lists)[..n] == Flat(lists);
    return true, n;
  }

  // ----- The sanity check -----

  ghost predicate OneKind(ka: KnownAddress)
    reads ka`refs, ka`tried
  {
    !(ka.refs == 0 && !ka.tried) && !(ka.refs > 0 && ka.tried)
  }

  method SanityCheck(m: Manager) returns (ok: bool)
    ensures ok <==> forall k :: k in m.addrIndex ==> OneKind(m.addrIndex[k])
  {
    var rest := m.addrIndex.Keys;
    while rest != {}
      invariant rest <= m.addrIndex.Keys
      invariant forall k :: k in m.addrIndex && k !in rest ==> OneKind(m.addrIndex[k])
      decreases |rest|
    {
      var k :| k in rest;
      var v := m.addrIndex[k];
      if v.refs == 0 && !v.tried {
        return false;
      }
      if v.refs > 0 && v.tried {
        return false;
      }
      rest := rest - {k};
    }
    return true;
  }

  // ----- Loading a file -----

  ghost predicate FullSize(file: PeersFile) {
    |file.newBuckets| == NEW_BUCKET_COUNT && |file.triedBuckets| == TRIED_BUCKET_COUNT
  }

  ghost predicate BucketsVacant(m: Manager)
    reads m
  {
    && |m.addrNew| == NEW_BUCKET_COUNT && (forall b :: 0 <= b < |m.addrNew| ==> m.addrNew[b] == map[])
    && |m.addrTried| == TRIED_BUCKET_COUNT && (forall b :: 0 <= b < |m.addrTried| ==> m.addrTried[b] == [])
    && m.nNew == 0 && m.nTried == 0
  }

  /** The buckets and all the counts are what the file's lists make them. */
  ghost predicate BucketsLoaded(m: Manager, file: PeersFile)
    reads m`addrIndex, m`addrNew, m`addrTried, m`nNew, m`nTried, m.addrIndex.Values`refs, m.addrIndex.Values`tried
  {
    && |m.addrNew| == |file.newBuckets| && |m.addrTried| == |file.triedBuckets|
    && (forall b :: 0 <= b < |m.addrNew| ==> NewFiled(m.addrIndex, m.addrNew[b], Elems(file.newBuckets[b])))
    && (forall b :: 0 <= b < |m.addrTried| ==> TriedFiled(m.addrIndex, m.addrTried[b], file.triedBuckets[b]))
    && RefsAre(m.addrIndex, Flat(file.newBuckets)) && TriedAre(m.addrIndex, Flat(file.triedBuckets))
    && m.nNew == |Elems(Flat(file.newBuckets))| && m.nTried == |Flat(file.triedBuckets)|
  }

  /** Nothing is counted exactly when there is nothing, or the first entry is unknown. */
  lemma CountsZero(news: seq<Key>, tried: seq<Key>, keys: set<Key>, n: nat, n': nat)
    requires Stops(news, keys, n) && (if n == |news| then Stops(tried, keys, n') else n' == 0)
    ensures |Elems(news[..n])| == 0 && n' == 0 <==> news + tried == [] || (news + tried)[0] !in keys
  {
    if n > 0 {
      assert news[..n][0] in Elems(news[..n]);
    }
  }

  lemma StopsAll(entries: seq<Key>, keys: set<Key>, n: nat)
    requires Stops(entries, keys, n)
    ensures n == |entries| <==> Elems(entries) <= keys
    ensures n == |entries| ==> entries[..n] == entries
  {
  }

  lemma SaneMeans(index: map<Key, KnownAddress>, news: seq<Key>, tried: seq<Key>)
    requires RefsAre(index, news) && TriedAre(index, tried)
    ensures (forall k :: k in index ==> OneKind(index[k])) <==>
      (forall k :: k in index.Keys ==> (k in news <==> k !in tried))
  {
    assert forall k :: multiset(news)[k] > 0 <==> k in news;
    assert forall k :: k in index ==> (OneKind(index[k]) <==> (k in news <==> k !in tried));
  }

  method LoadBuckets(m: Manager, file: PeersFile) returns (ok: bool)
    requires FullSize(file) && OwnKeys(m.addrIndex) && BucketsVacant(m) && Untouched(m.addrIndex)
    modifies m`addrNew, m`addrTried, m`nNew, m`nTried, m.addrIndex.Values`refs, m.addrIndex.Values`tried
    ensures ok <==> BucketsLoad(file, m.addrIndex.Keys)
    ensures ok ==> BucketsLoaded(m, file)
    ensures m.nNew == 0 && m.nTried == 0 <==> Entries(file) == [] || Entries(file)[0] !in m.addrIndex.Keys
  {
    hide Flat, Stops, Elems, RefsAre, TriedAre, NewFiled, TriedFiled, OneKind;
    ghost var news, tried, keys := Flat(file.newBuckets), Flat(file.triedBuckets), m.addrIndex.Keys;
    NothingMet(m.addrIndex);
    ghost var n, n' := 0, 0;
    ok, n := LoadNew(m, file.newBuckets);
    StopsAll(news, keys, n);
    ElemsBoth(news, tried, keys);
    if !ok {
      CountsZero(news, tried, keys, n, 0);
      return;
    }
    ok, n' := LoadTried(m, file.triedBuckets);
    StopsAll(tried, keys, n');
    CountsZero(news, tried, keys, n, n');
    if !ok {
      return;
    }
    SaneMeans(m.addrIndex, news, tried);
    ok := SanityCheck(m);
  }

  lemma NothingMet(index: map<Key, KnownAddress>)
    requires Untouched(index)
    ensures RefsAre(index, []) && TriedAre(index, [])
  {
  }

  lemma ElemsBoth(s: seq<Key>, t: seq<Key>, keys: set<Key>)
    ensures Elems(s + t) <= keys <==> Elems(s) <= keys && Elems(t) <= keys
  {
    assert Elems(s + t) == Elems(s) + Elems(t);
  }

  // ----- When the loaded manager is as it should be -----

  lemma {:induction false} NewCountLoaded(file: PeersFile, keys: set<Key>)
    requires BucketsLoad(file, keys)
    ensures |Elems(Flat(file.newBuckets))| == NewCount(LedgerOf(file, keys))
    ensures |Flat(file.triedBuckets)| == Total(file.triedBuckets)
    ensures Elems(Flat(file.triedBuckets)) == TriedKeys(file.triedBuckets) <= keys
    ensures Elems(Flat(file.newBuckets)) <= keys
  {
    hide Flat, TriedKeys, Total;
    FlatTried(file.triedBuckets);
    ElemsBoth(Flat(file.newBuckets), Flat(file.triedBuckets), keys);
    assert Elems(Flat(file.newBuckets)) == keys - Elems(Flat(file.triedBuckets));
  }

  lemma FiledLoaded(index: map<Key, KnownAddress>, news: seq<map<Key, KnownAddress>>, tried: seq<seq<KnownAddress>>,
                    file: PeersFile)
    requires OwnKeys(index) && |news| == |file.newBuckets| && |tried| == |file.triedBuckets|
    requires forall b :: 0 <= b < |news| ==> NewFiled(index, news[b], Elems(file.newBuckets[b]))
    requires forall b :: 0 <= b < |tried| ==> TriedFiled(index, tried[b], file.triedBuckets[b])
    ensures Filed(index, news, tried, LedgerOf(file, index.Keys), {})
  {
    hide NewFiled, TriedFiled;
  }

  /** After a load that went through, the manager is valid exactly when the file's buckets
      were well formed: the sanity check alone does not make it so. */
  lemma {:induction false} LoadedValid(m: Manager, file: PeersFile)
    requires OwnKeys(m.addrIndex) && BucketsLoad(file, m.addrIndex.Keys) && BucketsLoaded(m, file)
    requires m.book == LedgerOf(file, m.addrIndex.Keys)
    ensures m.Valid() <==> WellFormed(file, m.addrIndex.Keys)
  {
    hide Inv, Count, TriedKeys, Total, NewCount, Flat, Filed, Sets, NewFiled, TriedFiled;
    var keys, news := m.addrIndex.Keys, file.newBuckets;
    NewCountLoaded(file, keys);
    FiledLoaded(m.addrIndex, m.addrNew, m.addrTried, file);
    CountsAgree(news, keys);
    forall k | k in m.addrIndex
      ensures m.Flagged(k) <==> multiset(Flat(news))[k] == Count(Sets(news), k)
    {
      assert m.addrIndex[k].tried <==> k in Elems(Flat(file.triedBuckets));
    }
  }

  // ----- Starting from the file -----

  /** Reads the file into an empty manager; the counters stay at zero exactly when the load
      breaks off before anything is counted, or there is nothing to count. */
  method DeserializePeers(m: Manager, file: PeersFile, resolve: Resolver, now: int) returns (ok: bool)
    requires FullSize(file) && m.addrIndex == map[] && BucketsVacant(m)
    modifies m
    ensures ok <==> Loads(file, resolve)
    ensures ok ==>
      && IndexLoaded(m.addrIndex, file, |file.addresses|, resolve, now) && BucketsLoaded(m, file)
      && m.book == LedgerOf(file, m.addrIndex.Keys) && forall k :: k in m.addrIndex ==> fresh(m.addrIndex[k])
    ensures m.nNew == 0 && m.nTried == 0 <==> CountsNothing(file, resolve)
  {
    hide BucketsLoad, BucketsLoaded, Entries, IndexLoaded, Untouched, KnownKeys, AllResolve, LedgerOf, OwnKeys;
    if file.version > SERIALISATION_VERSION {
      return false;
    }
    ok := LoadAddresses(m, file, resolve, now);
    if !ok {
      return;
    }
    IndexKeys(file, resolve, m.addrIndex, now);
    ok := LoadBuckets(m, file);
    m.book := LedgerOf(file, m.addrIndex.Keys);
  }

  /** Empties the index and the buckets.  The counters keep their values. */
  method Reset(m: Manager)
    modifies m
    ensures m.addrIndex == map[] && m.nNew == old(m.nNew) && m.nTried == old(m.nTried)
    ensures m.Valid() <==> m.nNew == 0 && m.nTried == 0
  {
    m.addrIndex := map[];
    m.addrNew := seq(NEW_BUCKET_COUNT, _ => map[]);
    m.addrTried := seq(TRIED_BUCKET_COUNT, _ => []);
    m.book := Ledger({}, seq(NEW_BUCKET_COUNT, _ => {}), seq(TRIED_BUCKET_COUNT, _ => []));
    Manager.EmptyTotal(m.book.tried);
  }

  lemma TriedIsIndexed(index: map<Key, KnownAddress>, list: seq<KnownAddress>, keys: seq<Key>)
    requires TriedFiled(index, list, keys)
    ensures list != [] || keys != [] ==> index != map[]
  {
    if list != [] {
      assert keys[0] in index;
    }
  }

  lemma EmptyIsVacant(m: Manager)
    requires m.Valid() && m.addrIndex == map[]
    ensures BucketsVacant(m)
  {
    forall b | 0 <= b < |m.addrNew|
      ensures m.addrNew[b] == map[]
    {
      assert NewFiled(m.addrIndex, m.addrNew[b], m.book.news[b]);
    }
    forall b | 0 <= b < |m.addrTried|
      ensures m.addrTried[b] == [] && m.book.tried[b] == []
    {
      TriedIsIndexed(m.addrIndex, m.addrTried[b], m.book.tried[b]);
    }
    Manager.EmptyTotal(m.book.tried);
  }

  /** Loads the file, or starts empty without one that can be loaded.  A load that fails
      leaves a valid manager exactly when it failed before anything was counted. */
  method LoadPeers(m: Manager, found: Found, resolve: Resolver, now: int) returns (ok: bool)
    requires m.Valid() && m.addrIndex == map[] && (found.Read? ==> FullSize(found.file))
    modifies m
    ensures ok <==> found.Missing? || (found.Read? && Loads(found.file, resolve))
    ensures found.Missing? ==> m.Valid() && m.addrIndex == map[]
    ensures ok && found.Read? ==>
      && IndexLoaded(m.addrIndex, found.file, |found.file.addresses|, resolve, now)
      && m.book == LedgerOf(found.file, m.addrIndex.Keys)
      && (m.Valid() <==> WellFormed(found.file, m.addrIndex.Keys))
      && forall k :: k in m.addrIndex ==> fresh(m.addrIndex[k])
    ensures !ok ==> m.addrIndex == map[]
    ensures !ok ==> (m.Valid() <==> found.Unreadable? || CountsNothing(found.file, resolve))
  {
    hide BucketsLoad, CountsNothing, BucketsLoaded, LedgerOf, WellFormed, Inv, Filed, IndexLoaded;
    EmptyIsVacant(m);
    match found {
      case Missing =>
        return true;
      case Unreadable =>
        Reset(m);
        return false;
      case Read(file) =>
        ok := DeserializePeers(m, file, resolve, now);
        if ok {
          IndexKeys(file, resolve, m.addrIndex, now);
          LoadedValid(m, file);
        } else {
          Reset(m);
        }
    }
  }

  lemma IndexKeys(file: PeersFile, resolve: Resolver, index: map<Key, KnownAddress>, now: int)
    requires IndexLoaded(index, file, |file.addresses|, resolve, now)
    ensures OwnKeys(index) && index.Keys == KnownKeys(file.addresses, resolve)
  {
    assert file.addresses[..|file.addresses|] == file.addresses;
  }

  // ----- Saving -----

  ghost function SavedOf(ka: KnownAddress): SavedAddress
    reads ka
  {
    SavedAddress(ka.key, ka.src, ka.timestamp, ka.attempts, ka.lastAttempt, ka.lastSuccess, ka.services)
  }

  /** The keys of a set, each once, in no particular order. */
  method ListKeys(keys: set<Key>) returns (list: seq<Key>)
    ensures EachOnce(list) && Elems(list) == keys
  {
    list := [];
    var rest := keys;
    while rest != {}
      invariant rest <= keys && EachOnce(list) && Elems(list) == keys - rest
      decreases |rest|
    {
      var k :| k in rest;
      assert k !in Elems(list) && Elems(list + [k]) == Elems(list) + {k};
      list := list + [k];
      rest := rest - {k};
    }
  }

  /** Every indexed address is in the list, once, with all its data. */
  ghost predicate AddressesSaved(index: map<Key, KnownAddress>, addresses: seq<SavedAddress>)
    reads index.Values
  {
    && (forall i :: 0 <= i < |addresses| ==>
      addresses[i].key in index && addresses[i] == SavedOf(index[addresses[i].key]))
    && (forall i, j :: 0 <= i < j < |addresses| ==> addresses[i].key != addresses[j].key)
    && (forall k :: k in index ==> exists i :: 0 <= i < |addresses| && addresses[i].key == k)
  }

  method SaveAddresses(m: Manager) returns (addresses: seq<SavedAddress>)
    requires OwnKeys(m.addrIndex)
    ensures AddressesSaved(m.addrIndex, addresses)
  {
    var keys := ListKeys(m.addrIndex.Keys);
    addresses := [];
    for i := 0 to |keys|
      invariant |addresses| == i
      invariant forall j :: 0 <= j < i ==> keys[j] in m.addrIndex && addresses[j] == SavedOf(m.addrIndex[keys[j]])
    {
      assert keys[i] in Elems(keys);
      var v := m.addrIndex[keys[i]];
      addresses := addresses + [SavedAddress(v.key, v.src, v.timestamp, v.attempts, v.lastAttempt, v.lastSuccess,
        v.services)];
    }
    forall k | k in m.addrIndex
      ensures exists i :: 0 <= i < |addresses| && addresses[i].key == k
    {
      assert k in Elems(keys);
      var i :| 0 <= i < |keys| && keys[i] == k;
      assert addresses[i].key == k;
    }
  }

  method SaveNew(m: Manager) returns (lists: seq<seq<Key>>)
    ensures |lists| == |m.addrNew|
    ensures forall b :: 0 <= b < |lists| ==> EachOnce(lists[b]) && Elems(lists[b]) == m.addrNew[b].Keys
  {
    hide EachOnce, Elems;
    lists := [];
    for b := 0 to |m.addrNew|
      invariant |lists| == b
      invariant forall c :: 0 <= c < b ==> EachOnce(lists[c]) && Elems(lists[c]) == m.addrNew[c].Keys
    {
      var list := ListKeys(m.addrNew[b].Keys);
      lists := lists + [list];
    }
  }

  method SaveTriedList(list: seq<KnownAddress>) returns (keys: seq<Key>)
    ensures |keys| == |list| && forall i :: 0 <= i < |list| ==> keys[i] == list[i].key
  {
    keys := [];
    for i := 0 to |list|
      invariant |keys| == i && forall j :: 0 <= j < i ==> keys[j] == list[j].key
    {
      keys := keys + [list[i].key];
    }
  }

  method SaveTried(m: Manager) returns (lists: seq<seq<Key>>)
    ensures |lists| == |m.addrTried|
    ensures forall b :: 0 <= b < |lists| ==>
      |lists[b]| == |m.addrTried[b]| && forall i :: 0 <= i < |lists[b]| ==> lists[b][i] == m.addrTried[b][i].key
  {
    lists := [];
    for b := 0 to |m.addrTried|
      invariant |lists| == b
      invariant forall c :: 0 <= c < b ==>
        |lists[c]| == |m.addrTried[c]| && forall i :: 0 <= i < |lists[c]| ==> lists[c][i] == m.addrTried[c][i].key
    {
      var list := SaveTriedList(m.addrTried[b]);
      lists := lists + [list];
    }
  }

  /** Saves the manager: every address, and the ledger as lists of keys. */
  method SavePeers(m: Manager) returns (file: PeersFile)
    requires m.Valid()
    ensures file.version == SERIALISATION_VERSION && FullSize(file)
    ensures AddressesSaved(m.addrIndex, file.addresses)
    ensures LedgerOf(file, m.addrIndex.Keys) == m.book && WellFormed(file, m.addrIndex.Keys)
  {
    hide Inv, Count, TriedKeys, EachOnce, Elems, AddressesSaved, NewFiled, TriedFiled;
    var addresses := SaveAddresses(m);
    var news := SaveNew(m);
    var tried := SaveTried(m);
    file := PeersFile(SERIALISATION_VERSION, addresses, news, tried);
    SameLists(m.addrIndex, m.addrNew, m.addrTried, m.book, news, tried);
    LedgerShape(m.book);
  }

  lemma {:induction false} SameLists(index: map<Key, KnownAddress>, news: seq<map<Key, KnownAddress>>,
                                     tried: seq<seq<KnownAddress>>,
                                     book: Ledger, newLists: seq<seq<Key>>, triedLists: seq<seq<Key>>)
    requires Filed(index, news, tried, book, {}) && |newLists| == |news| && |triedLists| == |tried|
    requires forall b :: 0 <= b < |news| ==> Elems(newLists[b]) == news[b].Keys
    requires forall b :: 0 <= b < |tried| ==>
      |triedLists[b]| == |tried[b]| && forall i :: 0 <= i < |tried[b]| ==> triedLists[b][i] == tried[b][i].key
    ensures Sets(newLists) == book.news && triedLists == book.tried && index.Keys == book.keys
  {
    hide Elems;
    forall b | 0 <= b < |news|
      ensures Sets(newLists)[b] == book.news[b]
    {
      assert NewFiled(index, news[b], book.news[b]);
    }
    forall b | 0 <= b < |tried|
      ensures triedLists[b] == book.tried[b]
    {
      assert TriedFiled(index, tried[b], book.tried[b]);
    }
  }

  // ----- Saving and loading -----

  lemma {:induction false} InNew(lists: seq<seq<Key>>, k: Key)
    ensures k in Flat(lists) <==> Count(Sets(lists), k) > 0
  {
    hide Count, Flat;
    FlatHas(lists, k);
    CountZero(Sets(lists), k);
    assert forall b :: 0 <= b < |lists| ==> (k in Sets(lists)[b] <==> k in lists[b]);
  }

  /** Well-formed buckets always load. */
  lemma {:induction false} WellFormedLoads(file: PeersFile, keys: set<Key>)
    requires WellFormed(file, keys)
    ensures BucketsLoad(file, keys)
  {
    hide Count, TriedKeys, Flat, PlacedOnce;
    var l := LedgerOf(file, keys);
    FlatTried(file.triedBuckets);
    forall k | k in Flat(file.newBuckets)
      ensures k in keys
    {
      FlatHas(file.newBuckets, k);
      var b :| 0 <= b < |file.newBuckets| && k in file.newBuckets[b];
      assert k in l.news[b];
    }
    forall k | k in keys
      ensures k in Flat(file.newBuckets) <==> k !in Flat(file.triedBuckets)
    {
      assert Settled(l, k);
      InNew(file.newBuckets, k);
      assert k in Elems(Flat(file.triedBuckets)) <==> k in TriedKeys(file.triedBuckets);
    }
    ElemsBoth(Flat(file.newBuckets), Flat(file.triedBuckets), keys);
    assert forall k :: k in Flat(file.triedBuckets) ==> k in Elems(Flat(file.triedBuckets));
  }

  /** The address strings the manager holds stand for the addresses they were made from. */
  ghost predicate Resolves(index: map<Key, KnownAddress>, resolve: Resolver) {
    forall k :: k in index ==> resolve(k) == Some(k) && resolve(index[k].src) == Some(index[k].src)
  }

  lemma SavedKeys(index: map<Key, KnownAddress>, addresses: seq<SavedAddress>, resolve: Resolver)
    requires AddressesSaved(index, addresses) && Resolves(index, resolve) && OwnKeys(index)
    ensures AllResolve(addresses, resolve) && KnownKeys(addresses, resolve) == index.Keys
  {
    forall k | k in index
      ensures k in KnownKeys(addresses, resolve)
    {
      var i :| 0 <= i < |addresses| && addresses[i].key == k;
    }
  }

  /** An address that was saved and loaded, but for its timestamp. */
  ghost predicate Same(was: KnownAddress, ka: KnownAddress, now: int)
    reads was, ka
  {
    && ka.key == was.key && ka.src == was.src && ka.services == was.services && ka.attempts == was.attempts
    && ka.lastAttempt == was.lastAttempt && ka.lastSuccess == was.lastSuccess && ka.timestamp == now
  }

  lemma SavedSame(index: map<Key, KnownAddress>, index': map<Key, KnownAddress>, file: PeersFile, resolve: Resolver,
                  now: int, k: Key)
    requires AddressesSaved(index, file.addresses) && Resolves(index, resolve) && OwnKeys(index)
    requires IndexLoaded(index', file, |file.addresses|, resolve, now) && file.version == SERIALISATION_VERSION &&
      k in index'
    ensures k in index && Same(index[k], index'[k], now)
  {
    assert RestoredLast(index'[k], file, |file.addresses|, resolve, now);
  }

  /** What a valid manager saves, a new manager loads: the same ledger, counters and
      addresses.  Only the timestamps are not what they were. */
  method SaveAndReload(m: Manager, resolve: Resolver, now: int) returns (m': Manager)
    requires m.Valid() && Resolves(m.addrIndex, resolve)
    ensures fresh(m') && m'.Valid() && m'.book == m.book && m'.nNew == m.nNew && m'.nTried == m.nTried
    ensures m'.addrIndex.Keys == m.addrIndex.Keys
    ensures forall k :: k in m.addrIndex ==>
      && Same(m.addrIndex[k], m'.addrIndex[k], now)
      && m'.addrIndex[k].refs == m.addrIndex[k].refs && m'.addrIndex[k].tried == m.addrIndex[k].tried
  {
    hide Inv, Filed, WellFormed, BucketsLoad, IndexLoaded, AddressesSaved, Restored, Same, Count, TriedKeys,
      LedgerOf, KnownKeys, AllResolve;
    hide Resolves, NewCount, Total;
    var file := SavePeers(m);
    assert OwnKeys(m.addrIndex) by {
      IsKeyed(m.addrIndex, m.addrNew, m.addrTried, m.book);
    }
    SavedKeys(m.addrIndex, file.addresses, resolve);
    WellFormedLoads(file, m.addrIndex.Keys);
    m' := new Manager(m.newBucketOf, m.triedBucketOf);
    var ok := LoadPeers(m', Read(file), resolve, now);
    IndexKeys(file, resolve, m'.addrIndex, now);
    forall k | k in m.addrIndex
      ensures Same(m.addrIndex[k], m'.addrIndex[k], now)
      ensures m'.addrIndex[k].refs == m.addrIndex[k].refs && m'.addrIndex[k].tried == m.addrIndex[k].tried
    {
      SavedSame(m.addrIndex, m'.addrIndex, file, resolve, now, k);
      m.KnownFacts(k);
      m'.KnownFacts(k);
    }
  }

  lemma IsKeyed(index: map<Key, KnownAddress>, news: seq<map<Key, KnownAddress>>, tried: seq<seq<KnownAddress>>,
                book: Ledger)
    requires Filed(index, news, tried, book, {})
    ensures OwnKeys(index)
  {
  }

  // ----- A load that fails too late -----

  /** One address, one bucket that holds it, and another that holds an address not listed. */
  function HalfGood(): PeersFile {
    PeersFile(SERIALISATION_VERSION, [SavedAddress("1.2.3.4:8333", "1.2.3.4:8333", 0, 0, 0, 0, {})],
              [["1.2.3.4:8333"], ["5.6.7.8:8333"]] + seq(NEW_BUCKET_COUNT - 2, _ => []),
                seq(TRIED_BUCKET_COUNT, _ => []))
  }

  lemma HalfGoodFails(resolve: Resolver)
    requires forall k :: resolve(k) == Some(k)
    ensures !Loads(HalfGood(), resolve) && !CountsNothing(HalfGood(), resolve)
  {
    hide Flat, Entries;
    var file := HalfGood();
    HalfGoodEntries();
    assert KnownKeys(file.addresses, resolve) == {"1.2.3.4:8333"} by {
      assert file.addresses[0].key in KnownKeys(file.addresses, resolve);
    }
    assert Entries(file)[1] in Elems(Entries(file));
  }

  /** Loading such a file fails, empties the manager, and leaves it counting addresses it
      does not have. */
  method FailsTooLate() returns (m: Manager)
    ensures m.addrIndex == map[] && !m.Valid()
  {
    hide Inv, Filed, Loads, CountsNothing, HalfGood, Manager.ValidBut;
    m := new Manager((_, _) => 0, _ => 0);
    var resolve: Resolver := k => Some(k);
    HalfGoodFails(resolve);
    HalfGoodEntries();
    var ok := LoadPeers(m, Read(HalfGood()), resolve, 0);
  }

  lemma HalfGoodEntries()
    ensures FullSize(HalfGood()) && |Entries(HalfGood())| >= 2
    ensures Entries(HalfGood())[0] == "1.2.3.4:8333" && Entries(HalfGood())[1] == "5.6.7.8:8333"
  {
    var lists := HalfGood().newBuckets;
    FlatPrefix(lists, 2);
    assert lists[..2][..1] == lists[..1] && lists[..1][..0] == [];
    assert Flat(lists[..1]) == ["1.2.3.4:8333"];
    assert Flat(lists[..2]) == ["1.2.3.4:8333", "5.6.7.8:8333"];
  }

  // ----- A load that goes through and should not -----

  /** One address, and one bucket that lists it twice. */
  function Repeating(): PeersFile {
    PeersFile(SERIALISATION_VERSION, [SavedAddress("1.2.3.4:8333", "1.2.3.4:8333", 0, 0, 0, 0, {})],
              [["1.2.3.4:8333", "1.2.3.4:8333"]] + seq(NEW_BUCKET_COUNT - 1, _ => []),
                seq(TRIED_BUCKET_COUNT, _ => []))
  }

  lemma RepeatingLoads(resolve: Resolver, keys: set<Key>)
    requires forall k :: resolve(k) == Some(k)
    ensures FullSize(Repeating()) && Loads(Repeating(), resolve) && !WellFormed(Repeating(), keys)
  {
    hide Flat, Inv;
    var file := Repeating();
    assert KnownKeys(file.addresses, resolve) == {"1.2.3.4:8333"} by {
      assert file.addresses[0].key in KnownKeys(file.addresses, resolve);
    }
    forall k
      ensures k in Flat(file.newBuckets) <==> k == "1.2.3.4:8333"
      ensures k !in Flat(file.triedBuckets)
    {
      FlatHas(file.newBuckets, k);
      FlatHas(file.triedBuckets, k);
      assert "1.2.3.4:8333" in file.newBuckets[0];
    }
    var list := file.newBuckets[0];
    assert list[0] == list[1];
    assert !EachOnce(list);
  }

  /** Loading such a file succeeds and leaves an address that counts more buckets than it is
      in. */
  method LoadsTwice() returns (m: Manager, ok: bool)
    ensures ok && !m.Valid()
  {
    hide Inv, Filed, Loads, WellFormed, Repeating, Manager.ValidBut;
    m := new Manager((_, _) => 0, _ => 0);
    var resolve: Resolver := k => Some(k);
    RepeatingLoads(resolve, {});
    ok := LoadPeers(m, Read(Repeating()), resolve, 0);
    RepeatingLoads(resolve, m.addrIndex.Keys);
  }
}
