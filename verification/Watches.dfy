/** Who is to be told about what: the two-way index of watch requests, and the manager that
    keeps it as clients come, ask and go. */
module Watches {
  import opened Options

  /** A client is known by its quit channel. */
  type Client = nat

  function Asked<K>(requests: map<Client, set<K>>, c: Client): set<K> {
    if c in requests then requests[c] else {}
  }

  function Watchers<K>(watched: map<K, set<Client>>, k: K): set<Client> {
    if k in watched then watched[k] else {}
  }

  ghost predicate Agree<K>(watched: map<K, set<Client>>, requests: map<Client, set<K>>, k: K, c: Client) {
    c in Watchers(watched, k) <==> k in Asked(requests, c)
  }

  /** A client watches something exactly when it has asked for it, and nothing is kept for
      what nobody watches. */
  ghost predicate TwoWay<K(!new)>(watched: map<K, set<Client>>, requests: map<Client, set<K>>) {
    && (forall k, c :: Agree(watched, requests, k, c))
    && (forall k :: k in watched ==> watched[k] != {})
  }

  lemma {:induction false} TwoWayAdd<K(!new)>(watched: map<K, set<Client>>, requests: map<Client, set<K>>, k: K,
                                       c: Client)
    requires TwoWay(watched, requests)
    ensures TwoWay(watched[k := Watchers(watched, k) + {c}], requests[c := Asked(requests, c) + {k}])
  {
    var watched', requests' := watched[k := Watchers(watched, k) + {c}], requests[c := Asked(requests, c) + {k}];
    forall x, d
      ensures Agree(watched', requests', x, d)
    {
      assert Agree(watched, requests, x, d);
    }
  }

  /** The watchers of `k` without a client; without the entry when nobody is left. */
  function Unwatch<K>(watched: map<K, set<Client>>, k: K, c: Client): map<K, set<Client>> {
    if Watchers(watched, k) - {c} == {} then watched - {k} else watched[k := Watchers(watched, k) - {c}]
  }

  lemma {:induction false} TwoWayRemove<K(!new)>(watched: map<K, set<Client>>, requests: map<Client, set<K>>, k: K,
                                          c: Client)
    requires TwoWay(watched, requests)
    ensures TwoWay(Unwatch(watched, k, c), requests[c := Asked(requests, c) - {k}])
  {
    var watched', requests' := Unwatch(watched, k, c), requests[c := Asked(requests, c) - {k}];
    forall x, d
      ensures Agree(watched', requests', x, d)
    {
      assert Agree(watched, requests, x, d);
    }
  }

  /** What each client asked for, and who is watching what; the first is kept with the
      client, the second with the manager. */
  class WatchIndex<K(==,!new)> {
    var watched: map<K, set<Client>>
    var requests: map<Client, set<K>>

    ghost predicate Valid()
      reads this
    {
      TwoWay(watched, requests)
    }

    constructor ()
      ensures Valid() && watched == map[] && requests == map[]
    {
      watched, requests := map[], map[];
    }

    /** Adds requests of a client. */
    method Add(c: Client, ks: seq<K>)
      requires Valid()
      modifies this
      ensures Valid()
      ensures forall d :: Asked(requests, d) == Asked(old(requests), d) + if d == c then (set k | k in ks) else {}
    {
      for i := 0 to |ks|
        invariant Valid()
        invariant forall d :: Asked(requests, d) == Asked(old(requests), d) + if d == c then (set k | k in ks[..i])
          else {}
      {
        var k := ks[i];
        assert ks[..i + 1] == ks[..i] + [k];
        TwoWayAdd(watched, requests, k, c);
        requests := requests[c := Asked(requests, c) + {k}];
        watched := watched[k := Watchers(watched, k) + {c}];
      }
      assert ks[..|ks|] == ks;
    }

    /** Removes one request of a client, if it is there. */
    method Remove(c: Client, k: K)
      requires Valid()
      modifies this
      ensures Valid()
      ensures forall d :: Asked(requests, d) == if d == c then Asked(old(requests), d) - {k}
        else Asked(old(requests), d)
    {
      TwoWayRemove(watched, requests, k, c);
      ghost var after := Unwatch(watched, k, c);
      requests := requests[c := Asked(requests, c) - {k}];
      if k !in watched {
        assert after == watched;
        return;
      }
      watched := watched[k := watched[k] - {c}];
      if watched[k] == {} {
        watched := watched - {k};
      }
      assert watched == after;
    }

    /** Removes every request of a client. */
    method RemoveClient(c: Client)
      requires Valid()
      modifies this
      ensures Valid()
      ensures forall d :: Asked(requests, d) == if d == c then {} else Asked(old(requests), d)
      ensures forall k :: c !in Watchers(watched, k)
    {
      var rest := Asked(requests, c);
      while rest != {}
        invariant Valid() && rest == Asked(requests, c)
        invariant forall d :: d != c ==> Asked(requests, d) == Asked(old(requests), d)
        decreases |rest|
      {
        var k :| k in rest;
        Remove(c, k);
        rest := rest - {k};
      }
      forall k
        ensures c !in Watchers(watched, k)
      {
        assert Agree(watched, requests, k, c);
      }
    }

    /** Removes what a set of clients asked for about one thing. */
    method RemoveWatchers(k: K)
      requires Valid()
      modifies this
      ensures Valid() && k !in watched
      ensures forall d :: Asked(requests, d) == Asked(old(requests), d) - {k}
    {
      hide Asked;
      var rest := Watchers(watched, k);
      forall d | d !in rest
        ensures k !in Asked(requests, d)
      {
        assert Agree(watched, requests, k, d);
      }
      while rest != {}
        invariant Valid()
        invariant forall d :: Asked(requests, d) == if d in rest then Asked(old(requests), d)
          else Asked(old(requests), d) - {k}
        decreases |rest|
      {
        var d :| d in rest;
        Remove(d, k);
        rest := rest - {d};
      }
      forall d
        ensures d !in Watchers(watched, k)
      {
        assert Agree(watched, requests, k, d);
      }
      assert Watchers(watched, k) == {};
    }
  }

  // ----- The notification manager -----

  datatype OutPoint = OutPoint(hash: nat, index: nat)

  type Address = string

  /** A transaction: what it spends, and the addresses that each of its outputs pays. */
  datatype Transaction = Transaction(hash: nat, inputs: seq<OutPoint>, outputs: seq<seq<Address>>)

  /** The transaction of the memory pool that spends an output, if there is one. */
  type Pool = OutPoint -> Option<Transaction>

  ghost predicate NoneTwice(s: seq<Client>) {
    forall i, j :: 0 <= i < j < |s| ==> s[i] != s[j]
  }

  /** Adds the clients of a set that are not on the list yet. */
  method Notify(cs: set<Client>, notified: seq<Client>) returns (r: seq<Client>)
    requires NoneTwice(notified)
    ensures NoneTwice(r) && notified <= r && forall c :: c in r <==> c in notified || c in cs
  {
    r := notified;
    var rest := cs;
    while rest != {}
      invariant NoneTwice(r) && notified <= r && rest <= cs
      invariant forall c :: c in r <==> c in notified || c in cs - rest
      decreases |rest|
    {
      var c :| c in rest;
      if c !in r {
        r := r + [c];
      }
      rest := rest - {c};
    }
  }

  /** The outputs, among the first `n`, that pay an address in a set. */
  ghost function Paying(tx: Transaction, n: nat, addrs: set<Address>): set<OutPoint>
    requires n <= |tx.outputs|
  {
    set i | 0 <= i < n && Pays(tx.outputs[i], addrs) :: OutPoint(tx.hash, i)
  }

  datatype Message =
    | RegisterClient(c: Client)
    | UnregisterClient(c: Client)
    | RegisterBlocks(c: Client)
    | UnregisterBlocks(c: Client)
    | RegisterNewTxs(c: Client)
    | UnregisterNewTxs(c: Client)
    | RegisterSpent(c: Client, ops: seq<OutPoint>)
    | UnregisterSpent(c: Client, op: OutPoint)
    | RegisterAddr(c: Client, addrs: seq<Address>)
    | UnregisterAddr(c: Client, addr: Address)
    | TxAccepted(tx: Transaction)
    | BlockConnected(txns: seq<Transaction>)

  class Manager {
    var clients: set<Client>
    var blockNotifications: set<Client>
    var txNotifications: set<Client>
    const spent: WatchIndex<OutPoint>
    const addrs: WatchIndex<Address>

    ghost predicate Valid()
      reads this, spent, addrs
    {
      spent.Valid() && addrs.Valid()
    }

    /** Nothing is kept of a client. */
    ghost predicate Forgotten(c: Client)
      reads this, spent, addrs
    {
      && c !in clients && c !in blockNotifications && c !in txNotifications
      && Asked(spent.requests, c) == {} && Asked(addrs.requests, c) == {}
      && (forall op :: c !in Watchers(spent.watched, op)) && (forall a :: c !in Watchers(addrs.watched, a))
    }

    constructor ()
      ensures Valid() && fresh(spent) && fresh(addrs) && forall c :: Forgotten(c)
    {
      clients, blockNotifications, txNotifications := {}, {}, {};
      spent := new WatchIndex<OutPoint>();
      addrs := new WatchIndex<Address>();
    }

    /** Tells everybody who watches an input, once each; a spend in a block ends the watch. */
    method NotifyForTxIns(tx: Transaction, inBlock: bool) returns (notified: seq<Client>)
      requires Valid()
      modifies spent
      ensures Valid() && NoneTwice(notified)
      ensures forall c :: c in notified <==> Watching(tx, Asked(old(spent.requests), c))
      ensures forall c :: Asked(spent.requests, c) ==
                if inBlock then Asked(old(spent.requests), c) - (set op | op in tx.inputs)
                  else Asked(old(spent.requests), c)
    {
      notified := [];
      for i := 0 to |tx.inputs|
        invariant Valid() && NoneTwice(notified)
        invariant forall c :: c in notified <==> exists j :: 0 <= j < i && tx.inputs[j] in Asked(old(spent.requests), c)
        invariant forall c :: Asked(spent.requests, c) ==
                    if inBlock then Asked(old(spent.requests), c) - (set op | op in tx.inputs[..i])
                      else Asked(old(spent.requests), c)
      {
        var op := tx.inputs[i];
        notified := NotifyForInput(op, inBlock, notified);
        assert tx.inputs[..i + 1] == tx.inputs[..i] + [op];
      }
      assert tx.inputs[..|tx.inputs|] == tx.inputs;
    }

    method NotifyForInput(op: OutPoint, inBlock: bool, notified: seq<Client>) returns (r: seq<Client>)
      requires Valid() && NoneTwice(notified)
      modifies spent
      ensures Valid() && NoneTwice(r)
      ensures forall c :: c in r <==> c in notified || op in Asked(old(spent.requests), c)
      ensures forall c :: Asked(spent.requests, c) == if inBlock then Asked(old(spent.requests), c) - {op}
        else Asked(old(spent.requests), c)
    {
      forall c
        ensures c in Watchers(spent.watched, op) <==> op in Asked(spent.requests, c)
      {
        assert Agree(spent.watched, spent.requests, op, c);
      }
      r := Notify(Watchers(spent.watched, op), notified);
      if inBlock {
        spent.RemoveWatchers(op);
      }
    }

    /** The spends that the pool has of some outputs, by hash. */
    method FindSpends(ops: seq<OutPoint>, pool: Pool) returns (spends: map<nat, Transaction>)
      ensures forall h :: h in spends ==> IsSpend(spends[h], ops, pool) && spends[h].hash == h
      ensures forall i :: 0 <= i < |ops| && pool(ops[i]).Some? ==> pool(ops[i]).value.hash in spends
    {
      spends := map[];
      for i := 0 to |ops|
        invariant forall h :: h in spends ==> IsSpend(spends[h], ops[..i], pool) && spends[h].hash == h
        invariant forall j :: 0 <= j < i && pool(ops[j]).Some? ==> pool(ops[j]).value.hash in spends
      {
        assert ops[..i + 1] == ops[..i] + [ops[i]];
        var spend := pool(ops[i]);
        if spend.Some? {
          spends := spends[spend.value.hash := spend.value];
        }
        assert forall tx :: IsSpend(tx, ops[..i], pool) ==> IsSpend(tx, ops[..i + 1], pool);
      }
      assert ops[..|ops|] == ops;
    }

    /** Adds requests of a client, and tells everybody who watches an input of a transaction that
        already spends one of the outputs: of each such transaction, once each. */
    method AddSpentRequests(c: Client, ops: seq<OutPoint>, pool: Pool) returns (told: map<nat, seq<Client>>)
      requires Valid()
      modifies spent
      ensures Valid()
      ensures forall d ::
        Asked(spent.requests, d) == Asked(old(spent.requests), d) + if d == c then (set op | op in ops) else {}
      ensures forall i :: 0 <= i < |ops| && pool(ops[i]).Some? ==> pool(ops[i]).value.hash in told
      ensures forall h :: h in told ==>
        exists tx :: IsSpend(tx, ops, pool) && tx.hash == h && WatchersTold(tx, told[h], spent.requests)
      ensures Truthful(pool) ==> forall h :: h in told ==> c in told[h]
    {
      hide TwoWay, Asked, NoneTwice, IsSpend, Watching, Truthful, WatchersTold;
      spent.Add(c, ops);
      ghost var requests := spent.requests;
      var spends := FindSpends(ops, pool);
      told := TellSpends(spends);
      forall h | h in told
        ensures IsSpend(spends[h], ops, pool) && WatchersTold(spends[h], told[h], spent.requests)
        ensures Truthful(pool) ==> c in told[h]
      {
        SameTold(spends[h], told[h], requests, spent.requests);
        if Truthful(pool) {
          AskerTold(spends[h], told[h], requests, c, ops, pool);
        }
      }
    }

    /** Tells of each transaction everybody who watches an input of it. */
    method TellSpends(spends: map<nat, Transaction>) returns (told: map<nat, seq<Client>>)
      requires Valid()
      modifies spent
      ensures Valid() && told.Keys == spends.Keys
      ensures forall d :: Asked(spent.requests, d) == Asked(old(spent.requests), d)
      ensures forall h :: h in told ==> WatchersTold(spends[h], told[h], old(spent.requests))
    {
      hide TwoWay, Asked, NoneTwice, Watching;
      told := map[];
      var rest := spends.Keys;
      while rest != {}
        invariant Valid() && rest <= spends.Keys && told.Keys == spends.Keys - rest
        invariant forall d :: Asked(spent.requests, d) == Asked(old(spent.requests), d)
        invariant forall h :: h in told ==> WatchersTold(spends[h], told[h], old(spent.requests))
        decreases |rest|
      {
        var h :| h in rest;
        var notified := NotifyForTxIns(spends[h], false);
        told := told[h := notified];
        rest := rest - {h};
      }
    }

    /** One more client watches an output. */
    method WatchOne(op: OutPoint, c: Client, pool: Pool)
      requires Valid()
      modifies spent
      ensures Valid()
      ensures forall d :: Asked(spent.requests, d) == With(Asked(old(spent.requests), d), d == c, op)
    {
      hide TwoWay, NoneTwice;
      assert (set k | k in [op]) == {op};
      var told := AddSpentRequests(c, [op], pool);
    }

    /** Some clients now watch an output. */
    method WatchOutput(op: OutPoint, cs: set<Client>, pool: Pool)
      requires Valid()
      modifies spent
      ensures Valid()
      ensures forall c :: Asked(spent.requests, c) == With(Asked(old(spent.requests), c), c in cs, op)
    {
      hide TwoWay, Asked;
      var rest := cs;
      while rest != {}
        invariant Valid() && rest <= cs
        invariant forall c :: Asked(spent.requests, c) == With(Asked(old(spent.requests), c), c in cs && c !in rest, op)
        decreases |rest|
      {
        var c :| c in rest;
        WatchOne(op, c, pool);
        rest := rest - {c};
      }
    }

    /** Tells everybody who watches an address that an output pays, and has them watch the
        output from then on. */
    method NotifyForOutput(tx: Transaction, i: nat, notified: seq<Client>, pool: Pool) returns (r: seq<Client>)
      requires Valid() && NoneTwice(notified) && i < |tx.outputs|
      modifies spent
      ensures Valid() && NoneTwice(r)
      ensures forall c :: c in r <==> c in notified || Pays(tx.outputs[i], Asked(addrs.requests, c))
      ensures forall c :: Asked(spent.requests, c) ==
                With(Asked(old(spent.requests), c), Pays(tx.outputs[i], Asked(addrs.requests, c)), OutPoint(tx.hash, i))
    {
      r := notified;
      var out, op := tx.outputs[i], OutPoint(tx.hash, i);
      for j := 0 to |out|
        invariant Valid() && NoneTwice(r)
        invariant forall c :: c in r <==> c in notified || Pays(out[..j], Asked(addrs.requests, c))
        invariant forall c :: Asked(spent.requests, c) ==
                    With(Asked(old(spent.requests), c), Pays(out[..j], Asked(addrs.requests, c)), op)
      {
        var cs := Watchers(addrs.watched, out[j]);
        forall c
          ensures c in cs <==> out[j] in Asked(addrs.requests, c)
          ensures Pays(out[..j + 1], Asked(addrs.requests, c)) <==> Pays(out[..j], Asked(addrs.requests, c)) || c in cs
        {
          assert Agree(addrs.watched, addrs.requests, out[j], c);
          PaysMore(out, j, Asked(addrs.requests, c));
        }
        WatchOutput(op, cs, pool);
        r := Notify(cs, r);
      }
      assert out[..|out|] == out;
    }

    /** Tells everybody who watches an address that the transaction pays, once each. */
    method NotifyForTxOuts(tx: Transaction, pool: Pool) returns (notified: seq<Client>)
      requires Valid()
      modifies spent
      ensures Valid() && NoneTwice(notified)
      ensures forall c :: c in notified <==>
        exists i :: 0 <= i < |tx.outputs| && Pays(tx.outputs[i], Asked(addrs.requests, c))
      ensures forall c :: Asked(spent.requests, c) == Asked(old(spent.requests), c) + Paying(tx, |tx.outputs|,
        Asked(addrs.requests, c))
    {
      hide TwoWay, Asked, Pays;
      notified := [];
      for i := 0 to |tx.outputs|
        invariant Valid() && NoneTwice(notified)
        invariant forall c :: c in notified <==> exists j :: 0 <= j < i && Pays(tx.outputs[j], Asked(addrs.requests, c))
        invariant forall c :: Asked(spent.requests, c) == Asked(old(spent.requests), c) + Paying(tx, i,
          Asked(addrs.requests, c))
      {
        forall c
          ensures Paying(tx, i + 1, Asked(addrs.requests, c)) ==
            With(Paying(tx, i, Asked(addrs.requests, c)), Pays(tx.outputs[i], Asked(addrs.requests, c)),
              OutPoint(tx.hash, i))
        {
          PayingMore(tx, i, Asked(addrs.requests, c));
        }
        notified := NotifyForOutput(tx, i, notified, pool);
      }
    }

    /** Removes every trace of a client. */
    method Forget(c: Client)
      requires Valid()
      modifies this, spent, addrs
      ensures Valid() && Forgotten(c)
      ensures clients == old(clients) - {c}
      ensures blockNotifications == old(blockNotifications) - {c} && txNotifications == old(txNotifications) - {c}
      ensures forall d :: d != c ==>
        Asked(spent.requests, d) == Asked(old(spent.requests), d) &&
        Asked(addrs.requests, d) == Asked(old(addrs.requests), d)
    {
      blockNotifications := blockNotifications - {c};
      txNotifications := txNotifications - {c};
      spent.RemoveClient(c);
      addrs.RemoveClient(c);
      clients := clients - {c};
    }

    /** Handles one message of the queue. */
    method Handle(m: Message, pool: Pool)
      requires Valid()
      modifies this, spent, addrs
      ensures Valid()
      ensures m.UnregisterClient? ==> Forgotten(m.c)
      ensures forall d :: Asked(spent.requests, d) == SpentAfter(m, d, Asked(old(spent.requests), d),
        Asked(old(addrs.requests), d))
      ensures forall d :: Asked(addrs.requests, d) == AddrsAfter(m, d, Asked(old(addrs.requests), d))
      ensures forall d :: d in clients <==>
        m == RegisterClient(d) || (d in old(clients) && m != UnregisterClient(d))
      ensures forall d :: d in blockNotifications <==>
        || m == RegisterBlocks(d)
        || (d in old(blockNotifications) && m != UnregisterBlocks(d) && m != UnregisterClient(d))
      ensures forall d :: d in txNotifications <==>
        || m == RegisterNewTxs(d)
        || (d in old(txNotifications) && m != UnregisterNewTxs(d) && m != UnregisterClient(d))
    {
      hide TwoWay, Asked;
      match m
      case RegisterClient(c) => clients := clients + {c};
      case UnregisterClient(c) => Forget(c);
      case RegisterBlocks(c) => blockNotifications := blockNotifications + {c};
      case UnregisterBlocks(c) => blockNotifications := blockNotifications - {c};
      case RegisterNewTxs(c) => txNotifications := txNotifications + {c};
      case UnregisterNewTxs(c) => txNotifications := txNotifications - {c};
      case RegisterSpent(c, ops) => var told := AddSpentRequests(c, ops, pool);
      case UnregisterSpent(c, op) => spent.Remove(c, op);
      case RegisterAddr(c, as_) => addrs.Add(c, as_);
      case UnregisterAddr(c, a) => addrs.Remove(c, a);
      case TxAccepted(tx) => var spenders, payees := NotifyForTx(tx, false, pool);
      case BlockConnected(txns) => NotifyForBlock(txns, pool);
    }

    /** Tells who watches an input and who watches an address that is paid, once each. */
    method NotifyForTx(tx: Transaction, inBlock: bool, pool: Pool) returns (spenders: seq<Client>, payees: seq<Client>)
      requires Valid()
      modifies spent
      ensures Valid() && NoneTwice(spenders) && NoneTwice(payees)
      ensures forall c :: c in spenders <==> Watching(tx, Asked(old(spent.requests), c))
      ensures forall c :: c in payees <==>
        exists i :: 0 <= i < |tx.outputs| && Pays(tx.outputs[i], Asked(addrs.requests, c))
      ensures forall d :: Asked(spent.requests, d) == SpentAfterTx(tx, inBlock, Asked(old(spent.requests), d),
        Asked(addrs.requests, d))
    {
      spenders := NotifyForTxIns(tx, inBlock);
      payees := NotifyForTxOuts(tx, pool);
    }

    method NotifyForBlock(txns: seq<Transaction>, pool: Pool)
      requires Valid()
      modifies spent
      ensures Valid()
      ensures forall d :: Asked(spent.requests, d) == SpentAfterBlock(txns, Asked(old(spent.requests), d),
        Asked(addrs.requests, d))
    {
      for i := 0 to |txns|
        invariant Valid()
        invariant forall d :: Asked(spent.requests, d) == SpentAfterBlock(txns[..i], Asked(old(spent.requests), d),
          Asked(addrs.requests, d))
      {
        assert txns[..i + 1][..i] == txns[..i];
        var spenders, payees := NotifyForTx(txns[i], true, pool);
      }
      assert txns[..|txns|] == txns;
    }
  }

  /** An input of the transaction is being watched. */
  ghost predicate Watching(tx: Transaction, asked: set<OutPoint>) {
    exists i :: 0 <= i < |tx.inputs| && tx.inputs[i] in asked
  }

  /** Exactly those who watch an input are told, once each. */
  ghost predicate WatchersTold(tx: Transaction, told: seq<Client>, requests: map<Client, set<OutPoint>>) {
    NoneTwice(told) && forall c :: c in told <==> Watching(tx, Asked(requests, c))
  }

  lemma AskerTold(tx: Transaction, told: seq<Client>, requests: map<Client, set<OutPoint>>, c: Client,
                  ops: seq<OutPoint>, pool: Pool)
    requires WatchersTold(tx, told, requests) && IsSpend(tx, ops, pool) && Truthful(pool)
    requires forall op :: op in ops ==> op in Asked(requests, c)
    ensures c in told
  {
    var i :| 0 <= i < |ops| && pool(ops[i]) == Some(tx);
    assert ops[i] in tx.inputs;
  }

  lemma SameTold(tx: Transaction, told: seq<Client>, requests: map<Client, set<OutPoint>>,
                 requests': map<Client, set<OutPoint>>)
    requires WatchersTold(tx, told, requests) && forall c :: Asked(requests', c) == Asked(requests, c)
    ensures WatchersTold(tx, told, requests')
  {
  }

  /** The pool has the transaction as a spend of one of the outputs. */
  ghost predicate IsSpend(tx: Transaction, ops: seq<OutPoint>, pool: Pool) {
    exists i :: 0 <= i < |ops| && pool(ops[i]) == Some(tx)
  }

  /** What the pool has as a spend of an output spends it. */
  ghost predicate Truthful(pool: Pool) {
    forall op :: pool(op).Some? ==> op in pool(op).value.inputs
  }

  ghost function With(s: set<OutPoint>, more: bool, op: OutPoint): set<OutPoint> {
    if more then s + {op} else s
  }

  ghost predicate Pays(out: seq<Address>, addrs: set<Address>) {
    exists a :: a in out && a in addrs
  }

  lemma PaysMore(out: seq<Address>, j: nat, addrs: set<Address>)
    requires j < |out|
    ensures Pays(out[..j + 1], addrs) <==> Pays(out[..j], addrs) || out[j] in addrs
  {
    assert out[..j + 1] == out[..j] + [out[j]];
    assert forall a :: a in out[..j + 1] <==> a in out[..j] || a == out[j];
  }

  lemma PayingMore(tx: Transaction, i: nat, addrs: set<Address>)
    requires i < |tx.outputs|
    ensures Paying(tx, i + 1, addrs) == With(Paying(tx, i, addrs), Pays(tx.outputs[i], addrs), OutPoint(tx.hash, i))
  {
  }

  /** What a client watches after a transaction: no longer what a block spent, and from then
      on what pays one of its addresses. */
  ghost function SpentAfterTx(tx: Transaction, inBlock: bool, asked: set<OutPoint>,
                              addrs: set<Address>): set<OutPoint> {
    (if inBlock then asked - (set op | op in tx.inputs) else asked) + Paying(tx, |tx.outputs|, addrs)
  }

  ghost function SpentAfterBlock(txns: seq<Transaction>, asked: set<OutPoint>, addrs: set<Address>): set<OutPoint> {
    if txns == [] then asked
    else SpentAfterTx(txns[|txns| - 1], true, SpentAfterBlock(txns[..|txns| - 1], asked, addrs), addrs)
  }

  /** The outputs a client watches after a message. */
  ghost function SpentAfter(m: Message, d: Client, asked: set<OutPoint>, addrs: set<Address>): set<OutPoint> {
    match m
    case UnregisterClient(c) => if d == c then {} else asked
    case RegisterSpent(c, ops) => if d == c then asked + (set op | op in ops) else asked
    case UnregisterSpent(c, op) => if d == c then asked - {op} else asked
    case TxAccepted(tx) => SpentAfterTx(tx, false, asked, addrs)
    case BlockConnected(txns) => SpentAfterBlock(txns, asked, addrs)
    case _ => asked
  }

  /** The addresses a client watches after a message. */
  ghost function AddrsAfter(m: Message, d: Client, asked: set<Address>): set<Address> {
    match m
    case UnregisterClient(c) => if d == c then {} else asked
    case RegisterAddr(c, addrs) => if d == c then asked + (set a | a in addrs) else asked
    case UnregisterAddr(c, a) => if d == c then asked - {a} else asked
    case _ => asked
  }

  /** From a transaction of a block on, nothing in the block spends an output. */
  ghost predicate UnspentFrom(txns: seq<Transaction>, i: nat, op: OutPoint) {
    forall j :: i <= j < |txns| ==> op !in txns[j].inputs
  }

  /** After a block a client watches an output exactly when it asked for it and nothing in the
      block spends it, or some transaction pays it to one of the client's addresses and no later
      one spends it. */
  lemma {:induction false} BlockMeans(txns: seq<Transaction>, asked: set<OutPoint>, addrs: set<Address>, op: OutPoint)
    ensures op in SpentAfterBlock(txns, asked, addrs) <==>
      || (op in asked && UnspentFrom(txns, 0, op))
      || (exists i :: 0 <= i < |txns| && PaidBy(txns[i], addrs, op) && UnspentFrom(txns, i + 1, op))
  {
    if txns != [] {
      var n := |txns| - 1;
      var init, last := txns[..n], txns[n];
      BlockMeans(init, asked, addrs, op);
      PaidIsPaying(last, addrs, op);
      forall i | 0 <= i <= n
        ensures UnspentFrom(txns, i, op) <==> UnspentFrom(init, i, op) && op !in last.inputs
      {
        assert forall j :: 0 <= j < n ==> init[j] == txns[j];
      }
      LastOrEarlier(txns, addrs, op);
    }
  }

  /** The transaction has the output, and pays it to one of the addresses. */
  ghost predicate PaidBy(tx: Transaction, addrs: set<Address>, op: OutPoint) {
    op.hash == tx.hash && op.index < |tx.outputs| && exists a :: a in tx.outputs[op.index] && a in addrs
  }

  lemma PaidIsPaying(tx: Transaction, addrs: set<Address>, op: OutPoint)
    ensures op in Paying(tx, |tx.outputs|, addrs) <==> PaidBy(tx, addrs, op)
  {
    if PaidBy(tx, addrs, op) {
      assert op == OutPoint(tx.hash, op.index);
    }
  }

  lemma LastOrEarlier(txns: seq<Transaction>, addrs: set<Address>, op: OutPoint)
    requires txns != []
    requires forall i :: 0 <= i < |txns| ==>
      (UnspentFrom(txns, i, op) <==> UnspentFrom(txns[..|txns| - 1], i, op) && op !in txns[|txns| - 1].inputs)
    ensures
      var n := |txns| - 1;
      (exists i :: 0 <= i < |txns| && PaidBy(txns[i], addrs, op) && UnspentFrom(txns, i + 1, op)) <==>
      || PaidBy(txns[n], addrs, op)
      || (op !in txns[n].inputs &&
          exists i :: 0 <= i < n && PaidBy(txns[..n][i], addrs, op) && UnspentFrom(txns[..n], i + 1, op))
  {
    hide PaidBy;
    var n := |txns| - 1;
    assert UnspentFrom(txns, n + 1, op);
    forall i | 0 <= i < n
      ensures PaidBy(txns[..n][i], addrs, op) <==> PaidBy(txns[i], addrs, op)
      ensures UnspentFrom(txns, i + 1, op) <==> UnspentFrom(txns[..n], i + 1, op) && op !in txns[n].inputs
    {
      assert UnspentFrom(txns[..n], n, op);
    }
  }
}
