/** What connecting and disconnecting a block through views does to the set of unspent outputs,
    and that the one undoes the other. */
module Undo {
  import opened Election
  import opened Options
  import opened Views

  // ----- Blocks on the set itself -----

  ghost function WithOutputs(u: Utxos, outputs: seq<(OutPoint, Output)>): Utxos {
    if outputs == [] then u
    else
      var n := |outputs| - 1;
      WithOutputs(u, outputs[..n])[outputs[n].0 := outputs[n].1]
  }

  ghost function Taken(inputs: seq<OutPoint>): set<OutPoint> {
    set x | x in inputs
  }

  lemma TakenMore(inputs: seq<OutPoint>)
    ensures Taken([]) == {}
    ensures inputs != [] ==> Taken(inputs) == Taken(inputs[..|inputs| - 1]) + {inputs[|inputs| - 1]}
  {
    if inputs != [] {
      assert inputs == inputs[..|inputs| - 1] + [inputs[|inputs| - 1]];
    }
  }

  /** What a transaction spends goes, what it creates comes. */
  ghost function ApplyOne(u: Utxos, tx: Transaction): Utxos {
    WithOutputs(u - Taken(tx.inputs), tx.outputs)
  }

  ghost function Applied(u: Utxos, txs: seq<Transaction>): Utxos {
    if txs == [] then u else ApplyOne(Applied(u, txs[..|txs| - 1]), txs[|txs| - 1])
  }

  /** The outputs created. */
  ghost function Made(outputs: seq<(OutPoint, Output)>): set<OutPoint> {
    set i | 0 <= i < |outputs| :: outputs[i].0
  }

  // ----- Views do what blocks do -----

  /** What is spent counts as modified. */
  ghost predicate Marked(v: View) {
    forall x :: Present(v, x) && v[x].value.spent ==> v[x].value.modified
  }

  lemma InStepIsMarked(u: Utxos, v: View)
    requires InStep(u, v)
    ensures Marked(v)
  {
    forall x | Present(v, x) && v[x].value.spent
      ensures v[x].value.modified
    {
      assert EntryInStep(u, x, v[x].value);
    }
  }

  /** Spending an entry takes it out of the set, adding one puts it in. */
  lemma AfterSpend(u: Utxos, v: View, x: OutPoint)
    requires Marked(v) && Present(v, x)
    ensures Marked(Spend(v, x)) && After(u, Spend(v, x)) == After(u, v) - {x}
  {
  }

  lemma AfterAdd(u: Utxos, v: View, x: OutPoint, o: Output)
    requires Marked(v)
    ensures Marked(Add(v, x, o)) && After(u, Add(v, x, o)) == After(u, v)[x := o]
  {
  }

  lemma {:induction false} SpendApplies(u: Utxos, v: View, inputs: seq<OutPoint>)
    requires Marked(v) && SpendAll(v, inputs).Some?
    ensures Marked(SpendAll(v, inputs).value)
    ensures After(u, SpendAll(v, inputs).value) == After(u, v) - Taken(inputs)
    decreases |inputs|
  {
    hide After, Marked, Spend;
    if inputs != [] {
      var n := |inputs| - 1;
      SpendApplies(u, v, inputs[..n]);
      AfterSpend(u, SpendAll(v, inputs[..n]).value, inputs[n]);
      TakenMore(inputs);
    }
  }

  lemma {:induction false} AddApplies(u: Utxos, v: View, outputs: seq<(OutPoint, Output)>)
    requires Marked(v)
    ensures Marked(AddAll(v, outputs))
    ensures After(u, AddAll(v, outputs)) == WithOutputs(After(u, v), outputs)
    decreases |outputs|
  {
    hide After, Marked, Add;
    if outputs != [] {
      var n := |outputs| - 1;
      AddApplies(u, v, outputs[..n]);
      AfterAdd(u, AddAll(v, outputs[..n]), outputs[n].0, outputs[n].1);
    }
  }

  /** Connecting a block through a view does to the set what its transactions do one after the
      other. */
  lemma {:induction false} ConnectApplies(u: Utxos, v: View, txs: seq<Transaction>)
    requires Marked(v) && Connect(v, txs).Some?
    ensures Marked(Connect(v, txs).value)
    ensures After(u, Connect(v, txs).value) == Applied(After(u, v), txs)
    decreases |txs|
  {
    hide After, Marked;
    if txs != [] {
      var n := |txs| - 1;
      ConnectApplies(u, v, txs[..n]);
      var w := Connect(v, txs[..n]).value;
      SpendApplies(u, w, txs[n].inputs);
      AddApplies(u, SpendAll(w, txs[n].inputs).value, txs[n].outputs);
    }
  }

  // ----- Disconnecting -----

  function UnmakeAll(v: View, outputs: seq<(OutPoint, Output)>): View {
    if outputs == [] then v
    else
      var n := |outputs| - 1;
      Unmake(UnmakeAll(v, outputs[..n]), outputs[n].0, outputs[n].1)
  }

  /** Puts back what inputs spent, the last input first. */
  function Restore(v: View, inputs: seq<OutPoint>, spent: seq<Output>): View
    requires |spent| == |inputs|
    decreases |inputs|
  {
    if inputs == [] then v
    else
      var n := |inputs| - 1;
      Restore(Add(v, inputs[n], spent[n]), inputs[..n], spent[..n])
  }

  function UndoOne(v: View, tx: Transaction, spent: seq<Output>): View
    requires |spent| == |tx.inputs|
  {
    Restore(UnmakeAll(v, tx.outputs), tx.inputs, spent)
  }

  /** Takes transactions back, the last one first. */
  function Disconnect(v: View, txs: seq<Transaction>, spent: seq<Output>): View
    requires |spent| == InputCount(txs)
    decreases |txs|
  {
    if txs == [] then v
    else
      var n := |txs| - 1;
      var k := |spent| - |txs[n].inputs|;
      Disconnect(UndoOne(v, txs[n], spent[k..]), txs[..n], spent[..k])
  }

  method CountInputs(txs: seq<Transaction>) returns (n: nat)
    ensures n == InputCount(txs)
  {
    n := 0;
    for i := 0 to |txs|
      invariant n == InputCount(txs[..i])
    {
      assert txs[..i + 1][..i] == txs[..i];
      n := n + |txs[i].inputs|;
    }
    assert txs[..|txs|] == txs;
  }

  method DisconnectTransaction(v: View, tx: Transaction, spent: seq<Output>, end: nat) returns (r: View)
    requires |tx.inputs| <= end <= |spent|
    ensures r == UndoOne(v, tx, spent[end - |tx.inputs|..end])
  {
    r := v;
    for i := 0 to |tx.outputs|
      invariant r == UnmakeAll(v, tx.outputs[..i])
    {
      assert tx.outputs[..i + 1][..i] == tx.outputs[..i];
      r := Unmake(r, tx.outputs[i].0, tx.outputs[i].1);
    }
    assert tx.outputs[..|tx.outputs|] == tx.outputs;
    ghost var w, mine := r, spent[end - |tx.inputs|..end];
    var i, stxoIdx := |tx.inputs|, end;
    assert tx.inputs[..i] == tx.inputs && mine[..i] == mine;
    while i > 0
      invariant 0 <= i <= |tx.inputs| && stxoIdx == end - |tx.inputs| + i
      invariant Restore(w, tx.inputs, mine) == Restore(r, tx.inputs[..i], mine[..i])
    {
      i, stxoIdx := i - 1, stxoIdx - 1;
      assert tx.inputs[..i + 1][..i] == tx.inputs[..i] && mine[..i + 1][..i] == mine[..i];
      r := Add(r, tx.inputs[i], spent[stxoIdx]);
    }
  }

  /** Takes the transactions of a block back, given as many spent outputs as it has inputs. */
  method DisconnectTransactions(v: View, txs: seq<Transaction>, spent: seq<Output>) returns (r: Option<View>)
    ensures r == if |spent| == InputCount(txs) then Some(Disconnect(v, txs, spent)) else None
  {
    var count := CountInputs(txs);
    if |spent| != count {
      return None;
    }
    var entries, txIdx, end := v, |txs|, |spent|;
    assert txs[..txIdx] == txs && spent[..end] == spent;
    while txIdx > 0
      invariant 0 <= txIdx <= |txs| && 0 <= end == InputCount(txs[..txIdx]) <= |spent|
      invariant Disconnect(v, txs, spent) == Disconnect(entries, txs[..txIdx], spent[..end])
    {
      txIdx := txIdx - 1;
      assert txs[..txIdx + 1][..txIdx] == txs[..txIdx];
      var k := end - |txs[txIdx].inputs|;
      entries := DisconnectTransaction(entries, txs[txIdx], spent, end);
      assert spent[..end][k..] == spent[k..end] && spent[..end][..k] == spent[..k];
      end := k;
    }
    return Some(entries);
  }

  // ----- On the set -----

  ghost function Restored(u: Utxos, inputs: seq<OutPoint>, spent: seq<Output>): Utxos
    requires |spent| == |inputs|
    decreases |inputs|
  {
    if inputs == [] then u
    else
      var n := |inputs| - 1;
      Restored(u[inputs[n] := spent[n]], inputs[..n], spent[..n])
  }

  ghost function Undone(u: Utxos, txs: seq<Transaction>, spent: seq<Output>): Utxos
    requires |spent| == InputCount(txs)
    decreases |txs|
  {
    if txs == [] then u
    else
      var n := |txs| - 1;
      var k := |spent| - |txs[n].inputs|;
      Undone(Restored(u - Made(txs[n].outputs), txs[n].inputs, spent[k..]), txs[..n], spent[..k])
  }

  lemma AfterUnmake(u: Utxos, v: View, x: OutPoint, o: Output)
    requires Marked(v)
    ensures Marked(Unmake(v, x, o)) && After(u, Unmake(v, x, o)) == After(u, v) - {x}
  {
    if Present(v, x) {
      hide After, Marked, Spend;
      AfterSpend(u, v, x);
    } else {
      AfterSpentEntry(u, v, x, o);
    }
  }

  lemma AfterSpentEntry(u: Utxos, v: View, x: OutPoint, o: Output)
    requires Marked(v)
    ensures
      var w := v[x := Some(Entry(o, true, true))];
      Marked(w) && After(u, w) == After(u, v) - {x}
  {
  }

  lemma {:induction false} UnmakeApplies(u: Utxos, v: View, outputs: seq<(OutPoint, Output)>)
    requires Marked(v)
    ensures Marked(UnmakeAll(v, outputs))
    ensures After(u, UnmakeAll(v, outputs)) == After(u, v) - Made(outputs)
    decreases |outputs|
  {
    hide After, Marked, Unmake;
    if outputs != [] {
      var n := |outputs| - 1;
      UnmakeApplies(u, v, outputs[..n]);
      AfterUnmake(u, UnmakeAll(v, outputs[..n]), outputs[n].0, outputs[n].1);
      assert Made(outputs) == Made(outputs[..n]) + {outputs[n].0};
    }
  }

  lemma {:induction false} RestoreApplies(u: Utxos, v: View, inputs: seq<OutPoint>, spent: seq<Output>)
    requires Marked(v) && |spent| == |inputs|
    ensures Marked(Restore(v, inputs, spent))
    ensures After(u, Restore(v, inputs, spent)) == Restored(After(u, v), inputs, spent)
    decreases |inputs|
  {
    hide After, Marked, Add;
    if inputs != [] {
      var n := |inputs| - 1;
      AfterAdd(u, v, inputs[n], spent[n]);
      RestoreApplies(u, Add(v, inputs[n], spent[n]), inputs[..n], spent[..n]);
    }
  }

  /** Disconnecting a block through a view does to the set what taking its transactions back one
      after the other does. */
  lemma {:induction false} DisconnectApplies(u: Utxos, v: View, txs: seq<Transaction>, spent: seq<Output>)
    requires Marked(v) && |spent| == InputCount(txs)
    ensures Marked(Disconnect(v, txs, spent))
    ensures After(u, Disconnect(v, txs, spent)) == Undone(After(u, v), txs, spent)
    decreases |txs|
  {
    hide After, Marked;
    if txs != [] {
      var n := |txs| - 1;
      var k := |spent| - |txs[n].inputs|;
      UnmakeApplies(u, v, txs[n].outputs);
      RestoreApplies(u, UnmakeAll(v, txs[n].outputs), txs[n].inputs, spent[k..]);
      DisconnectApplies(u, UndoOne(v, txs[n], spent[k..]), txs[..n], spent[..k]);
    }
  }

  // ----- One undoes the other -----

  /** Transaction by transaction, what is spent is there and what is created is not. */
  ghost predicate Spendable(u: Utxos, txs: seq<Transaction>)
    decreases |txs|
  {
    txs != [] ==>
      var n := |txs| - 1;
      && Spendable(u, txs[..n])
      && (forall x :: x in txs[n].inputs ==> x in Applied(u, txs[..n]))
      && Made(txs[n].outputs) !! Applied(u, txs[..n]).Keys
  }

  ghost function SpentByOne(u: Utxos, tx: Transaction): (spent: seq<Output>)
    requires forall x :: x in tx.inputs ==> x in u
    ensures |spent| == |tx.inputs|
  {
    seq(|tx.inputs|, i requires 0 <= i < |tx.inputs| => u[tx.inputs[i]])
  }

  /** The outputs that a block spends, as the set has them. */
  ghost function SpentBy(u: Utxos, txs: seq<Transaction>): (spent: seq<Output>)
    requires Spendable(u, txs)
    ensures |spent| == InputCount(txs)
    decreases |txs|
  {
    if txs == [] then []
    else
      var n := |txs| - 1;
      SpentBy(u, txs[..n]) + SpentByOne(Applied(u, txs[..n]), txs[n])
  }

  lemma {:induction false} OutputsOnly(u: Utxos, outputs: seq<(OutPoint, Output)>)
    ensures WithOutputs(u, outputs) - Made(outputs) == u - Made(outputs)
    decreases |outputs|
  {
    if outputs != [] {
      var n := |outputs| - 1;
      OutputsOnly(u, outputs[..n]);
      var init := WithOutputs(u, outputs[..n]);
      assert Made(outputs) == Made(outputs[..n]) + {outputs[n].0};
      assert WithOutputs(u, outputs) - Made(outputs) == init - Made(outputs[..n]) - {outputs[n].0};
      assert u - Made(outputs) == u - Made(outputs[..n]) - {outputs[n].0};
    }
  }

  lemma {:induction false} RestoredAll(m: Utxos, u: Utxos, inputs: seq<OutPoint>, spent: seq<Output>)
    requires |spent| == |inputs| && forall i :: 0 <= i < |inputs| ==> inputs[i] in u && spent[i] == u[inputs[i]]
    requires m - Taken(inputs) == u - Taken(inputs)
    ensures Restored(m, inputs, spent) == u
    decreases |inputs|
  {
    hide Taken;
    TakenMore(inputs);
    if inputs == [] {
      assert m - {} == m && u - {} == u;
    } else {
      var n := |inputs| - 1;
      OneRestored(m, u, Taken(inputs[..n]), inputs[n]);
      RestoredAll(m[inputs[n] := spent[n]], u, inputs[..n], spent[..n]);
    }
  }

  lemma OneRestored(m: Utxos, u: Utxos, rest: set<OutPoint>, x: OutPoint)
    requires x in u && m - (rest + {x}) == u - (rest + {x})
    ensures m[x := u[x]] - rest == u - rest
  {
    forall y | y in m[x := u[x]] - rest
      ensures y in u - rest && (u - rest)[y] == (m[x := u[x]] - rest)[y]
    {
      assert y != x ==> y in m - (rest + {x});
    }
    forall y | y in u - rest
      ensures y in m[x := u[x]] - rest
    {
      assert y != x ==> y in u - (rest + {x});
    }
  }

  /** Taking back one transaction. */
  lemma OneUndone(u: Utxos, tx: Transaction)
    requires (forall x :: x in tx.inputs ==> x in u) && Made(tx.outputs) !! u.Keys
    ensures Restored(ApplyOne(u, tx) - Made(tx.outputs), tx.inputs, SpentByOne(u, tx)) == u
  {
    hide Restored, WithOutputs;
    var less := u - Taken(tx.inputs);
    OutputsOnly(less, tx.outputs);
    assert less - Made(tx.outputs) == less;
    assert less - Taken(tx.inputs) == less;
    RestoredAll(less, u, tx.inputs, SpentByOne(u, tx));
  }

  /** Taking back a block restores the set as it was before. */
  lemma {:induction false} BlockUndone(u: Utxos, txs: seq<Transaction>)
    requires Spendable(u, txs)
    ensures Undone(Applied(u, txs), txs, SpentBy(u, txs)) == u
    decreases |txs|
  {
    hide ApplyOne, Restored, Made;
    if txs != [] {
      var n := |txs| - 1;
      var w, spent := Applied(u, txs[..n]), SpentBy(u, txs);
      var k := |spent| - |txs[n].inputs|;
      assert spent[k..] == SpentByOne(w, txs[n]) && spent[..k] == SpentBy(u, txs[..n]);
      OneUndone(w, txs[n]);
      BlockUndone(u, txs[..n]);
    }
  }

  // ----- The spent outputs that connecting notes -----

  lemma EntryIsOutput(u: Utxos, v: View, x: OutPoint)
    requires InStep(u, v) && Present(v, x) && x in After(u, v)
    ensures OutputAt(v, x) == After(u, v)[x]
  {
    assert EntryInStep(u, x, v[x].value);
  }

  lemma {:induction false} InputsPresent(v: View, inputs: seq<OutPoint>)
    requires SpendAll(v, inputs).Some?
    ensures forall x :: x in inputs ==> Present(v, x)
    ensures forall x :: Present(SpendAll(v, inputs).value, x) ==> Present(v, x)
    decreases |inputs|
  {
    if inputs != [] {
      var n := |inputs| - 1;
      InputsPresent(v, inputs[..n]);
      assert inputs == inputs[..n] + [inputs[n]];
    }
  }

  /** Connecting notes exactly what the block spends from the set. */
  lemma {:induction false} NotedIsSpent(u: Utxos, v: View, txs: seq<Transaction>)
    requires InStep(u, v) && NewOutputs(u, txs) && Connect(v, txs).Some? && Spendable(After(u, v), txs)
    ensures Noted(v, txs) == SpentBy(After(u, v), txs)
    decreases |txs|
  {
    hide After, InStep, Applied, Made, Present, OutputAt;
    if txs != [] {
      var n := |txs| - 1;
      assert NewOutputs(u, txs[..n]);
      NotedIsSpent(u, v, txs[..n]);
      ConnectKeeps(u, v, txs[..n]);
      InStepIsMarked(u, v);
      ConnectApplies(u, v, txs[..n]);
      NotedOneIsSpent(u, Connect(v, txs[..n]).value, txs[n]);
    }
  }

  lemma NotedOneIsSpent(u: Utxos, v: View, tx: Transaction)
    requires InStep(u, v) && SpendAll(v, tx.inputs).Some? && forall x :: x in tx.inputs ==> x in After(u, v)
    ensures NotedOne(v, tx) == SpentByOne(After(u, v), tx)
  {
    hide After, InStep, Present, OutputAt;
    InputsPresent(v, tx.inputs);
    forall i | 0 <= i < |tx.inputs|
      ensures OutputAt(v, tx.inputs[i]) == After(u, v)[tx.inputs[i]]
    {
      EntryIsOutput(u, v, tx.inputs[i]);
    }
  }

  /** A block connected through one view and disconnected through another, with the spent outputs
      that connecting noted, leaves the set as it was. */
  lemma {:induction false} DisconnectUndoesConnect(u: Utxos, v: View, txs: seq<Transaction>, v': View)
    requires InStep(u, v) && After(u, v) == u && NewOutputs(u, txs) && Spendable(u, txs) && Connect(v, txs).Some?
    requires
      var after := After(u, Connect(v, txs).value);
      Marked(v') && After(after, v') == after
    ensures
      var after := After(u, Connect(v, txs).value);
      After(after, Disconnect(v', txs, Noted(v, txs))) == u
  {
    hide After, InStep, Applied, Marked, Spendable;
    InStepIsMarked(u, v);
    ConnectApplies(u, v, txs);
    NotedIsSpent(u, v, txs);
    DisconnectApplies(After(u, Connect(v, txs).value), v', txs, Noted(v, txs));
    BlockUndone(u, txs);
  }

  // ----- Views that are used again -----

  /** A committed view, and one more output loaded into a view, say nothing new of the set: a view
      can serve for block after block. */
  lemma CommitSettles(u: Utxos, v: View)
    requires InStep(u, v)
    ensures Marked(Commit(v)) && After(After(u, v), Commit(v)) == After(u, v)
  {
    hide After;
    CommitKeeps(u, v);
    var w, after := Commit(v), After(u, v);
    InStepIsMarked(after, w);
    forall x | x in w
      ensures Present(w, x) && !w[x].value.spent
    {
      assert Present(v, x) && EntryInStep(u, x, v[x].value);
    }
    forall x | x in w
      ensures x in after && after[x] == w[x].value.output
    {
      assert EntryInStep(after, x, w[x].value);
      StillThere(u, v, x);
    }
    NothingNew(after, w);
  }

  lemma StillThere(u: Utxos, v: View, x: OutPoint)
    requires InStep(u, v) && Present(Commit(v), x)
    ensures x in After(u, v)
  {
    assert EntryInStep(u, x, v[x].value);
  }

  lemma NothingNew(u: Utxos, v: View)
    requires forall x :: x in v ==> Present(v, x) && !v[x].value.spent && x in u && u[x] == v[x].value.output
    ensures After(u, v) == u
  {
  }

  lemma FetchSettles(u: Utxos, v: View, x: OutPoint)
    requires Marked(v)
    ensures Marked(Fetch(u, v, x)) && After(u, Fetch(u, v, x)) == After(u, v)
  {
    if x !in v {
      UnmodifiedSettles(u, v, x, if x in u then Some(Entry(u[x], false, false)) else None);
    }
  }

  lemma UnmodifiedSettles(u: Utxos, v: View, x: OutPoint, e: Option<Entry>)
    requires Marked(v) && x !in v && (e.Some? ==> !e.value.modified && !e.value.spent)
    ensures Marked(v[x := e]) && After(u, v[x := e]) == After(u, v)
  {
    hide Marked, Consumed, Created;
    MarkedMore(v, x, e);
    NeitherWay(e);
    SameGone(v, x, e);
    SameMade(v, x, e);
  }

  lemma NeitherWay(e: Option<Entry>)
    ensures e.None? || !e.value.modified ==> !Consumed(e) && !Created(e)
  {
  }

  lemma SameGone(v: View, x: OutPoint, e: Option<Entry>)
    requires x !in v && !Consumed(e)
    ensures
      var w := v[x := e];
      (set y | y in w && Consumed(w[y])) == (set y | y in v && Consumed(v[y]))
  {
    hide Consumed;
  }

  lemma SameMade(v: View, x: OutPoint, e: Option<Entry>)
    requires x !in v && !Created(e)
    ensures
      var w := v[x := e];
      (map y | y in w && Created(w[y]) :: w[y].value.output) == (map y | y in v && Created(v[y]) :: v[y].value.output)
  {
  }

  lemma MarkedMore(v: View, x: OutPoint, e: Option<Entry>)
    requires Marked(v) && (e.Some? ==> !e.value.spent)
    ensures Marked(v[x := e])
  {
    var w := v[x := e];
    forall y | Present(w, y) && w[y].value.spent
      ensures w[y].value.modified
    {
      assert Present(v, y);
    }
  }
}
