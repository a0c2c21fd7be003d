/** The view of the unspent outputs through which a block is counted: how connecting,
    disconnecting and committing change its entries, and what an election then counts. */
module Views {
  import opened Election
  import opened Options

  /** What a transaction spends and creates.  A coinbase spends nothing, and outputs that can
      never be spent are not listed. */
  datatype Transaction = Transaction(inputs: seq<OutPoint>, outputs: seq<(OutPoint, Output)>)

  predicate Present(v: View, x: OutPoint) {
    x in v && v[x].Some?
  }

  /** Marks an entry as spent, and as modified if it was not spent yet. */
  function Spend(v: View, x: OutPoint): (r: View)
    requires Present(v, x)
  {
    if v[x].value.spent then v else v[x := Some(Entry(v[x].value.output, true, true))]
  }

  function SpendAll(v: View, inputs: seq<OutPoint>): (r: Option<View>)
    decreases |inputs|
  {
    if inputs == [] then Some(v)
    else
      var n := |inputs| - 1;
      match SpendAll(v, inputs[..n])
      case None => None
      case Some(w) => if Present(w, inputs[n]) then Some(Spend(w, inputs[n])) else None
  }

  function Add(v: View, x: OutPoint, o: Output): View {
    v[x := Some(Entry(o, true, false))]
  }

  function AddAll(v: View, outputs: seq<(OutPoint, Output)>): View
    decreases |outputs|
  {
    if outputs == [] then v
    else
      var n := |outputs| - 1;
      Add(AddAll(v, outputs[..n]), outputs[n].0, outputs[n].1)
  }

  function ConnectOne(v: View, tx: Transaction): Option<View> {
    var w := SpendAll(v, tx.inputs);
    if w.None? then None else Some(AddAll(w.value, tx.outputs))
  }

  function Connect(v: View, txs: seq<Transaction>): Option<View>
    decreases |txs|
  {
    if txs == [] then Some(v)
    else
      var w := Connect(v, txs[..|txs| - 1]);
      if w.None? then None else ConnectOne(w.value, txs[|txs| - 1])
  }

  function InputCount(txs: seq<Transaction>): nat
    decreases |txs|
  {
    if txs == [] then 0 else InputCount(txs[..|txs| - 1]) + |txs[|txs| - 1].inputs|
  }

  function OutputAt(v: View, x: OutPoint): Output {
    if Present(v, x) then v[x].value.output else Output(PLAIN, 0)
  }

  /** The outputs that a transaction spends, as the view has them. */
  function NotedOne(v: View, tx: Transaction): (spent: seq<Output>)
    ensures |spent| == |tx.inputs|
  {
    seq(|tx.inputs|, i requires 0 <= i < |tx.inputs| => OutputAt(v, tx.inputs[i]))
  }

  function Noted(v: View, txs: seq<Transaction>): (spent: seq<Output>)
    ensures |spent| == InputCount(txs)
    decreases |txs|
  {
    if txs == [] then []
    else
      var n := |txs| - 1;
      var w := Connect(v, txs[..n]);
      Noted(v, txs[..n]) + NotedOne(if w.Some? then w.value else v, txs[n])
  }

  method ConnectTransaction(v: View, tx: Transaction) returns (r: Option<View>, spent: seq<Output>)
    ensures r == ConnectOne(v, tx)
    ensures r.Some? ==> spent == NotedOne(v, tx)
  {
    var entries := v;
    spent := [];
    for i := 0 to |tx.inputs|
      invariant SpendAll(v, tx.inputs[..i]) == Some(entries) && spent == NotedOne(v, tx)[..i]
      invariant forall x :: Present(entries, x) <==> Present(v, x)
      invariant forall x :: OutputAt(entries, x) == OutputAt(v, x)
    {
      var x := tx.inputs[i];
      assert tx.inputs[..i + 1][..i] == tx.inputs[..i];
      if !Present(entries, x) {
        SpendStops(v, tx.inputs, i + 1);
        return None, spent;
      }
      spent := spent + [entries[x].value.output];
      entries := Spend(entries, x);
    }
    assert tx.inputs[..|tx.inputs|] == tx.inputs;
    ghost var w := entries;
    for i := 0 to |tx.outputs|
      invariant entries == AddAll(w, tx.outputs[..i])
    {
      assert tx.outputs[..i + 1][..i] == tx.outputs[..i];
      entries := Add(entries, tx.outputs[i].0, tx.outputs[i].1);
    }
    assert tx.outputs[..|tx.outputs|] == tx.outputs;
    return Some(entries), spent;
  }

  lemma {:induction false} SpendStops(v: View, inputs: seq<OutPoint>, n: nat)
    requires n <= |inputs| && SpendAll(v, inputs[..n]).None?
    ensures SpendAll(v, inputs).None?
    decreases |inputs|
  {
    if n < |inputs| {
      assert inputs[..|inputs| - 1][..n] == inputs[..n];
      SpendStops(v, inputs[..|inputs| - 1], n);
    } else {
      assert inputs[..n] == inputs;
    }
  }

  /** Connects the transactions of a block, noting the output that each input spends. */
  method ConnectTransactions(v: View, txs: seq<Transaction>) returns (r: Option<View>, spent: seq<Output>)
    ensures r == Connect(v, txs)
    ensures r.Some? ==> spent == Noted(v, txs)
  {
    r, spent := Some(v), [];
    for i := 0 to |txs|
      invariant r.Some? && r == Connect(v, txs[..i]) && spent == Noted(v, txs[..i])
    {
      assert txs[..i + 1][..i] == txs[..i];
      var more;
      r, more := ConnectTransaction(r.value, txs[i]);
      if r.None? {
        ConnectStops(v, txs, i + 1);
        return None, spent;
      }
      spent := spent + more;
    }
    assert txs[..|txs|] == txs;
  }

  lemma {:induction false} ConnectStops(v: View, txs: seq<Transaction>, n: nat)
    requires n <= |txs| && Connect(v, txs[..n]).None?
    ensures Connect(v, txs).None?
    decreases |txs|
  {
    if n < |txs| {
      assert txs[..|txs| - 1][..n] == txs[..n];
      ConnectStops(v, txs[..|txs| - 1], n);
    } else {
      assert txs[..n] == txs;
    }
  }

  // ----- Views stay in step with the set -----

  /** Entries agree with the set where it has them; what is not modified is unspent and in the
      set. */
  ghost predicate InStep(utxos: Utxos, v: View) {
    forall x :: Present(v, x) ==> EntryInStep(utxos, x, v[x].value)
  }

  ghost predicate EntryInStep(utxos: Utxos, x: OutPoint, e: Entry) {
    (x in utxos ==> utxos[x] == e.output) && (!e.modified ==> !e.spent && x in utxos)
  }

  /** No output created is in the set already. */
  ghost predicate NewOutputs(utxos: Utxos, txs: seq<Transaction>) {
    forall i, j :: 0 <= i < |txs| && 0 <= j < |txs[i].outputs| ==> txs[i].outputs[j].0 !in utxos
  }

  lemma InStepIsFaithful(utxos: Utxos, v: View)
    requires InStep(utxos, v)
    ensures Faithful(utxos, v)
  {
    forall x | x in v && x in utxos && (Consumed(v[x]) || Created(v[x]))
      ensures utxos[x] == v[x].value.output
    {
      assert Present(v, x);
    }
  }

  /** Loads an output into the view if it has no entry for it. */
  function Fetch(utxos: Utxos, v: View, x: OutPoint): View {
    if x in v then v else v[x := if x in utxos then Some(Entry(utxos[x], false, false)) else None]
  }

  lemma FetchKeeps(utxos: Utxos, v: View, x: OutPoint)
    requires InStep(utxos, v)
    ensures InStep(utxos, Fetch(utxos, v, x))
    ensures Unrestated(utxos, v) ==> Unrestated(utxos, Fetch(utxos, v, x))
    ensures
      var w := Fetch(utxos, v, x);
      && x in w && (x !in v ==> (Present(w, x) <==> x in utxos))
      && (x !in v && x in utxos ==> OutputAt(w, x) == utxos[x] && !w[x].value.spent)
      && forall y :: y in v ==> y in w && w[y] == v[y]
  {
    var w := Fetch(utxos, v, x);
    assert forall y :: Present(w, y) && y != x ==> Present(v, y);
    assert forall y :: y in Restated(utxos, w) ==> y in Restated(utxos, v);
  }

  /** A view starts out empty. */
  lemma EmptyView(utxos: Utxos)
    ensures InStep(utxos, map[]) && Unrestated(utxos, map[])
  {
  }

  lemma {:induction false} SpendKeeps(utxos: Utxos, v: View, inputs: seq<OutPoint>)
    requires InStep(utxos, v) && SpendAll(v, inputs).Some?
    ensures InStep(utxos, SpendAll(v, inputs).value)
    ensures Unrestated(utxos, v) ==> Unrestated(utxos, SpendAll(v, inputs).value)
    decreases |inputs|
  {
    if inputs != [] {
      var n := |inputs| - 1;
      SpendKeeps(utxos, v, inputs[..n]);
      SpendOneKeeps(utxos, SpendAll(v, inputs[..n]).value, inputs[n]);
    }
  }

  /** No unspent entry counts as created though it is in the set. */
  ghost predicate Unrestated(utxos: Utxos, v: View) {
    Restated(utxos, v) == map[]
  }

  lemma SpendOneKeeps(utxos: Utxos, v: View, x: OutPoint)
    requires InStep(utxos, v) && Present(v, x)
    ensures InStep(utxos, Spend(v, x))
    ensures Unrestated(utxos, v) ==> Unrestated(utxos, Spend(v, x))
  {
    var w := Spend(v, x);
    forall y | Present(w, y)
      ensures EntryInStep(utxos, y, w[y].value)
    {
      assert Present(v, y);
    }
    assert forall y :: y in Restated(utxos, w) ==> y in Restated(utxos, v);
  }

  lemma AddOneKeeps(utxos: Utxos, v: View, x: OutPoint, o: Output)
    requires InStep(utxos, v) && x !in utxos
    ensures InStep(utxos, Add(v, x, o))
    ensures Unrestated(utxos, v) ==> Unrestated(utxos, Add(v, x, o))
  {
    var w := Add(v, x, o);
    forall y | Present(w, y)
      ensures EntryInStep(utxos, y, w[y].value)
    {
      assert y != x ==> Present(v, y);
    }
    assert forall y :: y in Restated(utxos, w) ==> y in Restated(utxos, v);
  }

  lemma {:induction false} AddKeeps(utxos: Utxos, v: View, outputs: seq<(OutPoint, Output)>)
    requires InStep(utxos, v) && forall j :: 0 <= j < |outputs| ==> outputs[j].0 !in utxos
    ensures InStep(utxos, AddAll(v, outputs))
    ensures Unrestated(utxos, v) ==> Unrestated(utxos, AddAll(v, outputs))
    decreases |outputs|
  {
    if outputs != [] {
      var n := |outputs| - 1;
      AddKeeps(utxos, v, outputs[..n]);
      AddOneKeeps(utxos, AddAll(v, outputs[..n]), outputs[n].0, outputs[n].1);
    }
  }

  /** Connecting a block keeps the view in step, and restates nothing. */
  lemma {:induction false} ConnectKeeps(utxos: Utxos, v: View, txs: seq<Transaction>)
    requires InStep(utxos, v) && NewOutputs(utxos, txs) && Connect(v, txs).Some?
    ensures InStep(utxos, Connect(v, txs).value)
    ensures Unrestated(utxos, v) ==> Unrestated(utxos, Connect(v, txs).value)
    decreases |txs|
  {
    hide InStep, Unrestated;
    if txs != [] {
      var n := |txs| - 1;
      assert NewOutputs(utxos, txs[..n]);
      ConnectKeeps(utxos, v, txs[..n]);
      var w := Connect(v, txs[..n]).value;
      SpendKeeps(utxos, w, txs[n].inputs);
      AddKeeps(utxos, SpendAll(w, txs[n].inputs).value, txs[n].outputs);
    }
  }

  // ----- Disconnecting -----

  /** Marks an output of a disconnected transaction as spent, with an entry of its own if it
      had none. */
  function Unmake(v: View, x: OutPoint, o: Output): View {
    if Present(v, x) then Spend(v, x) else v[x := Some(Entry(o, true, true))]
  }

  /** Disconnecting puts the view in step with the set before: what the block created is
      spent, and what it spent is unspent again. */
  lemma DisconnectKeeps(utxos: Utxos, v: View, x: OutPoint, o: Output)
    requires InStep(utxos, v)
    ensures (x in utxos ==> utxos[x] == o) ==> InStep(utxos, Unmake(v, x, o))
    ensures x !in utxos ==> InStep(utxos, Add(v, x, o))
  {
    var w, u := Unmake(v, x, o), Add(v, x, o);
    forall y | Present(w, y) && y != x
      ensures EntryInStep(utxos, y, w[y].value)
    {
      assert Present(v, y);
    }
    forall y | Present(u, y) && y != x
      ensures EntryInStep(utxos, y, u[y].value)
    {
      assert Present(v, y);
    }
    assert Present(v, x) ==> EntryInStep(utxos, x, v[x].value);
  }

  // ----- Committing -----

  /** Spent entries go; every other entry has its modified mark turned over, not cleared. */
  function Commit(v: View): View {
    map x | Present(v, x) && x in v && !(v[x].value.modified && v[x].value.spent)
      :: Some(v[x].value.(modified := !v[x].value.modified))
  }

  /** A committed view is in step with the new set.  What it restates there is exactly what
      had been loaded or committed before and left alone. */
  lemma CommitKeeps(utxos: Utxos, v: View)
    requires InStep(utxos, v)
    ensures InStep(After(utxos, v), Commit(v))
    ensures forall x :: x in Restated(After(utxos, v), Commit(v)) <==> Present(v, x) && !v[x].value.modified
  {
    var w, after := Commit(v), After(utxos, v);
    forall x | Present(w, x)
      ensures EntryInStep(after, x, w[x].value) && x in after
    {
      assert EntryInStep(utxos, x, v[x].value);
    }
    forall x | Present(v, x) && !v[x].value.modified
      ensures x in Restated(after, w)
    {
      assert EntryInStep(utxos, x, v[x].value) && Present(w, x);
    }
  }

  // ----- What an election makes of it -----

  /** A block on the tip is counted through a view that restates nothing: the record stays
      right if and only if the block has not both created and spent value against the
      steward. */
  lemma OnTheTip(tip: ElectionState, utxos: Utxos, v: View, votes: Votes, money: nat, r: ElectionState, c: Candidates)
    requires InStep(utxos, v) && Unrestated(utxos, v) && PadsApart(utxos, v, votes)
    requires IsOutcome(tip, utxos, v, votes, money, r, c)
    requires tip.disapproval == Value(utxos, Against, tip.steward, votes)
    ensures r.disapproval == Value(After(utxos, v), Against, r.steward, votes) <==>
      Value(Ephemeral(utxos, v), Against, r.steward, votes) == 0
  {
    hide After, Ephemeral, IsOutcome, PadsApart, InStep, Faithful;
    InStepIsFaithful(utxos, v);
    DisapprovalKept(tip, utxos, v, votes, money, r, c);
  }

  const STEWARD: Script := [9]
  const PLAIN: Script := []
  const AGAINST: Script := [1]

  /** One script votes against the steward and nothing else votes. */
  function OneVote(): Votes {
    Votes(_ => None, script => if script == AGAINST then Some(STEWARD) else None)
  }

  const SPENT_AGAIN := [
    Transaction([], [(1, Output(PLAIN, 5))]),
    Transaction([1], [(2, Output(AGAINST, 5))]),
    Transaction([2], [(3, Output(PLAIN, 5))])]

  const SPENT_AGAIN_VIEW: View := map[
    1 := Some(Entry(Output(PLAIN, 5), true, true)),
    2 := Some(Entry(Output(AGAINST, 5), true, true)),
    3 := Some(Entry(Output(PLAIN, 5), true, false))]

  lemma SpentAgainView()
    ensures Connect(map[], SPENT_AGAIN) == Some(SPENT_AGAIN_VIEW)
  {
    var plain, against := Output(PLAIN, 5), Output(AGAINST, 5);
    var a: View := map[1 := Some(Entry(plain, true, false))];
    var b: View := map[1 := Some(Entry(plain, true, true)), 2 := Some(Entry(against, true, false))];
    assert SPENT_AGAIN[..2][..1] == SPENT_AGAIN[..1] && SPENT_AGAIN[..1][..0] == [];
    AddsOne(map[], SPENT_AGAIN[0]);
    assert Connect(map[], SPENT_AGAIN[..1]) == Some(a);
    SpendsOne(a, SPENT_AGAIN[1]);
    assert Add(Spend(a, 1), 2, against) == b;
    assert Connect(map[], SPENT_AGAIN[..2]) == Some(b);
    SpendsOne(b, SPENT_AGAIN[2]);
    assert Add(Spend(b, 2), 3, plain) == SPENT_AGAIN_VIEW;
  }

  lemma AddsOne(v: View, tx: Transaction)
    requires tx.inputs == [] && |tx.outputs| == 1
    ensures ConnectOne(v, tx) == Some(Add(v, tx.outputs[0].0, tx.outputs[0].1))
  {
    assert AddAll(v, tx.outputs[..0]) == v;
  }

  lemma SpendsOne(v: View, tx: Transaction)
    requires |tx.inputs| == 1 && |tx.outputs| == 1 && Present(v, tx.inputs[0])
    ensures ConnectOne(v, tx) == Some(Add(Spend(v, tx.inputs[0]), tx.outputs[0].0, tx.outputs[0].1))
  {
    assert SpendAll(v, tx.inputs[..0]) == Some(v);
    assert AddAll(Spend(v, tx.inputs[0]), tx.outputs[..0]) == Spend(v, tx.inputs[0]);
  }

  /** The change of a view with one entry that votes, against the steward. */
  lemma {:induction false} ChangeOf(v: View, x: OutPoint, votes: Votes)
    requires x in v && forall y :: y in v && y != x ==> Change(v[y], Question(Against, STEWARD, false), votes) == 0
    ensures TotalChange(v, Question(Against, STEWARD, false), votes) ==
      Change(v[x], Question(Against, STEWARD, false), votes)
  {
    hide Change;
    ChangePick(v, x, Question(Against, STEWARD, false), votes);
    NoChanges(v - {x}, Question(Against, STEWARD, false), votes);
  }

  lemma {:induction false} NoChanges(v: View, q: Question, votes: Votes)
    requires forall y :: y in v ==> Change(v[y], q, votes) == 0
    ensures TotalChange(v, q, votes) == 0
    decreases |v|
  {
    hide Change;
    if v != map[] {
      var y :| y in v;
      ChangePick(v, y, q, votes);
      NoChanges(v - {y}, q, votes);
    }
  }

  /** A block that creates an output against the steward and spends it again: the record of
      disapproval falls below nothing, while nothing votes. */
  method SpentInItsBlock() returns (r: ElectionState, v: View)
    ensures Value(map[], Against, STEWARD, OneVote()) == 0
    ensures Connect(map[], SPENT_AGAIN) == Some(v) && InStep(map[], v) && Unrestated(map[], v)
    ensures r == ElectionState(STEWARD, -5) && Value(After(map[], v), Against, STEWARD, OneVote()) == 0
  {
    hide Connect, ConnectOne, InStep, Restated, Unrestated, TotalChange;
    SpentAgainView();
    var view, spent := ConnectTransactions(map[], SPENT_AGAIN);
    v := view.value;
    r := ElectionProcessBlock(ElectionState(STEWARD, 0), map[], v, OneVote(), 100);
    EmptyView(map[]);
    assert NewOutputs(map[], SPENT_AGAIN);
    ConnectKeeps(map[], map[], SPENT_AGAIN);
    ChangeOf(v, 2, OneVote());
    assert After(map[], v) == map[3 := Output(PLAIN, 5)];
    TotalZero(After(map[], v), Question(Against, STEWARD, false), OneVote());
    TotalZero(map[], Question(Against, STEWARD, false), OneVote());
  }

  const PAYS := [Transaction([], [(1, Output(AGAINST, 5))])]
  const PAID: Utxos := map[1 := Output(AGAINST, 5)]

  /** The view of that one output, with its mark up or down. */
  function PaidView(modified: bool): View {
    map[1 := Some(Entry(Output(AGAINST, 5), modified, false))]
  }

  lemma PaidChanges(modified: bool)
    ensures Connect(map[], PAYS) == Some(PaidView(true)) && Commit(PaidView(modified)) == PaidView(!modified)
    ensures After(map[], PaidView(true)) == PAID && After(PAID, PaidView(modified)) == PAID
    ensures TotalChange(PaidView(modified), Question(Against, STEWARD, false), OneVote()) == if modified then 5 else 0
  {
    hide After, TotalChange;
    AddsOne(map[], PAYS[0]);
    assert PAYS[..0] == [];
    ChangeOf(PaidView(modified), 1, OneVote());
    PaidAfter(modified);
  }

  lemma PaidAfter(modified: bool)
    ensures After(map[], PaidView(true)) == PAID && After(PAID, PaidView(modified)) == PAID
  {
  }

  /** Three blocks counted through one view, as when a reorganization connects them.  Only the
      first has a transaction, which creates an output against the steward; committing turns
      the mark of that output over each time, and the third block counts it again. */
  method CountedAgain() returns (first: ElectionState, second: ElectionState, third: ElectionState)
    ensures first == second == ElectionState(STEWARD, 5) && third == ElectionState(STEWARD, 10)
    ensures PAID == After(map[], PaidView(true)) == After(PAID, PaidView(false)) == After(PAID, PaidView(true))
    ensures Value(PAID, Against, STEWARD, OneVote()) == 5
  {
    hide Connect, Commit, After, TotalChange, PaidView, ConnectOne;
    PaidChanges(true);
    PaidChanges(false);
    var view, spent := ConnectTransactions(map[], PAYS);
    var v := view.value;
    first := ElectionProcessBlock(ElectionState(STEWARD, 0), map[], v, OneVote(), 100);
    v := Commit(v);
    second := ElectionProcessBlock(first, PAID, v, OneVote(), 100);
    v := Commit(v);
    third := ElectionProcessBlock(second, PAID, v, OneVote(), 100);
    TotalPick(PAID, 1, Question(Against, STEWARD, false), OneVote());
    assert PAID - {1} == map[];
  }
}
