/** The election of the network steward: votes are unspent outputs, weighed by their value. */
module Election {
  import opened Options
  import opened Vlq

  type Script = seq<Byte>

  /** Which key a script votes for and which against comes from outside this model. */
  datatype Votes = Votes(votesFor: Script -> Option<Script>, votesAgainst: Script -> Option<Script>)

  type OutPoint = nat

  datatype Output = Output(script: Script, amount: int)

  datatype Entry = Entry(output: Output, modified: bool, spent: bool)

  type Utxos = map<OutPoint, Output>

  /** The change a block makes, as the set of outputs it looked at; an entry may be missing. */
  type View = map<OutPoint, Option<Entry>>

  datatype ElectionState = ElectionState(steward: Script, disapproval: int)

  const KEY_SIZE := 80

  /** Keys are tallied by their first 80 bytes, with zeros after a shorter one. */
  function Pad(key: Script): (p: Script)
    ensures |p| == KEY_SIZE
  {
    if |key| >= KEY_SIZE then key[..KEY_SIZE] else key + seq(KEY_SIZE - |key|, _ => 0)
  }

  function ByteAt(key: Script, i: nat): Byte {
    if i < |key| then key[i] else 0
  }

  /** Keys are tallied together exactly when their first 80 bytes agree, missing ones being
      zero. */
  lemma PadMeans(a: Script, b: Script)
    ensures Pad(a) == Pad(b) <==> forall i :: 0 <= i < 80 ==> ByteAt(a, i) == ByteAt(b, i)
  {
    forall i | 0 <= i < 80
      ensures Pad(a)[i] == ByteAt(a, i) && Pad(b)[i] == ByteAt(b, i)
    {
    }
    if Pad(a) == Pad(b) {
      forall i | 0 <= i < 80
        ensures ByteAt(a, i) == ByteAt(b, i)
      {
        assert Pad(a)[i] == Pad(b)[i];
      }
    }
  }

  // ----- Weighing -----

  datatype Side = For | Against

  /** What is being weighed: votes on one side for one key, up to padding or exactly. */
  datatype Question = Question(side: Side, key: Script, padded: bool)

  function VoteOf(script: Script, side: Side, votes: Votes): Option<Script> {
    if side == For then votes.votesFor(script) else votes.votesAgainst(script)
  }

  function Matches(vote: Option<Script>, q: Question): bool {
    vote.Some? && if q.padded then Pad(vote.value) == q.key else vote.value == q.key
  }

  function Weight(o: Output, q: Question, votes: Votes): int {
    if Matches(VoteOf(o.script, q.side, votes), q) then o.amount else 0
  }

  /** The total value of the outputs that answer a question. */
  ghost function Total(m: Utxos, q: Question, votes: Votes): int {
    if m == map[] then 0
    else
      var x :| x in m;
      Weight(m[x], q, votes) + Total(m - {x}, q, votes)
  }

  /** Any output can be weighed first. */
  lemma {:induction false} TotalPick(m: Utxos, x: OutPoint, q: Question, votes: Votes)
    requires x in m
    ensures Total(m, q, votes) == Weight(m[x], q, votes) + Total(m - {x}, q, votes)
    decreases |m|
  {
    var y :| y in m && Total(m, q, votes) == Weight(m[y], q, votes) + Total(m - {y}, q, votes);
    if y != x {
      TotalPick(m - {y}, x, q, votes);
      TotalPick(m - {x}, y, q, votes);
      assert m - {y} - {x} == m - {x} - {y};
    }
  }

  lemma {:induction false} TotalAdd(m: Utxos, x: OutPoint, o: Output, q: Question, votes: Votes)
    requires x !in m
    ensures Total(m[x := o], q, votes) == Total(m, q, votes) + Weight(o, q, votes)
  {
    TotalPick(m[x := o], x, q, votes);
    assert m[x := o] - {x} == m;
  }

  /** What an entry of the view adds to the answer. */
  function Change(e: Option<Entry>, q: Question, votes: Votes): int {
    if e.None? || !e.value.modified then 0
    else if e.value.spent then -Weight(e.value.output, q, votes)
    else Weight(e.value.output, q, votes)
  }

  ghost function TotalChange(v: View, q: Question, votes: Votes): int {
    if v == map[] then 0
    else
      var x :| x in v;
      Change(v[x], q, votes) + TotalChange(v - {x}, q, votes)
  }

  lemma {:induction false} ChangePick(v: View, x: OutPoint, q: Question, votes: Votes)
    requires x in v
    ensures TotalChange(v, q, votes) == Change(v[x], q, votes) + TotalChange(v - {x}, q, votes)
    decreases |v|
  {
    var y :| y in v && TotalChange(v, q, votes) == Change(v[y], q, votes) + TotalChange(v - {y}, q, votes);
    if y != x {
      ChangePick(v - {y}, x, q, votes);
      ChangePick(v - {x}, y, q, votes);
      assert v - {y} - {x} == v - {x} - {y};
    }
  }

  // ----- A faithful view -----

  predicate Created(e: Option<Entry>) {
    e.Some? && e.value.modified && !e.value.spent
  }

  predicate Consumed(e: Option<Entry>) {
    e.Some? && e.value.modified && e.value.spent
  }

  /** Modified entries that are in the set are there as they are in the view.  A spent entry
      need not be in the set: an output created and spent by the same block never was.  An
      unspent entry may be in the set already: committing a view marks entries that were
      loaded and left alone as modified. */
  ghost predicate Faithful(utxos: Utxos, v: View) {
    forall x :: x in v && x in utxos && (Consumed(v[x]) || Created(v[x])) ==> utxos[x] == v[x].value.output
  }

  /** The outputs that the block both created and spent. */
  ghost function Ephemeral(utxos: Utxos, v: View): Utxos {
    map x | x in v && Consumed(v[x]) && x !in utxos :: v[x].value.output
  }

  /** The outputs that count as created though they are in the set already. */
  ghost function Restated(utxos: Utxos, v: View): Utxos {
    map x | x in v && Created(v[x]) && x in utxos :: v[x].value.output
  }

  /** The set once the view is applied. */
  ghost function After(utxos: Utxos, v: View): Utxos {
    (utxos - (set x | x in v && Consumed(v[x]))) + (map x | x in v && Created(v[x]) :: v[x].value.output)
  }

  /** Taking one consumed output, or one created output, out of an update of the set. */
  lemma UpdateStep(utxos: Utxos, gone: set<OutPoint>, made: Utxos, x: OutPoint)
    requires gone !! made.Keys && (x in made && x in utxos ==> made[x] == utxos[x])
    ensures
      var before, after := (utxos - (gone - {x})) + (made - {x}), (utxos - gone) + made;
      && (x in gone && x in utxos ==> x in before && before[x] == utxos[x] && after == before - {x})
      && (x in made && x !in utxos ==> x !in before && after == before[x := made[x]])
      && ((x in gone && x !in utxos) || (x in made && x in utxos) || (x !in gone && x !in made) ==> after == before)
  {
  }

  lemma AfterStep(utxos: Utxos, v: View, x: OutPoint)
    requires Faithful(utxos, v) && x in v
    ensures
      var before, after := After(utxos, v - {x}), After(utxos, v);
      if Consumed(v[x]) && x in utxos then x in before && before[x] == v[x].value.output && after == before - {x}
      else if Created(v[x]) && x !in utxos then x !in before && after == before[x := v[x].value.output]
      else after == before
  {
    var gone, made := set y | y in v && Consumed(v[y]), map y | y in v && Created(v[y]) :: v[y].value.output;
    var v' := v - {x};
    assert (set y | y in v' && Consumed(v'[y])) == gone - {x};
    assert (map y | y in v' && Created(v'[y]) :: v'[y].value.output) == made - {x};
    UpdateStep(utxos, gone, made, x);
  }

  lemma EphemeralStep(utxos: Utxos, v: View, x: OutPoint)
    requires x in v
    ensures x !in Ephemeral(utxos, v - {x}) && x !in Restated(utxos, v - {x})
    ensures Ephemeral(utxos, v) ==
      if Consumed(v[x]) && x !in utxos then Ephemeral(utxos, v - {x})[x := v[x].value.output]
      else Ephemeral(utxos, v - {x})
    ensures Restated(utxos, v) ==
      if Created(v[x]) && x in utxos then Restated(utxos, v - {x})[x := v[x].value.output]
      else Restated(utxos, v - {x})
  {
  }

  /** What a view's change misses of the true change: outputs both created and spent are taken
      off though they were never there, outputs restated are added though they were. */
  ghost function Missed(utxos: Utxos, v: View, q: Question, votes: Votes): int {
    Total(Ephemeral(utxos, v), q, votes) - Total(Restated(utxos, v), q, votes)
  }

  /** Applying a view changes every total by the total change and by what that misses. */
  lemma {:induction false} TotalAfter(utxos: Utxos, v: View, q: Question, votes: Votes)
    requires Faithful(utxos, v)
    ensures Total(After(utxos, v), q, votes) ==
      Total(utxos, q, votes) + TotalChange(v, q, votes) + Missed(utxos, v, q, votes)
    decreases |v|
  {
    hide After, Weight, Total, Ephemeral, Restated;
    if v == map[] {
      AfterNothing(utxos, q, votes);
    } else {
      var x :| x in v;
      TotalAfter(utxos, v - {x}, q, votes);
      ChangePick(v, x, q, votes);
      TotalStep(utxos, v, x, q, votes);
    }
  }

  lemma {:induction false} TotalStep(utxos: Utxos, v: View, x: OutPoint, q: Question, votes: Votes)
    requires Faithful(utxos, v) && x in v
    ensures Total(After(utxos, v), q, votes) - Missed(utxos, v, q, votes) ==
      Total(After(utxos, v - {x}), q, votes) - Missed(utxos, v - {x}, q, votes) + Change(v[x], q, votes)
  {
    hide After, Weight, Total, Ephemeral, Restated, Faithful;
    AfterStep(utxos, v, x);
    EphemeralStep(utxos, v, x);
    if Consumed(v[x]) && x in utxos {
      TotalPick(After(utxos, v - {x}), x, q, votes);
    } else if Consumed(v[x]) {
      TotalAdd(Ephemeral(utxos, v - {x}), x, v[x].value.output, q, votes);
    } else if Created(v[x]) && x in utxos {
      TotalAdd(Restated(utxos, v - {x}), x, v[x].value.output, q, votes);
    } else if Created(v[x]) {
      TotalAdd(After(utxos, v - {x}), x, v[x].value.output, q, votes);
    }
  }

  lemma AfterNothing(utxos: Utxos, q: Question, votes: Votes)
    ensures After(utxos, map[]) == utxos && Missed(utxos, map[], q, votes) == 0
  {
    assert Ephemeral(utxos, map[]) == map[] && Restated(utxos, map[]) == map[];
  }

  lemma {:induction false} ChangeAdd(v: View, x: OutPoint, e: Option<Entry>, q: Question, votes: Votes)
    requires x !in v
    ensures TotalChange(v[x := e], q, votes) == TotalChange(v, q, votes) + Change(e, q, votes)
  {
    ChangePick(v[x := e], x, q, votes);
    assert v[x := e] - {x} == v;
  }

  // ----- The tally -----

  datatype Candidate = Candidate(approval: int, disapproval: int, key: Script)

  type Candidates = map<Script, Candidate>

  function Score(c: Candidates, side: Side, p: Script): int {
    if p !in c then 0 else if side == For then c[p].approval else c[p].disapproval
  }

  class Tally {
    var candidates: Candidates

    constructor ()
      ensures candidates == map[]
    {
      candidates := map[];
    }

    /** Adds a value to the approval of the key voted for and to the disapproval of the key
        voted against. */
    method CastBallot(script: Script, value: int, votes: Votes)
      modifies this
      ensures forall side, p :: Score(candidates, side, p) ==
                Score(old(candidates), side, p) + Weight(Output(script, value), Question(side, p, true), votes)
      ensures forall p :: p in candidates ==>
                (p in old(candidates) && candidates[p].key == old(candidates)[p].key) ||
                  IsVote(script, candidates[p].key, p, votes)
      ensures forall p :: p in old(candidates) ==> p in candidates
    {
      var vfor, vagainst := votes.votesFor(script), votes.votesAgainst(script);
      if vfor.Some? {
        var arr := Pad(vfor.value);
        var x := if arr in candidates then candidates[arr] else Candidate(0, 0, vfor.value);
        candidates := candidates[arr := x.(approval := x.approval + value)];
      }
      if vagainst.Some? {
        var arr := Pad(vagainst.value);
        var x := if arr in candidates then candidates[arr] else Candidate(0, 0, vagainst.value);
        candidates := candidates[arr := x.(disapproval := x.disapproval + value)];
      }
    }
  }

  /** A script votes, on either side, for a key that pads to `p`. */
  ghost predicate IsVote(script: Script, key: Script, p: Script, votes: Votes) {
    Pad(key) == p && (votes.votesFor(script) == Some(key) || votes.votesAgainst(script) == Some(key))
  }

  /** Some output of the set or of the view votes on a key. */
  ghost predicate IsKnown(key: Script, utxos: Utxos, v: View, votes: Votes) {
    || (exists x :: x in utxos && IsVote(utxos[x].script, key, Pad(key), votes))
    || (exists x :: x in v && v[x].Some? && IsVote(v[x].value.output.script, key, Pad(key), votes))
  }

  /** The tally holds the totals of the set and the change, under keys that were voted on. */
  ghost predicate Counts(c: Candidates, utxos: Utxos, v: View, votes: Votes) {
    && (forall side, p :: Score(c, side, p) ==
          Total(utxos, Question(side, p, true), votes) + TotalChange(v, Question(side, p, true), votes))
    && (forall p :: p in c ==> Pad(c[p].key) == p && IsKnown(c[p].key, utxos, v, votes))
  }

  /** Casting an output of the set. */
  lemma CountOne(c: Candidates, c': Candidates, utxos: Utxos, x: OutPoint, o: Output, votes: Votes)
    requires Counts(c, utxos, map[], votes) && x !in utxos
    requires forall side, p :: Score(c', side, p) == Score(c, side, p) + Weight(o, Question(side, p, true), votes)
    requires forall p :: p in c' ==> (p in c && c'[p].key == c[p].key) || IsVote(o.script, c'[p].key, p, votes)
    ensures Counts(c', utxos[x := o], map[], votes)
  {
    hide Total, Weight, IsVote, Score, Pad;
    forall side, p
      ensures Score(c', side, p) ==
        Total(utxos[x := o], Question(side, p, true), votes) + TotalChange(map[], Question(side, p, true), votes)
    {
      TotalAdd(utxos, x, o, Question(side, p, true), votes);
    }
    forall p | p in c'
      ensures Pad(c'[p].key) == p && IsKnown(c'[p].key, utxos[x := o], map[], votes)
    {
      KnownMore(c, c', p, utxos, x, o, votes);
    }
  }

  lemma KnownMore(c: Candidates, c': Candidates, p: Script, utxos: Utxos, x: OutPoint, o: Output, votes: Votes)
    requires p in c' && x !in utxos
    requires (p in c && c'[p].key == c[p].key && Pad(c[p].key) == p && IsKnown(c[p].key, utxos, map[], votes)) ||
      IsVote(o.script, c'[p].key, p, votes)
    ensures Pad(c'[p].key) == p && IsKnown(c'[p].key, utxos[x := o], map[], votes)
  {
    var key, more := c'[p].key, utxos[x := o];
    if IsVote(o.script, key, p, votes) {
      assert IsVote(more[x].script, key, Pad(key), votes);
    } else {
      var y :| y in utxos && IsVote(utxos[y].script, key, Pad(key), votes);
      assert IsVote(more[y].script, key, Pad(key), votes);
    }
  }

  /** The signed value with which an entry of the view is cast. */
  function Signed(e: Entry): int {
    if e.spent then -e.output.amount else e.output.amount
  }

  lemma {:induction false} IsKnownGrows(key: Script, utxos: Utxos, v: View, x: OutPoint, e: Option<Entry>, votes: Votes)
    requires IsKnown(key, utxos, v, votes) && x !in v
    ensures IsKnown(key, utxos, v[x := e], votes)
  {
    hide IsVote, Pad;
    var more := v[x := e];
    if y :| y in v && v[y].Some? && IsVote(v[y].value.output.script, key, Pad(key), votes) {
      assert IsVote(more[y].value.output.script, key, Pad(key), votes);
    }
  }

  /** An entry that is missing or unmodified counts for nothing. */
  lemma {:induction false} CountNothing(c: Candidates, utxos: Utxos, v: View, x: OutPoint, e: Option<Entry>,
                                        votes: Votes)
    requires Counts(c, utxos, v, votes) && x !in v && (e.None? || !e.value.modified)
    ensures Counts(c, utxos, v[x := e], votes)
  {
    hide Total, TotalChange, Weight, IsKnown, Score, Pad;
    forall side, p
      ensures Score(c, side, p) ==
        Total(utxos, Question(side, p, true), votes) + TotalChange(v[x := e], Question(side, p, true), votes)
    {
      ChangeAdd(v, x, e, Question(side, p, true), votes);
    }
    forall p | p in c
      ensures Pad(c[p].key) == p && IsKnown(c[p].key, utxos, v[x := e], votes)
    {
      IsKnownGrows(c[p].key, utxos, v, x, e, votes);
    }
  }

  lemma SignedWeight(e: Entry, q: Question, votes: Votes)
    requires e.modified
    ensures Weight(Output(e.output.script, Signed(e)), q, votes) == Change(Some(e), q, votes)
  {
  }

  /** Casting a modified entry of the view with its sign. */
  lemma {:induction false} CountChange(c: Candidates, c': Candidates, utxos: Utxos, v: View, x: OutPoint, e: Entry,
                                       votes: Votes)
    requires Counts(c, utxos, v, votes) && x !in v && e.modified
    requires forall side, p ::
      var q := Question(side, p, true);
      Score(c', side, p) == Score(c, side, p) + Weight(Output(e.output.script, Signed(e)), q, votes)
    requires forall p :: p in c' ==> (p in c && c'[p].key == c[p].key) || IsVote(e.output.script, c'[p].key, p, votes)
    ensures Counts(c', utxos, v[x := Some(e)], votes)
  {
    hide Total, TotalChange, Weight, IsKnown, IsVote, Score, Pad, Change;
    forall side, p
      ensures Score(c', side, p) ==
        Total(utxos, Question(side, p, true), votes) + TotalChange(v[x := Some(e)], Question(side, p, true), votes)
    {
      ChangeAdd(v, x, Some(e), Question(side, p, true), votes);
      SignedWeight(e, Question(side, p, true), votes);
    }
    forall p | p in c'
      ensures Pad(c'[p].key) == p && IsKnown(c'[p].key, utxos, v[x := Some(e)], votes)
    {
      if IsVote(e.output.script, c'[p].key, p, votes) {
        KnownByEntry(c'[p].key, p, utxos, v[x := Some(e)], x, votes);
      } else {
        IsKnownGrows(c'[p].key, utxos, v, x, Some(e), votes);
      }
    }
  }

  lemma KnownByEntry(key: Script, p: Script, utxos: Utxos, v: View, x: OutPoint, votes: Votes)
    requires x in v && v[x].Some? && IsVote(v[x].value.output.script, key, p, votes)
    ensures Pad(key) == p && IsKnown(key, utxos, v, votes)
  {
    assert IsVote(v[x].value.output.script, key, Pad(key), votes);
  }

  // ----- The count -----

  /** The full count: every output of the set, then every modified entry of the view. */
  method FullCount(utxos: Utxos, v: View, votes: Votes) returns (c: Candidates)
    ensures Counts(c, utxos, v, votes)
  {
    hide Counts, Score, Weight, Pad, IsVote;
    var elect := new Tally();
    CountStart(votes);
    ghost var done: Utxos := map[];
    var rest := utxos.Keys;
    while rest != {}
      invariant fresh(elect) && rest <= utxos.Keys && done == utxos - rest &&
        Counts(elect.candidates, done, map[], votes)
      decreases |rest|
    {
      var x :| x in rest;
      ghost var c0 := elect.candidates;
      elect.CastBallot(utxos[x].script, utxos[x].amount, votes);
      assert utxos[x] == Output(utxos[x].script, utxos[x].amount);
      CountOne(c0, elect.candidates, done, x, utxos[x], votes);
      rest := rest - {x};
      assert done[x := utxos[x]] == utxos - rest;
      done := utxos - rest;
    }
    assert utxos - {} == utxos;
    CountView(elect, utxos, v, votes);
    c := elect.candidates;
  }

  lemma CountStart(votes: Votes)
    ensures Counts(map[], map[], map[], votes)
  {
  }

  method CountView(elect: Tally, utxos: Utxos, v: View, votes: Votes)
    requires Counts(elect.candidates, utxos, map[], votes)
    modifies elect
    ensures Counts(elect.candidates, utxos, v, votes)
  {
    hide Counts, Score, Weight, Pad, IsVote;
    ghost var seen: View := map[];
    var rest := v.Keys;
    while rest != {}
      invariant rest <= v.Keys && seen == v - rest && Counts(elect.candidates, utxos, seen, votes)
      decreases |rest|
    {
      var x :| x in rest;
      if v[x].None? || !v[x].value.modified {
        CountNothing(elect.candidates, utxos, seen, x, v[x], votes);
      } else {
        var e := v[x].value;
        ghost var c0 := elect.candidates;
        var amount := e.output.amount;
        if e.spent {
          amount := -amount;
        }
        elect.CastBallot(e.output.script, amount, votes);
        CountChange(c0, elect.candidates, utxos, seen, x, e, votes);
      }
      rest := rest - {x};
      assert seen[x := v[x]] == v - rest;
      seen := v - rest;
    }
    assert v - {} == v;
  }

  /** The winner of a count: a candidate of maximal positive approval, or without one the
      steward in office. */
  ghost predicate IsWinner(c: Candidates, steward: Script, disapproval: int, r: ElectionState) {
    if forall p :: p in c ==> c[p].approval <= 0 then r == ElectionState(steward, disapproval)
    else exists p :: p in c && c[p].approval > 0 && Tops(c, p) && r == ElectionState(c[p].key, c[p].disapproval)
  }

  ghost predicate Tops(c: Candidates, p: Script)
    requires p in c
  {
    forall p' :: p' in c ==> c[p'].approval <= c[p].approval
  }

  method PickWinner(c: Candidates, steward: Script, disapproval: int) returns (r: ElectionState)
    ensures IsWinner(c, steward, disapproval, r)
  {
    r := ElectionState(steward, disapproval);
    var approval := 0;
    ghost var best: Option<Script> := None;
    var rest := c.Keys;
    while rest != {}
      invariant rest <= c.Keys && approval >= 0
      invariant forall p :: p in c && p !in rest ==> c[p].approval <= approval
      invariant best.None? ==> approval == 0 && r == ElectionState(steward, disapproval)
      invariant best.Some? ==> best.value in c && c[best.value].approval == approval > 0
      invariant best.Some? ==> r == ElectionState(c[best.value].key, c[best.value].disapproval)
      decreases |rest|
    {
      var p :| p in rest;
      if c[p].approval > approval {
        r, approval, best := ElectionState(c[p].key, c[p].disapproval), c[p].approval, Some(p);
      }
      rest := rest - {p};
    }
    assert best.Some? ==> Tops(c, best.value);
  }

  /** The disapproval of the steward in office, updated by the view. */
  method Disapproval(tip: ElectionState, v: View, votes: Votes) returns (d: int)
    ensures d == tip.disapproval + TotalChange(v, Question(Against, tip.steward, false), votes)
  {
    hide TotalChange;
    NoChange(Question(Against, tip.steward, false), votes);
    d := tip.disapproval;
    ghost var q := Question(Against, tip.steward, false);
    ghost var seen: View := map[];
    var rest := v.Keys;
    while rest != {}
      invariant rest <= v.Keys && seen == v - rest && d == tip.disapproval + TotalChange(seen, q, votes)
      decreases |rest|
    {
      var x :| x in rest;
      ChangeAdd(seen, x, v[x], q, votes);
      if v[x].Some? && v[x].value.modified {
        var e := v[x].value;
        if votes.votesAgainst(e.output.script) == Some(tip.steward) {
          d := if e.spent then d - e.output.amount else d + e.output.amount;
        }
      }
      rest := rest - {x};
      assert seen[x := v[x]] == v - rest;
      seen := v - rest;
    }
    assert v - {} == v;
  }

  /** The state after a block: the steward stays while at most half of all money disapproves,
      else there is a full election. */
  method ElectionProcessBlock(tip: ElectionState, utxos: Utxos, v: View, votes: Votes, money: nat)
    returns (r: ElectionState)
    ensures exists c :: IsOutcome(tip, utxos, v, votes, money, r, c)
  {
    hide Counts, IsWinner, TotalChange;
    var disapproval := Disapproval(tip, v, votes);
    if |tip.steward| > 0 && disapproval <= money / 2 {
      r := ElectionState(tip.steward, disapproval);
      assert IsOutcome(tip, utxos, v, votes, money, r, map[]);
      return;
    }
    var c := FullCount(utxos, v, votes);
    r := PickWinner(c, tip.steward, disapproval);
    assert IsOutcome(tip, utxos, v, votes, money, r, c);
  }

  ghost predicate IsOutcome(tip: ElectionState, utxos: Utxos, v: View, votes: Votes, money: nat, r: ElectionState,
                            c: Candidates) {
    var d := tip.disapproval + TotalChange(v, Question(Against, tip.steward, false), votes);
    if |tip.steward| > 0 && d <= money / 2 then r == ElectionState(tip.steward, d)
    else Counts(c, utxos, v, votes) && IsWinner(c, tip.steward, d, r)
  }

  lemma NoChange(q: Question, votes: Votes)
    ensures TotalChange(map[], q, votes) == 0
  {
  }

  // ----- What the outcome means -----

  /** The keys voted on stay distinct when padded. */
  ghost predicate PadsApart(utxos: Utxos, v: View, votes: Votes) {
    forall a, b :: IsKnown(a, utxos, v, votes) && IsKnown(b, utxos, v, votes) && Pad(a) == Pad(b) ==> a == b
  }

  lemma {:induction false} TotalSame(m: Utxos, q: Question, q': Question, votes: Votes)
    requires forall x :: x in m ==> Weight(m[x], q, votes) == Weight(m[x], q', votes)
    ensures Total(m, q, votes) == Total(m, q', votes)
    decreases |m|
  {
    hide Weight;
    if m != map[] {
      var x :| x in m;
      TotalPick(m, x, q, votes);
      TotalPick(m, x, q', votes);
      TotalSame(m - {x}, q, q', votes);
    }
  }

  /** The outputs vote on known keys only. */
  ghost predicate VotesKnown(m: Utxos, utxos: Utxos, v: View, votes: Votes) {
    forall x, side :: x in m && VoteOf(m[x].script, side, votes).Some? ==>
      IsKnown(VoteOf(m[x].script, side, votes).value, utxos, v, votes)
  }

  lemma {:induction false} AfterKnown(utxos: Utxos, v: View, votes: Votes)
    ensures VotesKnown(After(utxos, v), utxos, v, votes)
  {
    var m := After(utxos, v);
    forall x, side | x in m && VoteOf(m[x].script, side, votes).Some?
      ensures IsKnown(VoteOf(m[x].script, side, votes).value, utxos, v, votes)
    {
      var key := VoteOf(m[x].script, side, votes).value;
      if x in v && Created(v[x]) {
        assert IsVote(v[x].value.output.script, key, Pad(key), votes);
      } else {
        assert IsVote(utxos[x].script, key, Pad(key), votes);
      }
    }
  }

  /** Outputs of the view vote on known keys only. */
  lemma {:induction false} EntriesKnown(m: Utxos, utxos: Utxos, v: View, votes: Votes)
    requires forall x :: x in m ==> x in v && v[x].Some? && m[x] == v[x].value.output
    ensures VotesKnown(m, utxos, v, votes)
  {
    forall x, side | x in m && VoteOf(m[x].script, side, votes).Some?
      ensures IsKnown(VoteOf(m[x].script, side, votes).value, utxos, v, votes)
    {
      var key := VoteOf(m[x].script, side, votes).value;
      assert IsVote(v[x].value.output.script, key, Pad(key), votes);
    }
  }

  lemma {:induction false} MissedKnown(utxos: Utxos, v: View, votes: Votes)
    ensures VotesKnown(Ephemeral(utxos, v), utxos, v, votes) && VotesKnown(Restated(utxos, v), utxos, v, votes)
  {
    hide VotesKnown;
    EntriesKnown(Ephemeral(utxos, v), utxos, v, votes);
    EntriesKnown(Restated(utxos, v), utxos, v, votes);
  }

  /** For a known key, weighing up to padding is weighing exactly. */
  lemma {:induction false} ExactTotal(m: Utxos, utxos: Utxos, v: View, side: Side, key: Script, votes: Votes)
    requires PadsApart(utxos, v, votes) && IsKnown(key, utxos, v, votes) && VotesKnown(m, utxos, v, votes)
    ensures Total(m, Question(side, Pad(key), true), votes) == Value(m, side, key, votes)
  {
    hide IsKnown, Total, Pad;
    forall x | x in m
      ensures Weight(m[x], Question(side, Pad(key), true), votes) == Weight(m[x], Question(side, key, false), votes)
    {
      var vote := VoteOf(m[x].script, side, votes);
      assert vote.Some? ==> IsKnown(vote.value, utxos, v, votes);
    }
    TotalSame(m, Question(side, Pad(key), true), Question(side, key, false), votes);
  }

  /** A key that is not voted on has no votes. */
  lemma {:induction false} UnknownTotal(m: Utxos, utxos: Utxos, v: View, side: Side, key: Script, votes: Votes)
    requires !IsKnown(key, utxos, v, votes) && VotesKnown(m, utxos, v, votes)
    ensures Value(m, side, key, votes) == 0
  {
    hide IsKnown, Total, Pad;
    forall x | x in m
      ensures Weight(m[x], Question(side, key, false), votes) == 0
    {
      var vote := VoteOf(m[x].script, side, votes);
      assert vote.Some? ==> IsKnown(vote.value, utxos, v, votes);
    }
    TotalZero(m, Question(side, key, false), votes);
  }

  lemma {:induction false} TotalZero(m: Utxos, q: Question, votes: Votes)
    requires forall x :: x in m ==> Weight(m[x], q, votes) == 0
    ensures Total(m, q, votes) == 0
    decreases |m|
  {
    hide Weight;
    if m != map[] {
      var x :| x in m;
      TotalPick(m, x, q, votes);
      TotalZero(m - {x}, q, votes);
    }
  }

  /** The value of the unspent outputs that vote for a key, or against it. */
  ghost function Value(utxos: Utxos, side: Side, key: Script, votes: Votes): int {
    Total(utxos, Question(side, key, false), votes)
  }

  /** What a view misses of the value for a key, or against it. */
  ghost function MissedValue(utxos: Utxos, v: View, side: Side, key: Script, votes: Votes): int {
    Value(Ephemeral(utxos, v), side, key, votes) - Value(Restated(utxos, v), side, key, votes)
  }

  /** What the count credits a key with. */
  ghost function Credit(utxos: Utxos, v: View, side: Side, key: Script, votes: Votes): int {
    Value(After(utxos, v), side, key, votes) - MissedValue(utxos, v, side, key, votes)
  }

  lemma {:induction false} PaddedCredit(utxos: Utxos, v: View, side: Side, key: Script, votes: Votes)
    requires Faithful(utxos, v) && PadsApart(utxos, v, votes) && IsKnown(key, utxos, v, votes)
    ensures
      var q := Question(side, Pad(key), true);
      Total(utxos, q, votes) + TotalChange(v, q, votes) == Credit(utxos, v, side, key, votes)
  {
    hide After, Ephemeral, Restated, IsKnown, Total, TotalChange, Pad, Faithful, PadsApart, VotesKnown, Value;
    TotalAfter(utxos, v, Question(side, Pad(key), true), votes);
    AfterKnown(utxos, v, votes);
    MissedKnown(utxos, v, votes);
    ExactTotal(After(utxos, v), utxos, v, side, key, votes);
    ExactTotal(Ephemeral(utxos, v), utxos, v, side, key, votes);
    ExactTotal(Restated(utxos, v), utxos, v, side, key, votes);
  }

  /** A candidate's scores are the credits of its key. */
  lemma {:induction false} ScoresAfter(utxos: Utxos, v: View, votes: Votes, c: Candidates, p: Script)
    requires Faithful(utxos, v) && PadsApart(utxos, v, votes) && Counts(c, utxos, v, votes) && p in c
    ensures c[p].approval == Credit(utxos, v, For, c[p].key, votes)
    ensures c[p].disapproval == Credit(utxos, v, Against, c[p].key, votes)
  {
    hide After, IsKnown, Total, TotalChange, Pad, Faithful, PadsApart, Credit;
    PaddedCredit(utxos, v, For, c[p].key, votes);
    PaddedCredit(utxos, v, Against, c[p].key, votes);
    assert Score(c, For, p) == c[p].approval && Score(c, Against, p) == c[p].disapproval;
  }

  /** What a record is off by. */
  ghost function Off(e: ElectionState, utxos: Utxos, votes: Votes): int {
    e.disapproval - Value(utxos, Against, e.steward, votes)
  }

  /** Whatever the record was off by, after the block it is off by that, or by nothing when a
      count elected a steward, less what the view misses against the steward. */
  lemma {:induction false} OffAfter(tip: ElectionState, utxos: Utxos, v: View, votes: Votes, money: nat,
                                    r: ElectionState, c: Candidates)
    requires Faithful(utxos, v) && PadsApart(utxos, v, votes) && IsOutcome(tip, utxos, v, votes, money, r, c)
    ensures
      var missed := MissedValue(utxos, v, Against, r.steward, votes);
      || (r.steward == tip.steward && Off(r, After(utxos, v), votes) == Off(tip, utxos, votes) - missed)
      || Off(r, After(utxos, v), votes) == -missed
  {
    hide After, Ephemeral, Restated, Total, TotalChange, Counts, Faithful, PadsApart;
    var d := tip.disapproval + TotalChange(v, Question(Against, tip.steward, false), votes);
    TotalAfter(utxos, v, Question(Against, tip.steward, false), votes);
    if r != ElectionState(tip.steward, d) {
      var p :| p in c && c[p].approval > 0 && Tops(c, p) && r == ElectionState(c[p].key, c[p].disapproval);
      ScoresAfter(utxos, v, votes, c, p);
    }
  }

  /** Both ways keep the books right, the disapproval on record being the value of the unspent
      outputs that vote against the steward, if and only if the view misses nothing against
      that steward. */
  lemma {:induction false} DisapprovalKept(tip: ElectionState, utxos: Utxos, v: View, votes: Votes, money: nat,
                                           r: ElectionState, c: Candidates)
    requires Faithful(utxos, v) && PadsApart(utxos, v, votes) && IsOutcome(tip, utxos, v, votes, money, r, c)
    requires tip.disapproval == Value(utxos, Against, tip.steward, votes)
    ensures r.disapproval == Value(After(utxos, v), Against, r.steward, votes) <==>
      Value(Ephemeral(utxos, v), Against, r.steward, votes) == Value(Restated(utxos, v), Against, r.steward, votes)
  {
    hide After, Ephemeral, Restated, Value, IsOutcome, Faithful, PadsApart;
    OffAfter(tip, utxos, v, votes, money, r, c);
  }

  /** A key with credit in its favour is a candidate. */
  lemma {:induction false} BackedIsCandidate(utxos: Utxos, v: View, votes: Votes, c: Candidates, key: Script)
    requires Faithful(utxos, v) && PadsApart(utxos, v, votes) && Counts(c, utxos, v, votes)
    requires Credit(utxos, v, For, key, votes) > 0
    ensures Pad(key) in c && c[Pad(key)].approval == Credit(utxos, v, For, key, votes)
  {
    hide After, Ephemeral, Restated, IsKnown, Total, TotalChange, Pad, Faithful, PadsApart, VotesKnown, Value;
    if !IsKnown(key, utxos, v, votes) {
      AfterKnown(utxos, v, votes);
      MissedKnown(utxos, v, votes);
      UnknownTotal(After(utxos, v), utxos, v, For, key, votes);
      UnknownTotal(Ephemeral(utxos, v), utxos, v, For, key, votes);
      UnknownTotal(Restated(utxos, v), utxos, v, For, key, votes);
    }
    PaddedCredit(utxos, v, For, key, votes);
    assert Score(c, For, Pad(key)) == Credit(utxos, v, For, key, votes);
  }

  /** When any key has credit, a full election is won by a key of maximal credit.  Its support
      is maximal too, against any key, if and only if the view does not miss more of that
      key's support than the lead in credit makes up for. */
  lemma {:induction false} ElectionWon(tip: ElectionState, utxos: Utxos, v: View, votes: Votes, d: int,
                                       r: ElectionState, c: Candidates, backed: Script, key: Script)
    requires Faithful(utxos, v) && PadsApart(utxos, v, votes) && Counts(c, utxos, v, votes) &&
      IsWinner(c, tip.steward, d, r)
    requires Credit(utxos, v, For, backed, votes) > 0
    ensures Credit(utxos, v, For, r.steward, votes) > 0
    ensures Credit(utxos, v, For, key, votes) <= Credit(utxos, v, For, r.steward, votes)
    ensures
      var m, lead := After(utxos, v), Credit(utxos, v, For, r.steward, votes) - Credit(utxos, v, For, key, votes);
      Value(m, For, key, votes) <= Value(m, For, r.steward, votes) <==>
      MissedValue(utxos, v, For, key, votes) - MissedValue(utxos, v, For, r.steward, votes) <= lead
  {
    hide After, MissedValue, Value, Counts, Faithful, PadsApart, Pad;
    BackedIsCandidate(utxos, v, votes, c, backed);
    if Credit(utxos, v, For, key, votes) > 0 {
      BackedIsCandidate(utxos, v, votes, c, key);
    }
    var p :| p in c && c[p].approval > 0 && Tops(c, p) && r == ElectionState(c[p].key, c[p].disapproval);
    ScoresAfter(utxos, v, votes, c, p);
  }

  /** When no key has credit, the steward in office stays. */
  lemma {:induction false} NoSupportNoChange(tip: ElectionState, utxos: Utxos, v: View, votes: Votes, d: int,
                                             r: ElectionState, c: Candidates)
    requires Faithful(utxos, v) && PadsApart(utxos, v, votes) && Counts(c, utxos, v, votes) &&
      IsWinner(c, tip.steward, d, r)
    requires forall key :: Credit(utxos, v, For, key, votes) <= 0
    ensures r == ElectionState(tip.steward, d)
  {
    hide After, Value, Counts, Faithful, PadsApart, Pad, Credit;
    forall p | p in c
      ensures c[p].approval <= 0
    {
      ScoresAfter(utxos, v, votes, c, p);
    }
  }

  /** Counting through a view that misses nothing, from a right record: a steward stays in office
      while the value against it is at most half of all money.  Otherwise a key with the most
      value behind it takes office, if any has some.  The record is right again. */
  lemma {:induction false} MajorityRules(tip: ElectionState, utxos: Utxos, v: View, votes: Votes, money: nat,
                                         r: ElectionState, c: Candidates, backed: Script, key: Script)
    requires Faithful(utxos, v) && PadsApart(utxos, v, votes) && IsOutcome(tip, utxos, v, votes, money, r, c)
    requires Ephemeral(utxos, v) == map[] && Restated(utxos, v) == map[]
    requires tip.disapproval == Value(utxos, Against, tip.steward, votes)
    ensures
      var m := After(utxos, v);
      var sits := tip.steward != [] && 2 * Value(m, Against, tip.steward, votes) <= money;
      && r.disapproval == Value(m, Against, r.steward, votes)
      && (sits ==> r.steward == tip.steward)
      && (!sits && Value(m, For, backed, votes) > 0 ==>
          Value(m, For, r.steward, votes) > 0 && Value(m, For, key, votes) <= Value(m, For, r.steward, votes))
      && (!sits && (forall k :: Value(m, For, k, votes) <= 0) ==> r.steward == tip.steward)
  {
    hide After, TotalChange, Counts, Faithful, PadsApart, IsWinner;
    NothingMissed(utxos, v, votes);
    TotalAfter(utxos, v, Question(Against, tip.steward, false), votes);
    DisapprovalKept(tip, utxos, v, votes, money, r, c);
    var m := After(utxos, v);
    var d := Value(m, Against, tip.steward, votes);
    assert d == tip.disapproval + TotalChange(v, Question(Against, tip.steward, false), votes);
    if tip.steward == [] || 2 * d > money {
      if Value(m, For, backed, votes) > 0 {
        ElectionWon(tip, utxos, v, votes, d, r, c, backed, key);
      }
      if forall k :: Value(m, For, k, votes) <= 0 {
        NoSupportNoChange(tip, utxos, v, votes, d, r, c);
      }
    }
  }

  lemma NothingMissed(utxos: Utxos, v: View, votes: Votes)
    requires Ephemeral(utxos, v) == map[] && Restated(utxos, v) == map[]
    ensures forall q :: Missed(utxos, v, q, votes) == 0
    ensures forall side, key :: Credit(utxos, v, side, key, votes) == Value(After(utxos, v), side, key, votes)
  {
    hide After, Ephemeral, Restated;
  }
}
