/**
 What callers of the sharded store can and cannot notice: neither resharding nor, outside typed
 operations on expired items, garbage collection.
 */
module ShardedEquivalence {
  import opened Wrappers
  import opened Lists
  import opened Slots
  import opened ShardedStores
  import opened ShardedRuns
  import SortedSets

  // ---------- Runs without their maintenance ----------

  function KeyOps<V>(ops: seq<Op<V>>): seq<Op<V>> {
    if ops == [] then []
    else
      var n := |ops| - 1;
      if Maintains(ops[n]) then KeyOps(ops[..n]) else KeyOps(ops[..n]) + [ops[n]]
  }

  function KeyAnswers<V>(ops: seq<Op<V>>, answers: seq<Answer<V>>): seq<Answer<V>>
    requires |answers| == |ops|
  {
    if ops == [] then []
    else
      var n := |ops| - 1;
      var before := KeyAnswers(ops[..n], answers[..n]);
      if Maintains(ops[n]) then before else before + [answers[n]]
  }

  /** The instants of the garbage collections. */
  function Times<V>(ops: seq<Op<V>>): set<int> {
    if ops == [] then {}
    else
      var n := |ops| - 1;
      if ops[n].Collected? then Times(ops[..n]) + {ops[n].now} else Times(ops[..n])
  }

  /** The maps the run would have gone through without its maintenance: each operation leaves the same slot. */
  function KeyStates<V>(states: seq<Data<V>>, ops: seq<Op<V>>): (full: seq<Data<V>>)
    requires |states| == |ops| + 1
    ensures |full| == |KeyOps(ops)| + 1
  {
    if ops == [] then states
    else
      var n := |ops| - 1;
      var before := KeyStates(states[..n + 1], ops[..n]);
      if Maintains(ops[n]) then before
      else before + [Put(before[|before| - 1], ops[n].key, At(states[n + 1], ops[n].key))]
  }

  function KeyEnd<V>(states: seq<Data<V>>, ops: seq<Op<V>>): Data<V>
    requires |states| == |ops| + 1
  {
    KeyStates(states, ops)[|KeyOps(ops)|]
  }

  // ---------- When a collection can be noticed ----------

  /** An item that one of the collections may have found expired. */
  ghost predicate Lapsed<V>(slot: Slot<V>, times: set<int>) {
    slot.Some? && exists t :: t in times && Expired(slot.value, t)
  }

  /** Operations that look at the clock and drop or replace an expired item themselves. */
  predicate LooksAtClock<V>(op: Op<V>) {
    op.GetItem? || op.HasKey? || op.SetIfFree?
  }

  /** Operations that ask for a type, for which an expired item is a mismatch and a missing key is not. */
  predicate Typed<V>(op: Op<V>) {
    !Maintains(op) && !LooksAtClock(op) && !op.SetItem? && !op.Drop?
  }

  /** The map `coll` is `full` but for some expired items. */
  ghost predicate Lags<V>(full: Data<V>, coll: Data<V>, times: set<int>) {
    forall key :: At(coll, key) == At(full, key) || (At(coll, key) == None && Lapsed(At(full, key), times))
  }

  /** The operation's clock is not behind any of the collections. */
  ghost predicate NotBehind<V>(op: Op<V>, times: set<int>) {
    LooksAtClock(op) ==> forall t :: t in times ==> t <= op.now
  }

  /** No clock runs behind an earlier collection. */
  ghost predicate Timely<V>(ops: seq<Op<V>>) {
    ops == [] ||
    var n := |ops| - 1;
    Timely(ops[..n]) && NotBehind(ops[n], Times(ops[..n]))
  }

  /** Every typed operation finds the slot it would have found without the collections. */
  ghost predicate Undisturbed<V>(states: seq<Data<V>>, ops: seq<Op<V>>)
    requires |states| == |ops| + 1
  {
    ops == [] ||
    var n := |ops| - 1;
    && Undisturbed(states[..n + 1], ops[..n])
    && (Typed(ops[n]) ==> At(states[n], ops[n].key) == At(KeyEnd(states[..n + 1], ops[..n]), ops[n].key))
  }

  lemma ClockStep<V>(op: Op<V>, full: Slot<V>, times: set<int>, answer: Answer<V>, slot': Slot<V>)
    requires LooksAtClock(op) && NotBehind(op, times)
    requires Lapsed(full, times) && AnswersAt(op, None, answer, slot')
    ensures AnswersAt(op, full, answer, slot')
  {
    var t :| t in times && Expired(full.value, t);
    assert t <= op.now;
  }

  /** An operation does on the full map what it did on the collected one. */
  lemma StepOnFull<V>(op: Op<V>, full: Data<V>, coll: Data<V>, times: set<int>, answer: Answer<V>, coll': Data<V>)
    requires !Maintains(op) && Lags(full, coll, times) && Answers(op, coll, answer, coll')
    requires NotBehind(op, times)
    requires Typed(op) ==> At(coll, op.key) == At(full, op.key)
    ensures var full' := Put(full, op.key, At(coll', op.key));
            Answers(op, full, answer, full') && Lags(full', coll', times)
  {
    var full', slot := Put(full, op.key, At(coll', op.key)), At(full, op.key);
    if At(coll, op.key) != slot && LooksAtClock(op) {
      ClockStep(op, slot, times, answer, At(coll', op.key));
    }
    assert AnswersAt(op, slot, answer, At(coll', op.key));
    forall key ensures At(coll', key) == At(full', key) || (At(coll', key) == None && Lapsed(At(full', key), times)) {
      if key != op.key {
        assert At(coll', key) == At(coll, key) && At(full', key) == At(full, key);
      }
    }
  }

  lemma MaintenanceLags<V>(op: Op<V>, full: Data<V>, coll: Data<V>, times: set<int>, answer: Answer<V>, coll': Data<V>)
    requires Maintains(op) && Lags(full, coll, times) && Answers(op, coll, answer, coll')
    ensures Lags(full, coll', if op.Collected? then times + {op.now} else times)
  {
    if op.Collected? {
      var later := times + {op.now};
      forall key ensures At(coll', key) == At(full, key) || (At(coll', key) == None && Lapsed(At(full, key), later)) {
        assert At(coll', key) == At(coll, key) || At(coll', key) == Refreshed(At(coll, key), op.now);
        if At(coll, key) == At(full, key) && At(coll', key) != At(full, key) {
          assert op.now in later && Expired(At(full, key).value, op.now);
        }
      }
    }
  }

  /**
   Leaving resharding and garbage collection out of a run leaves a run with the same answers, if typed
   operations were not disturbed; the ends differ in expired items only.
   */
  lemma {:induction false} MaintenanceIsInvisible<V>(states: seq<Data<V>>, ops: seq<Op<V>>, answers: seq<Answer<V>>)
    requires IsRun(states, ops, answers) && Timely(ops) && Undisturbed(states, ops)
    ensures IsRun(KeyStates(states, ops), KeyOps(ops), KeyAnswers(ops, answers))
    ensures KeyStates(states, ops)[0] == states[0] && Lags(KeyEnd(states, ops), states[|ops|], Times(ops))
  {
    if |ops| > 0 {
      var n := |ops| - 1;
      var op, before, coll' := ops[n], ops[..n], states[n + 1];
      RunPrefix(states, ops, answers);
      MaintenanceIsInvisible(states[..n + 1], before, answers[..n]);
      var full := KeyEnd(states[..n + 1], before);
      if Maintains(op) {
        MaintenanceLags(op, full, states[n], Times(before), answers[n], coll');
      } else {
        StepOnFull(op, full, states[n], Times(before), answers[n], coll');
        RunExtends(KeyStates(states[..n + 1], before), KeyOps(before), KeyAnswers(before, answers[..n]),
                   op, answers[n], Put(full, op.key, At(coll', op.key)));
      }
    }
  }

  /** A typed operation on an expired item never gets the answer it gets after a collection. */
  lemma TypedOperationsNotice<V>(op: Op<V>, slot: Slot<V>, now: int, answer: Answer<V>, left: Slot<V>, left': Slot<V>)
    requires Typed(op) && slot.Some? && Expired(slot.value, now) && AnswersAt(op, slot, answer, left)
    ensures !AnswersAt(op, Refreshed(slot, now), answer, left')
  {
  }

  /** The step that gives a collection away: same answer on both maps, so the same slot. */
  lemma SameAnswerSameSlot<V>(op: Op<V>, full: Data<V>, coll: Data<V>, times: set<int>, answer: Answer<V>,
                              full': Data<V>, coll': Data<V>)
    requires Typed(op) && Lags(full, coll, times)
    requires Answers(op, coll, answer, coll') && Answers(op, full, answer, full')
    ensures At(coll, op.key) == At(full, op.key)
  {
    var slot := At(full, op.key);
    if At(coll, op.key) != slot {
      var t :| t in times && Expired(slot.value, t);
      TypedOperationsNotice(op, slot, t, answer, At(full', op.key), At(coll', op.key));
    }
  }

  /**
   Without its maintenance a run gives the same answers exactly when every typed operation finds the slot
   it would have found, that is, when no expired item was collected from under it.
   */
  lemma {:induction false} MaintenanceShowsExactly<V>(states: seq<Data<V>>, ops: seq<Op<V>>, answers: seq<Answer<V>>)
    requires IsRun(states, ops, answers) && Timely(ops)
    ensures IsRun(KeyStates(states, ops), KeyOps(ops), KeyAnswers(ops, answers)) <==> Undisturbed(states, ops)
  {
    if Undisturbed(states, ops) {
      MaintenanceIsInvisible(states, ops, answers);
    } else if IsRun(KeyStates(states, ops), KeyOps(ops), KeyAnswers(ops, answers)) {
      var n := |ops| - 1;
      var op, before := ops[n], ops[..n];
      RunPrefix(states, ops, answers);
      if !Maintains(op) {
        KeyRunPrefix(states, ops, answers);
      }
      MaintenanceShowsExactly(states[..n + 1], before, answers[..n]);
      MaintenanceIsInvisible(states[..n + 1], before, answers[..n]);
      if Typed(op) {
        var full := KeyEnd(states[..n + 1], before);
        SameAnswerSameSlot(op, full, states[n], Times(before), answers[n],
                           Put(full, op.key, At(states[n + 1], op.key)), states[n + 1]);
      }
    }
  }

  lemma RunLosesLast<V>(s: seq<Data<V>>, after: Data<V>, ops: seq<Op<V>>, op: Op<V>,
                        a: seq<Answer<V>>, answer: Answer<V>)
    requires |s| == |ops| + 1 && |a| == |ops| && IsRun(s + [after], ops + [op], a + [answer])
    ensures IsRun(s, ops, a) && Answers(op, s[|ops|], answer, after)
  {
    var longer, ops', a' := s + [after], ops + [op], a + [answer];
    forall i | 0 <= i < |ops| ensures Answers(ops[i], s[i], a[i], s[i + 1]) {
      assert Answers(ops'[i], longer[i], a'[i], longer[i + 1]);
    }
    assert Answers(ops'[|ops|], longer[|ops|], a'[|ops|], longer[|ops| + 1]);
  }

  lemma KeyRunPrefix<V>(states: seq<Data<V>>, ops: seq<Op<V>>, answers: seq<Answer<V>>)
    requires |states| == |ops| + 1 && |answers| == |ops| > 0 && !Maintains(ops[|ops| - 1])
    requires IsRun(KeyStates(states, ops), KeyOps(ops), KeyAnswers(ops, answers))
    ensures var n := |ops| - 1; var s, k := KeyStates(states[..n + 1], ops[..n]), KeyOps(ops[..n]);
            && IsRun(s, k, KeyAnswers(ops[..n], answers[..n]))
            && Answers(ops[n], s[|k|], answers[n], Put(s[|k|], ops[n].key, At(states[n + 1], ops[n].key)))
  {
    var n := |ops| - 1;
    var s, k := KeyStates(states[..n + 1], ops[..n]), KeyOps(ops[..n]);
    RunLosesLast(s, Put(s[|k|], ops[n].key, At(states[n + 1], ops[n].key)), k, ops[n],
                 KeyAnswers(ops[..n], answers[..n]), answers[n]);
  }

  lemma {:induction false} ClockFree<V>(ops: seq<Op<V>>)
    requires forall i :: 0 <= i < |ops| ==> !LooksAtClock(ops[i])
    ensures Timely(ops)
  {
    if |ops| > 0 {
      ClockFree(ops[..|ops| - 1]);
    }
  }

  /** A hash read of an expired item: a type mismatch before the collection, an empty hash after it. */
  lemma CollectionShows(states: seq<Data<int>>, ops: seq<Op<int>>, answers: seq<Answer<int>>)
    requires ops == [SetItem("k", 1, 1, 1), Collected(5), GetFields("k")]
    requires states == [map[], map["k" := Item(1, 2)], map[], map[]] && answers == [Done, Done, Fields(Ok(map[]))]
    ensures IsRun(states, ops, answers) && Timely(ops)
    ensures !IsRun(KeyStates(states, ops), KeyOps(ops), KeyAnswers(ops, answers))
    ensures AnswersAt(ops[2], At(states[1], "k"), Fields(Err(TypeMismatch)), At(states[1], "k"))
  {
    assert forall i :: 0 <= i < 3 ==> Answers(ops[i], states[i], answers[i], states[i + 1]);
    assert ops[..2][..1] == ops[..1] && ops[..1][..0] == [];
    ClockFree(ops);
    assert states[..3][..2] == states[..2];
    assert KeyStates(states[..2], ops[..1]) == [map[], map["k" := Item(1, 2)]];
    assert KeyEnd(states[..3], ops[..2]) == map["k" := Item(1, 2)];
    MaintenanceShowsExactly(states, ops, answers);
  }

  /** A run that only reshards in between loses nothing: same answers, same end. */
  lemma ReconfiguringIsInvisible<V>(states: seq<Data<V>>, ops: seq<Op<V>>, answers: seq<Answer<V>>)
    requires IsRun(states, ops, answers) && forall i :: 0 <= i < |ops| ==> !ops[i].Collected?
    ensures IsRun(KeyStates(states, ops), KeyOps(ops), KeyAnswers(ops, answers))
    ensures KeyStates(states, ops)[0] == states[0] && KeyEnd(states, ops) == states[|ops|]
  {
    NothingCollected(states, ops, answers);
    MaintenanceIsInvisible(states, ops, answers);
    NothingLags(KeyEnd(states, ops), states[|ops|]);
  }

  lemma NothingLags<V>(full: Data<V>, coll: Data<V>)
    requires Lags(full, coll, {})
    ensures full == coll
  {
    forall key ensures At(coll, key) == At(full, key) {
      assert !Lapsed(At(full, key), {});
    }
    assert forall key :: (key in coll <==> At(coll, key).Some?) && (key in full <==> At(full, key).Some?);
  }

  lemma {:induction false} NothingCollected<V>(states: seq<Data<V>>, ops: seq<Op<V>>, answers: seq<Answer<V>>)
    requires IsRun(states, ops, answers) && forall i :: 0 <= i < |ops| ==> !ops[i].Collected?
    ensures Times(ops) == {} && Timely(ops) && Undisturbed(states, ops)
  {
    NoTimes(ops);
    if |ops| > 0 {
      var n := |ops| - 1;
      NoTimes(ops[..n]);
      RunPrefix(states, ops, answers);
      NothingCollected(states[..n + 1], ops[..n], answers[..n]);
      MaintenanceIsInvisible(states[..n + 1], ops[..n], answers[..n]);
      NothingLags(KeyEnd(states[..n + 1], ops[..n]), states[n]);
    }
  }

  lemma {:induction false} NoTimes<V>(ops: seq<Op<V>>)
    requires forall i :: 0 <= i < |ops| ==> !ops[i].Collected?
    ensures Times(ops) == {}
  {
    if |ops| > 0 {
      NoTimes(ops[..|ops| - 1]);
    }
  }

  // ---------- When answers are determined ----------

  /**
   The answer does not depend on the order a map is walked in: no ties in what is read, and nothing to
   choose from in what is popped.
   */
  ghost predicate Settled<V>(op: Op<V>, slot: Slot<V>) {
    match op
    case PopSome(_, size) => MembersOf(slot).Err? || size == 0 || |MembersOf(slot).value| <= 1
    case ReadByScore(_, min, max) => ScoresOf(slot).Err? || SortedSets.NoTies(ScoresOf(slot).value, min, max)
    case ReadByPosition(_, start, stop) =>
      ScoresOf(slot).Err? ||
      forall ranking :: SortedSets.Ranks(ScoresOf(slot).value, ranking) ==>
        SortedSets.Untied(ScoresOf(slot).value, SortedSets.Window(ranking, start, stop))
    case _ => true
  }

  /** What a settled operation leaves in its slot. */
  function NextSlot<V>(op: Op<V>, slot: Slot<V>): Slot<V>
    requires !Maintains(op)
  {
    if op.PopSome? then (if op.size > 0 && slot.Some? && slot.value.Set? then Some(Set({})) else slot)
    else if Varies(op) then slot
    else Outcome(op, slot).0
  }

  lemma PopIsSettled<V>(op: Op<V>, slot: Slot<V>, a: Answer<V>, slot': Slot<V>)
    requires op.PopSome? && Settled(op, slot) && AnswersAt(op, slot, a, slot')
    ensures slot' == NextSlot(op, slot)
    ensures MembersOf(slot).Err? ==> a == Texts(Err(MembersOf(slot).error))
    ensures MembersOf(slot).Ok? ==>
              && a.texts.Ok?
              && if op.size == 0 || |MembersOf(slot).value| == 0 then a.texts.value == []
                 else |a.texts.value| == 1 && MembersOf(slot).value == {a.texts.value[0]}
  {
    if MembersOf(slot).Ok? {
      var members, popped := MembersOf(slot).value, a.texts.value;
      if op.size == 0 || |members| == 0 {
        assert popped == [];
        assert members - (set m | m in popped) == members;
      } else {
        assert |members| == 1 && |popped| == 1 && popped[0] in members;
        assert |members - {popped[0]}| == 0;
        assert (set m | m in popped) == {popped[0]};
      }
    }
  }

  lemma SettledAnswer<V>(op: Op<V>, slot: Slot<V>, a: Answer<V>, s: Slot<V>, b: Answer<V>, t: Slot<V>)
    requires !Maintains(op) && Settled(op, slot) && AnswersAt(op, slot, a, s) && AnswersAt(op, slot, b, t)
    ensures a == b && s == t == NextSlot(op, slot)
  {
    if op.PopSome? {
      PopIsSettled(op, slot, a, s);
      PopIsSettled(op, slot, b, t);
      if MembersOf(slot).Ok? && a.texts.value != [] {
        assert a.texts.value[0] in MembersOf(slot).value && b.texts.value[0] in MembersOf(slot).value;
        assert a.texts.value == b.texts.value;
      }
    } else if Varies(op) && ScoresOf(slot).Ok? {
      var scores := ScoresOf(slot).value;
      if op.ReadByScore? {
        SortedSets.RangeWithoutTies(scores, op.min, op.max, a.texts.value, b.texts.value);
      } else {
        var ranking: seq<string> :|
          SortedSets.Ranks(scores, ranking) && a.texts.value == SortedSets.Window(ranking, op.start, op.stop);
        SortedSets.WindowIsDetermined(scores, op.start, op.stop, ranking);
      }
    }
  }

  lemma AnotherPop(members: set<string>, popped: seq<string>) returns (other: seq<string>)
    requires |members| > 1 && |popped| > 0 && NoDuplicates(popped) && forall m :: m in popped ==> m in members
    ensures |other| == |popped| && NoDuplicates(other) && (forall m :: m in other ==> m in members) && other != popped
  {
    if |popped| > 1 {
      SortedSets.SwapKeepsMembers(popped, 0, 1);
      other := SortedSets.Swapped(popped, 0, 1);
      assert other[0] == popped[1];
    } else {
      assert |members - {popped[0]}| > 0;
      var m :| m in members - {popped[0]};
      other := [m];
    }
  }

  lemma UnsettledPop<V>(op: Op<V>, slot: Slot<V>, a: Answer<V>, slot': Slot<V>) returns (b: Answer<V>, t: Slot<V>)
    requires op.PopSome? && !Settled(op, slot) && AnswersAt(op, slot, a, slot')
    ensures AnswersAt(op, slot, b, t) && a != b
  {
    var other := AnotherPop(MembersOf(slot).value, a.texts.value);
    b, t := Texts(Ok(other)), AfterPop(slot, other);
  }

  lemma UnsettledRead<V>(op: Op<V>, slot: Slot<V>, a: Answer<V>, slot': Slot<V>) returns (b: Answer<V>)
    requires (op.ReadByScore? || op.ReadByPosition?) && !Settled(op, slot) && AnswersAt(op, slot, a, slot')
    ensures AnswersAt(op, slot, b, slot) && a != b
  {
    var scores := ScoresOf(slot).value;
    if op.ReadByScore? {
      SortedSets.RangeIsDetermined(scores, op.min, op.max, a.texts.value);
      var other :| SortedSets.RanksRange(scores, op.min, op.max, other) && other != a.texts.value;
      b := Texts(Ok(other));
    } else {
      var tied :| SortedSets.Ranks(scores, tied)
                  && !SortedSets.Untied(scores, SortedSets.Window(tied, op.start, op.stop));
      var swapped := SortedSets.TiedWindow(scores, op.start, op.stop, tied);
      var one, two := SortedSets.Window(tied, op.start, op.stop), SortedSets.Window(swapped, op.start, op.stop);
      assert SortedSets.RanksWindow(scores, op.start, op.stop, one);
      assert SortedSets.RanksWindow(scores, op.start, op.stop, two);
      b := Texts(Ok(if one != a.texts.value then one else two));
    }
  }

  /** An operation has one possible answer exactly when it is settled. */
  lemma SettledExactly<V(!new)>(op: Op<V>, slot: Slot<V>, a: Answer<V>, slot': Slot<V>)
    requires !Maintains(op) && AnswersAt(op, slot, a, slot')
    ensures (forall b, t :: AnswersAt(op, slot, b, t) ==> b == a) <==> Settled(op, slot)
  {
    if Settled(op, slot) {
      forall b, t | AnswersAt(op, slot, b, t) ensures b == a {
        SettledAnswer(op, slot, a, slot', b, t);
      }
    } else if op.PopSome? {
      var b, t := UnsettledPop(op, slot, a, slot');
    } else {
      var b := UnsettledRead(op, slot, a, slot');
    }
  }

  /** The map after a run of settled operations. */
  function After<V>(data: Data<V>, ops: seq<Op<V>>): Data<V> {
    if ops == [] then data
    else
      var n := |ops| - 1;
      var before := After(data, ops[..n]);
      if Maintains(ops[n]) then before else Put(before, ops[n].key, NextSlot(ops[n], At(before, ops[n].key)))
  }

  /** Every operation finds a slot that settles its answer. */
  ghost predicate AllSettled<V>(data: Data<V>, ops: seq<Op<V>>) {
    ops == [] ||
    var n := |ops| - 1;
    && AllSettled(data, ops[..n])
    && !Maintains(ops[n]) && Settled(ops[n], At(After(data, ops[..n]), ops[n].key))
  }

  lemma SettledStep<V>(op: Op<V>, before: Data<V>, a: Answer<V>, s: Data<V>, b: Answer<V>, t: Data<V>)
    requires !Maintains(op) && Settled(op, At(before, op.key)) && Answers(op, before, a, s) && Answers(op, before, b, t)
    ensures a == b && s == t == Put(before, op.key, NextSlot(op, At(before, op.key)))
  {
    SettledAnswer(op, At(before, op.key), a, At(s, op.key), b, At(t, op.key));
  }

  /** From the same map, settled operations get the same answers. */
  lemma {:induction false} AnswersAreDetermined<V>(s: seq<Data<V>>, t: seq<Data<V>>, ops: seq<Op<V>>,
                                                   a: seq<Answer<V>>, b: seq<Answer<V>>)
    requires IsRun(s, ops, a) && IsRun(t, ops, b) && s[0] == t[0] && AllSettled(s[0], ops)
    ensures a == b && s[|ops|] == t[|ops|] == After(s[0], ops)
  {
    if |ops| > 0 {
      var n := |ops| - 1;
      RunPrefix(s, ops, a);
      RunPrefix(t, ops, b);
      AnswersAreDetermined(s[..n + 1], t[..n + 1], ops[..n], a[..n], b[..n]);
      SettledStep(ops[n], s[n], a[n], s[n + 1], b[n], t[n + 1]);
      assert a == a[..n] + [a[n]] && b == b[..n] + [b[n]];
    }
  }

  /** However and whenever a store is resharded and collected, settled operations get the same answers. */
  lemma ShardingDoesNotShow<V>(s: seq<Data<V>>, t: seq<Data<V>>, ops: seq<Op<V>>, ops': seq<Op<V>>,
                               a: seq<Answer<V>>, b: seq<Answer<V>>)
    requires IsRun(s, ops, a) && IsRun(t, ops', b) && s[0] == t[0] && KeyOps(ops) == KeyOps(ops')
    requires Timely(ops) && Timely(ops') && Undisturbed(s, ops) && Undisturbed(t, ops')
    requires AllSettled(s[0], KeyOps(ops))
    ensures KeyAnswers(ops, a) == KeyAnswers(ops', b)
    ensures var end := After(s[0], KeyOps(ops)); Lags(end, s[|ops|], Times(ops)) && Lags(end, t[|ops'|], Times(ops'))
  {
    MaintenanceIsInvisible(s, ops, a);
    MaintenanceIsInvisible(t, ops', b);
    AnswersAreDetermined(KeyStates(s, ops), KeyStates(t, ops'), KeyOps(ops), KeyAnswers(ops, a), KeyAnswers(ops', b));
  }

  // ---------- Two stores ----------

  /** No typed operation meets an item that an earlier collection may have found expired. */
  ghost predicate NothingLapses<V>(data: Data<V>, ops: seq<Op<V>>) {
    ops == [] ||
    var n := |ops| - 1;
    && NothingLapses(data, ops[..n])
    && (Typed(ops[n]) ==> !Lapsed(At(After(data, KeyOps(ops[..n])), ops[n].key), Times(ops[..n])))
  }

  lemma {:induction false} LapseFree<V>(states: seq<Data<V>>, ops: seq<Op<V>>, answers: seq<Answer<V>>)
    requires IsRun(states, ops, answers) && Timely(ops)
    requires AllSettled(states[0], KeyOps(ops)) && NothingLapses(states[0], ops)
    ensures Undisturbed(states, ops)
  {
    if |ops| > 0 {
      var n := |ops| - 1;
      var before := ops[..n];
      RunPrefix(states, ops, answers);
      assert !Maintains(ops[n]) ==> KeyOps(ops)[..|KeyOps(before)|] == KeyOps(before);
      LapseFree(states[..n + 1], before, answers[..n]);
      MaintenanceIsInvisible(states[..n + 1], before, answers[..n]);
      var s, a := KeyStates(states[..n + 1], before), KeyAnswers(before, answers[..n]);
      AnswersAreDetermined(s, s, KeyOps(before), a, a);
    }
  }

  /**
   Two stores that stand for the same map, whatever their shard counts, give the same answers to the same
   operations, whatever maintenance each of them gets in between.
   */
  method ReplayBoth<V(==)>(one: ShardedMemoryStore<V>, other: ShardedMemoryStore<V>, ops: seq<Op<V>>, ops': seq<Op<V>>)
    returns (a: seq<Answer<V>>, b: seq<Answer<V>>)
    requires one.Valid() && other.Valid() && one != other && one.flat == other.flat && one.zsets !! other.zsets
    requires forall i, j :: 0 <= i < |one.shards| && 0 <= j < |other.shards| ==> one.shards[i] != other.shards[j]
    requires KeyOps(ops) == KeyOps(ops') && AllSettled(one.flat, KeyOps(ops)) && Timely(ops) && Timely(ops')
    requires NothingLapses(one.flat, ops) && NothingLapses(one.flat, ops')
    modifies one, one.shards, one.zsets, other, other.shards, other.zsets
    ensures one.Valid() && other.Valid() && |a| == |ops| && |b| == |ops'|
    ensures KeyAnswers(ops, a) == KeyAnswers(ops', b)
    ensures var end := After(old(one.flat), KeyOps(ops));
            Lags(end, one.flat, Times(ops)) && Lags(end, other.flat, Times(ops'))
  {
    ghost var s, t;
    a, s := Replay(one, ops);
    other.StillValid();
    label Between:
    b, t := Replay(other, ops');
    one.StillValid@Between();
    LapseFree(s, ops, a);
    LapseFree(t, ops', b);
    ShardingDoesNotShow(s, t, ops, ops', a, b);
  }
}
