/** Whole runs of the sharded store: sequences of operations, reconfigurations and garbage collections. */
module ShardedRuns {
  import opened Wrappers
  import opened Slots
  import opened ShardedStores
  import SortedSets

  datatype Op<V> =
    | SetItem(key: string, value: V, ttl: int, now: int)
    | GetItem(key: string, now: int)
    | Drop(key: string)
    | HasKey(key: string, now: int)
    | SetIfFree(key: string, value: V, ttl: int, now: int)
    | SetFields(key: string, fields: map<string, string>)
    | GetFields(key: string)
    | Increment(key: string, field: string, incr: int)
    | Push(key: string, values: seq<string>)
    | RemoveValue(key: string, count: int, text: string)
    | RotateList(key: string)
    | AddMembers(key: string, members: seq<string>)
    | PopSome(key: string, size: nat)
    | AddScored(key: string, added: seq<(string, real)>)
    | RemoveScored(key: string, names: seq<string>)
    | RemoveByScore(key: string, min: real, max: real)
    | ReadByScore(key: string, min: real, max: real)
    | ReadByPosition(key: string, start: int, stop: int)
    | Reconfigured(config: Option<Config>, now: int)
    | Collected(now: int)

  datatype Answer<V> =
    | Done
    | Found(found: bool)
    | Got(item: Reply<V>)
    | Fields(fields: Reply<map<string, string>>)
    | Number(number: Reply<int>)
    | Text(text: Reply<string>)
    | Texts(texts: Reply<seq<string>>)
    | Ack(ack: Reply<()>)
    | Configured(configured: Result<(), ConfigError>)

  // ---------- One operation on the flat map ----------

  /** Operations whose answer depends on the order a map is walked in: a pop, and ties in a ranking. */
  predicate Varies<V>(op: Op<V>) {
    op.PopSome? || op.ReadByScore? || op.ReadByPosition?
  }

  function Acked<V>(r: (Slot<V>, Reply<()>)): (Slot<V>, Answer<V>) {
    (r.0, Ack(r.1))
  }

  /** Operations on the whole store, which callers are not meant to notice. */
  predicate Maintains<V>(op: Op<V>) {
    op.Reconfigured? || op.Collected?
  }

  /** The new slot and the answer of an operation on one key. */
  function Outcome<V>(op: Op<V>, slot: Slot<V>): (Slot<V>, Answer<V>)
    requires !Maintains(op) && !Varies(op)
  {
    match op
    case SetItem(_, value, ttl, now) => (Some(NewItem(value, ttl, now)), Done)
    case GetItem(_, now) => (Refreshed(slot, now), Got(GetReply(slot, now)))
    case Drop(_) => (None, Done)
    case HasKey(_, now) => (Refreshed(slot, now), Found(Refreshed(slot, now).Some?))
    case SetIfFree(_, value, ttl, now) => (SetNX(slot, value, ttl, now), Found(!Blocks(slot, now)))
    case SetFields(_, fields) => Acked(HSet(slot, fields))
    case GetFields(_) => (slot, Fields(FieldsOf(slot)))
    case Increment(_, field, incr) =>
      var r := HIncrByChecked(slot, field, incr);
      (r.0, Number(r.1))
    case Push(_, values) => Acked(LPush(slot, values))
    case RemoveValue(_, count, text) => Acked(LRem(slot, count, text))
    case RotateList(_) => (Rotate(slot).0, Text(Rotate(slot).1))
    case AddMembers(_, members) => Acked(SAdd(slot, members))
    case AddScored(_, added) => Acked(ZAdd(slot, added))
    case RemoveScored(_, names) => Acked(ZRem(slot, names))
    case RemoveByScore(_, min, max) =>
      var r := ZRemRangeByScore(slot, min, max);
      (r.0, Number(match r.1 case Ok(n) => Ok(n) case Err(e) => Err(e)))
  }

  ghost predicate AnswersAt<V>(op: Op<V>, slot: Slot<V>, answer: Answer<V>, slot': Slot<V>)
    requires !Maintains(op)
  {
    if op.PopSome? then
      && answer.Texts? && Pops(slot, op.size, answer.texts)
      && slot' == if answer.texts.Ok? then AfterPop(slot, answer.texts.value) else slot
    else if Varies(op) then
      answer.Texts? && slot' == slot && Reads(op, slot, answer.texts)
    else (slot', answer) == Outcome(op, slot)
  }

  /** What reading a sorted set may answer: some ranking of the range or window asked for. */
  ghost predicate Reads<V>(op: Op<V>, slot: Slot<V>, texts: Reply<seq<string>>)
    requires op.ReadByScore? || op.ReadByPosition?
  {
    match ScoresOf(slot)
    case Err(e) => texts == Err(e)
    case Ok(scores) =>
      && texts.Ok?
      && if op.ReadByScore? then SortedSets.RanksRange(scores, op.min, op.max, texts.value)
         else SortedSets.RanksWindow(scores, op.start, op.stop, texts.value)
  }

  /** Some expired items are gone, and nothing else. */
  ghost predicate Collection<V>(before: Data<V>, after: Data<V>, now: int) {
    forall key :: At(after, key) == At(before, key) || At(after, key) == Refreshed(At(before, key), now)
  }

  /**
   What an operation may answer on the flat map: it changes its own key's slot, while maintenance at most
   drops expired items.
   */
  ghost predicate Answers<V>(op: Op<V>, before: Data<V>, answer: Answer<V>, after: Data<V>) {
    match op
    case Reconfigured(config, _) => answer == Configured(ReconfigureReply(config)) && after == before
    case Collected(now) => answer == Done && Collection(before, after, now)
    case _ =>
      && after == Put(before, op.key, At(after, op.key))
      && AnswersAt(op, At(before, op.key), answer, At(after, op.key))
  }

  lemma PutBack<V>(data: Data<V>, key: string)
    ensures Put(data, key, At(data, key)) == data
  {
  }

  lemma ActsOnSlot<V>(op: Op<V>, before: Data<V>)
    requires !Maintains(op) && !Varies(op)
    ensures var (slot, answer) := Outcome(op, At(before, op.key));
            Answers(op, before, answer, Put(before, op.key, slot))
  {
  }

  // ---------- Runs ----------

  ghost predicate IsRun<V>(states: seq<Data<V>>, ops: seq<Op<V>>, answers: seq<Answer<V>>) {
    && |states| == |ops| + 1 && |answers| == |ops|
    && forall i :: 0 <= i < |ops| ==> Answers(ops[i], states[i], answers[i], states[i + 1])
  }

  lemma RunExtends<V>(states: seq<Data<V>>, ops: seq<Op<V>>, answers: seq<Answer<V>>,
                      op: Op<V>, answer: Answer<V>, after: Data<V>)
    requires IsRun(states, ops, answers) && Answers(op, states[|ops|], answer, after)
    ensures IsRun(states + [after], ops + [op], answers + [answer])
  {
    var longer, ops', answers' := states + [after], ops + [op], answers + [answer];
    forall i | 0 <= i < |ops'| ensures Answers(ops'[i], longer[i], answers'[i], longer[i + 1]) {
      if i < |ops| {
        assert Answers(ops[i], states[i], answers[i], states[i + 1]);
      }
    }
  }

  lemma RunPrefix<V>(states: seq<Data<V>>, ops: seq<Op<V>>, answers: seq<Answer<V>>)
    requires IsRun(states, ops, answers) && |ops| > 0
    ensures IsRun(states[..|ops|], ops[..|ops| - 1], answers[..|ops| - 1])
    ensures Answers(ops[|ops| - 1], states[|ops| - 1], answers[|ops| - 1], states[|ops|])
  {
  }

  // ---------- The store runs them ----------

  method ApplyToItem<V(==)>(store: ShardedMemoryStore<V>, op: Op<V>) returns (answer: Answer<V>)
    requires store.Valid() && (op.SetItem? || op.GetItem? || op.Drop? || op.HasKey? || op.SetIfFree?)
    modifies store`cells, store`flat, store.shards
    ensures store.Valid() && Answers(op, old(store.flat), answer, store.flat)
  {
    ActsOnSlot(op, store.flat);
    match op
    case SetItem(key, value, ttl, now) =>
      store.Set(key, value, ttl, now);
      answer := Done;
    case GetItem(key, now) =>
      var r := store.Get(key, now);
      answer := Got(r);
    case Drop(key) =>
      store.Delete(key);
      answer := Done;
    case HasKey(key, now) =>
      var found := store.Exists(key, now);
      answer := Found(found);
    case SetIfFree(key, value, ttl, now) =>
      var stored := store.SetNX(key, value, ttl, now);
      answer := Found(stored);
  }

  method ApplyToHash<V(==)>(store: ShardedMemoryStore<V>, op: Op<V>) returns (answer: Answer<V>)
    requires store.Valid() && (op.SetFields? || op.GetFields? || op.Increment?)
    modifies store`cells, store`flat, store.shards
    ensures store.Valid() && Answers(op, old(store.flat), answer, store.flat)
  {
    ActsOnSlot(op, store.flat);
    match op
    case SetFields(key, fields) =>
      var r := store.HSet(key, fields);
      answer := Ack(r);
    case GetFields(key) =>
      PutBack(store.flat, key);
      var r := store.HGetAll(key);
      answer := Fields(r);
    case Increment(key, field, incr) =>
      var r := store.HIncrBy(key, field, incr);
      answer := Number(r);
  }

  method ApplyToListOrSet<V(==)>(store: ShardedMemoryStore<V>, op: Op<V>) returns (answer: Answer<V>)
    requires store.Valid() && (op.Push? || op.RemoveValue? || op.RotateList? || op.AddMembers?)
    modifies store`cells, store`flat, store.shards
    ensures store.Valid() && Answers(op, old(store.flat), answer, store.flat)
  {
    ActsOnSlot(op, store.flat);
    match op
    case Push(key, values) =>
      var r := store.LPush(key, values);
      answer := Ack(r);
    case RemoveValue(key, count, text) =>
      var r := store.LRem(key, count, text);
      answer := Ack(r);
    case RotateList(key) =>
      var r := store.Rotate(key);
      answer := Text(r);
    case AddMembers(key, members) =>
      var r := store.SAdd(key, members);
      answer := Ack(r);
  }

  method PopFromSet<V(==)>(store: ShardedMemoryStore<V>, op: Op<V>) returns (answer: Answer<V>)
    requires store.Valid() && op.PopSome?
    modifies store`cells, store`flat, store.shards
    ensures store.Valid() && Answers(op, old(store.flat), answer, store.flat)
  {
    PutBack(store.flat, op.key);
    var r := store.SPopN(op.key, op.size);
    answer := Texts(r);
  }

  method ApplyToSortedSet<V(==)>(store: ShardedMemoryStore<V>, op: Op<V>) returns (answer: Answer<V>)
    requires store.Valid()
    requires op.AddScored? || op.RemoveScored? || op.RemoveByScore?
    modifies store`cells, store`flat, store`zsets, store.shards, store.zsets
    ensures store.Valid() && Answers(op, old(store.flat), answer, store.flat)
    ensures fresh(store.zsets - old(store.zsets))
  {
    ActsOnSlot(op, store.flat);
    match op
    case AddScored(key, added) =>
      var r := store.ZAdd(key, added);
      answer := Ack(r);
    case RemoveScored(key, names) =>
      var r := store.ZRem(key, names);
      answer := Ack(r);
    case RemoveByScore(key, min, max) =>
      var r := store.ZRemRangeByScore(key, min, max);
      answer := Number(match r case Ok(n) => Ok(n) case Err(e) => Err(e));
  }

  method ReadSortedSet<V(==)>(store: ShardedMemoryStore<V>, op: Op<V>) returns (answer: Answer<V>)
    requires store.Valid() && (op.ReadByScore? || op.ReadByPosition?)
    modifies store.zsets
    ensures store.Valid() && Answers(op, store.flat, answer, store.flat)
  {
    PutBack(store.flat, op.key);
    match op
    case ReadByScore(key, min, max) =>
      var r := store.ZRangeByScore(key, min, max);
      answer := Texts(r);
    case ReadByPosition(key, start, stop) =>
      var r := store.ZRange(key, start, stop);
      answer := Texts(r);
  }

  method Apply<V(==)>(store: ShardedMemoryStore<V>, op: Op<V>) returns (answer: Answer<V>)
    requires store.Valid()
    modifies store, store.shards, store.zsets
    ensures store.Valid() && Answers(op, old(store.flat), answer, store.flat)
    ensures fresh(store.zsets - old(store.zsets))
    ensures fresh((set s | s in store.shards) - old(set s | s in store.shards))
  {
    if op.Reconfigured? {
      var r := store.Reconfigure(op.config, op.now);
      answer := Configured(r);
    } else if op.Collected? {
      store.PerformGC(op.now);
      answer := Done;
    } else if op.SetItem? || op.GetItem? || op.Drop? || op.HasKey? || op.SetIfFree? {
      answer := ApplyToItem(store, op);
    } else if op.SetFields? || op.GetFields? || op.Increment? {
      answer := ApplyToHash(store, op);
    } else if op.PopSome? {
      answer := PopFromSet(store, op);
    } else if op.Push? || op.RemoveValue? || op.RotateList? || op.AddMembers? {
      answer := ApplyToListOrSet(store, op);
    } else if op.ReadByScore? || op.ReadByPosition? {
      answer := ReadSortedSet(store, op);
    } else {
      answer := ApplyToSortedSet(store, op);
    }
  }

  /** Every run of the sharded store is a run of the flat map. */
  method Replay<V(==)>(store: ShardedMemoryStore<V>, ops: seq<Op<V>>)
    returns (answers: seq<Answer<V>>, ghost states: seq<Data<V>>)
    requires store.Valid()
    modifies store, store.shards, store.zsets
    ensures store.Valid() && IsRun(states, ops, answers)
    ensures states[0] == old(store.flat) && states[|ops|] == store.flat
    ensures fresh(store.zsets - old(store.zsets))
    ensures fresh((set s | s in store.shards) - old(set s | s in store.shards))
  {
    answers, states := [], [store.flat];
    for i := 0 to |ops|
      invariant store.Valid() && IsRun(states, ops[..i], answers)
      invariant states[0] == old(store.flat) && states[i] == store.flat
      invariant fresh(store.zsets - old(store.zsets))
      invariant fresh((set s | s in store.shards) - old(set s | s in store.shards))
    {
      var answer := Apply(store, ops[i]);
      RunExtends(states, ops[..i], answers, ops[i], answer, store.flat);
      assert ops[..i + 1] == ops[..i] + [ops[i]];
      answers, states := answers + [answer], states + [store.flat];
    }
    assert ops[..|ops|] == ops;
  }
}
