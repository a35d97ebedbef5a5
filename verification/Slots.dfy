/**
 What a store keeps under one key, and what each key-addressed operation does to it.  Both the plain
 and the sharded store are proved against these functions, so they answer alike.
 */
module Slots {
  import opened Wrappers
  import opened Decimal
  import opened Lists
  import SortedSets

  datatype StoreError = NotFound | TypeMismatch | NotInteger | NotImplemented

  datatype Value<V> =
    | Item(value: V, expiresAt: int)
    | Hash(fields: map<string, string>)
    | List(items: seq<string>)
    | Set(members: set<string>)
    | SortedSet(scores: map<string, real>)

  type Slot<V> = Option<Value<V>>

  type Data<V> = map<string, Value<V>>

  type Reply<T> = Result<T, StoreError>

  function At<V>(data: Data<V>, key: string): Slot<V> {
    if key in data then Some(data[key]) else None
  }

  function Put<V>(data: Data<V>, key: string, slot: Slot<V>): Data<V> {
    match slot
    case Some(v) => data[key := v]
    case None => data - {key}
  }

  // ---------- Plain items ----------

  function NewItem<V>(value: V, ttl: int, now: int): Value<V> {
    Item(value, if ttl > 0 then now + ttl else 0)
  }

  predicate Expired<V>(v: Value<V>, now: int) {
    v.Item? && v.expiresAt > 0 && now > v.expiresAt
  }

  /** Reading a slot drops an item whose time has passed. */
  function Refreshed<V>(slot: Slot<V>, now: int): Slot<V> {
    if slot.Some? && Expired(slot.value, now) then None else slot
  }

  function GetReply<V>(slot: Slot<V>, now: int): Reply<V> {
    match Refreshed(slot, now)
    case None => Err(NotFound)
    case Some(Item(value, _)) => Ok(value)
    case Some(_) => Err(TypeMismatch)
  }

  /** An item blocks SetNX until its expiry instant, and no longer at that instant. */
  predicate Blocks<V>(slot: Slot<V>, now: int) {
    slot.Some? && (slot.value.Item? ==> slot.value.expiresAt == 0 || now < slot.value.expiresAt)
  }

  function SetNX<V>(slot: Slot<V>, value: V, ttl: int, now: int): Slot<V> {
    if Blocks(slot, now) then slot else Some(NewItem(value, ttl, now))
  }

  /** An item set at `now` is read until its time, and at no later time. */
  lemma ReadableUntilExpiry<V>(value: V, ttl: int, now: int, later: int)
    requires now >= 0
    ensures GetReply(Some(NewItem(value, ttl, now)), later) == Ok(value) <==> ttl <= 0 || later <= now + ttl
    ensures GetReply(Some(NewItem(value, ttl, now)), later) == Err(NotFound) <==> ttl > 0 && later > now + ttl
  {
  }

  /**
   While an item can be read, SetNX does not replace it, except at its very expiry instant: there it can
   still be read, and SetNX succeeds all the same.
   */
  lemma SetNXRespectsReaders<V>(value: V, ttl: int, now: int, other: V, ttl': int, later: int)
    requires now >= 0
    ensures var slot := Some(NewItem(value, ttl, now));
            GetReply(slot, later).Ok? && SetNX(slot, other, ttl', later) != slot ==> ttl > 0 && later == now + ttl
    ensures var slot := Some(NewItem(value, ttl, now));
            GetReply(slot, later).Ok? && !Blocks(slot, later) <==> ttl > 0 && later == now + ttl
  {
  }

  /**
   What Get answers: an item's value until and at its expiry instant, or for ever without one; a type
   mismatch for anything else; and not found for nothing or an expired item.
   */
  lemma GetAnswers<V>(slot: Slot<V>, now: int, value: V)
    ensures GetReply(slot, now) == Ok(value) <==>
            exists e: int :: slot == Some(Item(value, e)) && (e <= 0 || now <= e)
    ensures GetReply(slot, now) == Err(TypeMismatch) <==> slot.Some? && !slot.value.Item?
    ensures GetReply(slot, now) == Err(NotFound) <==>
            slot == None || (slot.value.Item? && 0 < slot.value.expiresAt < now)
  {
    if GetReply(slot, now) == Ok(value) {
      assert slot == Some(Item(value, slot.value.expiresAt));
    }
  }

  /**
   After SetNX: where nothing blocked it the new value reads until its own expiry instant; otherwise the
   slot is what it was.  Only an item that no longer lives past `now` does not block.
   */
  lemma SetNXStores<V>(slot: Slot<V>, value: V, ttl: int, now: int, later: int)
    requires now >= 0
    ensures SetNX(slot, value, ttl, now) == slot
            || (GetReply(SetNX(slot, value, ttl, now), later) == Ok(value) <==> ttl <= 0 || later <= now + ttl)
    ensures slot == None || (slot.value.Item? && slot.value.expiresAt != 0 && slot.value.expiresAt <= now) ==>
              (GetReply(SetNX(slot, value, ttl, now), later) == Ok(value) <==> ttl <= 0 || later <= now + ttl)
    ensures slot.Some? && (slot.value.Item? ==> slot.value.expiresAt == 0 || now < slot.value.expiresAt) ==>
              SetNX(slot, value, ttl, now) == slot
  {
  }

  /** An item with value 1 expires at second 10: then it still reads as 1, and a SetNX of 2 replaces it. */
  lemma SetNXAtExpiryExample()
    ensures var slot := Some(NewItem(1, 10, 0));
            GetReply(slot, 10) == Ok(1) && GetReply(SetNX(slot, 2, 0, 10), 10) == Ok(2)
  {
  }

  /**
   Collecting an expired item does not change what later reads or SetNX see.  The typed operations do
   see it, exactly when something was collected: before, they report a type mismatch.
   */
  lemma CollectionIsInvisibleToReads<V>(slot: Slot<V>, now: int, later: int)
    requires now <= later
    ensures GetReply(Refreshed(slot, now), later) == GetReply(slot, later)
    ensures Refreshed(Refreshed(slot, now), later) == Refreshed(slot, later)
    ensures Blocks(Refreshed(slot, now), later) <==> Blocks(slot, later)
    ensures FieldsOf(Refreshed(slot, now)) == FieldsOf(slot) <==> Refreshed(slot, now) == slot
  {
  }

  // ---------- Hashes ----------

  function FieldsOf<V>(slot: Slot<V>): Reply<map<string, string>> {
    match slot
    case None => Ok(map[])
    case Some(Hash(fields)) => Ok(fields)
    case Some(_) => Err(TypeMismatch)
  }

  function HSet<V>(slot: Slot<V>, fields: map<string, string>): (Slot<V>, Reply<()>) {
    match FieldsOf(slot)
    case Ok(was) => (Some(Hash(was + fields)), Ok(()))
    case Err(e) => (slot, Err(e))
  }

  /** Fields set read back as set, every other field as before; a slot of another type stays and is an error. */
  lemma FieldsAfterSet<V>(slot: Slot<V>, fields: map<string, string>, f: string)
    ensures var (slot', r) := HSet(slot, fields);
            if slot.Some? && !slot.value.Hash? then slot' == slot && r == Err(TypeMismatch)
            else
              && r == Ok(()) && slot'.Some? && slot'.value.Hash?
              && (f in slot'.value.fields <==> f in fields || (slot.Some? && f in slot.value.fields))
              && (f in fields ==> slot'.value.fields[f] == fields[f])
              && (slot.Some? && f in slot.value.fields && f !in fields ==>
                    slot'.value.fields[f] == slot.value.fields[f])
  {
  }

  /** The plain store drops the parse error: text that is no integer counts as zero. */
  function HIncrBy<V>(slot: Slot<V>, field: string, incr: int): (Slot<V>, Reply<int>) {
    match FieldsOf(slot)
    case Ok(was) =>
      var n := (if field in was then ParseOrZero(was[field]) else 0) + incr;
      (Some(Hash(was[field := FormatInt(n)])), Ok(n))
    case Err(e) => (slot, Err(e))
  }

  /** The sharded store reports the parse error and leaves the hash alone. */
  function HIncrByChecked<V>(slot: Slot<V>, field: string, incr: int): (Slot<V>, Reply<int>) {
    match FieldsOf(slot)
    case Ok(was) =>
      if field in was && ParseLenient(was[field]) == None then (slot, Err(NotInteger))
      else
        var n := (if field in was then ParseLenient(was[field]).value else 0) + incr;
        (Some(Hash(was[field := FormatInt(n)])), Ok(n))
    case Err(e) => (slot, Err(e))
  }

  /** The two stores count alike exactly when the sharded one accepts the field's text. */
  lemma CountersAgree<V>(slot: Slot<V>, field: string, incr: int)
    ensures HIncrByChecked(slot, field, incr) == HIncrBy(slot, field, incr)
            <==> !(slot.Some? && slot.value.Hash? && field in slot.value.fields
                   && ParseLenient(slot.value.fields[field]) == None)
  {
    if slot.Some? && slot.value.Hash? && field in slot.value.fields {
      ReadersAgree(slot.value.fields[field]);
    }
  }

  /** A field with the text "abc": the plain store overwrites it with 5, the sharded one reports an error. */
  lemma UnreadableCounterExample<V>()
    ensures var slot: Slot<V> := Some(Hash(map["n" := "abc"]));
            && HIncrBy(slot, "n", 5) == (Some(Hash(map["n" := "5"])), Ok(5))
            && HIncrByChecked(slot, "n", 5) == (slot, Err(NotInteger))
  {
    assert Unsigned("abc") == "abc" && !IsDigit("abc"[0]);
    assert map["n" := "abc"]["n" := "5"] == map["n" := "5"];
  }

  function Total(incrs: seq<int>): int {
    if incrs == [] then 0 else Total(incrs[..|incrs| - 1]) + incrs[|incrs| - 1]
  }

  function IncrementAll<V>(slot: Slot<V>, field: string, incrs: seq<int>): Slot<V> {
    if incrs == [] then slot
    else HIncrByChecked(IncrementAll(slot, field, incrs[..|incrs| - 1]), field, incrs[|incrs| - 1]).0
  }

  /** What a counter decodes to: 0 while there is no such field or no hash; nothing if it cannot be counted on. */
  function CounterAt<V>(slot: Slot<V>, field: string): Option<int> {
    match FieldsOf(slot)
    case Ok(fields) => if field in fields then ParseLenient(fields[field]) else Some(0)
    case Err(_) => None
  }

  lemma CounterStep<V>(slot: Slot<V>, field: string, incr: int)
    ensures var (slot', reply) := HIncrByChecked(slot, field, incr); var before := CounterAt(slot, field);
            if before == None then slot' == slot && reply.Err?
            else
              && reply == Ok(before.value + incr) && CounterAt(slot', field) == Some(before.value + incr)
              && FieldsOf(slot').Ok? && FieldsOf(slot').value - {field} == FieldsOf(slot).value - {field}
  {
    if CounterAt(slot, field).Some? {
      RoundTrip(CounterAt(slot, field).value + incr);
    }
  }

  /**
   A counter always decodes to its initial value plus every increment, whatever their signs and whether or
   not the field existed; the other fields stay.  A field that is no integer, or no field, stays too.
   */
  lemma {:induction false} CounterIsRunningTotal<V>(slot: Slot<V>, field: string, incrs: seq<int>)
    ensures var after := IncrementAll(slot, field, incrs); var start := CounterAt(slot, field);
            if start == None then after == slot
            else
              && CounterAt(after, field) == Some(start.value + Total(incrs))
              && FieldsOf(after).Ok? && FieldsOf(after).value - {field} == FieldsOf(slot).value - {field}
  {
    if incrs != [] {
      CounterIsRunningTotal(slot, field, incrs[..|incrs| - 1]);
      CounterStep(IncrementAll(slot, field, incrs[..|incrs| - 1]), field, incrs[|incrs| - 1]);
    }
  }

  // ---------- Lists ----------

  function ItemsOf<V>(slot: Slot<V>): Reply<seq<string>> {
    match slot
    case None => Ok([])
    case Some(List(items)) => Ok(items)
    case Some(_) => Err(TypeMismatch)
  }

  function LPush<V>(slot: Slot<V>, values: seq<string>): (Slot<V>, Reply<()>) {
    match ItemsOf(slot)
    case Ok(items) => (Some(List(values + items)), Ok(()))
    case Err(e) => (slot, Err(e))
  }

  /** Only count 0 (every occurrence) is implemented; a missing list stays missing. */
  function LRem<V>(slot: Slot<V>, count: int, value: string): (Slot<V>, Reply<()>) {
    match slot
    case None => (None, Ok(()))
    case Some(List(items)) =>
      if count != 0 then (slot, Err(NotImplemented)) else (Some(List(Without(items, value))), Ok(()))
    case Some(_) => (slot, Err(TypeMismatch))
  }

  function Rotate<V>(slot: Slot<V>): (Slot<V>, Reply<string>) {
    match slot
    case None => (slot, Err(NotFound))
    case Some(List(items)) =>
      if items == [] then (slot, Err(NotFound)) else (Some(List(Rotated(items))), Ok(items[|items| - 1]))
    case Some(_) => (slot, Err(TypeMismatch))
  }

  /**
   A list is a queue: what is pushed stands in front, in argument order, and what is rotated out stood last;
   removal keeps the order of the rest.  A slot of another type stays and is an error.
   */
  lemma QueueOrder<V>(slot: Slot<V>, values: seq<string>, i: nat)
    ensures var (slot', r) := LPush(slot, values);
            if slot.Some? && !slot.value.List? then slot' == slot && r == Err(TypeMismatch)
            else
              && r == Ok(()) && slot'.Some? && slot'.value.List?
              && var was := if slot.Some? then slot.value.items else [];
                 && |slot'.value.items| == |values| + |was|
                 && (i < |values| ==> slot'.value.items[i] == values[i])
                 && (i < |was| ==> slot'.value.items[|values| + i] == was[i])
                 && (was != [] ==> Rotate(slot').1 == Ok(was[|was| - 1]))
                 && (was == [] && values != [] ==> Rotate(slot').1 == Ok(values[|values| - 1]))
  {
  }

  // ---------- Sets and sorted sets ----------

  function MembersOf<V>(slot: Slot<V>): Reply<set<string>> {
    match slot
    case None => Ok({})
    case Some(Set(members)) => Ok(members)
    case Some(_) => Err(TypeMismatch)
  }

  function SAdd<V>(slot: Slot<V>, members: seq<string>): (Slot<V>, Reply<()>) {
    match MembersOf(slot)
    case Ok(was) => (Some(Set(was + set m | m in members)), Ok(()))
    case Err(e) => (slot, Err(e))
  }

  /** A pop takes min(count, size) members, none twice. */
  ghost predicate Pops<V>(slot: Slot<V>, count: nat, r: Reply<seq<string>>) {
    match MembersOf(slot)
    case Err(e) => r == Err(e)
    case Ok(members) =>
      && r.Ok? && NoDuplicates(r.value) && (forall m :: m in r.value ==> m in members)
      && |r.value| == if count < |members| then count else |members|
  }

  /** What popping `popped` out of a set leaves; a missing set stays missing. */
  function AfterPop<V>(slot: Slot<V>, popped: seq<string>): Slot<V> {
    match slot
    case Some(Set(members)) => Some(Set(members - set m | m in popped))
    case _ => slot
  }

  function ScoresOf<V>(slot: Slot<V>): Reply<map<string, real>> {
    match slot
    case None => Ok(map[])
    case Some(SortedSet(scores)) => Ok(scores)
    case Some(_) => Err(TypeMismatch)
  }

  function ZAdd<V>(slot: Slot<V>, added: seq<(string, real)>): (Slot<V>, Reply<()>) {
    match ScoresOf(slot)
    case Ok(was) => (Some(SortedSet(SortedSets.Scoring(was, added))), Ok(()))
    case Err(e) => (slot, Err(e))
  }

  /** Scores after ZAdd and then ZRem of `names`: see Rescored for the former; the names are gone, the rest stays. */
  lemma ScoresAfter<V>(slot: Slot<V>, added: seq<(string, real)>, names: seq<string>)
    requires ScoresOf(slot).Ok?
    ensures var was := ScoresOf(slot).value; var (slot', r) := ZAdd(slot, added);
            && r == Ok(()) && ScoresOf(slot').Ok? && SortedSets.Rescored(was, added, ScoresOf(slot').value)
            && var scores := ScoresOf(slot').value;
               var left := ScoresOf(ZRem(slot', names).0).value;
               && (forall m :: m in left <==> m in scores && m !in names)
               && (forall m :: m in left ==> left[m] == scores[m])
  {
    SortedSets.ScoringRescores(ScoresOf(slot).value, added);
  }

  function ZRem<V>(slot: Slot<V>, names: seq<string>): (Slot<V>, Reply<()>) {
    match slot
    case None => (None, Ok(()))
    case Some(SortedSet(was)) => (Some(SortedSet(was - set m | m in names)), Ok(()))
    case Some(_) => (slot, Err(TypeMismatch))
  }

  function ZRemRangeByScore<V>(slot: Slot<V>, min: real, max: real): (Slot<V>, Reply<nat>) {
    match slot
    case None => (None, Ok(0))
    case Some(SortedSet(was)) =>
      var left := SortedSets.OutOfRange(was, min, max);
      SortedSets.OutOfRangeIsSmaller(was, min, max);
      (Some(SortedSet(left)), Ok(|was| - |left|))
    case Some(_) => (slot, Err(TypeMismatch))
  }
}
