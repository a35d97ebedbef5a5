/** The single-map in-memory store: the operations the key pool and the log buffer run on. */
module MemoryStores {
  import opened Wrappers
  import opened Decimal
  import opened Lists
  import opened Slots

  class MemoryStore<V(==)> {
    var data: Data<V>

    constructor ()
      ensures data == map[]
    {
      data := map[];
    }

    method Set(key: string, value: V, ttl: int, now: int)
      modifies this
      ensures data == old(data)[key := NewItem(value, ttl, now)]
    {
      var expiresAt := 0;
      if ttl > 0 {
        expiresAt := now + ttl;
      }
      data := data[key := Item(value, expiresAt)];
    }

    method Get(key: string, now: int) returns (r: Reply<V>)
      modifies this
      ensures r == GetReply(old(At(data, key)), now)
      ensures data == Put(old(data), key, Refreshed(old(At(data, key)), now))
    {
      if key !in data {
        return Err(NotFound);
      }
      var item := data[key];
      if !item.Item? {
        return Err(TypeMismatch);
      }
      if item.expiresAt > 0 && now > item.expiresAt {
        data := data - {key};
        return Err(NotFound);
      }
      return Ok(item.value);
    }

    method Delete(key: string)
      modifies this
      ensures data == old(data) - {key}
    {
      data := data - {key};
    }

    method Del(keys: seq<string>)
      modifies this
      ensures data == old(data) - set k | k in keys
    {
      for i := 0 to |keys|
        invariant data == old(data) - set k | k in keys[..i]
      {
        data := data - {keys[i]};
        assert keys[..i + 1] == keys[..i] + [keys[i]];
      }
      assert keys[..|keys|] == keys;
    }

    method Exists(key: string, now: int) returns (found: bool)
      modifies this
      ensures found <==> Refreshed(old(At(data, key)), now).Some?
      ensures data == Put(old(data), key, Refreshed(old(At(data, key)), now))
    {
      if key !in data {
        return false;
      }
      var item := data[key];
      if item.Item? && item.expiresAt > 0 && now > item.expiresAt {
        data := data - {key};
        return false;
      }
      return true;
    }

    method HSet(key: string, fields: map<string, string>) returns (r: Reply<()>)
      modifies this
      ensures r == Slots.HSet(old(At(data, key)), fields).1
      ensures data == Put(old(data), key, Slots.HSet(old(At(data, key)), fields).0)
    {
      var hash := map[];
      if key in data {
        if !data[key].Hash? {
          return Err(TypeMismatch);
        }
        hash := data[key].fields;
      }
      data := data[key := Hash(hash + fields)];
      return Ok(());
    }

    method HGetAll(key: string) returns (r: Reply<map<string, string>>)
      ensures r == FieldsOf(At(data, key))
    {
      if key !in data {
        return Ok(map[]);
      }
      if !data[key].Hash? {
        return Err(TypeMismatch);
      }
      return Ok(data[key].fields);
    }

    method HIncrBy(key: string, field: string, incr: int) returns (r: Reply<int>)
      modifies this
      ensures r == Slots.HIncrBy(old(At(data, key)), field, incr).1
      ensures data == Put(old(data), key, Slots.HIncrBy(old(At(data, key)), field, incr).0)
    {
      var hash := map[];
      if key in data {
        if !data[key].Hash? {
          return Err(TypeMismatch);
        }
        hash := data[key].fields;
      }
      var current := ParseOrZero(if field in hash then hash[field] else "");
      assert ParseOrZero("") == 0;
      data := data[key := Hash(hash[field := FormatInt(current + incr)])];
      return Ok(current + incr);
    }

    method LPush(key: string, values: seq<string>) returns (r: Reply<()>)
      modifies this
      ensures r == Slots.LPush(old(At(data, key)), values).1
      ensures data == Put(old(data), key, Slots.LPush(old(At(data, key)), values).0)
    {
      var list := [];
      if key in data {
        if !data[key].List? {
          return Err(TypeMismatch);
        }
        list := data[key].items;
      }
      data := data[key := List(values + list)];
      return Ok(());
    }

    method LRem(key: string, count: int, value: string) returns (r: Reply<()>)
      modifies this
      ensures r == Slots.LRem(old(At(data, key)), count, value).1
      ensures data == Put(old(data), key, Slots.LRem(old(At(data, key)), count, value).0)
    {
      if key !in data {
        return Ok(());
      }
      if !data[key].List? {
        return Err(TypeMismatch);
      }
      if count != 0 {
        return Err(NotImplemented);
      }
      var list := data[key].items;
      var newList := [];
      for i := 0 to |list|
        invariant newList == Without(list[..i], value)
      {
        if list[i] != value {
          newList := newList + [list[i]];
        }
        assert list[..i + 1][..i] == list[..i];
      }
      assert list[..|list|] == list;
      data := data[key := List(newList)];
      return Ok(());
    }

    method Rotate(key: string) returns (r: Reply<string>)
      modifies this
      ensures r == Slots.Rotate(old(At(data, key))).1
      ensures data == Put(old(data), key, Slots.Rotate(old(At(data, key))).0)
    {
      if key !in data {
        return Err(NotFound);
      }
      if !data[key].List? {
        return Err(TypeMismatch);
      }
      var list := data[key].items;
      if |list| == 0 {
        return Err(NotFound);
      }
      var item := list[|list| - 1];
      data := data[key := List([item] + list[..|list| - 1])];
      return Ok(item);
    }

    method SAdd(key: string, members: seq<string>) returns (r: Reply<()>)
      modifies this
      ensures r == Slots.SAdd(old(At(data, key)), members).1
      ensures data == Put(old(data), key, Slots.SAdd(old(At(data, key)), members).0)
    {
      var members' := {};
      if key in data {
        if !data[key].Set? {
          return Err(TypeMismatch);
        }
        members' := data[key].members;
      }
      for i := 0 to |members|
        invariant members' == MembersOf(old(At(data, key))).value + set m | m in members[..i]
      {
        members' := members' + {members[i]};
        assert members[..i + 1] == members[..i] + [members[i]];
      }
      assert members[..|members|] == members;
      data := data[key := Slots.Set(members')];
      return Ok(());
    }

    /** Pops min(count, size) members; which ones is up to the iteration order of the set. */
    method SPopN(key: string, count: nat) returns (r: Reply<seq<string>>)
      modifies this
      ensures r.Err? <==> MembersOf(old(At(data, key))).Err?
      ensures r.Err? ==> r.error == TypeMismatch && data == old(data)
      ensures r.Ok? ==>
                var members := MembersOf(old(At(data, key))).value;
                && NoDuplicates(r.value) && (forall m :: m in r.value ==> m in members)
                && |r.value| == (if count < |members| then count else |members|)
                && data == Put(old(data), key, AfterPop(old(At(data, key)), r.value))
    {
      if key !in data {
        return Ok([]);
      }
      if !data[key].Set? {
        return Err(TypeMismatch);
      }
      var members := data[key].members;
      var popped, rest := PopMembers(members, if count > |members| then |members| else count);
      assert rest == members - set m | m in popped;
      data := data[key := Slots.Set(rest)];
      return Ok(popped);
    }
  }

  method PopMembers(members: set<string>, size: nat) returns (popped: seq<string>, rest: set<string>)
    requires size <= |members|
    ensures |popped| == size && NoDuplicates(popped)
    ensures rest <= members
    ensures forall m :: m in popped <==> m in members && m !in rest
  {
    popped, rest := [], members;
    while |popped| < size
      invariant |popped| <= size && |popped| + |rest| == |members|
      invariant rest <= members
      invariant NoDuplicates(popped)
      invariant forall m :: m in popped <==> m in members && m !in rest
    {
      var member :| member in rest;
      assert member !in popped;
      popped := popped + [member];
      rest := rest - {member};
    }
  }
}
