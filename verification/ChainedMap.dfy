/** The mutable datastore map of src/coreconfTypes.c, proved against the table functions of Values.dfy. */
module ChainedMaps {
  import opened Wrappers
  import opened Values

  class ChainedMap {
    const table: array<Chain>
    var size: nat

    /** The chains as a value. */
    ghost function Chains(): Table
      reads table
    {
      table[..]
    }

    ghost predicate Valid()
      reads this, table
    {
      WellPlaced(Chains()) && size == |Contents(Chains())|
    }

    constructor ()
      ensures Valid() && fresh(table) && Chains() == NoObjects() && size == 0
    {
      table := new Chain[HASHMAP_TABLE_SIZE](_ => End);
      size := 0;
      new;
      assert table[..] == NoObjects();
      EmptyTable();
    }

    /** Returns 0, or -1 when the chain is longer than the walk limit and the key was not met within it. */
    method Insert(key: nat, value: Value) returns (status: int)
      requires Valid()
      modifies this, table
      ensures Valid()
      ensures Chains() == Put(old(Chains()), key, value).0
      ensures status == if Put(old(Chains()), key, value).1 then 0 else -1
      ensures status == 0 ==> Contents(Chains()) == old(Contents(Chains()))[key := value]
      ensures status != 0 ==> Length(old(Chains())[HashKey(key)]) > 51
      ensures var before, after := old(Chains())[HashKey(key)], Chains()[HashKey(key)];
        Order(after) == (if status == 0 && key !in Keys(before) then [key] else []) + Order(before)
    {
      hide Order, Put, Contents, HashKey, WellPlaced;
      PutOrder(Chains(), key, value);
      status := InsertObject(key, value);
    }

    method InsertObject(key: nat, value: Value) returns (status: int)
      requires Valid()
      modifies this, table
      ensures Valid()
      ensures Chains() == Put(old(Chains()), key, value).0
      ensures status == if Put(old(Chains()), key, value).1 then 0 else -1
      ensures status == 0 ==> Contents(Chains()) == old(Contents(Chains()))[key := value]
      ensures status != 0 ==> Length(old(Chains())[HashKey(key)]) > 51
    {
      ghost var t := table[..];
      var index := HashKey(key);
      var head := table[index];
      var current, loopCount := head, 0;
      PutBinds(t, key, value);
      WalkReports(head, key, 0);
      while current.Object?
        invariant WalkFrom(head, key, 0) == WalkFrom(current, key, loopCount)
        decreases current
      {
        if loopCount > CORECONF_MAX_LOOP {
          return -1;
        }
        if current.key == key {
          table[index] := Replace(head, key, value);
          assert table[..] == Put(t, key, value).0;
          GetIsLookup(t, key);
          return 0;
        }
        current, loopCount := current.next, loopCount + 1;
      }
      table[index] := Object(key, value, head);
      assert table[..] == Put(t, key, value).0;
      GetIsLookup(t, key);
      size := size + 1;
      status := 0;
    }

    /** Returns 0, or -1 when the key is not in the map. */
    method Remove(key: nat) returns (status: int)
      requires Valid()
      modifies this, table
      ensures Valid()
      ensures Chains() == Delete(old(Chains()), key)
      ensures Contents(Chains()) == old(Contents(Chains())) - {key}
      ensures status == if key in old(Contents(Chains())) then 0 else -1
      ensures var before, after := Order(old(Chains())[HashKey(key)]), Order(Chains()[HashKey(key)]);
        if status == 0
        then exists i :: 0 <= i < |before| && before[i] == key && after == before[..i] + before[i + 1..]
        else after == before
    {
      ghost var t := table[..];
      DeleteUnbinds(t, key);
      GetIsLookup(t, key);
      var index := HashKey(key);
      var head := table[index];
      var current := head;
      while current.Object?
        invariant Find(current, key) == Find(head, key)
        decreases current
      {
        if current.key == key {
          ghost var place := RemoveKeepsOrder(head, key);
          table[index] := Values.Remove(head, key);
          assert table[..] == Delete(t, key);
          if size > 0 {
            size := size - 1;
          }
          return 0;
        }
        current := current.next;
      }
      RemoveAbsent(head, key);
      assert table[..] == Delete(t, key);
      status := -1;
    }

    method Lookup(key: nat) returns (value: Option<Value>)
      requires Valid()
      ensures value == Get(Chains(), key)
      ensures value.Some? <==> key in Contents(Chains())
      ensures value.Some? ==> value.value == Contents(Chains())[key]
    {
      GetIsLookup(table[..], key);
      var current := table[HashKey(key)];
      while current.Object?
        invariant Find(current, key) == Get(table[..], key)
        decreases current
      {
        if current.key == key {
          return Some(current.value);
        }
        current := current.next;
      }
      value := None;
    }
  }
}
