/** The fixed-size dictionary object of src/util/oop.h. */
module Dictionary {
  import opened Wrappers
  import opened DictTable

  class Dict<V> {
    const size: nat
    const table: array<Option<Entry<V>>>
    var counter: nat

    ghost function Contents(): Table<V>
      reads this, table
    {
      Table(table[..], counter)
    }

    ghost predicate Valid()
      reads this, table
    {
      table.Length == size && Sound(Contents())
    }

    constructor (size: nat)
      ensures Valid() && fresh(table) && this.size == size && Contents() == Init(size)
    {
      this.size := size;
      counter := 0;
      table := new Option<Entry<V>>[size](_ => None);
      new;
      assert table[..] == Init<V>(size).slots;
      InitSound<V>(size);
    }

    /** The position of the key, or -1. */
    method FindKey(check: Option<string>) returns (found: int)
      requires Valid()
      ensures found == Find(Contents(), check)
    {
      for i := 0 to counter
        invariant check.Some? ==> forall j :: 0 <= j < i ==> !Holds(table[j], check.value)
      {
        if table[i].Some? && check.Some? && table[i].value.key == check.value {
          return i;
        }
      }
      return -1;
    }

    /** Overwrites the key's entry, or fills the first free slot; -1 when a new key finds no room. */
    method SetTuple(key: Option<string>, val: V) returns (status: int)
      requires Valid()
      modifies this, table
      ensures Valid() && (Contents(), status) == Set(old(Contents()), key, val)
    {
      ghost var before := Contents();
      SetKeepsSound(before, key, val);
      var found := FindKey(key);
      if found != -1 {
        table[found] := Some(Entry(key.value, val));
        assert table[..] == before.slots[found := table[found]];
        return 0;
      }
      if counter < size {
        var i := 0;
        while i < size && table[i].Some?
          invariant 0 <= i <= FirstFree(before.slots) < size
        {
          i := i + 1;
        }
        assert before.slots[i := None] == before.slots;
        table[i] := if key.Some? then Some(Entry(key.value, val)) else None;
        counter := counter + 1;
        assert table[..] == before.slots[i := table[i]];
        return 0;
      }
      return -1;
    }

    /** The value of the key; None stands for the result (void *) -1. */
    method GetTuple(key: Option<string>) returns (val: Option<V>)
      requires Valid()
      ensures val == Get(Contents(), key)
    {
      var i := FindKey(key);
      return if i != -1 then Some(table[i].value.val) else None;
    }

    method GetIndex(index: nat) returns (val: Option<V>)
      requires Valid()
      ensures val.Some? <==> index < counter && Contents().slots[index].Some?
      ensures val.Some? ==> val.value == Contents().slots[index].value.val
    {
      return if index < counter && table[index].Some? then Some(table[index].value.val) else None;
    }

    method RemoveTuple(key: Option<string>) returns (status: int)
      requires Valid()
      modifies this, table
      ensures Valid() && (Contents(), status) == Remove(old(Contents()), key)
    {
      ghost var before := Contents();
      RemoveKeepsSound(before, key);
      var i := FindKey(key);
      if i == -1 {
        return -1;
      }
      table[i] := None;
      counter := counter - 1;
      assert table[..] == before.slots[i := None];
      return 0;
    }
  }
}
