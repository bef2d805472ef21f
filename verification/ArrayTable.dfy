/** The table of a JSON array (jansson/value.c): a growable block of slots that behaves as a sequence. */
module ArrayTable {
  function Max(a: nat, b: nat): nat { if a > b then a else b }

  /** json_array_t; the size field is the length of the table. */
  class ArrayTable<T(0)> {
    var table: array<T>
    var entries: nat

    ghost predicate Valid()
      reads `table, `entries
    {
      entries <= table.Length && table.Length >= 8
    }

    /** The elements, in order. */
    ghost function Elems(): seq<T>
      reads this, table
      requires Valid()
    {
      table[..entries]
    }

    /** json_array */
    constructor ()
      ensures Valid() && Elems() == [] && fresh(table)
    {
      table := new T[8];
      entries := 0;
    }

    /**
     * json_array_grow: makes room for more slots. Without copy the new table is left to the caller to
     * fill from the old one, which it gets back.
     */
    method Grow(amount: nat, copy: bool) returns (oldTable: array<T>)
      requires Valid()
      modifies `table
      ensures Valid() && entries + amount <= table.Length && (table == old(table) || fresh(table))
      ensures table == old(table) <==> entries + amount <= old(table).Length
      ensures table != old(table) ==>
        table.Length == old(table).Length + if amount > old(table).Length then amount else old(table).Length
      ensures oldTable == if copy then table else old(table)
      ensures copy ==> Elems() == old(Elems())
    {
      if entries + amount <= table.Length {
        return table;
      }
      oldTable := table;
      var newSize := Max(table.Length + amount, table.Length * 2);
      table := new T[newSize];
      if copy {
        forall i | 0 <= i < entries {
          table[i] := oldTable[i];
        }
        return table;
      }
    }

    /** json_array_append_new */
    method Append(value: T)
      requires Valid()
      modifies this, table
      ensures Valid() && Elems() == old(Elems()) + [value] && (table == old(table) || fresh(table))
    {
      var oldTable := Grow(1, true);
      table[entries] := value;
      entries := entries + 1;
    }

    /** json_array_set_new */
    method Set(index: nat, value: T) returns (ok: bool)
      requires Valid()
      modifies table
      ensures Valid() && (ok <==> index < entries)
      ensures Elems() == if ok then old(Elems())[index := value] else old(Elems())
    {
      if index >= entries {
        return false;
      }
      table[index] := value;
      ok := true;
    }

    /** json_array_insert_new: into a new table in two parts, or by moving the tail up in place. */
    method Insert(index: nat, value: T) returns (ok: bool)
      requires Valid()
      modifies this, table
      ensures Valid() && (ok <==> index <= old(entries)) && (table == old(table) || fresh(table))
      ensures Elems() == if ok then old(Elems())[..index] + [value] + old(Elems())[index..] else old(Elems())
    {
      if index > entries {
        return false;
      }
      ghost var elems := Elems();
      var oldTable := Grow(1, false);
      if oldTable != table {
        forall i | 0 <= i < index {
          table[i] := oldTable[i];
        }
        forall i | index <= i < entries {
          table[i + 1] := oldTable[i];
        }
      } else {
        forall i | index < i <= entries {
          table[i] := table[i - 1];
        }
      }
      table[index] := value;
      entries := entries + 1;
      assert Elems() == elems[..index] + [value] + elems[index..];
      ok := true;
    }

    /** json_array_remove */
    method Remove(index: nat) returns (ok: bool)
      requires Valid()
      modifies `entries, table
      ensures Valid() && (ok <==> index < old(entries))
      ensures Elems() == if ok then old(Elems())[..index] + old(Elems())[index + 1..] else old(Elems())
    {
      if index >= entries {
        return false;
      }
      if index < entries - 1 {
        forall i | index <= i < entries - 1 {
          table[i] := table[i + 1];
        }
      }
      entries := entries - 1;
      ok := true;
    }

    /** json_array_clear: the table keeps its size. */
    method Clear()
      requires Valid()
      modifies `entries
      ensures Valid() && Elems() == []
    {
      entries := 0;
    }

    /** json_array_extend, also of an array by itself. */
    method Extend(other: ArrayTable<T>)
      requires Valid() && other.Valid() && (other == this || other.table != table)
      modifies this, table
      ensures Valid() && Elems() == old(Elems()) + old(other.Elems()) && (table == old(table) || fresh(table))
      ensures other != this ==> other.Elems() == old(other.Elems())
    {
      ghost var elems, others := Elems(), other.Elems();
      var oldTable := Grow(other.entries, true);
      var count := other.entries;
      forall i | 0 <= i < count {
        table[entries + i] := other.table[i];
      }
      entries := entries + count;
      assert Elems() == elems + others;
    }
  }
}
