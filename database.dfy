/** The catalog of tables (`DataBase` in db.py): a registry from table name
    to table, and the order in which the names were registered. db.py keeps
    the registry in a class attribute shared by every DataBase object; here
    it is the state of one DataBase object. */
module Catalog {
  import opened PyValues
  import opened RecordOps
  import opened Tables

  /** Removing a name from a list without repetitions leaves a list without repetitions. */
  lemma {:induction false} WithoutKeepsNoDup(s: seq<string>, x: string)
    requires NoDup(s)
    ensures NoDup(Without(s, x))
  {
    if s != [] {
      assert s == [s[0]] + s[1..];
      NoDupCons(s[0], s[1..]);
      WithoutKeepsNoDup(s[1..], x);
      if s[0] != x {
        NoDupCons(s[0], Without(s[1..], x));
      }
    }
  }

  /** A list without repetitions has as many elements as its set of elements. */
  lemma {:induction false} NoDupSize(s: seq<string>)
    requires NoDup(s)
    ensures |set y | y in s| == |s|
  {
    if s != [] {
      assert s == [s[0]] + s[1..];
      NoDupCons(s[0], s[1..]);
      NoDupSize(s[1..]);
      assert (set y | y in s) == (set y | y in s[1..]) + {s[0]};
    }
  }

  class DataBase {
    /** Table name to table. */
    var tables: map<string, DBTable>
    /** The registered names in the order they were created. */
    var names: seq<string>

    /** The order list holds each registered name once, and each table is
        registered under its own name. */
    ghost predicate Valid()
      reads this
    {
      && NoDup(names)
      && (forall n :: n in names <==> n in tables)
      && (forall n :: n in tables ==> tables[n].name == n)
    }

    constructor ()
      ensures Valid() && tables == map[] && names == []
    {
      tables := map[];
      names := [];
    }

    /** `create_table(name, fields, key_field_name)`: ValueError when the
        name is taken; otherwise a new table with no records is registered
        under the name, which goes to the end of the order. The key field is
        not checked against the fields. */
    method CreateTable(name: string, fields: seq<string>, keyField: string) returns (r: Result<DBTable>)
      requires Valid()
      modifies this
      ensures Valid()
      ensures name in old(tables) ==> r == Failure(ValueError) && tables == old(tables) && names == old(names)
      ensures name !in old(tables) ==>
                && r.Success? && fresh(r.value)
                && r.value.name == name && r.value.fields == fields && r.value.keyField == keyField
                && r.value.rows == map[]
                && tables == old(tables)[name := r.value]
                && names == old(names) + [name]
    {
      if name in tables {
        return Failure(ValueError);
      }
      var table := new DBTable(name, fields, keyField);
      NoDupCons(name, []);
      tables := tables[name := table];
      names := names + [name];
      assert forall i :: 0 <= i < |old(names)| ==> names[i] == old(names)[i];
      r := Success(table);
    }

    /** `num_tables`: the number of registered tables, which is also the
        length of the name list. */
    method NumTables() returns (n: nat)
      requires Valid()
      ensures n == |tables| && n == |names|
    {
      n := |tables|;
      NoDupSize(names);
      assert tables.Keys == set y | y in names;
    }

    /** `get_table(name)`: the table registered under the name, or ValueError. */
    method GetTable(name: string) returns (r: Result<DBTable>)
      requires Valid()
      ensures r.Success? <==> name in tables
      ensures r.Success? ==> r.value == tables[name] && r.value.name == name
      ensures r.Failure? ==> r.error == ValueError
    {
      if name in tables {
        return Success(tables[name]);
      }
      r := Failure(ValueError);
    }

    /** `delete_table(name)`: ValueError when the name is not registered;
        otherwise the name, and only that name, leaves the registry and the
        order. */
    method DeleteTable(name: string) returns (outcome: Outcome)
      requires Valid()
      modifies this
      ensures Valid()
      ensures name !in old(tables) ==> outcome == Fail(ValueError) && tables == old(tables) && names == old(names)
      ensures name in old(tables) ==>
                && outcome == Ok
                && tables == old(tables) - {name}
                && names == Without(old(names), name)
    {
      if name !in tables {
        return Fail(ValueError);
      }
      WithoutKeepsNoDup(names, name);
      tables := tables - {name};
      names := Without(names, name);
      outcome := Ok;
    }

    /** `get_tables_names`: every registered name once, in creation order. */
    method GetTablesNames() returns (r: seq<string>)
      requires Valid()
      ensures r == names
      ensures NoDup(r) && forall n :: n in r <==> n in tables
    {
      r := names;
    }
  }
}
