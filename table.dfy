/** One table of the store (`DBTable` in db.py). Its rows live in a field
    that the operations reassign step by step, as db.py does to the dict it
    keeps in the table's shelve file; each method is proved to leave exactly
    the state the matching function of RecordOps describes. */
module Tables {
  import opened PyValues
  import opened RecordOps

  class DBTable {
    const name: string
    /** The schema's field names, in declaration order. */
    const fields: seq<string>
    const keyField: string
    /** Record key to the stored row (see `RecordOps.Rows`). */
    var rows: Rows

    /** A new table holds no records (create_table writes an empty dict). */
    constructor (name: string, fields: seq<string>, keyField: string)
      ensures this.name == name && this.fields == fields && this.keyField == keyField
      ensures rows == map[]
    {
      this.name := name;
      this.fields := fields;
      this.keyField := keyField;
      rows := map[];
    }

    /** `count`: the number of stored records, empty ones included. */
    method Count() returns (n: nat)
      ensures n == |rows|
    {
      n := |rows|;
    }

    /** `insert_record(values)`. `rest` is the caller's `values` dict as the
        call leaves it, with every processed non-key field popped. */
    method InsertRecord(values: map<string, Value>) returns (outcome: Outcome, rest: map<string, Value>)
      modifies this
      ensures outcome == Insert(fields, keyField, old(rows), values).outcome
      ensures rows == Insert(fields, keyField, old(rows), values).rows
      ensures rest == Insert(fields, keyField, old(rows), values).rest
    {
      ghost var before := rows;
      rest := values;
      if Get(values, keyField) == Null {
        assert Insert(fields, keyField, before, values) == Change(Fail(ValueError), before, values);
        return Fail(ValueError), rest;
      }
      var key := values[keyField];
      if key in rows && RowTruthy(rows[key]) {
        assert Insert(fields, keyField, before, values) == Change(Fail(ValueError), before, values);
        return Fail(ValueError), rest;
      }
      // `row` is the dict stored under the key, empty at first (db.py:43).
      // The source fills it in place; nothing reads the table while the
      // loop runs, so the model stores it whenever the loop is left.
      var row: Row := map[];
      ghost var filled := Fill(fields, keyField, Build(map[], values, Ok));
      assert Insert(fields, keyField, before, values) == Store(before, key, filled);
      var i := 0;
      while i < |fields|
        invariant 0 <= i <= |fields|
        invariant rows == before
        invariant Fill(fields[i..], keyField, Build(row, rest, Ok)) == filled
      {
        var f := fields[i];
        ghost var st := Build(row, rest, Ok);
        assert fields[i..] == [f] + fields[i + 1..];
        assert Fill(fields[i..], keyField, st) == Fill(fields[i + 1..], keyField, FillStep(st, f, keyField));
        if f != keyField {
          row := row[f := Stored(Get(rest, f))];
          if f !in rest {
            // values.pop(field) raises KeyError; the partly filled row stays.
            assert FillStep(st, f, keyField) == Build(row, rest, Fail(KeyError));
            assert filled == Build(row, rest, Fail(KeyError));
            rows := rows[key := row];
            return Fail(KeyError), rest;
          }
          rest := rest - {f};
        }
        assert FillStep(st, f, keyField) == Build(row, rest, Ok);
        i := i + 1;
      }
      assert filled == Build(row, rest, Ok);
      rows := rows[key := row];
      if 1 < |rest| {
        // A field outside the schema was supplied: the nested delete_record
        // removes the new row if it is truthy, and ValueError is raised
        // either way (by delete_record itself when the row is empty).
        var deleted := DeleteRecord(key);
        return Fail(ValueError), rest;
      }
      outcome := Ok;
    }

    /** `delete_record(key)`: only a truthy row counts as present. */
    method DeleteRecord(key: Value) returns (outcome: Outcome)
      modifies this
      ensures outcome == Delete(old(rows), key).outcome && rows == Delete(old(rows), key).rows
      ensures outcome == Ok <==> key in old(rows) && RowTruthy(old(rows)[key])
      ensures outcome == Ok ==> rows == old(rows) - {key}
      ensures outcome != Ok ==> outcome == Fail(ValueError) && rows == old(rows)
    {
      if key in rows && RowTruthy(rows[key]) {
        rows := rows - {key};
        outcome := Ok;
      } else {
        outcome := Fail(ValueError);
      }
    }

    /** `get_record(key)`: a copy of the stored row with the key field set
        to the key; ValueError when no row is stored under the key. */
    method GetRecord(key: Value) returns (r: Result<Row>)
      ensures r == Lookup(rows, keyField, key)
      ensures r.Success? <==> key in rows
      ensures r.Success? ==> r.value == rows[key][keyField := key]
    {
      if key !in rows {
        return Failure(ValueError);
      }
      var row := rows[key];
      row := row[keyField := key];
      r := Success(row);
    }

    /** `update_record(key, values)`: builds the new row in a local map and
        writes it only after every check has passed. `rest` is the caller's
        `values` dict as the call leaves it. */
    method UpdateRecord(key: Value, values: map<string, Value>) returns (outcome: Outcome, rest: map<string, Value>)
      modifies this
      ensures outcome == Update(fields, keyField, old(rows), key, values).outcome
      ensures rows == Update(fields, keyField, old(rows), key, values).rows
      ensures rest == Update(fields, keyField, old(rows), key, values).rest
      ensures outcome != Ok ==> rows == old(rows)
    {
      rest := values;
      if key !in rows {
        assert Update(fields, keyField, rows, key, values) == Change(Fail(ValueError), rows, values);
        return Fail(ValueError), rest;
      }
      var stored := rows[key];
      ghost var merged := Merge(fields, keyField, stored, Build(map[], values, Ok));
      assert Update(fields, keyField, rows, key, values)
          == if merged.status.Fail? then Change(merged.status, rows, merged.rest)
             else if |merged.rest| != 0 then Change(Fail(ValueError), rows, merged.rest)
             else Change(Ok, rows[key := merged.row], merged.rest);
      var updated: Row := map[];
      var i := 0;
      while i < |fields|
        invariant 0 <= i <= |fields|
        invariant Merge(fields[i..], keyField, stored, Build(updated, rest, Ok)) == merged
      {
        var f := fields[i];
        ghost var st := Build(updated, rest, Ok);
        assert fields[i..] == [f] + fields[i + 1..];
        assert Merge(fields[i..], keyField, stored, st) == Merge(fields[i + 1..], keyField, stored, MergeStep(st, f, keyField, stored));
        var v := Get(rest, f);
        if v == Str(keyField) {
          assert merged == Build(updated, rest, Fail(ValueError));
          return Fail(ValueError), rest;
        }
        if Truthy(v) {
          updated := updated[f := v];
          rest := rest - {f};
        } else if f in stored {
          updated := updated[f := stored[f]];
        } else {
          // row[field] raises KeyError: the stored row lacks the field, as a row
          // written by insert lacks the key field.
          assert merged == Build(updated, rest, Fail(KeyError));
          return Fail(KeyError), rest;
        }
        assert MergeStep(st, f, keyField, stored) == Build(updated, rest, Ok);
        i := i + 1;
      }
      assert merged == Build(updated, rest, Ok);
      if |rest| != 0 {
        return Fail(ValueError), rest;
      }
      rows := rows[key := updated];
      outcome := Ok;
    }
  }
}
