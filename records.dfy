/** The record operations of one table (`DBTable` in db.py) as functions of
    the table's stored rows, with the properties they promise. The class in
    table.dfy runs the same steps in place and is proved against these. */
module RecordOps {
  import opened PyValues

  /** A table's storage: record key to the stored row. Insert never puts the
      key field in a row; update can (it writes whatever is supplied for
      every schema field), and get_record then overwrites it with the key. */
  type Rows = map<Value, Row>

  /** The state of a loop over the schema that builds a row: the row so far,
      what is left of the caller's `values` dict, and whether the loop raised. */
  datatype Build = Build(row: Row, rest: map<string, Value>, status: Outcome)

  /** The result of insert or update: what was raised, the table's rows
      afterwards, and the caller's `values` dict as the call left it. */
  datatype Change = Change(outcome: Outcome, rows: Rows, rest: map<string, Value>)

  /** The result of delete: what was raised and the rows afterwards. */
  datatype Effect = Effect(outcome: Outcome, rows: Rows)

  predicate NoDup(s: seq<string>)
  {
    forall i, j :: 0 <= i < j < |s| ==> s[i] != s[j]
  }

  /** `s` without `x`, order kept: the schema's fields other than the key
      field, which insert's loop writes, and the catalog's names after one
      is popped from the registry. */
  function Without(s: seq<string>, x: string): (r: seq<string>)
    ensures forall y :: y in r <==> y in s && y != x
  {
    if s == [] then []
    else if s[0] == x then Without(s[1..], x)
    else [s[0]] + Without(s[1..], x)
  }

  // ---------------------------------------------------------------- insert

  /** One pass of insert's loop over the schema: the key field is skipped;
      any other field is written (the supplied value if truthy, else None)
      and then popped from `values`, which raises KeyError when it is absent. */
  function FillStep(st: Build, f: string, keyField: string): Build
  {
    if f == keyField then st
    else
      var row := st.row[f := Stored(Get(st.rest, f))];
      if f in st.rest then Build(row, st.rest - {f}, Ok)
      else Build(row, st.rest, Fail(KeyError))
  }

  /** Insert's loop over `fields`, stopping at the first exception. */
  function Fill(fields: seq<string>, keyField: string, st: Build): Build
    decreases |fields|
  {
    if fields == [] || st.status.Fail? then st
    else Fill(fields[1..], keyField, FillStep(st, fields[0], keyField))
  }

  /** `insert_record(values)` with the rows as a plain map. */
  function Insert(fields: seq<string>, keyField: string, rows: Rows, values: map<string, Value>): Change
  {
    if Get(values, keyField) == Null then Change(Fail(ValueError), rows, values)
    else
      var key := values[keyField];
      if key in rows && RowTruthy(rows[key]) then Change(Fail(ValueError), rows, values)
      else Store(rows, key, Fill(fields, keyField, Build(map[], values, Ok)))
  }

  /** What insert leaves once its loop over the schema has ended in `st`:
      the row is in the table under `key` (partly filled if the loop raised
      KeyError); if more than the key field is left in `values`, the nested
      delete_record takes it out again and ValueError is raised. */
  function Store(rows: Rows, key: Value, st: Build): Change
  {
    var written := rows[key := st.row];
    if st.status.Fail? then Change(st.status, written, st.rest)
    else if 1 < |st.rest| then Change(Fail(ValueError), Delete(written, key).rows, st.rest)
    else Change(Ok, written, st.rest)
  }

  // ---------------------------------------------------------------- delete, get

  /** `delete_record(key)`: only a truthy (non-empty) row counts as present. */
  function Delete(rows: Rows, key: Value): Effect
  {
    if key in rows && RowTruthy(rows[key]) then Effect(Ok, rows - {key})
    else Effect(Fail(ValueError), rows)
  }

  /** `get_record(key)`: the stored row with the key field set to the key. */
  function Lookup(rows: Rows, keyField: string, key: Value): Result<Row>
  {
    if key !in rows then Failure(ValueError) else Success(rows[key][keyField := key])
  }

  // ---------------------------------------------------------------- update

  /** One pass of update's loop over the schema, against the stored row. */
  function MergeStep(st: Build, f: string, keyField: string, stored: Row): Build
  {
    var v := Get(st.rest, f);
    if v == Str(keyField) then Build(st.row, st.rest, Fail(ValueError))
    else if Truthy(v) then Build(st.row[f := v], st.rest - {f}, Ok)
    else if f in stored then Build(st.row[f := stored[f]], st.rest, Ok)
    else Build(st.row, st.rest, Fail(KeyError))
  }

  /** Update's loop over `fields`, stopping at the first exception. */
  function Merge(fields: seq<string>, keyField: string, stored: Row, st: Build): Build
    decreases |fields|
  {
    if fields == [] || st.status.Fail? then st
    else Merge(fields[1..], keyField, stored, MergeStep(st, fields[0], keyField, stored))
  }

  /** `update_record(key, values)`: the rows are written only when every check passed. */
  function Update(fields: seq<string>, keyField: string, rows: Rows, key: Value, values: map<string, Value>): Change
  {
    if key !in rows then Change(Fail(ValueError), rows, values)
    else
      var st := Merge(fields, keyField, rows[key], Build(map[], values, Ok));
      if st.status.Fail? then Change(st.status, rows, st.rest)
      else if |st.rest| != 0 then Change(Fail(ValueError), rows, st.rest)
      else Change(Ok, rows[key := st.row], st.rest)
  }

  // ---------------------------------------------------------------- insert laws

  lemma NoDupCons(f: string, s: seq<string>)
    ensures NoDup([f] + s) <==> f !in s && NoDup(s)
  {
    var t := [f] + s;
    if f !in s && NoDup(s) {
      forall i, j | 0 <= i < j < |t| ensures t[i] != t[j] {
        if i == 0 { assert t[j] == s[j - 1]; } else { assert t[i] == s[i - 1] && t[j] == s[j - 1]; }
      }
    }
    if f in s {
      var j :| 0 <= j < |s| && s[j] == f;
      assert t[0] == t[j + 1];
    }
    if NoDup(t) {
      forall i, j | 0 <= i < j < |s| ensures s[i] != s[j] {
        assert t[i + 1] == s[i] && t[j + 1] == s[j];
      }
    }
  }

  /** Insert's loop finishes without KeyError exactly when every non-key field
      is in `values` once; it then has written each of them (truthy values
      kept, falsy ones as None) and popped each from `values`. */
  lemma {:induction false} FillOutcome(fields: seq<string>, keyField: string, st: Build)
    requires st.status == Ok
    ensures var r := Fill(fields, keyField, st);
            var nonKey := Without(fields, keyField);
            && (r.status == Ok || r.status == Fail(KeyError))
            && (r.status == Ok <==> NoDup(nonKey) && forall f :: f in nonKey ==> f in st.rest)
            && (r.status == Ok ==> r.row == st.row + (map f | f in nonKey :: Stored(Get(st.rest, f))))
            && (r.status == Ok ==> r.rest == st.rest - (set f | f in nonKey))
  {
    if fields != [] {
      var f := fields[0];
      var tail := fields[1..];
      var next := FillStep(st, f, keyField);
      var r := Fill(fields, keyField, st);
      if f == keyField {
        FillOutcome(tail, keyField, st);
      } else if f in st.rest {
        FillOutcome(tail, keyField, next);
        var nk := Without(tail, keyField);
        assert Without(fields, keyField) == [f] + nk;
        NoDupCons(f, nk);
        if r.status == Ok {
          FillPops(st, f, nk);
        }
      } else {
        assert Fill(tail, keyField, next) == next;
        assert f in Without(fields, keyField);
      }
    }
  }

  /** Writing and popping `f` first, then the fields `nk` that do not
      include it, gives the same row and the same `values` as doing all of
      `[f] + nk` against the original `values`. */
  lemma FillPops(st: Build, f: string, nk: seq<string>)
    requires f in st.rest && f !in nk
    ensures var rest := st.rest - {f};
            && st.row[f := Stored(Get(st.rest, f))] + (map g | g in nk :: Stored(Get(rest, g)))
               == st.row + (map g | g in [f] + nk :: Stored(Get(st.rest, g)))
            && rest - (set g | g in nk) == st.rest - (set g | g in [f] + nk)
  {
    var rest := st.rest - {f};
    forall g | g in nk ensures Get(rest, g) == Get(st.rest, g) { }
  }

  /** A map that holds `k` has more than one entry exactly when it holds a key other than `k`. */
  lemma MoreThanOne<V>(m: map<string, V>, k: string)
    requires k in m
    ensures 1 < |m| <==> exists n :: n in m && n != k
  {
    var others := m.Keys - {k};
    assert m.Keys == {k} + others;
    assert |m.Keys| == 1 + |others|;
    if exists n :: n in m && n != k {
      var n :| n in m && n != k;
      assert n in others;
    } else {
      assert others == {};
    }
  }

  /** The conditions under which insert_record raises nothing: the key is
      supplied and not None, no truthy row is stored under it, every
      declared non-key field is supplied (and declared once), and nothing
      outside the schema is supplied. */
  predicate InsertAccepts(fields: seq<string>, keyField: string, rows: Rows, values: map<string, Value>)
  {
    && Get(values, keyField) != Null
    && !(values[keyField] in rows && RowTruthy(rows[values[keyField]]))
    && NoDup(Without(fields, keyField))
    && (forall f :: f in Without(fields, keyField) ==> f in values)
    && (forall n :: n in values ==> n in fields || n == keyField)
  }

  /** The row an accepted insert stores: each non-key field of the schema
      with its supplied value, falsy ones as None. */
  function NewRow(fields: seq<string>, keyField: string, values: map<string, Value>): Row
  {
    map f | f in Without(fields, keyField) :: Stored(Get(values, f))
  }

  /** insert_record raises nothing exactly when InsertAccepts holds, and then
      the table holds NewRow under the key and is otherwise unchanged. */
  lemma InsertCharacterisation(fields: seq<string>, keyField: string, rows: Rows, values: map<string, Value>)
    ensures Insert(fields, keyField, rows, values).outcome == Ok <==> InsertAccepts(fields, keyField, rows, values)
    ensures InsertAccepts(fields, keyField, rows, values) ==>
              Insert(fields, keyField, rows, values).rows == rows[values[keyField] := NewRow(fields, keyField, values)]
  {
    if Get(values, keyField) != Null {
      var key := values[keyField];
      if !(key in rows && RowTruthy(rows[key])) {
        var init := Build(map[], values, Ok);
        var st := Fill(fields, keyField, init);
        FillOutcome(fields, keyField, init);
        assert Insert(fields, keyField, rows, values) == Store(rows, key, st);
        if st.status == Ok {
          ExtraFields(fields, keyField, values, st.rest);
          assert st.row == NewRow(fields, keyField, values);
        }
      }
    }
  }

  /** The stored row has exactly the schema's non-key fields; the key field
      is not among them, and each holds the supplied value or None. */
  lemma NewRowShape(fields: seq<string>, keyField: string, values: map<string, Value>)
    ensures NewRow(fields, keyField, values).Keys == set f | f in fields && f != keyField
    ensures keyField !in NewRow(fields, keyField, values)
    ensures forall f :: f in NewRow(fields, keyField, values) ==>
              NewRow(fields, keyField, values)[f] == if Truthy(Get(values, f)) then values[f] else Null
  {
  }

  /** After insert's loop has popped every non-key field, more than the key
      field is left exactly when something outside the schema was supplied. */
  lemma ExtraFields(fields: seq<string>, keyField: string, values: map<string, Value>, rest: map<string, Value>)
    requires keyField in values
    requires rest == values - (set f | f in Without(fields, keyField))
    ensures 1 < |rest| <==> exists n :: n in values && n !in fields && n != keyField
  {
    assert keyField in rest;
    MoreThanOne(rest, keyField);
    if exists n :: n in rest && n != keyField {
      var n :| n in rest && n != keyField;
      assert n in values && n !in fields;
    }
    if exists n :: n in values && n !in fields && n != keyField {
      var n :| n in values && n !in fields && n != keyField;
      assert n in rest;
    }
  }

  /** Which exception insert_record raises: ValueError with nothing stored
      when the key is missing or None, or a truthy row already sits under it;
      KeyError when a declared non-key field is not supplied (or is declared
      twice); ValueError exactly when, those checks passed, a field outside
      the schema is supplied. */
  lemma InsertErrors(fields: seq<string>, keyField: string, rows: Rows, values: map<string, Value>)
    ensures var r := Insert(fields, keyField, rows, values);
            var nonKey := Without(fields, keyField);
            && (Get(values, keyField) == Null ==> r == Change(Fail(ValueError), rows, values))
            && (Get(values, keyField) != Null && values[keyField] in rows && RowTruthy(rows[values[keyField]]) ==>
                  r == Change(Fail(ValueError), rows, values))
            && (r.outcome == Fail(KeyError) <==>
                  && Get(values, keyField) != Null
                  && !(values[keyField] in rows && RowTruthy(rows[values[keyField]]))
                  && !(NoDup(nonKey) && forall f :: f in nonKey ==> f in values))
            && (r.outcome == Fail(ValueError) && Get(values, keyField) != Null
                && !(values[keyField] in rows && RowTruthy(rows[values[keyField]])) ==>
                  exists n :: n in values && n !in fields && n != keyField)
            && (&& Get(values, keyField) != Null
                && !(values[keyField] in rows && RowTruthy(rows[values[keyField]]))
                && NoDup(nonKey) && (forall f :: f in nonKey ==> f in values)
                && (exists n :: n in values && n !in fields && n != keyField) ==>
                  r.outcome == Fail(ValueError))
  {
    InsertCharacterisation(fields, keyField, rows, values);
    if Get(values, keyField) != Null {
      FillOutcome(fields, keyField, Build(map[], values, Ok));
      var r := Insert(fields, keyField, rows, values);
      if r.outcome.Fail? && r.outcome != Fail(KeyError) {
        assert r.outcome == Fail(ValueError);
      }
    }
  }

  /** Whatever insert_record raises, every row under another key is left as it was. */
  lemma InsertTouchesOnlyItsKey(fields: seq<string>, keyField: string, rows: Rows, values: map<string, Value>, k: Value)
    requires Get(values, keyField) == Null || k != values[keyField]
    ensures var r := Insert(fields, keyField, rows, values);
            (k in r.rows <==> k in rows) && (k in rows ==> r.rows[k] == rows[k])
  {
  }

  /** get_record after a successful insert_record returns what was supplied,
      falsy values as None, with the key field holding the key. */
  lemma InsertThenLookup(fields: seq<string>, keyField: string, rows: Rows, values: map<string, Value>)
    requires Insert(fields, keyField, rows, values).outcome == Ok
    ensures keyField in values
    ensures Lookup(Insert(fields, keyField, rows, values).rows, keyField, values[keyField])
            == Success(map n | n in values :: if n == keyField then values[n] else Stored(values[n]))
  {
    InsertCharacterisation(fields, keyField, rows, values);
    var got := NewRow(fields, keyField, values)[keyField := values[keyField]];
    var want := map n | n in values :: if n == keyField then values[n] else Stored(values[n]);
    assert got.Keys == want.Keys;
    assert forall n :: n in got ==> got[n] == want[n];
    assert got == want;
    var after := Insert(fields, keyField, rows, values).rows;
    assert after[values[keyField]] == NewRow(fields, keyField, values);
  }

  /** A successful insert adds one to the count unless it replaced an empty row. */
  lemma InsertCount(fields: seq<string>, keyField: string, rows: Rows, values: map<string, Value>)
    requires Insert(fields, keyField, rows, values).outcome == Ok
    ensures keyField in values
    ensures |Insert(fields, keyField, rows, values).rows| == if values[keyField] in rows then |rows| else |rows| + 1
  {
    InsertCharacterisation(fields, keyField, rows, values);
  }

  // ---------------------------------------------------------------- delete laws

  /** delete_record succeeds exactly when a truthy row is stored under the
      key; it then removes that key and only that key, so the count drops by
      one. Otherwise it raises ValueError and nothing changes. */
  lemma DeleteRemovesOnlyKey(rows: Rows, key: Value)
    ensures var r := Delete(rows, key);
            && (r.outcome == Ok <==> key in rows && RowTruthy(rows[key]))
            && (r.outcome == Ok ==> r.rows.Keys == rows.Keys - {key} && |r.rows| == |rows| - 1)
            && (r.outcome != Ok ==> r.outcome == Fail(ValueError) && r.rows == rows)
            && (forall k :: k in r.rows ==> k in rows && r.rows[k] == rows[k])
  {
    if key in rows && RowTruthy(rows[key]) {
      assert rows.Keys == (rows.Keys - {key}) + {key};
    }
  }

  /** Deleting the same key a second time raises ValueError. */
  lemma DeleteTwiceFails(rows: Rows, key: Value)
    ensures var once := Delete(rows, key).rows;
            Delete(once, key) == Effect(Fail(ValueError), once)
  {
  }

  /** get_record raises ValueError exactly for a key with no stored row; an
      empty row is returned (with its key) even though delete would refuse it. */
  lemma LookupFinds(rows: Rows, keyField: string, key: Value)
    ensures Lookup(rows, keyField, key).Success? <==> key in rows
    ensures key in rows ==> var got := Lookup(rows, keyField, key).value;
              && got.Keys == rows[key].Keys + {keyField}
              && got[keyField] == key
              && (forall f :: f in rows[key] && f != keyField ==> got[f] == rows[key][f])
  {
  }

  // ---------------------------------------------------------------- update laws

  /** The value update leaves in field `f`: the supplied one when it is
      truthy, otherwise the one already stored. */
  function Merged(values: map<string, Value>, stored: Row, f: string): Value
  {
    if Truthy(Get(values, f)) then Get(values, f) else Get(stored, f)
  }

  /** The row a successful update stores: every schema field, merged. */
  function UpdatedRow(fields: seq<string>, values: map<string, Value>, stored: Row): Row
  {
    map f | f in fields :: Merged(values, stored, f)
  }

  /** The conditions under which update_record raises nothing: a row is
      stored under the key; no field is given the key field's name as its
      value; every field not supplied truthy is already in the stored row
      (for the key field, which insert never stores, this means it must be
      supplied); and every supplied entry is a schema field with a truthy
      value (falsy entries are never popped, so they count as leftovers). */
  predicate UpdateAccepts(fields: seq<string>, keyField: string, rows: Rows, key: Value, values: map<string, Value>)
  {
    && key in rows
    && MergeClean(fields, keyField, rows[key], values)
    && (forall n :: n in values ==> n in fields && Truthy(values[n]))
  }

  /** No field is given the key field's name as its value, and every field
      not supplied truthy is in the stored row. */
  predicate MergeClean(fields: seq<string>, keyField: string, stored: Row, values: map<string, Value>)
  {
    forall f :: f in fields ==> Get(values, f) != Str(keyField) && (Truthy(Get(values, f)) || f in stored)
  }

  /** Taking `f` first and then the fields `tail` that do not include it
      builds the same row as taking all of `[f] + tail` against the
      original `values`. */
  lemma MergePopsRow(st: Build, f: string, tail: seq<string>, keyField: string, stored: Row)
    requires f !in tail
    requires MergeStep(st, f, keyField, stored).status == Ok
    ensures var next := MergeStep(st, f, keyField, stored);
            next.row + (map g | g in tail :: Merged(next.rest, stored, g))
            == st.row + (map g | g in [f] + tail :: Merged(st.rest, stored, g))
  {
    var next := MergeStep(st, f, keyField, stored);
    assert next.row == st.row[f := Merged(st.rest, stored, f)];
    forall g | g in tail ensures Merged(next.rest, stored, g) == Merged(st.rest, stored, g) {
      assert Get(next.rest, g) == Get(st.rest, g);
    }
  }

  /** Taking `f` first and then the fields `tail` that do not include it
      pops the same entries from `values` as taking all of `[f] + tail`. */
  lemma MergePopsRest(st: Build, f: string, tail: seq<string>, keyField: string, stored: Row)
    requires f !in tail
    requires MergeStep(st, f, keyField, stored).status == Ok
    ensures var next := MergeStep(st, f, keyField, stored);
            next.rest - (set g | g in tail && Truthy(Get(next.rest, g)))
            == st.rest - (set g | g in [f] + tail && Truthy(Get(st.rest, g)))
  {
    var next := MergeStep(st, f, keyField, stored);
    forall g | g in tail ensures Get(next.rest, g) == Get(st.rest, g) { }
  }

  /** Once `f` has been taken without raising, the remaining fields `tail`
      (which do not include it) can be taken without raising against what is
      left of `values` exactly when all of `[f] + tail` could against the original. */
  lemma MergeCleanCons(st: Build, f: string, tail: seq<string>, keyField: string, stored: Row)
    requires f !in tail
    requires MergeStep(st, f, keyField, stored).status == Ok
    ensures MergeClean([f] + tail, keyField, stored, st.rest)
            <==> MergeClean(tail, keyField, stored, MergeStep(st, f, keyField, stored).rest)
  {
    var next := MergeStep(st, f, keyField, stored);
    forall g | g in tail ensures Get(next.rest, g) == Get(st.rest, g) { }
  }

  /** Update's loop over distinct fields finishes without raising exactly
      when no field is given the key field's name and every field not
      supplied truthy is in the stored row; it has then merged every field
      and popped exactly the truthy supplied ones. */
  lemma {:induction false} MergeOutcome(fields: seq<string>, keyField: string, stored: Row, st: Build)
    requires NoDup(fields) && st.status == Ok
    ensures var r := Merge(fields, keyField, stored, st);
            && (r.status == Ok <==> MergeClean(fields, keyField, stored, st.rest))
            && (r.status == Ok ==> r.row == st.row + (map f | f in fields :: Merged(st.rest, stored, f)))
            && (r.status == Ok ==> r.rest == st.rest - (set f | f in fields && Truthy(Get(st.rest, f))))
  {
    if fields != [] {
      var f := fields[0];
      var tail := fields[1..];
      assert fields == [f] + tail;
      NoDupCons(f, tail);
      var next := MergeStep(st, f, keyField, stored);
      if next.status == Ok {
        MergeOutcome(tail, keyField, stored, next);
        MergeCleanCons(st, f, tail, keyField, stored);
        if Merge(fields, keyField, stored, st).status == Ok {
          MergePopsRow(st, f, tail, keyField, stored);
          MergePopsRest(st, f, tail, keyField, stored);
        }
      } else {
        assert Merge(tail, keyField, stored, next) == next;
        assert !MergeClean(fields, keyField, stored, st.rest) by {
          assert f in fields;
        }
      }
    }
  }

  /** Update's loop over distinct fields raises ValueError only at a field
      whose value is the key field's name, and KeyError only at a field that
      is neither supplied truthy nor in the stored row. */
  lemma {:induction false} MergeRaises(fields: seq<string>, keyField: string, stored: Row, st: Build)
    requires NoDup(fields) && st.status == Ok
    ensures Merge(fields, keyField, stored, st).status == Fail(ValueError) ==>
              exists f :: f in fields && Get(st.rest, f) == Str(keyField)
    ensures Merge(fields, keyField, stored, st).status == Fail(KeyError) ==>
              exists f :: f in fields && !Truthy(Get(st.rest, f)) && f !in stored
  {
    if fields != [] {
      var f := fields[0];
      var tail := fields[1..];
      assert fields == [f] + tail;
      NoDupCons(f, tail);
      var next := MergeStep(st, f, keyField, stored);
      if next.status == Ok {
        MergeRaises(tail, keyField, stored, next);
        forall g | g in tail ensures Get(next.rest, g) == Get(st.rest, g) { }
      } else {
        assert Merge(tail, keyField, stored, next) == next;
        assert f in fields;
      }
    }
  }

  /** A field the loop cannot take (its value is the key field's name, or it
      is neither supplied truthy nor in the stored row) makes update's loop
      raise, repeated field names or not: its entry is untouched until the
      loop reaches it. */
  lemma {:induction false} MergeBlocked(fields: seq<string>, keyField: string, stored: Row, st: Build, f: string)
    requires st.status == Ok && f in fields
    requires Get(st.rest, f) == Str(keyField) || (!Truthy(Get(st.rest, f)) && f !in stored)
    ensures Merge(fields, keyField, stored, st).status.Fail?
  {
    var next := MergeStep(st, fields[0], keyField, stored);
    if next.status.Fail? {
      assert Merge(fields[1..], keyField, stored, next) == next;
    } else {
      assert fields[0] != f;
      assert f in fields[1..];
      assert Get(next.rest, f) == Get(st.rest, f);
      MergeBlocked(fields[1..], keyField, stored, next, f);
    }
  }

  /** Update's loop pops only truthy entries, so a falsy entry of `values`
      is still there when the loop ends, repeated field names or not. */
  lemma {:induction false} MergeKeepsFalsy(fields: seq<string>, keyField: string, stored: Row, st: Build, n: string)
    requires n in st.rest && !Truthy(st.rest[n])
    ensures n in Merge(fields, keyField, stored, st).rest
  {
    if fields != [] && st.status == Ok {
      var next := MergeStep(st, fields[0], keyField, stored);
      assert n in next.rest && next.rest[n] == st.rest[n];
      MergeKeepsFalsy(fields[1..], keyField, stored, next, n);
    }
  }

  /** After update's loop has popped the truthy supplied fields, nothing is
      left exactly when every supplied entry is a schema field with a truthy value. */
  lemma Leftovers(fields: seq<string>, values: map<string, Value>, rest: map<string, Value>)
    requires rest == values - (set f | f in fields && Truthy(Get(values, f)))
    ensures |rest| == 0 <==> forall n :: n in values ==> n in fields && Truthy(values[n])
  {
    if |rest| == 0 {
      forall n | n in values ensures n in fields && Truthy(values[n]) {
        assert n !in rest;
      }
    } else {
      var n :| n in rest;
      assert n in values;
    }
  }

  /** For a schema without repeated names, update_record raises nothing
      exactly when UpdateAccepts holds. */
  lemma UpdateSucceeds(fields: seq<string>, keyField: string, rows: Rows, key: Value, values: map<string, Value>)
    requires NoDup(fields)
    ensures Update(fields, keyField, rows, key, values).outcome == Ok <==> UpdateAccepts(fields, keyField, rows, key, values)
  {
    if key in rows {
      var init := Build(map[], values, Ok);
      MergeOutcome(fields, keyField, rows[key], init);
      var st := Merge(fields, keyField, rows[key], init);
      if st.status == Ok {
        Leftovers(fields, values, st.rest);
      }
    }
  }

  /** When update_record succeeds, the row under the key is replaced by the
      merged row and every other row is unchanged. */
  lemma UpdateWrites(fields: seq<string>, keyField: string, rows: Rows, key: Value, values: map<string, Value>)
    requires NoDup(fields)
    requires Update(fields, keyField, rows, key, values).outcome == Ok
    ensures key in rows
    ensures Update(fields, keyField, rows, key, values).rows == rows[key := UpdatedRow(fields, values, rows[key])]
  {
    var init := Build(map[], values, Ok);
    var st := Merge(fields, keyField, rows[key], init);
    assert Update(fields, keyField, rows, key, values).rows == rows[key := st.row];
    MergeOutcome(fields, keyField, rows[key], init);
    var merged := map f | f in fields :: Merged(values, rows[key], f);
    assert st.row == map[] + merged;
    assert map[] + merged == merged;
  }

  /** Which exception update_record raises: ValueError for an absent key,
      or for a field given the key field's name, or for an entry of `values`
      left over; KeyError only at a schema field that is neither supplied
      truthy nor in the stored row. When the loop's checks pass, a left-over
      entry always raises ValueError. */
  lemma UpdateErrors(fields: seq<string>, keyField: string, rows: Rows, key: Value, values: map<string, Value>)
    requires NoDup(fields)
    ensures var r := Update(fields, keyField, rows, key, values);
            && (key !in rows ==> r.outcome == Fail(ValueError))
            && (r.outcome == Fail(KeyError) ==>
                  key in rows && exists f :: f in fields && !Truthy(Get(values, f)) && f !in rows[key])
            && (r.outcome == Fail(ValueError) && key in rows ==>
                  || (exists f :: f in fields && Get(values, f) == Str(keyField))
                  || (exists n :: n in values && !(n in fields && Truthy(values[n]))))
            && (key in rows && MergeClean(fields, keyField, rows[key], values)
                && (exists n :: n in values && !(n in fields && Truthy(values[n]))) ==>
                  r.outcome == Fail(ValueError))
  {
    if key in rows {
      var init := Build(map[], values, Ok);
      MergeOutcome(fields, keyField, rows[key], init);
      MergeRaises(fields, keyField, rows[key], init);
      var st := Merge(fields, keyField, rows[key], init);
      if st.status == Ok {
        Leftovers(fields, values, st.rest);
      }
    }
  }

  /** get_record after a successful update returns the merged row with the
      key field set to the key. The stored row itself holds whatever value
      was merged for the key field when it is a schema field, which the
      read hides. */
  lemma UpdateThenLookup(fields: seq<string>, keyField: string, rows: Rows, key: Value, values: map<string, Value>)
    requires NoDup(fields)
    requires Update(fields, keyField, rows, key, values).outcome == Ok
    ensures key in rows
    ensures keyField in fields ==>
              var after := Update(fields, keyField, rows, key, values).rows;
              key in after && keyField in after[key] && after[key][keyField] == Merged(values, rows[key], keyField)
    ensures Lookup(Update(fields, keyField, rows, key, values).rows, keyField, key)
            == Success(UpdatedRow(fields, values, rows[key])[keyField := key])
  {
    UpdateWrites(fields, keyField, rows, key, values);
  }

  /** Whatever update_record raises, the stored rows are exactly as before:
      the only write comes after every check. An absent key raises ValueError. */
  lemma UpdateFailureKeepsRows(fields: seq<string>, keyField: string, rows: Rows, key: Value, values: map<string, Value>)
    ensures var r := Update(fields, keyField, rows, key, values);
            && (r.outcome != Ok ==> r.rows == rows)
            && (key !in rows ==> r == Change(Fail(ValueError), rows, values))
            && (r.outcome == Ok ==> r.rows.Keys == rows.Keys)
  {
  }

  /** A row written by insert_record has no key field, so a later
      update_record of it that does not supply the key field with a truthy
      value cannot succeed (the key field must be a schema field for the
      loop to visit it). */
  lemma UpdateAfterInsertNeedsKeyField(fields: seq<string>, keyField: string, rows: Rows,
                                        values: map<string, Value>, changes: map<string, Value>)
    requires keyField in fields
    requires Insert(fields, keyField, rows, values).outcome == Ok
    requires !Truthy(Get(changes, keyField))
    ensures keyField in values
    ensures Update(fields, keyField, Insert(fields, keyField, rows, values).rows, values[keyField], changes).outcome != Ok
  {
    InsertCharacterisation(fields, keyField, rows, values);
    NewRowShape(fields, keyField, values);
    MergeBlocked(fields, keyField, NewRow(fields, keyField, values), Build(map[], changes, Ok), keyField);
  }

  /** Supplying a falsy value for any field makes update_record raise:
      that entry is never popped, so if nothing raises earlier it is left
      over. The rows stay as they were. */
  lemma UpdateRejectsFalsyValue(fields: seq<string>, keyField: string, rows: Rows, key: Value,
                                values: map<string, Value>, n: string)
    requires n in values && !Truthy(values[n])
    ensures Update(fields, keyField, rows, key, values).outcome != Ok
    ensures Update(fields, keyField, rows, key, values).rows == rows
  {
    if key in rows {
      MergeKeepsFalsy(fields, keyField, rows[key], Build(map[], values, Ok), n);
    }
  }

  /** A value equal to the key field's name, supplied for any schema field,
      makes update_record raise (ValueError, unless an earlier field raises
      KeyError); the rows stay as they were. */
  lemma UpdateRejectsKeyFieldName(fields: seq<string>, keyField: string, rows: Rows, key: Value,
                                  values: map<string, Value>, f: string)
    requires f in fields && Get(values, f) == Str(keyField)
    ensures Update(fields, keyField, rows, key, values).outcome != Ok
    ensures Update(fields, keyField, rows, key, values).rows == rows
  {
    if key in rows {
      MergeBlocked(fields, keyField, rows[key], Build(map[], values, Ok), f);
    }
  }
}
