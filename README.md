# A verified model of the db.py record store

db.py implements a small record store. A `DataBase` catalog maps table
names to `DBTable` objects. Each table keeps its records in a shelve file:
a dict from a record's primary key to a row dict of field values. Insert
does not put the key field in the row (the key is the row's address), and
`get_record` adds it back from the key. Update, however, writes every
schema field it is given, the key field included, so a row that has been
updated can hold a key-field entry, even one that differs from its key.
This project models that store's in-memory logic, with the shelve dict
taken as a plain map:

- `values.dfy` (module `PyValues`): the Python values the store handles
  (`None`, integers, strings), their truthiness, `dict.get`, and the two
  exceptions the modelled operations raise (`ValueError`, `KeyError`).
- `records.dfy` (module `RecordOps`): each table operation as a function
  of the stored rows, following the loops of db.py step by step. Around
  them are the lemmas that say when each operation raises, what it stores,
  and what it leaves alone.
- `table.dfy` (module `Tables`): class `DBTable`, whose `rows` field the
  methods update the way db.py updates the shelve dict. Every method is
  proved to leave exactly the state, the raised error and the caller's
  `values` dict that the matching `RecordOps` function describes.
- `database.dfy` (module `Catalog`): class `DataBase`, holding the table
  registry and the creation order of the names. The invariant `Valid` says
  each name is listed once and each table is registered under its own name.

Python behaviour that the model keeps:

- Truthiness decides several checks:
  - a falsy supplied value is stored as `None` by insert (db.py:48);
  - an empty row `{}` counts as absent for insert's duplicate check
    (db.py:40) and for `delete_record` (db.py:62);
  - `None ==` comparisons decide insert's missing-key check (db.py:35) and
    the existence checks of `get_record` (db.py:91) and `update_record`
    (db.py:104), so an empty row is found by the last two.
- Both insert and update pop entries from the caller's `values` dict
  (db.py:49, 115). Each method returns that dict as the call leaves it
  (`rest`).
- In the modelled operations every error raised is `ValueError`, except
  the `KeyError` of `values.pop` in insert (db.py:49) and of the stored-row
  read in update (db.py:117). Outside them the code also raises
  `NotImplementedError` (db.py:127, 130, 186), and `os.remove` in
  `delete_table` can fail (db.py:171-175).
- Insert writes an empty row under the key before its loop runs (db.py:43).
  A declared non-key field missing from `values` raises `KeyError` at the
  pop (db.py:49), and the partly filled row stays stored. A supplied field
  outside the schema (db.py:50) runs the nested `delete_record` and raises
  `ValueError`.
- Update builds the new row in a local dict and writes it only after every
  check has passed (db.py:107-121).
  - Its guard (db.py:110) compares the *value* supplied for each schema
    field with the key field's *name* (a value under a field outside the
    schema is never compared); it does not stop the key field from being
    changed.
  - A field not supplied truthy is read from the stored row (db.py:117).
    For the key field, which insert never stores, that read raises
    `KeyError`. So an update of a freshly inserted row fails unless it
    supplies the key field with a truthy value
    (`RecordOps.UpdateAfterInsertNeedsKeyField`). The update in
    `my_test.py:38` is such a case; the test never reaches it, because
    `create_index` at line 35 raises `NotImplementedError` first.
  - A supplied falsy value is never popped, so the update fails: with
    `ValueError` for the left-over entry when nothing else raises first, or
    with `KeyError` at db.py:117 when that field is missing from the stored
    row (`RecordOps.UpdateRejectsFalsyValue`).
- `create_table` does not check that the key field is among the fields
  (db.py:142-156).

## Model

| member | source | states |
|---|---|---|
| PyValues.Stored | db.py:48 | the value insert stores is truthy exactly when the supplied one is |
| PyValues.Truthy | db.py:113 | Python truthiness of a supplied value (`None`, `0` and `""` are false), as tested at db.py:48 and db.py:113 |
| PyValues.RowTruthy | db.py:40 | Python truthiness of a stored row, as tested at db.py:40 and db.py:62: an empty dict is false |
| PyValues.Get | db.py:35 | `dict.get`: the entry, or None when the key is absent |
| RecordOps.Without | db.py:44-47 | the fields insert's loop writes are exactly the schema fields other than the key field, in schema order; it is also the name list after a pop (db.py:169) |
| RecordOps.FillStep | db.py:45-49 | one pass of insert's loop, the step-by-step definition `DBTable.InsertRecord`'s loop is proved equal to: the key field is skipped, the row entry is written (falsy as None) before the pop, and a missing entry raises KeyError |
| RecordOps.Fill | db.py:44-49 | insert's loop over the schema, stopping at the first KeyError; `DBTable.InsertRecord`'s loop is proved equal to it |
| RecordOps.Insert | db.py:34-53 | insert_record on the rows, the definition `DBTable.InsertRecord` is proved equal to: the two early ValueErrors leave everything untouched, otherwise the row is written and Store decides the outcome |
| RecordOps.Store | db.py:43-53 | the write of the filled row, with the KeyError path keeping the partial row and the extra-fields path running delete and raising ValueError |
| RecordOps.Delete | db.py:58-68 | delete_record on the rows, the definition `DBTable.DeleteRecord` is proved equal to |
| RecordOps.Lookup | db.py:87-98 | get_record on the rows, the definition `DBTable.GetRecord` is proved equal to |
| RecordOps.MergeStep | db.py:109-117 | one pass of update's loop, the step-by-step definition `DBTable.UpdateRecord`'s loop is proved equal to: the key-field-name guard, the truthy value taken and popped, else the stored value, else KeyError |
| RecordOps.Merge | db.py:108-117 | update's loop over the schema, stopping at the first error; `DBTable.UpdateRecord`'s loop is proved equal to it |
| RecordOps.Update | db.py:100-121 | update_record on the rows, the definition `DBTable.UpdateRecord` is proved equal to: absent key, loop errors and left-over entries raise with the rows untouched, otherwise the merged row is written |
| RecordOps.FillOutcome | db.py:43-49 | insert's loop raises nothing but possibly KeyError; it raises nothing exactly when every non-key field is supplied (and declared once); it then writes each one (falsy values as None) and pops each one from `values` |
| RecordOps.ExtraFields | db.py:49-50 | after the pops, more than one entry is left exactly when a field outside the schema (other than the key) was supplied |
| RecordOps.InsertCharacterisation | db.py:34-53 | insert raises nothing if and only if the key is supplied and not None, no truthy row is under it, every non-key field is supplied and nothing outside the schema is; it then stores NewRow under the key and changes no other row |
| RecordOps.NewRowShape | db.py:43-49 | the stored row has exactly the non-key schema fields, never the key field, and each holds the supplied value when truthy, else None |
| RecordOps.InsertErrors | db.py:34-53 | ValueError with rows and `values` untouched for a missing/None key or an existing truthy row; KeyError if and only if the key checks pass and a non-key field is missing (or declared twice); once those checks pass, ValueError if and only if a field outside the schema was supplied |
| RecordOps.InsertTouchesOnlyItsKey | db.py:43-51 | whatever insert raises, every row under another key is kept as it was |
| RecordOps.InsertThenLookup | db.py:43-97 | get_record after a successful insert returns the supplied dict, with falsy values as None and the key field holding the key |
| RecordOps.InsertCount | db.py:29-49 | a successful insert adds one to the count, unless it replaced an empty row under the same key |
| RecordOps.DeleteRemovesOnlyKey | db.py:58-68 | delete raises nothing if and only if a truthy row is under the key; it then removes that key alone and the count drops by one; otherwise it raises ValueError and changes nothing |
| RecordOps.DeleteTwiceFails | db.py:62-66 | deleting the same key a second time raises ValueError |
| RecordOps.LookupFinds | db.py:87-98 | get_record succeeds exactly when a row (even an empty one) is stored under the key, and returns that row plus the key field set to the key |
| RecordOps.MergeOutcome | db.py:107-117 | for distinct field names, update's loop raises nothing exactly when no value equals the key field's name and every field not supplied truthy is in the stored row; it builds each field from the supplied truthy value or the stored one, and pops exactly the truthy supplied fields |
| RecordOps.MergeRaises | db.py:108-117 | for distinct field names, update's loop raises ValueError only at a field whose value is the key field's name, and KeyError only at a field neither supplied truthy nor in the stored row |
| RecordOps.MergeBlocked | db.py:108-117 | a field whose value is the key field's name, or that is neither supplied truthy nor stored, makes update's loop raise, even with repeated field names |
| RecordOps.MergeKeepsFalsy | db.py:113-115 | update's loop never pops a falsy entry of `values` |
| RecordOps.Leftovers | db.py:113-120 | nothing is left after the pops exactly when every supplied entry is a schema field with a truthy value |
| RecordOps.UpdateSucceeds | db.py:100-121 | update raises nothing if and only if the key is stored, the loop's checks pass and every supplied entry is a schema field with a truthy value |
| RecordOps.UpdateWrites | db.py:107-121 | a successful update replaces the key's row by the merged row (supplied truthy value, else stored value, for every schema field) and keeps every other row |
| RecordOps.UpdateErrors | db.py:104-120 | which exception update raises: ValueError for an absent key, for a field given the key field's name or for a left-over entry; KeyError only at a field neither supplied truthy nor stored; a left-over entry always raises ValueError once the loop's checks pass |
| RecordOps.UpdateThenLookup | db.py:113-121 | after a successful update, the stored row holds the merged key-field value (when the key field is a schema field) and get_record returns the merged row with the key field overwritten by the key |
| RecordOps.UpdateFailureKeepsRows | db.py:104-121 | a failed update leaves the rows as they were; an absent key raises ValueError; success keeps the set of keys |
| RecordOps.UpdateAfterInsertNeedsKeyField | db.py:113-117 | an update of a row written by insert fails unless the key field (a schema field) is supplied truthy, with any field names |
| RecordOps.UpdateRejectsFalsyValue | db.py:113-120 | an update supplying any falsy value fails and changes nothing, with any field names |
| RecordOps.UpdateRejectsKeyFieldName | db.py:110-112 | an update giving any schema field the key field's name as its value fails and changes nothing, with any field names |
| Tables.DBTable.constructor | db.py:151-154 | a new table has the given name, schema and key field, and no rows |
| Tables.DBTable.Count | db.py:25-32 | returns the number of stored rows, empty ones included, and changes nothing |
| Tables.DBTable.InsertRecord | db.py:34-56 | the error raised, the new rows and the caller's `values` afterwards are those of `Insert`, for which the insert lemmas above hold |
| Tables.DBTable.DeleteRecord | db.py:58-68 | raises nothing exactly when a truthy row is under the key, and then removes that key alone; otherwise raises ValueError and changes nothing |
| Tables.DBTable.GetRecord | db.py:87-98 | ValueError exactly when no row is under the key; otherwise the stored row with the key field set to the key |
| Tables.DBTable.UpdateRecord | db.py:100-123 | the error raised, the new rows and the caller's `values` afterwards are those of `Update`; a failed update leaves the rows as they were |
| Catalog.WithoutKeepsNoDup | db.py:169 | popping a name keeps the name list free of repetitions |
| Catalog.NoDupSize | db.py:158-159 | a name list without repetitions is as long as its set of names |
| Catalog.DataBase.constructor | db.py:140 | the registry starts empty |
| Catalog.DataBase.CreateTable | db.py:142-156 | a taken name raises ValueError and changes nothing; otherwise a new table with no rows is registered under the name, which goes last in the order; `Valid` is kept |
| Catalog.DataBase.NumTables | db.py:158-159 | the number of registered tables, equal to the length of the name list |
| Catalog.DataBase.GetTable | db.py:161-164 | the table registered under the name, which carries that name; ValueError exactly when the name is not registered |
| Catalog.DataBase.DeleteTable | db.py:166-169 | an unregistered name raises ValueError and changes nothing; otherwise only that name leaves the registry and the order; `Valid` is kept |
| Catalog.DataBase.GetTablesNames | db.py:177-178 | every registered name exactly once, in creation order |

## Left out

- File handling: `shelve.open`/`close` with writeback and the path
  building (db.py:26-31 and the same lines in every method), and the
  `os.remove` of the three shelve files in `delete_table` (db.py:170-175).
  A table's shelve dict is the `rows` field, and a dropped table's files
  are not modelled.
- Tables.DBTable.InsertRecord: on the extra-fields path (db.py:50-53) the
  model claims the plain-map outcome. The nested `delete_record` runs
  against the same map, so the new row is removed when it is truthy, and
  `ValueError` is raised either way. With a real shelve file opened with
  writeback, the nested open does not see the outer shelf's uncommitted
  row (it then raises `ValueError` itself, and the outer close at db.py:56
  writes the row back), or, with a locking dbm backend, fails to open. The
  rows left by this path are therefore not a promise of db.py itself.
- The registry `db_tables` is a class attribute shared by every `DataBase`
  object (db.py:140). The model gives it to one `DataBase` object.
- Two `DBTable` objects created over the same file name would share one
  shelve dict. In the model each table owns its rows, and `create_table`
  after `delete_table` starts a fresh empty table, as the reopened file does.
- Python values other than `None`, integers and strings (booleans, floats,
  nested containers), and with them the hashing rule under which `1` and
  `True` are the same key.
- A `DBTable` object is taken to be truthy in `create_table`'s duplicate
  check (db.py:146) and in `get_table` (db.py:162): it defines no `__len__`
  or `__bool__`.
- `query_table`, `create_index` and `query_multiple_tables` raise
  `NotImplementedError` (db.py:125-130, 180-186). `delete_records` and
  `__is_condition_hold` are unfinished (db.py:70-85, 132-134). No secondary
  indexes or queries exist in the code, so there is nothing of them to model.
- The `dataclass_json` decorators, the `db_api` base classes and `DBField`
  are library or unseen code. A schema is modelled as the sequence of its
  field names.
- RecordOps.MergeOutcome: assumes the schema has no repeated field name.
  With a repeated name, the loop's second visit no longer sees the value
  it popped on the first. The methods and functions themselves cover
  repeated names.
- RecordOps.MergeRaises: assumes no repeated field name, for the same reason.
- RecordOps.UpdateSucceeds: assumes no repeated field name (it rests on
  `MergeOutcome`).
- RecordOps.UpdateWrites: assumes no repeated field name (it rests on
  `MergeOutcome`).
- RecordOps.UpdateErrors: assumes no repeated field name (it rests on
  `MergeOutcome` and `MergeRaises`).
- RecordOps.UpdateThenLookup: assumes no repeated field name (it rests on
  `UpdateWrites`).
- Tables.DBTable.UpdateRecord: its `ensures` ties it to `Update`. The
  conditions for success and the row written are stated by
  `RecordOps.UpdateSucceeds` and `RecordOps.UpdateWrites` rather than on
  the method.
