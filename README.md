# procedures-lab utilities, modelled in Dafny

`app/utils.py` of the procedures lab holds two independent helpers, and this
project models both:

- **Fibonacci** (`fibonacci.dfy`, module `Fibonacci`). `fib(n)` raises
  `ValueError("n must be >= 0")` for a negative `n`. It returns 0 and 1 for
  `n = 0` and `n = 1`. Otherwise it seeds `(a, b) = (0, 1)` and advances
  `(a, b) := (b, a + b)` for `i` in `range(2, n + 1)`. `ComputeFib` is that
  loop. Its result type `FibResult` carries either the value or the
  `ValueError` with its message. It is proved equal to the recursive
  definition `Fib` on every non-negative input. `FibMonotone` proves the
  sequence is non-decreasing. `FibExamples` checks the listed values
  fib(0) = 0, fib(1) = 1, fib(10) = 55 and the error for fib(-1).
- **Record store** (`record_store.dfy`, module `RecordStore`). The module-level
  dictionary `_DB` becomes the field `db` of a `Store` object. Its type is
  `map<string, map<string, V>>`, where the record value type `V` is a type
  parameter. The five operations `create_item`, `read_item`, `update_item`,
  `delete_item` and `clear_db` become methods that rebind `db`. Each method
  states its new table as a function of the old one. The pure functions
  `Inserted`, `Updated`, `Removed` and `Merged` say what each operation does
  to the key it touches. `SameElsewhere` says that every other key keeps its
  record. Client methods (`CreateThenRead`, `UpdateThenRead`, `DeleteTwice`,
  `ClearThenRead`) prove the multi-step behaviour from the method contracts
  alone. `StoreExamples` replays the listed scenarios on concrete keys.

Dafny maps are values. So the defensive copies `dict(value)` and
`dict(_DB[key])` (app/utils.py:41, 49) need no code: a caller can never change
a stored record through a reference it holds. `ReadItem` has no `modifies`
clause, so it provably leaves the store unchanged.

## Model

| member | source | states |
|---|---|---|
| Fibonacci.ComputeFib | app/utils.py:14-27 | fails with ValueError carrying "n must be >= 0" exactly when n < 0; for every n >= 0 returns the recursive Fib(n) (so fib(0) = 0, fib(1) = 1) |
| Fibonacci.FibMonotone | app/utils.py:16 | for 0 <= n <= m, Fib(n) <= Fib(m): the Fibonacci sequence is non-decreasing |
| RecordStore.Inserted | app/utils.py:36-41 | after a create, the key holds exactly the given record, present before or not, and every other key is untouched |
| RecordStore.Merged | app/utils.py:58 | a merged record has the union of the fields; fields in the patch take the patch's value, every other field keeps its old value |
| RecordStore.Updated | app/utils.py:51-59 | an update keeps the key set; a present key gets the patch merged into its record; an absent key leaves the table equal to before; other keys are untouched |
| RecordStore.Removed | app/utils.py:61-68 | after a delete the key is absent; an absent key leaves the table equal to before; other keys are untouched |
| RecordStore.DeleteUndoesCreate | app/utils.py:36-68 | creating an absent key and then deleting it restores the original table |
| RecordStore.UpdateIdempotent | app/utils.py:51-59 | applying the same patch twice gives the same table as applying it once |
| RecordStore.Store.constructor | app/utils.py:34 | a new store starts empty |
| RecordStore.Store.CreateItem | app/utils.py:36-41 | the new table is the old one with the key mapped to the given record |
| RecordStore.Store.ReadItem | app/utils.py:43-49 | returns None exactly when the key is absent, otherwise the stored record; the store is not modified |
| RecordStore.Store.UpdateItem | app/utils.py:51-59 | returns true exactly when the key was present; the new table is the old one with the patch merged at that key (unchanged when absent) |
| RecordStore.Store.DeleteItem | app/utils.py:61-68 | returns true exactly when the key was present; the new table is the old one without that key (unchanged when absent) |
| RecordStore.Store.ClearDb | app/utils.py:70-73 | the table is empty afterwards |
| RecordStore.CreateThenRead | app/utils.py:36-49 | a read right after create_item(k, v) returns v |
| RecordStore.UpdateThenRead | app/utils.py:43-59 | a read after an update returns the old record with the patch merged over it; for a missing key the update returns false, the store is unchanged and the read returns None |
| RecordStore.DeleteTwice | app/utils.py:61-68 | the first delete reports whether the key was present, the second delete in a row always reports false, and the key is gone |
| RecordStore.ClearThenRead | app/utils.py:70-73 | after clear_db every read returns None |

## Left out

- `add(a, b)` (app/utils.py:8-12) is floating-point addition with no logic of its own, so it is not modelled.
- The record values are a type parameter `V`, not Python's dynamically typed objects.
- Shallow and deep copies are not modelled. The source copies only the outer record. A mutable object nested inside a record would stay shared in Python, but Dafny values cannot express that sharing.
- The module-global `_DB` and its `global` rebinding in `clear_db` are modelled as the field of a `Store` object. No concurrency exists or is modelled.
- Python's unbounded `int` matches Dafny's `int`, so no overflow is modelled because none exists.
