# Nested transactions over an in-memory key-value store

This project models the transaction engine of a small in-memory database of string
names and string values. Names can be set, unset and read. Transactions can be opened
(`begin_transaction`), nested to any depth, rolled back one at a time (`rollback`),
and committed all at once (`commit_transactions`). A read sees the newest value across
all open transactions and the base table.

The repository implements this engine twice. Both are modelled.

- **Command-log store** (`BasicDatabase/src/Database.py`, `BasicDatabase/src/Commands.py`):
  modules `Commands`, `LogDatabase` and `LogProperties`. Each open transaction is a log
  of `Set`/`Unset` commands plus the set of names it touches. A read scans the stack
  newest first; inside a transaction it takes the newest command for the name. Commit
  lowers the in-transaction flag first, then replays every log, oldest transaction
  first, through `set_item`/`unset_item`, so the writes land in the table.
- **Shadow-map store** (`src/Database.py`): modules `MapDatabase` and `MapProperties`.
  Each open transaction is a flat map. A delete inside a transaction stores `None`.
  The commit copies that `None` into the table, so the name stays in the table.
- **The two side by side**: module `Equivalence`. A log stands for the flat map from
  each touched name to its newest command's value (`Flatten`). Under that reading each
  operation of one store matches the same operation of the other. So every session
  of requests reads the same values and rejects the same rollbacks in both stores
  (`SessionsAgree`). The tables still differ in one way. After a transactional delete
  is committed, the log store has removed the name. The map store keeps it with
  `None` (`DeleteDivergence`).

Each store is one immutable `Database` value: the table, the stack of open
transactions (oldest first) and the `_in_transaction` flag. Every method is a function
from the old value to the new one. A rollback with nothing open returns
`Err(InvalidRollback)`; the caller keeps its unchanged state. `Valid` is the invariant
of reachable states: the flag is true exactly when the stack is non-empty. For the log
store, `Valid` also requires each transaction's name set to equal the names in its log
and each `Unset` to carry the default value `None`. Every constructor and operation
preserves `Valid`.

`Commands.Cmd` is the closed form of the `Set`/`Unset` classes. Its constructors keep
`name` and `value` as given. `Unset` carries the database default (`None`) as its
`value`; `LogDatabase.UnsetItem` states that the command it logs carries it.

`set_item`, `unset_item` and `rollback` (and their map-store counterparts) require
only `inTxn ==> |layers| > 0`. That is exactly what the Python needs: otherwise
`CurrentTransaction` is `None`, or `pop()` is applied to an empty list.
`Transaction.is_modifying` and `Transaction.__getitem__` of the map store are the
one-line helpers `MapDatabase.IsModifying` and `MapDatabase.LayerGet`. Their meaning
is stated by `Equivalence.LayerRepresentationsAgree` and by the read lemmas.

The command-log store removes a name unset inside a transaction when it commits, as
a direct unset does. `src/Database.py` stores `None` under the name instead (lines 62
and 109-110). `MapDatabase` models that as written, and
`MapProperties.CommitKeepsDeletedName` states it. Reads cannot tell the difference
(`Equivalence.SessionsAgree`).

## Model

| member | source | states |
|---|---|---|
| LogDatabase.EmptyTransaction | BasicDatabase/src/Database.py:103-105 | a new transaction is well formed and touches no name |
| LogDatabase.IsModifying | BasicDatabase/src/Database.py:112-114 | for a well-formed transaction, `is_modifying(name)` holds iff some command in the log names `name` |
| LogDatabase.NewestIndex | BasicDatabase/src/Database.py:124-128 | the reverse scan stops at the last command naming `name`; no later command names it; it finds nothing iff no command names it |
| LogDatabase.TxnGetItem | BasicDatabase/src/Database.py:116-128 | an untouched name gives `None`; otherwise the result is the `value` of the most recent command for the name |
| LogDatabase.AddCommand | BasicDatabase/src/Database.py:107-110 | after appending, the transaction touches the command's name and reports the command's value for it; other names read as before; well-formedness is kept |
| LogDatabase.Init | BasicDatabase/src/Database.py:26-31 | a new database has an empty table and no transactions, is valid (flag false), and reads every name as the default |
| LogDatabase.ResolveFrom | BasicDatabase/src/Database.py:67-72 | the newest layer touching the name answers; if no layer touches it, the table entry or the default answers |
| LogDatabase.GetItem | BasicDatabase/src/Database.py:61-72 | in a valid state, `get_item` resolves top-down: the newest touching transaction, else the table or the default |
| LogDatabase.SetItem | BasicDatabase/src/Database.py:45-51 | outside a transaction, only `table[name]` changes, to `value`; inside one, the table and lower layers are unchanged and `Set(name, value)` is appended to the top log; validity is kept |
| LogDatabase.UnsetItem | BasicDatabase/src/Database.py:53-59 | outside a transaction, only `name` is removed (no error if absent); inside one, only `Unset(name, None)` is appended to the top log; validity is kept |
| LogDatabase.BeginTransaction | BasicDatabase/src/Database.py:74-77 | pushes one empty transaction on top of the unchanged stack, sets the flag, keeps the table and validity |
| LogDatabase.Rollback | BasicDatabase/src/Database.py:79-91 | fails iff no transaction is open; otherwise removes exactly the top transaction and keeps the table; the flag then agrees with the stack |
| LogDatabase.CommitCommand | BasicDatabase/src/Commands.py:35-50 | outside a transaction, `Set.commit` leaves `table[name] == value` and `Unset.commit` removes the name; no other name changes |
| LogDatabase.CommitLog | BasicDatabase/src/Database.py:130-133 | replaying a log outside a transaction gives each name the effect of its newest command, or keeps its table value; inside a transaction only the top layer changes |
| LogDatabase.ReplayLayers | BasicDatabase/src/Database.py:96-97 | replaying with the flag lowered leaves the flag lowered and the stack untouched, and gives each name the value a top-down read of the stack would give |
| LogDatabase.CommitTransactions | BasicDatabase/src/Database.py:93-98 | after a commit the stack is empty, the flag is false and the state is valid |
| LogDatabase.TxnGetItemIsEffect | BasicDatabase/src/Database.py:116-128 | for a well-formed transaction, touching a name means having a command for it, and the reported value is what committing that command leaves in the table |
| LogProperties.SetThenGet | BasicDatabase/src/Database.py:45-72 | `set_item` then `get_item` returns the value just set at any depth; other names are unaffected |
| LogProperties.UnsetThenGet | BasicDatabase/src/Database.py:53-72 | `unset_item` then `get_item` returns the default at any depth, even if the table or a lower layer held the name; other names are unaffected |
| LogProperties.BeginKeepsReads | BasicDatabase/src/Database.py:74-77 | opening a transaction changes no visible value |
| LogProperties.BeginThenRollback | BasicDatabase/src/Database.py:74-91 | `begin_transaction` then `rollback` restores the prior state exactly |
| LogProperties.WritesThenRollback | BasicDatabase/src/Database.py:45-91 | any writes issued in a new transaction, followed by `rollback`, restore the state from before `begin_transaction` |
| LogProperties.NestedRollback | BasicDatabase/src/Database.py:74-91 | opening `n` transactions and rolling back `n` times restores the exact prior state |
| LogProperties.CommitPreservesReads | BasicDatabase/src/Database.py:93-98 | after commit, every name reads as it did before the commit |
| LogProperties.CommitRemovesUnsetName | BasicDatabase/src/Commands.py:49-50 | a name unset inside a transaction is absent from the table after commit |
| LogProperties.CommitIdle | BasicDatabase/src/Database.py:93-98 | committing with nothing open changes nothing |
| LogProperties.UnsetIdempotent | BasicDatabase/src/Commands.py:49-50 | `Unset.commit` on an absent name is a no-op; committing it twice equals committing it once |
| LogProperties.NestedPrecedence | BasicDatabase/src/Database.py:61-91 | `SET k a; BEGIN; SET k b` reads `b`; a rollback then reads `a` again |
| LogProperties.CommitNewestWins | BasicDatabase/src/Database.py:93-98 | after `SET k a; BEGIN; SET k b; BEGIN; SET k c; COMMIT` the table holds `c`, and a further rollback fails |
| MapDatabase.LayerSet | src/Database.py:104-105 | the layer now touches the name and reports the new value, overwriting any earlier entry; other names are unchanged |
| MapDatabase.Init | src/Database.py:24-28 | a new database has an empty table and no transactions, is valid, and reads every name as `None` |
| MapDatabase.ResolveFrom | src/Database.py:50-55 | the newest layer touching the name answers with its entry; otherwise `table.get(name, None)` answers |
| MapDatabase.GetItem | src/Database.py:44-55 | in a valid state, `__getitem__` resolves top-down, else from the table |
| MapDatabase.SetItem | src/Database.py:37-42 | outside a transaction, only `table[name]` changes; inside one, only the top layer's entry for the name changes; validity is kept |
| MapDatabase.DelItem | src/Database.py:57-62 | outside a transaction, only `name` is removed (no error if absent); inside one, the top layer records `None` for the name and nothing else changes |
| MapDatabase.BeginTransaction | src/Database.py:64-67 | pushes one empty layer on the unchanged stack, sets the flag, keeps the table and validity |
| MapDatabase.Rollback | src/Database.py:69-81 | fails iff no transaction is open; otherwise removes exactly the top layer and keeps the table |
| MapDatabase.WriteEntries | src/Database.py:107-110 | writing a layer's entries one name at a time gives each listed name the layer's entry, `None` included; other names are unchanged |
| MapDatabase.CommitLayer | src/Database.py:107-110 | committing a layer copies each of its entries into the table, `None` included; other names keep their entries |
| MapDatabase.ReplayLayers | src/Database.py:86-87 | after committing layers oldest first, the table holds the newest touching layer's entry for each name; untouched names are unchanged |
| MapDatabase.CommitTransactions | src/Database.py:83-88 | after a commit the stack is empty, the flag is false and the state is valid |
| MapProperties.SetThenGet | src/Database.py:37-55 | a set followed by a get returns the value just set at any depth; other names are unaffected |
| MapProperties.DelThenGet | src/Database.py:57-62 | a delete followed by a get returns `None` at any depth, even if the table or a lower layer held the name; other names are unaffected |
| MapProperties.BeginThenRollback | src/Database.py:64-81 | `begin_transaction` then `rollback` restores the prior state exactly |
| MapProperties.EntryOrderIrrelevant | src/Database.py:107-110 | any order that visits exactly the layer's names gives the same table |
| MapProperties.CommitPreservesReads | src/Database.py:83-88 | after commit, every name reads as it did before the commit |
| MapProperties.CommitKeepsDeletedName | src/Database.py:107-110 | a name deleted inside a transaction is still in the table after commit, mapped to `None`, and reads as `None` |
| Equivalence.Flatten | BasicDatabase/src/Database.py:116-128 | a log's flat map holds exactly the names the log touches, each mapped to its newest command's value |
| Equivalence.LayerRepresentationsAgree | src/Database.py:96-102 | a well-formed log and its flat map agree on `is_modifying` and on the value read for every name |
| Equivalence.ResolveAgree | BasicDatabase/src/Database.py:61-72 | matching stacks over tables that read alike resolve every name alike |
| Equivalence.ReadsAgree | src/Database.py:44-55 | corresponding stores read every name alike |
| Equivalence.SetCorresponds | src/Database.py:37-42 | a set on both stores keeps them corresponding |
| Equivalence.UnsetCorresponds | src/Database.py:57-62 | an unset on both stores keeps them corresponding; a logged `Unset` flattens to a stored `None` |
| Equivalence.BeginCorresponds | src/Database.py:64-67 | `begin_transaction` keeps the stores corresponding |
| Equivalence.RollbackCorresponds | src/Database.py:69-81 | rollback fails in one store iff it fails in the other; a successful one keeps them corresponding |
| Equivalence.CommitCorresponds | src/Database.py:83-88 | commit keeps the stores corresponding |
| Equivalence.DeleteDivergence | src/Database.py:57-62 | after a transactional delete and a commit, the log table lacks the name, the map table maps it to `None`, and both read `None` |
| Equivalence.LogStep | BasicDatabase/src/DatabaseManager.py:46-67 | each request against the command-log store keeps the store valid |
| Equivalence.FlatStep | BasicDatabase/src/DatabaseManager.py:46-67 | each request against the shadow-map store keeps the store valid |
| Equivalence.RunLog | BasicDatabase/src/DatabaseManager.py:46-67 | a whole session against the command-log store keeps the store valid |
| Equivalence.RunFlat | BasicDatabase/src/DatabaseManager.py:46-67 | a whole session against the shadow-map store keeps the store valid |
| Equivalence.StepCorresponds | BasicDatabase/src/DatabaseManager.py:46-67 | each request keeps the stores corresponding and produces the same output in both |
| Equivalence.RunCorresponds | BasicDatabase/src/DatabaseManager.py:46-67 | a whole session from corresponding stores gives the same outputs and ends in corresponding stores |
| Equivalence.SessionsAgree | BasicDatabase/src/DatabaseManager.py:46-67 | from fresh stores, every session gives the same outputs in both variants |
| Equivalence.DeleteDivergenceExample | src/Database.py:109-110 | `SET k a; BEGIN; UNSET k; COMMIT` leaves no `k` in the log table and `k` mapped to `None` in the map table |

## Left out

- The interactive command loop (`BasicDatabase/src/DatabaseManager.py`) and the start-up scripts (`src/Main.py`, `BasicDatabase/src/Main.py`) are input/output plumbing. They are not modelled. `Equivalence.Op` mirrors only the requests that loop issues; input parsing and display strings such as `NULL` and `INVALID ROLLBACK` are left out.
- The display helpers `Command._str` and `__str__` are not used by the engine and are left out.
- The exception object's back-reference to the database is not modelled. A failed rollback is `Err(InvalidRollback)`, and the caller keeps its state.
- The unused `_current_transaction` field is not modelled.
- The `hasattr(command, 'name')` guard in `Transaction.get_item` is not needed. The closed `Cmd` datatype has a name in both cases.
- The order in which `Transaction.commit` of `src/Database.py` visits a layer's names (Python 2 dict order) is not fixed by the model. `MapProperties.EntryOrderIrrelevant` shows every order gives the same table.
- MapDatabase.CommitLayer: stated only for a database outside a transaction. `commit_transactions` calls it only in that state, after lowering the flag.
- Both stores' `set`/`unset`/`rollback` in a state where the flag is set but the stack is empty are excluded by their precondition. No reachable state has that shape. There the Python would raise: `AttributeError` from `set_item`/`unset_item` (BasicDatabase/src/Database.py:51, 59); `TypeError` from `__setitem__`/`__delitem__`, which assign an item on `None` (src/Database.py:42, 62); `IndexError` from `rollback`'s `pop()` (BasicDatabase/src/Database.py:89, src/Database.py:79).
- Reading the same name twice with no write in between gives the same result because `GetItem` is a pure function. No separate lemma states this.
