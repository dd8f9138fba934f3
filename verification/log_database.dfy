/**
 The command-log variant of the transactional key-value store
 (BasicDatabase/src/Database.py). Each open transaction is an ordered log of
 `Set`/`Unset` commands plus the set of names it touches; transactions are stacked
 above a base table, newest last.

 The Python object's mutable fields become one immutable `Database` value and each
 method becomes a function from the old state to the new one.
 */
module LogDatabase {
  import opened Wrappers
  import opened Commands

  /** `Database._default_value`: what a read reports for a name that has no value. */
  const DefaultValue: Option<string> := None

  /** `Transaction`: the command log and the names its commands touch. */
  datatype Transaction = Transaction(commands: seq<Cmd>, touched: set<string>)

  /** The one error the store raises: `InvalidRollbackException`. */
  datatype RollbackError = InvalidRollback

  /** `Database`: the base table, the stack of open transactions (oldest first) and
      the `_in_transaction` flag. */
  datatype Database = Database(table: map<string, string>, layers: seq<Transaction>, inTxn: bool)

  /** The names the commands of a log touch. */
  function Names(cmds: seq<Cmd>): set<string>
  {
    set c | c in cmds :: c.name
  }

  /** A transaction built only through `AddCommand` by `set_item`/`unset_item`: its
      name set is exactly the names in its log, and every `Unset` carries the default. */
  ghost predicate WfTransaction(t: Transaction)
  {
    && t.touched == Names(t.commands)
    && forall c | c in t.commands && c.Unset? :: c.dflt == DefaultValue
  }

  /** The states the public operations can reach: the flag agrees with the stack and
      every open transaction is well formed. */
  ghost predicate Valid(db: Database)
  {
    && (db.inTxn <==> |db.layers| > 0)
    && forall i | 0 <= i < |db.layers| :: WfTransaction(db.layers[i])
  }

  /** What a command leaves in the base table when committed: a value, or no entry. */
  function Effect(c: Cmd): Option<string>
  {
    match c
    case Set(_, v) => Some(v)
    case Unset(_, _) => None
  }

  /** `self._table.get(name, self._default_value)`. */
  function TableGet(table: map<string, string>, name: string): Option<string>
  {
    if name in table then Some(table[name]) else DefaultValue
  }

  /** A fresh `Transaction()`: an empty log that touches no name. */
  function EmptyTransaction(): (t: Transaction)
    ensures WfTransaction(t)
    ensures forall name :: !IsModifying(t, name)
  {
    Transaction([], {})
  }

  /** `Transaction.is_modifying`: membership in the name set, which for a well-formed
      transaction means some command of the log names `name`. */
  function IsModifying(t: Transaction, name: string): (r: bool)
    ensures WfTransaction(t) ==> (r <==> exists i | 0 <= i < |t.commands| :: t.commands[i].name == name)
  {
    assert forall i | 0 <= i < |t.commands| :: t.commands[i] in t.commands;
    name in t.touched
  }

  /** The position of the newest command in `cmds` that names `name`: the command the
      reverse scan of `Transaction.get_item` stops at. */
  function NewestIndex(cmds: seq<Cmd>, name: string): (r: Option<nat>)
    ensures r.Some? ==> r.value < |cmds| && cmds[r.value].name == name
    ensures r.Some? ==> forall j | r.value < j < |cmds| :: cmds[j].name != name
    ensures r.None? <==> forall j | 0 <= j < |cmds| :: cmds[j].name != name
    decreases |cmds|
  {
    if |cmds| == 0 then None
    else if cmds[|cmds| - 1].name == name then Some(|cmds| - 1)
    else NewestIndex(cmds[..|cmds| - 1], name)
  }

  /** `Transaction.get_item`: `None` for a name the transaction does not touch,
      otherwise the `value` of the newest command for that name. */
  function TxnGetItem(t: Transaction, name: string): (r: Option<string>)
    ensures !IsModifying(t, name) ==> r == None
    ensures WfTransaction(t) ==>
      forall i | 0 <= i < |t.commands| && t.commands[i].name == name
                 && (forall j | i < j < |t.commands| :: t.commands[j].name != name)
        :: r == Reported(t.commands[i])
  {
    if !IsModifying(t, name) then None
    else match NewestIndex(t.commands, name)
      case None => None
      case Some(i) => Reported(t.commands[i])
  }

  /** `Transaction.add_command`: append to the log and record the name. Afterwards the
      transaction touches the command's name and reports the command's value for it;
      every other name reads as before. */
  function AddCommand(t: Transaction, c: Cmd): (r: Transaction)
    ensures forall name :: IsModifying(r, name) <==> IsModifying(t, name) || name == c.name
    ensures TxnGetItem(r, c.name) == Reported(c)
    ensures forall name | name != c.name :: TxnGetItem(r, name) == TxnGetItem(t, name)
    ensures WfTransaction(t) && (c.Unset? ==> c.dflt == DefaultValue) ==> WfTransaction(r)
  {
    var r := Transaction(t.commands + [c], t.touched + {c.name});
    assert r.commands[..|t.commands|] == t.commands;
    r
  }

  /** `Database()`: an empty table, no open transaction. */
  function Init(): (db: Database)
    ensures Valid(db) && !db.inTxn
    ensures db.table == map[] && db.layers == []
    ensures forall name :: GetItem(db, name) == DefaultValue
  {
    Database(map[], [], false)
  }

  /** No layer of `layers` touches `name`. */
  ghost predicate Untouched(layers: seq<Transaction>, name: string)
  {
    forall i | 0 <= i < |layers| :: !IsModifying(layers[i], name)
  }

  /** Layer `i` is the newest of `layers` whose transaction touches `name`. */
  ghost predicate NewestModifier(layers: seq<Transaction>, name: string, i: int)
  {
    && 0 <= i < |layers|
    && IsModifying(layers[i], name)
    && forall j | i < j < |layers| :: !IsModifying(layers[j], name)
  }

  /** The loop of `get_item` over `reversed(self._transactions)`, falling back to the
      table: the newest layer that touches `name` answers, else the table does. */
  function ResolveFrom(layers: seq<Transaction>, table: map<string, string>, name: string): (r: Option<string>)
    ensures forall i | NewestModifier(layers, name, i) :: r == TxnGetItem(layers[i], name)
    ensures Untouched(layers, name) ==> r == TableGet(table, name)
    decreases |layers|
  {
    if |layers| == 0 then TableGet(table, name)
    else if IsModifying(layers[|layers| - 1], name) then TxnGetItem(layers[|layers| - 1], name)
    else
      var lower := layers[..|layers| - 1];
      assert forall i | NewestModifier(layers, name, i) :: NewestModifier(lower, name, i);
      ResolveFrom(lower, table, name)
  }

  /** `Database.get_item`. In a reachable state the newest open transaction touching
      `name` answers; when none does, the table entry or the default answers. */
  function GetItem(db: Database, name: string): (r: Option<string>)
    ensures Valid(db) ==> forall i | NewestModifier(db.layers, name, i) :: r == TxnGetItem(db.layers[i], name)
    ensures Valid(db) && Untouched(db.layers, name)
      ==> r == TableGet(db.table, name)
  {
    if db.inTxn then ResolveFrom(db.layers, db.table, name) else TableGet(db.table, name)
  }

  /** `Database.set_item`. Outside a transaction it writes the table and nothing else;
      inside one it appends `Set(name, value)` to the top log and leaves the table and
      every lower layer as they were. */
  function SetItem(db: Database, name: string, value: string): (r: Database)
    requires db.inTxn ==> |db.layers| > 0
    ensures r.inTxn == db.inTxn && |r.layers| == |db.layers|
    ensures !db.inTxn ==> r.layers == db.layers && name in r.table && r.table[name] == value
    ensures !db.inTxn ==> forall n | n != name :: TableGet(r.table, n) == TableGet(db.table, n)
    ensures db.inTxn ==> r.table == db.table && r.layers[..|r.layers| - 1] == db.layers[..|db.layers| - 1]
    ensures db.inTxn ==>
      r.layers[|r.layers| - 1].commands == db.layers[|db.layers| - 1].commands + [Set(name, value)]
    ensures Valid(db) ==> Valid(r)
  {
    if !db.inTxn then db.(table := db.table[name := value])
    else
      var top := |db.layers| - 1;
      db.(layers := db.layers[..top] + [AddCommand(db.layers[top], Set(name, value))])
  }

  /** `Database.unset_item`. Outside a transaction it removes `name` from the table (a
      no-op when absent) and nothing else; inside one it appends
      `Unset(name, DefaultValue)` to the top log and leaves the table and every lower
      layer as they were. */
  function UnsetItem(db: Database, name: string): (r: Database)
    requires db.inTxn ==> |db.layers| > 0
    ensures r.inTxn == db.inTxn && |r.layers| == |db.layers|
    ensures !db.inTxn ==> r.layers == db.layers && name !in r.table
    ensures !db.inTxn ==> forall n | n != name :: TableGet(r.table, n) == TableGet(db.table, n)
    ensures db.inTxn ==> r.table == db.table && r.layers[..|r.layers| - 1] == db.layers[..|db.layers| - 1]
    ensures db.inTxn ==>
      r.layers[|r.layers| - 1].commands == db.layers[|db.layers| - 1].commands + [Unset(name, DefaultValue)]
    ensures Valid(db) ==> Valid(r)
  {
    if !db.inTxn then db.(table := db.table - {name})
    else
      var top := |db.layers| - 1;
      db.(layers := db.layers[..top] + [AddCommand(db.layers[top], Unset(name, DefaultValue))])
  }

  /** `Database.begin_transaction`: push an empty transaction and raise the flag. */
  function BeginTransaction(db: Database): (r: Database)
    ensures r.inTxn && r.table == db.table
    ensures |r.layers| == |db.layers| + 1 && r.layers[..|db.layers|] == db.layers
    ensures forall name :: !IsModifying(r.layers[|db.layers|], name)
    ensures Valid(db) ==> Valid(r)
  {
    Database(db.table, db.layers + [EmptyTransaction()], true)
  }

  /** `Database.rollback`: with no open transaction it raises `InvalidRollback` (the
      caller keeps its state); otherwise it drops exactly the top transaction and
      lowers the flag when none is left. */
  function Rollback(db: Database): (r: Result<Database, RollbackError>)
    requires db.inTxn ==> |db.layers| > 0
    ensures r.Err? <==> !db.inTxn
    ensures r.Ok? ==> r.value.table == db.table && r.value.layers == db.layers[..|db.layers| - 1]
    ensures r.Ok? ==> (r.value.inTxn <==> |r.value.layers| > 0)
    ensures Valid(db) && r.Ok? ==> Valid(r.value)
  {
    if !db.inTxn then Err(InvalidRollback)
    else
      var rest := db.layers[..|db.layers| - 1];
      Ok(db.(layers := rest, inTxn := if |rest| == 0 then false else db.inTxn))
  }

  /** `Command.commit` for the two commands: `Set` calls `set_item`, `Unset` calls
      `unset_item`. Outside a transaction the command's effect lands in the table and
      no other name changes. */
  function CommitCommand(db: Database, c: Cmd): (r: Database)
    requires db.inTxn ==> |db.layers| > 0
    ensures r.inTxn == db.inTxn && |r.layers| == |db.layers|
    ensures db.inTxn ==> r.table == db.table && r.layers[..|r.layers| - 1] == db.layers[..|db.layers| - 1]
    ensures !db.inTxn ==> r.layers == db.layers && TableGet(r.table, c.name) == Effect(c)
    ensures !db.inTxn ==> forall n | n != c.name :: TableGet(r.table, n) == TableGet(db.table, n)
  {
    match c
    case Set(name, value) => SetItem(db, name, value)
    case Unset(name, _) => UnsetItem(db, name)
  }

  /** `Transaction.commit`: commit every command of the log in the order issued
      (written as "all but the last, then the last"). Outside a transaction each name
      ends with the effect of the newest command that names it, or keeps its table
      value when no command does. */
  function CommitLog(db: Database, cmds: seq<Cmd>): (r: Database)
    requires db.inTxn ==> |db.layers| > 0
    ensures r.inTxn == db.inTxn && |r.layers| == |db.layers|
    ensures db.inTxn ==> r.table == db.table && r.layers[..|r.layers| - 1] == db.layers[..|db.layers| - 1]
    ensures !db.inTxn ==> r.layers == db.layers
    ensures !db.inTxn ==> forall n ::
      TableGet(r.table, n) == match NewestIndex(cmds, n)
                              case Some(i) => Effect(cmds[i])
                              case None => TableGet(db.table, n)
    decreases |cmds|
  {
    if |cmds| == 0 then db
    else CommitCommand(CommitLog(db, cmds[..|cmds| - 1]), cmds[|cmds| - 1])
  }

  /** For a well-formed transaction, touching a name is the same as having a command
      for it, and the reported value is that newest command's effect on the table. */
  lemma TxnGetItemIsEffect(t: Transaction, name: string)
    requires WfTransaction(t)
    ensures IsModifying(t, name) <==> NewestIndex(t.commands, name).Some?
    ensures IsModifying(t, name) ==> TxnGetItem(t, name) == Effect(t.commands[NewestIndex(t.commands, name).value])
  {
    var k := NewestIndex(t.commands, name);
    if k.Some? {
      var c := t.commands[k.value];
      assert c in t.commands;
      assert Reported(c) == Effect(c);
    }
  }

  /** `TxnGetItemIsEffect` for every name at once. */
  lemma TxnGetItemIsEffectAll(t: Transaction)
    ensures WfTransaction(t) ==> forall n ::
      && (IsModifying(t, n) <==> NewestIndex(t.commands, n).Some?)
      && (IsModifying(t, n) ==> TxnGetItem(t, n) == Effect(t.commands[NewestIndex(t.commands, n).value]))
  {
    if WfTransaction(t) {
      forall n
        ensures IsModifying(t, n) <==> NewestIndex(t.commands, n).Some?
        ensures IsModifying(t, n) ==> TxnGetItem(t, n) == Effect(t.commands[NewestIndex(t.commands, n).value])
      {
        TxnGetItemIsEffect(t, n);
      }
    }
  }

  /** The loop of `commit_transactions`: commit every transaction, oldest first.
      With the flag down every command writes the table, so each name ends with the
      value a top-down read of the stack would give: commit order agrees with read
      order. */
  function ReplayLayers(db: Database, layers: seq<Transaction>): (r: Database)
    requires !db.inTxn
    ensures !r.inTxn && r.layers == db.layers
    ensures (forall i | 0 <= i < |layers| :: WfTransaction(layers[i])) ==>
      forall n :: TableGet(r.table, n) == ResolveFrom(layers, db.table, n)
    decreases |layers|
  {
    if |layers| == 0 then db
    else
      var lower := layers[..|layers| - 1];
      var top := layers[|layers| - 1];
      TxnGetItemIsEffectAll(top);
      assert (forall i | 0 <= i < |layers| :: WfTransaction(layers[i])) ==>
        forall i | 0 <= i < |lower| :: WfTransaction(lower[i]);
      CommitLog(ReplayLayers(db, lower), top.commands)
  }

  /** `Database.commit_transactions`: lower the flag first, so that every replayed
      command writes the table, then replay all transactions and empty the stack. */
  function CommitTransactions(db: Database): (r: Database)
    ensures r.layers == [] && !r.inTxn && Valid(r)
  {
    ReplayLayers(db.(inTxn := false), db.layers).(layers := [])
  }
}
