/**
 The shadow-map variant of the transactional key-value store (src/Database.py).
 Each open transaction is a flat map from name to value; a delete inside a
 transaction stores `None` as the value rather than a distinct marker, and the commit
 copies that `None` into the table.
 */
module MapDatabase {
  import opened Wrappers

  /** A transaction's `_temp_table`. */
  type Layer = map<string, Option<string>>

  /** The one error the store raises: `InvalidRollbackException`. */
  datatype RollbackError = InvalidRollback

  /** `Database`: the table, the stack of open layers (oldest first) and the
      `_in_transaction` flag. The table's values are optional because a committed
      transactional delete leaves `None` stored under the name. */
  datatype Database = Database(table: map<string, Option<string>>, layers: seq<Layer>, inTxn: bool)

  /** The states the public operations can reach: the flag agrees with the stack. */
  ghost predicate Valid(db: Database)
  {
    db.inTxn <==> |db.layers| > 0
  }

  /** Both maps have an entry for `name` or neither does, and the entries agree. */
  ghost predicate AgreeOn(a: map<string, Option<string>>, b: map<string, Option<string>>, name: string)
  {
    && (name in a <==> name in b)
    && (name in a ==> a[name] == b[name])
  }

  /** `self._table.get(name, None)`. */
  function TableGet(table: map<string, Option<string>>, name: string): Option<string>
  {
    if name in table then table[name] else None
  }

  /** `Transaction.is_modifying`. */
  function IsModifying(t: Layer, name: string): bool
  {
    name in t
  }

  /** `Transaction.__getitem__`: `self._temp_table.get(name, None)`. */
  function LayerGet(t: Layer, name: string): Option<string>
  {
    if name in t then t[name] else None
  }

  /** `Transaction.__setitem__`: the layer now touches `name` and reports `value` for
      it, overwriting any earlier entry; every other name is as it was. */
  function LayerSet(t: Layer, name: string, value: Option<string>): (r: Layer)
    ensures IsModifying(r, name) && LayerGet(r, name) == value
    ensures forall n | n != name :: AgreeOn(r, t, n)
  {
    t[name := value]
  }

  /** `Database()`: an empty table, no open transaction. */
  function Init(): (db: Database)
    ensures Valid(db) && !db.inTxn
    ensures db.table == map[] && db.layers == []
    ensures forall name :: GetItem(db, name) == None
  {
    Database(map[], [], false)
  }

  /** No layer of `layers` touches `name`. */
  ghost predicate Untouched(layers: seq<Layer>, name: string)
  {
    forall i | 0 <= i < |layers| :: !IsModifying(layers[i], name)
  }

  /** Layer `i` is the newest of `layers` that touches `name`. */
  ghost predicate NewestModifier(layers: seq<Layer>, name: string, i: int)
  {
    && 0 <= i < |layers|
    && IsModifying(layers[i], name)
    && forall j | i < j < |layers| :: !IsModifying(layers[j], name)
  }

  /** The loop of `__getitem__` over `reversed(self._transactions)`, falling back to
      the table: the newest layer that touches `name` answers, else the table does. */
  function ResolveFrom(layers: seq<Layer>, table: map<string, Option<string>>, name: string): (r: Option<string>)
    ensures forall i | NewestModifier(layers, name, i) :: r == layers[i][name]
    ensures Untouched(layers, name) ==> r == TableGet(table, name)
    decreases |layers|
  {
    if |layers| == 0 then TableGet(table, name)
    else if IsModifying(layers[|layers| - 1], name) then LayerGet(layers[|layers| - 1], name)
    else
      var lower := layers[..|layers| - 1];
      assert forall i | NewestModifier(layers, name, i) :: NewestModifier(lower, name, i);
      ResolveFrom(lower, table, name)
  }

  /** `Database.__getitem__`. In a reachable state the newest open layer touching
      `name` answers with its entry (`None` for a delete); when none does, the table
      answers, with `None` for a missing name. */
  function GetItem(db: Database, name: string): (r: Option<string>)
    ensures Valid(db) ==> forall i | NewestModifier(db.layers, name, i) :: r == db.layers[i][name]
    ensures Valid(db) && Untouched(db.layers, name)
      ==> r == TableGet(db.table, name)
  {
    if db.inTxn then ResolveFrom(db.layers, db.table, name) else TableGet(db.table, name)
  }

  /** `Database.__setitem__`. The caller passes a value; the commit passes whatever a
      layer holds, `None` included. Outside a transaction it writes the table and
      nothing else; inside one it writes only the top layer, overwriting any earlier
      entry there, and leaves the table and the lower layers as they were. */
  function SetItem(db: Database, name: string, value: Option<string>): (r: Database)
    requires db.inTxn ==> |db.layers| > 0
    ensures r.inTxn == db.inTxn && |r.layers| == |db.layers|
    ensures !db.inTxn ==> r.layers == db.layers && name in r.table && r.table[name] == value
    ensures !db.inTxn ==> forall n | n != name :: AgreeOn(r.table, db.table, n)
    ensures db.inTxn ==> r.table == db.table && r.layers[..|r.layers| - 1] == db.layers[..|db.layers| - 1]
    ensures db.inTxn ==> var top := |r.layers| - 1;
      && IsModifying(r.layers[top], name) && LayerGet(r.layers[top], name) == value
      && forall n | n != name :: AgreeOn(r.layers[top], db.layers[top], n)
    ensures Valid(db) ==> Valid(r)
  {
    if !db.inTxn then db.(table := db.table[name := value])
    else
      var top := |db.layers| - 1;
      db.(layers := db.layers[..top] + [LayerSet(db.layers[top], name, value)])
  }

  /** `Database.__delitem__`. Outside a transaction it removes `name` from the table
      (a no-op when absent) and nothing else; inside one it records `None` for `name`
      in the top layer only. */
  function DelItem(db: Database, name: string): (r: Database)
    requires db.inTxn ==> |db.layers| > 0
    ensures r.inTxn == db.inTxn && |r.layers| == |db.layers|
    ensures !db.inTxn ==> r.layers == db.layers && name !in r.table
    ensures !db.inTxn ==> forall n | n != name :: AgreeOn(r.table, db.table, n)
    ensures db.inTxn ==> r.table == db.table && r.layers[..|r.layers| - 1] == db.layers[..|db.layers| - 1]
    ensures db.inTxn ==> var top := |r.layers| - 1;
      && IsModifying(r.layers[top], name) && r.layers[top][name] == None
      && forall n | n != name :: AgreeOn(r.layers[top], db.layers[top], n)
    ensures Valid(db) ==> Valid(r)
  {
    if !db.inTxn then db.(table := db.table - {name})
    else
      var top := |db.layers| - 1;
      db.(layers := db.layers[..top] + [LayerSet(db.layers[top], name, None)])
  }

  /** `Database.begin_transaction`: push an empty layer and raise the flag. */
  function BeginTransaction(db: Database): (r: Database)
    ensures r.inTxn && r.table == db.table
    ensures |r.layers| == |db.layers| + 1 && r.layers[..|db.layers|] == db.layers
    ensures forall name :: !IsModifying(r.layers[|db.layers|], name)
    ensures Valid(db) ==> Valid(r)
  {
    Database(db.table, db.layers + [map[]], true)
  }

  /** `Database.rollback`: with no open transaction it raises `InvalidRollback` (the
      caller keeps its state); otherwise it drops exactly the top layer and lowers the
      flag when none is left. */
  function Rollback(db: Database): (r: Result<Database, RollbackError>)
    requires db.inTxn ==> |db.layers| > 0
    ensures r.Err? <==> !db.inTxn
    ensures r.Ok? ==> r.value.table == db.table && r.value.layers == db.layers[..|db.layers| - 1]
    ensures r.Ok? ==> (r.value.inTxn <==> |r.value.layers| > 0)
    ensures Valid(db) && r.Ok? ==> Valid(r.value)
  {
    if !db.inTxn then Err(InvalidRollback)
    else
      var rest := db.layers[..|db.layers| - 1];
      Ok(db.(layers := rest, inTxn := if |rest| == 0 then false else db.inTxn))
  }

  /** The loop of `Transaction.commit` run over the names `keys` in that order:
      `database[name] = value` for each. Every listed name ends with the layer's entry
      (a stored `None` included); every other name is as it was. */
  function WriteEntries(db: Database, t: Layer, keys: seq<string>): (r: Database)
    requires !db.inTxn
    requires forall k | k in keys :: k in t
    ensures !r.inTxn && r.layers == db.layers
    ensures forall n | n in keys :: n in r.table && r.table[n] == t[n]
    ensures forall n | n !in keys :: AgreeOn(r.table, db.table, n)
    decreases |keys|
  {
    if |keys| == 0 then db
    else
      var last := keys[|keys| - 1];
      SetItem(WriteEntries(db, t, keys[..|keys| - 1]), last, t[last])
  }

  /** `Transaction.commit` as called by `commit_transactions`, with the flag already
      lowered: every entry of the layer is copied into the table, a stored `None`
      included, and the names the layer does not touch keep their table entries. */
  function CommitLayer(db: Database, t: Layer): (r: Database)
    requires !db.inTxn
    ensures !r.inTxn && r.layers == db.layers
    ensures forall n | n in t :: n in r.table && r.table[n] == t[n]
    ensures forall n | n !in t :: AgreeOn(r.table, db.table, n)
  {
    db.(table := db.table + t)
  }

  /** The loop of `commit_transactions`: commit every layer, oldest first. For a name
      some layer touches, the newest such layer's entry ends in the table; any other
      name keeps its table entry. */
  function ReplayLayers(db: Database, layers: seq<Layer>): (r: Database)
    requires !db.inTxn
    ensures !r.inTxn && r.layers == db.layers
    ensures forall n, i | NewestModifier(layers, n, i) :: n in r.table && r.table[n] == layers[i][n]
    ensures forall n | Untouched(layers, n) :: AgreeOn(r.table, db.table, n)
    decreases |layers|
  {
    if |layers| == 0 then db
    else
      var lower := layers[..|layers| - 1];
      assert forall n, i | NewestModifier(layers, n, i) && i < |layers| - 1 :: NewestModifier(lower, n, i);
      assert forall n | Untouched(layers, n) :: !IsModifying(layers[|layers| - 1], n) && Untouched(lower, n);
      CommitLayer(ReplayLayers(db, lower), layers[|layers| - 1])
  }

  /** `Database.commit_transactions`: lower the flag first, so that every copied
      entry writes the table, then commit all layers and empty the stack. */
  function CommitTransactions(db: Database): (r: Database)
    ensures r.layers == [] && !r.inTxn && Valid(r)
  {
    ReplayLayers(db.(inTxn := false), db.layers).(layers := [])
  }
}
