/**
 Properties of the shadow-map store: reads after writes, rollback, the order of a
 layer's commit, and the commit's effect on reads and on the table.
 */
module MapProperties {
  import opened Wrappers
  import opened MapDatabase

  /** When some layer touches `name`, one of them is the newest. */
  lemma {:induction false} NewestOf(layers: seq<Layer>, name: string) returns (i: int)
    requires !Untouched(layers, name)
    ensures NewestModifier(layers, name, i)
    decreases |layers|
  {
    var top := |layers| - 1;
    if IsModifying(layers[top], name) {
      i := top;
    } else {
      var lower := layers[..top];
      assert !Untouched(lower, name) by {
        var k :| 0 <= k < |layers| && IsModifying(layers[k], name);
        assert k < top && lower[k] == layers[k];
      }
      i := NewestOf(lower, name);
      assert lower[i] == layers[i];
    }
  }

  /** Two stacks that differ only in the top layer, where the two tops agree on
      `name`, resolve `name` identically. */
  lemma ResolveSameTop(a: seq<Layer>, b: seq<Layer>, table: map<string, Option<string>>, name: string)
    requires |a| == |b| > 0 && a[..|a| - 1] == b[..|b| - 1]
    requires AgreeOn(a[|a| - 1], b[|b| - 1], name)
    ensures ResolveFrom(a, table, name) == ResolveFrom(b, table, name)
  {
  }

  /** `db[name] = value` then `db[name]` returns the value just set, at any depth;
      every other name reads as before. */
  lemma SetThenGet(db: Database, name: string, value: string)
    requires Valid(db)
    ensures GetItem(SetItem(db, name, Some(value)), name) == Some(value)
    ensures forall n | n != name :: GetItem(SetItem(db, name, Some(value)), n) == GetItem(db, n)
  {
    var r := SetItem(db, name, Some(value));
    if db.inTxn {
      assert NewestModifier(r.layers, name, |r.layers| - 1);
      forall n | n != name
        ensures GetItem(r, n) == GetItem(db, n)
      {
        ResolveSameTop(r.layers, db.layers, db.table, n);
      }
    }
  }

  /** `del db[name]` then `db[name]` returns `None` at any depth, even when the table
      or a lower layer held the name; every other name reads as before. */
  lemma DelThenGet(db: Database, name: string)
    requires Valid(db)
    ensures GetItem(DelItem(db, name), name) == None
    ensures forall n | n != name :: GetItem(DelItem(db, name), n) == GetItem(db, n)
  {
    var r := DelItem(db, name);
    if db.inTxn {
      assert NewestModifier(r.layers, name, |r.layers| - 1);
      forall n | n != name
        ensures GetItem(r, n) == GetItem(db, n)
      {
        ResolveSameTop(r.layers, db.layers, db.table, n);
      }
    }
  }

  /** `begin_transaction` followed by `rollback` restores the prior state exactly. */
  lemma BeginThenRollback(db: Database)
    requires Valid(db)
    ensures Rollback(BeginTransaction(db)) == Ok(db)
  {
    var b := BeginTransaction(db);
    assert b.layers[..|b.layers| - 1] == db.layers;
  }

  /** The names of a layer are distinct, so the order in which `Transaction.commit`
      visits them does not matter: any listing of exactly the layer's names gives
      the table `CommitLayer` describes. */
  lemma EntryOrderIrrelevant(db: Database, t: Layer, keys: seq<string>)
    requires !db.inTxn
    requires forall k | k in keys :: k in t
    requires forall k | k in t :: k in keys
    ensures WriteEntries(db, t, keys) == CommitLayer(db, t)
  {
    var w := WriteEntries(db, t, keys).table;
    var c := CommitLayer(db, t).table;
    assert forall n :: AgreeOn(w, c, n);
    assert w.Keys == c.Keys;
  }

  /** `commit_transactions` empties the stack and leaves the visible value of every
      name as it was before the commit. */
  lemma CommitPreservesReads(db: Database)
    requires Valid(db)
    ensures forall n :: GetItem(CommitTransactions(db), n) == GetItem(db, n)
  {
    var r := CommitTransactions(db);
    forall n
      ensures GetItem(r, n) == GetItem(db, n)
    {
      if !Untouched(db.layers, n) {
        var i := NewestOf(db.layers, n);
      }
    }
  }

  /** A name deleted inside a transaction is still present in the table after the
      commit, holding `None`, although reads report it as missing; a delete outside
      any transaction removes the name. */
  lemma CommitKeepsDeletedName(db: Database, name: string)
    requires Valid(db) && db.inTxn
    ensures var r := CommitTransactions(DelItem(db, name));
      name in r.table && r.table[name] == None && GetItem(r, name) == None
  {
    var d := DelItem(db, name);
    assert NewestModifier(d.layers, name, |d.layers| - 1);
    DelThenGet(db, name);
    CommitPreservesReads(d);
  }
}
