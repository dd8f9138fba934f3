/**
 Properties of the command-log store: reads after writes, rollback, and the claim
 that committing (replaying the logs oldest first into the table) leaves every
 name's visible value as it was.
 */
module LogProperties {
  import opened Wrappers
  import opened Commands
  import opened LogDatabase

  /** Two stacks that differ only in the top layer, where the two tops agree on
      `name`, resolve `name` identically. */
  lemma ResolveSameTop(a: seq<Transaction>, b: seq<Transaction>, table: map<string, string>, name: string)
    requires |a| == |b| > 0 && a[..|a| - 1] == b[..|b| - 1]
    requires IsModifying(a[|a| - 1], name) == IsModifying(b[|b| - 1], name)
    requires TxnGetItem(a[|a| - 1], name) == TxnGetItem(b[|b| - 1], name)
    ensures ResolveFrom(a, table, name) == ResolveFrom(b, table, name)
  {
  }

  /** `set_item` then `get_item` on the same name returns the value just set, at any
      depth; every other name reads as before. */
  lemma SetThenGet(db: Database, name: string, value: string)
    requires Valid(db)
    ensures GetItem(SetItem(db, name, value), name) == Some(value)
    ensures forall n | n != name :: GetItem(SetItem(db, name, value), n) == GetItem(db, n)
  {
    var r := SetItem(db, name, value);
    if db.inTxn {
      var top := |db.layers| - 1;
      assert r.layers[top] == AddCommand(db.layers[top], Set(name, value));
      assert NewestModifier(r.layers, name, top);
      forall n | n != name
        ensures GetItem(r, n) == GetItem(db, n)
      {
        ResolveSameTop(r.layers, db.layers, db.table, n);
      }
    }
  }

  /** `unset_item` then `get_item` returns the default at any depth, even when the
      table or a lower layer held the name; every other name reads as before. */
  lemma UnsetThenGet(db: Database, name: string)
    requires Valid(db)
    ensures GetItem(UnsetItem(db, name), name) == DefaultValue
    ensures forall n | n != name :: GetItem(UnsetItem(db, name), n) == GetItem(db, n)
  {
    var r := UnsetItem(db, name);
    if db.inTxn {
      var top := |db.layers| - 1;
      assert r.layers[top] == AddCommand(db.layers[top], Unset(name, DefaultValue));
      assert NewestModifier(r.layers, name, top);
      forall n | n != name
        ensures GetItem(r, n) == GetItem(db, n)
      {
        ResolveSameTop(r.layers, db.layers, db.table, n);
      }
    }
  }

  /** Opening a transaction changes no visible value. */
  lemma BeginKeepsReads(db: Database)
    requires Valid(db)
    ensures forall n :: GetItem(BeginTransaction(db), n) == GetItem(db, n)
  {
    var r := BeginTransaction(db);
    forall n
      ensures GetItem(r, n) == GetItem(db, n)
    {
      assert r.layers[..|r.layers| - 1] == db.layers;
    }
  }

  /** `begin_transaction` followed by `rollback` restores the prior state exactly. */
  lemma BeginThenRollback(db: Database)
    requires Valid(db)
    ensures Rollback(BeginTransaction(db)) == Ok(db)
  {
    var b := BeginTransaction(db);
    assert b.layers[..|b.layers| - 1] == db.layers;
  }

  /** Whatever sets and unsets are issued inside a freshly opened transaction (in
      `CommitLog` order, which is `set_item`/`unset_item` per command), rolling it
      back restores the state before `begin_transaction`. */
  lemma {:induction false} WritesThenRollback(db: Database, cmds: seq<Cmd>)
    requires Valid(db)
    ensures Rollback(CommitLog(BeginTransaction(db), cmds)) == Ok(db)
  {
    var b := BeginTransaction(db);
    var w := CommitLog(b, cmds);
    assert b.layers[..|b.layers| - 1] == db.layers;
    assert w.layers[..|w.layers| - 1] == db.layers;
  }

  /** `n` nested `begin_transaction` calls. */
  function BeginN(db: Database, n: nat): (r: Database)
    ensures Valid(db) ==> Valid(r)
    ensures n > 0 ==> r.inTxn
  {
    if n == 0 then db else BeginTransaction(BeginN(db, n - 1))
  }

  /** `n` successive `rollback` calls, stopping at the first failure. */
  function RollbackN(db: Database, n: nat): Result<Database, RollbackError>
    requires Valid(db)
    decreases n
  {
    if n == 0 then Ok(db)
    else match Rollback(db)
      case Err(e) => Err(e)
      case Ok(d) => RollbackN(d, n - 1)
  }

  /** Opening `n` transactions and rolling all of them back restores the exact state
      before the first `begin_transaction`, whatever was already open. */
  lemma {:induction false} NestedRollback(db: Database, n: nat)
    requires Valid(db)
    ensures RollbackN(BeginN(db, n), n) == Ok(db)
  {
    if n > 0 {
      var inner := BeginN(db, n - 1);
      BeginThenRollback(inner);
      NestedRollback(db, n - 1);
    }
  }

  /** `commit_transactions` empties the stack and leaves the visible value of every
      name as it was before the commit. */
  lemma CommitPreservesReads(db: Database)
    requires Valid(db)
    ensures forall n :: GetItem(CommitTransactions(db), n) == GetItem(db, n)
  {
  }

  /** A name unset inside a transaction is absent from the table after the commit,
      exactly as an unset outside any transaction leaves it. */
  lemma CommitRemovesUnsetName(db: Database, name: string)
    requires Valid(db) && db.inTxn
    ensures name !in CommitTransactions(UnsetItem(db, name)).table
  {
    UnsetThenGet(db, name);
    CommitPreservesReads(UnsetItem(db, name));
  }

  /** Committing with nothing open changes nothing. */
  lemma CommitIdle(db: Database)
    requires Valid(db) && !db.inTxn
    ensures CommitTransactions(db) == db
  {
  }

  /** `Unset.commit` outside a transaction on an absent name changes nothing and
      raises nothing, and committing the same unset twice is committing it once. */
  lemma UnsetIdempotent(db: Database, c: Cmd)
    requires !db.inTxn && c.Unset?
    ensures c.name !in db.table ==> CommitCommand(db, c) == db
    ensures CommitCommand(CommitCommand(db, c), c) == CommitCommand(db, c)
  {
    if c.name !in db.table {
      assert db.table - {c.name} == db.table;
    }
    var once := CommitCommand(db, c);
    assert once.table - {c.name} == once.table;
  }

  /** Nested write precedence: `SET k a; BEGIN; SET k b` reads `b`, and a `ROLLBACK`
      brings back `a`. */
  lemma NestedPrecedence(db: Database, k: string, a: string, b: string)
    requires Valid(db)
    ensures var inner := SetItem(BeginTransaction(SetItem(db, k, a)), k, b);
      && GetItem(inner, k) == Some(b)
      && Rollback(inner).Ok?
      && GetItem(Rollback(inner).value, k) == Some(a)
  {
    var outer := SetItem(db, k, a);
    SetThenGet(db, k, a);
    var begun := BeginTransaction(outer);
    BeginKeepsReads(outer);
    var inner := SetItem(begun, k, b);
    SetThenGet(begun, k, b);
    var back := Rollback(inner).value;
    assert back.layers == outer.layers;
    assert back == outer;
  }

  /** Commit flattening: after `SET k a; BEGIN; SET k b; BEGIN; SET k c; COMMIT` the
      table holds `c` for `k`, and a further `ROLLBACK` fails. */
  lemma CommitNewestWins(db: Database, k: string, a: string, b: string, c: string)
    requires Valid(db)
    ensures var s := SetItem(BeginTransaction(SetItem(BeginTransaction(SetItem(db, k, a)), k, b)), k, c);
      && CommitTransactions(s).table[k] == c
      && Rollback(CommitTransactions(s)) == Err(InvalidRollback)
  {
    var s1 := SetItem(db, k, a);
    var s2 := SetItem(BeginTransaction(s1), k, b);
    var s3 := SetItem(BeginTransaction(s2), k, c);
    SetThenGet(BeginTransaction(s2), k, c);
    CommitPreservesReads(s3);
  }
}
