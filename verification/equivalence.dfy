/**
 The two variants of the store side by side. A command log stands for the flat map
 from each name it touches to its newest command's value; under that reading every
 operation of one variant matches the same operation of the other, so any session of
 operations reads the same values and fails the same rollbacks in both. The tables
 themselves differ in one way: after a transactional delete is committed the log
 variant has removed the name while the map variant stores `None` under it.
 */
module Equivalence {
  import opened Wrappers
  import opened Commands
  import Log = LogDatabase
  import Flat = MapDatabase
  import LogProperties
  import MapProperties

  /** The shadow map a command log stands for: every name the log touches, mapped to
      the value of the newest command for it. */
  function Flatten(cmds: seq<Cmd>): (r: Flat.Layer)
    ensures forall n :: n in r <==> Log.NewestIndex(cmds, n).Some?
    ensures forall n | n in r :: r[n] == Reported(cmds[Log.NewestIndex(cmds, n).value])
    decreases |cmds|
  {
    if |cmds| == 0 then map[]
    else
      var last := cmds[|cmds| - 1];
      Flatten(cmds[..|cmds| - 1])[last.name := Reported(last)]
  }

  /** A well-formed log and its flat map touch the same names and report the same
      value for each: the two layer representations resolve identically. */
  lemma LayerRepresentationsAgree(t: Log.Transaction, n: string)
    requires Log.WfTransaction(t)
    ensures Flat.IsModifying(Flatten(t.commands), n) == Log.IsModifying(t, n)
    ensures Flat.LayerGet(Flatten(t.commands), n) == Log.TxnGetItem(t, n)
  {
    Log.TxnGetItemIsEffect(t, n);
  }

  /** The abstraction relation between a command-log store and a shadow-map store:
      same flag, each map layer is the flattening of the matching log, and the two
      tables read alike for every name (they may still differ in which names hold a
      stored `None`). */
  ghost predicate Corresponds(l: Log.Database, m: Flat.Database)
  {
    && Log.Valid(l)
    && l.inTxn == m.inTxn
    && |l.layers| == |m.layers|
    && (forall i | 0 <= i < |l.layers| :: m.layers[i] == Flatten(l.layers[i].commands))
    && forall n :: Log.TableGet(l.table, n) == Flat.TableGet(m.table, n)
  }

  /** Matching stacks over tables that read alike resolve every name alike. */
  lemma {:induction false} ResolveAgree(ls: seq<Log.Transaction>, ms: seq<Flat.Layer>,
                                        lt: map<string, string>, mt: map<string, Option<string>>, n: string)
    requires |ls| == |ms|
    requires forall i | 0 <= i < |ls| :: Log.WfTransaction(ls[i]) && ms[i] == Flatten(ls[i].commands)
    requires Log.TableGet(lt, n) == Flat.TableGet(mt, n)
    ensures Log.ResolveFrom(ls, lt, n) == Flat.ResolveFrom(ms, mt, n)
    decreases |ls|
  {
    if |ls| > 0 {
      var top := |ls| - 1;
      LayerRepresentationsAgree(ls[top], n);
      if !Log.IsModifying(ls[top], n) {
        var lower, flatLower := ls[..top], ms[..top];
        assert forall i | 0 <= i < top :: lower[i] == ls[i] && flatLower[i] == ms[i];
        ResolveAgree(lower, flatLower, lt, mt, n);
      }
    }
  }

  /** Corresponding stores read every name alike. */
  lemma ReadsAgree(l: Log.Database, m: Flat.Database)
    requires Corresponds(l, m)
    ensures Flat.Valid(m)
    ensures forall n :: Log.GetItem(l, n) == Flat.GetItem(m, n)
  {
    forall n
      ensures Log.GetItem(l, n) == Flat.GetItem(m, n)
    {
      ResolveAgree(l.layers, m.layers, l.table, m.table, n);
    }
  }

  /** `set_item` and `__setitem__` with the same name and value keep the stores
      corresponding. */
  lemma SetCorresponds(l: Log.Database, m: Flat.Database, name: string, value: string)
    requires Corresponds(l, m)
    ensures Corresponds(Log.SetItem(l, name, value), Flat.SetItem(m, name, Some(value)))
  {
    var l' := Log.SetItem(l, name, value);
    var m' := Flat.SetItem(m, name, Some(value));
    if l.inTxn {
      var top := |l.layers| - 1;
      var cmds := l.layers[top].commands;
      assert (cmds + [Set(name, value)])[..|cmds|] == cmds;
      assert m'.layers[top] == Flatten(l'.layers[top].commands);
      forall i | 0 <= i < top
        ensures m'.layers[i] == Flatten(l'.layers[i].commands)
      {
        assert m'.layers[i] == m'.layers[..top][i];
        assert l'.layers[i] == l'.layers[..top][i];
      }
    }
  }

  /** `unset_item` and `__delitem__` on the same name keep the stores corresponding:
      a logged `Unset` flattens to the stored `None`. */
  lemma UnsetCorresponds(l: Log.Database, m: Flat.Database, name: string)
    requires Corresponds(l, m)
    ensures Corresponds(Log.UnsetItem(l, name), Flat.DelItem(m, name))
  {
    var l' := Log.UnsetItem(l, name);
    var m' := Flat.DelItem(m, name);
    if l.inTxn {
      var top := |l.layers| - 1;
      var cmds := l.layers[top].commands;
      assert (cmds + [Unset(name, Log.DefaultValue)])[..|cmds|] == cmds;
      assert m'.layers[top] == Flatten(l'.layers[top].commands);
      forall i | 0 <= i < top
        ensures m'.layers[i] == Flatten(l'.layers[i].commands)
      {
        assert m'.layers[i] == m'.layers[..top][i];
        assert l'.layers[i] == l'.layers[..top][i];
      }
    }
  }

  /** `begin_transaction` keeps the stores corresponding. */
  lemma BeginCorresponds(l: Log.Database, m: Flat.Database)
    requires Corresponds(l, m)
    ensures Corresponds(Log.BeginTransaction(l), Flat.BeginTransaction(m))
  {
    var l' := Log.BeginTransaction(l);
    var m' := Flat.BeginTransaction(m);
    forall i | 0 <= i < |l.layers|
      ensures m'.layers[i] == Flatten(l'.layers[i].commands)
    {
      assert m'.layers[i] == m'.layers[..|m.layers|][i];
      assert l'.layers[i] == l'.layers[..|l.layers|][i];
    }
  }

  /** `rollback` fails in one store exactly when it fails in the other, and a
      successful rollback keeps the stores corresponding. */
  lemma RollbackCorresponds(l: Log.Database, m: Flat.Database)
    requires Corresponds(l, m)
    ensures Log.Rollback(l).Err? <==> Flat.Rollback(m).Err?
    ensures Log.Rollback(l).Ok? ==> Corresponds(Log.Rollback(l).value, Flat.Rollback(m).value)
  {
  }

  /** `commit_transactions` keeps the stores corresponding, although the tables it
      leaves may differ in where a `None` is stored. */
  lemma CommitCorresponds(l: Log.Database, m: Flat.Database)
    requires Corresponds(l, m)
    ensures Corresponds(Log.CommitTransactions(l), Flat.CommitTransactions(m))
  {
    ReadsAgree(l, m);
    LogProperties.CommitPreservesReads(l);
    MapProperties.CommitPreservesReads(m);
    var l' := Log.CommitTransactions(l);
    var m' := Flat.CommitTransactions(m);
    forall n
      ensures Log.TableGet(l'.table, n) == Flat.TableGet(m'.table, n)
    {
      assert Log.GetItem(l', n) == Log.GetItem(l, n);
    }
  }

  /** The divergence: after `unset` inside a transaction and a commit, the log store
      no longer has the name in its table, while the map store holds `None` under it;
      both still read it as missing. */
  lemma DeleteDivergence(l: Log.Database, m: Flat.Database, name: string)
    requires Corresponds(l, m) && l.inTxn
    ensures name !in Log.CommitTransactions(Log.UnsetItem(l, name)).table
    ensures var t := Flat.CommitTransactions(Flat.DelItem(m, name)).table;
      name in t && t[name] == None
    ensures Log.GetItem(Log.CommitTransactions(Log.UnsetItem(l, name)), name)
         == Flat.GetItem(Flat.CommitTransactions(Flat.DelItem(m, name)), name)
         == None
  {
    LogProperties.CommitRemovesUnsetName(l, name);
    MapProperties.CommitKeepsDeletedName(m, name);
    UnsetCorresponds(l, m, name);
    CommitCorresponds(Log.UnsetItem(l, name), Flat.DelItem(m, name));
    ReadsAgree(Log.CommitTransactions(Log.UnsetItem(l, name)), Flat.CommitTransactions(Flat.DelItem(m, name)));
  }

  /** One request of a session, as the command loop issues them. */
  datatype Op = Get(name: string) | Put(name: string, value: string) | Delete(name: string)
              | Begin | Rollback | Commit

  /** What a session observes: a read's result, or a rejected rollback. */
  datatype Output = Value(v: Option<string>) | InvalidRollbackReported

  /** One request against the command-log store; a rejected rollback keeps the state. */
  function LogStep(l: Log.Database, op: Op): (r: (Log.Database, seq<Output>))
    requires Log.Valid(l)
    ensures Log.Valid(r.0)
  {
    match op
    case Get(n) => (l, [Value(Log.GetItem(l, n))])
    case Put(n, v) => (Log.SetItem(l, n, v), [])
    case Delete(n) => (Log.UnsetItem(l, n), [])
    case Begin => (Log.BeginTransaction(l), [])
    case Rollback =>
      (match Log.Rollback(l)
       case Ok(d) => (d, [])
       case Err(_) => (l, [InvalidRollbackReported]))
    case Commit => (Log.CommitTransactions(l), [])
  }

  /** One request against the shadow-map store; a rejected rollback keeps the state. */
  function FlatStep(m: Flat.Database, op: Op): (r: (Flat.Database, seq<Output>))
    requires Flat.Valid(m)
    ensures Flat.Valid(r.0)
  {
    match op
    case Get(n) => (m, [Value(Flat.GetItem(m, n))])
    case Put(n, v) => (Flat.SetItem(m, n, Some(v)), [])
    case Delete(n) => (Flat.DelItem(m, n), [])
    case Begin => (Flat.BeginTransaction(m), [])
    case Rollback =>
      (match Flat.Rollback(m)
       case Ok(d) => (d, [])
       case Err(_) => (m, [InvalidRollbackReported]))
    case Commit => (Flat.CommitTransactions(m), [])
  }

  /** A whole session against the command-log store. */
  function RunLog(l: Log.Database, ops: seq<Op>): (r: (Log.Database, seq<Output>))
    requires Log.Valid(l)
    ensures Log.Valid(r.0)
    decreases |ops|
  {
    if |ops| == 0 then (l, [])
    else
      var (d, out) := LogStep(l, ops[0]);
      var (e, rest) := RunLog(d, ops[1..]);
      (e, out + rest)
  }

  /** A whole session against the shadow-map store. */
  function RunFlat(m: Flat.Database, ops: seq<Op>): (r: (Flat.Database, seq<Output>))
    requires Flat.Valid(m)
    ensures Flat.Valid(r.0)
    decreases |ops|
  {
    if |ops| == 0 then (m, [])
    else
      var (d, out) := FlatStep(m, ops[0]);
      var (e, rest) := RunFlat(d, ops[1..]);
      (e, out + rest)
  }

  /** One request keeps corresponding stores corresponding and observes the same. */
  lemma StepCorresponds(l: Log.Database, m: Flat.Database, op: Op)
    requires Corresponds(l, m)
    ensures Flat.Valid(m)
    ensures Corresponds(LogStep(l, op).0, FlatStep(m, op).0)
    ensures LogStep(l, op).1 == FlatStep(m, op).1
  {
    ReadsAgree(l, m);
    match op
    case Get(n) =>
    case Put(n, v) => SetCorresponds(l, m, n, v);
    case Delete(n) => UnsetCorresponds(l, m, n);
    case Begin => BeginCorresponds(l, m);
    case Rollback => RollbackCorresponds(l, m);
    case Commit => CommitCorresponds(l, m);
  }

  /** Any session run from corresponding stores observes the same reads and the same
      rejected rollbacks, and ends in corresponding stores. */
  lemma {:induction false} RunCorresponds(l: Log.Database, m: Flat.Database, ops: seq<Op>)
    requires Corresponds(l, m)
    ensures Flat.Valid(m)
    ensures Corresponds(RunLog(l, ops).0, RunFlat(m, ops).0)
    ensures RunLog(l, ops).1 == RunFlat(m, ops).1
    decreases |ops|
  {
    ReadsAgree(l, m);
    if |ops| > 0 {
      StepCorresponds(l, m, ops[0]);
      RunCorresponds(LogStep(l, ops[0]).0, FlatStep(m, ops[0]).0, ops[1..]);
    }
  }

  /** From two fresh stores, every session observes the same in both variants. */
  lemma SessionsAgree(ops: seq<Op>)
    ensures RunLog(Log.Init(), ops).1 == RunFlat(Flat.Init(), ops).1
  {
    RunCorresponds(Log.Init(), Flat.Init(), ops);
  }

  /** `SET k a; BEGIN; UNSET k; COMMIT` from fresh stores: the log store's table
      has no `k`, the map store's table holds `None` under `k`. */
  lemma DeleteDivergenceExample(k: string, a: string)
    ensures var l := Log.UnsetItem(Log.BeginTransaction(Log.SetItem(Log.Init(), k, a)), k);
      k !in Log.CommitTransactions(l).table
    ensures var m := Flat.DelItem(Flat.BeginTransaction(Flat.SetItem(Flat.Init(), k, Some(a))), k);
      var t := Flat.CommitTransactions(m).table;
      k in t && t[k] == None
  {
    var l := Log.BeginTransaction(Log.SetItem(Log.Init(), k, a));
    var m := Flat.BeginTransaction(Flat.SetItem(Flat.Init(), k, Some(a)));
    SetCorresponds(Log.Init(), Flat.Init(), k, a);
    BeginCorresponds(Log.SetItem(Log.Init(), k, a), Flat.SetItem(Flat.Init(), k, Some(a)));
    DeleteDivergence(l, m, k);
  }
}
