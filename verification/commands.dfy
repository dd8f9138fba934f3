/**
 The write commands recorded in a transaction's log. BasicDatabase/src/Commands.py
 defines `Command`, `Set` and `Unset`; only `Set` and `Unset` ever enter a log, so
 they are one two-case datatype here.
 */
module Commands {
  import opened Wrappers

  /** `Set(name, value)` assigns `value` to `name`. `Unset(name, dflt)` removes `name`
      and carries the database's default value, which is what a read reports for a
      name whose latest command is this one. */
  datatype Cmd = Set(name: string, value: string) | Unset(name: string, dflt: Option<string>)

  /** The `value` attribute of a command: the assigned value, or the carried default. */
  function Reported(c: Cmd): Option<string>
  {
    match c
    case Set(_, v) => Some(v)
    case Unset(_, d) => d
  }
}
