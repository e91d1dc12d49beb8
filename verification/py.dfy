/** The few Python run-time notions the version logic depends on: the values stored in
    the result dictionaries, their truthiness, the exceptions that escape, and a
    dictionary object that callers share and update in place. */
module Py {
  import opened Wrappers

  /** A value stored in a version dictionary. */
  datatype Value = Null | Str(s: string) | Bool(b: bool) | Int(n: int)

  /** A Python `dict` with string keys, as a value. */
  type Dict = map<string, Value>

  /** Python truthiness of a dictionary value. */
  predicate Truthy(v: Value) {
    match v
    case Null => false
    case Str(s) => s != ""
    case Bool(b) => b
    case Int(n) => n != 0
  }

  /** Python truthiness of a result that is a dict or None: a non-empty dict. */
  predicate TruthyDict(d: Option<Dict>) {
    d.Some? && d.value != map[]
  }

  /** Python truthiness of an optional string (`if override:`). */
  predicate TruthyStr(s: Option<string>) {
    s.Some? && s.value != ""
  }

  /** `d.get(k)`: the stored value, or None when the key is absent. */
  function Get(d: Dict, k: string): (v: Value)
    ensures k !in d ==> v == Null
    ensures k in d ==> v == d[k]
  {
    if k in d then d[k] else Null
  }

  /** `run_command(args, cwd=...)`: the stripped output of a command run in a
      directory, or None when it could not be started or failed. */
  type Runner = (seq<string>, string) -> Option<string>

  /** The exceptions that can escape from the modelled functions. */
  datatype Exc =
    | KeyError(key: string)
    | ValueError
    | AttributeError
    | IndexError
    | AssertionError(message: string)
    | NotThisMethod(message: string)
    | NoVersionError(message: string)

  /** Either a normal return or an escaping exception. */
  datatype Outcome<+T> = Ok(value: T) | Raise(exc: Exc)

  /** A `dict` object that is passed by reference and updated in place. */
  class PyDict {
    var entries: Dict

    constructor (m: Dict)
      ensures entries == m
    {
      entries := m;
    }

    /** `d.update(m)`: keys of `m` take their new values, every other key is kept. */
    method Update(m: Dict)
      modifies this
      ensures entries == old(entries) + m
      ensures forall k :: k !in m ==> (k in entries <==> k in old(entries))
      ensures forall k :: k !in m && k in old(entries) ==> entries[k] == old(entries)[k]
    {
      entries := entries + m;
    }
  }
}
