/** `finalize(versions)` of finalize.py: the `VERSIONEER_OVERRIDE` environment
    variable, when set to a non-empty string, replaces the version in the caller's
    dictionary, which is updated in place and returned. */
module Finalize {
  import opened Wrappers
  import opened Py

  /** The three entries an override writes. */
  function OverrideEntries(override: string): (m: Dict)
    ensures m.Keys == {"version", "dirty", "error"}
    ensures m["version"] == Str(override) && m["dirty"] == Bool(false) && m["error"] == Null
  {
    map["version" := Str(override), "dirty" := Bool(false), "error" := Null]
  }

  /** The dictionary after the override step; `override` is the environment
      variable, None when it is unset. */
  function WithOverride(d: Dict, override: Option<string>): Dict {
    if TruthyStr(override) then d + OverrideEntries(override.value) else d
  }

  /** `finalize(versions)`: returns the same object, updated in place. */
  method Finalize(versions: PyDict, override: Option<string>) returns (r: PyDict)
    modifies versions
    ensures r == versions
    ensures versions.entries == WithOverride(old(versions.entries), override)
  {
    if TruthyStr(override) {
      versions.Update(OverrideEntries(override.value));
    }
    r := versions;
  }

  /** A non-empty override sets the version to it, dirty to False and error to None. */
  lemma OverrideSets(d: Dict, override: string)
    requires override != ""
    ensures var e := WithOverride(d, Some(override));
      e["version"] == Str(override) && e["dirty"] == Bool(false) && e["error"] == Null
  {
  }

  /** An unset or empty override leaves the dictionary as it was. */
  lemma NoOverrideNoChange(d: Dict, override: Option<string>)
    requires override.None? || override.value == ""
    ensures WithOverride(d, override) == d
  {
  }

  /** Keys other than version, dirty and error keep their presence and value. */
  lemma OverrideKeepsOthers(d: Dict, override: Option<string>, k: string)
    requires k != "version" && k != "dirty" && k != "error"
    ensures k in WithOverride(d, override) <==> k in d
    ensures k in d ==> WithOverride(d, override)[k] == d[k]
  {
    if TruthyStr(override) {
      assert k !in OverrideEntries(override.value);
    }
  }

  /** Finalizing twice with the same environment is finalizing once. */
  lemma OverrideIdempotent(d: Dict, override: Option<string>)
    ensures WithOverride(WithOverride(d, override), override) == WithOverride(d, override)
  {
    if TruthyStr(override) {
      var m := OverrideEntries(override.value);
      assert (d + m) + m == d + m;
    }
  }
}
