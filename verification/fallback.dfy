/** `override_fallback_or_fail(versions, cfg)` of fallback.py: first the
    `VERSIONEER_OVERRIDE` step of finalize.py, then, when the version is still
    missing or "0+unknown", the configured `fallback_version`; the caller's
    dictionary is updated in place and returned. */
module Fallback {
  import opened Wrappers
  import opened Py
  import opened Finalize

  const UnknownVersion := "0+unknown"

  /** `versions.get("version") in (None, "0+unknown")` */
  predicate NeedsFallback(d: Dict) {
    Get(d, "version") == Null || Get(d, "version") == Str(UnknownVersion)
  }

  /** The two entries a fallback writes. */
  function FallbackEntries(fallback: string): (m: Dict)
    ensures m.Keys == {"version", "error"}
    ensures m["version"] == Str(fallback) && m["error"] == Null
  {
    map["version" := Str(fallback), "error" := Null]
  }

  /** The dictionary after the fallback step; `fallback` is `cfg.fallback_version`. */
  function WithFallback(d: Dict, fallback: Option<string>): Dict {
    if NeedsFallback(d) && TruthyStr(fallback) then d + FallbackEntries(fallback.value) else d
  }

  /** Both steps in their order. */
  function Finalized(d: Dict, override: Option<string>, fallback: Option<string>): Dict {
    WithFallback(WithOverride(d, override), fallback)
  }

  /** `override_fallback_or_fail(versions, cfg)`: returns the same object, updated in
      place by the override step and then the fallback step. */
  method OverrideFallbackOrFail(versions: PyDict, override: Option<string>,
                                fallback: Option<string>) returns (r: PyDict)
    modifies versions
    ensures r == versions
    ensures versions.entries == Finalized(old(versions.entries), override, fallback)
  {
    if TruthyStr(override) {
      versions.Update(OverrideEntries(override.value));
    }
    var current := versions.entries;
    if Get(current, "version") == Null || Get(current, "version") == Str(UnknownVersion) {
      if TruthyStr(fallback) {
        versions.Update(FallbackEntries(fallback.value));
      }
    }
    r := versions;
  }

  /** A missing or unknown version with a non-empty fallback takes the fallback and
      clears the error; dirty is left as it was. */
  lemma FallbackApplied(d: Dict, fallback: string)
    requires NeedsFallback(d) && fallback != ""
    ensures var e := WithFallback(d, Some(fallback));
      e["version"] == Str(fallback) && e["error"] == Null && Get(e, "dirty") == Get(d, "dirty")
  {
    assert "dirty" !in FallbackEntries(fallback);
  }

  /** Any other version, or no fallback, leaves the dictionary as it was. */
  lemma NoFallbackNoChange(d: Dict, fallback: Option<string>)
    requires !NeedsFallback(d) || !TruthyStr(fallback)
    ensures WithFallback(d, fallback) == d
  {
  }

  /** Keys other than version, dirty and error keep their presence and value through
      both steps. */
  lemma FinalizedKeepsOthers(d: Dict, override: Option<string>, fallback: Option<string>, k: string)
    requires k != "version" && k != "dirty" && k != "error"
    ensures k in Finalized(d, override, fallback) <==> k in d
    ensures k in d ==> Finalized(d, override, fallback)[k] == d[k]
  {
    OverrideKeepsOthers(d, override, k);
    var o := WithOverride(d, override);
    if NeedsFallback(o) && TruthyStr(fallback) {
      assert k !in FallbackEntries(fallback.value);
    }
  }

  /** An override other than "0+unknown" is the final version, whatever the fallback. */
  lemma OverrideIsFinal(d: Dict, override: string, fallback: Option<string>)
    requires override != "" && override != UnknownVersion
    ensures Finalized(d, Some(override), fallback)["version"] == Str(override)
  {
    OverrideSets(d, override);
    assert !NeedsFallback(WithOverride(d, Some(override)));
  }
}
