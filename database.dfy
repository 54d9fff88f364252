/**
 * Reading the database URL at start-up (database.py): a missing or empty
 * DATABASE_URL stops the application, and the deprecated `postgres://`
 * scheme is rewritten to `postgresql://` before the engine is created.
 */
module Database {
  import opened Wrappers

  /** The ValueError raised when DATABASE_URL is unset or empty. */
  datatype ConfigError = DatabaseUrlNotSet

  /** The scheme some hosts hand out, which SQLAlchemy 1.4 and later refuse. */
  const LegacyScheme: string := "postgres://"

  /** The scheme SQLAlchemy expects. */
  const Scheme: string := "postgresql://"

  /** Python's `s.startswith(prefix)`. */
  predicate StartsWith(s: string, prefix: string)
  {
    |prefix| <= |s| && s[..|prefix|] == prefix
  }

  /** `pat` occurs nowhere in `s`. */
  predicate NoOccurrence(s: string, pat: string)
  {
    forall i :: 0 <= i <= |s| ==> !StartsWith(s[i..], pat)
  }

  /** `k` is the position of the first occurrence of `pat` in `s`. */
  predicate FirstAt(s: string, pat: string, k: nat)
  {
    k <= |s| && StartsWith(s[k..], pat) && forall j :: 0 <= j < k ==> !StartsWith(s[j..], pat)
  }

  /** The search `str.replace` starts with: where `pat` first occurs in `s`, if anywhere. */
  function FindFirst(s: string, pat: string): (r: Option<nat>)
    requires pat != ""
    ensures r.Some? ==> FirstAt(s, pat, r.value)
    ensures r.None? <==> NoOccurrence(s, pat)
    decreases |s|
  {
    if |s| < |pat| then None
    else if StartsWith(s, pat) then assert s[0..] == s; Some(0)
    else
      assert s[0..] == s;
      match FindFirst(s[1..], pat)
      case None =>
        assert NoOccurrence(s, pat) by {
          forall i | 1 <= i <= |s| ensures !StartsWith(s[i..], pat) {
            assert s[1..][i - 1..] == s[i..];
          }
        }
        None
      case Some(k) =>
        assert FirstAt(s, pat, k + 1) by {
          assert s[1..][k..] == s[k + 1..];
          forall j | 1 <= j < k + 1 ensures !StartsWith(s[j..], pat) {
            assert s[1..][j - 1..] == s[j..];
          }
        }
        Some(k + 1)
  }

  /** There is only one first occurrence. */
  lemma FirstAtUnique(s: string, pat: string, k: nat, k': nat)
    requires FirstAt(s, pat, k) && FirstAt(s, pat, k')
    ensures k == k'
  {
  }

  /**
   * Python's `s.replace(pat, rep, 1)`: the first occurrence of `pat`, wherever
   * it is, is replaced by `rep`, and everything around it is kept.
   */
  function ReplaceFirst(s: string, pat: string, rep: string): (r: string)
    requires pat != ""
    ensures forall k: nat :: FirstAt(s, pat, k) ==> k + |pat| <= |s| && r == s[..k] + rep + s[k + |pat|..]
    ensures StartsWith(s, pat) ==> r == rep + s[|pat|..]
    ensures NoOccurrence(s, pat) ==> r == s
  {
    match FindFirst(s, pat)
    case None =>
      assert forall k: nat :: FirstAt(s, pat, k) ==> !NoOccurrence(s, pat);
      s
    case Some(k) =>
      assert forall k': nat :: FirstAt(s, pat, k') ==> k' == k by {
        forall k': nat | FirstAt(s, pat, k') ensures k' == k {
          FirstAtUnique(s, pat, k, k');
        }
      }
      assert StartsWith(s, pat) ==> FirstAt(s, pat, 0) by {
        assert s[0..] == s;
      }
      s[..k] + rep + s[k + |pat|..]
  }

  /**
   * The value SQLAlchemy is given, from the value of DATABASE_URL in the
   * environment (`None` when it is not set).
   */
  function NormalizeDatabaseUrl(env: Option<string>): (r: Result<string, ConfigError>)
    ensures r.Failure? <==> (env == None || env == Some(""))
    ensures r.Failure? ==> r.error == DatabaseUrlNotSet
    ensures r.Success? && StartsWith(env.value, LegacyScheme) ==>
              r.value == Scheme + env.value[|LegacyScheme|..]
    ensures r.Success? && StartsWith(env.value, LegacyScheme) ==> |r.value| == |env.value| + 2
    ensures r.Success? && !StartsWith(env.value, LegacyScheme) ==> r.value == env.value
  {
    match env
    case None => Failure(DatabaseUrlNotSet)
    case Some(url) =>
      if url == "" then Failure(DatabaseUrlNotSet)
      else if StartsWith(url, LegacyScheme) then Success(ReplaceFirst(url, LegacyScheme, Scheme))
      else Success(url)
  }

  /** No URL the normalisation produces still carries the legacy scheme. */
  lemma NormalizedIsNotLegacy(env: Option<string>)
    requires NormalizeDatabaseUrl(env).Success?
    ensures !StartsWith(NormalizeDatabaseUrl(env).value, LegacyScheme)
  {
    var url := env.value;
    var r := NormalizeDatabaseUrl(env).value;
    if StartsWith(url, LegacyScheme) {
      assert r[8] == Scheme[8] == 'q' != LegacyScheme[8];
    }
  }

  /** Normalising an already normalised URL changes nothing. */
  lemma NormalizeIdempotent(env: Option<string>)
    requires NormalizeDatabaseUrl(env).Success?
    ensures NormalizeDatabaseUrl(Some(NormalizeDatabaseUrl(env).value)) == NormalizeDatabaseUrl(env)
  {
    NormalizedIsNotLegacy(env);
  }
}
