/**
 * Input coercion for the spool form: total functions that turn whatever the user
 * typed into a value the inventory can store.
 */
module Validation {
  import opened Wrappers
  import opened Text
  import opened Utils

  /** A JavaScript number as the sanitizers see it: a finite value, or NaN / an infinity. */
  datatype Num = Finite(value: real) | NonFinite

  /** `(s ?? "").trim()`: a missing string counts as empty. */
  function SanitizeText(s: Option<string>): (r: string)
    ensures s.None? ==> r == []
    ensures r == [] || (!IsSpace(r[0]) && !IsSpace(r[|r| - 1]))
    ensures s.Some? ==> exists i, j :: 0 <= i <= j <= |s.value| && r == s.value[i..j]
                                       && (forall k :: 0 <= k < i ==> IsSpace(s.value[k]))
                                       && (forall k :: j <= k < |s.value| ==> IsSpace(s.value[k]))
  {
    TrimFacts(s.GetOr(""));
    Trim(s.GetOr(""))
  }

  lemma SanitizeTextIdempotent(s: Option<string>)
    ensures SanitizeText(Some(SanitizeText(s))) == SanitizeText(s)
  {
    TrimIdempotent(s.GetOr(""));
  }

  /** A finite, strictly positive number is kept; anything else becomes the fallback. */
  function SanitizePositiveNumber(n: Num, fallback: real): (r: real)
    ensures n.Finite? && n.value > 0.0 ==> r == n.value
    ensures !(n.Finite? && n.value > 0.0) ==> r == fallback
    ensures fallback > 0.0 ==> r > 0.0
  {
    if !n.Finite? || n.value <= 0.0 then fallback else n.value
  }

  /** Non-finite input is 0; anything else is clamped to [0, 100]. */
  function SanitizePercent(n: Num): (r: real)
    ensures 0.0 <= r <= 100.0
    ensures n.NonFinite? ==> r == 0.0
    ensures n.Finite? && 0.0 <= n.value <= 100.0 ==> r == n.value
    ensures n.Finite? && n.value < 0.0 ==> r == 0.0
    ensures n.Finite? && n.value > 100.0 ==> r == 100.0
  {
    if !n.Finite? then 0.0 else Clamp(n.value, 0.0, 100.0)
  }

  /** Non-finite input is 0; anything else is `max(0, n)`. */
  function SanitizeNonNegative(n: Num): (r: real)
    ensures r >= 0.0
    ensures n.NonFinite? ==> r == 0.0
    ensures n.Finite? && n.value >= 0.0 ==> r == n.value
    ensures n.Finite? && n.value < 0.0 ==> r == 0.0
  {
    if !n.Finite? then 0.0 else Max(0.0, n.value)
  }

  lemma SanitizePositiveIdempotent(n: Num, fallback: real)
    requires fallback > 0.0
    ensures SanitizePositiveNumber(Finite(SanitizePositiveNumber(n, fallback)), fallback)
         == SanitizePositiveNumber(n, fallback)
  {
  }

  lemma SanitizePercentIdempotent(n: Num)
    ensures SanitizePercent(Finite(SanitizePercent(n))) == SanitizePercent(n)
  {
  }

  lemma SanitizeNonNegativeIdempotent(n: Num)
    ensures SanitizeNonNegative(Finite(SanitizeNonNegative(n))) == SanitizeNonNegative(n)
  {
  }
}
