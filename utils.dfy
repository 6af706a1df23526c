/**
 * The quantity reconciler: grams and percent remaining on a spool kept consistent
 * against its capacity, with numbers as exact reals and `Math.round(x)` as `Floor(x + 0.5)`.
 */
module Utils {

  function Min(a: real, b: real): real { if a <= b then a else b }

  function Max(a: real, b: real): real { if a >= b then a else b }

  /** `clamp(n, min, max) = Math.min(max, Math.max(min, n))`. */
  function Clamp(n: real, lo: real, hi: real): (r: real)
    ensures lo <= hi ==> lo <= r <= hi
    ensures lo <= n <= hi ==> r == n
    ensures lo <= hi && n < lo ==> r == lo
    ensures n > hi ==> r == hi
  {
    Min(hi, Max(lo, n))
  }

  function Pow10(d: nat): (p: nat)
    ensures p >= 1
  {
    if d == 0 then 1 else 10 * Pow10(d - 1)
  }

  /** `Math.round(x)`: the nearest integer, halves rounded toward +infinity. */
  function MathRound(x: real): (k: int)
    ensures x - 0.5 < k as real <= x + 0.5
  {
    (x + 0.5).Floor
  }

  /** `round(n, decimals) = Math.round(n * 10^decimals) / 10^decimals`. */
  function Round(n: real, decimals: nat): real {
    var p := Pow10(decimals) as real;
    MathRound(n * p) as real / p
  }

  /** Rounding to one decimal gives a whole number of tenths within 0.05 of the input. */
  lemma RoundTenth(x: real)
    ensures Round(x, 1) == MathRound(x * 10.0) as real / 10.0
    ensures -0.05 < Round(x, 1) - x <= 0.05
  {
    assert Pow10(1) == 10;
  }

  /** Rounding a whole number of tenths to one decimal leaves it unchanged. */
  lemma RoundTenthExact(k: int)
    ensures Round(k as real / 10.0, 1) == k as real / 10.0
  {
    RoundTenth(k as real / 10.0);
    assert MathRound(k as real / 10.0 * 10.0) == k by {
      assert k as real / 10.0 * 10.0 == k as real;
      assert (k as real + 0.5).Floor == k;
    }
  }

  /** Rounding to one decimal twice is rounding once. */
  lemma RoundTenthIdempotent(x: real)
    ensures Round(Round(x, 1), 1) == Round(x, 1)
  {
    RoundTenth(x);
    RoundTenthExact(MathRound(x * 10.0));
  }

  /** Rounding to tenths keeps a value of [0, 100] inside [0, 100]. */
  lemma RoundPercentInRange(x: real)
    requires 0.0 <= x <= 100.0
    ensures 0.0 <= Round(x, 1) <= 100.0
  {
    RoundTenth(x);
    var k := MathRound(x * 10.0);
    assert 0 <= k <= 1000;
  }

  /** A quantity pair as the spool stores it. */
  datatype Synced = Synced(remainingG: real, remainingPct: real)

  /** The percentage `g` grams make of a capacity, clamped to [0, 100]. */
  function Share(g: real, cap: real): (r: real)
    requires cap > 0.0
    ensures 0.0 <= r <= 100.0
  {
    Clamp((g / cap) * 100.0, 0.0, 100.0)
  }

  lemma ShareCases(g: real, cap: real)
    requires cap > 0.0
    ensures g <= 0.0 ==> Share(g, cap) == 0.0
    ensures g >= cap ==> Share(g, cap) == 100.0
    ensures 0.0 <= g <= cap ==> Share(g, cap) == g / cap * 100.0
  {
    var q := g / cap;
    assert q * cap == g;
    if g <= 0.0 {
      assert q <= 0.0;
    } else if g >= cap {
      assert q >= 1.0;
    } else {
      assert 0.0 <= q <= 1.0;
    }
  }

  /** `syncRemainingFromG`: grams drive; percent is derived and rounded to one decimal. */
  function SyncFromG(remainingG: real, capacityG: real): (r: Synced)
    ensures 0.0 <= r.remainingG <= Max(1.0, capacityG)
    ensures 0.0 <= r.remainingPct <= 100.0
  {
    var safeCap := Max(1.0, capacityG);
    var pct := Share(remainingG, safeCap);
    RoundPercentInRange(pct);
    Synced(Clamp(remainingG, 0.0, safeCap), Round(pct, 1))
  }

  /** `syncRemainingFromPct`: percent drives, converted to grams and then synced from grams. */
  function SyncFromPct(remainingPct: real, capacityG: real): (r: Synced)
    ensures 0.0 <= r.remainingG <= Max(1.0, capacityG)
    ensures 0.0 <= r.remainingPct <= 100.0
  {
    var safeCap := Max(1.0, capacityG);
    var pct := Clamp(remainingPct, 0.0, 100.0);
    var g := (pct / 100.0) * safeCap;
    SyncFromG(g, safeCap)
  }

  /** With grams already within a capacity of at least 1, the grams are kept and the percent is their rounded share. */
  lemma SyncFromGInRange(g: real, cap: real)
    requires cap >= 1.0 && 0.0 <= g <= cap
    ensures SyncFromG(g, cap) == Synced(g, Round(g / cap * 100.0, 1))
  {
    ShareCases(g, cap);
  }

  lemma SyncFromGShare(g: real, cap: real, pct: real)
    requires cap >= 1.0 && 0.0 <= g <= cap && g / cap * 100.0 == pct
    ensures SyncFromG(g, cap) == Synced(g, Round(pct, 1))
  {
    SyncFromGInRange(g, cap);
  }

  /** Any capacity below 1, zero and negatives included, behaves as capacity 1. */
  lemma CapacityFloor(g: real, cap: real)
    requires cap < 1.0
    ensures SyncFromG(g, cap) == SyncFromG(g, 1.0)
    ensures SyncFromPct(g, cap) == SyncFromPct(g, 1.0)
  {
  }

  /** Negative grams give an empty spool. */
  lemma SyncNegative(g: real, cap: real)
    requires g < 0.0
    ensures SyncFromG(g, cap) == Synced(0.0, 0.0)
  {
    ShareCases(g, Max(1.0, cap));
    RoundTenthExact(0);
  }

  /** Grams beyond the capacity give a full spool. */
  lemma SyncOverCapacity(g: real, cap: real)
    requires g > Max(1.0, cap)
    ensures SyncFromG(g, cap) == Synced(Max(1.0, cap), 100.0)
  {
    ShareCases(g, Max(1.0, cap));
    RoundTenthExact(1000);
  }

  /** Syncing the synced grams again, with the same capacity, changes nothing. */
  lemma SyncIdempotent(g: real, cap: real)
    ensures SyncFromG(SyncFromG(g, cap).remainingG, cap) == SyncFromG(g, cap)
  {
    var safeCap := Max(1.0, cap);
    var g' := Clamp(g, 0.0, safeCap);
    assert SyncFromG(g, cap).remainingG == g';
    ShareCases(g, safeCap);
    ShareCases(g', safeCap);
  }

  lemma PercentOfCapacity(pct: real, cap: real)
    requires cap > 0.0 && 0.0 <= pct <= 100.0
    ensures 0.0 <= (pct / 100.0) * cap <= cap
    ensures ((pct / 100.0) * cap) / cap * 100.0 == pct
  {
    var f := pct / 100.0;
    assert 0.0 <= f <= 1.0;
    assert f * cap <= 1.0 * cap;
    assert (f * cap) / cap == f;
  }

  /** `SyncFromPct` hands the clamped share of the floored capacity to `SyncFromG`. */
  lemma SyncFromPctUnfold(p: real, cap: real)
    ensures SyncFromPct(p, cap) == SyncFromG(Clamp(p, 0.0, 100.0) / 100.0 * Max(1.0, cap), Max(1.0, cap))
  {
  }

  /** A share of a capacity of at least 1, synced from grams, keeps its grams and reports its percent rounded. */
  lemma SyncFromGOfShare(pct: real, cap: real)
    requires cap >= 1.0 && 0.0 <= pct <= 100.0
    ensures SyncFromG(pct / 100.0 * cap, cap) == Synced(pct / 100.0 * cap, Round(pct, 1))
  {
    PercentOfCapacity(pct, cap);
    SyncFromGShare(pct / 100.0 * cap, cap, pct);
  }

  lemma PctAndCapInRange(p: real, cap: real)
    ensures 0.0 <= Clamp(p, 0.0, 100.0) <= 100.0 && Max(1.0, cap) >= 1.0
  {
  }

  /** From percent, the stored grams are exactly that share of the capacity and the stored percent is `Round(pct, 1)`. */
  lemma SyncFromPctMeaning(p: real, cap: real)
    ensures SyncFromPct(p, cap)
         == Synced(Clamp(p, 0.0, 100.0) / 100.0 * Max(1.0, cap), Round(Clamp(p, 0.0, 100.0), 1))
  {
    SyncFromPctUnfold(p, cap);
    PctAndCapInRange(p, cap);
    SyncFromGOfShare(Clamp(p, 0.0, 100.0), Max(1.0, cap));
  }

  /** The stored percent is within 0.05 of the requested one, clamped to [0, 100]. */
  lemma SyncFromPctClose(p: real, cap: real)
    ensures -0.05 < SyncFromPct(p, cap).remainingPct - Clamp(p, 0.0, 100.0) <= 0.05
  {
    SyncFromPctMeaning(p, cap);
    RoundTenth(Clamp(p, 0.0, 100.0));
  }

  /** Syncing from grams depends on the capacity only through its floor at 1. */
  lemma SyncFromGFlooredCap(g: real, cap: real)
    ensures SyncFromG(g, cap) == SyncFromG(g, Max(1.0, cap))
  {
  }

  /** Syncing from grams what was synced from percent reproduces the same pair. */
  lemma SyncPctThenG(p: real, cap: real)
    ensures SyncFromG(SyncFromPct(p, cap).remainingG, cap) == SyncFromPct(p, cap)
  {
    SyncFromPctMeaning(p, cap);
    PctAndCapInRange(p, cap);
    SyncFromGFlooredCap(Clamp(p, 0.0, 100.0) / 100.0 * Max(1.0, cap), cap);
    SyncFromGOfShare(Clamp(p, 0.0, 100.0), Max(1.0, cap));
  }
}
