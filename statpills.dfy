/**
 * The summary pills above the list: how many spools are in use, how many are
 * available (not empty), the grams left in the available ones, and how many of
 * those are low.
 */
module StatPills {
  import opened Filament
  import opened Sorting

  /** `filter` with a predicate, on spools, written from the end so that it splits like `SumOf`. */
  function Where(s: seq<Spool>, p: Spool -> bool): (r: seq<Spool>)
    ensures |r| <= |s|
    ensures forall x :: x in r <==> x in s && p(x)
    ensures forall x :: multiset(r)[x] == if p(x) then multiset(s)[x] else 0
  {
    if s == [] then []
    else
      var init := s[..|s| - 1];
      assert s == init + [s[|s| - 1]];
      Where(init, p) + (if p(s[|s| - 1]) then [s[|s| - 1]] else [])
  }

  /** A weaker predicate keeps at least as many elements. */
  lemma {:induction false} WhereMonotone(s: seq<Spool>, p: Spool -> bool, q: Spool -> bool)
    requires forall x :: p(x) ==> q(x)
    ensures |Where(s, p)| <= |Where(s, q)|
  {
    if s != [] {
      WhereMonotone(s[..|s| - 1], p, q);
    }
  }

  predicate NotEmpty(s: Spool) { s.status != Empty }
  predicate IsInUse(s: Spool) { s.status == InUse }
  predicate IsLow(s: Spool) { s.remainingPct <= 10.0 && s.remainingG > 0.0 }
  function Grams(s: Spool): real { s.remainingG }

  /** `active`, shown as "available". */
  function Available(spools: seq<Spool>): seq<Spool> {
    Where(spools, NotEmpty)
  }

  function InUseSpools(spools: seq<Spool>): seq<Spool> {
    Where(spools, IsInUse)
  }

  /** `active.reduce((acc, s) => acc + s.remainingG, 0)`. */
  function TotalG(spools: seq<Spool>): real {
    SumOf(Available(spools), Grams)
  }

  function Low(spools: seq<Spool>): seq<Spool> {
    Where(Available(spools), IsLow)
  }

  /** "Available" keeps every spool that is not empty, as often as it occurs, and nothing else. */
  lemma AvailableMembers(spools: seq<Spool>, x: Spool)
    ensures x in Available(spools) <==> x in spools && x.status != Empty
    ensures multiset(Available(spools))[x] == if x.status != Empty then multiset(spools)[x] else 0
  {
  }

  /** "In use" keeps every spool in use, as often as it occurs, and nothing else. */
  lemma InUseMembers(spools: seq<Spool>, x: Spool)
    ensures x in InUseSpools(spools) <==> x in spools && x.status == InUse
    ensures multiset(InUseSpools(spools))[x] == if x.status == InUse then multiset(spools)[x] else 0
  {
  }

  /** Every spool in use is available, so "in use" never exceeds "available". */
  lemma InUseAtMostAvailable(spools: seq<Spool>)
    ensures |InUseSpools(spools)| <= |Available(spools)|
  {
    WhereMonotone(spools, IsInUse, NotEmpty);
  }

  /** "Low" is the available spools at or below 10 % that still hold some grams. */
  lemma LowMembers(spools: seq<Spool>, x: Spool)
    ensures x in Low(spools) <==> x in spools && x.status != Empty && x.remainingPct <= 10.0 && x.remainingG > 0.0
    ensures multiset(Low(spools))[x] ==
              if x.status != Empty && x.remainingPct <= 10.0 && x.remainingG > 0.0 then multiset(spools)[x] else 0
    ensures |Low(spools)| <= |Available(spools)|
  {
  }

  function GramsIfAvailable(s: Spool): real {
    if s.status != Empty then s.remainingG else 0.0
  }

  /** The total counts the grams of every spool that is not empty and nothing else. */
  lemma {:induction false} TotalGCountsAvailable(spools: seq<Spool>)
    ensures TotalG(spools) == SumOf(spools, GramsIfAvailable)
  {
    if spools != [] {
      var init := spools[..|spools| - 1];
      var x := spools[|spools| - 1];
      TotalGCountsAvailable(init);
      var tail := if NotEmpty(x) then [x] else [];
      SumOfAppend(Where(init, NotEmpty), tail, Grams);
      assert SumOf(tail, Grams) == GramsIfAvailable(x) by {
        if NotEmpty(x) {
          assert tail[..0] == [];
        }
      }
    }
  }

  /** With no negative amounts the total is never negative. */
  lemma {:induction false} TotalGNonNegative(spools: seq<Spool>)
    requires forall i :: 0 <= i < |spools| ==> spools[i].remainingG >= 0.0
    ensures TotalG(spools) >= 0.0
  {
    TotalGCountsAvailable(spools);
    SumOfNonNegative(spools);
  }

  lemma {:induction false} SumOfNonNegative(spools: seq<Spool>)
    requires forall i :: 0 <= i < |spools| ==> spools[i].remainingG >= 0.0
    ensures SumOf(spools, GramsIfAvailable) >= 0.0
  {
    if spools != [] {
      SumOfNonNegative(spools[..|spools| - 1]);
    }
  }
}
