/**
 * The state changes the spool details dialog makes: using or refilling an amount,
 * marking a spool empty, moving it between storage and a printer, and choosing the
 * printer. Each builds a new spool from the shown one; `now` is the clock reading.
 */
module SpoolDetails {
  import opened Wrappers
  import opened Filament
  import opened Utils
  import opened Validation

  /** The "- Used" and "+ Refill" buttons. */
  datatype Sign = Used | Refill

  /** The signed change in grams; a non-finite amount counts as 0. */
  function Delta(sign: Sign, delta: Num): real {
    var d := if delta.Finite? then delta.value else 0.0;
    if sign == Used then -d else d
  }

  /** `applyDelta`: resync grams and percent from the changed grams, then adjust the status. */
  function ApplyDelta(s: Spool, sign: Sign, delta: Num, now: string): (r: Spool)
    ensures r == s.(remainingG := r.remainingG, remainingPct := r.remainingPct, status := r.status, updatedAt := now)
    ensures Synced(r.remainingG, r.remainingPct) == SyncFromG(s.remainingG + Delta(sign, delta), s.capacityG)
    ensures 0.0 <= r.remainingG <= Max(1.0, s.capacityG) && 0.0 <= r.remainingPct <= 100.0
    ensures r.status == Empty <==> r.remainingG == 0.0
    ensures r.remainingG != 0.0 && s.status == Empty ==> r.status == InStorage
    ensures r.remainingG != 0.0 && s.status != Empty ==> r.status == s.status
  {
    var synced := SyncFromG(s.remainingG + Delta(sign, delta), s.capacityG);
    s.(remainingG := synced.remainingG,
       remainingPct := synced.remainingPct,
       updatedAt := now,
       status := if synced.remainingG == 0.0 then Empty
                 else if s.status == Empty then InStorage
                 else s.status)
  }

  /** `handleMarkEmpty`. */
  function MarkEmpty(s: Spool, now: string): (r: Spool)
    ensures r.remainingG == 0.0 && r.remainingPct == 0.0 && r.status == Empty
    ensures r == s.(remainingG := r.remainingG, remainingPct := r.remainingPct, status := r.status, updatedAt := now)
  {
    s.(remainingG := 0.0, remainingPct := 0.0, status := Empty, updatedAt := now)
  }

  /** A non-finite amount does the same as an amount of 0. */
  lemma NonFiniteDeltaIsZero(s: Spool, sign: Sign, now: string)
    ensures ApplyDelta(s, sign, NonFinite, now) == ApplyDelta(s, sign, Finite(0.0), now)
  {
  }

  /** Using at least what is left is the same as marking the spool empty. */
  lemma UsingAllMarksEmpty(s: Spool, d: real, now: string)
    requires d >= s.remainingG
    ensures ApplyDelta(s, Used, Finite(d), now) == MarkEmpty(s, now)
  {
    if s.remainingG - d < 0.0 {
      SyncNegative(s.remainingG - d, s.capacityG);
    } else {
      assert s.remainingG - d == 0.0;
      ShareCases(0.0, Max(1.0, s.capacityG));
      RoundTenthExact(0);
    }
  }

  /** Refilling what was used, within capacity, restores the synced amounts and the status. */
  lemma UsedThenRefilled(s: Spool, d: real, t1: string, t2: string)
    requires s.capacityG >= 1.0 && 0.0 <= d <= s.remainingG <= s.capacityG
    requires s.remainingG > 0.0 && s.status != Empty
    ensures var r := ApplyDelta(ApplyDelta(s, Used, Finite(d), t1), Refill, Finite(d), t2);
      && Synced(r.remainingG, r.remainingPct) == SyncFromG(s.remainingG, s.capacityG)
      && r.remainingG == s.remainingG
      && r.status == (if d < s.remainingG then s.status else InStorage)
  {
    var u := ApplyDelta(s, Used, Finite(d), t1);
    SyncFromGInRange(s.remainingG - d, s.capacityG);
    assert u.remainingG == s.remainingG - d;
    assert u.remainingG + d == s.remainingG;
    SyncFromGInRange(s.remainingG, s.capacityG);
  }

  /**
   * `toggleUseStorage`: IN_STORAGE moves to IN_USE on the spool's printer or else the
   * first printer, IN_USE moves back to IN_STORAGE without a printer, and any other
   * status issues no update (None).
   */
  function Toggle(s: Spool, printers: seq<Printer>, now: string): (r: Option<Spool>)
    ensures r.Some? <==> s.status == InStorage || s.status == InUse
    ensures r.Some? ==> r.value == s.(status := r.value.status, printerId := r.value.printerId, updatedAt := now)
    ensures s.status == InStorage ==> r.Some? && r.value.status == InUse
    ensures s.status == InStorage && s.printerId.Some? ==> r.Some? && r.value.printerId == s.printerId
    ensures s.status == InStorage && s.printerId.None? && printers != [] ==>
              r.Some? && r.value.printerId == Some(printers[0].id)
    ensures s.status == InStorage && s.printerId.None? && printers == [] ==> r.Some? && r.value.printerId.None?
    ensures s.status == InUse ==> r.Some? && r.value.status == InStorage && r.value.printerId.None?
  {
    if s.status == InStorage then
      var first := if printers == [] then None else Some(printers[0].id);
      Some(s.(status := InUse, printerId := if s.printerId.Some? then s.printerId else first, updatedAt := now))
    else if s.status == InUse then
      Some(s.(status := InStorage, printerId := None, updatedAt := now))
    else None
  }

  /** Toggling twice returns to the starting status: back in storage without a printer, or in use on the first printer. */
  lemma ToggleTwice(s: Spool, printers: seq<Printer>, t1: string, t2: string)
    requires s.status == InStorage || s.status == InUse
    ensures Toggle(s, printers, t1).Some?
    ensures Toggle(Toggle(s, printers, t1).value, printers, t2).Some?
    ensures s.status == InUse ==> Toggle(Toggle(s, printers, t1).value, printers, t2).value
                                  == s.(printerId := if printers == [] then None else Some(printers[0].id), updatedAt := t2)
    ensures s.status == InStorage ==> Toggle(Toggle(s, printers, t1).value, printers, t2).value
                                      == s.(printerId := None, updatedAt := t2)
  {
  }

  /** The printer select: an empty choice means no printer; the status is left alone. */
  function Reassign(s: Spool, selection: string, now: string): (r: Spool)
    ensures r == s.(printerId := r.printerId, updatedAt := now)
    ensures r.printerId.None? <==> selection == []
    ensures r.printerId.Some? ==> r.printerId.value == selection
  {
    s.(printerId := if selection == [] then None else Some(selection), updatedAt := now)
  }
}
