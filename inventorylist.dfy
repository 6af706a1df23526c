/**
 * The grouped inventory list: the percentage bar, the printer names shown for
 * spools in use, the "low" badges, the quantity and brand passed on when adding
 * more spools to a group, and the printer cell of each row.
 */
module InventoryList {
  import opened Wrappers
  import opened Text
  import opened Filament
  import opened Utils
  import opened Sorting
  import Grouping
  import StatPills

  /** `pctBar`: the bar width, `Math.max(0, Math.min(100, pct))`. */
  function PctBar(pct: real): (r: real)
    ensures 0.0 <= r <= 100.0
    ensures 0.0 <= pct <= 100.0 ==> r == pct
    ensures pct < 0.0 ==> r == 0.0
    ensures pct > 100.0 ==> r == 100.0
  {
    Max(0.0, Min(100.0, pct))
  }

  /** The bar clamps in the other order from `clamp`, with the same result. */
  lemma PctBarIsClamp(pct: real)
    ensures PctBar(pct) == Clamp(pct, 0.0, 100.0)
  {
  }

  // ---- Printer names.

  /** The map `printerNameById` ends up with: each id names the last printer listed with it. */
  function NameMap(printers: seq<Printer>): map<string, string> {
    if printers == [] then map[]
    else
      var p := printers[|printers| - 1];
      NameMap(printers[..|printers| - 1])[p.id := p.name]
  }

  /** `printerNameById`: one `m.set(p.id, p.name)` per printer, in order. */
  method PrinterNameById(printers: seq<Printer>) returns (m: map<string, string>)
    ensures m == NameMap(printers)
  {
    m := map[];
    var i := 0;
    while i < |printers|
      invariant 0 <= i <= |printers|
      invariant m == NameMap(printers[..i])
    {
      assert printers[..i + 1][..i] == printers[..i];
      m := m[printers[i].id := printers[i].name];
      i := i + 1;
    }
    assert printers[..i] == printers;
  }

  /** Every printer's id is a key, and a later printer with the same id wins. */
  lemma {:induction false} NameMapLastWins(printers: seq<Printer>, k: nat)
    requires k < |printers|
    requires forall j :: k < j < |printers| ==> printers[j].id != printers[k].id
    ensures printers[k].id in NameMap(printers) && NameMap(printers)[printers[k].id] == printers[k].name
  {
    if k < |printers| - 1 {
      var init := printers[..|printers| - 1];
      assert init[k] == printers[k];
      NameMapLastWins(init, k);
    }
  }

  /** The keys are exactly the printers' ids. */
  lemma {:induction false} NameMapKeys(printers: seq<Printer>, id: string)
    ensures id in NameMap(printers) <==> exists j :: 0 <= j < |printers| && printers[j].id == id
  {
    if printers != [] {
      var init := printers[..|printers| - 1];
      NameMapKeys(init, id);
      if exists j :: 0 <= j < |init| && init[j].id == id {
        var j :| 0 <= j < |init| && init[j].id == id;
        assert printers[j] == init[j];
      }
      if exists j :: 0 <= j < |printers| && printers[j].id == id {
        var j :| 0 <= j < |printers| && printers[j].id == id;
        if j < |init| {
          assert init[j] == printers[j];
        }
      }
    }
  }

  /**
   * The printer cell: None ("—") unless the spool is in use; then "Unassigned" when the
   * spool has no printer id (or an empty one), "Unknown" when the id names no printer,
   * and otherwise the printer's name.
   */
  function PrinterLabel(s: Spool, names: map<string, string>): (r: Option<string>)
    ensures r.Some? <==> s.status == InUse
    ensures s.status == InUse && (s.printerId.None? || s.printerId == Some([])) ==> r == Some("Unassigned")
    ensures s.status == InUse && s.printerId.Some? && s.printerId.value != [] ==>
              r == Some(if s.printerId.value in names then names[s.printerId.value] else "Unknown")
  {
    if s.status != InUse then None
    else if s.printerId.None? || s.printerId.value == [] then Some("Unassigned")
    else if s.printerId.value in names then Some(names[s.printerId.value])
    else Some("Unknown")
  }

  /** A spool in use on a listed printer shows that printer's name (the last one listed with the id). */
  lemma PrinterLabelNamesPrinter(s: Spool, printers: seq<Printer>, k: nat)
    requires s.status == InUse && k < |printers| && s.printerId == Some(printers[k].id) && printers[k].id != []
    requires forall j :: k < j < |printers| ==> printers[j].id != printers[k].id
    ensures PrinterLabel(s, NameMap(printers)) == Some(printers[k].name)
  {
    NameMapLastWins(printers, k);
  }

  /** A spool in use on an id no printer has shows "Unknown". */
  lemma PrinterLabelUnknown(s: Spool, printers: seq<Printer>)
    requires s.status == InUse && s.printerId.Some? && s.printerId.value != []
    requires forall j :: 0 <= j < |printers| ==> printers[j].id != s.printerId.value
    ensures PrinterLabel(s, NameMap(printers)) == Some("Unknown")
  {
    NameMapKeys(printers, s.printerId.value);
  }

  // ---- Low badges.

  /** The row badge. */
  predicate RowLow(s: Spool) {
    s.status != Empty && s.remainingPct <= 10.0 && s.remainingG > 0.0
  }

  /** The group badge. */
  predicate GroupLow(g: Grouping.SpoolGroup) {
    g.avgRemainingPct <= 10.0 && g.totalRemainingG > 0.0
  }

  /** The rows with the badge are exactly the spools the "low" pill counts. */
  lemma RowLowIsCounted(spools: seq<Spool>, x: Spool)
    ensures x in StatPills.Low(spools) <==> x in spools && RowLow(x)
  {
    StatPills.LowMembers(spools, x);
  }

  lemma {:induction false} SumAbove(sp: seq<Spool>, w: Spool -> real, c: real)
    requires forall i :: 0 <= i < |sp| ==> w(sp[i]) > c
    requires sp != []
    ensures SumOf(sp, w) > c * (|sp| as real)
  {
    var init := sp[..|sp| - 1];
    if init != [] {
      SumAbove(init, w, c);
    }
  }

  lemma {:induction false} SumAtMostZero(sp: seq<Spool>, w: Spool -> real)
    requires forall i :: 0 <= i < |sp| ==> w(sp[i]) <= 0.0
    ensures SumOf(sp, w) <= 0.0
  {
    if sp != [] {
      SumAtMostZero(sp[..|sp| - 1], w);
    }
  }

  /** A mean at or below 10 % needs a member at or below 10 %. */
  lemma LowMeanHasLowMember(sp: seq<Spool>)
    requires sp != [] && Grouping.MeanPct(sp) <= 10.0
    ensures exists i :: 0 <= i < |sp| && sp[i].remainingPct <= 10.0
  {
    if forall i :: 0 <= i < |sp| ==> sp[i].remainingPct > 10.0 {
      SumAbove(sp, Grouping.Pct, 10.0);
    }
  }

  /** A positive total needs a member with grams left. */
  lemma PositiveTotalHasMember(sp: seq<Spool>)
    requires SumOf(sp, Grouping.Grams) > 0.0
    ensures exists i :: 0 <= i < |sp| && sp[i].remainingG > 0.0
  {
    if forall i :: 0 <= i < |sp| ==> sp[i].remainingG <= 0.0 {
      SumAtMostZero(sp, Grouping.Grams);
    }
  }

  /** A low group has a member at or below 10 % and a member with grams left. */
  lemma GroupLowHasLowMembers(ss: seq<Spool>, j: nat)
    requires j < |Grouping.Grouped(ss)| && GroupLow(Grouping.Grouped(ss)[j])
    ensures var g := Grouping.Grouped(ss)[j];
      && (exists i :: 0 <= i < |g.spools| && g.spools[i].remainingPct <= 10.0)
      && (exists i :: 0 <= i < |g.spools| && g.spools[i].remainingG > 0.0)
  {
    var g := Grouping.Grouped(ss)[j];
    Grouping.GroupedGroup(ss, j);
    LowMeanHasLowMember(g.spools);
    PositiveTotalHasMember(g.spools);
  }

  // ---- Adding to a group.

  /**
   * The quantity in the "+ Add" box: `Math.max(1, Math.min(50, Math.floor(Number(value || 1))))`.
   * None stands for an empty or missing field.
   */
  function Quantity(field: Option<real>): (r: int)
    ensures 1 <= r <= 50
    ensures field.None? ==> r == 1
    ensures field.Some? && 1.0 <= field.value < 51.0 ==> r == field.value.Floor
    ensures field.Some? && field.value < 1.0 ==> r == 1
    ensures field.Some? && field.value >= 50.0 ==> r == 50
  {
    var v := field.GetOr(1.0).Floor;
    if v < 1 then 1 else if v > 50 then 50 else v
  }

  /** The brand passed on from a group label: the "(no brand)" label stands for no brand. */
  function BrandFromLabel(brandLabel: string): (r: Option<string>)
    ensures r.None? <==> brandLabel == Grouping.NoBrand
    ensures r.Some? ==> r.value == brandLabel
  {
    if brandLabel == Grouping.NoBrand then None else Some(brandLabel)
  }

  /** A trimmed brand survives the label and back; a missing or blank brand comes back as none. */
  lemma BrandThroughLabel(s: Spool)
    ensures Trim(s.brand.GetOr("")) == [] ==> BrandFromLabel(Grouping.BrandLabelOf(s)).None?
    ensures Trim(s.brand.GetOr("")) != [] && Trim(s.brand.GetOr("")) != Grouping.NoBrand ==>
              BrandFromLabel(Grouping.BrandLabelOf(s)) == Some(Trim(s.brand.GetOr("")))
  {
  }

  /** A spool whose brand is literally "(no brand)" comes back with no brand. */
  lemma BrandNamedLikeSentinel(s: Spool)
    requires s.brand == Some(Grouping.NoBrand)
    ensures BrandFromLabel(Grouping.BrandLabelOf(s)).None?
  {
    TrimOfTrimmed(Grouping.NoBrand);
  }
}
