/**
 * The add/edit spool form: the seed a new spool starts from, the form fields and
 * how editing capacity, grams or percent keeps them in step, the save guard, and
 * the spool a save produces.
 */
module SpoolForm {
  import opened Wrappers
  import opened Text
  import opened Filament
  import opened Utils
  import opened Validation

  /** Which of grams and percent the user is typing; the other one follows. */
  datatype LinkMode = Grams | Percent

  /** The values the form holds; the numeric inputs may hold NaN. */
  datatype Draft = Draft(
    name: string,
    brand: string,
    material: Material,
    color: string,
    diameterMm: Diameter,
    capacityG: Num,
    remainingG: Num,
    remainingPct: Num,
    status: Status,
    notes: string,
    linkMode: LinkMode)

  /** The seed for a new spool: `id` and `now` come from the id generator and the clock. */
  function NewSeed(id: string, now: string): (r: Spool)
    ensures r.id == id && r.createdAt == now && r.updatedAt == now
    ensures r.capacityG == 1000.0 && r.remainingG == 1000.0 && r.remainingPct == 100.0
    ensures r.status == Active && r.material == Pla && r.color == "Black" && r.diameterMm == D175
    ensures r.name == [] && r.brand == Some([]) && r.notes == Some([]) && r.printerId.None?
  {
    var remaining := SyncFromG(1000.0, 1000.0);
    ShareCases(1000.0, 1000.0);
    RoundTenthExact(1000);
    Spool(id, "", Some(""), Pla, "Black", D175, 1000.0, remaining.remainingG, remaining.remainingPct,
          Active, Some(""), now, now, None)
  }

  /** The fields the reset effect copies from the seed; the link mode starts at grams. */
  function DraftOf(seed: Spool): Draft {
    Draft(seed.name, seed.brand.GetOr(""), seed.material, seed.color, seed.diameterMm,
          Finite(seed.capacityG), Finite(seed.remainingG), Finite(seed.remainingPct),
          seed.status, seed.notes.GetOr(""), Grams)
  }

  /** `canSave`: both the name and the colour have something besides white space. */
  predicate CanSave(d: Draft) {
    |SanitizeText(Some(d.name))| > 0 && |SanitizeText(Some(d.color))| > 0
  }

  lemma TrimEmptyIffBlank(s: string)
    ensures Trim(s) == [] <==> forall i :: 0 <= i < |s| ==> IsSpace(s[i])
  {
    TrimFacts(s);
  }

  lemma CanSaveIffNonBlank(d: Draft)
    ensures CanSave(d) <==> (exists i :: 0 <= i < |d.name| && !IsSpace(d.name[i]))
                            && (exists i :: 0 <= i < |d.color| && !IsSpace(d.color[i]))
  {
    TrimEmptyIffBlank(d.name);
    TrimEmptyIffBlank(d.color);
  }

  /** `sanitizeText(x) || undefined`: a blank optional field is saved as absent. */
  function OptionalText(s: string): (r: Option<string>)
    ensures r.None? <==> Trim(s) == []
    ensures r.Some? ==> r.value == SanitizeText(Some(s))
  {
    var t := SanitizeText(Some(s));
    if t == [] then None else Some(t)
  }

  /** The grams and percent a sync or a save computes, led by the field the link mode names. */
  function Amounts(mode: LinkMode, safeCap: real, g: Num, pct: Num): Synced {
    if mode == Grams then SyncFromG(SanitizeNonNegative(g), safeCap)
    else SyncFromPct(SanitizePercent(pct), safeCap)
  }

  /** The computed pair is a fixed point of the grams sync, so the fields end up consistent. */
  lemma AmountsSettle(mode: LinkMode, safeCap: real, g: Num, pct: Num)
    ensures SyncFromG(Amounts(mode, safeCap, g, pct).remainingG, safeCap) == Amounts(mode, safeCap, g, pct)
  {
    if mode == Grams {
      SyncIdempotent(SanitizeNonNegative(g), safeCap);
    } else {
      SyncPctThenG(SanitizePercent(pct), safeCap);
    }
  }

  /** `handleSave`: the seed overlaid with the sanitized fields, stamped `now`. */
  function Save(seed: Spool, d: Draft, now: string): (r: Spool)
    ensures r.id == seed.id && r.createdAt == seed.createdAt && r.updatedAt == now
    ensures r.printerId == seed.printerId
    ensures r.capacityG == SanitizePositiveNumber(d.capacityG, 1000.0) && r.capacityG > 0.0
    ensures Synced(r.remainingG, r.remainingPct) == Amounts(d.linkMode, r.capacityG, d.remainingG, d.remainingPct)
    ensures 0.0 <= r.remainingG <= Max(1.0, r.capacityG) && 0.0 <= r.remainingPct <= 100.0
    ensures r.name == SanitizeText(Some(d.name)) && r.color == SanitizeText(Some(d.color))
    ensures r.brand == OptionalText(d.brand) && r.notes == OptionalText(d.notes)
    ensures r.material == d.material && r.diameterMm == d.diameterMm && r.status == d.status
  {
    var safeCap := SanitizePositiveNumber(d.capacityG, 1000.0);
    var synced := Amounts(d.linkMode, safeCap, d.remainingG, d.remainingPct);
    seed.(name := SanitizeText(Some(d.name)),
          brand := OptionalText(d.brand),
          material := d.material,
          color := SanitizeText(Some(d.color)),
          diameterMm := d.diameterMm,
          capacityG := safeCap,
          remainingG := synced.remainingG,
          remainingPct := synced.remainingPct,
          status := d.status,
          notes := OptionalText(d.notes),
          updatedAt := now,
          createdAt := seed.createdAt,
          id := seed.id)
  }

  /** Saving leaves the status as chosen: a spool saved at 0 g is not forced to EMPTY. */
  lemma SaveKeepsStatusAtZero(seed: Spool, d: Draft, now: string)
    requires d.linkMode == Grams && d.remainingG == Finite(0.0)
    ensures Save(seed, d, now).remainingG == 0.0
    ensures Save(seed, d, now).status == d.status
  {
    var cap := SanitizePositiveNumber(d.capacityG, 1000.0);
    ShareCases(0.0, Max(1.0, cap));
    RoundTenthExact(0);
  }

  /**
   * Reopening the form on a saved spool and saving it again without edits gives the
   * same spool with a new `updatedAt`.
   */
  lemma ResaveIsStable(seed: Spool, d: Draft, t1: string, t2: string)
    ensures var s := Save(seed, d, t1); Save(s, DraftOf(s), t2) == s.(updatedAt := t2)
  {
    var s := Save(seed, d, t1);
    var e := DraftOf(s);
    var r := Save(s, e, t2);
    SanitizeTextIdempotent(Some(d.name));
    SanitizeTextIdempotent(Some(d.color));
    SanitizeTextIdempotent(Some(d.brand));
    SanitizeTextIdempotent(Some(d.notes));
    assert r.capacityG == s.capacityG;
    if d.linkMode == Grams {
      SyncIdempotent(SanitizeNonNegative(d.remainingG), s.capacityG);
    } else {
      SyncPctThenG(SanitizePercent(d.remainingPct), s.capacityG);
    }
    assert Synced(r.remainingG, r.remainingPct) == Synced(s.remainingG, s.remainingPct);
  }

  /** The form's state: the seed of this opening and the field values. */
  class Form {
    var seed: Spool
    var name: string
    var brand: string
    var material: Material
    var color: string
    var diameterMm: Diameter
    var capacityG: Num
    var remainingG: Num
    var remainingPct: Num
    var status: Status
    var notes: string
    var linkMode: LinkMode

    function Fields(): Draft
      reads this
    {
      Draft(name, brand, material, color, diameterMm, capacityG, remainingG, remainingPct, status, notes, linkMode)
    }

    /** The grams and percent fields agree with the capacity field, as a sync leaves them. */
    predicate Synchronized()
      reads this
    {
      && capacityG.Finite? && capacityG.value > 0.0
      && remainingG.Finite? && remainingPct.Finite?
      && SyncFromG(remainingG.value, capacityG.value) == Synced(remainingG.value, remainingPct.value)
    }

    /** Opening the form: every field is reset from the seed and the link mode is grams. */
    constructor Open(seed: Spool)
      ensures this.seed == seed && Fields() == DraftOf(seed)
    {
      this.seed := seed;
      name := seed.name;
      brand := seed.brand.GetOr("");
      material := seed.material;
      color := seed.color;
      diameterMm := seed.diameterMm;
      capacityG := Finite(seed.capacityG);
      remainingG := Finite(seed.remainingG);
      remainingPct := Finite(seed.remainingPct);
      status := seed.status;
      notes := seed.notes.GetOr("");
      linkMode := Grams;
    }

    /** `applySync`: write back the safe capacity and the synced grams and percent. */
    method ApplySync(mode: LinkMode, nextCap: Num, g: Num, pct: Num)
      modifies this
      ensures var safeCap := SanitizePositiveNumber(nextCap, 1000.0);
              var synced := Amounts(mode, safeCap, g, pct);
              Fields() == old(Fields()).(capacityG := Finite(safeCap),
                                         remainingG := Finite(synced.remainingG),
                                         remainingPct := Finite(synced.remainingPct))
      ensures seed == old(seed)
      ensures Synchronized()
    {
      var safeCap := SanitizePositiveNumber(nextCap, 1000.0);
      AmountsSettle(mode, safeCap, g, pct);
      if mode == Grams {
        var safeG := SanitizeNonNegative(g);
        var synced := SyncFromG(safeG, safeCap);
        assert synced == Amounts(mode, safeCap, g, pct);
        capacityG := Finite(safeCap);
        remainingG := Finite(synced.remainingG);
        remainingPct := Finite(synced.remainingPct);
      } else {
        var safePct := SanitizePercent(pct);
        var synced := SyncFromPct(safePct, safeCap);
        assert synced == Amounts(mode, safeCap, g, pct);
        capacityG := Finite(safeCap);
        remainingG := Finite(synced.remainingG);
        remainingPct := Finite(synced.remainingPct);
      }
    }

    /** Typing a capacity stores it as typed; the sync happens when the field loses focus. */
    method EditCapacity(next: Num)
      modifies this
      ensures Fields() == old(Fields()).(capacityG := next) && seed == old(seed)
    {
      capacityG := next;
    }

    /** Leaving the capacity field syncs in the current link mode. */
    method BlurCapacity()
      modifies this
      ensures var safeCap := SanitizePositiveNumber(old(capacityG), 1000.0);
              var synced := Amounts(old(linkMode), safeCap, old(remainingG), old(remainingPct));
              Fields() == old(Fields()).(capacityG := Finite(safeCap),
                                         remainingG := Finite(synced.remainingG),
                                         remainingPct := Finite(synced.remainingPct))
      ensures seed == old(seed) && Synchronized()
    {
      ApplySync(linkMode, capacityG, remainingG, remainingPct);
    }

    /** Typing grams: in grams mode the percent follows at once; in percent mode it waits. */
    method EditRemainingG(next: Num)
      modifies this
      ensures linkMode == Percent ==> Fields() == old(Fields()).(remainingG := next)
      ensures linkMode == Grams ==>
                var safeCap := SanitizePositiveNumber(old(capacityG), 1000.0);
                var synced := Amounts(Grams, safeCap, next, old(remainingPct));
                Fields() == old(Fields()).(capacityG := Finite(safeCap), remainingG := Finite(synced.remainingG),
                                           remainingPct := Finite(synced.remainingPct))
      ensures seed == old(seed)
    {
      remainingG := next;
      if linkMode == Grams {
        ApplySync(Grams, capacityG, next, remainingPct);
      }
    }

    /** Typing a percent: in percent mode the grams follow at once; in grams mode they wait. */
    method EditRemainingPct(next: Num)
      modifies this
      ensures linkMode == Grams ==> Fields() == old(Fields()).(remainingPct := next)
      ensures linkMode == Percent ==>
                var safeCap := SanitizePositiveNumber(old(capacityG), 1000.0);
                var synced := Amounts(Percent, safeCap, old(remainingG), next);
                Fields() == old(Fields()).(capacityG := Finite(safeCap), remainingG := Finite(synced.remainingG),
                                           remainingPct := Finite(synced.remainingPct))
      ensures seed == old(seed)
    {
      remainingPct := next;
      if linkMode == Percent {
        ApplySync(Percent, capacityG, remainingG, next);
      }
    }

    /** Switching the link mode syncs from the field that now leads. */
    method ChooseLinkMode(mode: LinkMode)
      modifies this
      ensures linkMode == mode && seed == old(seed) && Synchronized()
      ensures var safeCap := SanitizePositiveNumber(old(capacityG), 1000.0);
              var synced := Amounts(mode, safeCap, old(remainingG), old(remainingPct));
              Fields() == old(Fields()).(linkMode := mode, capacityG := Finite(safeCap),
                                         remainingG := Finite(synced.remainingG),
                                         remainingPct := Finite(synced.remainingPct))
    {
      linkMode := mode;
      ApplySync(mode, capacityG, remainingG, remainingPct);
    }
  }

  /** What a synchronized form shows in grams mode is exactly what a save stores. */
  lemma SaveOfSynchronized(seed: Spool, d: Draft, now: string)
    requires d.linkMode == Grams && d.capacityG.Finite? && d.capacityG.value > 0.0
    requires d.remainingG.Finite? && d.remainingPct.Finite?
    requires SyncFromG(d.remainingG.value, d.capacityG.value) == Synced(d.remainingG.value, d.remainingPct.value)
    ensures var s := Save(seed, d, now);
      s.capacityG == d.capacityG.value && s.remainingG == d.remainingG.value && s.remainingPct == d.remainingPct.value
  {
    assert SanitizeNonNegative(d.remainingG) == d.remainingG.value;
  }
}
