/**
 * The persisted store: reading the saved snapshot back (with the status migration
 * from the first data format), and the two list updates the application applies
 * to its spools.
 */
module Storage {
  import opened Wrappers
  import opened Json
  import opened Text
  import opened Filament

  /** What the browser storage hands back under the application's key, after `JSON.parse`. */
  datatype Stored =
    | Absent            // `getItem` returned null
    | EmptyText         // the stored string is ""
    | Unparsable        // `JSON.parse` threw
    | Parsed(value: Json)

  /** `{ version: 1, spools: [] }`. */
  function EmptyData(): (r: Json)
    ensures r.JObj? && r.fields.Keys == {"version", "spools"}
    ensures r.fields["version"] == JNum(1.0) && r.fields["spools"] == JArr([])
  {
    JObj(map["version" := JNum(1.0), "spools" := JArr([])])
  }

  /** The test `!parsed || parsed.version !== 1 || !Array.isArray(parsed.spools)`, negated. */
  predicate WellShaped(x: Json) {
    && Get(x, "version") == Some(JNum(1.0))
    && Get(x, "spools").Some? && Get(x, "spools").value.JArr?
  }

  /** Old status names mapped to the current ones: ACTIVE to IN_STORAGE, ARCHIVED to EMPTY. */
  function MigrateStatusValue(v: Json): (r: Json)
    ensures v == JStr("ACTIVE") ==> r == JStr("IN_STORAGE")
    ensures v == JStr("ARCHIVED") ==> r == JStr("EMPTY")
    ensures v != JStr("ACTIVE") && v != JStr("ARCHIVED") ==> r == v
  {
    if v == JStr("ACTIVE") then JStr("IN_STORAGE")
    else if v == JStr("ARCHIVED") then JStr("EMPTY")
    else v
  }

  /** The own enumerable properties of an array or a string, keyed "0", "1", ...: what object spread copies. */
  function IndexMap(items: seq<Json>): (m: map<string, Json>)
    ensures forall i :: 0 <= i < |items| ==> Decimal(i) in m && m[Decimal(i)] == items[i]
  {
    if items == [] then map[]
    else
      var n := |items| - 1;
      var m := IndexMap(items[..n]);
      IndexMapStep(items, m);
      m[Decimal(n) := items[n]]
  }

  /** Storing the last item under the key of its index changes no value already stored. */
  lemma IndexMapStep(items: seq<Json>, m: map<string, Json>)
    requires items != []
    requires forall i :: 0 <= i < |items| - 1 ==> Decimal(i) in m && m[Decimal(i)] == items[..|items| - 1][i]
    ensures forall i :: 0 <= i < |items| ==>
      Decimal(i) in m[Decimal(|items| - 1) := items[|items| - 1]] && m[Decimal(|items| - 1) := items[|items| - 1]][Decimal(i)] == items[i]
  {
    var n := |items| - 1;
    forall i | 0 <= i < n + 1
      ensures Decimal(i) in m[Decimal(n) := items[n]] && m[Decimal(n) := items[n]][Decimal(i)] == items[i]
    {
      if i < n {
        DecimalInjective(i, n);
        assert items[..n][i] == items[i];
      }
    }
  }

  /** The keys are exactly the index keys: nothing else is copied. */
  lemma {:induction false} IndexMapKeys(items: seq<Json>, k: string)
    ensures k in IndexMap(items) <==> exists i :: 0 <= i < |items| && Decimal(i) == k
  {
    if items != [] {
      var n := |items| - 1;
      var init := items[..n];
      IndexMapKeys(init, k);
      assert IndexMap(items) == IndexMap(init)[Decimal(n) := items[n]];
      if k in IndexMap(items) {
        if k == Decimal(n) {
          assert 0 <= n < |items| && Decimal(n) == k;
        } else {
          var i :| 0 <= i < |init| && Decimal(i) == k;
          assert 0 <= i < |items|;
        }
      }
      if exists i :: 0 <= i < |items| && Decimal(i) == k {
        var i :| 0 <= i < |items| && Decimal(i) == k;
        if i < n {
          assert 0 <= i < |init|;
        }
      }
    }
  }

  function Chars(s: string): (r: seq<Json>)
    ensures |r| == |s| && forall i :: 0 <= i < |s| ==> r[i] == JStr([s[i]])
  {
    seq(|s|, i requires 0 <= i < |s| => JStr([s[i]]))
  }

  /**
   * `{ ...s, status }` with the status migrated, for an element `s` that is not null.
   * A primitive spreads to its own indexed properties (none for numbers and booleans).
   */
  function MigrateItem(s: Json): (r: Json)
    requires s != JNull
    ensures r.JObj?
    ensures s.JObj? && "status" in s.fields ==> r.fields == s.fields["status" := MigrateStatusValue(s.fields["status"])]
    ensures s.JObj? && "status" !in s.fields ==> r == s
  {
    match s
    case JObj(f) => if "status" in f then JObj(f["status" := MigrateStatusValue(f["status"])]) else s
    case JBool(_) => JObj(map[])
    case JNum(_) => JObj(map[])
    case JStr(t) => JObj(IndexMap(Chars(t)))
    case JArr(items) => JObj(IndexMap(items))
  }

  function MigrateItems(items: seq<Json>): (r: seq<Json>)
    requires forall i :: 0 <= i < |items| ==> items[i] != JNull
    ensures |r| == |items| && forall i :: 0 <= i < |items| ==> r[i] == MigrateItem(items[i])
  {
    seq(|items|, i requires 0 <= i < |items| => MigrateItem(items[i]))
  }

  /** What `loadData` returns: the default on every failure, else the snapshot with its spools migrated. */
  function Loaded(stored: Stored): (r: Json)
    ensures !(stored.Parsed? && WellShaped(stored.value)) ==> r == EmptyData()
  {
    if !stored.Parsed? || !WellShaped(stored.value) then EmptyData()
    else
      var items := stored.value.fields["spools"].items;
      // reading `.status` of a null element throws, which the catch turns into the default
      if exists i :: 0 <= i < |items| && items[i] == JNull then EmptyData()
      else JObj(stored.value.fields["spools" := JArr(MigrateItems(items))])
  }

  /** `loadData`, with the read from storage and the parse already done: the early returns and the field reassignment. */
  method LoadData(stored: Stored) returns (d: Json)
    ensures d == Loaded(stored)
    ensures d.JObj? && WellShaped(d)
  {
    if stored.Absent? || stored.EmptyText? || stored.Unparsable? {
      return EmptyData();
    }
    var parsed := stored.value;
    if !WellShaped(parsed) {
      return EmptyData();
    }
    var items := parsed.fields["spools"].items;
    if exists i :: 0 <= i < |items| && items[i] == JNull {
      return EmptyData();
    }
    parsed := JObj(parsed.fields["spools" := JArr(MigrateItems(items))]);
    return parsed;
  }

  /** A snapshot that passes the shape test keeps every field but "spools", whose elements are migrated one by one in order. */
  lemma LoadedMigrates(x: Json)
    requires WellShaped(x)
    requires forall i :: 0 <= i < |x.fields["spools"].items| ==> x.fields["spools"].items[i] != JNull
    ensures var r := Loaded(Parsed(x));
            var items := x.fields["spools"].items;
            && r.JObj? && r.fields.Keys == x.fields.Keys
            && (forall k :: k in x.fields && k != "spools" ==> r.fields[k] == x.fields[k])
            && r.fields["spools"].JArr? && |r.fields["spools"].items| == |items|
            && (forall i :: 0 <= i < |items| ==> r.fields["spools"].items[i] == MigrateItem(items[i]))
  {
  }

  /** A null element makes the read throw, and the default is returned. */
  lemma LoadedNullElement(x: Json, i: nat)
    requires WellShaped(x) && i < |x.fields["spools"].items| && x.fields["spools"].items[i] == JNull
    ensures Loaded(Parsed(x)) == EmptyData()
  {
  }

  lemma MigrateStatusValueIdempotent(v: Json)
    ensures MigrateStatusValue(MigrateStatusValue(v)) == MigrateStatusValue(v)
  {
  }

  lemma IndexMapHasNoStatus(items: seq<Json>)
    ensures "status" !in IndexMap(items)
  {
  }

  lemma MigrateItemIdempotent(s: Json)
    requires s != JNull
    ensures MigrateItem(MigrateItem(s)) == MigrateItem(s)
  {
    match s
    case JObj(f) =>
      if "status" in f {
        MigrateStatusValueIdempotent(f["status"]);
        assert MigrateItem(s).fields["status" := MigrateStatusValue(MigrateItem(s).fields["status"])]
            == MigrateItem(s).fields;
      }
    case JStr(t) => IndexMapHasNoStatus(Chars(t));
    case JArr(items) => IndexMapHasNoStatus(items);
    case _ =>
  }

  /** Loading what was loaded changes nothing: the migration is idempotent and its output passes the shape test. */
  lemma LoadedIdempotent(stored: Stored)
    ensures Loaded(Parsed(Loaded(stored))) == Loaded(stored)
  {
    var d := Loaded(stored);
    if stored.Parsed? && WellShaped(stored.value) {
      var items := stored.value.fields["spools"].items;
      if !exists i :: 0 <= i < |items| && items[i] == JNull {
        var migrated := MigrateItems(items);
        assert d.fields["spools"] == JArr(migrated);
        forall i | 0 <= i < |migrated| ensures MigrateItem(migrated[i]) == migrated[i] {
          MigrateItemIdempotent(items[i]);
        }
        assert MigrateItems(migrated) == migrated;
        assert d.fields["spools" := JArr(migrated)] == d.fields;
      }
    }
  }

  // The typed view of the same migration.

  function MigrateStatus(st: Status): (r: Status)
    ensures st == Active ==> r == InStorage
    ensures st == Archived ==> r == Empty
    ensures st != Active && st != Archived ==> r == st
  {
    match st
    case Active => InStorage
    case Archived => Empty
    case _ => st
  }

  function MigrateSpool(s: Spool): Spool {
    s.(status := MigrateStatus(s.status))
  }

  lemma MigrateStatusName(st: Status)
    ensures MigrateStatusValue(JStr(StatusName(st))) == JStr(StatusName(MigrateStatus(st)))
  {
  }

  /** Migrating the encoding of a spool is encoding the migrated spool: every other field is untouched. */
  lemma MigrateEncodedSpool(s: Spool)
    ensures MigrateItem(SpoolToJson(s)) == SpoolToJson(MigrateSpool(s))
  {
    SpoolToJsonFields(s);
    MigrateStatusName(s.status);
    var a := MigrateItem(SpoolToJson(s)).fields;
    var b := SpoolToJson(MigrateSpool(s)).fields;
    assert a.Keys == b.Keys;
    forall k | k in a ensures a[k] == b[k] {
    }
  }

  /** Loading a saved version-1 snapshot gives back the snapshot with every spool's status migrated, count and order kept. */
  lemma LoadSavedData(d: AppData)
    requires d.version == 1
    ensures Loaded(Parsed(AppDataToJson(d)))
         == AppDataToJson(d.(spools := seq(|d.spools|, i requires 0 <= i < |d.spools| => MigrateSpool(d.spools[i]))))
  {
    var x := AppDataToJson(d);
    var ms := seq(|d.spools|, i requires 0 <= i < |d.spools| => MigrateSpool(d.spools[i]));
    var items := SpoolsToJson(d.spools);
    assert WellShaped(x);
    assert x.fields["spools"].items == items;
    forall i | 0 <= i < |items| ensures items[i] != JNull && MigrateItem(items[i]) == SpoolsToJson(ms)[i] {
      SpoolToJsonFields(d.spools[i]);
      MigrateEncodedSpool(d.spools[i]);
    }
    assert MigrateItems(items) == SpoolsToJson(ms);
  }

  /** `spools.findIndex(s => s.id === id)`. */
  function FindIndex(spools: seq<Spool>, id: string): (r: int)
    ensures -1 <= r < |spools|
    ensures r == -1 <==> forall j :: 0 <= j < |spools| ==> spools[j].id != id
    ensures r >= 0 ==> spools[r].id == id && forall j :: 0 <= j < r ==> spools[j].id != id
  {
    if spools == [] then -1
    else if spools[0].id == id then 0
    else
      var k := FindIndex(spools[1..], id);
      if k == -1 then -1 else k + 1
  }

  /** The value `upsertSpool` returns. */
  function Upserted(spools: seq<Spool>, spool: Spool): seq<Spool> {
    var idx := FindIndex(spools, spool.id);
    if idx == -1 then [spool] + spools else spools[idx := spool]
  }

  /** `upsertSpool`: replace the first spool with the same id in a copy, or prepend when there is none. */
  method UpsertSpool(spools: seq<Spool>, spool: Spool) returns (r: seq<Spool>)
    ensures r == Upserted(spools, spool)
    ensures FindIndex(spools, spool.id) == -1 ==> r == [spool] + spools
    ensures FindIndex(spools, spool.id) >= 0 ==>
              && |r| == |spools|
              && r[FindIndex(spools, spool.id)] == spool
              && forall j :: 0 <= j < |spools| && j != FindIndex(spools, spool.id) ==> r[j] == spools[j]
  {
    var idx := FindIndex(spools, spool.id);
    if idx == -1 {
      return [spool] + spools;
    }
    var copy := new Spool[|spools|](j requires 0 <= j < |spools| => spools[j]);
    copy[idx] := spool;
    r := copy[..];
  }

  /** `removeSpool`: `spools.filter(s => s.id !== id)`. */
  function RemoveSpool(spools: seq<Spool>, id: string): (r: seq<Spool>)
    ensures |r| <= |spools|
    ensures forall s :: s in r <==> s in spools && s.id != id
  {
    if spools == [] then []
    else (if spools[0].id != id then [spools[0]] else []) + RemoveSpool(spools[1..], id)
  }

  /** Filtering splits over concatenation, so the kept spools stay in their order. */
  lemma {:induction false} RemoveSpoolAppend(a: seq<Spool>, b: seq<Spool>, id: string)
    ensures RemoveSpool(a + b, id) == RemoveSpool(a, id) + RemoveSpool(b, id)
  {
    if a != [] {
      assert (a + b)[1..] == a[1..] + b;
      RemoveSpoolAppend(a[1..], b, id);
    } else {
      assert a + b == b;
    }
  }

  lemma {:induction false} RemoveSpoolAbsent(spools: seq<Spool>, id: string)
    requires forall j :: 0 <= j < |spools| ==> spools[j].id != id
    ensures RemoveSpool(spools, id) == spools
  {
    if spools != [] {
      RemoveSpoolAbsent(spools[1..], id);
    }
  }

  lemma RemoveSpoolIdempotent(spools: seq<Spool>, id: string)
    ensures RemoveSpool(RemoveSpool(spools, id), id) == RemoveSpool(spools, id)
  {
    var r := RemoveSpool(spools, id);
    assert forall j :: 0 <= j < |r| ==> r[j] in r;
    RemoveSpoolAbsent(r, id);
  }

  /** After an upsert the spool is found under its id, and nothing but it was added. */
  lemma UpsertedFinds(spools: seq<Spool>, spool: Spool)
    ensures var r := Upserted(spools, spool);
      && FindIndex(r, spool.id) >= 0 && r[FindIndex(r, spool.id)] == spool
      && forall x :: x in r ==> x == spool || x in spools
  {
    var r := Upserted(spools, spool);
    var idx := FindIndex(spools, spool.id);
    if idx >= 0 {
      assert FindIndex(r, spool.id) == idx by {
        FindIndexFirst(r, spool.id, idx);
      }
      forall x | x in r ensures x == spool || x in spools {
        var j :| 0 <= j < |r| && r[j] == x;
        if j != idx {
          assert spools[j] == x;
        }
      }
    }
  }

  lemma {:induction false} FindIndexFirst(spools: seq<Spool>, id: string, i: nat)
    requires i < |spools| && spools[i].id == id && forall j :: 0 <= j < i ==> spools[j].id != id
    ensures FindIndex(spools, id) == i
  {
    if i > 0 {
      FindIndexFirst(spools[1..], id, i - 1);
    }
  }

  /** Upserting the same spool twice is the same as once. */
  lemma UpsertedIdempotent(spools: seq<Spool>, spool: Spool)
    ensures Upserted(Upserted(spools, spool), spool) == Upserted(spools, spool)
  {
    var r := Upserted(spools, spool);
    var idx := FindIndex(spools, spool.id);
    if idx >= 0 {
      FindIndexFirst(r, spool.id, idx);
    } else {
      FindIndexFirst(r, spool.id, 0);
    }
  }

  lemma {:induction false} RemoveSpoolReplaced(spools: seq<Spool>, i: nat, x: Spool)
    requires i < |spools| && spools[i].id == x.id
    ensures RemoveSpool(spools[i := x], x.id) == RemoveSpool(spools, x.id)
  {
    if i > 0 {
      assert spools[i := x][1..] == spools[1..][i - 1 := x];
      RemoveSpoolReplaced(spools[1..], i - 1, x);
    } else {
      assert spools[i := x][1..] == spools[1..];
    }
  }

  /** Deleting a spool just saved or updated removes every trace of the save. */
  lemma RemoveAfterUpsert(spools: seq<Spool>, spool: Spool)
    ensures RemoveSpool(Upserted(spools, spool), spool.id) == RemoveSpool(spools, spool.id)
  {
    var idx := FindIndex(spools, spool.id);
    if idx >= 0 {
      RemoveSpoolReplaced(spools, idx, spool);
    } else {
      assert ([spool] + spools)[1..] == spools;
    }
  }
}
