/**
 * The records of the filament tracker: spools, printers and the persisted snapshot,
 * together with their JSON form (what `saveData` writes and what the backup file holds).
 */
module Filament {
  import opened Wrappers
  import opened Json

  /** A spool's lifecycle state; Active and Archived are legacy values that loading migrates away. */
  datatype Status = Active | Empty | Archived | InUse | InStorage

  function StatusName(st: Status): string {
    match st
    case Active => "ACTIVE"
    case Empty => "EMPTY"
    case Archived => "ARCHIVED"
    case InUse => "IN_USE"
    case InStorage => "IN_STORAGE"
  }

  lemma StatusNameInjective(a: Status, b: Status)
    ensures StatusName(a) == StatusName(b) ==> a == b
  {
  }

  datatype Material = Pla | Petg | Abs | Tpu | Asa | Nylon | Pc | Other

  function MaterialName(m: Material): string {
    match m
    case Pla => "PLA"
    case Petg => "PETG"
    case Abs => "ABS"
    case Tpu => "TPU"
    case Asa => "ASA"
    case Nylon => "NYLON"
    case Pc => "PC"
    case Other => "OTHER"
  }

  /** Filament diameter: 1.75 mm or 2.85 mm. */
  datatype Diameter = D175 | D285

  function DiameterMm(d: Diameter): real {
    match d
    case D175 => 1.75
    case D285 => 2.85
  }

  datatype Spool = Spool(
    id: string,
    name: string,
    brand: Option<string>,
    material: Material,
    color: string,
    diameterMm: Diameter,
    capacityG: real,
    remainingG: real,
    remainingPct: real,
    status: Status,
    notes: Option<string>,
    createdAt: string,
    updatedAt: string,
    printerId: Option<string>)

  datatype Printer = Printer(id: string, name: string, createdAt: string, updatedAt: string)

  /** The persisted root; `printers` is absent in snapshots written before printers existed. */
  datatype AppData = AppData(version: int, spools: seq<Spool>, printers: Option<seq<Printer>>)

  /** An optional text field as an object property: absent when undefined. */
  function WithOptional(m: map<string, Json>, k: string, v: Option<string>): (r: map<string, Json>)
    ensures v.Some? ==> r == m[k := JStr(v.value)]
    ensures v.None? ==> r == m
  {
    if v.Some? then m[k := JStr(v.value)] else m
  }

  function SpoolToJson(s: Spool): Json {
    var base := map[
      "id" := JStr(s.id),
      "name" := JStr(s.name),
      "material" := JStr(MaterialName(s.material)),
      "color" := JStr(s.color),
      "diameterMm" := JNum(DiameterMm(s.diameterMm)),
      "capacityG" := JNum(s.capacityG),
      "remainingG" := JNum(s.remainingG),
      "remainingPct" := JNum(s.remainingPct),
      "status" := JStr(StatusName(s.status)),
      "createdAt" := JStr(s.createdAt),
      "updatedAt" := JStr(s.updatedAt)];
    JObj(WithOptional(WithOptional(WithOptional(base, "brand", s.brand), "notes", s.notes), "printerId", s.printerId))
  }

  function PrinterToJson(p: Printer): Json {
    JObj(map["id" := JStr(p.id), "name" := JStr(p.name), "createdAt" := JStr(p.createdAt), "updatedAt" := JStr(p.updatedAt)])
  }

  function SpoolsToJson(ss: seq<Spool>): (r: seq<Json>)
    ensures |r| == |ss| && forall i :: 0 <= i < |ss| ==> r[i] == SpoolToJson(ss[i])
  {
    seq(|ss|, i requires 0 <= i < |ss| => SpoolToJson(ss[i]))
  }

  function AppDataToJson(d: AppData): Json {
    var base := map["version" := JNum(d.version as real), "spools" := JArr(SpoolsToJson(d.spools))];
    if d.printers.Some? then
      JObj(base["printers" := JArr(seq(|d.printers.value|, i requires 0 <= i < |d.printers.value| => PrinterToJson(d.printers.value[i])))])
    else JObj(base)
  }

  /** The encoding keeps the spool's status under "status" and its id under "id". */
  lemma SpoolToJsonFields(s: Spool)
    ensures SpoolToJson(s).JObj?
    ensures "status" in SpoolToJson(s).fields && SpoolToJson(s).fields["status"] == JStr(StatusName(s.status))
    ensures "id" in SpoolToJson(s).fields && SpoolToJson(s).fields["id"] == JStr(s.id)
    ensures "updatedAt" in SpoolToJson(s).fields && SpoolToJson(s).fields["updatedAt"] == JStr(s.updatedAt)
  {
  }
}
