/**
 * The declared type of a parameter or field and its direction, with the
 * predicates that decide which accessors may proceed.
 */
module RfcTypes {
  import opened Error

  /** `RfcType`: the closed set of declared types. */
  datatype RfcType =
    | Char | Date | Bcd | Time | Byte | Table | Num | Float | Int | Int2 | Int1
    | Null | AbapObject | Structure | Decf16 | Decf34 | XmlData | String
    | XString | Int8 | UtcLong | UtcSecond | UtcMinute | DtDay | DtMonth
    | TSecond | TMinute | CDay | Box | GenericBox

  const EXPECTED_STRUCT_TABLE: CustomText := "Expected struct table"
  const EXPECTED_TABLE: CustomText := "Expected table"

  /** `RfcType::is_struct_or_table`. */
  function IsStructOrTable(t: RfcType): (b: bool)
    ensures b <==> t == Structure || t == Table
  {
    if t == Structure then true
    else if t == Table then true
    else false
  }

  /** `RfcType::is_table`. */
  function IsTable(t: RfcType): (b: bool)
    ensures b ==> IsStructOrTable(t)
  {
    t == Table
  }

  /** A table is in particular a struct-or-table. */
  lemma TableIsStructOrTable(t: RfcType)
    ensures IsTable(t) ==> IsStructOrTable(t)
    ensures IsStructOrTable(t) <==> t == Structure || t == Table
  {
  }

  /** `RfcType::ensure_struct_or_table`. */
  function EnsureStructOrTable(t: RfcType): (r: Result<()>)
    ensures r.Ok? <==> t == Structure || t == Table
    ensures r.Err? ==> r.error == Custom(EXPECTED_STRUCT_TABLE)
  {
    if IsStructOrTable(t) then Ok(()) else Err(Custom(EXPECTED_STRUCT_TABLE))
  }

  /** `RfcType::ensure_table`. */
  function EnsureTable(t: RfcType): (r: Result<()>)
    ensures r.Ok? <==> t == Table
    ensures r.Err? ==> r.error == Custom(EXPECTED_TABLE)
  {
    if IsTable(t) then Ok(()) else Err(Custom(EXPECTED_TABLE))
  }

  /** `RfcDirection`. */
  datatype RfcDirection = RfcImport | RfcExport | RfcChanging | RfcTables

  const IMPORT_BIT: nat := 1
  const EXPORT_BIT: nat := 2
  const TABLES_BIT: nat := 4

  /** The `#[repr(u32)]` bitmask of a direction: `Import = 1`, `Export = 2`,
      `Changing = 1 | 2`, `Tables = 1 | 2 | 4`. */
  function DirectionBits(d: RfcDirection): nat
  {
    match d
    case RfcImport => IMPORT_BIT
    case RfcExport => EXPORT_BIT
    case RfcChanging => IMPORT_BIT + EXPORT_BIT
    case RfcTables => IMPORT_BIT + EXPORT_BIT + TABLES_BIT
  }

  /**
   * `RfcDirection::can_write`: every direction but export is writable, which
   * is the same as saying the caller-to-callee bit of the mask is set.
   */
  function CanWrite(d: RfcDirection): (w: bool)
    ensures w <==> d != RfcExport
    ensures w <==> DirectionBits(d) % 2 == 1
  {
    match d
    case RfcImport => true
    case RfcExport => false
    case RfcChanging => true
    case RfcTables => true
  }

  /**
   * `RfcDirection::can_read`: every direction but import is readable, which
   * is the same as saying the callee-to-caller bit of the mask is set.
   */
  function CanRead(d: RfcDirection): (r: bool)
    ensures r <==> d != RfcImport
    ensures r <==> (DirectionBits(d) / 2) % 2 == 1
  {
    match d
    case RfcImport => false
    case RfcExport => true
    case RfcChanging => true
    case RfcTables => true
  }

  /** Every direction allows at least one of reading and writing; changing
      and tables parameters allow both. */
  lemma DirectionsCoverBothWays(d: RfcDirection)
    ensures CanRead(d) || CanWrite(d)
    ensures CanRead(d) && CanWrite(d) <==> d == RfcChanging || d == RfcTables
  {
  }
}
