/** Schema types and the per-column typed store (src/database/base.rs). */
module Base {
  import opened Wrappers
  import opened Strings

  // ---------------------------------------------------------------------
  // Declared column types

  datatype DataType = Float | Int | Bool | String | Invalid

  /** The names the store accepts, as `data_type` renders them. */
  const TypeNames: set<string> := {"float", "int", "bool", "string"}

  /** `DataType::data_type`: the canonical name of a type. */
  function DataTypeName(d: DataType): (r: string)
    ensures d != Invalid <==> r in TypeNames
    ensures HasNoUpper(r)
  {
    match d
    case Float => "float"
    case Int => "int"
    case Bool => "bool"
    case String => "string"
    case Invalid => "null"
  }

  /** `DataType::new`: a type name, compared without regard to case. Any name
      the store does not know, "char" included, gives `Invalid`. */
  function NewDataType(dataType: string): (d: DataType)
    ensures d == Invalid <==> Lower(dataType) !in TypeNames
    ensures d != Invalid ==> DataTypeName(d) == Lower(dataType)
  {
    match Lower(dataType)
    case "float" => Float
    case "int" => Int
    case "bool" => Bool
    case "string" => String
    case _ => Invalid
  }

  /** Rendering a type and reading the name back gives the same type, for
      all five of them: `Invalid` renders as "null", which is no known name. */
  lemma DataTypeRoundTrip(d: DataType)
    ensures NewDataType(DataTypeName(d)) == d
  {
    LowerFixesLowercase(DataTypeName(d));
  }

  /** Upper-case, capitalised and lower-case spellings agree. */
  lemma IntIgnoresCase()
    ensures NewDataType("INT") == NewDataType("Int") == NewDataType("int") == Int
  {
    assert Lower("INT") == "int";
    assert Lower("Int") == "int";
    assert Lower("int") == "int";
  }

  lemma FloatIgnoresCase()
    ensures NewDataType("FLOAT") == NewDataType("Float") == Float
  {
    assert Lower("FLOAT") == "float";
    assert Lower("Float") == "float";
  }

  lemma BoolAndStringIgnoreCase()
    ensures NewDataType("BOOL") == Bool && NewDataType("String") == String
  {
    assert Lower("BOOL") == "bool";
    assert Lower("String") == "string";
  }

  /** The names the create-statement builder produces for CHAR columns and
      for unsupported types are not store types. */
  lemma CharIsInvalid()
    ensures NewDataType("char") == Invalid
  {
    LowerFixesLowercase("char");
  }

  lemma ErrorTypeNameIsInvalid()
    ensures NewDataType("Error data type.") == Invalid
  {
    assert |Lower("Error data type.")| == 16;
  }


  // ---------------------------------------------------------------------
  // Column descriptors

  datatype ColumnAttr = ColumnAttr(
    name: string,
    dataType: DataType,
    isPk: bool,
    isNullable: bool,
    default: Option<string>)

  /** `ColumnAttr::new`: the type is given by name and read with `NewDataType`. */
  function ColumnAttrNew(name: string, dataType: string, isPk: bool, isNullable: bool,
                         default: Option<string>): (c: ColumnAttr)
    ensures c.name == name && c.dataType == NewDataType(dataType)
    ensures c.isPk == isPk && c.isNullable == isNullable && c.default == default
  {
    ColumnAttr(name, NewDataType(dataType), isPk, isNullable, default)
  }

  function BoolToString(b: bool): string {
    if b then "true" else "false"
  }

  const AttrKeys: set<string> := {"name", "datatype", "is_pk", "is_nullable", "default"}

  /** `ColumnAttr::attr`: the descriptor as a name→text row for display. */
  method Attr(c: ColumnAttr) returns (row: map<string, string>)
    ensures row.Keys == AttrKeys
    ensures row["name"] == c.name
    ensures row["datatype"] == DataTypeName(c.dataType)
    ensures row["is_pk"] == BoolToString(c.isPk)
    ensures row["is_nullable"] == BoolToString(c.isNullable)
    ensures row["default"] == (if c.default.Some? then c.default.value else "None")
  {
    row := map[];
    row := row["name" := c.name];
    row := row["datatype" := DataTypeName(c.dataType)];
    row := row["is_pk" := BoolToString(c.isPk)];
    row := row["is_nullable" := BoolToString(c.isNullable)];
    row := row["default" := match c.default case Some(d) => d case None => "None"];
  }

  // ---------------------------------------------------------------------
  // Typed column store

  newtype I32 = x: int | -0x8000_0000 <= x < 0x8000_0000

  /** A 32-bit float, identified with the text it is displayed as. */
  datatype F32 = F32(text: string)

  datatype ColumnData =
    | IntData(ints: seq<I32>)
    | FloatData(floats: seq<F32>)
    | StrData(strs: seq<string>)
    | BoolData(bools: seq<bool>)
    | NoData

  /** One stored value, whatever its column's type. */
  datatype Cell = IntCell(i: I32) | FloatCell(f: F32) | StrCell(s: string) | BoolCell(b: bool)

  /** The declared type a store holds values of. */
  function KindOf(c: ColumnData): DataType {
    match c
    case IntData(_) => Int
    case FloatData(_) => Float
    case StrData(_) => String
    case BoolData(_) => Bool
    case NoData => Invalid
  }

  function CellKind(v: Cell): DataType {
    match v
    case IntCell(_) => Int
    case FloatCell(_) => Float
    case StrCell(_) => String
    case BoolCell(_) => Bool
  }

  /** Length of the vector the variant holds (`NoData` holds none). */
  function Len(c: ColumnData): nat {
    match c
    case IntData(xs) => |xs|
    case FloatData(xs) => |xs|
    case StrData(xs) => |xs|
    case BoolData(xs) => |xs|
    case NoData => 0
  }

  function CellAt(c: ColumnData, p: nat): (v: Cell)
    requires p < Len(c)
    ensures CellKind(v) == KindOf(c)
  {
    match c
    case IntData(xs) => IntCell(xs[p])
    case FloatData(xs) => FloatCell(xs[p])
    case StrData(xs) => StrCell(xs[p])
    case BoolData(xs) => BoolCell(xs[p])
  }

  /** `to_string` of one value. */
  function RenderCell(v: Cell): string {
    match v
    case IntCell(x) => IntToString(x as int)
    case FloatCell(f) => f.text
    case StrCell(s) => s
    case BoolCell(b) => BoolToString(b)
  }

  /** The empty store for a declared type (the match in `Table::new`). */
  function EmptyStore(d: DataType): (c: ColumnData)
    ensures KindOf(c) == d && Len(c) == 0
  {
    match d
    case Float => FloatData([])
    case Int => IntData([])
    case Bool => BoolData([])
    case String => StrData([])
    case Invalid => NoData
  }

  /** `ColumnData::get_all_data`: every value rendered, in storage order.
      A store of no usable type is an error, never an empty result. */
  function GetAllData(c: ColumnData): (r: Result<seq<string>>)
    ensures r.Err? <==> c.NoData?
    ensures r.Err? ==> r.msg == "Invalid column datatype."
    ensures r.Ok? ==> |r.value| == Len(c)
    ensures r.Ok? ==> forall p :: 0 <= p < Len(c) ==> r.value[p] == RenderCell(CellAt(c, p))
  {
    match c
    case IntData(xs) => Ok(seq(|xs|, i requires 0 <= i < |xs| => IntToString(xs[i] as int)))
    case FloatData(xs) => Ok(seq(|xs|, i requires 0 <= i < |xs| => xs[i].text))
    case StrData(xs) => Ok(xs)
    case BoolData(xs) => Ok(seq(|xs|, i requires 0 <= i < |xs| => BoolToString(xs[i])))
    case NoData => Err("Invalid column datatype.")
  }

  /** `ColumnData::get_data_by_ix`: the rendered values at the given positions,
      in the order and with the repetitions of `ix`. */
  method GetDataByIx(c: ColumnData, ix: seq<nat>) returns (r: Result<seq<string>>)
    ensures r.Ok? <==> !c.NoData? && forall k :: 0 <= k < |ix| ==> ix[k] < Len(c)
    ensures c.NoData? ==> r == Err("Invalid column datatype.")
    ensures r.Ok? ==> |r.value| == |ix|
    ensures r.Ok? ==> forall k :: 0 <= k < |ix| ==> r.value[k] == GetAllData(c).value[ix[k]]
  {
    var all := GetAllData(c);
    if all.Err? {
      return Err(all.msg);
    }
    var dataList: seq<string> := [];
    for i := 0 to |ix|
      invariant |dataList| == i
      invariant forall k :: 0 <= k < i ==> ix[k] < |all.value| && dataList[k] == all.value[ix[k]]
    {
      if ix[i] >= |all.value| {
        return Err(IndexOutOfBounds);
      }
      dataList := dataList + [all.value[ix[i]]];
    }
    return Ok(dataList);
  }

  /** `ColumnData::count`: the number of stored values. */
  function Count(c: ColumnData): (r: Result<nat>)
    ensures r.Ok? <==> !c.NoData?
    ensures r.Ok? ==> r.value == Len(c)
  {
    var all :- GetAllData(c);
    Ok(|all|)
  }

  // ---------------------------------------------------------------------
  // Writing one value (`ColumnData::update_val`, whose body is not part of
  // this model): the text is parsed as the column's type and, when it
  // parses and the position exists, replaces the value there.

  function ParseBool(v: string): Option<bool> {
    if v == "true" then Some(true) else if v == "false" then Some(false) else None
  }

  /** The value a text denotes in a column of `c`'s type, if any. */
  function ParseCell(c: ColumnData, v: string): (r: Option<Cell>)
    ensures r.Some? ==> CellKind(r.value) == KindOf(c)
  {
    match c
    case IntData(_) =>
      (match ParseI32(v) case Some(x) => Some(IntCell(x as I32)) case None => None)
    case FloatData(_) => Some(FloatCell(F32(v)))
    case StrData(_) => Some(StrCell(v))
    case BoolData(_) =>
      (match ParseBool(v) case Some(b) => Some(BoolCell(b)) case None => None)
    case NoData => None
  }

  function UpdateVal(c: ColumnData, ix: nat, v: string): (d: ColumnData)
    ensures KindOf(d) == KindOf(c) && Len(d) == Len(c)
  {
    if ix >= Len(c) then c
    else
      match ParseCell(c, v)
      case None => c
      case Some(cell) =>
        match c
        case IntData(xs) => IntData(xs[ix := cell.i])
        case FloatData(xs) => FloatData(xs[ix := cell.f])
        case StrData(xs) => StrData(xs[ix := cell.s])
        case BoolData(xs) => BoolData(xs[ix := cell.b])
  }

  /** A write keeps the store's type and length and touches no other position. */
  lemma UpdateValFrame(c: ColumnData, ix: nat, v: string)
    ensures KindOf(UpdateVal(c, ix, v)) == KindOf(c)
    ensures Len(UpdateVal(c, ix, v)) == Len(c)
    ensures forall p :: 0 <= p < Len(c) && p != ix ==> CellAt(UpdateVal(c, ix, v), p) == CellAt(c, p)
  {
  }

  /** At the written position the new value is the parsed text; a text that
      does not parse, or a position past the end, leaves the store as it was. */
  lemma UpdateValWrites(c: ColumnData, ix: nat, v: string)
    ensures ix < Len(c) && ParseCell(c, v).Some? ==>
              CellAt(UpdateVal(c, ix, v), ix) == ParseCell(c, v).value
    ensures ix >= Len(c) || ParseCell(c, v).None? ==> UpdateVal(c, ix, v) == c
  {
  }

  /** Writing back the rendering of a stored value changes nothing: the
      parse of each type inverts its `to_string`. */
  lemma UpdateValRestores(c: ColumnData, ix: nat)
    requires ix < Len(c)
    ensures UpdateVal(c, ix, RenderCell(CellAt(c, ix))) == c
  {
    match c
    case IntData(xs) =>
      IntToStringRoundTrip(xs[ix] as int);
      assert xs[ix := xs[ix]] == xs;
    case FloatData(xs) =>
      assert xs[ix := xs[ix]] == xs;
    case StrData(xs) =>
      assert xs[ix := xs[ix]] == xs;
    case BoolData(xs) =>
      assert xs[ix := xs[ix]] == xs;
  }
}
