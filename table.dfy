/** A table: the ordered schema and one typed store per column name
    (src/database/table.rs). */
module Tables {
  import opened Wrappers
  import opened Base
  import CreateParser
  import Ast

  /** The schema entry `Table::new` makes for a declared column. */
  function HeaderOf(c: CreateParser.ColumnAttr): ColumnAttr {
    ColumnAttrNew(c.name, c.dataType, c.isPk, c.isNullable, c.default)
  }

  /** The empty store `Table::new` makes for a declared type name. */
  function StoreFor(dataType: string): ColumnData {
    EmptyStore(NewDataType(dataType))
  }

  /** The schema after the construction loop has seen `cols`. */
  function Schema(cols: seq<CreateParser.ColumnAttr>): (r: seq<ColumnAttr>)
    ensures |r| == |cols|
  {
    if cols == [] then [] else Schema(cols[..|cols| - 1]) + [HeaderOf(cols[|cols| - 1])]
  }

  /** The name→store map after the construction loop has seen `cols`: each
      column inserts its store, replacing an earlier one of the same name. */
  function EmptyStores(cols: seq<CreateParser.ColumnAttr>): (m: map<string, ColumnData>)
    ensures forall n :: n in m ==> Len(m[n]) == 0
    ensures |m| <= |cols|
  {
    if cols == [] then map[]
    else
      var c := cols[|cols| - 1];
      EmptyStores(cols[..|cols| - 1])[c.name := StoreFor(c.dataType)]
  }

  function DeclaredNames(cols: seq<CreateParser.ColumnAttr>): set<string> {
    set i | 0 <= i < |cols| :: cols[i].name
  }

  function SchemaNames(columns: seq<ColumnAttr>): set<string> {
    set i | 0 <= i < |columns| :: columns[i].name
  }

  /** Column `i` is the last one with its name. */
  predicate LastNamed(columns: seq<ColumnAttr>, i: nat)
    requires i < |columns|
  {
    forall j :: i < j < |columns| ==> columns[j].name != columns[i].name
  }

  predicate LastDeclared(cols: seq<CreateParser.ColumnAttr>, i: nat)
    requires i < |cols|
  {
    forall j :: i < j < |cols| ==> cols[j].name != cols[i].name
  }

  /** The table invariants: the stores are keyed by exactly the schema's
      names, all stores have one common length (the row count), and each
      store's type is the declared type of the column that owns the name. */
  ghost predicate Consistent(columns: seq<ColumnAttr>, m: map<string, ColumnData>) {
    && m.Keys == SchemaNames(columns)
    && (forall a, b :: a in m && b in m ==> Len(m[a]) == Len(m[b]))
    && (forall i :: 0 <= i < |columns| && LastNamed(columns, i) ==>
          columns[i].name in m && KindOf(m[columns[i].name]) == columns[i].dataType)
  }

  /** The schema has one entry per declared column, in the declared order. */
  lemma {:induction false} SchemaShape(cols: seq<CreateParser.ColumnAttr>)
    ensures |Schema(cols)| == |cols|
    ensures forall i :: 0 <= i < |cols| ==> Schema(cols)[i] == HeaderOf(cols[i])
  {
    if cols != [] {
      var init := cols[..|cols| - 1];
      SchemaShape(init);
      assert forall i :: 0 <= i < |init| ==> init[i] == cols[i];
    }
  }

  /** Every declared name is a key, every key a declared name, and all
      stores start empty. */
  lemma {:induction false} EmptyStoresKeys(cols: seq<CreateParser.ColumnAttr>)
    ensures EmptyStores(cols).Keys == DeclaredNames(cols)
    ensures forall n :: n in EmptyStores(cols) ==> Len(EmptyStores(cols)[n]) == 0
  {
    if cols != [] {
      var init := cols[..|cols| - 1];
      EmptyStoresKeys(init);
      assert forall i :: 0 <= i < |init| ==> init[i] == cols[i];
      assert DeclaredNames(cols) == DeclaredNames(init) + {cols[|cols| - 1].name};
    }
  }

  /** The store under a name is the one of the last column with that name. */
  lemma {:induction false} EmptyStoresLast(cols: seq<CreateParser.ColumnAttr>, i: nat)
    requires i < |cols| && LastDeclared(cols, i)
    ensures cols[i].name in EmptyStores(cols)
    ensures EmptyStores(cols)[cols[i].name] == StoreFor(cols[i].dataType)
  {
    var init := cols[..|cols| - 1];
    if i < |cols| - 1 {
      assert forall k :: 0 <= k < |init| ==> init[k] == cols[k];
      EmptyStoresLast(init, i);
    }
  }

  /** Two columns with one name: the schema keeps both, in order, and the
      later one owns the store. */
  lemma DuplicateNames(cols: seq<CreateParser.ColumnAttr>, i: nat, j: nat)
    requires i < j < |cols| && cols[i].name == cols[j].name && LastDeclared(cols, j)
    ensures |Schema(cols)| == |cols|
    ensures Schema(cols)[i] == HeaderOf(cols[i]) && Schema(cols)[j] == HeaderOf(cols[j])
    ensures cols[j].name in EmptyStores(cols)
    ensures EmptyStores(cols)[cols[j].name] == StoreFor(cols[j].dataType)
  {
    SchemaShape(cols);
    EmptyStoresLast(cols, j);
  }

  /** A freshly built table meets the table invariants: keys are the schema
      names, every store has length 0, and each store's variant is the type
      read from the same name that gave the schema entry its type. */
  lemma NewTableConsistent(cols: seq<CreateParser.ColumnAttr>)
    ensures Consistent(Schema(cols), EmptyStores(cols))
  {
    var columns := Schema(cols);
    var m := EmptyStores(cols);
    SchemaShape(cols);
    EmptyStoresKeys(cols);
    assert SchemaNames(columns) == DeclaredNames(cols) by {
      assert forall i :: 0 <= i < |cols| ==> columns[i].name == cols[i].name;
    }
    forall i | 0 <= i < |columns| && LastNamed(columns, i)
      ensures columns[i].name in m && KindOf(m[columns[i].name]) == columns[i].dataType
    {
      assert LastDeclared(cols, i);
      EmptyStoresLast(cols, i);
    }
  }

  /** How the declared SQL type decides the store: each supported type gets
      the matching variant. */
  lemma DeclaredTypeToStore(t: Ast.SqlDataType)
    requires !t.CharType? && !t.OtherType?
    ensures StoreFor(CreateParser.TypeName(t)) == match t
      case IntType => IntData([])
      case FloatType | DoubleType => FloatData([])
      case BooleanType => BoolData([])
      case _ => StrData([])
  {
    match t
    case IntType => TypedStore(t, Int);
    case FloatType => TypedStore(t, Float);
    case DoubleType => TypedStore(t, Float);
    case BooleanType => TypedStore(t, Bool);
    case TextType => TypedStore(t, String);
    case VarcharType => TypedStore(t, String);
  }

  lemma TypedStore(t: Ast.SqlDataType, d: DataType)
    requires CreateParser.TypeName(t) == DataTypeName(d)
    ensures StoreFor(CreateParser.TypeName(t)) == EmptyStore(d)
  {
    DataTypeRoundTrip(d);
  }

  /** CHAR columns and columns of an unsupported type get no usable store. */
  lemma UnsupportedTypeHasNoStore(t: Ast.SqlDataType)
    requires t.CharType? || t.OtherType?
    ensures StoreFor(CreateParser.TypeName(t)) == NoData
  {
    if t.CharType? {
      CharIsInvalid();
    } else {
      ErrorTypeNameIsInvalid();
    }
  }

  class Table {
    const name: string
    const columns: seq<ColumnAttr>
    var colMap: map<string, ColumnData>

    ghost predicate Valid()
      reads this
    {
      Consistent(columns, colMap)
    }

    /** `Table::new`: the schema in declared order and one empty store per name. */
    constructor (cq: CreateParser.CreateQuery)
      ensures name == cq.tbName
      ensures columns == Schema(cq.cols) && colMap == EmptyStores(cq.cols)
      ensures Valid()
    {
      var tbCols: seq<ColumnAttr> := [];
      var tbColMap: map<string, ColumnData> := map[];
      for i := 0 to |cq.cols|
        invariant tbCols == Schema(cq.cols[..i])
        invariant tbColMap == EmptyStores(cq.cols[..i])
      {
        var column := cq.cols[i];
        assert cq.cols[..i + 1][..i] == cq.cols[..i];
        tbCols := tbCols + [ColumnAttrNew(column.name, column.dataType, column.isPk,
                                          column.isNullable, column.default)];
        tbColMap := tbColMap[column.name := EmptyStore(NewDataType(column.dataType))];
      }
      assert cq.cols[..|cq.cols|] == cq.cols;
      NewTableConsistent(cq.cols);
      name := cq.tbName;
      columns := tbCols;
      colMap := tbColMap;
    }
  }
}
