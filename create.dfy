/** The CREATE TABLE record builder (src/parser/create.rs). */
module CreateParser {
  import opened Wrappers
  import opened Ast

  datatype ForeignKeyAttr = ForeignKeyAttr(table: string, colA: string, colB: string)

  /** A declared column before the store reads its type name. */
  datatype ColumnAttr = ColumnAttr(
    name: string,
    dataType: string,
    isPk: bool,
    isNullable: bool,
    default: Option<string>)

  datatype CreateQuery = CreateQuery(tbName: string, cols: seq<ColumnAttr>, foreignKey: seq<ForeignKeyAttr>)

  /** The type name recorded for a declared SQL type. */
  function TypeName(t: SqlDataType): (r: string)
    ensures r in {"char", "float", "int", "bool", "string", "Error data type."}
    ensures r == "Error data type." <==> t.OtherType?
  {
    match t
    case CharType => "char"
    case FloatType => "float"
    case IntType => "int"
    case DoubleType => "float"
    case BooleanType => "bool"
    case TextType => "string"
    case VarcharType => "string"
    case OtherType(_) => "Error data type."
  }

  /** The three flags of a column. */
  datatype Flags = Flags(isPk: bool, isNullable: bool, default: Option<string>)

  /** The flags of a column declared with no options. */
  const NoOptionFlags := Flags(false, true, None)

  /** What a single option sets: each pass of the option loop overwrites all
      three flags from the current option alone. */
  function OptionFlags(opt: ColumnOption): (f: Flags)
    ensures f.isPk ==> !f.isNullable
    ensures f.isPk <==> opt == Unique(true)
    ensures f.default.Some? <==> opt.Default?
    ensures f.isNullable <==> !(opt == Unique(true) || opt.NotNull?)
    ensures opt.Default? ==> f.default == Some(Show(opt.expr))
  {
    var isPk := match opt case Unique(p) => p case _ => false;
    var isNullable := if isPk then false else !opt.NotNull?;
    var default := match opt case Default(e) => Some(Show(e)) case _ => None;
    Flags(isPk, isNullable, default)
  }

  /** The flags after the option loop: the last option alone decides. */
  function FinalFlags(opts: seq<ColumnOption>): (f: Flags)
    ensures f.isPk ==> !f.isNullable
    ensures f.isPk <==> |opts| > 0 && opts[|opts| - 1] == Unique(true)
    ensures f.default.Some? <==> |opts| > 0 && opts[|opts| - 1].Default?
  {
    if opts == [] then NoOptionFlags else OptionFlags(opts[|opts| - 1])
  }

  /** NOT NULL followed by DEFAULT leaves the column nullable, with a default. */
  lemma NotNullThenDefault(e: Expr)
    ensures FinalFlags([NotNull, Default(e)]) == Flags(false, true, Some(Show(e)))
  {
  }

  /** A lone PRIMARY KEY makes a non-nullable key; a lone UNIQUE does not. */
  lemma LoneUniqueOptions()
    ensures FinalFlags([Unique(true)]) == Flags(true, false, None)
    ensures FinalFlags([Unique(false)]) == Flags(false, true, None)
  {
  }

  /** A PRIMARY KEY that is followed by another option is lost. */
  lemma PrimaryKeyOverridden(e: Expr)
    ensures !FinalFlags([Unique(true), Default(e)]).isPk
    ensures FinalFlags([Unique(true), Default(e)]).isNullable
  {
  }

  function NamesOf(columns: seq<ColumnDef>): (r: seq<string>)
    ensures |r| == |columns| && forall i :: 0 <= i < |columns| ==> r[i] == columns[i].name
  {
    seq(|columns|, i requires 0 <= i < |columns| => columns[i].name)
  }

  /** One foreign-key constraint: only its first local and first referred
      column are kept, and the local one must be a declared column. */
  function ForeignKeyOf(c: TableConstraint, names: seq<string>): (r: Result<ForeignKeyAttr>)
    requires c.ForeignKey?
    ensures r.Ok? <==> |c.columns| > 0 && |c.referredColumns| > 0 && c.columns[0] in names
    ensures r.Ok? ==> r.value == ForeignKeyAttr(c.foreignTable, c.columns[0], c.referredColumns[0])
  {
    if |c.columns| == 0 || |c.referredColumns| == 0 then Err(IndexOutOfBounds)
    else if c.columns[0] !in names then Err("assertion failed: curr_cols.contains(&col_a)")
    else Ok(ForeignKeyAttr(c.foreignTable, c.columns[0], c.referredColumns[0]))
  }

  /** The foreign keys of a constraint list, in constraint order; the first
      ill-formed foreign key is the error. Other constraints are skipped. */
  function ForeignKeys(cs: seq<TableConstraint>, names: seq<string>): (r: Result<seq<ForeignKeyAttr>>)
    ensures r.Ok? ==> |r.value| <= |cs|
    ensures r.Err? ==> r.msg == IndexOutOfBounds || r.msg == "assertion failed: curr_cols.contains(&col_a)"
  {
    if cs == [] then Ok([])
    else
      var prev :- ForeignKeys(cs[..|cs| - 1], names);
      var c := cs[|cs| - 1];
      if c.ForeignKey? then
        var fk :- ForeignKeyOf(c, names);
        Ok(prev + [fk])
      else Ok(prev)
  }

  predicate WellFormedKey(c: TableConstraint, names: seq<string>) {
    c.ForeignKey? ==> |c.columns| > 0 && |c.referredColumns| > 0 && c.columns[0] in names
  }

  /** The constraint list is accepted exactly when every foreign key in it is
      well formed, and then every kept key names a declared local column. */
  lemma {:induction false} ForeignKeysAccepted(cs: seq<TableConstraint>, names: seq<string>)
    ensures ForeignKeys(cs, names).Ok? <==> forall k :: 0 <= k < |cs| ==> WellFormedKey(cs[k], names)
    ensures ForeignKeys(cs, names).Ok? ==>
              forall j :: 0 <= j < |ForeignKeys(cs, names).value| ==> ForeignKeys(cs, names).value[j].colA in names
  {
    if cs != [] {
      var init := cs[..|cs| - 1];
      ForeignKeysAccepted(init, names);
      assert forall k :: 0 <= k < |init| ==> init[k] == cs[k];
    }
  }

  /** When every constraint is a foreign key, the keys come out one per
      constraint and in the same order. */
  lemma {:induction false} ForeignKeysKeepOrder(cs: seq<TableConstraint>, names: seq<string>)
    requires forall k :: 0 <= k < |cs| ==>
               cs[k].ForeignKey? && |cs[k].columns| > 0 && |cs[k].referredColumns| > 0 && cs[k].columns[0] in names
    ensures ForeignKeys(cs, names).Ok?
    ensures |ForeignKeys(cs, names).value| == |cs|
    ensures forall k :: 0 <= k < |cs| ==>
              ForeignKeys(cs, names).value[k] == ForeignKeyAttr(cs[k].foreignTable, cs[k].columns[0], cs[k].referredColumns[0])
  {
    if cs != [] {
      var init := cs[..|cs| - 1];
      assert forall k :: 0 <= k < |init| ==> init[k] == cs[k];
      ForeignKeysKeepOrder(init, names);
    }
  }

  /** Reference list of keys: the foreign-key constraints of `cs` in order,
      each cut to its first local and first referred column. */
  function KeysOf(cs: seq<TableConstraint>): seq<ForeignKeyAttr>
    requires forall k :: 0 <= k < |cs| && cs[k].ForeignKey? ==> |cs[k].columns| > 0 && |cs[k].referredColumns| > 0
  {
    if cs == [] then []
    else
      var c := cs[|cs| - 1];
      KeysOf(cs[..|cs| - 1]) +
        (if c.ForeignKey? then [ForeignKeyAttr(c.foreignTable, c.columns[0], c.referredColumns[0])] else [])
  }

  /** An accepted constraint list yields exactly the reference keys, whatever
      other constraints are mixed in. */
  lemma {:induction false} ForeignKeysOrder(cs: seq<TableConstraint>, names: seq<string>)
    requires ForeignKeys(cs, names).Ok?
    ensures && (forall k :: 0 <= k < |cs| && cs[k].ForeignKey? ==> |cs[k].columns| > 0 && |cs[k].referredColumns| > 0)
            && ForeignKeys(cs, names).value == KeysOf(cs)
  {
    ForeignKeysAccepted(cs, names);
    if cs != [] {
      var init := cs[..|cs| - 1];
      assert forall k :: 0 <= k < |init| ==> init[k] == cs[k];
      ForeignKeysOrder(init, names);
    }
  }

  /** Once a prefix of the constraints fails, the whole list fails the same way. */
  lemma {:induction false} ForeignKeysErrorPersists(cs: seq<TableConstraint>, i: nat, names: seq<string>)
    requires i <= |cs| && ForeignKeys(cs[..i], names).Err?
    ensures ForeignKeys(cs, names) == ForeignKeys(cs[..i], names)
    decreases |cs| - i
  {
    if i < |cs| {
      assert cs[..i + 1][..i] == cs[..i];
      ForeignKeysErrorPersists(cs, i + 1, names);
    } else {
      assert cs[..i] == cs;
    }
  }

  /** `CreateQuery::new` on an already parsed statement. */
  method New(stmt: Statement) returns (r: Result<CreateQuery>)
    ensures !stmt.CreateTable? ==> r == Err("Error")
    ensures stmt.CreateTable? ==>
              var fks := ForeignKeys(stmt.constraints, NamesOf(stmt.columns));
              (r.Ok? <==> fks.Ok?) && (r.Err? ==> r.msg == fks.msg) && (r.Ok? ==> r.value.foreignKey == fks.value)
    ensures r.Ok? ==> r.value.tbName == stmt.name && |r.value.cols| == |stmt.columns|
    ensures r.Ok? ==> forall i :: 0 <= i < |stmt.columns| ==>
              var col, def := r.value.cols[i], stmt.columns[i];
              && col.name == def.name
              && col.dataType == TypeName(def.dataType)
              && Flags(col.isPk, col.isNullable, col.default) == FinalFlags(def.options)
  {
    if !stmt.CreateTable? {
      return Err("Error");
    }
    var columns := stmt.columns;
    var currCols: seq<string> := [];
    var cols: seq<ColumnAttr> := [];
    for i := 0 to |columns|
      invariant currCols == NamesOf(columns[..i])
      invariant |cols| == i
      invariant forall j :: 0 <= j < i ==>
                  && cols[j].name == columns[j].name
                  && cols[j].dataType == TypeName(columns[j].dataType)
                  && Flags(cols[j].isPk, cols[j].isNullable, cols[j].default) == FinalFlags(columns[j].options)
    {
      var col := columns[i];
      var dataType := TypeName(col.dataType);
      var isPk := false;
      var isNullable := true;
      var default: Option<string> := None;
      for k := 0 to |col.options|
        invariant Flags(isPk, isNullable, default) == FinalFlags(col.options[..k])
      {
        var opt := col.options[k];
        isPk := match opt case Unique(p) => p case _ => false;
        if isPk {
          isNullable := false;
        } else {
          isNullable := match opt case NotNull => false case _ => true;
        }
        default := match opt case Default(e) => Some(Show(e)) case _ => None;
        assert col.options[..k + 1][k] == opt;
      }
      assert col.options[..|col.options|] == col.options;
      currCols := currCols + [col.name];
      cols := cols + [ColumnAttr(col.name, dataType, isPk, isNullable, default)];
    }
    assert columns[..|columns|] == columns;
    var constraints := stmt.constraints;
    var fkeys: seq<ForeignKeyAttr> := [];
    for i := 0 to |constraints|
      invariant ForeignKeys(constraints[..i], currCols) == Ok(fkeys)
    {
      var c := constraints[i];
      assert constraints[..i + 1][..i] == constraints[..i];
      if c.ForeignKey? {
        if |c.columns| == 0 || |c.referredColumns| == 0 {
          ForeignKeysErrorPersists(constraints, i + 1, currCols);
          return Err(IndexOutOfBounds);
        }
        var table := c.foreignTable;
        var colA := c.columns[0];
        var colB := c.referredColumns[0];
        if colA !in currCols {
          ForeignKeysErrorPersists(constraints, i + 1, currCols);
          return Err("assertion failed: curr_cols.contains(&col_a)");
        }
        fkeys := fkeys + [ForeignKeyAttr(table, colA, colB)];
      }
    }
    assert constraints[..|constraints|] == constraints;
    return Ok(CreateQuery(stmt.name, cols, fkeys));
  }
}
