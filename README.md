# simple-db in Dafny

A model of the core of simple-db, a small relational database written in
Rust. The program reads SQL text and turns each statement (CREATE TABLE,
INSERT, SELECT, UPDATE and DELETE) into a plain record. It keeps each table
as an ordered schema plus one typed vector per column. It also sorts console
lines into commands by their leading keyword.

The model covers these parts:

- **The column store** (`Base`). It covers the type names, the column
  descriptor and its display row, and the typed column vectors with their
  read-all, read-by-position and count operations. It also gives a
  positional write.
- **Table construction** (`Tables`). A `Table` class holds the schema and the
  name→column map. Its invariant is that the keys are the schema names, all
  columns have one length, and the store under each name has the declared
  type of the last column with that name.
- **The table registry** (`Db`). A `Database` class supports lookup by exact
  name.
- **UPDATE** (`Normal`). It picks the key column and resolves the filtered
  rows to storage positions. It then writes the assignments in place. The
  module also has the single-FROM guard of SELECT.
- **The WHERE translator** (`ConditionParser`). It turns an expression
  tree into a predicate tree.
- **The statement-record builders.** These are `CreateParser`, `InsertParser`,
  `SelectParser` and `DeleteParser`. They work on a parsed statement.
- **Command classification** (`Commands`, and the older tables in `Utils`).
  `Utils` also has the stored password and the system login. The older
  `SysCommand::new` in src/utils.rs:66-78 has the same six keywords, read the
  same way, so `Commands.SysCommandNew` models both.

Three helper modules stand in for library code:

- `Wrappers` provides `Option` and `Result`. Every Rust panic the core can
  reach becomes an `Err`. The `Err` carries the panic message, or only its
  first words where Rust appends run-time values, as for index panics.
- `Strings` models the Rust string functions the code uses: ASCII
  `to_lowercase`, `split(" ")`, and integer `Display`. Integer parsing
  (`ParseI32`) is not used by any modelled source function: it serves only
  `Base.ParseCell`, the stand-in for the unmodelled `ColumnData::update_val`.
- `Ast` is a mirror of the parts of the `sqlparser` syntax tree that the code
  matches on. Its `Show` functions stand for the tree's `Display`.

## Model

| member | source | states |
|---|---|---|
| Base.DataTypeName | src/database/base.rs:26-34 | a type renders as one of the four store names exactly when it is not `Invalid`; the rendering has no capitals |
| Base.NewDataType | src/database/base.rs:17-25 | a name gives `Invalid` exactly when its lower-cased form is not float/int/bool/string; otherwise the type's name is that lower-cased form |
| Base.DataTypeRoundTrip | src/database/base.rs:17-34 | reading back the name of any of the five types gives that type; `Invalid` ("null") included |
| Base.IntIgnoresCase | src/database/base.rs:18-20 | "INT", "Int" and "int" all give `Int` |
| Base.FloatIgnoresCase | src/database/base.rs:18-19 | "FLOAT" and "Float" give `Float` |
| Base.BoolAndStringIgnoreCase | src/database/base.rs:18-22 | "BOOL" gives `Bool`, "String" gives `String` |
| Base.CharIsInvalid | src/database/base.rs:23 | "char", the name CHAR columns get, is `Invalid` |
| Base.ErrorTypeNameIsInvalid | src/database/base.rs:23 | "Error data type.", the name of unsupported types, is `Invalid` |
| Base.ColumnAttrNew | src/database/base.rs:47-56 | the descriptor keeps the name and flags given and reads its type from the type name |
| Base.Attr | src/database/base.rs:58-66 | the row has exactly the keys name/datatype/is_pk/is_nullable/default; the flags render as "true"/"false"; an absent default renders as "None" |
| Base.EmptyStore | src/database/table.rs:25-31 | the store made for a type holds that type and no values |
| Base.CellAt | src/database/base.rs:76-82 | a stored value has its column's type |
| Base.GetAllData | src/database/base.rs:85-93 | fails exactly on the untyped store, never returning an empty result for it; otherwise one rendered value per stored value, in order |
| Base.GetDataByIx | src/database/base.rs:95-102 | succeeds exactly when the store is typed and every index is in range; the result has one entry per index, and entry k is read-all's entry `ix[k]` |
| Base.Count | src/database/base.rs:104-106 | fails exactly on the untyped store; otherwise it is the length of the held vector |
| Base.ParseCell | src/database/base.rs:76-82 | a text that parses yields a value of the store's type |
| Base.UpdateVal | src/system/commands/normal.rs:89 | a write keeps the store's type and length |
| Base.UpdateValFrame | src/system/commands/normal.rs:89 | a write keeps the store's type and length and changes no other position |
| Base.UpdateValWrites | src/system/commands/normal.rs:89 | a write puts the parsed text at the position; an unparsable text or a position past the end leaves the store unchanged |
| Base.UpdateValRestores | src/database/base.rs:85-90 | writing back the rendering of a stored value changes nothing |
| Tables.Schema | src/database/table.rs:19-24 | one descriptor per declared column |
| Tables.EmptyStores | src/database/table.rs:25-31 | every store is empty, and there are no more stores than declared columns |
| Tables.SchemaShape | src/database/table.rs:19-24 | the schema has one descriptor per declared column, in declared order |
| Tables.EmptyStoresKeys | src/database/table.rs:25-31 | the map's keys are exactly the declared names, and every store is empty |
| Tables.EmptyStoresLast | src/database/table.rs:25 | the store under a name is the one for the last column with that name |
| Tables.DuplicateNames | src/database/table.rs:19-25 | with a repeated name, the schema keeps both entries in order and the later column owns the store |
| Tables.NewTableConsistent | src/database/table.rs:19-31 | a freshly built table meets the table invariant; the store under each name has the declared type of the last column with that name, so the store's variant and that column's schema type come from the same type name |
| Tables.DeclaredTypeToStore | src/parser/create.rs:49-58 | INT gives an int store, FLOAT and DOUBLE a float store, BOOLEAN a bool store, TEXT and VARCHAR a string store |
| Tables.UnsupportedTypeHasNoStore | src/parser/create.rs:50-57 | CHAR columns and columns of any unsupported type get no usable store |
| Tables.Table.constructor | src/database/table.rs:13-38 | keeps the table name, builds the schema and map of the declared columns, and establishes `Valid()` |
| Db.AnyNamed | src/database/db.rs:13 | true exactly when some table in the list has the name |
| Db.Database.constructor | src/database/db.rs:8-10 | a new registry has no tables |
| Db.Database.CheckTable | src/database/db.rs:12-14 | true exactly when some table's name equals the given one exactly |
| Db.Database.GetTable | src/database/db.rs:16-23 | succeeds exactly when `CheckTable` holds; gives the first table in list order with that name; otherwise fails with "Table n is not existed." |
| Normal.PrimaryKey | src/system/commands/normal.rs:62-70 | none exactly when no column is a key; otherwise the name of the first column flagged as key |
| Normal.KeyValues | src/system/commands/normal.rs:71-74 | succeeds exactly when every filtered row has the key column; one key value per filtered row, in order |
| Normal.RowIndices | src/system/commands/normal.rs:75-85 | succeeds exactly when every stored row has the key column; positions strictly increase and lie below the row count; a position is included exactly when its key value is among the given ones |
| Normal.Resolve | src/system/commands/normal.rs:62-85 | no key column is the `unwrap` failure, and every failure is; resolved positions strictly increase and lie below the row count |
| Normal.ResolveSpec | src/system/commands/normal.rs:62-85 | no key column is a failure; a position is resolved exactly when its key value equals that of some filtered row, so every stored row sharing a selected key is hit |
| Normal.RowIndicesNoIds | src/system/commands/normal.rs:75-85 | with no key value to look for, no position is resolved |
| Normal.ResolveNothingFiltered | src/system/commands/normal.rs:71-85 | when no row passes the filter, no position is resolved |
| Normal.NothingFilteredUnchanged | src/system/commands/normal.rs:71-92 | when no row passes the filter, the assignments leave every column unchanged |
| Normal.WriteColumn | src/system/commands/normal.rs:87-91 | the inner loop keeps the key set; a column that is not in the map leaves the map unchanged |
| Normal.AssignAll | src/system/commands/normal.rs:86-92 | the outer loop keeps the key set |
| Normal.WriteColumnFrame | src/system/commands/normal.rs:87-91 | one assignment keeps the key set, leaves the other columns unchanged, and in its own column changes only resolved positions |
| Normal.AssignAllFrame | src/system/commands/normal.rs:86-92 | all assignments keep every column's name, type and length; a column no assignment names is unchanged; an assignment to a missing column is skipped; no unresolved position changes |
| Normal.AssignAllNoRows | src/system/commands/normal.rs:86-92 | with no resolved position the map is unchanged |
| Normal.WriteColumnHit | src/system/commands/normal.rs:87-90 | after one assignment, each resolved position of its column holds the assigned value |
| Normal.LastAssignmentWins | src/system/commands/normal.rs:86-89 | when several assignments name one column, the last of them decides the value at each resolved position |
| Normal.AssignAllConsistent | src/system/commands/normal.rs:86-92 | the writes keep the table invariant |
| Normal.UpdateData | src/system/commands/normal.rs:59-92 | the resolved positions are returned; a failure (no key column, a row without the key) happens before any write; on success the map is the old one with the assignments applied in order; `Valid()` is preserved |
| Normal.SelectTables | src/system/commands/normal.rs:37-53 | succeeds exactly when the FROM list has one item; gives that table, or the two tables of a join |
| ConditionParser.KnownOperator | src/parser/condition.rs:23-30 | succeeds exactly for `>`, `<`, `=`, AND and OR, with And/Or exactly for AND/OR; any other operator fails with "not implemented" |
| ConditionParser.FromExpr | src/parser/condition.rs:20-59 | a failure is "not implemented" or "Invalid operation."; the result is a logical node exactly when the input is an AND/OR node |
| ConditionParser.FromExprSucceeds | src/parser/condition.rs:20-59 | translation succeeds exactly on AND/OR trees whose leaves are `>`, `<`, `=`, IS NULL or LIKE; any other operator or expression kind on the spine fails |
| ConditionParser.FromExprWellFormed | src/parser/condition.rs:23-54 | logical nodes carry only And/Or; comparisons never carry And/Or or IsTrue; `right` is none exactly for IsNull |
| ConditionParser.FromExprLogicalCount | src/parser/condition.rs:31-36 | there is one logical node per AND/OR on the spine of the expression |
| ConditionParser.ConnectiveInsideComparison | src/parser/condition.rs:37-42 | for the tree `BinaryOp(a, Gt, BinaryOp(b, And, c))`, an AND below a comparison operand is rendered into the comparison's text ("b AND c"), so it produces no logical node |
| ConditionParser.FromExprConnective | src/parser/condition.rs:31-36 | an AND/OR node becomes a logical node over the translations of its operands |
| ConditionParser.FromExprComparison | src/parser/condition.rs:24-26 | a `>`/`<`/`=` node becomes a comparison with that same operator, the rendered left operand and the rendered right operand |
| ConditionParser.FromExprIsNull | src/parser/condition.rs:45-49 | IS NULL becomes a comparison of the rendered operand with operator IsNull and no right side |
| ConditionParser.NotLikeIsLike | src/parser/condition.rs:50-54 | LIKE becomes a comparison with the pattern as its right side, and NOT LIKE is translated the same way |
| SelectParser.ConditionOf | src/parser/select.rs:39-41 | succeeds exactly when there is no WHERE or its translation succeeds; the condition is present exactly when there is a WHERE, and is then its translation; a failure carries the translation's message |
| SelectParser.FormatStat | src/parser/select.rs:29-58 | a plain SELECT gives its FROM list, one rendered item per projection in order, and a condition exactly when there is a WHERE (its translation); another query body is "Error"; a non-query gives the empty record |
| DeleteParser.FormatStat | src/parser/delete.rs:15-32 | a non-DELETE gives `("", None)`; a DELETE succeeds exactly with a FROM item and a translatable WHERE; the condition is then always present; the name is the first FROM table, or "" for a join |
| DeleteParser.DeleteNeedsWhere | src/parser/delete.rs:26 | a DELETE without WHERE is an error |
| DeleteParser.DeleteConditionWellFormed | src/parser/delete.rs:26 | a produced DELETE condition is well formed |
| InsertParser.CellText | src/parser/insert.rs:43-60 | a number gives its text, a boolean "true"/"false", a quoted string its content, NULL "NULL"; another literal is "Invalid type." and a non-literal "Invalid operation." |
| InsertParser.New | src/parser/insert.rs:13-82 | a non-INSERT or non-VALUES input fails with "Invalid operation."; success exactly when every cell maps; a failure reports the first bad cell in row-major order; the table name and column list are copied; each row keeps its length and order, with the cell texts |
| CreateParser.TypeName | src/parser/create.rs:49-58 | the name is one of char/float/int/bool/string, or "Error data type." exactly for an unsupported type |
| CreateParser.OptionFlags | src/parser/create.rs:63-78 | one option sets all three flags: key exactly for PRIMARY KEY; nullable unless the option is PRIMARY KEY or NOT NULL; a default exactly for DEFAULT, and then it is the rendered expression |
| CreateParser.FinalFlags | src/parser/create.rs:59-79 | a key is never nullable; the column is a key exactly when its last option is PRIMARY KEY, and has a default exactly when its last option is DEFAULT |
| CreateParser.NotNullThenDefault | src/parser/create.rs:153-157 | NOT NULL then DEFAULT leaves the column nullable, with the default |
| CreateParser.LoneUniqueOptions | src/parser/create.rs:63-68 | a lone PRIMARY KEY makes a non-nullable key; a lone UNIQUE makes no key |
| CreateParser.PrimaryKeyOverridden | src/parser/create.rs:62-79 | a PRIMARY KEY followed by another option is lost, because the last option alone decides |
| CreateParser.NamesOf | src/parser/create.rs:48-84 | the recorded column names, one per column, in order |
| CreateParser.ForeignKeyOf | src/parser/create.rs:102-110 | keeps only the first local and first referred column; succeeds exactly when both exist and the local one is a declared column |
| CreateParser.ForeignKeys | src/parser/create.rs:93-112 | at most one key per constraint; a failure is the index panic or the failed membership assertion |
| CreateParser.ForeignKeysAccepted | src/parser/create.rs:93-112 | the constraints are accepted exactly when every foreign key is well formed, and every kept key names a declared column |
| CreateParser.ForeignKeysKeepOrder | src/parser/create.rs:93-112 | when every constraint is a well-formed foreign key, the keys come out one per constraint, in constraint order |
| CreateParser.ForeignKeysOrder | src/parser/create.rs:93-112 | an accepted constraint list yields exactly its foreign-key constraints, in order and with other constraints skipped, each cut to its first local and first referred column |
| CreateParser.ForeignKeysErrorPersists | src/parser/create.rs:105 | the first failing foreign key fails the whole statement |
| CreateParser.New | src/parser/create.rs:36-120 | a non-CREATE statement is "Error"; success and the error message follow the foreign-key check; columns keep count and order; each has its name, the mapped type name, and the flags of its last option (no options: not key, nullable, no default) |
| Commands.CommandWord | src/system/commands/type.rs:18-27 | each keyword is one lower-case word |
| Commands.CommandOfWord | src/system/commands/type.rs:17-28 | a word is known exactly when it is some command's keyword, and then it is that command's keyword |
| Commands.CommandTypeNew | src/system/commands/type.rs:15-30 | succeeds exactly when the lower-cased first word is a keyword; otherwise fails with "Invalid command." |
| Commands.CommandOfWordRoundTrip | src/system/commands/type.rs:18-27 | each keyword maps back to its own, distinct command |
| Commands.CommandWordRoundTrip | src/system/commands/type.rs:15-30 | each keyword, as a line, selects its command |
| Commands.CommandFirstWordOnly | src/system/commands/type.rs:16-17 | only the first word is examined |
| Commands.CommandIgnoresCase | src/system/commands/type.rs:17 | words that differ only in case select the same command |
| Commands.LeadingSpaceIsInvalid | src/system/commands/type.rs:16-28 | a line starting with a space has an empty first word and is rejected |
| Commands.UpperCaseSelect | src/system/commands/type.rs:17-20 | "SELECT ..." is a select command |
| Commands.WordIsFirstToken | src/system/commands/type.rs:16-17 | a lower-case keyword without spaces is its own first word |
| Commands.SysWord | src/system/commands/type.rs:46-51 | each system keyword is one lower-case word |
| Commands.SysCommandOfWord | src/system/commands/type.rs:45-52 | a word is known exactly when it is some system command's keyword |
| Commands.SysCommandNew | src/system/commands/type.rs:43-54 | fewer than two words is an indexing failure; otherwise succeeds exactly when the lower-cased second word is a system keyword, else "Invalid command." |
| Commands.SysOfWordRoundTrip | src/system/commands/type.rs:46-51 | each system keyword maps back to its own command |
| Commands.SysWordRoundTrip | src/system/commands/type.rs:44-52 | with any first word, a system keyword in second place selects its command |
| Commands.SysSecondWordOnly | src/system/commands/type.rs:44-45 | only the second word is examined |
| Commands.SysSingleWord | src/system/commands/type.rs:44-45 | a one-word line is an indexing failure |
| Utils.CommandWord | src/utils.rs:46-50 | each older keyword is one lower-case word |
| Utils.CommandOfWord | src/utils.rs:45-51 | a word is known exactly when it is one of the five older keywords |
| Utils.CommandTypeNew | src/utils.rs:43-53 | succeeds exactly when the lower-cased first word is one of the five keywords; otherwise "Invalid command." |
| Utils.CommandOfWordRoundTrip | src/utils.rs:46-50 | each older keyword maps back to its own command |
| Utils.CommandWordRoundTrip | src/utils.rs:43-53 | each older keyword, followed by anything, selects its command |
| Utils.OlderTableAgrees | src/utils.rs:46-50 | create, insert, select and sys mean the same in both tables |
| Utils.ShowIsOnlyOlder | src/utils.rs:49 | "show" is known only to the older table |
| Utils.Password.constructor | src/utils.rs:14-17 | the password is stored hashed, and it checks |
| Utils.Password.SetPassword | src/utils.rs:19-21 | only the stored digest changes, and the new password checks |
| Utils.Password.CheckPassword | src/utils.rs:23-25 | true exactly when the candidate's digest equals the stored one |
| Utils.CheckOnlyStored | src/utils.rs:23-25 | with a collision-free hash (an idealisation: SHA-256 has collisions), exactly the stored password checks |
| Utils.DbSystem.constructor | src/utils.rs:81-85 | the account holds the given name, user and password |
| Utils.DbSystem.Login | src/utils.rs:103-108 | true exactly when the user name matches and the password checks |

## Left out

- The `sqlparser` crate: SQL text is never parsed. The builders take a statement of the mirror syntax tree in `Ast`. The tree's `Display` is the `Show` rendering in `Ast`, which covers the shapes the model renders and is not sqlparser's printer. The parsing step at the start of `CreateQuery::new` and `InsertQuery::new`, including its `unwrap`s, is omitted.
- `FromType::new` (src/parser/join.rs) is not part of this model. The mirror statements carry their FROM lists already as `FromType` values.
- `ColumnData::update_val` is not part of this model. `Base.UpdateVal` is a stand-in: a write at one position after parsing the text as the column's type. A failed parse or a position past the end leaves the column unchanged, whereas the real method may panic there.
- `Table::get_rows` and `filter_rows` are not part of this model. `Normal.UpdateData` receives the table's rows and the filtered rows as parameters, so condition evaluation and LIKE matching are not modelled.
- CreateParser.ForeignKeyOf: identifiers in `Ast` are plain names, so quoted identifiers are not modelled. `ForeignKeyOf` and `ForeignKeysAccepted` hold only for unquoted names. For a quoted column name the source records the name with its quotes, but tests membership with the bare name, so there its assertion fails where the model accepts.
- CreateParser.ForeignKeysAccepted: for the same reason it holds only for unquoted names; with a quoted local column the source's membership assertion fails, so the statement is rejected where the lemma says it is accepted.
- Normal.LastAssignmentWins: the UPDATE assignments are taken to be an ordered list. The source's `UpdateQuery` is not part of this model. If its assignments were an unordered map, the iteration order, and so which assignment wins, would be unspecified.
- `Normal.UpdateData` starts after the table lookup. `UpdateQuery::format_stat` and `Database::get_table_mut` are not part of this model.
- Joins (`Table::join_tbs`), row insertion and deletion, `Database::create_table` and `drop_table`, and every `save_disk`/`load_from_disk` call are not modelled. Their bodies are not part of this model, or they are file I/O.
- Float values are identified with the text they display as (`F32`), so f32 rounding and formatting are not modelled.
- `Strings.Lower` lower-cases only ASCII letters, whereas Rust's `to_lowercase` is Unicode-aware.
- The SHA-256 digest and its hex encoding are replaced by a deterministic function fixed when a `Password` is made.
- `DbSystem::new` and `load_cfg` read the account from a file. The constructor here takes the account's fields instead. `update_info` (a file write) is left out.
- Presentation is left out: `PrettyTable`, `println!`, `show_tb_data`, `show_tb_info`, `show_all_tbs` and the `Display` of `ColumnAttr`.
- Other front-end files are left out: src/system/commands/system.rs and src/system/dbs.rs (file-system commands and a second copy of `login`), the command dispatcher src/system/commands/parser.rs, src/parser/drop.rs and src/main.rs.
- Panics are modelled as `Err` values carrying the Rust panic message. `assert_eq!` in `select_data` is given only its first line.
