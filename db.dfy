/** The registry of tables (src/database/db.rs). */
module Db {
  import opened Wrappers
  import opened Tables

  /** Whether some table in `ts` has exactly the name `n` (`Iterator::any`). */
  function AnyNamed(ts: seq<Table>, n: string): (b: bool)
    ensures b <==> exists i :: 0 <= i < |ts| && ts[i].name == n
  {
    if ts == [] then false else ts[0].name == n || AnyNamed(ts[1..], n)
  }

  class Database {
    var tables: seq<Table>

    /** `Database::new`: a registry with no tables. */
    constructor ()
      ensures tables == []
    {
      tables := [];
    }

    /** `Database::check_table`: exact-name membership. */
    function CheckTable(tbName: string): (b: bool)
      reads this
      ensures b <==> exists i :: 0 <= i < |tables| && tables[i].name == tbName
    {
      AnyNamed(tables, tbName)
    }

    /** `Database::get_table`: the first table in list order with that name;
        it fails exactly when `CheckTable` says there is none. */
    method GetTable(tbName: string) returns (r: Result<Table>)
      ensures r.Ok? <==> CheckTable(tbName)
      ensures r.Ok? ==> r.value.name == tbName
      ensures r.Ok? ==> exists i :: 0 <= i < |tables| && tables[i] == r.value &&
                          forall j :: 0 <= j < i ==> tables[j].name != tbName
      ensures r.Err? ==> r.msg == "Table " + tbName + " is not existed."
    {
      for i := 0 to |tables|
        invariant forall j :: 0 <= j < i ==> tables[j].name != tbName
      {
        var tb := tables[i];
        if tb.name == tbName {
          return Ok(tb);
        }
      }
      return Err("Table " + tbName + " is not existed.");
    }
  }
}
