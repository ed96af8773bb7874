/**
 * Clients of `LookupTables.LookupTable`: concrete initialisation lists of the
 * kind the table is built from, and what lookups on them return.
 */
module LookupTableScenarios {
  import opened LookupTables

  /** Request-method tokens: exact, case-sensitive matching; unknown and empty tokens give the invalid value. */
  method RequestMethods() returns (get: int, put: int, delete: int, empty: int, lower: int)
    ensures get == 1 && put == 3
    ensures delete == 0 && empty == 0 && lower == 0
  {
    var t := new LookupTable(0, [Record(Some("GET"), 1), Record(Some("POST"), 2), Record(Some("PUT"), 3), Record(None, 0)]);
    get := t.Lookup("GET");
    put := t.Lookup("PUT");
    delete := t.Lookup("DELETE");
    empty := t.Lookup("");
    lower := t.Lookup("get");
  }

  /** A name listed twice: the later record's id is the one kept. */
  method DuplicateName() returns (a: int)
    ensures a == 2
  {
    var t := new LookupTable(-1, [Record(Some("a"), 1), Record(Some("a"), 2), Record(None, -1)]);
    a := t.Lookup("a");
  }

  /** Only the terminator: every token is unknown; records after the terminator are not inserted. */
  method TerminatorFirst() returns (anything: int, hidden: int)
    ensures anything == 99 && hidden == 99
  {
    var t := new LookupTable(99, [Record(None, 0), Record(Some("hidden"), 7)]);
    anything := t.Lookup("anything");
    hidden := t.Lookup("hidden");
  }
}
