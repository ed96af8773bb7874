/**
 * A model of Squid's `LookupTable<EnumType>` (src/base/LookupTable.h): a
 * table, built once from a terminator-delimited list of (name, id) records,
 * that maps textual tokens to enumeration values and answers every unknown
 * token with a caller-supplied invalid value.
 *
 * Tokens (`SBuf` in the source) are modelled as `seq<char>` compared by value;
 * the `std::map` is a Dafny `map`; a record whose name is `nullptr` is a
 * record whose name is `None`.
 */
module LookupTables {

  /** Absence of a value; here, a record name that is the terminator. */
  datatype Option<T> = None | Some(value: T)

  /** A token, compared by full value: no case folding and no normalisation. */
  type Token = seq<char>

  /** An element of the initialisation list: `{"key1", ENUM_1}` or the terminating `{nullptr, ...}`. */
  datatype Record<V> = Record(name: Option<Token>, id: V)

  /** Every record of `rs` carries a name (none of them is a terminator). */
  ghost predicate AllNamed<V>(rs: seq<Record<V>>)
  {
    forall r :: r in rs ==> r.name.Some?
  }

  /**
   * The position of the first terminator of `data`, where the constructor's
   * loop stops; `|data|` when there is none.
   */
  function TerminatorIndex<V>(data: seq<Record<V>>): (n: nat)
    ensures n <= |data|
    ensures forall j :: 0 <= j < n ==> data[j].name.Some?
    ensures n < |data| ==> data[n].name.None?
  {
    if data == [] || data[0].name.None? then 0
    else 1 + TerminatorIndex(data[1..])
  }

  /** The records the constructor inserts: those before the first terminator. */
  function Live<V>(data: seq<Record<V>>): (rs: seq<Record<V>>)
    ensures AllNamed(rs)
  {
    data[..TerminatorIndex(data)]
  }

  /**
   * The map left by inserting the records of `rs` in order, each assignment
   * overwriting any earlier entry for the same name.
   */
  ghost function Build<V>(rs: seq<Record<V>>): map<Token, V>
    requires AllNamed(rs)
  {
    if rs == [] then map[]
    else
      var last := rs[|rs| - 1];
      Build(rs[..|rs| - 1])[last.name.value := last.id]
  }

  /** Some record of `rs` is named `key`. */
  ghost predicate Named<V>(rs: seq<Record<V>>, key: Token)
  {
    exists j :: 0 <= j < |rs| && rs[j].name == Some(key)
  }

  /** `rs[j]` is named `key` and no later record of `rs` is. */
  ghost predicate LastOccurrence<V>(rs: seq<Record<V>>, key: Token, j: int)
  {
    && 0 <= j < |rs|
    && rs[j].name == Some(key)
    && forall j' :: j < j' < |rs| ==> rs[j'].name != Some(key)
  }

  /** The names the records of `rs` carry. */
  ghost function Names<V>(rs: seq<Record<V>>): set<Token>
  {
    set j | 0 <= j < |rs| && rs[j].name.Some? :: rs[j].name.value
  }

  /** A name that occurs in `rs` has a last occurrence there. */
  lemma {:induction false} LastOccurrenceExists<V>(rs: seq<Record<V>>, key: Token)
    requires Named(rs, key)
    ensures exists j :: LastOccurrence(rs, key, j)
  {
    var n := |rs|;
    if rs[n - 1].name == Some(key) {
      assert LastOccurrence(rs, key, n - 1);
    } else {
      var p := rs[..n - 1];
      var i :| 0 <= i < n && rs[i].name == Some(key);
      assert p[i] == rs[i];
      LastOccurrenceExists(p, key);
      var j :| LastOccurrence(p, key, j);
      assert p[j] == rs[j];
      forall j' | j < j' < n ensures rs[j'].name != Some(key) {
        if j' < n - 1 { assert p[j'] == rs[j']; }
      }
      assert LastOccurrence(rs, key, j);
    }
  }

  /** Dropping the last record of a named list leaves a named list. */
  lemma AllNamedPrefix<V>(rs: seq<Record<V>>)
    requires AllNamed(rs) && rs != []
    ensures AllNamed(rs[..|rs| - 1])
  {
    forall r | r in rs[..|rs| - 1] ensures r.name.Some? {
      assert r in rs;
    }
  }

  /** A name is a key of the built map exactly when some record carries it. */
  lemma {:induction false} BuildDomain<V>(rs: seq<Record<V>>, key: Token)
    requires AllNamed(rs)
    ensures key in Build(rs) <==> Named(rs, key)
  {
    if rs != [] {
      var n := |rs|;
      var p := rs[..n - 1];
      AllNamedPrefix(rs);
      BuildDomain(p, key);
      if rs[n - 1].name != Some(key) {
        assert Named(rs, key) ==> Named(p, key) by {
          if Named(rs, key) {
            var i :| 0 <= i < n && rs[i].name == Some(key);
            assert p[i] == rs[i];
          }
        }
        assert Named(p, key) ==> Named(rs, key) by {
          if Named(p, key) {
            var i :| 0 <= i < n - 1 && p[i].name == Some(key);
            assert p[i] == rs[i];
          }
        }
      }
    }
  }

  /**
   * Last write wins: a name is a key of the built map exactly when some record
   * carries it, and it is then mapped to the id of the last such record.
   */
  lemma {:induction false} BuildLastWins<V>(rs: seq<Record<V>>, key: Token)
    requires AllNamed(rs)
    ensures key in Build(rs) <==> Named(rs, key)
    ensures forall j :: LastOccurrence(rs, key, j) ==> key in Build(rs) && Build(rs)[key] == rs[j].id
  {
    BuildDomain(rs, key);
    forall j | LastOccurrence(rs, key, j) ensures key in Build(rs) && Build(rs)[key] == rs[j].id {
      BuildLast(rs, key, j);
    }
  }

  /** The map built from `rs` sends the name of a last occurrence `rs[j]` to its id. */
  lemma {:induction false} BuildLast<V>(rs: seq<Record<V>>, key: Token, j: int)
    requires AllNamed(rs)
    requires LastOccurrence(rs, key, j)
    ensures key in Build(rs) && Build(rs)[key] == rs[j].id
  {
    var n := |rs|;
    if j < n - 1 {
      var p := rs[..n - 1];
      AllNamedPrefix(rs);
      assert rs[n - 1].name != Some(key);
      forall j' | j < j' < n - 1 ensures p[j'].name != Some(key) {
        assert p[j'] == rs[j'];
      }
      BuildLast(p, key, j);
    }
  }

  /**
   * The keys of the built map are exactly the names of the records, so there
   * are at most as many keys as records.
   */
  lemma {:induction false} BuildKeys<V>(rs: seq<Record<V>>)
    requires AllNamed(rs)
    ensures Build(rs).Keys == Names(rs)
    ensures |Build(rs)| <= |rs|
  {
    if rs != [] {
      var n := |rs|;
      var p := rs[..n - 1];
      AllNamedPrefix(rs);
      BuildKeys(p);
      assert Names(rs) == Names(p) + {rs[n - 1].name.value} by {
        forall k | k in Names(rs) ensures k in Names(p) + {rs[n - 1].name.value} {
          var j :| 0 <= j < n && rs[j].name.Some? && rs[j].name.value == k;
          if j < n - 1 { assert p[j] == rs[j]; }
        }
      }
    }
  }

  /**
   * Records after the first terminator are never looked at: whatever follows
   * it, the live records are those before it.
   */
  lemma {:induction false} TerminatorStops<V>(named: seq<Record<V>>, terminator: Record<V>, rest: seq<Record<V>>)
    requires AllNamed(named)
    requires terminator.name.None?
    ensures Live(named + [terminator] + rest) == named
  {
    var data := named + [terminator] + rest;
    assert data[|named|] == terminator;
    forall j | 0 <= j < |named| ensures data[j].name.Some? {
      assert data[j] == named[j];
    }
    assert data[..|named|] == named;
  }

  /**
   * `LookupTable<EnumType>`: the token-to-value map and the invalid value.
   * The ghost field `records` keeps the initialisation list the table was
   * built from, so that lookups can be specified in terms of it.
   */
  class LookupTable<V> {
    var lookupTable: map<Token, V>
    const invalidValue: V
    ghost const records: seq<Record<V>>

    /** The map holds exactly what inserting the live records in order leaves. */
    ghost predicate Valid()
      reads this
    {
      lookupTable == Build(Live(records))
    }

    /**
     * Inserts the records of `data` up to the first terminator, in order, each
     * one overwriting any earlier entry of the same name.
     */
    constructor (theInvalid: V, data: seq<Record<V>>)
      ensures Valid()
      ensures records == data
      ensures invalidValue == theInvalid
    {
      invalidValue := theInvalid;
      records := data;
      lookupTable := map[];
      new;
      var i := 0;
      while i < |data| && data[i].name.Some?
        invariant i <= TerminatorIndex(data)
        invariant AllNamed(data[..i])
        invariant lookupTable == Build(data[..i])
      {
        assert data[..i + 1][..i] == data[..i];
        lookupTable := lookupTable[data[i].name.value := data[i].id];
        i := i + 1;
      }
    }

    /**
     * The id of the last live record named `key`, or `invalidValue` when no
     * live record is named `key`. Reads the table and changes nothing.
     */
    function Lookup(key: Token): (r: V)
      reads this
      requires Valid()
      ensures forall j :: LastOccurrence(Live(records), key, j) ==> r == records[j].id
      ensures !Named(Live(records), key) ==> r == invalidValue
    {
      BuildLastWins(Live(records), key);
      if key in lookupTable then lookupTable[key] else invalidValue
    }
  }

  /**
   * The keys of a table's map are the names of the records before the first
   * terminator, and there are no more of them than such records.
   */
  lemma TableKeys<V>(t: LookupTable<V>)
    requires t.Valid()
    ensures t.lookupTable.Keys == Names(Live(t.records))
    ensures |t.lookupTable| <= TerminatorIndex(t.records)
  {
    BuildKeys(Live(t.records));
  }

  /** A table whose list holds only the terminator answers every key with its invalid value. */
  lemma TerminatorOnly<V>(t: LookupTable<V>, key: Token)
    requires t.Valid()
    requires |t.records| > 0 && t.records[0].name.None?
    ensures t.lookupTable == map[]
    ensures t.Lookup(key) == t.invalidValue
  {
  }
}
