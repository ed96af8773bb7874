# LookupTable: token-to-enumeration lookup

This project models Squid's `LookupTable<EnumType>` (`src/base/LookupTable.h`),
the helper that parsers use to turn a textual token into an enumeration value.
A table is built once from an initialisation list of `{name, id}` records that
ends with a `{nullptr, ...}` record, and from an invalid value. Afterwards
`lookup(key)` returns the id stored for `key`, or the invalid value when no
record named `key`.

How the model stands for the source:

- `SBuf` tokens are `seq<char>` (`LookupTables.Token`), compared by full value:
  no case folding, trimming or prefix matching.
- A `Record` is a datatype `Record(name: Option<Token>, id: V)`. A `nullptr` name is `None`.
- The class `LookupTables.LookupTable<V>` has the source's two members.
  `lookupTable` is a `map<Token, V>`. `invalidValue` is a `const`, so nothing
  can change it after the constructor. A ghost field `records` keeps the
  initialisation list, so that lookups can be specified against it.
- The constructor is the source's loop. It walks the list up to the first
  terminator and assigns each record into the map field, so a later record
  with the same name overwrites an earlier one. Its loop invariant ties the
  map to `Build`, the fold that inserts the records in order.
- `Lookup` is a function with `reads this`. Like the source's `const` member,
  it cannot change the table, and the same key always gives the same answer.
- `TerminatorIndex` and `Live` give the position of the first terminator and
  the records before it. `LastOccurrence`, `Named` and `Names` are the
  reference definitions the lemmas compare the built map with.

## Model

| member | source | states |
|---|---|---|
| `LookupTables.TerminatorIndex` | src/base/LookupTable.h:37 | the loop stops at the first record with no name: every record before the returned index has a name, and the record at the index, if there is one, is the terminator |
| `LookupTables.Live` | src/base/LookupTable.h:37-38 | the records the constructor inserts (those before the first terminator) all have names |
| `LookupTables.LastOccurrenceExists` | src/base/LookupTable.h:37-38 | a name that occurs among the records has a last occurrence among them |
| `LookupTables.BuildDomain` | src/base/LookupTable.h:37-38 | inserting the records in order gives a map that has a key exactly when some record carries that name |
| `LookupTables.BuildLast` | src/base/LookupTable.h:37-38 | when no later record carries the same name, the map sends that name to the record's id, because later assignments only overwrite their own key |
| `LookupTables.BuildLastWins` | src/base/LookupTable.h:37-38 | inserting the records in order gives a map that has a key exactly when some record carries that name, and maps it to the id of the last record with that name |
| `LookupTables.BuildKeys` | src/base/LookupTable.h:37-38 | the keys of the built map are exactly the record names, and there are at most as many keys as records |
| `LookupTables.TerminatorStops` | src/base/LookupTable.h:37 | records at or after the first terminator are never inserted, whatever they hold |
| `LookupTables.LookupTable.constructor` | src/base/LookupTable.h:34-40 | the invalid value is the argument, and the map is the in-order insertion of the records before the first terminator |
| `LookupTables.LookupTable.Lookup` | src/base/LookupTable.h:41-46 | returns the id of the last record before the terminator named exactly `key`, and returns the invalid value when no such record is named `key` |
| `LookupTables.TableKeys` | src/base/LookupTable.h:37-38 | a table's map keys are the names before the first terminator, and there are no more keys than those records |
| `LookupTables.TerminatorOnly` | src/base/LookupTable.h:37-44 | a list whose first record is the terminator gives an empty map, and every lookup then returns the invalid value |
| `LookupTableScenarios.RequestMethods` | src/base/LookupTable.h:41-46 | with records GET=1, POST=2, PUT=3 and invalid 0: `GET` gives 1 and `PUT` gives 3, while `DELETE`, the empty token and lower-case `get` give 0 |
| `LookupTableScenarios.DuplicateName` | src/base/LookupTable.h:37-38 | with records a=1, then a=2, a lookup of `a` gives 2 |
| `LookupTableScenarios.TerminatorFirst` | src/base/LookupTable.h:37-44 | with the terminator first and invalid 99, any token gives 99, including the name of a record placed after the terminator |

## Left out

- `SBuf` internals are not part of this model. A token is a character sequence compared by value.
- The model does not cover `std::map` ordering, balancing or its logarithmic cost. Only its finite-map behaviour matters, and a Dafny `map` gives that.
- A list with no terminator makes the source read past the end of the C array. That is undefined behaviour. The model stops at the end of the sequence instead, and does not model the out-of-bounds read.
- The model makes no claim about concurrent lookups. The class has no synchronisation to model, and `Lookup` cannot change state.
- The source does not check that the invalid value differs from every record id, and neither does the model.
