# Airport library: a Dafny model

This project models the core of Angle/airports. That PHP package ships a static table of
airports keyed by IATA code, and the table is generated at build time from a public
airport feed keyed by ICAO code. The model covers three pieces:

- **The build filter** (`Builder`, from `build/build.php`). The decoded feed is an ordered
  map from ICAO code to record. It becomes the library, keyed by each record's `iata`
  value. A record is kept only when that value is truthy in PHP's sense. A later record
  with the same code overwrites the value and keeps the key's first position. A feed that
  is null (did not parse) or empty aborts the build.
- **The queries** (`AirportLibrary`, from `build/AirportLibrary.php`): `find`,
  `findByCountry`, `exists` and `getFullList`. The static `$library` property becomes a
  `Library` parameter, and the model treats it as exactly the filtered feed.
- **The record wrapper** (`Airports`, from `src/Airport.php`): `createFromArray` and an
  abstract `toArray`.

Two more modules carry the PHP semantics these rely on:

- `PhpArray`: ordered arrays with unique keys; `$a[$k] = $v`; integer-like string keys.
- `PhpValue`: the scalar values of a decoded record, truthiness, and the cast to a key.

A PHP `false` return is modelled as `Option.None`. A thrown `InvalidArgumentException` is
modelled as `Result.Failure(InvalidArgument(..))`.

Modelling decisions:

- PHP arrays are association lists `seq<(Key, V)>`. Their invariant `Wf` says no key
  occurs twice.
- `Put` models assignment. An existing key keeps its position and takes the new value; a
  new key is appended.
- Keys are `IntKey(n)` or `StrKey(s)`. `StringKey` models how PHP stores a string key on a
  64-bit platform. A string that spells an integer canonically (`"42"`, `"-7"`, but not
  `"042"` or `"-0"`) becomes that integer key; any other string stays a string key.
  `exists` uses the same cast, so `exists("123")` looks up the integer key 123.
- `strtoupper` maps ASCII a–z to A–Z and leaves every other character unchanged.
- `preg_match('/^[A-Z]{n}$/')` accepts `n` capital letters, optionally followed by one
  final newline, because PCRE's `$` also matches before a newline that ends the subject.
  So `find("lmm\n")` passes validation and then looks up the key `"LMM\n"`. On a library
  built from a feed without that code, it returns `false` and does not throw.

Three facts about the code that a reader might not expect:

- Codes are used verbatim as keys. The build does not upper-case or trim them
  (`LibraryKeysAreCodes`).
- Only a decoded feed that is null or empty aborts the build. A non-empty feed in which
  no record has a truthy `iata` produces an empty library.
- `exists` does not fold case. It checks raw key membership
  (`SampleExistsIsCaseSensitive`).

## Model

| member | source | states |
|---|---|---|
| `PhpValue.Read` | build/build.php:103 | Reading `$data['iata']` yields the stored value when the key is present, and null when it is absent |
| `PhpValue.FalsyValues` | build/build.php:103 | `if ($data['iata'])` rejects exactly null, `false`, `0`, `""` and `"0"` (floats aside) |
| `PhpValue.KeyOfTruthyString` | build/build.php:103-105 | A truthy code lands under the string key `s` exactly when the code is the string `s`, for every `s` PHP keeps as a string key |
| `PhpValue.KeyOf` | build/build.php:105 | A value used as an array key gives a string key only for null (`""`) or for that very string |
| `PhpArray.HasKeyIffInKeys` | build/AirportLibrary.php:75 | `array_key_exists($k, $a)` holds exactly when `k` is one of the array's keys |
| `PhpArray.Get` | build/AirportLibrary.php:39 | Reading `$a[$k]` is absent exactly when the key is absent. In an array with unique keys it is the value stored beside `k` |
| `PhpArray.StringKey` | build/AirportLibrary.php:75 | A string used as a key stays that string, or becomes an integer within PHP's 64-bit range. Exactly which strings become integers is stated by `StringKeyIntOnlyFromSpelling` and `SpelledIntegerIsIntKey` |
| `PhpArray.StringKeyIntOnlyFromSpelling` | build/AirportLibrary.php:75 | Conversely, a string becomes an integer key only when it is that integer's canonical spelling, so `"042"`, `"-0"` and out-of-range spellings stay string keys |
| `PhpArray.SpelledIntegerIsIntKey` | build/build.php:105 | The decimal spelling of a 64-bit integer addresses the integer key itself, so `$a["42"]` is `$a[42]` |
| `PhpArray.Put` | build/build.php:105 | Assignment keeps the array well formed. An existing key keeps its position and takes the new value; a new key is appended. All other keys read as before |
| `Builder.IataOf` | build/build.php:103 | `$data['iata']` is the stored code when the record has that field, and null when it does not |
| `Builder.Assign` | build/build.php:103-105 | One loop step adds exactly the record's key when its code is truthy. The entry under that key holds this record, whether the key was new or overwritten; every other entry stays in place |
| `Builder.Filter` | build/build.php:100-107 | The library has unique keys and is no longer than the feed. Every entry has a truthy `iata` and sits under the key that `iata` casts to. The key set is exactly the set of keys of kept feed records. Every stored record is a feed record, unchanged |
| `Builder.FilterHoldsLastRecord` | build/build.php:102-105 | On a duplicate code, the stored record is the last feed record kept under that key |
| `Builder.FilterKeepsFirstPosition` | build/build.php:102-105 | Library order is the order in which codes first appear in the feed |
| `Builder.FilterSizeBoundedByKept` | build/build.php:96-111 | The library has at most as many entries as there are records with a truthy code, and so at most the feed's count |
| `Builder.LibraryKeysAreCodes` | build/build.php:105 | Keys are the codes used verbatim, with no upper-casing. A string key equals the record's `iata` string, which is neither `""` nor `"0"` |
| `Builder.Build` | build/build.php:90-107 | The build fails exactly when the decoded feed is null or empty; otherwise it yields the filtered feed |
| `AirportLibrary.UpperChar` | build/AirportLibrary.php:31 | A lower-case ASCII letter becomes its capital; every other character is unchanged; no lower-case letter survives |
| `AirportLibrary.Upper` | build/AirportLibrary.php:31 | `strtoupper` (here and at line 50) keeps the length, leaves no lower-case ASCII letter, and leaves a string without one unchanged |
| `AirportLibrary.MatchesUpperCode` | build/AirportLibrary.php:33 | A string the pattern (here and, with `n = 2`, at line 52) accepts has `n` or `n + 1` characters and is unchanged by `strtoupper` |
| `AirportLibrary.HasCountry` | build/AirportLibrary.php:59 | A record matches a country exactly when its `country` field holds that code as a string |
| `AirportLibrary.UpperIdempotent` | build/AirportLibrary.php:31 | Upper-casing is idempotent |
| `AirportLibrary.CodeIsStringKey` | build/AirportLibrary.php:33-39 | A code that passes the pattern is looked up as a string key, never an integer key |
| `AirportLibrary.Find` | build/AirportLibrary.php:29-40 | `find` throws exactly when the upper-cased code fails `^[A-Z]{3}$`. Otherwise it returns the record stored under the upper-cased code, or `false` when that key is absent |
| `AirportLibrary.FindOfUpper` | build/AirportLibrary.php:31 | `find(s)` equals `find(strtoupper(s))` |
| `AirportLibrary.FindDependsOnlyOnUpper` | build/AirportLibrary.php:31-39 | Two codes with the same upper-case form get the same answer |
| `AirportLibrary.FindInBuiltLibrary` | build/AirportLibrary.php:33-39 | On a built library, `find` never throws for a well-formed code. It finds a record exactly when some feed record has that code as its `iata` |
| `AirportLibrary.FoundRecordCarriesCode` | build/AirportLibrary.php:39 | The record `find` returns from a built library has the upper-cased code as its `iata`, and is the last feed record with that code |
| `AirportLibrary.SelectCountry` | build/AirportLibrary.php:56-64 | The loop keeps exactly the entries whose country is the code, under their own keys and in library order. The result has unique keys when the library does |
| `AirportLibrary.FindByCountry` | build/AirportLibrary.php:48-65 | `findByCountry` throws exactly when the upper-cased code fails `^[A-Z]{2}$`. Otherwise it returns precisely the library entries of that country, as an order-preserving subsequence |
| `AirportLibrary.CountryResultIsProperNonEmpty` | tests/AirportLibraryTest.php:36-47 | If one entry has the country and another does not, the result is non-empty and strictly shorter than the full list |
| `AirportLibrary.SubsequenceLength` | build/AirportLibrary.php:58-62 | A filtered subsequence is never longer than its source, and is strictly shorter when it misses an element |
| `AirportLibrary.Exists` | build/AirportLibrary.php:73-76 | `exists` is raw key membership under PHP's key cast, with no case folding and no error path |
| `AirportLibrary.ExistsInBuiltLibrary` | build/AirportLibrary.php:73-76 | On a built library, `exists(s)` holds exactly when some feed record is kept under the key of `s` |
| `AirportLibrary.GetFullList` | build/AirportLibrary.php:84-87 | The full list is the library itself, unchanged, so it has exactly the keys that `exists` reports |
| `AirportLibrary.FullListAgreesWithFind` | build/AirportLibrary.php:84-87 | For a well-formed code, `find` returns a record exactly when the full list holds that record under the upper-cased code |
| `AirportLibrary.CountrySubsetOfFullList` | build/AirportLibrary.php:58-64 | Every entry `findByCountry` returns is an entry of the full list |
| `AirportLibrary.SampleBuild` | build/build.php:100-107 | A sample feed of two coded airports and one uncoded airfield builds into the two-entry library |
| `AirportLibrary.SampleFindPresent` | tests/AirportLibraryTest.php:10-16 | `find('LMM')` and `find('lmm')` return the Los Mochis record, which has an `iata` key |
| `AirportLibrary.SampleFindAbsent` | tests/AirportLibraryTest.php:19-24 | `find('ZZZ')` is `false` and does not throw, and so is `find("lmm\n")` |
| `AirportLibrary.SampleFindMalformed` | tests/AirportLibraryTest.php:27-33 | `find('WXZY1')` throws InvalidArgument |
| `AirportLibrary.SampleExistsIsCaseSensitive` | build/AirportLibrary.php:73-76 | `exists('LMM')` holds where `exists('lmm')` does not |
| `AirportLibrary.SampleCountryBehaviour` | tests/AirportLibraryTest.php:36-55 | `findByCountry('MX')` is non-empty and not the full list, and `findByCountry('MEXICO')` throws |
| `Airports.CreateFromArray` | src/Airport.php:82-98 | Each of the ten properties equals its key's value when the key is present, and is null when it is absent. An airport is always returned |
| `Airports.CreateFieldIsLocal` | src/Airport.php:86-95 | Each property depends only on its own key |
| `Airports.CreateIgnoresOtherKeys` | src/Airport.php:86-95 | Arrays that agree on the ten keys give the same airport; all other keys are ignored |
| `Airports.CreateFromEmpty` | src/Airport.php:84-97 | An empty array gives the all-null airport, not `false` |
| `Airports.ToArray` | src/Airport.php:100-103 | `toArray` is the record of all ten properties, nulls included, in declaration order and with unique keys |
| `Airports.CreateFromToArray` | src/Airport.php:82-103 | `createFromArray(toArray(a))` is `a` |
| `Airports.ToArrayOfCreate` | src/Airport.php:82-103 | `toArray(createFromArray(d))` holds each of the ten keys with `d`'s value, or null where `d` lacks the key |

## Left out

- Downloading the feed, temp and output directories, file reads and writes, `echo` and
  `die` messages (build/build.php:18-83, 117-152). These are I/O. The model takes the
  decoded feed as its input.
- JSON decoding (build/build.php:88) and the `var_export` code generation that replaces the
  placeholder (build/build.php:129, build/AirportLibrary.php:97). The library is the
  filtered map itself, passed to each query as a parameter instead of living in a static
  property.
- A decoded document that is a JSON scalar rather than an object or array. Its behaviour
  depends on the PHP version (`count` of a scalar). Feed entries that are not objects, and
  nested arrays or objects as field values, are left out too. The model assumes every feed
  entry is an object of scalar fields.
- `Builder.Filter`: requires that no feed record has a floating-point `iata`
  (`CodesAreKeyable`). Floats carry no arithmetic here, so their truthiness and their
  truncation to an integer key are not modelled. `Builder.Build` has the same requirement
  on a decoded feed.
- `PhpValue.KeyOf`: defined for every value except a float, for the same reason.
- `AirportLibrary.FindByCountry`: compares the country by string equality. PHP's loose `==`
  also matches a record whose `country` is boolean `true`, and under PHP 7 an integer `0`
  field against any code.
- `AirportLibrary.Find`, `AirportLibrary.FindByCountry`, `AirportLibrary.Exists`: take
  string arguments only. PHP would also accept and convert integers, null or booleans.
- `AirportLibrary.Find`, `AirportLibrary.FindByCountry`, `AirportLibrary.Exists`: strings
  are sequences of Unicode characters, while PHP strings are byte strings. A query argument
  that is not valid UTF-8 cannot be expressed. Upper-casing and the `[A-Z]` patterns touch
  only ASCII, so no valid argument behaves differently.
- `AirportLibrary.UpperChar`: models `strtoupper` as ASCII only. Before PHP 8.2 it depended
  on the locale.
- `Airports.ToArray`: is the abstract projection of the ten properties. The JSON round trip
  inside it (float printing, failure on invalid UTF-8) is not modelled
  (src/Airport.php:102).
- Latitude, longitude and elevation are opaque payload with no numeric semantics. Integers
  are unbounded. The model assumes every integer in the feed fits PHP's 64-bit range,
  because it does not model integer overflow during decoding.
- Lookup by facility type, nearest-airport search, and the secondary type feed with its
  merge policy are not part of this model. None of them is in the source files modelled
  here, and the distance computation is floating point.
