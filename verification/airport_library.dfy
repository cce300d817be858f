/** The query side (build/AirportLibrary.php): lookups over the library the build
    produced. The library is passed in as a value instead of being a static property. */
module AirportLibrary {
  import opened Wrappers
  import opened PhpArray
  import opened PhpValue
  import opened Builder

  datatype QueryError = InvalidArgument(message: string)

  // ---------------------------------------------------------------------------
  // strtoupper and the code patterns

  predicate IsAsciiLower(c: char) {
    'a' <= c <= 'z'
  }

  predicate IsAsciiUpper(c: char) {
    'A' <= c <= 'Z'
  }

  /** `strtoupper` on one character: a-z become A-Z, everything else is unchanged. */
  function UpperChar(c: char): (u: char)
    ensures !IsAsciiLower(u)
    ensures !IsAsciiLower(c) ==> u == c
    ensures IsAsciiLower(c) ==> IsAsciiUpper(u) && u as int == c as int - 32
  {
    if IsAsciiLower(c) then (c as int - 32) as char else c
  }

  /** `strtoupper($s)` */
  function Upper(s: string): (u: string)
    ensures |u| == |s|
    ensures forall i :: 0 <= i < |s| ==> u[i] == UpperChar(s[i])
    ensures forall i :: 0 <= i < |u| ==> !IsAsciiLower(u[i])
    ensures (forall i :: 0 <= i < |s| ==> !IsAsciiLower(s[i])) ==> u == s
  {
    seq(|s|, i requires 0 <= i < |s| => UpperChar(s[i]))
  }

  /** Upper-casing twice is upper-casing once. */
  lemma UpperIdempotent(s: string)
    ensures Upper(Upper(s)) == Upper(s)
  {
  }

  /** `preg_match('/^[A-Z]{n}$/', $s)`: exactly `n` capital letters, optionally followed by
      one newline, since PCRE's `$` also matches before a newline that ends the subject. */
  predicate MatchesUpperCode(s: string, n: nat)
    ensures MatchesUpperCode(s, n) ==> n <= |s| <= n + 1 && Upper(s) == s
  {
    && (|s| == n || (|s| == n + 1 && s[n] == '\n'))
    && forall i :: 0 <= i < n ==> IsAsciiUpper(s[i])
  }

  /** A string that passes a code pattern is a string key, never an integer key. */
  lemma CodeIsStringKey(s: string, n: nat)
    requires n > 0 && MatchesUpperCode(s, n)
    ensures StringKey(s) == StrKey(s)
  {
  }

  // ---------------------------------------------------------------------------
  // The four queries

  /** `AirportLibrary::exists($iata)`: raw key membership, with no upper-casing and no
      validation; it never throws. */
  function Exists(lib: Library, iata: string): (r: bool)
    ensures r <==> StringKey(iata) in KeysOf(lib)
  {
    HasKey(lib, StringKey(iata))
  }

  /** `AirportLibrary::find($iata)`: the code is upper-cased and must match `^[A-Z]{3}$`,
      otherwise InvalidArgument is thrown; a well-formed code that is absent gives `false`
      (here `None`); a present one gives its record. */
  function Find(lib: Library, iata: string): (r: Result<Option<Record>, QueryError>)
    ensures r.Failure? <==> !MatchesUpperCode(Upper(iata), 3)
    ensures r.Success? ==> r.value == Get(lib, StrKey(Upper(iata)))
  {
    var code := Upper(iata);
    if !MatchesUpperCode(code, 3) then Failure(InvalidArgument("Invalid/malformed IATA code"))
    else if !Exists(lib, code) then Success(None)
    else
      CodeIsStringKey(code, 3);
      Success(Some(Get(lib, StringKey(code)).value))
  }

  /** `$a['country'] == $country`, taken as string equality. */
  predicate HasCountry(data: Record, code: string)
    ensures HasCountry(data, code) <==> Get(data, StrKey("country")) == Some(VStr(code))
  {
    Read(data, "country") == VStr(code)
  }

  /** `s` is `t` with some elements left out, the rest kept in order. */
  predicate IsSubsequence<T(==)>(s: seq<T>, t: seq<T>)
    decreases |t|
  {
    || |s| == 0
    || (&& |t| > 0
        && ((s[0] == t[0] && IsSubsequence(s[1..], t[1..])) || IsSubsequence(s, t[1..])))
  }

  /** The loop of `findByCountry`: the entries of `lib` whose country is `code`, under their
      own keys, in library order. */
  function SelectCountry(lib: Library, code: string): (r: Library)
    ensures forall e :: e in r <==> e in lib && HasCountry(e.1, code)
    ensures IsSubsequence(r, lib)
    ensures Wf(lib) ==> Wf(r)
    decreases |lib|
  {
    if |lib| == 0 then []
    else
      var rest := SelectCountry(lib[1..], code);
      assert forall e :: e in lib <==> e == lib[0] || e in lib[1..];
      if HasCountry(lib[0].1, code) then
        assert Wf(lib) ==> forall e :: e in rest ==> e.0 != lib[0].0 by {
          if Wf(lib) {
            forall e | e in rest
              ensures e.0 != lib[0].0
            {
              var m :| 0 <= m < |lib[1..]| && lib[1..][m] == e;
              assert lib[m + 1] == e;
            }
          }
        }
        [lib[0]] + rest
      else
        rest
  }

  /** `AirportLibrary::findByCountry($country)`: the code is upper-cased and must match
      `^[A-Z]{2}$`, otherwise InvalidArgument is thrown; the result holds exactly the
      library entries of that country, under their keys and in library order. */
  function FindByCountry(lib: Library, country: string): (r: Result<Library, QueryError>)
    ensures r.Failure? <==> !MatchesUpperCode(Upper(country), 2)
    ensures r.Success? ==> forall e :: e in r.value <==> e in lib && HasCountry(e.1, Upper(country))
    ensures r.Success? ==> IsSubsequence(r.value, lib)
    ensures r.Success? && Wf(lib) ==> Wf(r.value)
  {
    var code := Upper(country);
    if !MatchesUpperCode(code, 2) then
      Failure(InvalidArgument("Invalid/malformed 2-letter country code (expecting ISO 3166 ALPHA-2)"))
    else
      Success(SelectCountry(lib, code))
  }

  /** `AirportLibrary::getFullList()` */
  function GetFullList(lib: Library): (r: Library)
    ensures r == lib
    ensures forall s :: Exists(lib, s) <==> HasKey(r, StringKey(s))
  {
    lib
  }

  // ---------------------------------------------------------------------------
  // Properties of the queries

  /** `find` only sees the upper-cased code. */
  lemma FindDependsOnlyOnUpper(lib: Library, s: string, t: string)
    requires Upper(s) == Upper(t)
    ensures Find(lib, s) == Find(lib, t)
  {
  }

  /** `find($s)` and `find(strtoupper($s))` agree. */
  lemma FindOfUpper(lib: Library, s: string)
    ensures Find(lib, s) == Find(lib, Upper(s))
  {
  }

  /** A subsequence is never longer, and strictly shorter when it misses an element. */
  lemma {:induction false} SubsequenceLength<T>(s: seq<T>, t: seq<T>, x: T)
    requires IsSubsequence(s, t)
    ensures |s| <= |t|
    ensures x in t && x !in s ==> |s| < |t|
    decreases |t|
  {
    if |s| > 0 {
      if s[0] == t[0] && IsSubsequence(s[1..], t[1..]) {
        SubsequenceLength(s[1..], t[1..], x);
        if x in t && x !in s {
          assert x != t[0];
          assert x in t[1..];
          assert x !in s[1..];
        }
      } else {
        SubsequenceLength(s, t[1..], x);
      }
    } else if x in t {
      assert |t| > 0;
    }
  }

  /** `findByCountry` of a library holding an airport of that country and an airport of
      another country is neither empty nor the whole library. */
  lemma CountryResultIsProperNonEmpty(lib: Library, country: string, i: int, j: int)
    requires 0 <= i < |lib| && 0 <= j < |lib|
    requires FindByCountry(lib, country).Success?
    requires HasCountry(lib[i].1, Upper(country)) && !HasCountry(lib[j].1, Upper(country))
    ensures 0 < |FindByCountry(lib, country).value| < |GetFullList(lib)|
  {
    var r := FindByCountry(lib, country).value;
    assert lib[i] in r;
    SubsequenceLength(r, lib, lib[j]);
  }

  /** The full list and `find` agree: for a well-formed code, `find` returns a record
      exactly when the full list holds that record under the upper-cased code. */
  lemma FullListAgreesWithFind(lib: Library, s: string, rec: Record)
    requires Wf(lib) && MatchesUpperCode(Upper(s), 3)
    ensures Find(lib, s) == Success(Some(rec)) <==> (StrKey(Upper(s)), rec) in GetFullList(lib)
  {
    var k := StrKey(Upper(s));
    CodeIsStringKey(Upper(s), 3);
    if (k, rec) in lib {
      var i :| 0 <= i < |lib| && lib[i] == (k, rec);
      assert Get(lib, k) == Some(rec);
    }
    if Find(lib, s) == Success(Some(rec)) {
      var i := IndexOf(lib, k);
      assert lib[i] == (k, rec);
    }
  }

  /** Every entry `findByCountry` returns is an entry of the full list. */
  lemma CountrySubsetOfFullList(lib: Library, country: string)
    requires FindByCountry(lib, country).Success?
    ensures forall e :: e in FindByCountry(lib, country).value ==> e in GetFullList(lib)
  {
  }

  // ---------------------------------------------------------------------------
  // Queries over a library the build produced

  /** `exists` on a built library holds exactly for the keys some feed record carries. */
  lemma ExistsInBuiltLibrary(feed: Feed, s: string)
    requires CodesAreKeyable(feed)
    ensures Exists(Filter(feed), s) <==> SomeKeptAs(feed, StringKey(s))
  {
  }

  /** For a well-formed code, a feed record is kept under the code's key exactly when its
      `iata` is that code. */
  lemma KeptUnderCodeIffCode(data: Record, code: string)
    requires MatchesUpperCode(code, 3)
    ensures KeptAs(data, StrKey(code)) <==> IataOf(data) == VStr(code)
  {
    CodeIsStringKey(code, 3);
    assert IsAsciiUpper(code[0]);
  }

  /** For a well-formed code, `find` on a built library never throws, and returns a record
      exactly when some feed record has that code as its `iata`. */
  lemma FindInBuiltLibrary(feed: Feed, s: string)
    requires CodesAreKeyable(feed)
    requires MatchesUpperCode(Upper(s), 3)
    ensures Find(Filter(feed), s).Success?
    ensures Find(Filter(feed), s).value.Some? <==>
      exists j :: 0 <= j < |feed| && IataOf(feed[j].1) == VStr(Upper(s))
  {
    forall j | 0 <= j < |feed|
      ensures KeptAs(feed[j].1, StrKey(Upper(s))) <==> IataOf(feed[j].1) == VStr(Upper(s))
    {
      KeptUnderCodeIffCode(feed[j].1, Upper(s));
    }
  }

  /** The record `find` returns from a built library carries the code as its `iata`, and
      it is the last feed record that does. */
  lemma FoundRecordCarriesCode(feed: Feed, s: string, rec: Record)
    requires CodesAreKeyable(feed)
    requires Find(Filter(feed), s) == Success(Some(rec))
    ensures IataOf(rec) == VStr(Upper(s))
    ensures LastKept(feed, StrKey(Upper(s))).Some?
    ensures rec == feed[LastKept(feed, StrKey(Upper(s))).value].1
  {
    var lib := Filter(feed);
    var i := IndexOf(lib, StrKey(Upper(s)));
    KeptUnderCodeIffCode(lib[i].1, Upper(s));
    FilterHoldsLastRecord(feed);
  }

  // ---------------------------------------------------------------------------
  // The behaviour the test suite exercises, on a small library

  const LosMochis: Record := [(StrKey("iata"), VStr("LMM")), (StrKey("country"), VStr("MX"))]
  const Kennedy: Record := [(StrKey("iata"), VStr("JFK")), (StrKey("country"), VStr("US"))]
  const NoCode: Record := [(StrKey("iata"), VStr("")), (StrKey("country"), VStr("MX"))]

  /** A feed of two airports with a code, Los Mochis (Mexico) and JFK (United States),
      and a Mexican airfield without one. */
  const SampleFeed: Feed :=
    [(StrKey("MMLM"), LosMochis), (StrKey("KJFK"), Kennedy), (StrKey("MM00"), NoCode)]

  const SampleLibrary: Library := [(StrKey("LMM"), LosMochis), (StrKey("JFK"), Kennedy)]

  lemma SampleCodes()
    ensures IataOf(LosMochis) == VStr("LMM")
    ensures IataOf(Kennedy) == VStr("JFK")
    ensures IataOf(NoCode) == VStr("")
  {
    assert Wf(LosMochis) && LosMochis[0].0 == StrKey("iata");
    assert Wf(Kennedy) && Kennedy[0].0 == StrKey("iata");
    assert Wf(NoCode) && NoCode[0].0 == StrKey("iata");
  }

  lemma SampleFirstStep()
    ensures Filter([(StrKey("MMLM"), LosMochis)]) == [(StrKey("LMM"), LosMochis)]
  {
    SampleCodes();
    StringKeyOfNonNumeric("LMM", 0);
    var f1 := [(StrKey("MMLM"), LosMochis)];
    assert f1[..0] == [];
  }

  lemma SampleSecondStep()
    ensures Assign([(StrKey("LMM"), LosMochis)], Kennedy) == SampleLibrary
    ensures Assign(SampleLibrary, NoCode) == SampleLibrary
  {
    SampleCodes();
    StringKeyOfNonNumeric("JFK", 0);
    assert !HasKey([(StrKey("LMM"), LosMochis)], StrKey("JFK"));
  }

  lemma SampleTwoRecords()
    ensures Filter([(StrKey("MMLM"), LosMochis), (StrKey("KJFK"), Kennedy)]) == SampleLibrary
  {
    SampleCodes();
    SampleFirstStep();
    SampleSecondStep();
    var f2 := [(StrKey("MMLM"), LosMochis), (StrKey("KJFK"), Kennedy)];
    assert f2[..1] == [(StrKey("MMLM"), LosMochis)];
  }

  lemma SampleFeedIsKeyable()
    ensures CodesAreKeyable(SampleFeed)
  {
    SampleCodes();
    assert forall j :: 0 <= j < |SampleFeed| ==> SampleFeed[j].1 in {LosMochis, Kennedy, NoCode};
  }

  lemma SampleThirdStep()
    requires CodesAreKeyable(SampleFeed)
    ensures Filter(SampleFeed) == SampleLibrary
  {
    SampleTwoRecords();
    SampleSecondStep();
    assert SampleFeed[..2] == [(StrKey("MMLM"), LosMochis), (StrKey("KJFK"), Kennedy)];
    assert SampleFeed[2].1 == NoCode;
  }

  /** The build turns the sample feed into the sample library, dropping the record without
      a code. */
  lemma SampleBuild()
    ensures CodesAreKeyable(SampleFeed)
    ensures Build(Some(SampleFeed)) == Success(SampleLibrary)
  {
    SampleFeedIsKeyable();
    SampleThirdStep();
  }

  /** `find('LMM')` returns a record with an `iata` key, and so does `find('lmm')`. */
  lemma SampleFindPresent()
    ensures Find(SampleLibrary, "LMM") == Success(Some(LosMochis))
    ensures Find(SampleLibrary, "lmm") == Success(Some(LosMochis))
    ensures HasKey(LosMochis, StrKey("iata"))
  {
    assert Upper("LMM") == "LMM";
    assert Upper("lmm") == "LMM";
    assert SampleLibrary[0].0 == StrKey("LMM");
    assert LosMochis[0].0 == StrKey("iata");
  }

  /** `find('ZZZ')` is false, and so is `find("lmm\n")`: the pattern accepts the trailing
      newline, the lookup does not find the key. */
  lemma SampleFindAbsent()
    ensures Find(SampleLibrary, "ZZZ") == Success(None)
    ensures Find(SampleLibrary, "lmm\n") == Success(None)
  {
  }

  /** `find('WXZY1')` throws. */
  lemma SampleFindMalformed()
    ensures Find(SampleLibrary, "WXZY1").Failure?
  {
  }

  /** `exists` does not upper-case: `exists('lmm')` is false where `exists('LMM')` holds. */
  lemma SampleExistsIsCaseSensitive()
    ensures Exists(SampleLibrary, "LMM")
    ensures !Exists(SampleLibrary, "lmm")
  {
    StringKeyOfNonNumeric("LMM", 0);
    StringKeyOfNonNumeric("lmm", 0);
    assert SampleLibrary[0].0 == StrKey("LMM");
  }

  /** `findByCountry('MX')` is neither empty nor the full list, and
      `findByCountry('MEXICO')` throws. */
  lemma SampleCountryBehaviour()
    ensures FindByCountry(SampleLibrary, "MX").Success?
    ensures 0 < |FindByCountry(SampleLibrary, "MX").value| < |GetFullList(SampleLibrary)|
    ensures FindByCountry(SampleLibrary, "MEXICO").Failure?
  {
    SampleCountryCodes();
    SampleCountries();
    CountryResultIsProperNonEmpty(SampleLibrary, "MX", 0, 1);
  }

  lemma SampleCountryCodes()
    ensures Upper("MX") == "MX" && MatchesUpperCode("MX", 2)
    ensures !MatchesUpperCode(Upper("MEXICO"), 2)
  {
    assert Upper("MX") == "MX";
    assert |Upper("MEXICO")| == 6;
  }

  lemma SampleCountries()
    ensures HasCountry(SampleLibrary[0].1, "MX")
    ensures !HasCountry(SampleLibrary[1].1, "MX")
  {
    assert Wf(LosMochis) && LosMochis[1].0 == StrKey("country");
    assert Wf(Kennedy) && Kennedy[1].0 == StrKey("country");
  }
}
