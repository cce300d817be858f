/** The build step (build/build.php): the decoded airport feed, keyed by ICAO code, is
    filtered into the library, keyed by IATA code. */
module Builder {
  import opened Wrappers
  import opened PhpArray
  import opened PhpValue

  /** The decoded feed: one record per ICAO code, in document order. */
  type Feed = Arr<Record>

  /** The library: one record per IATA code. */
  type Library = Arr<Record>

  /** `$data['iata']`: the stored code, or null when the record has no `iata` field. */
  function IataOf(data: Record): (v: Value)
    ensures HasKey(data, StrKey("iata")) ==> Get(data, StrKey("iata")) == Some(v)
    ensures !HasKey(data, StrKey("iata")) ==> v == VNull
  {
    Read(data, "iata")
  }

  /** No record of the feed has a floating-point `iata`, whose truthiness and key the
      model does not define. */
  predicate CodesAreKeyable(feed: Feed) {
    forall j :: 0 <= j < |feed| ==> !IataOf(feed[j].1).VFloat?
  }

  /** The filter keeps `data` (its code is truthy). */
  predicate Kept(data: Record) {
    !IataOf(data).VFloat? && Truthy(IataOf(data))
  }

  /** The filter keeps `data`, under the key `k`. */
  predicate KeptAs(data: Record, k: Key) {
    Kept(data) && KeyOf(IataOf(data)) == k
  }

  /** Some record of the feed is kept under `k`. */
  predicate SomeKeptAs(feed: Feed, k: Key) {
    exists j :: 0 <= j < |feed| && KeptAs(feed[j].1, k)
  }

  /** One iteration of the filter loop: `if ($data['iata']) $airports[$data['iata']] = $data;` */
  function Assign(lib: Library, data: Record): (r: Library)
    requires Wf(lib) && !IataOf(data).VFloat?
    ensures Wf(r)
    ensures |lib| <= |r| <= |lib| + 1
    ensures forall i :: 0 <= i < |lib| ==> r[i].0 == lib[i].0
    ensures forall i :: 0 <= i < |r| ==>
      if KeptAs(data, r[i].0) then r[i].1 == data else i < |lib| && r[i] == lib[i]
    ensures forall k :: HasKey(r, k) <==> HasKey(lib, k) || KeptAs(data, k)
  {
    if Kept(data) then Put(lib, KeyOf(IataOf(data)), data) else lib
  }

  /** The filter loop: every record with a truthy `iata` is assigned to the library under
      that code, in feed order; later records overwrite earlier ones with the same code. */
  function Filter(feed: Feed): (lib: Library)
    requires CodesAreKeyable(feed)
    ensures Wf(lib)
    ensures |lib| <= |feed|
    ensures forall i :: 0 <= i < |lib| ==> KeptAs(lib[i].1, lib[i].0)
    ensures forall k :: HasKey(lib, k) <==> SomeKeptAs(feed, k)
    ensures forall i :: 0 <= i < |lib| ==> exists j :: 0 <= j < |feed| && feed[j].1 == lib[i].1
    decreases |feed|
  {
    if |feed| == 0 then []
    else
      var prefix := feed[..|feed| - 1];
      assert forall j :: 0 <= j < |prefix| ==> prefix[j] == feed[j];
      var prev := Filter(prefix);
      AssignExtendsFilter(feed, prefix, prev);
      Assign(prev, feed[|feed| - 1].1)
  }

  /** The loop step: assigning the last record to the library of the preceding records
      gives a library with the filter's properties for the whole feed. */
  lemma AssignExtendsFilter(feed: Feed, prefix: Feed, prev: Library)
    requires CodesAreKeyable(feed) && |feed| > 0 && prefix == feed[..|feed| - 1]
    requires Wf(prev) && |prev| <= |prefix|
    requires forall i :: 0 <= i < |prev| ==> KeptAs(prev[i].1, prev[i].0)
    requires forall k :: HasKey(prev, k) <==> SomeKeptAs(prefix, k)
    requires forall i :: 0 <= i < |prev| ==> exists j :: 0 <= j < |prefix| && prefix[j].1 == prev[i].1
    ensures var lib := Assign(prev, feed[|feed| - 1].1);
      && Wf(lib)
      && |lib| <= |feed|
      && (forall i :: 0 <= i < |lib| ==> KeptAs(lib[i].1, lib[i].0))
      && (forall k :: HasKey(lib, k) <==> SomeKeptAs(feed, k))
      && (forall i :: 0 <= i < |lib| ==> exists j :: 0 <= j < |feed| && feed[j].1 == lib[i].1)
  {
    var data := feed[|feed| - 1].1;
    var lib := Assign(prev, data);
    assert forall j :: 0 <= j < |prefix| ==> prefix[j] == feed[j];
    forall k
      ensures HasKey(lib, k) <==> SomeKeptAs(feed, k)
    {
      if SomeKeptAs(feed, k) && !KeptAs(data, k) {
        var j :| 0 <= j < |feed| && KeptAs(feed[j].1, k);
        assert j < |prefix| && KeptAs(prefix[j].1, k);
      }
    }
    forall i | 0 <= i < |lib|
      ensures exists j :: 0 <= j < |feed| && feed[j].1 == lib[i].1
    {
      if !KeptAs(data, lib[i].0) {
        var j :| 0 <= j < |prefix| && prefix[j].1 == prev[i].1;
        assert feed[j].1 == lib[i].1;
      }
    }
  }

  datatype BuildError = UnparsableFeed

  /** The build: a decoded feed that is null (the document did not parse) or empty aborts
      the build before any library exists; otherwise the library is the filtered feed. */
  function Build(decoded: Option<Feed>): (r: Result<Library, BuildError>)
    requires decoded.Some? ==> CodesAreKeyable(decoded.value)
    ensures r.Failure? <==> decoded.None? || decoded.value == []
    ensures r.Success? ==> r.value == Filter(decoded.value)
  {
    match decoded
    case None => Failure(UnparsableFeed)
    case Some(feed) => if |feed| == 0 then Failure(UnparsableFeed) else Success(Filter(feed))
  }

  // ---------------------------------------------------------------------------
  // Reference definitions: the first and the last record kept under a key

  /** The position of the first record of the feed kept under `k`. */
  function FirstKept(feed: Feed, k: Key): (r: Option<nat>)
    ensures r.Some? ==> r.value < |feed| && KeptAs(feed[r.value].1, k)
    ensures r.Some? ==> forall j :: 0 <= j < r.value ==> !KeptAs(feed[j].1, k)
    ensures r.None? ==> !SomeKeptAs(feed, k)
  {
    if |feed| == 0 then None
    else if KeptAs(feed[0].1, k) then Some(0)
    else
      match FirstKept(feed[1..], k)
      case None =>
        assert forall j :: 1 <= j < |feed| ==> feed[j] == feed[1..][j - 1];
        None
      case Some(j) => Some(j + 1)
  }

  /** The position of the last record of the feed kept under `k`. */
  function LastKept(feed: Feed, k: Key): (r: Option<nat>)
    ensures r.Some? ==> r.value < |feed| && KeptAs(feed[r.value].1, k)
    ensures r.Some? ==> forall j :: r.value < j < |feed| ==> !KeptAs(feed[j].1, k)
    ensures r.None? ==> !SomeKeptAs(feed, k)
    decreases |feed|
  {
    if |feed| == 0 then None
    else if KeptAs(feed[|feed| - 1].1, k) then Some(|feed| - 1)
    else
      var prefix := feed[..|feed| - 1];
      assert forall j :: 0 <= j < |prefix| ==> prefix[j] == feed[j];
      LastKept(prefix, k)
  }

  /** The first kept position of a key already kept in a prefix is unchanged by more
      records. */
  lemma FirstKeptOfPrefix(feed: Feed, n: nat, k: Key)
    requires n <= |feed| && FirstKept(feed[..n], k).Some?
    ensures FirstKept(feed, k) == FirstKept(feed[..n], k)
  {
  }

  /** The entry `e` holds the last record of the feed kept under its key. */
  predicate HoldsLastKept(feed: Feed, e: (Key, Record)) {
    LastKept(feed, e.0).Some? && e.1 == feed[LastKept(feed, e.0).value].1
  }

  /** On a duplicate code the library holds the LAST record kept under it. */
  lemma {:induction false} FilterHoldsLastRecord(feed: Feed)
    requires CodesAreKeyable(feed)
    ensures forall i :: 0 <= i < |Filter(feed)| ==> HoldsLastKept(feed, Filter(feed)[i])
    decreases |feed|
  {
    if |feed| > 0 {
      var prefix := feed[..|feed| - 1];
      assert forall j :: 0 <= j < |prefix| ==> prefix[j] == feed[j];
      FilterHoldsLastRecord(prefix);
      forall i | 0 <= i < |Filter(feed)|
        ensures HoldsLastKept(feed, Filter(feed)[i])
      {
        FilterStepHoldsLast(feed, prefix, i);
      }
    }
  }

  /** One record more keeps every entry holding its last kept record. */
  lemma FilterStepHoldsLast(feed: Feed, prefix: Feed, i: nat)
    requires CodesAreKeyable(feed) && |feed| > 0 && prefix == feed[..|feed| - 1]
    requires CodesAreKeyable(prefix)
    requires forall j :: 0 <= j < |Filter(prefix)| ==> HoldsLastKept(prefix, Filter(prefix)[j])
    requires i < |Filter(feed)|
    ensures HoldsLastKept(feed, Filter(feed)[i])
  {
    if KeptAs(feed[|feed| - 1].1, Filter(feed)[i].0) {
      FilterStepTaken(feed, i);
    } else {
      FilterStepUntouched(feed, i);
    }
  }

  /** The entry whose key the last record takes holds that record, its last kept one. */
  lemma FilterStepTaken(feed: Feed, i: nat)
    requires CodesAreKeyable(feed) && |feed| > 0
    requires CodesAreKeyable(feed[..|feed| - 1])
    requires i < |Filter(feed)| && KeptAs(feed[|feed| - 1].1, Filter(feed)[i].0)
    ensures Filter(feed)[i].1 == feed[|feed| - 1].1
    ensures LastKept(feed, Filter(feed)[i].0) == Some(|feed| - 1)
  {
    assert Filter(feed) == Assign(Filter(feed[..|feed| - 1]), feed[|feed| - 1].1);
  }

  /** An entry whose key the last record does not take is the entry of the prefix's
      library, and its last kept record lies in the prefix. */
  lemma FilterStepUntouched(feed: Feed, i: nat)
    requires CodesAreKeyable(feed) && |feed| > 0
    requires CodesAreKeyable(feed[..|feed| - 1])
    requires i < |Filter(feed)| && !KeptAs(feed[|feed| - 1].1, Filter(feed)[i].0)
    ensures i < |Filter(feed[..|feed| - 1])|
    ensures Filter(feed)[i] == Filter(feed[..|feed| - 1])[i]
    ensures LastKept(feed, Filter(feed)[i].0) == LastKept(feed[..|feed| - 1], Filter(feed)[i].0)
  {
    assert Filter(feed) == Assign(Filter(feed[..|feed| - 1]), feed[|feed| - 1].1);
  }

  /** A code first kept by the last record has its first position there. */
  lemma FirstKeptAtEnd(feed: Feed, k: Key)
    requires |feed| > 0 && KeptAs(feed[|feed| - 1].1, k)
    requires !SomeKeptAs(feed[..|feed| - 1], k)
    ensures FirstKept(feed, k) == Some(|feed| - 1)
  {
  }

  /** Each code keeps the position of its FIRST kept record: library order is the order in
      which codes first appear in the feed. */
  lemma {:induction false} FilterKeepsFirstPosition(feed: Feed)
    requires CodesAreKeyable(feed)
    ensures forall i1, i2 :: 0 <= i1 < i2 < |Filter(feed)| ==>
      var lib := Filter(feed);
      FirstKept(feed, lib[i1].0).Some? && FirstKept(feed, lib[i2].0).Some? &&
      FirstKept(feed, lib[i1].0).value < FirstKept(feed, lib[i2].0).value
    decreases |feed|
  {
    if |feed| > 0 {
      var n := |feed| - 1;
      var prefix := feed[..n];
      var data := feed[n].1;
      assert forall j :: 0 <= j < |prefix| ==> prefix[j] == feed[j];
      FilterKeepsFirstPosition(prefix);
      var prev := Filter(prefix);
      var lib := Filter(feed);
      assert lib == Assign(prev, data);
      // Every key of the previous library keeps its first position, which lies in the prefix.
      forall i | 0 <= i < |prev|
        ensures FirstKept(prefix, prev[i].0).Some?
        ensures FirstKept(feed, prev[i].0) == FirstKept(prefix, prev[i].0)
      {
        assert HasKey(prev, prev[i].0);
        FirstKeptOfPrefix(feed, n, prev[i].0);
      }
      forall i1, i2 | 0 <= i1 < i2 < |lib|
        ensures FirstKept(feed, lib[i1].0).Some? && FirstKept(feed, lib[i2].0).Some?
        ensures FirstKept(feed, lib[i1].0).value < FirstKept(feed, lib[i2].0).value
      {
        assert lib[i1].0 == prev[i1].0;
        if i2 < |prev| {
          assert lib[i2].0 == prev[i2].0;
        } else {
          // The last record brought a new code, appended at the end.
          var k := lib[i2].0;
          assert KeptAs(data, k);
          assert !HasKey(prev, k);
          FirstKeptAtEnd(feed, k);
        }
      }
    }
  }

  /** Codes are used verbatim as keys: a string key is exactly the record's `iata`, with no
      upper-casing or trimming; an integer key comes from an integer code, from `true`, or
      from a string that spells that integer. */
  lemma LibraryKeysAreCodes(feed: Feed)
    requires CodesAreKeyable(feed)
    ensures forall i :: 0 <= i < |Filter(feed)| ==>
      var k, code := Filter(feed)[i].0, IataOf(Filter(feed)[i].1);
      && (k.StrKey? ==> code == VStr(k.s) && k.s != "" && k.s != "0")
      && (k.IntKey? ==> code == VInt(k.n) || (code == VBool(true) && k.n == 1)
                        || (code.VStr? && StringKey(code.s) == k))
  {
  }

  /** The library never has more entries than the feed has records with a truthy code. */
  function CountKept(feed: Feed): nat
    requires CodesAreKeyable(feed)
    decreases |feed|
  {
    if |feed| == 0 then 0
    else
      var prefix := feed[..|feed| - 1];
      assert forall j :: 0 <= j < |prefix| ==> prefix[j] == feed[j];
      CountKept(prefix) + (if Kept(feed[|feed| - 1].1) then 1 else 0)
  }

  lemma {:induction false} FilterSizeBoundedByKept(feed: Feed)
    requires CodesAreKeyable(feed)
    ensures |Filter(feed)| <= CountKept(feed) <= |feed|
    decreases |feed|
  {
    if |feed| > 0 {
      var prefix := feed[..|feed| - 1];
      assert forall j :: 0 <= j < |prefix| ==> prefix[j] == feed[j];
      FilterSizeBoundedByKept(prefix);
    }
  }
}
