/** The `Airport` property wrapper (src/Airport.php): ten nullable fields filled from a
    record by name, and the projection back to a record. */
module Airports {
  import opened Wrappers
  import opened PhpArray
  import opened PhpValue

  /** An airport; a field that was never set holds `VNull`, PHP's default. */
  datatype Airport = Airport(
    iata: Value,
    icao: Value,
    name: Value,
    city: Value,
    state: Value,
    country: Value,
    elevation: Value,
    lat: Value,
    lon: Value,
    tz: Value)

  /** The public properties, in declaration order. None of them is an integer string, so
      each is a string key. */
  const FieldNames: seq<string> :=
    ["iata", "icao", "name", "city", "state", "country", "elevation", "lat", "lon", "tz"]

  /** The `i`-th property, in declaration order: `$a->{FieldNames[i]}`. */
  function FieldAt(a: Airport, i: nat): Value
    requires i < |FieldNames|
  {
    match i
    case 0 => a.iata
    case 1 => a.icao
    case 2 => a.name
    case 3 => a.city
    case 4 => a.state
    case 5 => a.country
    case 6 => a.elevation
    case 7 => a.lat
    case 8 => a.lon
    case _ => a.tz
  }

  /** Two airports are equal exactly when they agree on every property. */
  lemma AirportExtensionality(a: Airport, b: Airport)
    requires forall i :: 0 <= i < |FieldNames| ==> FieldAt(a, i) == FieldAt(b, i)
    ensures a == b
  {
    assert FieldAt(a, 0) == FieldAt(b, 0);
    assert FieldAt(a, 1) == FieldAt(b, 1);
    assert FieldAt(a, 2) == FieldAt(b, 2);
    assert FieldAt(a, 3) == FieldAt(b, 3);
    assert FieldAt(a, 4) == FieldAt(b, 4);
    assert FieldAt(a, 5) == FieldAt(b, 5);
    assert FieldAt(a, 6) == FieldAt(b, 6);
    assert FieldAt(a, 7) == FieldAt(b, 7);
    assert FieldAt(a, 8) == FieldAt(b, 8);
    assert FieldAt(a, 9) == FieldAt(b, 9);
  }

  /** `Airport::createFromArray($data)`: each property whose key is present takes its
      value, whatever it is; every other property stays null; other keys are ignored. The
      result is always an airport, even for an empty array. */
  function CreateFromArray(data: Record): (a: Airport)
    ensures forall i :: 0 <= i < |FieldNames| && HasKey(data, StrKey(FieldNames[i])) ==>
      Get(data, StrKey(FieldNames[i])) == Some(FieldAt(a, i))
    ensures forall i :: 0 <= i < |FieldNames| && !HasKey(data, StrKey(FieldNames[i])) ==>
      FieldAt(a, i) == VNull
  {
    Airport(
      Read(data, FieldNames[0]),
      Read(data, FieldNames[1]),
      Read(data, FieldNames[2]),
      Read(data, FieldNames[3]),
      Read(data, FieldNames[4]),
      Read(data, FieldNames[5]),
      Read(data, FieldNames[6]),
      Read(data, FieldNames[7]),
      Read(data, FieldNames[8]),
      Read(data, FieldNames[9]))
  }

  /** `$a->toArray()`, as the record of all ten properties in declaration order, nulls
      included. */
  function ToArray(a: Airport): (r: Record)
    ensures Wf(r)
    ensures |r| == |FieldNames|
    ensures forall i :: 0 <= i < |r| ==> r[i] == (StrKey(FieldNames[i]), FieldAt(a, i))
  {
    seq(|FieldNames|, i requires 0 <= i < |FieldNames| => (StrKey(FieldNames[i]), FieldAt(a, i)))
  }

  /** Each property depends only on its own key. */
  lemma CreateFieldIsLocal(d1: Record, d2: Record, i: nat)
    requires i < |FieldNames|
    requires Get(d1, StrKey(FieldNames[i])) == Get(d2, StrKey(FieldNames[i]))
    ensures FieldAt(CreateFromArray(d1), i) == FieldAt(CreateFromArray(d2), i)
  {
  }

  /** Keys other than the ten properties are ignored. */
  lemma CreateIgnoresOtherKeys(d1: Record, d2: Record)
    requires forall i :: 0 <= i < |FieldNames| ==>
      Get(d1, StrKey(FieldNames[i])) == Get(d2, StrKey(FieldNames[i]))
    ensures CreateFromArray(d1) == CreateFromArray(d2)
  {
    AirportExtensionality(CreateFromArray(d1), CreateFromArray(d2));
  }

  /** An empty array gives the airport whose every property is null. */
  lemma CreateFromEmpty()
    ensures CreateFromArray([]) == Airport(VNull, VNull, VNull, VNull, VNull, VNull, VNull, VNull, VNull, VNull)
  {
  }

  /** Projecting an airport to its record and reading it back gives the same airport. */
  lemma CreateFromToArray(a: Airport)
    ensures CreateFromArray(ToArray(a)) == a
  {
    var r := ToArray(a);
    forall i | 0 <= i < |FieldNames|
      ensures FieldAt(CreateFromArray(r), i) == FieldAt(a, i)
    {
      assert r[i].0 == StrKey(FieldNames[i]);
    }
    AirportExtensionality(CreateFromArray(r), a);
  }

  /** The other direction: projecting the airport built from a record gives back every
      property the record holds, and null for every property it lacks. */
  lemma ToArrayOfCreate(data: Record)
    ensures forall i :: 0 <= i < |FieldNames| ==>
      var r := ToArray(CreateFromArray(data));
      var k := StrKey(FieldNames[i]);
      Get(r, k) == Some(if HasKey(data, k) then Get(data, k).value else VNull)
  {
  }
}
