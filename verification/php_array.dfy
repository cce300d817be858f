/** PHP's ordered arrays: an association list whose keys are unique and keep the order in
    which they were first inserted. */
module PhpArray {
  import opened Wrappers

  /** A PHP array key. A string that spells a 64-bit integer canonically never becomes a
      `StrKey`: PHP turns it into the integer key (see `StringKey`). */
  datatype Key = IntKey(n: int) | StrKey(s: string)

  type Arr<V> = seq<(Key, V)>

  /** The representation invariant of a PHP array: no key occurs twice. */
  predicate Wf<V>(a: Arr<V>) {
    forall i, j :: 0 <= i < j < |a| ==> a[i].0 != a[j].0
  }

  /** `array_key_exists($k, $a)` */
  predicate HasKey<V>(a: Arr<V>, k: Key) {
    exists i :: 0 <= i < |a| && a[i].0 == k
  }

  /** `array_keys($a)`, in array order */
  function KeysOf<V>(a: Arr<V>): (ks: seq<Key>)
    ensures |ks| == |a|
    ensures forall i :: 0 <= i < |a| ==> ks[i] == a[i].0
  {
    seq(|a|, i requires 0 <= i < |a| => a[i].0)
  }

  /** `array_key_exists($k, $a)` holds exactly when `k` is among `array_keys($a)`. */
  lemma HasKeyIffInKeys<V>(a: Arr<V>, k: Key)
    ensures HasKey(a, k) <==> k in KeysOf(a)
  {
  }

  /** The position of key `k`. */
  function IndexOf<V>(a: Arr<V>, k: Key): (i: nat)
    requires HasKey(a, k)
    ensures i < |a| && a[i].0 == k
    ensures forall j :: 0 <= j < i ==> a[j].0 != k
  {
    if a[0].0 == k then 0
    else
      assert HasKey(a[1..], k) by {
        var i :| 0 <= i < |a| && a[i].0 == k;
        assert a[1..][i - 1].0 == k;
      }
      IndexOf(a[1..], k) + 1
  }

  /** Reading `$a[$k]`: the value under `k`, or `None` when the key is absent. */
  function Get<V>(a: Arr<V>, k: Key): (r: Option<V>)
    ensures r.None? <==> !HasKey(a, k)
    ensures Wf(a) ==> forall i :: 0 <= i < |a| && a[i].0 == k ==> r == Some(a[i].1)
  {
    if HasKey(a, k) then Some(a[IndexOf(a, k)].1) else None
  }

  /** The assignment `$a[$k] = $v`: an existing key keeps its position and takes the new
      value; a new key is appended. */
  function Put<V>(a: Arr<V>, k: Key, v: V): (r: Arr<V>)
    requires Wf(a)
    ensures Wf(r)
    ensures |r| == if HasKey(a, k) then |a| else |a| + 1
    ensures forall i :: 0 <= i < |a| ==> r[i].0 == a[i].0
    ensures forall i :: 0 <= i < |r| ==> (r[i].0 == k && r[i].1 == v) || (i < |a| && r[i] == a[i])
    ensures forall k' :: HasKey(r, k') <==> HasKey(a, k') || k' == k
    ensures Get(r, k) == Some(v)
    ensures forall k' :: k' != k ==> Get(r, k') == Get(a, k')
  {
    if HasKey(a, k) then
      a[IndexOf(a, k) := (k, v)]
    else
      var r := a + [(k, v)];
      assert r[|a|].0 == k;
      r
  }

  // ---------------------------------------------------------------------------
  // Integer-like string keys

  predicate IsDigit(c: char) {
    '0' <= c <= '9'
  }

  predicate AllDigits(s: string) {
    forall i :: 0 <= i < |s| ==> IsDigit(s[i])
  }

  /** The value of a string of decimal digits. */
  function DigitsValue(s: string): nat
    requires AllDigits(s)
  {
    if |s| == 0 then 0
    else DigitsValue(s[..|s| - 1]) * 10 + (s[|s| - 1] as int - '0' as int)
  }

  /** The decimal spelling of a natural number, without leading zeros. */
  function Spell(n: nat): (s: string)
    ensures |s| > 0 && AllDigits(s)
    ensures s[0] == '0' ==> n == 0
  {
    var d := ('0' as int + n % 10) as char;
    if n < 10 then [d] else Spell(n / 10) + [d]
  }

  /** `s` spells an integer the way PHP prints it: an optional `-`, then digits without a
      leading zero; `"0"` is canonical but `"-0"` is not. */
  predicate IsCanonicalDecimal(s: string) {
    && |s| > 0
    && var digits := if s[0] == '-' then s[1..] else s;
    && |digits| > 0
    && AllDigits(digits)
    && (digits[0] != '0' || s == "0")
  }

  function DecimalValue(s: string): int
    requires IsCanonicalDecimal(s)
  {
    if s[0] == '-' then -(DigitsValue(s[1..]) as int) else DigitsValue(s)
  }

  /** The range of PHP's integers on a 64-bit platform. */
  const LongMin: int := -0x8000_0000_0000_0000
  const LongMax: int := 0x7fff_ffff_ffff_ffff

  /** The key PHP uses for the string `s`: a canonical decimal integer within the 64-bit
      range becomes an integer key, anything else stays a string key. */
  function StringKey(s: string): (k: Key)
    ensures k.StrKey? ==> k.s == s
    ensures k.IntKey? ==> LongMin <= k.n <= LongMax
  {
    if IsCanonicalDecimal(s) && LongMin <= DecimalValue(s) <= LongMax
    then IntKey(DecimalValue(s))
    else StrKey(s)
  }

  /** A string holding a character that is neither a digit nor `-` is always a string key. */
  lemma StringKeyOfNonNumeric(s: string, i: int)
    requires 0 <= i < |s| && !IsDigit(s[i]) && s[i] != '-'
    ensures StringKey(s) == StrKey(s)
  {
  }

  lemma {:induction false} DigitsValueSpell(n: nat)
    ensures DigitsValue(Spell(n)) == n
    decreases n
  {
    var s := Spell(n);
    if n >= 10 {
      DigitsValueSpell(n / 10);
      assert s[..|s| - 1] == Spell(n / 10);
    }
  }

  /** Integer keys and their decimal spelling address the same slot: `$a["42"]` is `$a[42]`. */
  lemma SpelledIntegerIsIntKey(n: int)
    requires LongMin <= n <= LongMax
    ensures n >= 0 ==> StringKey(Spell(n)) == IntKey(n)
    ensures n < 0 ==> StringKey("-" + Spell(-n)) == IntKey(n)
  {
    if n >= 0 {
      DigitsValueSpell(n);
    } else {
      var s := "-" + Spell(-n);
      assert s[1..] == Spell(-n);
      DigitsValueSpell(-n);
    }
  }

  /** Reading back a canonical spelling: the digits of `DigitsValue(d)` are `d` itself. */
  lemma {:induction false} SpellDigitsValue(d: string)
    requires |d| > 0 && AllDigits(d) && (d[0] != '0' || d == "0")
    ensures Spell(DigitsValue(d)) == d
    decreases |d|
  {
    var n := DigitsValue(d);
    var last := d[|d| - 1];
    if |d| > 1 {
      var prefix := d[..|d| - 1];
      assert prefix[0] == d[0];
      SpellDigitsValue(prefix);
      assert DigitsValue(prefix) > 0;
      assert n / 10 == DigitsValue(prefix);
      assert n % 10 == last as int - '0' as int;
      assert Spell(n) == prefix + [last];
    }
  }

  /** Only the canonical spelling of an integer is cast to that integer key: `"042"`, `"-0"`,
      `"abc"` and out-of-range spellings stay string keys. */
  lemma StringKeyIntOnlyFromSpelling(s: string)
    requires StringKey(s).IntKey?
    ensures var n := StringKey(s).n;
      s == if n >= 0 then Spell(n) else "-" + Spell(-n)
  {
    if s[0] == '-' {
      var digits := s[1..];
      SpellDigitsValue(digits);
      assert DigitsValue(digits) > 0;
      assert s == "-" + digits;
    } else {
      SpellDigitsValue(s);
    }
  }
}
