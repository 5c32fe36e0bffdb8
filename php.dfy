/** The PHP values the Communibase client handles: scalars and PHP's ordered arrays,
    with the few PHP conversions the client code relies on (the key cast, `empty()`,
    string conversion and `is_numeric`). Floats and objects are not modelled. */
module Php {

  datatype Option<+T> = None | Some(value: T)

  /** An array key after PHP's key cast. */
  datatype Key = IntKey(i: int) | StrKey(s: string)

  /** A PHP value as `json_decode($body, true)` produces it (floats aside). */
  datatype Value = Null | Bool(b: bool) | Int(i: int) | Str(s: string) | Arr(entries: seq<(Key, Value)>)

  /** The entries of a PHP array, in insertion order. */
  type Entries = seq<(Key, Value)>

  const PHP_INT_MAX: int := 0x7FFF_FFFF_FFFF_FFFF
  const PHP_INT_MIN: int := -0x8000_0000_0000_0000

  function Pow(b: nat, n: nat): (r: nat)
    ensures b > 0 ==> r > 0
  {
    if n == 0 then 1 else b * Pow(b, n - 1)
  }

  // ---------------------------------------------------------------------------
  // Arrays

  /** A PHP array holds each key at most once. */
  ghost predicate UniqueKeys(es: Entries)
  {
    forall i, j :: 0 <= i < j < |es| ==> es[i].0 != es[j].0
  }

  /** Position of key `k` in `es`, if present. */
  function Find(es: Entries, k: Key): (r: Option<nat>)
    ensures r.Some? ==> r.value < |es| && es[r.value].0 == k
    ensures r.Some? ==> forall j :: 0 <= j < r.value ==> es[j].0 != k
    ensures r.None? ==> forall j :: 0 <= j < |es| ==> es[j].0 != k
  {
    if es == [] then None
    else if es[0].0 == k then Some(0)
    else match Find(es[1..], k)
      case None => None
      case Some(j) => Some(j + 1)
  }

  /** `array_key_exists($k, $a)`. */
  predicate HasKey(es: Entries, k: Key)
  {
    Find(es, k).Some?
  }

  function Get(es: Entries, k: Key): Option<Value>
  {
    match Find(es, k)
    case Some(i) => Some(es[i].1)
    case None => None
  }

  /** `$a[$k]` as an expression: the value, or null when the key is absent. */
  function GetOrNull(es: Entries, k: Key): Value
  {
    match Get(es, k)
    case Some(v) => v
    case None => Null
  }

  /** `$v[$k]` on any value: arrays are indexed, every scalar reads as null.
      (PHP reads a character out of a string here; that case is not modelled.) */
  function Index(v: Value, k: Key): Value
  {
    if v.Arr? then GetOrNull(v.entries, k) else Null
  }

  /** Two arrays with the same keys at the same positions find every key at the same place. */
  lemma FindSameKeys(a: Entries, b: Entries, k: Key)
    requires |a| == |b|
    requires forall j :: 0 <= j < |a| ==> a[j].0 == b[j].0
    ensures Find(a, k) == Find(b, k)
  {
    if a != [] {
      FindSameKeys(a[1..], b[1..], k);
    }
  }

  lemma FindAppend(es: Entries, x: (Key, Value), k: Key)
    ensures Find(es + [x], k) ==
      if HasKey(es, k) then Find(es, k) else if x.0 == k then Some(|es|) else None
  {
    if es != [] {
      assert (es + [x])[1..] == es[1..] + [x];
      FindAppend(es[1..], x, k);
    }
  }

  /** `$a[$k] = $v`: replaces the value in place when the key exists, appends otherwise. */
  function Set(es: Entries, k: Key, v: Value): (r: Entries)
    ensures Get(r, k) == Some(v)
    ensures forall k' :: k' != k ==> Get(r, k') == Get(es, k')
    ensures HasKey(es, k) ==> |r| == |es| && forall j :: 0 <= j < |es| ==> r[j].0 == es[j].0
    ensures !HasKey(es, k) ==> r == es + [(k, v)]
    ensures UniqueKeys(es) ==> UniqueKeys(r)
  {
    match Find(es, k)
    case Some(i) =>
      var r := es[i := (k, v)];
      assert forall k' :: Find(r, k') == Find(es, k') by {
        forall k' ensures Find(r, k') == Find(es, k') {
          FindSameKeys(r, es, k');
        }
      }
      r
    case None =>
      var r := es + [(k, v)];
      assert forall k' :: Find(r, k') == if HasKey(es, k') then Find(es, k') else if k == k' then Some(|es|) else None by {
        forall k' ensures Find(r, k') == if HasKey(es, k') then Find(es, k') else if k == k' then Some(|es|) else None {
          FindAppend(es, (k, v), k');
        }
      }
      r
  }

  /** The key `$a[] = $v` uses: one past the largest integer key, and 0 when there is
      no non-negative integer key. */
  function NextIndex(es: Entries): (n: nat)
    ensures forall j :: 0 <= j < |es| && es[j].0.IntKey? ==> es[j].0.i < n
  {
    if es == [] then 0
    else
      var m := NextIndex(es[..|es| - 1]);
      var last := es[|es| - 1].0;
      if last.IntKey? && last.i + 1 > m then last.i + 1 else m
  }

  function Values(es: Entries): (vs: seq<Value>)
    ensures |vs| == |es|
    ensures forall i :: 0 <= i < |es| ==> vs[i] == es[i].1
  {
    seq(|es|, i requires 0 <= i < |es| => es[i].1)
  }

  lemma ValuesAppend(es: Entries, x: (Key, Value))
    ensures Values(es + [x]) == Values(es) + [x.1]
  {
    assert Values(es + [x]) == Values(es) + [x.1];
  }

  /** `$a[] = $v`. */
  function Append(es: Entries, v: Value): (r: Entries)
    ensures Get(r, IntKey(NextIndex(es))) == Some(v)
    ensures forall k :: k != IntKey(NextIndex(es)) ==> Get(r, k) == Get(es, k)
    ensures Values(r) == Values(es) + [v]
    ensures UniqueKeys(es) ==> UniqueKeys(r)
  {
    var k := IntKey(NextIndex(es));
    assert !HasKey(es, k);
    ValuesAppend(es, (k, v));
    Set(es, k, v)
  }

  /** A list: the values at keys 0, 1, 2, ... */
  function ListOf(vs: seq<Value>): (es: Entries)
    ensures Values(es) == vs
    ensures UniqueKeys(es)
  {
    seq(|vs|, i requires 0 <= i < |vs| => (IntKey(i), vs[i]))
  }

  // ---------------------------------------------------------------------------
  // array_column

  /** Whether `array_column` takes a value from row `r`: an array that has key `k`. */
  predicate HasColumn(r: Value, k: Key)
  {
    r.Arr? && HasKey(r.entries, k)
  }

  /** `array_column($rows, $key)`: the value under `key` of every row that has it, in order
      (`ColumnAppend` and `ColumnOfRow` pin it down row by row). */
  function Column(rows: seq<Value>, k: Key): (col: seq<Value>)
    ensures |col| <= |rows|
  {
    if rows == [] then []
    else
      var init, last := rows[..|rows| - 1], rows[|rows| - 1];
      assert forall i :: 0 <= i < |init| ==> init[i] == rows[i];
      if HasColumn(last, k) then Column(init, k) + [Index(last, k)]
      else Column(init, k)
  }

  /** When every row has the key, the column holds one value per row, row by row. */
  lemma {:induction false} ColumnOfKeyedRows(rows: seq<Value>, k: Key)
    requires forall i :: 0 <= i < |rows| ==> HasColumn(rows[i], k)
    ensures |Column(rows, k)| == |rows|
    ensures forall i :: 0 <= i < |rows| ==> Column(rows, k)[i] == Index(rows[i], k)
  {
    if rows != [] {
      var init := rows[..|rows| - 1];
      ColumnOfKeyedRows(init, k);
      assert Column(rows, k) == Column(init, k) + [Index(rows[|rows| - 1], k)];
    }
  }

  /** A value is in the column exactly when some row has the key with that value. */
  lemma {:induction false} ColumnMembers(rows: seq<Value>, k: Key)
    ensures forall v :: v in Column(rows, k) <==> exists i :: 0 <= i < |rows| && HasColumn(rows[i], k) && Index(rows[i], k) == v
  {
    if rows != [] {
      var init, last := rows[..|rows| - 1], rows[|rows| - 1];
      ColumnMembers(init, k);
      assert forall i :: 0 <= i < |init| ==> init[i] == rows[i];
      forall v | v in Column(rows, k)
        ensures exists i :: 0 <= i < |rows| && HasColumn(rows[i], k) && Index(rows[i], k) == v
      {
        if v !in Column(init, k) {
          assert HasColumn(rows[|rows| - 1], k) && Index(rows[|rows| - 1], k) == v;
        }
      }
    }
  }

  /** One row gives its value under `k` when it has one, and nothing otherwise. */
  lemma ColumnOfRow(r: Value, k: Key)
    ensures Column([r], k) == if HasColumn(r, k) then [Index(r, k)] else []
  {
    assert [r][..0] == [];
  }

  /** The column of two runs of rows is the column of the first followed by that of the
      second: values come back in row order, one per row that has the key. */
  lemma {:induction false} ColumnAppend(a: seq<Value>, b: seq<Value>, k: Key)
    ensures Column(a + b, k) == Column(a, k) + Column(b, k)
  {
    if b == [] {
      assert a + b == a;
    } else {
      var ab, init, last := a + b, b[..|b| - 1], b[|b| - 1];
      assert ab[..|ab| - 1] == a + init && ab[|ab| - 1] == last;
      ColumnAppend(a, init, k);
      var t := if HasColumn(last, k) then [Index(last, k)] else [];
      assert Column(b, k) == Column(init, k) + t;
      assert Column(ab, k) == (Column(a, k) + Column(init, k)) + t;
    }
  }

  /** The column is empty exactly when no row has the key. */
  lemma {:induction false} ColumnEmpty(rows: seq<Value>, k: Key)
    ensures Column(rows, k) == [] <==> forall j :: 0 <= j < |rows| ==> !HasColumn(rows[j], k)
  {
    if rows != [] {
      var init := rows[..|rows| - 1];
      ColumnEmpty(init, k);
      assert forall j :: 0 <= j < |init| ==> init[j] == rows[j];
    }
  }

  /** The column is empty exactly when no row has the key; otherwise it starts with the value
      of the first row that has it. */
  lemma ColumnHead(rows: seq<Value>, k: Key)
    ensures Column(rows, k) == [] <==> forall j :: 0 <= j < |rows| ==> !HasColumn(rows[j], k)
    ensures forall j :: (0 <= j < |rows| && HasColumn(rows[j], k) &&
                         forall i :: 0 <= i < j ==> !HasColumn(rows[i], k)) ==> Column(rows, k)[0] == Index(rows[j], k)
  {
    ColumnEmpty(rows, k);
    forall j | 0 <= j < |rows| && HasColumn(rows[j], k) && forall i :: 0 <= i < j ==> !HasColumn(rows[i], k)
      ensures Column(rows, k)[0] == Index(rows[j], k)
    {
      ColumnAt(rows, k, j);
    }
  }

  /** Splitting the rows at the first one with the key. */
  lemma ColumnAt(rows: seq<Value>, k: Key, j: nat)
    requires j < |rows| && HasColumn(rows[j], k)
    requires forall i :: 0 <= i < j ==> !HasColumn(rows[i], k)
    ensures Column(rows, k) == [Index(rows[j], k)] + Column(rows[j + 1..], k)
  {
    var before, after := rows[..j], rows[j + 1..];
    assert rows == before + ([rows[j]] + after);
    ColumnEmpty(before, k);
    ColumnAppend(before, [rows[j]] + after, k);
    ColumnAppend([rows[j]], after, k);
    ColumnOfRow(rows[j], k);
  }

  // ---------------------------------------------------------------------------
  // Decimal numerals and PHP's key cast

  predicate IsDigit(c: char)
  {
    '0' <= c <= '9'
  }

  predicate AllDigits(s: string)
  {
    forall i :: 0 <= i < |s| ==> IsDigit(s[i])
  }

  function DigitsValue(s: string): nat
    requires AllDigits(s)
  {
    if s == [] then 0 else DigitsValue(s[..|s| - 1]) * 10 + (s[|s| - 1] as int - '0' as int)
  }

  /** A numeral in the form PHP treats as an integer key: no leading zeros, no '+', no "-0". */
  predicate IsCanonicalDecimal(s: string)
  {
    || s == "0"
    || (|s| >= 1 && '1' <= s[0] <= '9' && AllDigits(s))
    || (|s| >= 2 && s[0] == '-' && '1' <= s[1] <= '9' && AllDigits(s[1..]))
  }

  function CanonicalValue(s: string): int
    requires IsCanonicalDecimal(s)
  {
    if s[0] == '-' then -(DigitsValue(s[1..]) as int) else DigitsValue(s)
  }

  /** PHP's key cast for strings: a canonical integer numeral within the integer range
      becomes an integer key; every other string stays a string key. */
  function KeyOf(s: string): Key
  {
    if IsCanonicalDecimal(s) && PHP_INT_MIN <= CanonicalValue(s) <= PHP_INT_MAX
    then IntKey(CanonicalValue(s))
    else StrKey(s)
  }

  function DigitChar(d: nat): char
    requires d < 10
  {
    ('0' as int + d) as char
  }

  /** The decimal text of a natural number, as PHP writes it. */
  function NatToDecimal(n: nat): (s: string)
    ensures |s| >= 1 && AllDigits(s)
    ensures n > 0 <==> s[0] != '0'
    ensures n == 0 ==> s == "0"
    ensures DigitsValue(s) == n
  {
    if n < 10 then [DigitChar(n)]
    else
      var p := NatToDecimal(n / 10);
      var s := p + [DigitChar(n % 10)];
      assert s[..|s| - 1] == p;
      s
  }

  /** `(string)$i`. */
  function IntToDecimal(i: int): string
  {
    if i < 0 then "-" + NatToDecimal(-i) else NatToDecimal(i)
  }

  /** A name that does not start like a numeral stays a string key. */
  lemma WordKey(name: string)
    requires |name| >= 1 && !IsDigit(name[0]) && name[0] != '-'
    ensures KeyOf(name) == StrKey(name)
  {
  }

  /** Writing an integer in range and using the text as a key gives back the integer key. */
  lemma KeyOfIntToDecimal(i: int)
    requires PHP_INT_MIN <= i <= PHP_INT_MAX
    ensures KeyOf(IntToDecimal(i)) == IntKey(i)
  {
    var s := IntToDecimal(i);
    if i < 0 {
      assert s[1..] == NatToDecimal(-i);
    }
    assert IsCanonicalDecimal(s);
  }

  lemma {:induction false} DigitsValueLowerBound(s: string)
    requires |s| >= 1 && AllDigits(s) && s[0] != '0'
    ensures DigitsValue(s) >= Pow(10, |s| - 1)
  {
    if |s| > 1 {
      var p := s[..|s| - 1];
      assert p[0] == s[0];
      DigitsValueLowerBound(p);
    }
  }

  // ---------------------------------------------------------------------------
  // Conversions

  /** `(string)$v`. */
  function StringOf(v: Value): string
  {
    match v
    case Null => ""
    case Bool(b) => if b then "1" else ""
    case Int(i) => IntToDecimal(i)
    case Str(s) => s
    case Arr(_) => "Array"
  }

  /** The key `$a[$v]` uses; an array is an illegal offset and gives none. */
  function OffsetKey(v: Value): (k: Option<Key>)
    ensures k.None? <==> v.Arr?
  {
    match v
    case Null => Some(StrKey(""))
    case Bool(b) => Some(IntKey(if b then 1 else 0))
    case Int(i) => Some(IntKey(i))
    case Str(s) => Some(KeyOf(s))
    case Arr(_) => None
  }

  /** PHP's `empty()`. */
  predicate IsEmpty(v: Value)
  {
    match v
    case Null => true
    case Bool(b) => !b
    case Int(i) => i == 0
    case Str(s) => s == "" || s == "0"
    case Arr(es) => es == []
  }

  /** `strpos($s, $p) === 0`. */
  predicate StartsWith(s: string, p: string)
  {
    |p| <= |s| && s[..|p|] == p
  }

  /** A text that begins with a prefix not starting with '.' does not start with ".json". */
  lemma NoJsonPrefix(prefix: string, rest: string)
    requires prefix != [] && prefix[0] != '.'
    ensures !StartsWith(prefix + rest, ".json")
  {
    assert (prefix + rest)[0] == prefix[0];
  }

  /** `strpos($s, $sub) !== false`. */
  predicate Contains(s: string, sub: string)
    decreases |s|
  {
    StartsWith(s, sub) || (|s| > 0 && Contains(s[1..], sub))
  }

  // ---------------------------------------------------------------------------
  // `is_numeric` on strings (PHP 7: leading whitespace, sign, decimal mantissa, exponent)

  predicate IsWhitespace(c: char)
  {
    c == ' ' || c == '\t' || c == '\n' || c == '\r' || c == 11 as char || c == 12 as char
  }

  function WhitespaceRun(s: string): (n: nat)
    ensures n <= |s|
  {
    if s == [] || !IsWhitespace(s[0]) then 0 else 1 + WhitespaceRun(s[1..])
  }

  function DigitRun(s: string): (n: nat)
    ensures n <= |s|
  {
    if s == [] || !IsDigit(s[0]) then 0 else 1 + DigitRun(s[1..])
  }

  predicate OptionalExponent(e: string)
  {
    || e == []
    || ((e[0] == 'e' || e[0] == 'E') &&
        var d := if |e| > 1 && (e[1] == '+' || e[1] == '-') then e[2..] else e[1..];
        |d| > 0 && AllDigits(d))
  }

  predicate UnsignedNumber(u: string)
  {
    var a := DigitRun(u);
    if a < |u| && u[a] == '.' then
      var b := DigitRun(u[a + 1..]);
      a + b > 0 && OptionalExponent(u[a + 1 + b..])
    else
      a > 0 && OptionalExponent(u[a..])
  }

  predicate IsNumericString(s: string)
  {
    var t := s[WhitespaceRun(s)..];
    var u := if |t| > 0 && (t[0] == '+' || t[0] == '-') then t[1..] else t;
    UnsignedNumber(u)
  }

  /** `is_numeric($index)` for an array key. */
  predicate IsNumericKey(k: Key)
  {
    k.IntKey? || IsNumericString(k.s)
  }
}
