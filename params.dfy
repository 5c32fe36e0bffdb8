/** `Connector::preParseParams`: the `fields` parameter given as a list such as
    `['+a', '-b', 'c']` becomes the map `['a' => 1, 'b' => 0, 'c' => 1]` the API expects. */
module Params {
  import opened Php

  const FIELDS: Key := StrKey("fields")

  /** What one `$index => $field` pair of the list contributes to the new map, if anything.
      A non-numeric index is copied as it is. A numeric index turns the field into a key with
      modifier 1, or 0 after a leading '-'; a leading '+' or '-' is cut off. An array field is an
      illegal offset and is skipped. */
  function FieldEntry(index: Key, field: Value): (r: Option<(Key, Value)>)
    ensures r.Some? && IsNumericKey(index) ==> r.value.1 == Int(0) || r.value.1 == Int(1)
    ensures r.None? <==> IsNumericKey(index) && field.Arr?
  {
    if !IsNumericKey(index) then Some((index, field))
    else if field.Arr? then None
    else
      var s := StringOf(field);
      if |s| > 0 && (s[0] == '+' || s[0] == '-') then
        Some((KeyOf(s[1..]), Int(if s[0] == '+' then 1 else 0)))
      else
        Some((OffsetKey(field).value, Int(1)))
  }

  /** Whether the pair `e` writes key `k` in the new map. */
  predicate Contributes(e: (Key, Value), k: Key)
  {
    FieldEntry(e.0, e.1).Some? && FieldEntry(e.0, e.1).value.0 == k
  }

  /** The new `fields` map: every pair written in list order, so a later pair for the same
      key overwrites an earlier one. */
  function NormalizeFields(fs: Entries): (r: Entries)
    ensures UniqueKeys(r)
  {
    if fs == [] then []
    else
      var acc := NormalizeFields(fs[..|fs| - 1]);
      var e := fs[|fs| - 1];
      match FieldEntry(e.0, e.1)
      case None => acc
      case Some(p) => Set(acc, p.0, p.1)
  }

  /** `preParseParams($params)`. */
  function PreParseParamsSpec(params: Entries): Entries
  {
    match Get(params, FIELDS)
    case Some(Arr(fs)) => Set(params, FIELDS, Arr(NormalizeFields(fs)))
    case _ => params
  }

  /** `preParseParams` as the source computes it, one pair at a time. */
  method PreParseParams(params: Entries) returns (r: Entries)
    ensures r == PreParseParamsSpec(params)
  {
    if !HasKey(params, FIELDS) || !GetOrNull(params, FIELDS).Arr? {
      return params;
    }
    var list := GetOrNull(params, FIELDS).entries;
    var fields: Entries := [];
    for i := 0 to |list|
      invariant fields == NormalizeFields(list[..i])
    {
      assert list[..i + 1][..i] == list[..i];
      var (index, field) := list[i];
      if !IsNumericKey(index) {
        fields := Set(fields, index, field);
        continue;
      }
      if field.Arr? {
        continue;
      }
      var modifier := 1;
      var name := OffsetKey(field).value;
      var s := StringOf(field);
      if |s| > 0 && (s[0] == '+' || s[0] == '-') {
        modifier := if s[0] == '+' then 1 else 0;
        name := KeyOf(s[1..]);
      }
      fields := Set(fields, name, Int(modifier));
    }
    assert list[..|list|] == list;
    r := Set(params, FIELDS, Arr(fields));
  }

  /** Without a `fields` key holding an array, the parameters are returned unchanged. */
  lemma UnchangedWithoutFieldList(params: Entries)
    requires !HasKey(params, FIELDS) || !GetOrNull(params, FIELDS).Arr?
    ensures PreParseParamsSpec(params) == params
  {
  }

  /** With a `fields` array, only that entry changes: it is replaced in place by the normalised
      map, and every other key keeps its value and its position. */
  lemma OnlyFieldsChange(params: Entries)
    requires HasKey(params, FIELDS) && GetOrNull(params, FIELDS).Arr?
    ensures var r := PreParseParamsSpec(params);
      && Get(r, FIELDS) == Some(Arr(NormalizeFields(GetOrNull(params, FIELDS).entries)))
      && (forall k :: k != FIELDS ==> Get(r, k) == Get(params, k))
      && |r| == |params|
      && (forall j :: 0 <= j < |params| ==> r[j].0 == params[j].0)
  {
  }

  /** Reference reading of the normalised map, one key at a time: the value written by the
      last pair that writes `k`, if any. */
  function LastWrite(fs: Entries, k: Key): (r: Option<Value>)
    ensures r.Some? <==> exists i :: 0 <= i < |fs| && Contributes(fs[i], k)
  {
    if fs == [] then None
    else
      var e := fs[|fs| - 1];
      assert forall i :: 0 <= i < |fs| - 1 ==> fs[..|fs| - 1][i] == fs[i];
      if Contributes(e, k) then Some(FieldEntry(e.0, e.1).value.1)
      else LastWrite(fs[..|fs| - 1], k)
  }

  /** The normalised map holds, for each key, exactly the value of the last pair that writes it. */
  lemma {:induction false} NormalizedValueIsLastWrite(fs: Entries, k: Key)
    ensures Get(NormalizeFields(fs), k) == LastWrite(fs, k)
  {
    if fs != [] {
      NormalizedValueIsLastWrite(fs[..|fs| - 1], k);
    }
  }

  /** A pair that no later pair overrides decides its key. */
  lemma {:induction false} LastWriteWins(fs: Entries, i: nat, k: Key)
    requires i < |fs| && Contributes(fs[i], k)
    requires forall j :: i < j < |fs| ==> !Contributes(fs[j], k)
    ensures LastWrite(fs, k) == Some(FieldEntry(fs[i].0, fs[i].1).value.1)
  {
    if i < |fs| - 1 {
      var init := fs[..|fs| - 1];
      assert forall j :: i < j < |init| ==> init[j] == fs[j];
      LastWriteWins(init, i, k);
    }
  }

  /** When every index is numeric (a plain list), every value of the map is 0 or 1. */
  lemma {:induction false} ListGivesModifiers(fs: Entries)
    requires forall i :: 0 <= i < |fs| ==> IsNumericKey(fs[i].0)
    ensures forall k, v :: Get(NormalizeFields(fs), k) == Some(v) ==> v == Int(0) || v == Int(1)
  {
    if fs != [] {
      ListGivesModifiers(fs[..|fs| - 1]);
    }
  }

  /** How a numeric-indexed string is read: '+x' gives x => 1, '-x' gives x => 0 and any other
      string x gives x => 1, the name going through the array-key cast. */
  lemma StringFieldModifiers(index: Key, x: string)
    requires IsNumericKey(index)
    ensures FieldEntry(index, Str("+" + x)) == Some((KeyOf(x), Int(1)))
    ensures FieldEntry(index, Str("-" + x)) == Some((KeyOf(x), Int(0)))
    ensures x == [] || (x[0] != '+' && x[0] != '-') ==> FieldEntry(index, Str(x)) == Some((KeyOf(x), Int(1)))
  {
    assert ("+" + x)[1..] == x;
    assert ("-" + x)[1..] == x;
  }

  /** How a numeric-indexed integer is read: its decimal text is the field, so a non-negative
      integer gives itself => 1 and a negative one loses its sign to the '-' modifier. Only
      `PHP_INT_MIN` has a magnitude beyond the integer range, and its digits stay a string key. */
  lemma IntegerFieldModifiers(index: Key, i: int)
    requires IsNumericKey(index)
    requires i <= PHP_INT_MAX
    ensures i >= 0 ==> FieldEntry(index, Int(i)) == Some((IntKey(i), Int(1)))
    ensures i < 0 && -i <= PHP_INT_MAX ==> FieldEntry(index, Int(i)) == Some((IntKey(-i), Int(0)))
    ensures -i > PHP_INT_MAX ==> FieldEntry(index, Int(i)) == Some((StrKey(NatToDecimal(-i)), Int(0)))
  {
    if i >= 0 {
      NonNegativeIntegerField(index, i);
    } else {
      NegativeIntegerField(index, i);
      if -i <= PHP_INT_MAX {
        KeyOfIntToDecimal(-i);
      }
    }
  }

  /** A non-negative integer's field is the integer key itself, with modifier 1. */
  lemma NonNegativeIntegerField(index: Key, i: int)
    requires IsNumericKey(index) && 0 <= i <= PHP_INT_MAX
    ensures FieldEntry(index, Int(i)) == Some((IntKey(i), Int(1)))
  {
    assert StringOf(Int(i)) == NatToDecimal(i);
  }

  /** A negative integer's field is the key of its magnitude's digits, with modifier 0. */
  lemma NegativeIntegerField(index: Key, i: int)
    requires IsNumericKey(index) && i < 0
    ensures FieldEntry(index, Int(i)) == Some((KeyOf(NatToDecimal(-i)), Int(0)))
  {
    assert StringOf(Int(i))[1..] == NatToDecimal(-i);
  }

  /** A string-keyed pair is copied as it is, whatever its value. */
  lemma NamedFieldCopied(name: string, field: Value)
    requires !IsNumericString(name)
    ensures FieldEntry(StrKey(name), field) == Some((StrKey(name), field))
  {
  }

  /** One more pair that writes a key the map of the pairs before it lacks appends it. */
  lemma NormalizeLast(fs: Entries, p: (Key, Value))
    requires fs != [] && FieldEntry(fs[|fs| - 1].0, fs[|fs| - 1].1) == Some(p)
    requires !HasKey(NormalizeFields(fs[..|fs| - 1]), p.0)
    ensures NormalizeFields(fs) == NormalizeFields(fs[..|fs| - 1]) + [p]
  {
  }

  /** Two pairs that write two different keys give those two entries, in order. */
  lemma NormalizeTwo(fs: Entries, p: (Key, Value), q: (Key, Value))
    requires |fs| == 2
    requires FieldEntry(fs[0].0, fs[0].1) == Some(p)
    requires FieldEntry(fs[1].0, fs[1].1) == Some(q)
    requires p.0 != q.0
    ensures NormalizeFields(fs) == [p, q]
  {
    var one := fs[..1];
    assert one[..0] == [] && one[0] == fs[0];
    assert NormalizeFields(one[..0]) == [];
    NormalizeLast(one, p);
    assert !HasKey([p], q.0);
    NormalizeLast(fs, q);
  }

  /** Three pairs that write three different keys give those three entries, in order. */
  lemma NormalizeThree(fs: Entries, p: (Key, Value), q: (Key, Value), r: (Key, Value))
    requires |fs| == 3
    requires FieldEntry(fs[0].0, fs[0].1) == Some(p)
    requires FieldEntry(fs[1].0, fs[1].1) == Some(q)
    requires FieldEntry(fs[2].0, fs[2].1) == Some(r)
    requires p.0 != q.0 && p.0 != r.0 && q.0 != r.0
    ensures NormalizeFields(fs) == [p, q, r]
  {
    var two := fs[..2];
    assert two[0] == fs[0] && two[1] == fs[1];
    NormalizeTwo(two, p, q);
    assert !HasKey([p, q], r.0);
    NormalizeLast(fs, r);
  }

  /** `['+a', '-b', 'c']` becomes `['a' => 1, 'b' => 0, 'c' => 1]`. */
  lemma ModifierListExample()
    ensures NormalizeFields(ListOf([Str("+a"), Str("-b"), Str("c")]))
      == [(StrKey("a"), Int(1)), (StrKey("b"), Int(0)), (StrKey("c"), Int(1))]
  {
    var fs := ListOf([Str("+a"), Str("-b"), Str("c")]);
    assert fs == [(IntKey(0), Str("+a")), (IntKey(1), Str("-b")), (IntKey(2), Str("c"))];
    WordKey("a");
    WordKey("b");
    WordKey("c");
    StringFieldModifiers(IntKey(0), "a");
    StringFieldModifiers(IntKey(1), "b");
    StringFieldModifiers(IntKey(2), "c");
    NormalizeThree(fs, (StrKey("a"), Int(1)), (StrKey("b"), Int(0)), (StrKey("c"), Int(1)));
  }
}
