/** `Communibase\Query`: `ExpressionBuilder` builds MongoDB-style selector maps such as
    `['name' => ['$gt' => 3]]`, and `QueryBuilder` accumulates such maps into one selector. */
module Query {
  import opened Php

  const OR: Key := StrKey("$or")
  const AND: Key := StrKey("$and")

  // ---------------------------------------------------------------------------
  // ExpressionBuilder

  /** `$fields` as `comparison` iterates it: an array gives its values, anything else is a
      list of that one field. */
  function FieldList(fields: Value): (fs: seq<Value>)
    ensures !fields.Arr? ==> fs == [fields]
    ensures fields.Arr? ==> fs == Values(fields.entries)
  {
    if fields.Arr? then Values(fields.entries) else [fields]
  }

  /** Whether `$query[$field] = ...` writes key `k` for one of the fields. An array field is
      an illegal offset and writes nothing. */
  predicate IsFieldKey(fs: seq<Value>, k: Key)
  {
    exists i :: 0 <= i < |fs| && OffsetKey(fs[i]) == Some(k)
  }

  /** The map `comparison` builds: each field, in order, set to the comparison. */
  function ComparisonMap(fs: seq<Value>, comparison: Value): (r: Entries)
    ensures UniqueKeys(r)
    ensures forall k :: HasKey(r, k) <==> IsFieldKey(fs, k)
    ensures forall k :: HasKey(r, k) ==> Get(r, k) == Some(comparison)
    ensures fs == [] ==> r == []
  {
    if fs == [] then []
    else
      var init, field := fs[..|fs| - 1], fs[|fs| - 1];
      FieldKeySnoc(fs);
      var acc := ComparisonMap(init, comparison);
      match OffsetKey(field)
      case None => acc
      case Some(k) => Set(acc, k, comparison)
  }

  lemma FieldKeySnoc(fs: seq<Value>)
    requires fs != []
    ensures forall k :: IsFieldKey(fs, k) <==> IsFieldKey(fs[..|fs| - 1], k) || OffsetKey(fs[|fs| - 1]) == Some(k)
  {
    var init := fs[..|fs| - 1];
    forall k
      ensures IsFieldKey(fs, k) <==> IsFieldKey(init, k) || OffsetKey(fs[|fs| - 1]) == Some(k)
    {
      if IsFieldKey(fs, k) {
        var i :| 0 <= i < |fs| && OffsetKey(fs[i]) == Some(k);
        if i < |init| {
          assert init[i] == fs[i];
        }
      }
      if IsFieldKey(init, k) {
        var i :| 0 <= i < |init| && OffsetKey(init[i]) == Some(k);
        assert fs[i] == init[i];
      }
    }
  }

  /** Every field of `fields`, and only those, is mapped to `comparison`. */
  ghost predicate MapsFields(r: Entries, fields: Value, comparison: Value)
  {
    && UniqueKeys(r)
    && (forall k :: HasKey(r, k) <==> IsFieldKey(FieldList(fields), k))
    && (forall k :: HasKey(r, k) ==> Get(r, k) == Some(comparison))
  }

  /** `[$op => $value]`. */
  function Operator(op: string, value: Value): (r: Value)
    ensures r.Arr? && Get(r.entries, StrKey(op)) == Some(value) && |r.entries| == 1
  {
    Arr([(StrKey(op), value)])
  }

  /** `['$regex' => $value, '$options' => 'i']`: a case-insensitive pattern match. */
  function Regex(value: Value): (r: Value)
    ensures r.Arr? && Get(r.entries, StrKey("$regex")) == Some(value)
    ensures r.Arr? && Get(r.entries, StrKey("$options")) == Some(Str("i"))
    ensures |r.entries| == 2
  {
    var es := [(StrKey("$regex"), value), (StrKey("$options"), Str("i"))];
    assert "$regex"[1] != "$options"[1];
    assert es[1..] == [(StrKey("$options"), Str("i"))];
    assert Find(es, StrKey("$options")) == Some(1);
    Arr(es)
  }

  class ExpressionBuilder {
    constructor ()
    {
    }

    /** `orX($values)`: the single key `$or` holding the values. */
    function OrX(values: Value): (r: Entries)
      ensures Get(r, OR) == Some(values)
      ensures forall k :: k != OR ==> !HasKey(r, k)
    {
      [(OR, values)]
    }

    /** `andX($values)`: the single key `$and` holding the values. */
    function AndX(values: Value): (r: Entries)
      ensures Get(r, AND) == Some(values)
      ensures forall k :: k != AND ==> !HasKey(r, k)
    {
      [(AND, values)]
    }

    /** `comparison($fields, $comparison)`, filling the map one field at a time. */
    method Comparison(fields: Value, comparison: Value) returns (query: Entries)
      ensures query == ComparisonMap(FieldList(fields), comparison)
      ensures MapsFields(query, fields, comparison)
    {
      var fs := if fields.Arr? then Values(fields.entries) else [fields];
      query := [];
      for i := 0 to |fs|
        invariant query == ComparisonMap(fs[..i], comparison)
      {
        assert fs[..i + 1][..i] == fs[..i];
        var key := OffsetKey(fs[i]);
        if key.Some? {
          query := Set(query, key.value, comparison);
        }
      }
      assert fs[..|fs|] == fs;
    }

    /** `eq`: each field mapped to the value itself, without an operator. */
    method Eq(fields: Value, value: Value) returns (r: Entries)
      ensures r == ComparisonMap(FieldList(fields), value)
      ensures MapsFields(r, fields, value)
    {
      r := Comparison(fields, value);
    }

    method Gt(fields: Value, value: Value) returns (r: Entries)
      ensures r == ComparisonMap(FieldList(fields), Operator("$gt", value))
      ensures MapsFields(r, fields, Operator("$gt", value))
    {
      r := Comparison(fields, Operator("$gt", value));
    }

    method Gte(fields: Value, value: Value) returns (r: Entries)
      ensures r == ComparisonMap(FieldList(fields), Operator("$gte", value))
      ensures MapsFields(r, fields, Operator("$gte", value))
    {
      r := Comparison(fields, Operator("$gte", value));
    }

    method In(fields: Value, values: Value) returns (r: Entries)
      ensures r == ComparisonMap(FieldList(fields), Operator("$in", values))
      ensures MapsFields(r, fields, Operator("$in", values))
    {
      r := Comparison(fields, Operator("$in", values));
    }

    method Lt(fields: Value, value: Value) returns (r: Entries)
      ensures r == ComparisonMap(FieldList(fields), Operator("$lt", value))
      ensures MapsFields(r, fields, Operator("$lt", value))
    {
      r := Comparison(fields, Operator("$lt", value));
    }

    method Lte(fields: Value, value: Value) returns (r: Entries)
      ensures r == ComparisonMap(FieldList(fields), Operator("$lte", value))
      ensures MapsFields(r, fields, Operator("$lte", value))
    {
      r := Comparison(fields, Operator("$lte", value));
    }

    method Ne(fields: Value, value: Value) returns (r: Entries)
      ensures r == ComparisonMap(FieldList(fields), Operator("$ne", value))
      ensures MapsFields(r, fields, Operator("$ne", value))
    {
      r := Comparison(fields, Operator("$ne", value));
    }

    method Nin(fields: Value, values: Value) returns (r: Entries)
      ensures r == ComparisonMap(FieldList(fields), Operator("$nin", values))
      ensures MapsFields(r, fields, Operator("$nin", values))
    {
      r := Comparison(fields, Operator("$nin", values));
    }

    /** `like`: each field mapped to a case-insensitive regular expression. */
    method Like(fields: Value, value: Value) returns (r: Entries)
      ensures r == ComparisonMap(FieldList(fields), Regex(value))
      ensures MapsFields(r, fields, Regex(value))
    {
      r := Comparison(fields, Regex(value));
    }
  }

  /** A single field name is a one-element field list, and so is a list holding just it. */
  lemma ScalarFieldIsSingleton(field: Value, comparison: Value)
    requires !field.Arr?
    ensures ComparisonMap(FieldList(field), comparison) == [(OffsetKey(field).value, comparison)]
    ensures ComparisonMap(FieldList(field), comparison) ==
            ComparisonMap(FieldList(Arr([(IntKey(0), field)])), comparison)
  {
    assert [field][..0] == [];
    assert Values([(IntKey(0), field)]) == [field];
  }

  // ---------------------------------------------------------------------------
  // array_merge

  /** Merging the pairs of `es` into `acc` as `array_merge` does: an integer key is
      renumbered and appended, a string key is set (overwriting an earlier value). */
  function MergeInto(acc: Entries, es: Entries): (r: Entries)
    ensures UniqueKeys(acc) ==> UniqueKeys(r)
  {
    if es == [] then acc
    else
      var r := MergeInto(acc, es[..|es| - 1]);
      var (k, v) := es[|es| - 1];
      if k.IntKey? then Append(r, v) else Set(r, k, v)
  }

  /** `array_merge($a, $b)`. */
  function ArrayMerge(a: Entries, b: Entries): (r: Entries)
    ensures UniqueKeys(r)
  {
    MergeInto(MergeInto([], a), b)
  }

  /** The values of `es` at integer keys, in order. */
  function IntValues(es: Entries): (vs: seq<Value>)
    ensures |vs| <= |es|
  {
    if es == [] then []
    else
      var (k, v) := es[|es| - 1];
      IntValues(es[..|es| - 1]) + if k.IntKey? then [v] else []
  }

  /** `es` holds the list `xs` at integer keys 0 .. |xs|-1 and no other integer key. */
  ghost predicate Numbered(es: Entries, xs: seq<Value>)
  {
    && (forall i: int :: Get(es, IntKey(i)) == if 0 <= i < |xs| then Some(xs[i]) else None)
    && NextIndex(es) == |xs|
  }

  lemma UniqueInit(es: Entries)
    requires es != [] && UniqueKeys(es)
    ensures UniqueKeys(es[..|es| - 1])
  {
  }

  /** In an array with unique keys the key of the last pair finds that pair, and every other
      key is found as in the rest. */
  lemma GetSnoc(es: Entries, k: Key)
    requires es != [] && UniqueKeys(es)
    ensures var init, last := es[..|es| - 1], es[|es| - 1];
      Get(es, k) == if k == last.0 then Some(last.1) else Get(init, k)
  {
    var init, last := es[..|es| - 1], es[|es| - 1];
    assert es == init + [last];
    FindAppend(init, last, k);
  }

  lemma {:induction false} MergeStringKey(acc: Entries, es: Entries, s: string)
    requires UniqueKeys(es)
    ensures Get(MergeInto(acc, es), StrKey(s)) ==
      if HasKey(es, StrKey(s)) then Get(es, StrKey(s)) else Get(acc, StrKey(s))
  {
    if es != [] {
      var init := es[..|es| - 1];
      UniqueInit(es);
      MergeStringKey(acc, init, s);
      GetSnoc(es, StrKey(s));
    }
  }

  /** `array_merge` keeps the string keys of the first array, except that those of the second
      overwrite them. */
  lemma MergeOverwrites(a: Entries, b: Entries, s: string)
    requires UniqueKeys(a) && UniqueKeys(b)
    ensures Get(ArrayMerge(a, b), StrKey(s)) ==
      if HasKey(b, StrKey(s)) then Get(b, StrKey(s)) else Get(a, StrKey(s))
  {
    MergeStringKey([], a, s);
    MergeStringKey(MergeInto([], a), b, s);
  }

  lemma NextIndexSnoc(es: Entries, x: (Key, Value))
    ensures NextIndex(es + [x]) ==
      if x.0.IntKey? && x.0.i + 1 > NextIndex(es) then x.0.i + 1 else NextIndex(es)
  {
    assert (es + [x])[..|es|] == es;
  }

  lemma {:induction false} NextIndexSameKeys(a: Entries, b: Entries)
    requires |a| == |b|
    requires forall j :: 0 <= j < |a| ==> a[j].0 == b[j].0
    ensures NextIndex(a) == NextIndex(b)
  {
    if a != [] {
      NextIndexSameKeys(a[..|a| - 1], b[..|b| - 1]);
    }
  }

  /** Appending to a numbered array numbers the new value next. */
  lemma AppendNumbered(es: Entries, xs: seq<Value>, v: Value)
    requires Numbered(es, xs)
    ensures Numbered(Append(es, v), xs + [v])
  {
    var n := NextIndex(es);
    var r := Append(es, v);
    assert Get(es, IntKey(n)) == None;
    assert r == Set(es, IntKey(n), v) == es + [(IntKey(n), v)];
    NextIndexSnoc(es, (IntKey(n), v));
    forall i: int
      ensures Get(r, IntKey(i)) == if 0 <= i < |xs + [v]| then Some((xs + [v])[i]) else None
    {
      if i != n {
        assert Get(r, IntKey(i)) == Get(es, IntKey(i));
      }
    }
  }

  /** Setting a string key leaves the numbering alone. */
  lemma SetStringNumbered(es: Entries, xs: seq<Value>, k: Key, v: Value)
    requires Numbered(es, xs) && k.StrKey?
    ensures Numbered(Set(es, k, v), xs)
  {
    if HasKey(es, k) {
      NextIndexSameKeys(Set(es, k, v), es);
    } else {
      NextIndexSnoc(es, (k, v));
    }
  }

  lemma {:induction false} MergeNumbers(acc: Entries, xs: seq<Value>, es: Entries)
    requires Numbered(acc, xs)
    ensures Numbered(MergeInto(acc, es), xs + IntValues(es))
  {
    if es != [] {
      var init, last := es[..|es| - 1], es[|es| - 1];
      MergeNumbers(acc, xs, init);
      var r := MergeInto(acc, init);
      var ys := xs + IntValues(init);
      if last.0.IntKey? {
        assert xs + IntValues(es) == ys + [last.1];
        AppendNumbered(r, ys, last.1);
      } else {
        assert xs + IntValues(es) == ys;
        SetStringNumbered(r, ys, last.0, last.1);
      }
    }
  }

  /** `array_merge` renumbers the integer keys: the result holds the list values of the first
      array followed by those of the second at keys 0, 1, 2, ... */
  lemma MergeRenumbers(a: Entries, b: Entries)
    ensures Numbered(ArrayMerge(a, b), IntValues(a) + IntValues(b))
  {
    MergeNumbers([], [], a);
    assert [] + IntValues(a) == IntValues(a);
    MergeNumbers(MergeInto([], a), IntValues(a), b);
  }

  // ---------------------------------------------------------------------------
  // $query[$key][] = $expr

  /** `$es[$key][] = $v`. A missing, null or false slot becomes the list `[$v]`, an array slot
      gets `$v` appended; a string slot makes PHP throw (none), and `true` or a number only
      raises a warning and leaves the array as it was. */
  function PushOnto(es: Entries, key: Key, v: Value): (r: Option<Entries>)
    ensures r.None? <==> GetOrNull(es, key).Str?
    ensures r.Some? ==> forall k :: k != key ==> Get(r.value, k) == Get(es, k)
    ensures GetOrNull(es, key) in {Null, Bool(false)} ==> r == Some(Set(es, key, Arr(ListOf([v]))))
    ensures GetOrNull(es, key).Arr? ==>
      r.Some? &&
      exists l :: Get(r.value, key) == Some(Arr(l)) && Values(l) == Values(GetOrNull(es, key).entries) + [v]
    ensures GetOrNull(es, key) == Bool(true) || GetOrNull(es, key).Int? ==> r == Some(es)
  {
    match GetOrNull(es, key)
    case Null => Some(Set(es, key, Arr(ListOf([v]))))
    case Bool(b) => if b then Some(es) else Some(Set(es, key, Arr(ListOf([v]))))
    case Int(_) => Some(es)
    case Str(_) => None
    case Arr(list) => Some(Set(es, key, Arr(Append(list, v))))
  }

  /** Pushing twice appends both values, in order, to the list at `key`. */
  lemma PushTwice(es: Entries, key: Key, v: Value, w: Value)
    requires !HasKey(es, key)
    ensures var once := PushOnto(es, key, v).value;
      PushOnto(once, key, w).Some? &&
      exists l :: Get(PushOnto(once, key, w).value, key) == Some(Arr(l)) && Values(l) == [v, w]
  {
    var once := PushOnto(es, key, v).value;
    assert GetOrNull(once, key) == Arr(ListOf([v]));
  }

  // ---------------------------------------------------------------------------
  // QueryBuilder

  class QueryBuilder {
    var expressionBuilder: ExpressionBuilder?
    var query: Entries

    /** A fresh builder holds the empty selector and no expression builder yet. */
    constructor ()
      ensures query == [] && expressionBuilder == null
    {
      query := [];
      expressionBuilder := null;
    }

    /** `add($expr)`: `array_merge` of the query with the expression; returns the builder. */
    method Add(expr: Entries) returns (self: QueryBuilder)
      modifies this`query
      ensures self == this
      ensures query == ArrayMerge(old(query), expr)
    {
      query := ArrayMerge(query, expr);
      self := this;
    }

    /** `addOr($expr)`: appends the expression to the `$or` list; returns the builder, or none
        when PHP throws because `$or` holds a string. */
    method AddOr(expr: Value) returns (self: Option<QueryBuilder>)
      modifies this`query
      ensures PushOnto(old(query), OR, expr).Some? ==>
        self == Some(this) && query == PushOnto(old(query), OR, expr).value
      ensures PushOnto(old(query), OR, expr).None? ==> self.None? && query == old(query)
    {
      var pushed := PushOnto(query, OR, expr);
      if pushed.None? {
        return None;
      }
      query := pushed.value;
      self := Some(this);
    }

    /** `addAnd($expr)`: the same for the `$and` list. */
    method AddAnd(expr: Value) returns (self: Option<QueryBuilder>)
      modifies this`query
      ensures PushOnto(old(query), AND, expr).Some? ==>
        self == Some(this) && query == PushOnto(old(query), AND, expr).value
      ensures PushOnto(old(query), AND, expr).None? ==> self.None? && query == old(query)
    {
      var pushed := PushOnto(query, AND, expr);
      if pushed.None? {
        return None;
      }
      query := pushed.value;
      self := Some(this);
    }

    /** `getQuery()`: the selector built so far. */
    function GetQuery(): (r: Entries)
      reads this`query
      ensures r == query
    {
      query
    }

    /** `expr()`: the expression builder, created on the first call and the same object on
        every later call. */
    method Expr() returns (e: ExpressionBuilder)
      modifies this`expressionBuilder
      ensures old(expressionBuilder) != null ==> e == old(expressionBuilder)
      ensures old(expressionBuilder) == null ==> fresh(e)
      ensures expressionBuilder == e
    {
      if expressionBuilder == null {
        expressionBuilder := new ExpressionBuilder();
      }
      e := expressionBuilder;
    }
  }
}
