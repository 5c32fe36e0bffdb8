/** `Connector::getByRef`: resolve a document reference, a root document plus a path of
    steps, each naming a field and optionally selecting the element of an array whose `_id`
    is given. Fetching the root document (`getById`) is a `Lookup` function passed in. */
module References {
  import opened Php
  import opened Errors

  /** One element of `$ref['path']`; a missing `objectId` is the empty string. */
  datatype PathStep = PathStep(field: string, objectId: string)
  {
    /** `!empty($pathInDocument['objectId'])`. */
    predicate SelectsObject()
    {
      !IsEmpty(Str(objectId))
    }
  }

  /** `$ref`; a missing entity type or id is the empty string, a missing path the empty list. */
  datatype Reference = Reference(rootDocumentEntityType: string, rootDocumentId: string, path: seq<PathStep>)

  /** `getById($entityType, $id)`. */
  type Lookup = (string, string) -> Result<Entries>

  const MISSING_KEYS: string := "Missing rootDocumentEntityType / path keys in $ref"
  const INVALID_DOCUMENT: string := "Invalid document reference (document cannot be found by Id)"
  const MISSING_PATH: string := "Could not find the path in document"
  const INVALID_VALUE: string := "Invalid value for path in document"
  const EMPTY_RESULT: string := "Empty result of reference"

  /** `$item['_id'] === $objectId`; an element that is not an array has no `_id`. */
  predicate HasId(item: Value, objectId: string)
  {
    Index(item, StrKey("_id")) == Str(objectId)
  }

  /** `reset(array_filter($items, ...))`: the position of the first element with that `_id`. */
  function FirstWithId(items: Entries, objectId: string): (r: Option<nat>)
    ensures r.Some? ==> r.value < |items| && HasId(items[r.value].1, objectId)
    ensures r.Some? ==> forall j :: 0 <= j < r.value ==> !HasId(items[j].1, objectId)
    ensures r.None? ==> forall j :: 0 <= j < |items| ==> !HasId(items[j].1, objectId)
  {
    if items == [] then None
    else if HasId(items[0].1, objectId) then Some(0)
    else match FirstWithId(items[1..], objectId)
      case None => None
      case Some(j) => Some(j + 1)
  }

  /** One step of the walk: look the field up, then select by `_id` if the step asks for it. */
  function Step(container: Value, step: PathStep): Result<Value>
  {
    if !container.Arr? || !HasKey(container.entries, KeyOf(step.field)) then Fail(MISSING_PATH)
    else
      var next := GetOrNull(container.entries, KeyOf(step.field));
      if !step.SelectsObject() then Ok(next)
      else if !next.Arr? then Fail(INVALID_VALUE)
      else match FirstWithId(next.entries, step.objectId)
        case None => Fail(EMPTY_RESULT)
        case Some(j) => Ok(next.entries[j].1)
  }

  /** When each step message occurs: the field is missing; a selecting step finds no array
      there; or a selecting step's array has no element with the object id. A selecting step
      that succeeds gives the first element carrying the id. */
  lemma StepOutcomes(container: Value, step: PathStep)
    ensures Step(container, step) == Fail(MISSING_PATH) <==>
      !container.Arr? || !HasKey(container.entries, KeyOf(step.field))
    ensures Step(container, step) == Fail(INVALID_VALUE) <==>
      && container.Arr? && HasKey(container.entries, KeyOf(step.field))
      && step.SelectsObject() && !Index(container, KeyOf(step.field)).Arr?
    ensures Step(container, step) == Fail(EMPTY_RESULT) <==>
      && container.Arr? && HasKey(container.entries, KeyOf(step.field))
      && step.SelectsObject() && Index(container, KeyOf(step.field)).Arr?
      && forall j :: 0 <= j < |Index(container, KeyOf(step.field)).entries| ==>
           !HasId(Index(container, KeyOf(step.field)).entries[j].1, step.objectId)
    ensures (container.Arr? && HasKey(container.entries, KeyOf(step.field)) && step.SelectsObject() &&
             Step(container, step).Ok?) ==>
        var items := Index(container, KeyOf(step.field)).entries;
        exists j :: 0 <= j < |items| && Step(container, step) == Ok(items[j].1) &&
          HasId(items[j].1, step.objectId) && forall i :: 0 <= i < j ==> !HasId(items[i].1, step.objectId)
  {
    if container.Arr? && HasKey(container.entries, KeyOf(step.field)) && step.SelectsObject() {
      var next := Index(container, KeyOf(step.field));
      if next.Arr? {
        match FirstWithId(next.entries, step.objectId)
        case None =>
        case Some(j) =>
          assert HasId(next.entries[j].1, step.objectId);
      }
    }
  }

  /** The path walked left to right; the first failing step decides the outcome. */
  function Walk(container: Value, path: seq<PathStep>): Result<Value>
  {
    if path == [] then Ok(container)
    else match Step(container, path[0])
      case Err(e) => Err(e)
      case Ok(next) => Walk(next, path[1..])
  }

  /** The document the walk starts from: the parent when the entity type mentions "parent";
      otherwise the parent if it is the referenced document, else the fetched one, which must
      not be empty. */
  function RootDocument(ref: Reference, parent: Entries, getById: Lookup): Result<Entries>
  {
    if Contains(ref.rootDocumentEntityType, "parent") then Ok(parent)
    else
      var parentId := GetOrNull(parent, StrKey("_id"));
      var document :=
        if IsEmpty(parentId) || parentId != Str(ref.rootDocumentId)
        then getById(ref.rootDocumentEntityType, ref.rootDocumentId)
        else Ok(parent);
      match document
      case Err(e) => Err(e)
      case Ok(d) => if |d| == 0 then Fail(INVALID_DOCUMENT) else Ok(d)
  }

  /** `getByRef($ref, $parentEntity)`. */
  function GetByRefSpec(ref: Reference, parent: Entries, getById: Lookup): Result<Value>
  {
    if IsEmpty(Str(ref.rootDocumentEntityType)) && ref.path == [] then Err(InvalidArgument(MISSING_KEYS))
    else match RootDocument(ref, parent, getById)
      case Err(e) => Err(e)
      case Ok(document) => Walk(Arr(document), ref.path)
  }

  /** `getByRef` as the source runs it: the container is replaced step by step. */
  method GetByRef(ref: Reference, parent: Entries, getById: Lookup) returns (r: Result<Value>)
    ensures r == GetByRefSpec(ref, parent, getById)
  {
    if IsEmpty(Str(ref.rootDocumentEntityType)) && ref.path == [] {
      return Err(InvalidArgument(MISSING_KEYS));
    }
    var document := parent;
    if !Contains(ref.rootDocumentEntityType, "parent") {
      var parentId := GetOrNull(document, StrKey("_id"));
      if IsEmpty(parentId) || parentId != Str(ref.rootDocumentId) {
        var fetched := getById(ref.rootDocumentEntityType, ref.rootDocumentId);
        if fetched.Err? {
          return Err(fetched.error);
        }
        document := fetched.value;
      }
      if |document| == 0 {
        return Fail(INVALID_DOCUMENT);
      }
    }
    assert RootDocument(ref, parent, getById) == Ok(document);
    var container := Arr(document);
    for i := 0 to |ref.path|
      invariant Walk(Arr(document), ref.path) == Walk(container, ref.path[i..])
    {
      var step := ref.path[i];
      assert ref.path[i..][1..] == ref.path[i + 1..];
      if !container.Arr? || !HasKey(container.entries, KeyOf(step.field)) {
        return Fail(MISSING_PATH);
      }
      container := GetOrNull(container.entries, KeyOf(step.field));
      if !step.SelectsObject() {
        continue;
      }
      if !container.Arr? {
        return Fail(INVALID_VALUE);
      }
      var found := FirstWithId(container.entries, step.objectId);
      if found.None? {
        return Fail(EMPTY_RESULT);
      }
      container := container.entries[found.value].1;
    }
    return Ok(container);
  }

  // ---------------------------------------------------------------------------
  // Properties

  /** Walking `p + q` is walking `p`, then walking `q` from where `p` ended. */
  lemma {:induction false} WalkComposes(v: Value, p: seq<PathStep>, q: seq<PathStep>)
    ensures Walk(v, p + q) == match Walk(v, p) case Err(e) => Err(e) case Ok(w) => Walk(w, q)
  {
    if p != [] {
      assert (p + q)[1..] == p[1..] + q;
      match Step(v, p[0])
      case Err(_) =>
      case Ok(next) => WalkComposes(next, p[1..], q);
    } else {
      assert p + q == q;
    }
  }

  /** Reference reading of a path without `objectId`s: one array lookup after another. */
  function NestedLookup(v: Value, path: seq<PathStep>): Value
    decreases |path|
  {
    if path == [] then v else NestedLookup(Index(v, KeyOf(path[0].field)), path[1..])
  }

  /** Every field of the path is present where the walk needs it. */
  predicate FieldsPresent(v: Value, path: seq<PathStep>)
    decreases |path|
  {
    path == [] ||
    (v.Arr? && HasKey(v.entries, KeyOf(path[0].field)) &&
     FieldsPresent(Index(v, KeyOf(path[0].field)), path[1..]))
  }

  /** Without `objectId`s the result is the nested lookup when every field is present, and
      "Could not find the path in document" otherwise. */
  lemma {:induction false} FieldPathIsNestedLookup(v: Value, path: seq<PathStep>)
    requires forall i :: 0 <= i < |path| ==> !path[i].SelectsObject()
    ensures FieldsPresent(v, path) ==> Walk(v, path) == Ok(NestedLookup(v, path))
    ensures !FieldsPresent(v, path) ==> Walk(v, path) == Fail(MISSING_PATH)
    decreases |path|
  {
    if path != [] {
      FieldPathIsNestedLookup(Index(v, KeyOf(path[0].field)), path[1..]);
    }
  }

  /** A walk fails only with one of the three path messages. */
  lemma {:induction false} WalkFailures(v: Value, path: seq<PathStep>)
    ensures Walk(v, path).Err? ==>
      Walk(v, path) in {Fail(MISSING_PATH), Fail(INVALID_VALUE), Fail(EMPTY_RESULT)}
  {
    if path != [] && Step(v, path[0]).Ok? {
      WalkFailures(Step(v, path[0]).value, path[1..]);
    }
  }

  /** Every failure of `getByRef` is the invalid-argument error, one of the four document
      errors, or an error of the lookup itself. */
  lemma GetByRefFailures(ref: Reference, parent: Entries, getById: Lookup)
    requires GetByRefSpec(ref, parent, getById).Err?
    ensures var r := GetByRefSpec(ref, parent, getById);
      || r == Err(InvalidArgument(MISSING_KEYS))
      || r in {Fail(INVALID_DOCUMENT), Fail(MISSING_PATH), Fail(INVALID_VALUE), Fail(EMPTY_RESULT)}
      || (getById(ref.rootDocumentEntityType, ref.rootDocumentId).Err? &&
          r == Err(getById(ref.rootDocumentEntityType, ref.rootDocumentId).error))
  {
    if !(IsEmpty(Str(ref.rootDocumentEntityType)) && ref.path == []) {
      match RootDocument(ref, parent, getById)
      case Err(_) =>
      case Ok(document) => WalkFailures(Arr(document), ref.path);
    }
  }

  /** The invalid-argument error is raised exactly when both the entity type and the path are
      empty (for a lookup that never raises that error itself). */
  lemma InvalidArgumentOnlyForEmptyRef(ref: Reference, parent: Entries, getById: Lookup)
    requires forall t, id :: getById(t, id) != Err(InvalidArgument(MISSING_KEYS))
    ensures GetByRefSpec(ref, parent, getById) == Err(InvalidArgument(MISSING_KEYS))
        <==> IsEmpty(Str(ref.rootDocumentEntityType)) && ref.path == []
  {
    if !(IsEmpty(Str(ref.rootDocumentEntityType)) && ref.path == []) {
      match RootDocument(ref, parent, getById)
      case Err(_) =>
      case Ok(document) => WalkFailures(Arr(document), ref.path);
    }
  }

  /** The lookup is not consulted when the entity type mentions "parent" or when the parent
      already is the referenced document. */
  lemma NoLookupForParent(ref: Reference, parent: Entries, f: Lookup, g: Lookup)
    requires || Contains(ref.rootDocumentEntityType, "parent")
             || (!IsEmpty(GetOrNull(parent, StrKey("_id"))) &&
                 GetOrNull(parent, StrKey("_id")) == Str(ref.rootDocumentId))
    ensures GetByRefSpec(ref, parent, f) == GetByRefSpec(ref, parent, g)
  {
  }

  /** Otherwise the lookup is consulted: its failure is the result, and an empty document is
      refused. */
  lemma LookupOtherwise(ref: Reference, parent: Entries, getById: Lookup)
    requires !(IsEmpty(Str(ref.rootDocumentEntityType)) && ref.path == [])
    requires !Contains(ref.rootDocumentEntityType, "parent")
    requires || IsEmpty(GetOrNull(parent, StrKey("_id")))
             || GetOrNull(parent, StrKey("_id")) != Str(ref.rootDocumentId)
    ensures var fetched := getById(ref.rootDocumentEntityType, ref.rootDocumentId);
      && (fetched.Err? ==> GetByRefSpec(ref, parent, getById) == Err(fetched.error))
      && (fetched == Ok([]) ==> GetByRefSpec(ref, parent, getById) == Fail(INVALID_DOCUMENT))
      && (fetched.Ok? && fetched.value != [] ==>
            GetByRefSpec(ref, parent, getById) == Walk(Arr(fetched.value), ref.path))
  {
  }

  // ---------------------------------------------------------------------------
  // The cases of the library's getByRef test, against its stub document

  function Field(name: string, v: Value): (Key, Value)
  {
    (StrKey(name), v)
  }

  /** `['_id' => 'value']`. */
  function Item(): Value
  {
    Arr([Field("_id", Str("value"))])
  }

  function StubDocument(): Entries
  {
    [Field("_id", Str("1234")),
     Field("singlePathToAttribute", Str("value")),
     Field("multiplePathToAttribute", Arr([Field("field", Str("value"))])),
     Field("multiplePathToAttributeDepth", Arr([Field("field", Arr([Field("field", Str("value"))]))])),
     Field("singlePathToArrayObject", Arr([(IntKey(0), Item())])),
     Field("multiplePathToArrayObject", Arr([Field("field", Arr([(IntKey(0), Item())]))])),
     Field("multiplePathToArrayObjectDepth",
           Arr([Field("field", Arr([Field("field", Arr([(IntKey(0), Item())]))]))]))]
  }

  /** A key found at position `i` and at no earlier one is found at `i`. */
  lemma FindAt(es: Entries, i: nat, k: Key)
    requires i < |es| && es[i].0 == k
    requires forall j :: 0 <= j < i ==> es[j].0 != k
    ensures Find(es, k) == Some(i)
  {
  }

  /** A plain step to a field found at position `i` gives that field's value. */
  lemma FieldStep(es: Entries, i: nat, name: string)
    requires i < |es| && es[i].0 == StrKey(name)
    requires forall j :: 0 <= j < i ==> es[j].0 != StrKey(name)
    requires |name| >= 1 && !IsDigit(name[0]) && name[0] != '-'
    ensures Step(Arr(es), PathStep(name, "")) == Ok(es[i].1)
  {
    WordKey(name);
    FindAt(es, i, StrKey(name));
  }

  /** A selecting step to a field found at position `i` gives the first element with the id. */
  lemma SelectStep(es: Entries, i: nat, name: string, objectId: string, k: nat)
    requires i < |es| && es[i].0 == StrKey(name)
    requires forall j :: 0 <= j < i ==> es[j].0 != StrKey(name)
    requires |name| >= 1 && !IsDigit(name[0]) && name[0] != '-'
    requires PathStep(name, objectId).SelectsObject()
    requires es[i].1.Arr? && FirstWithId(es[i].1.entries, objectId) == Some(k)
    ensures Step(Arr(es), PathStep(name, objectId)) == Ok(es[i].1.entries[k].1)
  {
    WordKey(name);
    FindAt(es, i, StrKey(name));
  }

  /** A walk of one step is that step. */
  lemma WalkOne(v: Value, s: PathStep)
    ensures Walk(v, [s]) == Step(v, s)
  {
    assert [s][1..] == [];
  }

  /** A walk whose first step succeeds continues from that step's value. */
  lemma WalkFirst(v: Value, path: seq<PathStep>, w: Value)
    requires path != [] && Step(v, path[0]) == Ok(w)
    ensures Walk(v, path) == Walk(w, path[1..])
  {
  }

  function Stub(): Lookup
  {
    (t, id) => Ok(StubDocument())
  }

  /** The test's references name a root document that the parent (none) is not, so the stub
      document is fetched. */
  lemma StubRoot(path: seq<PathStep>)
    ensures RootDocument(Reference("Test", "X", path), [], Stub()) == Ok(StubDocument())
  {
    assert !Contains("Test", "parent");
  }

  /** `['_id' => 'value']` is the first element with id "value". */
  lemma ItemSelected()
    ensures FirstWithId([(IntKey(0), Item())], "value") == Some(0)
    ensures PathStep("singlePathToArrayObject", "value").SelectsObject()
    ensures PathStep("field", "value").SelectsObject()
  {
    assert HasId(Item(), "value");
  }

  lemma StubSinglePathToAttribute()
    ensures GetByRefSpec(Reference("Test", "X", [PathStep("singlePathToAttribute", "")]), [], Stub())
      == Ok(Str("value"))
  {
    var doc := StubDocument();
    StubRoot([PathStep("singlePathToAttribute", "")]);
    assert doc[0].0 != StrKey("singlePathToAttribute") by { assert |doc[0].0.s| == 3; }
    FieldStep(doc, 1, "singlePathToAttribute");
    WalkOne(Arr(doc), PathStep("singlePathToAttribute", ""));
  }

  lemma StubMultiplePathToAttribute()
    ensures GetByRefSpec(Reference("Test", "X", [PathStep("multiplePathToAttribute", ""),
                                                 PathStep("field", "")]), [], Stub())
      == Ok(Str("value"))
  {
    var doc := StubDocument();
    var path := [PathStep("multiplePathToAttribute", ""), PathStep("field", "")];
    StubRoot(path);
    forall j | 0 <= j < 2 ensures doc[j].0 != StrKey("multiplePathToAttribute") {
      assert doc[j].0.s[0] != 'm';
    }
    FieldStep(doc, 2, "multiplePathToAttribute");
    var inner := [Field("field", Str("value"))];
    FieldStep(inner, 0, "field");
    WalkFirst(Arr(doc), path, Arr(inner));
    assert path[1..] == [PathStep("field", "")];
    WalkOne(Arr(inner), PathStep("field", ""));
  }

  lemma StubMultiplePathToAttributeDepth()
    ensures GetByRefSpec(Reference("Test", "X", [PathStep("multiplePathToAttributeDepth", ""),
                                                 PathStep("field", ""), PathStep("field", "")]), [], Stub())
      == Ok(Str("value"))
  {
    var doc := StubDocument();
    var path := [PathStep("multiplePathToAttributeDepth", ""), PathStep("field", ""), PathStep("field", "")];
    StubRoot(path);
    forall j | 0 <= j < 3 ensures doc[j].0 != StrKey("multiplePathToAttributeDepth") {
      assert |doc[j].0.s| != 28;
    }
    FieldStep(doc, 3, "multiplePathToAttributeDepth");
    var inner := [Field("field", Str("value"))];
    var outer := [Field("field", Arr(inner))];
    FieldStep(outer, 0, "field");
    FieldStep(inner, 0, "field");
    WalkFirst(Arr(doc), path, Arr(outer));
    assert path[1..] == [PathStep("field", ""), PathStep("field", "")];
    WalkFirst(Arr(outer), path[1..], Arr(inner));
    assert path[1..][1..] == [PathStep("field", "")];
    WalkOne(Arr(inner), PathStep("field", ""));
  }

  lemma StubSinglePathToArrayObject()
    ensures GetByRefSpec(Reference("Test", "X", [PathStep("singlePathToArrayObject", "value")]), [], Stub())
      == Ok(Item())
  {
    var doc := StubDocument();
    StubRoot([PathStep("singlePathToArrayObject", "value")]);
    forall j | 0 <= j < 4 ensures doc[j].0 != StrKey("singlePathToArrayObject") {
      assert |doc[j].0.s| != 23 || doc[j].0.s[0] != 's';
    }
    ItemSelected();
    SelectStep(doc, 4, "singlePathToArrayObject", "value", 0);
    WalkOne(Arr(doc), PathStep("singlePathToArrayObject", "value"));
  }

  lemma StubMultiplePathToArrayObject()
    ensures GetByRefSpec(Reference("Test", "X", [PathStep("multiplePathToArrayObject", ""),
                                                 PathStep("field", "value")]), [], Stub())
      == Ok(Item())
  {
    var doc := StubDocument();
    var path := [PathStep("multiplePathToArrayObject", ""), PathStep("field", "value")];
    StubRoot(path);
    forall j | 0 <= j < 5 ensures doc[j].0 != StrKey("multiplePathToArrayObject") {
      assert |doc[j].0.s| != 25;
    }
    FieldStep(doc, 5, "multiplePathToArrayObject");
    var inner := [Field("field", Arr([(IntKey(0), Item())]))];
    ItemSelected();
    SelectStep(inner, 0, "field", "value", 0);
    WalkFirst(Arr(doc), path, Arr(inner));
    assert path[1..] == [PathStep("field", "value")];
    WalkOne(Arr(inner), PathStep("field", "value"));
  }
}
