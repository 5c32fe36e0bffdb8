/** The operations of `Connector` built on `getResult`: the local guards of `getById`,
    `finalize` and `update`, the searches `getIds` / `getId`, and `getByIds`, which filters
    the requested ids and puts the found documents back into the caller's order. */
module Connector {
  import opened Php
  import opened Errors
  import opened IdCodec
  import opened Results
  import Params
  import References

  const ID_EMPTY: string := "Id is empty"
  const ID_INVALID: string := "Id is invalid, please use a correctly formatted id"
  const SORT: Key := StrKey("sort")
  const ID_KEY: Key := StrKey("_id")

  // ---------------------------------------------------------------------------
  // getById, finalize, update, search

  /** The path `getById` asks for: the current document, or a given version of it. */
  function GetByIdPath(entityType: string, id: string, version: Option<string>): string
  {
    match version
    case None => entityType + ".json/crud/" + id
    case Some(v) => entityType + ".json/history/" + id + "/" + v
  }

  /** `getById($entityType, $id, $params, $version)`. */
  function GetById(entityType: string, id: string, params: Entries, version: Option<string>,
                   transport: Transport, decode: Decoder): Result<Entries>
  {
    if IsEmpty(Str(id)) then Fail(ID_EMPTY)
    else if !IsIdValid(id) then Fail(ID_INVALID)
    else GetResult(GET, GetByIdPath(entityType, id, version), params, [], transport, decode)
  }

  /** An empty or malformed id is refused before any request: the outcome is the same for
      every transport and decoder. */
  lemma GetByIdRejectsLocally(entityType: string, id: string, params: Entries, version: Option<string>,
                              t1: Transport, d1: Decoder, t2: Transport, d2: Decoder)
    requires !IsIdValid(id)
    ensures GetById(entityType, id, params, version, t1, d1) == GetById(entityType, id, params, version, t2, d2)
    ensures GetById(entityType, id, params, version, t1, d1) ==
      if id == "" || id == "0" then Fail(ID_EMPTY) else Fail(ID_INVALID)
  {
  }

  /** A valid id is fetched with a GET on `<type>.json/crud/<id>`, or
      `<type>.json/history/<id>/<version>`, and the answer is classified by `getResult`. */
  lemma GetByIdSendsGet(entityType: string, id: string, params: Entries, version: Option<string>,
                        transport: Transport, decode: Decoder)
    requires IsIdValid(id)
    ensures var path := GetByIdPath(entityType, id, version);
      && path[..|entityType|] == entityType
      && (version.None? ==> path[|entityType|..] == ".json/crud/" + id)
      && (version.Some? ==> path[|entityType|..] == ".json/history/" + id + "/" + version.value)
      && GetById(entityType, id, params, version, transport, decode) ==
           GetResult(GET, path, params, [], transport, decode)
  {
    GetByIdPathLayout(entityType, id, version);
    assert !IsEmpty(Str(id));
  }

  /** As written, `isIdValid` also accepts a valid id followed by "\n": such an id passes both
      guards of `getById` and is sent, and `getByIds` keeps it. The corrected check, which
      `GetById` and `ValidIds` use, refuses it locally. */
  lemma NewlineIdPassesWrittenGuards(entityType: string, id: string, params: Entries, version: Option<string>,
                                     transport: Transport, decode: Decoder)
    requires IsIdValid(id)
    ensures var sent := id + "\n";
      && !IsEmpty(Str(sent))
      && IsIdValidAsWritten(sent)
      && GetById(entityType, sent, params, version, transport, decode) == Fail(ID_INVALID)
      && ValidIds([sent]) == []
  {
    NewlineId(id);
    var sent := id + "\n";
    assert [sent][..0] == [];
  }

  /** The path starts with the entity type, followed by the crud or history suffix. */
  lemma GetByIdPathLayout(entityType: string, id: string, version: Option<string>)
    ensures var path := GetByIdPath(entityType, id, version);
      && path[..|entityType|] == entityType
      && (version.None? ==> path[|entityType|..] == ".json/crud/" + id)
      && (version.Some? ==> path[|entityType|..] == ".json/history/" + id + "/" + version.value)
  {
    var path := GetByIdPath(entityType, id, version);
    assert path[..|entityType|] == entityType;
  }

  /** Without an entity type the path starts with ".json", so the request is refused. */
  lemma GetByIdNeedsEntityType(id: string, params: Entries, version: Option<string>,
                               transport: Transport, decode: Decoder)
    requires IsIdValid(id)
    ensures GetById("", id, params, version, transport, decode) == Err(InvalidArgument(MISSING_ENTITY_TYPE))
  {
    assert StartsWith(GetByIdPath("", id, version), ".json");
  }

  /** `finalize($entityType, $id)`: only invoices can be finalised. */
  function Finalize(entityType: string, id: string, transport: Transport, decode: Decoder): Result<Entries>
  {
    if entityType != "Invoice" then Fail("Cannot call finalize on " + entityType)
    else GetResult(POST, entityType + ".json/finalize/" + id, [], [], transport, decode)
  }

  /** Any other entity type is refused with its name in the message, before any request. */
  lemma FinalizeOnlyInvoices(entityType: string, id: string, t1: Transport, d1: Decoder, t2: Transport, d2: Decoder)
    requires entityType != "Invoice"
    ensures Finalize(entityType, id, t1, d1) == Fail("Cannot call finalize on " + entityType)
    ensures Finalize(entityType, id, t1, d1) == Finalize(entityType, id, t2, d2)
  {
  }

  /** An invoice is finalised with one POST on `Invoice.json/finalize/<id>`, with an empty
      query and no JSON body; the outcome is what `getResult` makes of the answer. */
  lemma FinalizeInvoice(id: string, transport: Transport, decode: Decoder)
    ensures var req := Request(POST, "Invoice.json/finalize/" + id, [], None);
      Finalize("Invoice", id, transport, decode) == Answer(transport(req), decode(transport(req).body))
  {
    var path := "Invoice.json/finalize/" + id;
    FinalizeInvoicePath(id, transport, decode);
    NoJsonPrefix("Invoice.json/finalize/", id);
    SendsBare(POST, path, transport, decode);
  }

  /** `finalize` on an invoice is `getResult` with a POST on its finalize path. */
  lemma FinalizeInvoicePath(id: string, transport: Transport, decode: Decoder)
    ensures Finalize("Invoice", id, transport, decode) ==
      GetResult(POST, "Invoice.json/finalize/" + id, [], [], transport, decode)
  {
    assert "Invoice" + ".json/finalize/" == "Invoice.json/finalize/";
  }

  /** The request `update` sends: a POST creating the entity when it has no `_id`, a PUT on
      that id otherwise; the properties are the body. */
  function UpdateRequest(entityType: string, properties: Entries): (req: (HttpMethod, string))
  {
    var id := GetOrNull(properties, ID_KEY);
    if IsEmpty(id) then (POST, entityType + ".json/crud/")
    else (PUT, entityType + ".json/crud/" + StringOf(id))
  }

  /** `update($entityType, $properties)`. */
  function Update(entityType: string, properties: Entries, transport: Transport, decode: Decoder): Result<Entries>
  {
    var (verb, path) := UpdateRequest(entityType, properties);
    GetResult(verb, path, [], properties, transport, decode)
  }

  /** An entity with a non-empty `_id` is replaced with a PUT on its id; one without (or with
      an empty one) is created with a POST. */
  lemma UpdateChoosesVerb(entityType: string, properties: Entries, id: string)
    ensures !HasKey(properties, ID_KEY) ==> UpdateRequest(entityType, properties) == (POST, entityType + ".json/crud/")
    ensures Get(properties, ID_KEY) == Some(Str(id)) && id != "" && id != "0" ==>
      UpdateRequest(entityType, properties) == (PUT, entityType + ".json/crud/" + id)
    ensures UpdateRequest(entityType, properties).0 == PUT <==> !IsEmpty(GetOrNull(properties, ID_KEY))
  {
  }

  /** `search($entityType, $querySelector, $params)`. */
  function Search(entityType: string, selector: Entries, params: Entries,
                  transport: Transport, decode: Decoder): Result<Entries>
  {
    GetResult(POST, entityType + ".json/search", params, selector, transport, decode)
  }

  // ---------------------------------------------------------------------------
  // getIds, getId

  /** The parameters `getIds` searches with: the caller's, asking for the `_id` field only. */
  function IdsParams(params: Entries): Entries
  {
    Set(params, Params.FIELDS, Str("_id"))
  }

  /** `getIds($entityType, $selector, $params)`. */
  function GetIds(entityType: string, selector: Entries, params: Entries,
                  transport: Transport, decode: Decoder): Result<seq<Value>>
  {
    IdsOf(Search(entityType, selector, IdsParams(params), transport, decode))
  }

  /** `array_column` of the search results under `_id`; a failed search fails `getIds`. */
  function IdsOf(found: Result<Entries>): Result<seq<Value>>
  {
    match found
    case Err(e) => Err(e)
    case Ok(results) => Ok(Column(Values(results), ID_KEY))
  }

  /** The query of a `getIds` search has `fields` set to "_id" and every other parameter as
      the caller gave it. */
  lemma GetIdsAsksForIds(params: Entries)
    ensures var q := Params.PreParseParamsSpec(IdsParams(params));
      && Get(q, Params.FIELDS) == Some(Str("_id"))
      && forall k :: k != Params.FIELDS ==> Get(q, k) == Get(params, k)
  {
  }

  /** `getId($entityType, $selector)`: the first id of a search limited to one result, or null. */
  function GetId(entityType: string, selector: Entries, transport: Transport, decode: Decoder): Result<Value>
  {
    FirstOf(GetIds(entityType, selector, [(StrKey("limit"), Int(1))], transport, decode))
  }

  /** The first id found, or null when there is none. */
  function FirstOf(ids: Result<seq<Value>>): Result<Value>
  {
    match ids
    case Err(e) => Err(e)
    case Ok(ids) => Ok(if ids == [] then Null else ids[0])
  }

  /** `getId` fails exactly when the search fails. Otherwise it is the `_id` of the first
      result that has one, and null when no result has one. */
  lemma GetIdIsFirstId(entityType: string, selector: Entries, transport: Transport, decode: Decoder)
    ensures var found := Search(entityType, selector, IdsParams([(StrKey("limit"), Int(1))]), transport, decode);
      && (GetId(entityType, selector, transport, decode).Err? <==> found.Err?)
      && (found.Ok? && (forall j :: 0 <= j < |found.value| ==> !HasColumn(found.value[j].1, ID_KEY)) ==>
            GetId(entityType, selector, transport, decode) == Ok(Null))
      && forall j :: (found.Ok? && 0 <= j < |found.value| && HasColumn(found.value[j].1, ID_KEY) &&
                      forall i :: 0 <= i < j ==> !HasColumn(found.value[i].1, ID_KEY)) ==>
             GetId(entityType, selector, transport, decode) == Ok(Index(found.value[j].1, ID_KEY))
  {
    FirstIdOfFound(Search(entityType, selector, IdsParams([(StrKey("limit"), Int(1))]), transport, decode));
  }

  /** The first id of any search outcome. */
  lemma FirstIdOfFound(found: Result<Entries>)
    ensures FirstOf(IdsOf(found)).Err? <==> found.Err?
    ensures found.Ok? && (forall j :: 0 <= j < |found.value| ==> !HasColumn(found.value[j].1, ID_KEY)) ==>
      FirstOf(IdsOf(found)) == Ok(Null)
    ensures forall j :: (found.Ok? && 0 <= j < |found.value| && HasColumn(found.value[j].1, ID_KEY) &&
                         forall i :: 0 <= i < j ==> !HasColumn(found.value[i].1, ID_KEY)) ==>
          FirstOf(IdsOf(found)) == Ok(Index(found.value[j].1, ID_KEY))
  {
    if found.Ok? {
      ColumnHead(Values(found.value), ID_KEY);
    }
  }

  // ---------------------------------------------------------------------------
  // getByIds: filtering the ids

  /** `array_values(array_unique(array_filter($ids, 'isIdValid')))`: the valid ids, each at
      its first occurrence. */
  function ValidIds(ids: seq<string>): (v: seq<string>)
    ensures forall i :: 0 <= i < |v| ==> IsIdValid(v[i])
    ensures forall i, j :: 0 <= i < j < |v| ==> v[i] != v[j]
    ensures forall x :: x in v <==> x in ids && IsIdValid(x)
  {
    if ids == [] then []
    else
      var init, x := ids[..|ids| - 1], ids[|ids| - 1];
      assert forall y :: y in ids <==> y in init || y == x;
      var v := ValidIds(init);
      if IsIdValid(x) && x !in v then v + [x] else v
  }

  /** Position of the first occurrence of `x`. */
  function FirstIndex(s: seq<string>, x: string): (r: nat)
    requires x in s
    ensures r < |s| && s[r] == x
    ensures forall j :: 0 <= j < r ==> s[j] != x
  {
    if s[0] == x then 0 else 1 + FirstIndex(s[1..], x)
  }

  /** The valid ids keep the order of their first occurrences in the caller's list. */
  lemma {:induction false} ValidIdsKeepFirstOccurrenceOrder(ids: seq<string>)
    ensures var v := ValidIds(ids);
      forall i, j :: 0 <= i < j < |v| ==> FirstIndex(ids, v[i]) < FirstIndex(ids, v[j])
  {
    if ids != [] {
      var init, x := ids[..|ids| - 1], ids[|ids| - 1];
      ValidIdsKeepFirstOccurrenceOrder(init);
      assert ids == init + [x];
      var v := ValidIds(ids);
      forall i, j | 0 <= i < j < |v|
        ensures FirstIndex(ids, v[i]) < FirstIndex(ids, v[j])
      {
        OrderAfterStep(init, x, i, j);
      }
    }
  }

  lemma OrderAfterStep(init: seq<string>, x: string, i: nat, j: nat)
    requires i < j < |ValidIds(init + [x])|
    requires var w := ValidIds(init);
      forall i, j :: 0 <= i < j < |w| ==> FirstIndex(init, w[i]) < FirstIndex(init, w[j])
    ensures var v := ValidIds(init + [x]);
      FirstIndex(init + [x], v[i]) < FirstIndex(init + [x], v[j])
  {
    var w := ValidIds(init);
    var v := ValidIds(init + [x]);
    ValidIdsSnoc(init, x);
    if IsIdValid(x) && x !in w {
      assert v[i] == w[i] && w[i] in init;
      FirstIndexInPrefix(init, x, w[i]);
      if j < |w| {
        assert v[j] == w[j] && w[j] in init;
        FirstIndexInPrefix(init, x, w[j]);
      } else {
        assert v[j] == x && x !in init;
        FirstIndexOfNew(init, x);
      }
    } else {
      assert w[i] in init && w[j] in init;
      FirstIndexInPrefix(init, x, w[i]);
      FirstIndexInPrefix(init, x, w[j]);
    }
  }

  lemma ValidIdsSnoc(init: seq<string>, x: string)
    ensures ValidIds(init + [x]) ==
      if IsIdValid(x) && x !in ValidIds(init) then ValidIds(init) + [x] else ValidIds(init)
  {
    assert (init + [x])[..|init|] == init;
  }

  lemma FirstIndexInPrefix(init: seq<string>, x: string, y: string)
    requires y in init
    ensures FirstIndex(init + [x], y) == FirstIndex(init, y)
  {
    assert forall j :: 0 <= j < |init| ==> (init + [x])[j] == init[j];
  }

  lemma FirstIndexOfNew(init: seq<string>, x: string)
    requires x !in init
    ensures FirstIndex(init + [x], x) == |init|
  {
    assert forall j :: 0 <= j < |init| ==> (init + [x])[j] == init[j];
  }

  // ---------------------------------------------------------------------------
  // getByIds: reordering the results

  /** The key `$flipped[$result['_id']]` writes to; none when the `_id` is an array. */
  function ResultKey(result: Value): Option<Key>
  {
    OffsetKey(Index(result, ID_KEY))
  }

  /** `array_flip($validIds)`: each id mapped to its position. */
  function Flip(ids: seq<string>): (es: Entries)
    ensures |es| == |ids|
    ensures forall i :: 0 <= i < |ids| ==> es[i] == (KeyOf(ids[i]), Int(i))
  {
    seq(|ids|, i requires 0 <= i < |ids| => (KeyOf(ids[i]), Int(i)))
  }

  /** The `foreach` over the results: each result stored under its `_id`. */
  function Fill(es: Entries, rs: seq<Value>): (r: Entries)
    ensures UniqueKeys(es) ==> UniqueKeys(r)
  {
    if rs == [] then es
    else
      var acc := Fill(es, rs[..|rs| - 1]);
      var last := rs[|rs| - 1];
      match ResultKey(last)
      case None => acc
      case Some(k) => Set(acc, k, last)
  }

  lemma FillStep(es: Entries, rs: seq<Value>, i: nat)
    requires i < |rs|
    ensures Fill(es, rs[..i + 1]) ==
      match ResultKey(rs[i])
      case None => Fill(es, rs[..i])
      case Some(k) => Set(Fill(es, rs[..i]), k, rs[i])
  {
    assert rs[..i + 1][..i] == rs[..i];
  }

  /** `array_filter(..., fn ($r) => is_array($r) && count($r) > 0)` on a list. */
  function NonEmptyArrays(vs: seq<Value>): (r: seq<Value>)
  {
    if vs == [] then []
    else NonEmptyArrays(vs[..|vs| - 1]) + Kept(vs[|vs| - 1])
  }

  /** The filter keeps only non-empty arrays, each taken from the list. */
  lemma {:induction false} NonEmptyArraysMembers(vs: seq<Value>)
    ensures forall v :: v in NonEmptyArrays(vs) ==> v in vs && v.Arr? && v.entries != []
  {
    if vs != [] {
      var init := vs[..|vs| - 1];
      NonEmptyArraysMembers(init);
      assert forall v :: v in init ==> v in vs;
    }
  }

  /** `last` if it is a non-empty array, nothing otherwise. */
  function Kept(v: Value): (r: seq<Value>)
    ensures r == [] || r == [v]
  {
    if v.Arr? && v.entries != [] then [v] else []
  }

  /** The documents in the order of the valid ids, with the ones nobody asked for after them. */
  function Reordered(valid: seq<string>, rs: seq<Value>): seq<Value>
  {
    NonEmptyArrays(Values(Fill(Flip(valid), rs)))
  }

  /** The selector `['_id' => ['$in' => $validIds]]`. */
  function IdSelector(valid: seq<string>): Entries
  {
    [(ID_KEY, Arr([(StrKey("$in"), Arr(ListOf(seq(|valid|, i requires 0 <= i < |valid| => Str(valid[i])))))]))]
  }

  /** `getByIds($entityType, $ids, $params)`; the reordered documents are returned as a list. */
  function GetByIdsSpec(entityType: string, ids: seq<string>, params: Entries,
                        transport: Transport, decode: Decoder): Result<Entries>
  {
    var valid := ValidIds(ids);
    if entityType == "" || |valid| == 0 then Ok([])
    else match Search(entityType, IdSelector(valid), params, transport, decode)
      case Err(e) => Err(e)
      case Ok(results) =>
        if !IsEmpty(GetOrNull(params, SORT)) then Ok(results)
        else Ok(ListOf(Reordered(valid, Values(results))))
  }

  /** `getByIds` as the source runs it, filling the flipped id list one result at a time. */
  method GetByIds(entityType: string, ids: seq<string>, params: Entries,
                  transport: Transport, decode: Decoder) returns (r: Result<Entries>)
    ensures r == GetByIdsSpec(entityType, ids, params, transport, decode)
  {
    var valid := ValidIds(ids);
    if entityType == "" || |valid| == 0 {
      return Ok([]);
    }
    var doSortByIds := IsEmpty(GetOrNull(params, SORT));
    var found := Search(entityType, IdSelector(valid), params, transport, decode);
    if found.Err? {
      return Err(found.error);
    }
    var results := found.value;
    if !doSortByIds {
      return Ok(results);
    }
    var flipped := FillFlipped(valid, results);
    return Ok(ListOf(NonEmptyArrays(Values(flipped))));
  }

  /** The `foreach` of `getByIds`: starting from the flipped ids, each result is stored under
      its `_id`, one at a time. */
  method FillFlipped(valid: seq<string>, results: Entries) returns (flipped: Entries)
    ensures flipped == Fill(Flip(valid), Values(results))
  {
    flipped := Flip(valid);
    ghost var rs := Values(results);
    for i := 0 to |results|
      invariant flipped == Fill(Flip(valid), rs[..i])
    {
      FillStep(Flip(valid), rs, i);
      var result := results[i].1;
      var key := ResultKey(result);
      if key.Some? {
        flipped := Set(flipped, key.value, result);
      }
    }
    assert rs[..|results|] == rs;
  }

  /** Nothing is searched when the entity type is empty or no valid id remains: the result
      is the empty list whatever the transport. */
  lemma GetByIdsShortCircuit(entityType: string, ids: seq<string>, params: Entries,
                             t1: Transport, d1: Decoder, t2: Transport, d2: Decoder)
    requires entityType == "" || forall i :: 0 <= i < |ids| ==> !IsIdValid(ids[i])
    ensures GetByIdsSpec(entityType, ids, params, t1, d1) == Ok([])
    ensures GetByIdsSpec(entityType, ids, params, t1, d1) == GetByIdsSpec(entityType, ids, params, t2, d2)
  {
    if entityType != "" {
      NoValidIds(ids);
    }
  }

  lemma {:induction false} NoValidIds(ids: seq<string>)
    requires forall i :: 0 <= i < |ids| ==> !IsIdValid(ids[i])
    ensures ValidIds(ids) == []
  {
    if ids != [] {
      NoValidIds(ids[..|ids| - 1]);
    }
  }

  /** With a non-empty `sort` the search result is returned as it is. */
  lemma GetByIdsSortedKeepsSearchOrder(entityType: string, ids: seq<string>, params: Entries,
                                       transport: Transport, decode: Decoder)
    requires entityType != "" && |ValidIds(ids)| > 0
    requires !IsEmpty(GetOrNull(params, SORT))
    ensures GetByIdsSpec(entityType, ids, params, transport, decode)
      == Search(entityType, IdSelector(ValidIds(ids)), params, transport, decode)
  {
  }

  /** Reference definition: the last result stored under key `k`. */
  function LastFor(rs: seq<Value>, k: Key): (r: Option<Value>)
    ensures r.Some? ==> r.value in rs && ResultKey(r.value) == Some(k)
    ensures r.None? ==> forall i :: 0 <= i < |rs| ==> ResultKey(rs[i]) != Some(k)
  {
    if rs == [] then None
    else
      var init := rs[..|rs| - 1];
      assert forall i :: 0 <= i < |init| ==> init[i] == rs[i];
      assert forall v :: v in init ==> v in rs;
      if ResultKey(rs[|rs| - 1]) == Some(k) then Some(rs[|rs| - 1]) else LastFor(init, k)
  }

  /** Reference definition: for each valid id in order, the last result carrying it, if any. */
  function OrderedMatches(valid: seq<string>, rs: seq<Value>): seq<Value>
  {
    if valid == [] then []
    else OrderedMatches(valid[..|valid| - 1], rs) + MatchOf(rs, valid[|valid| - 1])
  }

  /** The last result carrying `id`, as a list of at most one document. */
  function MatchOf(rs: seq<Value>, id: string): seq<Value>
  {
    match LastFor(rs, KeyOf(id))
    case Some(v) => [v]
    case None => []
  }

  lemma OrderedMatchesUnfold(valid: seq<string>, rs: seq<Value>, n: nat)
    requires 0 < n <= |valid|
    ensures OrderedMatches(valid[..n], rs) == OrderedMatches(valid[..n - 1], rs) + MatchOf(rs, valid[n - 1])
  {
    assert valid[..n][..n - 1] == valid[..n - 1];
  }

  lemma {:induction false} FillGet(es: Entries, rs: seq<Value>, k: Key)
    ensures Get(Fill(es, rs), k) == if LastFor(rs, k).Some? then LastFor(rs, k) else Get(es, k)
  {
    if rs != [] {
      FillGet(es, rs[..|rs| - 1], k);
    }
  }

  lemma {:induction false} FillKeepsPositions(es: Entries, rs: seq<Value>)
    ensures |Fill(es, rs)| >= |es|
    ensures forall i :: 0 <= i < |es| ==> Fill(es, rs)[i].0 == es[i].0
  {
    if rs != [] {
      FillKeepsPositions(es, rs[..|rs| - 1]);
    }
  }

  lemma GetAtPosition(es: Entries, i: nat)
    requires UniqueKeys(es) && i < |es|
    ensures Get(es, es[i].0) == Some(es[i].1)
  {
  }

  lemma FlipUnique(valid: seq<string>)
    requires forall i :: 0 <= i < |valid| ==> IsIdValid(valid[i])
    requires forall i, j :: 0 <= i < j < |valid| ==> valid[i] != valid[j]
    ensures UniqueKeys(Flip(valid))
    ensures forall i :: 0 <= i < |valid| ==> Flip(valid)[i].0 == StrKey(valid[i])
  {
    forall i | 0 <= i < |valid|
      ensures Flip(valid)[i].0 == StrKey(valid[i])
    {
      ValidIdIsStringKey(valid[i]);
    }
  }

  /** A result stored under a valid id is an array holding that `_id`, so never empty. */
  lemma MatchIsNonEmpty(v: Value, id: string)
    requires IsIdValid(id) && ResultKey(v) == Some(StrKey(id))
    ensures v.Arr? && v.entries != []
  {
  }

  lemma {:induction false} NonEmptyArraysAppend(a: seq<Value>, b: seq<Value>)
    ensures NonEmptyArrays(a + b) == NonEmptyArrays(a) + NonEmptyArrays(b)
  {
    if b != [] {
      assert (a + b)[..|a + b| - 1] == a + b[..|b| - 1];
      NonEmptyArraysAppend(a, b[..|b| - 1]);
    } else {
      assert a + b == a;
    }
  }

  /** The slot of the `i`-th valid id after the loop: its last result, or still its position. */
  lemma SlotValue(valid: seq<string>, rs: seq<Value>, i: nat)
    requires forall i :: 0 <= i < |valid| ==> IsIdValid(valid[i])
    requires forall i, j :: 0 <= i < j < |valid| ==> valid[i] != valid[j]
    requires i < |valid|
    ensures var f := Fill(Flip(valid), rs);
      i < |f| && f[i].0 == StrKey(valid[i]) &&
      f[i].1 == match LastFor(rs, StrKey(valid[i])) case Some(v) => v case None => Int(i)
  {
    var f := Fill(Flip(valid), rs);
    FlipUnique(valid);
    FillKeepsPositions(Flip(valid), rs);
    GetAtPosition(f, i);
    FillGet(Flip(valid), rs, StrKey(valid[i]));
    GetAtPosition(Flip(valid), i);
  }

  /** The slot of the `i`-th valid id survives the filter exactly as its match. */
  lemma SlotFiltered(valid: seq<string>, rs: seq<Value>, i: nat)
    requires forall i :: 0 <= i < |valid| ==> IsIdValid(valid[i])
    requires forall i, j :: 0 <= i < j < |valid| ==> valid[i] != valid[j]
    requires i < |valid|
    ensures |Fill(Flip(valid), rs)| > i
    ensures Kept(Values(Fill(Flip(valid), rs))[i]) == MatchOf(rs, valid[i])
  {
    SlotValue(valid, rs, i);
    ValidIdIsStringKey(valid[i]);
    match LastFor(rs, StrKey(valid[i]))
    case Some(v) =>
      MatchIsNonEmpty(v, valid[i]);
    case None =>
  }

  /** Filtering slots that each filter to the match of their id gives the ordered matches. */
  lemma {:induction false} FilterSlots(vs: seq<Value>, valid: seq<string>, rs: seq<Value>, n: nat)
    requires n <= |valid| <= |vs|
    requires forall i :: 0 <= i < |valid| ==> Kept(vs[i]) == MatchOf(rs, valid[i])
    ensures NonEmptyArrays(vs[..n]) == OrderedMatches(valid[..n], rs)
  {
    if n > 0 {
      FilterSlots(vs, valid, rs, n - 1);
      assert vs[..n][..n - 1] == vs[..n - 1];
      OrderedMatchesUnfold(valid, rs, n);
    }
  }

  lemma OrderedPrefix(valid: seq<string>, rs: seq<Value>)
    requires forall i :: 0 <= i < |valid| ==> IsIdValid(valid[i])
    requires forall i, j :: 0 <= i < j < |valid| ==> valid[i] != valid[j]
    ensures |Fill(Flip(valid), rs)| >= |valid|
    ensures NonEmptyArrays(Values(Fill(Flip(valid), rs))[..|valid|]) == OrderedMatches(valid, rs)
  {
    FillKeepsPositions(Flip(valid), rs);
    var vs := Values(Fill(Flip(valid), rs));
    forall i | 0 <= i < |valid|
      ensures Kept(vs[i]) == MatchOf(rs, valid[i])
    {
      SlotFiltered(valid, rs, i);
    }
    FilterSlots(vs, valid, rs, |valid|);
    assert valid[..|valid|] == valid;
  }

  /** The entries after the valid ids hold results whose `_id` was not requested. */
  lemma ExtrasNotRequested(valid: seq<string>, rs: seq<Value>, j: nat)
    requires forall i :: 0 <= i < |valid| ==> IsIdValid(valid[i])
    requires forall i, j :: 0 <= i < j < |valid| ==> valid[i] != valid[j]
    requires |valid| <= j < |Fill(Flip(valid), rs)|
    ensures var e := Fill(Flip(valid), rs)[j].1;
      e in rs && ResultKey(e).Some? && forall id :: id in valid ==> ResultKey(e) != Some(StrKey(id))
  {
    var f := Fill(Flip(valid), rs);
    FlipUnique(valid);
    FillKeepsPositions(Flip(valid), rs);
    GetAtPosition(f, j);
    var k := f[j].0;
    FillGet(Flip(valid), rs, k);
    assert !HasKey(Flip(valid), k);
    forall id | id in valid
      ensures StrKey(id) != k
    {
      var i :| 0 <= i < |valid| && valid[i] == id;
      assert f[i].0 == StrKey(id);
    }
  }

  /** The filtered tail of the slots: results nobody asked for. */
  lemma ExtrasShape(valid: seq<string>, rs: seq<Value>)
    requires forall i :: 0 <= i < |valid| ==> IsIdValid(valid[i])
    requires forall i, j :: 0 <= i < j < |valid| ==> valid[i] != valid[j]
    ensures |Fill(Flip(valid), rs)| >= |valid|
    ensures forall e :: e in NonEmptyArrays(Values(Fill(Flip(valid), rs))[|valid|..]) ==>
      e in rs && ResultKey(e).Some? && forall id :: id in valid ==> ResultKey(e) != Some(StrKey(id))
  {
    FillKeepsPositions(Flip(valid), rs);
    NonEmptyArraysMembers(Values(Fill(Flip(valid), rs))[|valid|..]);
    forall e | e in NonEmptyArrays(Values(Fill(Flip(valid), rs))[|valid|..])
      ensures e in rs && ResultKey(e).Some? && forall id :: id in valid ==> ResultKey(e) != Some(StrKey(id))
    {
      ExtraSlot(valid, rs, e);
    }
  }

  /** One value kept from the tail of the slots. */
  lemma ExtraSlot(valid: seq<string>, rs: seq<Value>, e: Value)
    requires forall i :: 0 <= i < |valid| ==> IsIdValid(valid[i])
    requires forall i, j :: 0 <= i < j < |valid| ==> valid[i] != valid[j]
    requires |Fill(Flip(valid), rs)| >= |valid|
    requires e in Values(Fill(Flip(valid), rs))[|valid|..]
    ensures e in rs && ResultKey(e).Some? && forall id :: id in valid ==> ResultKey(e) != Some(StrKey(id))
  {
    var f := Fill(Flip(valid), rs);
    var tail := Values(f)[|valid|..];
    var t :| 0 <= t < |tail| && tail[t] == e;
    assert e == f[|valid| + t].1;
    ExtrasNotRequested(valid, rs, |valid| + t);
  }

  /** The output splits into the ordered matches and the filtered extra slots. */
  lemma ReorderedSplit(valid: seq<string>, rs: seq<Value>)
    requires forall i :: 0 <= i < |valid| ==> IsIdValid(valid[i])
    requires forall i, j :: 0 <= i < j < |valid| ==> valid[i] != valid[j]
    ensures |Fill(Flip(valid), rs)| >= |valid|
    ensures Reordered(valid, rs) ==
      OrderedMatches(valid, rs) + NonEmptyArrays(Values(Fill(Flip(valid), rs))[|valid|..])
  {
    OrderedPrefix(valid, rs);
    FilterSplit(Values(Fill(Flip(valid), rs)), |valid|);
  }

  /** Filtering a list is filtering its two parts. */
  lemma {:induction false} FilterSplit(vs: seq<Value>, n: nat)
    requires n <= |vs|
    ensures NonEmptyArrays(vs) == NonEmptyArrays(vs[..n]) + NonEmptyArrays(vs[n..])
  {
    if n == |vs| {
      assert vs[..n] == vs && vs[n..] == [];
    } else {
      var init, back := vs[..|vs| - 1], vs[n..];
      FilterSplit(init, n);
      assert init[..n] == vs[..n];
      assert back[..|back| - 1] == init[n..] && back[|back| - 1] == vs[|vs| - 1];
      var a, b, k := NonEmptyArrays(vs[..n]), NonEmptyArrays(init[n..]), Kept(vs[|vs| - 1]);
      assert (a + b) + k == a + (b + k);
    }
  }

  /** Without `sort`, the output is first the matched documents in the order of the valid ids
      (the last result for each id; ids without a result are left out), then the results whose
      `_id` was not among the requested ids. */
  lemma ReorderedShape(valid: seq<string>, rs: seq<Value>)
    requires forall i :: 0 <= i < |valid| ==> IsIdValid(valid[i])
    requires forall i, j :: 0 <= i < j < |valid| ==> valid[i] != valid[j]
    ensures var out := Reordered(valid, rs);
      var ordered := OrderedMatches(valid, rs);
      && |ordered| <= |out|
      && out[..|ordered|] == ordered
      && forall e :: e in out[|ordered|..] ==>
           e in rs && ResultKey(e).Some? && forall id :: id in valid ==> ResultKey(e) != Some(StrKey(id))
  {
    ReorderedSplit(valid, rs);
    ExtrasShape(valid, rs);
    var extras := NonEmptyArrays(Values(Fill(Flip(valid), rs))[|valid|..]);
    var ordered := OrderedMatches(valid, rs);
    assert (ordered + extras)[..|ordered|] == ordered;
    assert (ordered + extras)[|ordered|..] == extras;
  }

  /** Each requested id appears in the ordered part exactly when some result carries it. */
  lemma {:induction false} OrderedMatchesMembers(valid: seq<string>, rs: seq<Value>)
    ensures |OrderedMatches(valid, rs)| <= |valid|
    ensures forall v :: v in OrderedMatches(valid, rs) <==>
      exists i :: 0 <= i < |valid| && LastFor(rs, KeyOf(valid[i])) == Some(v)
  {
    if valid != [] {
      var init := valid[..|valid| - 1];
      OrderedMatchesMembers(init, rs);
      assert forall i :: 0 <= i < |init| ==> init[i] == valid[i];
    }
  }
}
