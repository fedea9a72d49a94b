/**
 * Book records, request payloads and responses of the book catalog service,
 * with the pure parts of its request handlers: the validator, the id
 * generator, the lookup, the shallow merge of an update, the filter of a
 * delete and the pagination slice.  The catalog object that holds the list
 * and changes it lives in module Api.
 */
module Books {
  import opened Wrappers

  const IdKey: string := "id"
  const TitleKey: string := "title"
  const AuthorKey: string := "author"

  /** The client-visible fields of a record other than its id. */
  type Fields = m: map<string, string> | IdKey !in m witness map[]

  /** A book record: its integer id and every other field, stored verbatim. */
  datatype Book = Book(id: int, fields: Fields)

  /** A JSON object sent by a client: an optional `id` and any other fields. */
  datatype Payload = Payload(id: Option<int>, fields: Fields)

  /** What a handler answers, in place of the HTTP status and body. */
  datatype Response =
    | Created(book: Book)   // 201 with the new record
    | Ok(book: Book)        // 200 with the updated or the deleted record
    | BadRequest            // 400 {"error": "Invalid book data"}
    | NotFound              // 404 with an empty body
    | ServerError           // 500: an exception escaped the handler

  /** The HTTP status code of a reply. */
  function StatusCode(r: Response): (code: int)
    ensures 200 <= code < 600
  {
    match r
    case Created(_) => 201
    case Ok(_) => 200
    case BadRequest => 400
    case NotFound => 404
    case ServerError => 500
  }

  /** The catalog every process starts with. */
  function Seed(): (r: seq<Book>)
    ensures |r| == 2 && r[0].id == 1 && r[1].id == 2
    ensures forall i :: 0 <= i < |r| ==> TitleKey in r[i].fields && AuthorKey in r[i].fields
  {
    [ Book(1, map[TitleKey := "The Great Gatsby", AuthorKey := "F. Scott Fitzgerald"]),
      Book(2, map[TitleKey := "1984", AuthorKey := "George Orwell"]) ]
  }

  ghost predicate UniqueIds(bs: seq<Book>) {
    forall i, j :: 0 <= i < j < |bs| ==> bs[i].id != bs[j].id
  }

  /** The data-model invariant: ids are positive and no two records share one. */
  ghost predicate UniquePositiveIds(bs: seq<Book>) {
    UniqueIds(bs) && forall i :: 0 <= i < |bs| ==> bs[i].id > 0
  }

  /** A payload is accepted for creation exactly when it has a title and an author. */
  predicate ValidBookData(data: Payload): (ok: bool)
    ensures ok <==> {TitleKey, AuthorKey} <= data.fields.Keys
  {
    TitleKey in data.fields && AuthorKey in data.fields
  }

  /** The largest id in a non-empty catalog (Python's `max` over the ids). */
  function MaxId(bs: seq<Book>): (m: int)
    requires bs != []
    ensures forall i :: 0 <= i < |bs| ==> bs[i].id <= m
    ensures exists i :: 0 <= i < |bs| && bs[i].id == m
  {
    if |bs| == 1 then bs[0].id
    else
      var rest := MaxId(bs[1..]);
      if bs[0].id < rest then rest else bs[0].id
  }

  /** Position of the first record carrying `id`, scanning in list order. */
  function FirstIndex(bs: seq<Book>, id: int): (r: Option<nat>)
    ensures r.Some? ==> r.value < |bs| && bs[r.value].id == id
    ensures r.Some? ==> forall j :: 0 <= j < r.value ==> bs[j].id != id
    ensures r.None? <==> forall j :: 0 <= j < |bs| ==> bs[j].id != id
  {
    if bs == [] then None
    else if bs[0].id == id then Some(0)
    else
      match FirstIndex(bs[1..], id)
      case None => None
      case Some(k) => Some(k + 1)
  }

  /** Shallow merge of an update payload into a record (Python's `dict.update`). */
  function Merge(b: Book, data: Payload): (r: Book)
    ensures r.id == if data.id.Some? then data.id.value else b.id
    ensures r.fields.Keys == b.fields.Keys + data.fields.Keys
    ensures forall k :: k in data.fields ==> r.fields[k] == data.fields[k]
    ensures forall k :: k in b.fields && k !in data.fields ==> r.fields[k] == b.fields[k]
  {
    Book(data.id.GetOr(b.id), b.fields + data.fields)
  }

  /** The catalog rebuilt without any record carrying `id`, in the original order. */
  function Without(bs: seq<Book>, id: int): (r: seq<Book>)
    ensures |r| <= |bs|
    ensures forall i :: 0 <= i < |r| ==> r[i].id != id
    ensures forall x :: x in r ==> x in bs
  {
    if bs == [] then []
    else
      assert bs == [bs[0]] + bs[1..];
      if bs[0].id == id then Without(bs[1..], id)
    else [bs[0]] + Without(bs[1..], id)
  }

  /** A slice bound normalised as Python does for `s[a:b]`. */
  function SliceBound(i: int, n: nat): (r: nat)
    ensures r <= n
    ensures 0 <= i <= n ==> r == i
    ensures i > n ==> r == n
    ensures i < 0 && i + n >= 0 ==> r == i + n
    ensures i + n < 0 ==> r == 0
  {
    if i < 0 then (if i + n < 0 then 0 else i + n)
    else if i > n then n
    else i
  }

  /** Python's `s[a:b]`: negative bounds count from the end, bounds are clamped. */
  function PySlice<T>(s: seq<T>, a: int, b: int): (r: seq<T>)
    ensures |r| <= |s|
    ensures a <= b ==> |r| <= b - a
    ensures forall k :: 0 <= k < |r| ==> SliceBound(a, |s|) + k < |s| && r[k] == s[SliceBound(a, |s|) + k]
  {
    var lo, hi := SliceBound(a, |s|), SliceBound(b, |s|);
    if lo < hi then s[lo..hi] else []
  }

  function Min(a: int, b: int): (m: int)
    ensures m <= a && m <= b && (m == a || m == b)
  {
    if a < b then a else b
  }

  const DefaultPage: int := 1
  const DefaultLimit: int := 10

  /** Index of the first record of a page. */
  function PageStart(page: int, limit: int): (start: int)
    ensures page >= 1 && limit >= 0 ==> start >= 0
  {
    (page - 1) * limit
  }

  /** The records the list handler returns for `page` and `limit`. */
  function Paginate(bs: seq<Book>, page: int, limit: int): (r: seq<Book>)
    ensures limit >= 0 ==> |r| <= limit
  {
    var start := PageStart(page, limit);
    PySlice(bs, start, start + limit)
  }

  // ---------------------------------------------------------------------------
  // Properties of the handlers' building blocks
  // ---------------------------------------------------------------------------

  lemma SeedIdsUniquePositive()
    ensures UniquePositiveIds(Seed())
  {
  }

  /** Validation looks at the presence of the title and author keys and nothing else. */
  lemma ValidationInspectsOnlyTitleAndAuthor(p: Payload, q: Payload)
    requires (TitleKey in p.fields) == (TitleKey in q.fields)
    requires (AuthorKey in p.fields) == (AuthorKey in q.fields)
    ensures ValidBookData(p) == ValidBookData(q)
  {
  }

  /** With non-negative bounds, Python's slice is the sub-range clamped to the length. */
  lemma PySliceNonNegative<T>(s: seq<T>, a: int, b: int)
    requires 0 <= a <= b
    ensures a >= |s| ==> PySlice(s, a, b) == []
    ensures a < |s| ==> PySlice(s, a, b) == s[a..Min(b, |s|)]
  {
  }

  /** The first page starts at index 0 and each further page starts `limit` records later. */
  lemma PageStartFacts(page: int, limit: int)
    requires page >= 1 && limit >= 0
    ensures PageStart(1, limit) == 0
    ensures PageStart(page + 1, limit) == PageStart(page, limit) + limit
  {
    assert (page - 1) * limit >= 0 by {
      assert page - 1 >= 0;
    }
    assert page * limit == (page - 1) * limit + limit;
  }

  /** A page is exactly the sub-range of the catalog that starts at (page-1)*limit. */
  lemma PaginateIsExactRange(bs: seq<Book>, page: int, limit: int)
    requires page >= 1 && limit >= 0
    ensures var start := PageStart(page, limit);
      && start >= 0
      && (start >= |bs| ==> Paginate(bs, page, limit) == [])
      && (start < |bs| ==> Paginate(bs, page, limit) == bs[start..Min(start + limit, |bs|)])
      && |Paginate(bs, page, limit)| <= limit
  {
    var start := PageStart(page, limit);
    PageStartFacts(page, limit);
    PySliceNonNegative(bs, start, start + limit);
  }

  /** Consecutive pages join without a gap or an overlap. */
  lemma ConsecutivePagesJoin(bs: seq<Book>, page: int, limit: int)
    requires page >= 1 && limit >= 0
    ensures var start := PageStart(page, limit);
      Paginate(bs, page, limit) + Paginate(bs, page + 1, limit) == PySlice(bs, start, start + 2 * limit)
  {
    var a := PageStart(page, limit);
    PageStartFacts(page, limit);
    PySliceNonNegative(bs, a, a + limit);
    PySliceNonNegative(bs, a + limit, a + 2 * limit);
    PySliceNonNegative(bs, a, a + 2 * limit);
    var n := |bs|;
    if a + limit < n {
      assert bs[a..a + limit] + bs[a + limit..Min(a + 2 * limit, n)] == bs[a..Min(a + 2 * limit, n)];
    }
  }

  /** The id handed out by create is larger than every id already present. */
  lemma CreatedIdIsFresh(bs: seq<Book>)
    requires bs != []
    ensures forall i :: 0 <= i < |bs| ==> bs[i].id < MaxId(bs) + 1
  {
  }

  lemma CreateKeepsIdsUniquePositive(bs: seq<Book>, fields: Fields)
    requires bs != [] && UniquePositiveIds(bs)
    ensures UniquePositiveIds(bs + [Book(MaxId(bs) + 1, fields)])
  {
  }

  /** Removing records keeps the rest in their original relative order. */
  lemma {:induction false} WithoutDistributes(a: seq<Book>, b: seq<Book>, id: int)
    ensures Without(a + b, id) == Without(a, id) + Without(b, id)
  {
    if a == [] {
      assert a + b == b;
    } else {
      assert (a + b)[1..] == a[1..] + b;
      WithoutDistributes(a[1..], b, id);
    }
  }

  /** Delete drops every copy of a record carrying `id` and keeps every copy of the others. */
  lemma {:induction false} WithoutCount(bs: seq<Book>, id: int, b: Book)
    ensures multiset(Without(bs, id))[b] == if b.id == id then 0 else multiset(bs)[b]
  {
    if bs != [] {
      assert bs == [bs[0]] + bs[1..];
      WithoutCount(bs[1..], id, b);
    }
  }

  /** Deleting an id nobody carries changes nothing. */
  lemma {:induction false} WithoutAbsent(bs: seq<Book>, id: int)
    requires forall j :: 0 <= j < |bs| ==> bs[j].id != id
    ensures Without(bs, id) == bs
  {
    if bs != [] {
      WithoutAbsent(bs[1..], id);
    }
  }

  /** Dropping the first record keeps the remaining ids unique. */
  lemma TailKeepsUniqueIds(bs: seq<Book>)
    requires bs != [] && UniqueIds(bs)
    ensures UniqueIds(bs[1..])
  {
    var rest := bs[1..];
    forall i, j | 0 <= i < j < |rest|
      ensures rest[i].id != rest[j].id
    {
      assert rest[i] == bs[i + 1] && rest[j] == bs[j + 1];
    }
  }

  /** Filtering the list around position k is filtering the three parts. */
  lemma WithoutAround(bs: seq<Book>, k: nat, id: int)
    requires k < |bs|
    ensures Without(bs, id) == Without(bs[..k], id) + Without([bs[k]], id) + Without(bs[k + 1..], id)
  {
    assert bs == bs[..k] + ([bs[k]] + bs[k + 1..]);
    WithoutDistributes(bs[..k], [bs[k]] + bs[k + 1..], id);
    WithoutDistributes([bs[k]], bs[k + 1..], id);
  }

  /** With unique ids, no record before or after position k carries the id of record k. */
  lemma OthersKeptAround(bs: seq<Book>, k: nat)
    requires UniqueIds(bs) && k < |bs|
    ensures Without(bs[..k], bs[k].id) == bs[..k]
    ensures Without(bs[k + 1..], bs[k].id) == bs[k + 1..]
  {
    var id, before, after := bs[k].id, bs[..k], bs[k + 1..];
    forall j | 0 <= j < |before|
      ensures before[j].id != id
    {
      assert before[j] == bs[j];
    }
    WithoutAbsent(before, id);
    forall j | 0 <= j < |after|
      ensures after[j].id != id
    {
      assert after[j] == bs[k + 1 + j];
    }
    WithoutAbsent(after, id);
  }

  /** With unique ids, deleting the id of record k removes exactly that record. */
  lemma WithoutUniqueRemovesOne(bs: seq<Book>, k: nat)
    requires UniqueIds(bs) && k < |bs|
    ensures Without(bs, bs[k].id) == bs[..k] + bs[k + 1..]
  {
    var id := bs[k].id;
    WithoutAround(bs, k, id);
    assert Without([bs[k]], id) == [];
    OthersKeptAround(bs, k);
  }

  /** Putting a record in front of a list that does not carry its positive id keeps ids unique and positive. */
  lemma PrependKeepsIdsUniquePositive(b: Book, w: seq<Book>)
    requires UniquePositiveIds(w) && b.id > 0
    requires forall j :: 0 <= j < |w| ==> w[j].id != b.id
    ensures UniquePositiveIds([b] + w)
  {
    var r := [b] + w;
    forall i, j | 0 <= i < j < |r|
      ensures r[i].id != r[j].id
    {
      assert r[j] == w[j - 1];
      if i > 0 {
        assert r[i] == w[i - 1];
      }
    }
  }

  lemma {:induction false} DeleteKeepsIdsUniquePositive(bs: seq<Book>, id: int)
    requires UniquePositiveIds(bs)
    ensures UniquePositiveIds(Without(bs, id))
  {
    if bs != [] {
      var rest := bs[1..];
      TailKeepsUniqueIds(bs);
      DeleteKeepsIdsUniquePositive(rest, id);
      var w := Without(rest, id);
      if bs[0].id != id {
        forall j | 0 <= j < |w|
          ensures w[j].id != bs[0].id
        {
          WithoutCount(rest, id, w[j]);
          assert w[j] in multiset(w);
          assert w[j] in rest;
          var i :| 0 <= i < |rest| && rest[i] == w[j];
          assert bs[i + 1] == rest[i];
        }
        PrependKeepsIdsUniquePositive(bs[0], w);
      }
    }
  }

  /**
   * Update keeps the invariant exactly when the payload sends no id, or sends a
   * positive id that no other record carries.
   */
  lemma UpdateKeepsIdsUniquePositiveIff(bs: seq<Book>, k: nat, data: Payload)
    requires UniquePositiveIds(bs) && k < |bs|
    ensures UniquePositiveIds(bs[k := Merge(bs[k], data)]) <==>
      (data.id.None? ||
       (data.id.value > 0 && forall j :: 0 <= j < |bs| && j != k ==> bs[j].id != data.id.value))
  {
    var after := bs[k := Merge(bs[k], data)];
    if data.id.None? || (data.id.value > 0 && forall j :: 0 <= j < |bs| && j != k ==> bs[j].id != data.id.value) {
      forall i, j | 0 <= i < j < |after|
        ensures after[i].id != after[j].id
      {
        if i != k && j != k { assert after[i] == bs[i] && after[j] == bs[j]; }
      }
    }
    if data.id.Some? && UniquePositiveIds(after) {
      assert after[k].id == data.id.value;
      forall j | 0 <= j < |bs| && j != k
        ensures bs[j].id != data.id.value
      {
        assert after[j] == bs[j] && after[k].id == data.id.value;
        if j < k { assert after[j].id != after[k].id; }
        else { assert after[k].id != after[j].id; }
      }
    }
  }

  /** The update can overwrite an id with one that is already taken. */
  lemma UpdateCanDuplicateIds()
    ensures var bs := Seed();
      && UniqueIds(bs)
      && !UniqueIds(bs[1 := Merge(bs[1], Payload(Some(1), map[]))])
  {
    var after := Seed()[1 := Merge(Seed()[1], Payload(Some(1), map[]))];
    assert after[0].id == after[1].id;
  }

  /** Worked examples on the seed catalog. */
  lemma SeedExamples()
    ensures MaxId(Seed()) + 1 == 3
    ensures Paginate(Seed(), 1, 2) == Seed()
    ensures Paginate(Seed(), 2, 1) == [Seed()[1]]
    ensures Paginate(Seed(), 3, 1) == []
  {
    assert Seed()[1].id == 2;
  }
}
