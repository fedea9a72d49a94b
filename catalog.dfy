/**
 * The process-wide book list and the four request handlers that read and
 * change it.  HTTP routing, JSON parsing and serialisation are replaced by
 * method parameters and a Response value.
 */
module Api {
  import opened Wrappers
  import opened Books

  class Catalog {
    /** The shared list of records, in insertion order. */
    var books: seq<Book>

    /** A fresh process: the catalog holds the two seed records. */
    constructor ()
      ensures books == Seed()
      ensures UniquePositiveIds(books)
    {
      books := Seed();
      SeedIdsUniquePositive();
    }

    /** Linear search for the first record carrying `bookId`; its position, or None. */
    method FindBookById(bookId: int) returns (found: Option<nat>)
      ensures found == FirstIndex(books, bookId)
    {
      var i := 0;
      while i < |books|
        invariant 0 <= i <= |books|
        invariant forall j :: 0 <= j < i ==> books[j].id != bookId
      {
        if books[i].id == bookId {
          return Some(i);
        }
        i := i + 1;
      }
      return None;
    }

    /** GET: one page of the catalog; `page` defaults to 1 and `limit` to 10. */
    method List(page: Option<int>, limit: Option<int>) returns (r: seq<Book>)
      ensures r == Paginate(books, page.GetOr(DefaultPage), limit.GetOr(DefaultLimit))
      ensures var p, l := page.GetOr(DefaultPage), limit.GetOr(DefaultLimit);
        p >= 1 && l >= 0 ==>
          && |r| <= l
          && (PageStart(p, l) >= |books| ==> r == [])
          && (0 <= PageStart(p, l) < |books| ==> r == books[PageStart(p, l)..Min(PageStart(p, l) + l, |books|)])
    {
      var p := page.GetOr(DefaultPage);
      var l := limit.GetOr(DefaultLimit);
      var start := PageStart(p, l);
      var end := start + l;
      r := PySlice(books, start, end);
      if p >= 1 && l >= 0 {
        PaginateIsExactRange(books, p, l);
      }
    }

    /**
     * POST: reject a payload without title or author, otherwise give it the
     * next id and append it.  `max` of no ids raises, so on an empty catalog
     * the request fails with a server error.
     */
    method Create(data: Payload) returns (r: Response)
      modifies this
      ensures !ValidBookData(data) ==> r == BadRequest && books == old(books)
      ensures ValidBookData(data) && old(books) == [] ==> r == ServerError && books == old(books)
      ensures ValidBookData(data) && old(books) != [] ==>
        && r == Created(Book(MaxId(old(books)) + 1, data.fields))
        && books == old(books) + [r.book]
      ensures r.Created? ==> forall i :: 0 <= i < |old(books)| ==> old(books)[i].id < r.book.id
      ensures UniquePositiveIds(old(books)) ==> UniquePositiveIds(books)
    {
      if !ValidBookData(data) {
        return BadRequest;
      }
      if books == [] {
        return ServerError;
      }
      var book := Book(MaxId(books) + 1, data.fields);
      if UniquePositiveIds(books) {
        CreateKeepsIdsUniquePositive(books, data.fields);
      }
      books := books + [book];
      r := Created(book);
    }

    /**
     * PUT: merge the payload into the first record carrying `bookId`, id
     * included; 404 when there is none.
     */
    method Update(bookId: int, data: Payload) returns (r: Response)
      modifies this
      ensures FirstIndex(old(books), bookId).None? ==> r == NotFound && books == old(books)
      ensures FirstIndex(old(books), bookId).Some? ==>
        var k := FirstIndex(old(books), bookId).value;
        && books == old(books)[k := Merge(old(books)[k], data)]
        && r == Ok(books[k])
    {
      var found := FindBookById(bookId);
      if found.None? {
        return NotFound;
      }
      var k := found.value;
      books := books[k := Merge(books[k], data)];
      r := Ok(books[k]);
    }

    /**
     * DELETE: 404 when no record carries `bookId`; otherwise rebuild the list
     * without every record carrying it and answer with the record found.
     */
    method Delete(bookId: int) returns (r: Response)
      modifies this
      ensures FirstIndex(old(books), bookId).None? ==> r == NotFound && books == old(books)
      ensures FirstIndex(old(books), bookId).Some? ==>
        && r == Ok(old(books)[FirstIndex(old(books), bookId).value])
        && books == Without(old(books), bookId)
      ensures UniquePositiveIds(old(books)) ==> UniquePositiveIds(books)
      ensures UniqueIds(old(books)) && r.Ok? ==> |books| == |old(books)| - 1
    {
      var found := FindBookById(bookId);
      if found.None? {
        return NotFound;
      }
      var book := books[found.value];
      if UniquePositiveIds(books) {
        DeleteKeepsIdsUniquePositive(books, bookId);
      }
      if UniqueIds(books) {
        WithoutUniqueRemovesOne(books, found.value);
      }
      books := Without(books, bookId);
      r := Ok(book);
    }
  }

  /** Requests on a fresh catalog: a create, a failed update, a delete. */
  method SeedScenario() returns (created: Response, missing: Response, deleted: Response)
    ensures created == Created(Book(3, map[TitleKey := "Dune", AuthorKey := "Frank Herbert"]))
    ensures StatusCode(created) == 201
    ensures missing == NotFound && StatusCode(missing) == 404
    ensures deleted == Ok(Seed()[0]) && StatusCode(deleted) == 200
  {
    var c := new Catalog();
    var dune := Payload(None, map[TitleKey := "Dune", AuthorKey := "Frank Herbert"]);
    assert MaxId(Seed()) == 2;
    created := c.Create(dune);
    assert c.books == Seed() + [Book(3, dune.fields)];
    missing := c.Update(7, Payload(None, map[]));
    assert FirstIndex(c.books, 1) == Some(0);
    deleted := c.Delete(1);
  }
}
