/**
 * What each HTTP handler of main.go does to the store, stated as a pure
 * function from the store before the request to the reply and the store
 * after it. The request's path id and JSON body arrive already decoded:
 * a decoding failure is the `Unparsable` case.
 */
module Handlers {
  import opened Wrappers
  import opened Text
  import opened Books

  /** A path id or request body, either decoded or refused by its decoder. */
  datatype Parsed<T> = Parsed(value: T) | Unparsable(error: string)

  const StatusOK := 200
  const StatusCreated := 201
  const StatusFound := 302
  const StatusBadRequest := 400
  const StatusNotFound := 404
  const StatusConflict := 409
  const StatusInternalServerError := 500

  /** The reply a handler sends. */
  datatype Reply =
    | Listed(books: seq<Book>)         // the whole store
    | Ok(status: int, book: Book)      // one record, with a success status
    | Deleted(book: Book)              // {"deleted": true, "book": ...}
    | InvalidArgument(error: string)
    | NotFound(error: string)
    | Conflict(error: string)
    | Panicked(error: string)          // a Go runtime panic inside the handler
  {
    /** The HTTP status the reply goes out with. */
    function Status(): int {
      match this
      case Listed(_) => StatusOK
      case Ok(status, _) => status
      case Deleted(_) => StatusOK
      case InvalidArgument(_) => StatusBadRequest
      case NotFound(_) => StatusNotFound
      case Conflict(_) => StatusConflict
      case Panicked(_) => StatusInternalServerError
    }
  }

  /** A reply together with the store it leaves behind. */
  datatype Step = Step(reply: Reply, books: seq<Book>)

  const BookNotFound := "book not found"
  const BookAlreadyExists := "Book already exist"
  const IndexOutOfRange := "runtime error: index out of range [-1]"

  /** getBooks. */
  function GetBooks(s: seq<Book>): Reply {
    Listed(s)
  }

  /** bookById. */
  function BookById(s: seq<Book>, id: Parsed<int64>): Reply {
    match id
    case Unparsable(_) => InvalidArgument("Invalid Id")
    case Parsed(n) =>
      var k := IndexOf(s, n);
      if k == -1 then NotFound(BookNotFound) else Ok(StatusFound, s[k])
  }

  /** createBook. */
  function CreateBook(s: seq<Book>, payload: Parsed<Book>): Step {
    match payload
    case Unparsable(e) => Step(InvalidArgument(e), s)
    case Parsed(b) =>
      match Validate(b)
      case Some(e) => Step(InvalidArgument(e.Message()), s)
      case None =>
        if TitleTaken(s, b.Title) then Step(Conflict(BookAlreadyExists), s)
        else if |s| == 0 then Step(Panicked(IndexOutOfRange), s)
        else
          var t := Created(s, b);
          Step(Ok(StatusCreated, t[|s|]), t)
  }

  /** updateBookById. */
  function UpdateBookById(s: seq<Book>, id: Parsed<int64>, payload: Parsed<Book>): Step {
    match id
    case Unparsable(_) => Step(InvalidArgument("invalid Id"), s)
    case Parsed(n) =>
      match payload
      case Unparsable(e) => Step(InvalidArgument(e), s)
      case Parsed(p) =>
        if p.ID != 0 then Step(InvalidArgument(IdSupplied.Message()), s)
        else
          var k := IndexOf(s, n);
          if k == -1 then Step(InvalidArgument(BookNotFound), s)
          else
            var b := Patch(s[k], p);
            Step(Ok(StatusOK, b), s[k := b])
  }

  /** deleteBook. */
  function DeleteBook(s: seq<Book>, id: Parsed<int64>): Step {
    match id
    case Unparsable(_) => Step(InvalidArgument("invalid Id"), s)
    case Parsed(n) =>
      var k := IndexOf(s, n);
      if k == -1 then Step(InvalidArgument(BookNotFound), s)
      else Step(Deleted(s[k]), Removed(s, k))
  }

  // ---------------------------------------------------------------------
  // Properties of each handler

  /**
   * Get answers 302 with the first record holding the id, 404 when no
   * record holds it and 400 for an id that does not parse.
   */
  lemma BookByIdOutcomes(s: seq<Book>, id: Parsed<int64>)
    ensures var r := BookById(s, id);
      && (r.Status() == StatusBadRequest <==> id.Unparsable?)
      && (r.Status() == StatusNotFound <==> id.Parsed? && forall j :: 0 <= j < |s| ==> s[j].ID != id.value)
      && (r.Status() == StatusFound <==> id.Parsed? && exists j :: 0 <= j < |s| && s[j].ID == id.value)
      && (r.Status() == StatusFound ==> r.Ok? && r.book.ID == id.value && r.book in s)
      && (r.Status() == StatusFound ==> r.book == s[IndexOf(s, id.value)])
  {
    if id.Parsed? {
      var k := IndexOf(s, id.value);
      if k >= 0 {
        assert s[k].ID == id.value;
      }
    }
  }

  /**
   * Create refuses a malformed or invalid body with 400, a taken title with
   * 409 and anything on an empty store with a panic, and each refusal
   * leaves the store as it was.
   */
  lemma CreateBookRefusals(s: seq<Book>, payload: Parsed<Book>)
    ensures var r := CreateBook(s, payload);
      && (r.reply.Status() == StatusBadRequest <==> payload.Unparsable? || Validate(payload.value).Some?)
      && (r.reply.Status() == StatusConflict <==>
            payload.Parsed? && Validate(payload.value).None? && TitleTaken(s, payload.value.Title))
      && (r.reply.Status() == StatusInternalServerError <==>
            payload.Parsed? && Validate(payload.value).None? && !TitleTaken(s, payload.value.Title) && s == [])
      && (r.reply.Status() == StatusCreated <==>
            payload.Parsed? && Validate(payload.value).None? && !TitleTaken(s, payload.value.Title) && s != [])
      && (r.reply.Status() != StatusCreated ==> r.books == s)
  {
    match payload
    case Unparsable(e) =>
      assert CreateBook(s, payload) == Step(InvalidArgument(e), s);
    case Parsed(b) =>
      var v := Validate(b);
      if v.Some? {
        assert CreateBook(s, payload) == Step(InvalidArgument(v.value.Message()), s);
      } else if TitleTaken(s, b.Title) {
        assert CreateBook(s, payload) == Step(Conflict(BookAlreadyExists), s);
      } else if s == [] {
        assert CreateBook(s, payload) == Step(Panicked(IndexOutOfRange), s);
      } else {
        assert CreateBook(s, payload).reply == Ok(StatusCreated, Created(s, b)[|s|]);
      }
  }

  /**
   * A successful create answers 201 and appends exactly the payload under
   * the next automatic ID; every earlier record stays as it was.
   */
  lemma CreateBookSuccess(s: seq<Book>, payload: Parsed<Book>)
    requires CreateBook(s, payload).reply.Status() == StatusCreated
    ensures var r := CreateBook(s, payload);
      && r.reply.Ok? && payload.Parsed? && |s| > 0
      && r.reply.book == payload.value.(ID := NextId(s))
      && r.books == s + [r.reply.book]
  {
  }

  /**
   * Update refuses with 400 an unparsable id or body, a body that names an
   * ID and an id no record holds, leaving the store as it was. A success
   * answers 200 with the patched record, which replaces the first record
   * holding the id; every other record is untouched.
   */
  lemma UpdateBookByIdOutcomes(s: seq<Book>, id: Parsed<int64>, payload: Parsed<Book>)
    ensures var r := UpdateBookById(s, id, payload);
      && (r.reply.Status() == StatusBadRequest <==>
            id.Unparsable? || payload.Unparsable? || payload.value.ID != 0
            || forall j :: 0 <= j < |s| ==> s[j].ID != id.value)
      && (r.reply.Status() == StatusBadRequest ==> r.books == s)
      && (r.reply.Status() != StatusBadRequest ==>
            var k := IndexOf(s, id.value);
            && r.reply == Ok(StatusOK, Patch(s[k], payload.value))
            && r.books == s[k := r.reply.book]
            && r.reply.book.ID == id.value)
  {
  }

  /**
   * Delete refuses with 400 an unparsable id and an id no record holds,
   * leaving the store as it was. A success answers 200 with the record as
   * it was before removal, and the store loses exactly that position.
   */
  lemma DeleteBookOutcomes(s: seq<Book>, id: Parsed<int64>)
    ensures var r := DeleteBook(s, id);
      && (r.reply.Status() == StatusBadRequest <==>
            id.Unparsable? || forall j :: 0 <= j < |s| ==> s[j].ID != id.value)
      && (r.reply.Status() == StatusBadRequest ==> r.books == s)
      && (r.reply.Status() != StatusBadRequest ==>
            var k := IndexOf(s, id.value);
            && r.reply == Deleted(s[k])
            && r.books == Removed(s, k)
            && r.reply.book.ID == id.value)
  {
  }

  /** After a successful delete on a store with unique IDs, the id answers 404. */
  lemma DeletedIdIsGone(s: seq<Book>, id: int64)
    requires UniqueIds(s)
    requires DeleteBook(s, Parsed(id)).reply.Deleted?
    ensures BookById(DeleteBook(s, Parsed(id)).books, Parsed(id)) == NotFound(BookNotFound)
  {
    RemovedIdNotFound(s, IndexOf(s, id));
  }

  /** After a successful create, the new record is found under its ID, and its title is taken. */
  lemma CreatedIsRetrievable(s: seq<Book>, payload: Parsed<Book>)
    requires StrictlyIncreasing(s) && RoomForNextId(s)
    requires CreateBook(s, payload).reply.Status() == StatusCreated
    ensures var r := CreateBook(s, payload);
      && BookById(r.books, Parsed(r.reply.book.ID)) == Ok(StatusFound, r.reply.book)
      && TitleTaken(r.books, payload.value.Title)
  {
    CreateBookSuccess(s, payload);
    var b := payload.value;
    var t := Created(s, b);
    assert CreateBook(s, payload) == Step(Ok(StatusCreated, t[|s|]), t);
    CreatedIsFound(s, b);
    EqualFoldReflexive(b.Title);
    assert EqualFold(t[|s|].Title, b.Title);
  }

  // ---------------------------------------------------------------------
  // The ID invariant across requests

  /** One request, as the router hands it to a handler. */
  datatype Request =
    | ListAll
    | Get(id: Parsed<int64>)
    | Post(payload: Parsed<Book>)
    | Put(id: Parsed<int64>, payload: Parsed<Book>)
    | Delete(id: Parsed<int64>)

  /** The store after handling `req`. */
  function Apply(s: seq<Book>, req: Request): seq<Book> {
    match req
    case ListAll => s
    case Get(_) => s
    case Post(p) => CreateBook(s, p).books
    case Put(id, p) => UpdateBookById(s, id, p).books
    case Delete(id) => DeleteBook(s, id).books
  }

  /** The store after handling `reqs` one at a time, in order. */
  function Replay(s: seq<Book>, reqs: seq<Request>): seq<Book>
    decreases |reqs|
  {
    if reqs == [] then s else Replay(Apply(s, reqs[0]), reqs[1..])
  }

  /** Every live ID is at most `m`. */
  ghost predicate IdsAtMost(s: seq<Book>, m: int) {
    forall i :: 0 <= i < |s| ==> s[i].ID as int <= m
  }

  /**
   * One request keeps IDs strictly increasing, provided no ID has reached
   * MaxInt64, and raises the largest ID by at most one.
   */
  lemma ApplyKeepsIncreasing(s: seq<Book>, req: Request, m: int)
    requires StrictlyIncreasing(s) && IdsAtMost(s, m) && m < MaxInt64 as int
    ensures StrictlyIncreasing(Apply(s, req))
    ensures IdsAtMost(Apply(s, req), m + 1)
  {
    match req
    case ListAll =>
    case Get(_) =>
    case Post(p) =>
      CreateBookRefusals(s, p);
      if CreateBook(s, p).reply.Status() == StatusCreated {
        CreateBookSuccess(s, p);
        assert Apply(s, req) == Created(s, p.value);
        CreatedKeepsIncreasing(s, p.value);
      }
    case Put(id, p) =>
      if UpdateBookById(s, id, p).books != s {
        var k := IndexOf(s, id.value);
        assert Apply(s, req) == s[k := Patch(s[k], p.value)];
        PatchedKeepsIncreasing(s, k, p.value);
      }
    case Delete(id) =>
      if DeleteBook(s, id).books != s {
        var k := IndexOf(s, id.value);
        assert Apply(s, req) == Removed(s, k);
        RemovedKeepsIncreasing(s, k);
      }
  }

  /**
   * Any run of requests from a store with increasing IDs keeps them
   * increasing, as long as the run is too short to push an ID past
   * MaxInt64.
   */
  lemma {:induction false} ReplayKeepsIncreasing(s: seq<Book>, reqs: seq<Request>, m: int)
    requires StrictlyIncreasing(s) && IdsAtMost(s, m)
    requires m + |reqs| <= MaxInt64 as int
    ensures StrictlyIncreasing(Replay(s, reqs)) && UniqueIds(Replay(s, reqs))
    ensures IdsAtMost(Replay(s, reqs), m + |reqs|)
    decreases |reqs|
  {
    if reqs == [] {
      IncreasingIdsAreUnique(s);
    } else {
      ApplyKeepsIncreasing(s, reqs[0], m);
      ReplayKeepsIncreasing(Apply(s, reqs[0]), reqs[1..], m + 1);
    }
  }

  /**
   * From the seed, every run of at most MaxInt64 - 3 requests leaves
   * live IDs strictly increasing in store order, hence unique; below that
   * bound the next automatic ID is none of the live ones.
   */
  lemma SeedRunsKeepIdsUnique(reqs: seq<Request>)
    requires |reqs| <= MaxInt64 as int - 3
    ensures StrictlyIncreasing(Replay(Seed(), reqs)) && UniqueIds(Replay(Seed(), reqs))
    ensures var r := Replay(Seed(), reqs);
      |reqs| < MaxInt64 as int - 3 && |r| > 0 ==> forall i :: 0 <= i < |r| ==> r[i].ID != NextId(r)
  {
    ReplayKeepsIncreasing(Seed(), reqs, 3);
    var r := Replay(Seed(), reqs);
    if |reqs| < MaxInt64 as int - 3 && |r| > 0 {
      LastHoldsMaxId(r);
    }
  }

  /**
   * Without the bound the invariant fails: a create after a record with ID
   * MaxInt64 hands out MinInt64, smaller than every live ID.
   */
  lemma CreateAfterMaxIdWraps(s: seq<Book>, b: Book)
    requires |s| > 0 && s[|s| - 1].ID == MaxInt64
    requires Validate(b).None? && !TitleTaken(s, b.Title)
    ensures CreateBook(s, Parsed(b)).reply == Ok(StatusCreated, b.(ID := MinInt64))
    ensures !StrictlyIncreasing(CreateBook(s, Parsed(b)).books)
  {
    var t := CreateBook(s, Parsed(b)).books;
    assert t[|s| - 1].ID == MaxInt64 && t[|s|].ID == MinInt64;
  }

  // ---------------------------------------------------------------------
  // Create and delete are inverse

  /**
   * On a store with increasing IDs, deleting the record a create has just
   * added answers with that record and gives back the store as it was.
   */
  lemma CreateThenDeleteRestores(s: seq<Book>, payload: Parsed<Book>)
    requires StrictlyIncreasing(s) && RoomForNextId(s)
    requires CreateBook(s, payload).reply.Status() == StatusCreated
    ensures var c := CreateBook(s, payload);
      DeleteBook(c.books, Parsed(c.reply.book.ID)) == Step(Deleted(c.reply.book), s)
  {
    CreateBookSuccess(s, payload);
    var t := Created(s, payload.value);
    CreatedIsFound(s, payload.value);
    assert Removed(t, |s|) == s;
  }
}
