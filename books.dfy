/**
 * The book record and the pure operations on the ordered record store of
 * main.go: validation of a new record, the duplicate-title and by-ID
 * searches, and the three ways the store is changed (append with an
 * automatic ID, a one-field update, removal by index), together with the
 * store-wide invariant that IDs are strictly increasing in store order.
 */
module Books {
  import opened Wrappers
  import opened Text

  /** Go's `int` on a 64-bit platform. */
  newtype int64 = x: int | -0x8000_0000_0000_0000 <= x < 0x8000_0000_0000_0000

  const MinInt64: int64 := -0x8000_0000_0000_0000
  const MaxInt64: int64 := 0x7fff_ffff_ffff_ffff

  /** One record of the store. */
  datatype Book = Book(ID: int64, Title: string, Author: string, Quantity: int64)

  /** The three records the store holds when the process starts. */
  function Seed(): (s: seq<Book>)
    ensures |s| == 3 && StrictlyIncreasing(s)
    ensures forall i :: 0 <= i < |s| ==> s[i].ID as int == i + 1
  {
    [ Book(1, "In Search of Lost Time", "Marcel Proust", 2),
      Book(2, "Fundamentos da Matemática Elementar - 3", "Iezzy", 5),
      Book(3, "War and Peace", "Leo Tolstoy", 6) ]
  }

  // ---------------------------------------------------------------------
  // Validation of a new record

  /** The checks a new record must pass, in the order they are made. */
  datatype Invalid = IdSupplied | MissingTitle | MissingAuthor | MissingQuantity {
    /** Position of the check in the chain. */
    function Rank(): nat {
      match this
      case IdSupplied => 0
      case MissingTitle => 1
      case MissingAuthor => 2
      case MissingQuantity => 3
    }

    /** The error text the handler sends back. */
    function Message(): string {
      match this
      case IdSupplied => "the ID field is autoincremented"
      case MissingTitle => "missing title"
      case MissingAuthor => "missing author name"
      case MissingQuantity => "missing quantity"
    }
  }

  /** Whether `b` breaks the rule behind `e`, independently of every other rule. */
  predicate Violates(b: Book, e: Invalid) {
    match e
    case IdSupplied => b.ID != 0
    case MissingTitle => IsBlank(b.Title)
    case MissingAuthor => IsBlank(b.Author)
    case MissingQuantity => b.Quantity == 0
  }

  /**
   * isValidNewBook: None when every rule holds; otherwise the first rule,
   * in check order, that `b` breaks.
   */
  function Validate(b: Book): (r: Option<Invalid>)
    ensures r.None? ==> forall e :: !Violates(b, e)
    ensures r.Some? ==> Violates(b, r.value)
    ensures r.Some? ==> forall e :: Violates(b, e) ==> r.value.Rank() <= e.Rank()
  {
    if b.ID != 0 then Some(IdSupplied)
    else if IsBlank(b.Title) then Some(MissingTitle)
    else if IsBlank(b.Author) then Some(MissingAuthor)
    else if b.Quantity == 0 then Some(MissingQuantity)
    else None
  }

  // ---------------------------------------------------------------------
  // Searches

  /** isBookAlreadyExists: a stored title equals `title` up to case. */
  predicate TitleTaken(s: seq<Book>, title: string) {
    s != [] && (TitleTaken(s[..|s| - 1], title) || EqualFold(s[|s| - 1].Title, title))
  }

  /** A title is taken exactly when some record's title matches it up to case. */
  lemma {:induction false} TitleTakenIffSomeMatch(s: seq<Book>, title: string)
    ensures TitleTaken(s, title) <==> exists i :: 0 <= i < |s| && EqualFold(s[i].Title, title)
  {
    if s != [] {
      var init := s[..|s| - 1];
      TitleTakenIffSomeMatch(init, title);
      if TitleTaken(init, title) {
        var i :| 0 <= i < |init| && EqualFold(init[i].Title, title);
        assert s[i] == init[i];
      }
      if exists i :: 0 <= i < |s| && EqualFold(s[i].Title, title) {
        var i :| 0 <= i < |s| && EqualFold(s[i].Title, title);
        if i < |init| {
          assert init[i] == s[i];
        }
      }
    }
  }

  /** A title taken in a prefix of the store is taken in the whole store. */
  lemma {:induction false} TitleTakenInPrefix(s: seq<Book>, n: nat, title: string)
    requires n <= |s| && TitleTaken(s[..n], title)
    ensures TitleTaken(s, title)
    decreases |s| - n
  {
    if n < |s| {
      assert s[..n + 1][..n] == s[..n];
      TitleTakenInPrefix(s, n + 1, title);
    } else {
      assert s[..n] == s;
    }
  }

  /** getBookById's index: the first position holding `id`, or -1 when there is none. */
  function IndexOf(s: seq<Book>, id: int64): (r: int)
    ensures -1 <= r < |s|
    ensures r == -1 <==> forall j :: 0 <= j < |s| ==> s[j].ID != id
    ensures r >= 0 ==> s[r].ID == id && forall j :: 0 <= j < r ==> s[j].ID != id
  {
    if s == [] then -1
    else if s[0].ID == id then 0
    else
      var k := IndexOf(s[1..], id);
      if k == -1 then -1 else k + 1
  }

  // ---------------------------------------------------------------------
  // Changes to the store

  /** Go's `x + 1` on a 64-bit int: MaxInt64 wraps round to MinInt64. */
  function Inc64(x: int64): int64 {
    if x == MaxInt64 then MinInt64 else x + 1
  }

  /** The ID createBook gives a new record: the last record's ID plus one. */
  function NextId(s: seq<Book>): int64
    requires |s| > 0
  {
    Inc64(s[|s| - 1].ID)
  }

  /** The store after createBook appends `b` under the automatic ID. */
  function Created(s: seq<Book>, b: Book): (r: seq<Book>)
    requires |s| > 0
    ensures |r| == |s| + 1 && r[..|s|] == s
    ensures r[|s|] == Book(NextId(s), b.Title, b.Author, b.Quantity)
  {
    s + [b.(ID := NextId(s))]
  }

  /**
   * updateBookById's priority chain applied to `b` with payload `p`: a
   * non-blank title replaces the title; otherwise a non-blank author
   * causes the author to be overwritten with the payload's title;
   * otherwise a non-negative quantity replaces the quantity.
   */
  function Patch(b: Book, p: Book): (r: Book)
    ensures r.ID == b.ID
  {
    if !IsBlank(p.Title) then b.(Title := p.Title)
    else if !IsBlank(p.Author) then b.(Author := p.Title)
    else if p.Quantity >= 0 then b.(Quantity := p.Quantity)
    else b
  }

  /** removeBook: the store without position `i`, the others in their old order. */
  function Removed(s: seq<Book>, i: int): (r: seq<Book>)
    requires 0 <= i < |s|
    ensures |r| == |s| - 1
    ensures forall j :: 0 <= j < i ==> r[j] == s[j]
    ensures forall j :: i <= j < |r| ==> r[j] == s[j + 1]
  {
    s[..i] + s[i + 1..]
  }

  // ---------------------------------------------------------------------
  // The ID invariant

  /** IDs grow strictly along the store order. */
  ghost predicate StrictlyIncreasing(s: seq<Book>) {
    forall i, j :: 0 <= i < j < |s| ==> s[i].ID < s[j].ID
  }

  /** No two live records share an ID. */
  ghost predicate UniqueIds(s: seq<Book>) {
    forall i, j :: 0 <= i < |s| && 0 <= j < |s| && i != j ==> s[i].ID != s[j].ID
  }

  /** The last ID is not MaxInt64, so the next automatic ID does not wrap. */
  ghost predicate RoomForNextId(s: seq<Book>) {
    |s| == 0 || s[|s| - 1].ID < MaxInt64
  }

  lemma IncreasingIdsAreUnique(s: seq<Book>)
    requires StrictlyIncreasing(s)
    ensures UniqueIds(s)
  {
  }

  /**
   * The last record holds the largest ID, so, while the last ID is below
   * MaxInt64, "last ID + 1" is "largest ID + 1".
   */
  lemma LastHoldsMaxId(s: seq<Book>)
    requires StrictlyIncreasing(s) && |s| > 0
    ensures forall i :: 0 <= i < |s| ==> s[i].ID <= s[|s| - 1].ID
    ensures RoomForNextId(s) ==> NextId(s) as int == s[|s| - 1].ID as int + 1
    ensures RoomForNextId(s) ==> forall i :: 0 <= i < |s| ==> s[i].ID < NextId(s)
  {
  }

  lemma CreatedKeepsIncreasing(s: seq<Book>, b: Book)
    requires |s| > 0 && StrictlyIncreasing(s) && RoomForNextId(s)
    ensures StrictlyIncreasing(Created(s, b))
  {
    LastHoldsMaxId(s);
  }

  lemma RemovedKeepsIncreasing(s: seq<Book>, i: int)
    requires 0 <= i < |s| && StrictlyIncreasing(s)
    ensures StrictlyIncreasing(Removed(s, i))
  {
  }

  lemma PatchedKeepsIncreasing(s: seq<Book>, i: int, p: Book)
    requires 0 <= i < |s| && StrictlyIncreasing(s)
    ensures StrictlyIncreasing(s[i := Patch(s[i], p)])
  {
    var t := s[i := Patch(s[i], p)];
    assert forall j :: 0 <= j < |s| ==> t[j].ID == s[j].ID;
  }

  /**
   * An update changes at most one field of the record and never its ID;
   * which one is fixed by the payload's fields in priority order.
   */
  lemma PatchChangesAtMostOneField(b: Book, p: Book)
    ensures Patch(b, p).ID == b.ID
    ensures !IsBlank(p.Title) ==> Patch(b, p) == b.(Title := p.Title)
    ensures IsBlank(p.Title) && !IsBlank(p.Author) ==> Patch(b, p) == b.(Author := p.Title)
    ensures IsBlank(p.Title) && IsBlank(p.Author) && p.Quantity >= 0 ==> Patch(b, p) == b.(Quantity := p.Quantity)
    ensures IsBlank(p.Title) && IsBlank(p.Author) && p.Quantity < 0 ==> Patch(b, p) == b
  {
  }

  /**
   * The author branch stores the payload's title, which is blank whenever
   * that branch is taken: a request that names only an author leaves the
   * record with a blank author.
   */
  lemma AuthorBranchBlanksAuthor(b: Book, p: Book)
    requires IsBlank(p.Title) && !IsBlank(p.Author)
    ensures IsBlank(Patch(b, p).Author)
    ensures Patch(b, p).Author != p.Author
  {
    BlankIffAllSpace(p.Title);
    BlankIffAllSpace(p.Author);
  }

  /** Once record `i` is removed from a store with unique IDs, its ID is no longer found. */
  lemma RemovedIdNotFound(s: seq<Book>, i: int)
    requires 0 <= i < |s| && UniqueIds(s)
    ensures IndexOf(Removed(s, i), s[i].ID) == -1
  {
  }

  /** The record a create appends is the one found under the new ID. */
  lemma CreatedIsFound(s: seq<Book>, b: Book)
    requires |s| > 0 && StrictlyIncreasing(s) && RoomForNextId(s)
    ensures IndexOf(Created(s, b), NextId(s)) == |s|
  {
    LastHoldsMaxId(s);
  }

  /** An update keeps every lookup by ID where it was. */
  lemma PatchedKeepsIndexOf(s: seq<Book>, i: int, p: Book, id: int64)
    requires 0 <= i < |s|
    ensures IndexOf(s[i := Patch(s[i], p)], id) == IndexOf(s, id)
  {
    var t := s[i := Patch(s[i], p)];
    assert forall j :: 0 <= j < |s| ==> t[j].ID == s[j].ID;
  }

  /**
   * With strictly increasing IDs, removing a record lowers the next
   * automatic ID exactly when the removed record was the last one: only
   * then can a later create reissue an ID, and the highest it reissues is
   * the removed one.
   */
  lemma NextIdDropsOnlyAfterLastRemoved(s: seq<Book>, i: int)
    requires 1 < |s| && 0 <= i < |s|
    requires StrictlyIncreasing(s) && RoomForNextId(s)
    ensures NextId(Removed(s, i)) < NextId(s) <==> i == |s| - 1
    ensures i == |s| - 1 ==> NextId(Removed(s, i)) <= s[i].ID
  {
    var r := Removed(s, i);
    if i == |s| - 1 {
      assert r[|r| - 1] == s[|s| - 2];
    } else {
      assert r[|r| - 1] == s[|s| - 1];
    }
  }
}
