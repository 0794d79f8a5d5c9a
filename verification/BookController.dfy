/**
 * Registration and queries of books. The three kinds of book (printed,
 * digital, audio) share one chain of checks on the common fields; each kind
 * then checks its own fields. Queries filter the stored books, which the
 * repository keeps in ISBN order, and pick the authors with the largest
 * stored count of distinct publishers.
 */
module BookController {
  import opened Common
  import opened Text
  import opened Numbers
  import opened Keys
  import opened Lists
  import opened Patterns
  import opened Repository
  import opened Entities

  /** The fields every kind of book shares, as the common checks hand them over. */
  datatype BookData = BookData(
    title: string,
    authors: seq<Person>,
    isbn: string,
    genre: string,
    format: string,
    value: Double,
    publisher: PublisherView)

  /** The book of a given kind built from the shared fields. */
  function MakeBook(d: BookData, v: Variant): (b: Book)
    ensures b.isbn == d.isbn && b.variant == v
  {
    Book(d.title, d.authors, d.isbn, d.genre, d.format, d.value, d.publisher, v)
  }

  /**
   * `Integer.parseInt(t.trim())`; a null `t` fails like malformed text, as
   * the source catches every exception there.
   */
  function ParseCount(t: Option<string>): (r: Option<int>)
    ensures t.None? ==> r.None?
    ensures r.Some? ==> INT_MIN <= r.value <= INT_MAX
  {
    if t.None? then None else ParseInt(Trim(t.value))
  }

  /** The text parses as an `int` greater than zero. */
  predicate PositiveCount(t: Option<string>)
  {
    ParseCount(t).Some? && ParseCount(t).value > 0
  }

  /** The status of a chain of checks: the first that failed, or Ok when none did. */
  function FirstFailure(statuses: seq<Status>): (r: Status)
    ensures r == Ok <==> forall k :: 0 <= k < |statuses| ==> statuses[k] == Ok
    ensures r != Ok ==> exists k :: 0 <= k < |statuses| && statuses[k] == r
                                    && forall j :: 0 <= j < k ==> statuses[j] == Ok
  {
    if statuses == [] then Ok
    else if statuses[0] != Ok then statuses[0]
    else FirstFailure(statuses[1..])
  }

  lemma FirstFailureOfTwo(x: Status, y: Status)
    ensures FirstFailure([x, y]) == if x != Ok then x else y
  {
    assert [x, y][1..] == [y];
    assert [y][1..] == [];
  }

  lemma FirstFailureOfThree(x: Status, y: Status, z: Status)
    ensures FirstFailure([x, y, z]) == if x != Ok then x else if y != Ok then y else z
  {
    assert [x, y, z][1..] == [y, z];
    FirstFailureOfTwo(y, z);
  }

  lemma FirstFailureOfFour(w: Status, x: Status, y: Status, z: Status)
    ensures FirstFailure([w, x, y, z]) == if w != Ok then w else if x != Ok then x else if y != Ok then y else z
  {
    assert [w, x, y, z][1..] == [x, y, z];
    FirstFailureOfThree(x, y, z);
  }

  /** Pages and copies: both `int`s above zero, else BadRequest. */
  function CountStatus(pagesText: Option<string>, copiesText: Option<string>): Status
  {
    if PositiveCount(pagesText) && PositiveCount(copiesText) then Ok else BadRequest
  }

  /** The duration: an `int` above zero, else BadRequest. */
  function DurationStatus(durationText: Option<string>): Status
  {
    if PositiveCount(durationText) then Ok else BadRequest
  }

  /**
   * What a digital book keeps of the hyperlink argument: nothing when null
   * or blank, else the trimmed text, which neither starts nor ends with a
   * character `trim` drops.
   */
  function Hyperlink(h: Option<string>): (r: Option<string>)
    ensures r.None? <==> Missing(h)
    ensures r.Some? ==> r.value == [] || (!IsSpace(r.value[0]) && !IsSpace(r.value[|r.value| - 1]))
    ensures r.Some? ==> Trim(r.value) == r.value && Trim(h.value) == r.value
  {
    if Missing(h) then None
    else
      TrimIdempotent(h.value);
      Some(Trim(h.value))
  }

  /** A hyperlink made of one control character is not blank, so it is kept, trimmed to the empty text. */
  lemma HyperlinkOfControl()
    ensures Hyperlink(Some("\U{1}")) == Some("")
  {
    BlankAndTrim("\U{1}");
  }

  /* Queries over the stored books. */

  const PRINTED_BOOKS: string := "Libros Impresos"
  const DIGITAL_BOOKS: string := "Libros Digitales"
  const AUDIOBOOKS: string := "Audiolibros"
  const ALL_BOOKS: string := "Todos los Libros"

  /** The three filters: by kind label, by author id, by format. */
  datatype Query = OfType(kind: Option<string>) | ByAuthor(authorId: int) | OfFormat(format: string)

  /** Does the filter keep this book? */
  predicate Selects(q: Query, b: Book)
  {
    match q
    case OfType(kind) =>
      || (kind == Some(PRINTED_BOOKS) && b.variant.Printed?)
      || (kind == Some(DIGITAL_BOOKS) && b.variant.Digital?)
      || (kind == Some(AUDIOBOOKS) && b.variant.Audio?)
      || kind == Some(ALL_BOOKS)
    case ByAuthor(id) => exists k | 0 <= k < |b.authors| :: b.authors[k].id == id
    case OfFormat(f) => b.format == f
  }

  /** The books the filter keeps, in their order. */
  function Select(bs: seq<Book>, q: Query): (r: seq<Book>)
    ensures |r| <= |bs|
  {
    if bs == [] then []
    else Select(bs[..|bs| - 1], q) + (if Selects(q, bs[|bs| - 1]) then [bs[|bs| - 1]] else [])
  }

  /** Filtering keeps order: it distributes over concatenation. */
  lemma {:induction false} SelectAppend(a: seq<Book>, b: seq<Book>, q: Query)
    ensures Select(a + b, q) == Select(a, q) + Select(b, q)
  {
    if b == [] {
      assert a + b == a;
    } else {
      var init := b[..|b| - 1];
      assert (a + b)[..|a + b| - 1] == a + init;
      SelectAppend(a, init, q);
    }
  }

  /** A kept book occurs as often as in the input, a dropped one not at all. */
  lemma {:induction false} SelectCount(bs: seq<Book>, q: Query, x: Book)
    ensures multiset(Select(bs, q))[x] == if Selects(q, x) then multiset(bs)[x] else 0
  {
    if bs != [] {
      var init := bs[..|bs| - 1];
      SelectCount(init, q, x);
      assert bs == init + [bs[|bs| - 1]];
    }
  }

  /** A book is in the result exactly when it is stored and the filter keeps it. */
  lemma SelectMember(bs: seq<Book>, q: Query, x: Book)
    ensures x in Select(bs, q) <==> x in bs && Selects(q, x)
  {
    SelectCount(bs, q, x);
    assert x in Select(bs, q) <==> multiset(Select(bs, q))[x] > 0;
    assert x in bs <==> multiset(bs)[x] > 0;
  }

  /** "Todos los Libros" keeps every book. */
  lemma {:induction false} SelectAllBooks(bs: seq<Book>)
    ensures Select(bs, OfType(Some(ALL_BOOKS))) == bs
  {
    if bs != [] {
      SelectAllBooks(bs[..|bs| - 1]);
      assert bs[..|bs| - 1] + [bs[|bs| - 1]] == bs;
    }
  }

  /** A kind that is none of the four keeps no book. */
  lemma {:induction false} SelectUnknownLabel(bs: seq<Book>, kind: Option<string>)
    requires kind !in {Some(PRINTED_BOOKS), Some(DIGITAL_BOOKS), Some(AUDIOBOOKS), Some(ALL_BOOKS)}
    ensures Select(bs, OfType(kind)) == []
  {
    if bs != [] {
      SelectUnknownLabel(bs[..|bs| - 1], kind);
    }
  }

  /* The authors with the most distinct publishers. */

  /**
   * The largest stored publisher count, starting from -1 as the search
   * does: -1 when there are no authors or all counts are below -1.
   */
  function Peak(list: seq<Author>): (m: int)
    ensures m >= -1
    ensures forall k :: 0 <= k < |list| ==> list[k].publisherQuantity <= m
    ensures m > -1 ==> exists k :: 0 <= k < |list| && list[k].publisherQuantity == m
  {
    if list == [] then -1
    else
      var m := Peak(list[..|list| - 1]);
      var q := list[|list| - 1].publisherQuantity;
      if q > m then q else m
  }

  /** The authors whose stored publisher count is `q`, in their order. */
  function WithQuantity(list: seq<Author>, q: int): (r: seq<Author>)
    ensures |r| <= |list|
    ensures forall k :: 0 <= k < |r| ==> r[k].publisherQuantity == q
  {
    if list == [] then []
    else
      WithQuantity(list[..|list| - 1], q)
      + (if list[|list| - 1].publisherQuantity == q then [list[|list| - 1]] else [])
  }

  /** One more author: the search's step on the count and on the selection. */
  lemma SearchStep(list: seq<Author>, i: nat, q: int)
    requires i < |list|
    ensures var p := list[i].publisherQuantity;
            Peak(list[..i + 1]) == if p > Peak(list[..i]) then p else Peak(list[..i])
    ensures WithQuantity(list[..i + 1], q) ==
              WithQuantity(list[..i], q) + (if list[i].publisherQuantity == q then [list[i]] else [])
  {
    assert list[..i + 1][..i] == list[..i];
  }

  /** An author is selected exactly when it is in the list with that count. */
  lemma {:induction false} WithQuantityMember(list: seq<Author>, q: int, a: Author)
    ensures a in WithQuantity(list, q) <==> a in list && a.publisherQuantity == q
  {
    if list != [] {
      var init := list[..|list| - 1];
      WithQuantityMember(init, q, a);
      assert list == init + [list[|list| - 1]];
    }
  }

  /** No author has the count: nothing is selected. */
  lemma {:induction false} WithQuantityAbsent(list: seq<Author>, q: int)
    requires forall k :: 0 <= k < |list| ==> list[k].publisherQuantity != q
    ensures WithQuantity(list, q) == []
  {
    if list != [] {
      WithQuantityAbsent(list[..|list| - 1], q);
    }
  }

  /** Selecting from a list in id order gives a list in id order. */
  lemma {:induction false} WithQuantitySorted(list: seq<Author>, q: int)
    requires Sorted(AuthorKey, list)
    ensures Sorted(AuthorKey, WithQuantity(list, q))
  {
    if list != [] {
      var init, last := list[..|list| - 1], list[|list| - 1];
      WithQuantitySorted(init, q);
      var w := WithQuantity(init, q);
      if last.publisherQuantity == q {
        forall i | 0 <= i < |w|
          ensures KeyLe(AuthorKey(w[i]), AuthorKey(last))
        {
          WithQuantityMember(init, q, w[i]);
          var k :| 0 <= k < |init| && init[k] == w[i];
          assert list[k] == w[i];
        }
      }
    }
  }

  /**
   * With at least one author and no count below zero, some author is
   * selected, and every selected author's count is at least every author's.
   */
  lemma MostPublishersFound(list: seq<Author>)
    requires |list| > 0
    requires forall k :: 0 <= k < |list| ==> list[k].publisherQuantity >= 0
    ensures |WithQuantity(list, Peak(list))| > 0
    ensures forall a, k :: a in WithQuantity(list, Peak(list)) && 0 <= k < |list| ==>
              list[k].publisherQuantity <= a.publisherQuantity
  {
    var m := Peak(list);
    assert list[0].publisherQuantity <= m;
    var k :| 0 <= k < |list| && list[k].publisherQuantity == m;
    WithQuantityMember(list, m, list[k]);
  }

  /**
   * The search loop: the count starts at -1; a larger count starts a new
   * list, an equal one joins it.
   */
  method MostPublishers(all: seq<Author>) returns (maxAuthors: seq<Author>)
    ensures maxAuthors == WithQuantity(all, Peak(all))
  {
    var maxPublishers := -1;
    maxAuthors := [];
    for i := 0 to |all|
      invariant maxPublishers == Peak(all[..i])
      invariant maxAuthors == WithQuantity(all[..i], maxPublishers)
    {
      var author := all[i];
      if author.publisherQuantity > maxPublishers {
        SearchStep(all, i, author.publisherQuantity);
        WithQuantityAbsent(all[..i], author.publisherQuantity);
        maxPublishers := author.publisherQuantity;
        maxAuthors := [author];
      } else {
        SearchStep(all, i, maxPublishers);
        if author.publisherQuantity == maxPublishers {
          maxAuthors := maxAuthors + [author];
        }
      }
    }
    assert all[..|all|] == all;
  }

  /** The copies handed out: `new Author(id, firstname, lastname)` for each author, in order. */
  method CopyAuthors(list: seq<Author>) returns (clones: seq<Person>)
    ensures |clones| == |list|
    ensures forall k :: 0 <= k < |list| ==> clones[k] == AuthorClone(list[k])
  {
    clones := [];
    for i := 0 to |list|
      invariant |clones| == i
      invariant forall k :: 0 <= k < i ==> clones[k] == AuthorClone(list[k])
    {
      var a := list[i];
      clones := clones + [Person(a.id, a.firstname, a.lastname)];
    }
  }

  class BookController {
    const books: Repository<Book>
    const authors: Repository<Author>
    const publishers: Repository<Publisher>
    const narrators: Repository<Person>
    /** The notifications sent to observers, in order. */
    ghost var events: seq<string>

    ghost predicate Valid()
      reads this, books, authors, publishers, narrators
    {
      && books.keyOf == BookKey && authors.keyOf == AuthorKey
      && publishers.keyOf == PublisherKey && narrators.keyOf == PersonKey
      && books.Valid() && authors.Valid() && publishers.Valid() && narrators.Valid()
    }

    constructor (books: Repository<Book>, authors: Repository<Author>, publishers: Repository<Publisher>,
                 narrators: Repository<Person>)
      requires books.keyOf == BookKey && authors.keyOf == AuthorKey
      requires publishers.keyOf == PublisherKey && narrators.keyOf == PersonKey
      requires books.Valid() && authors.Valid() && publishers.Valid() && narrators.Valid()
      ensures Valid() && events == []
      ensures this.books == books && this.authors == authors
      ensures this.publishers == publishers && this.narrators == narrators
    {
      this.books := books;
      this.authors := authors;
      this.publishers := publishers;
      this.narrators := narrators;
      events := [];
    }

    /** Does a stored book have this ISBN? */
    ghost predicate BookHeld(isbn: string)
      reads this, books
    {
      exists i :: 0 <= i < |books.data| && books.data[i].isbn == isbn
    }

    /** Does a stored publisher have this NIT? */
    ghost predicate PublisherHeld(nit: string)
      reads this, publishers
    {
      exists i :: 0 <= i < |publishers.data| && publishers.data[i].nit == nit
    }

    /** Does a stored narrator have this id? */
    ghost predicate NarratorHeld(id: int)
      reads this, narrators
    {
      exists i :: 0 <= i < |narrators.data| && narrators.data[i].id == id
    }

    /** Does a stored author have this id? */
    ghost predicate AuthorHeld(id: int)
      reads this, authors
    {
      exists i :: 0 <= i < |authors.data| && authors.data[i].id == id
    }

    /** Every id in the list names a stored author. */
    ghost predicate AllAuthorsHeld(ids: seq<int>)
      reads this, authors
    {
      forall k :: 0 <= k < |ids| ==> AuthorHeld(ids[k])
    }

    /**
     * One turn of the author loop: a null id is skipped; an id already
     * resolved is BadRequest, an id no author has is NotFound; otherwise a
     * copy of the author is appended. A failure stays.
     */
    function ResolveNext(prior: Response<seq<Person>>, next: Option<int>): Response<seq<Person>>
      reads this, authors
    {
      if prior.status != Ok || prior.data.None? || next.None? then prior
      else if next.value in Ids(PersonId, prior.data.value) then Fail(BadRequest)
      else
        match authors.FindById(Num(next.value))
        case None => Fail(NotFound)
        case Some(a) => Response(Ok, Some(prior.data.value + [AuthorClone(a)]))
    }

    /**
     * The author loop of the common checks, run over the submitted ids in
     * order; the first failure stops it.
     */
    function ResolveAuthors(ids: seq<Option<int>>): (r: Response<seq<Person>>)
      requires Valid()
      reads this, books, authors, publishers, narrators
      ensures r.status in {Ok, BadRequest, NotFound}
      ensures r.status == Ok <==> r.data.Some?
    {
      if ids == [] then Response(Ok, Some([]))
      else ResolveNext(ResolveAuthors(ids[..|ids| - 1]), ids[|ids| - 1])
    }

    /** The resolved authors carry exactly the non-null submitted ids, in submission order. */
    lemma {:induction false} ResolveAuthorsIds(ids: seq<Option<int>>)
      requires Valid()
      ensures var r := ResolveAuthors(ids);
              r.status == Ok ==> Ids(PersonId, r.data.value) == Present(ids)
    {
      if ids != [] {
        var init, last := ids[..|ids| - 1], ids[|ids| - 1];
        ResolveAuthorsIds(init);
        var prior, r := ResolveAuthors(init), ResolveAuthors(ids);
        if r.status == Ok && last.Some? {
          var a := authors.FindById(Num(last.value)).value;
          assert a.id == last.value;
          var found := r.data.value;
          assert found == prior.data.value + [AuthorClone(a)];
          assert found[..|found| - 1] == prior.data.value;
        }
      }
    }

    /** Each resolved author is a copy of the stored author with its id. */
    lemma {:induction false} ResolveAuthorsStored(ids: seq<Option<int>>)
      requires Valid()
      ensures var r := ResolveAuthors(ids);
              r.status == Ok ==> forall k :: 0 <= k < |r.data.value| ==>
                && authors.FindById(Num(r.data.value[k].id)).Some?
                && AuthorClone(authors.FindById(Num(r.data.value[k].id)).value) == r.data.value[k]
    {
      if ids != [] {
        var init, last := ids[..|ids| - 1], ids[|ids| - 1];
        ResolveAuthorsStored(init);
        var prior, r := ResolveAuthors(init), ResolveAuthors(ids);
        if r.status == Ok && last.Some? {
          var a := authors.FindById(Num(last.value)).value;
          assert a.id == last.value;
          assert r.data.value == prior.data.value + [AuthorClone(a)];
        }
      }
    }

    /**
     * The author loop succeeds exactly when the non-null ids are pairwise
     * distinct and all name stored authors; a BadRequest means a repeated
     * id, a NotFound an unknown one.
     */
    lemma {:induction false} ResolveAuthorsStatus(ids: seq<Option<int>>)
      requires Valid()
      ensures ResolveAuthors(ids).status == Ok <==> Distinct(Present(ids)) && AllAuthorsHeld(Present(ids))
      ensures ResolveAuthors(ids).status == BadRequest ==> !Distinct(Present(ids))
      ensures ResolveAuthors(ids).status == NotFound ==> !AllAuthorsHeld(Present(ids))
    {
      if ids != [] {
        var init := ids[..|ids| - 1];
        ResolveAuthorsStatus(init);
        ResolveAuthorsIds(init);
        var p := Present(init);
        var prior := ResolveAuthors(init);
        assert Present(ids)[..|p|] == p;
        if prior.status == Ok && ids[|ids| - 1].Some? {
          var id := ids[|ids| - 1].value;
          assert Present(ids) == p + [id];
          DistinctAppend(p, id);
        }
      }
    }

    /** Once a prefix of the ids fails, the whole list fails the same way. */
    lemma {:induction false} ResolveAuthorsFailureStays(ids: seq<Option<int>>, n: nat)
      requires Valid()
      requires n <= |ids| && ResolveAuthors(ids[..n]).status != Ok
      ensures ResolveAuthors(ids) == ResolveAuthors(ids[..n])
      decreases |ids|
    {
      if n == |ids| {
        assert ids[..n] == ids;
      } else {
        var init := ids[..|ids| - 1];
        assert init[..n] == ids[..n];
        ResolveAuthorsFailureStays(init, n);
      }
    }

    /** The inner scan of the author loop: has an author with this id been resolved already? */
    method AlreadyResolved(found: seq<Person>, id: int) returns (b: bool)
      ensures b <==> id in Ids(PersonId, found)
    {
      IdsMember(PersonId, found, id);
      for j := 0 to |found|
        invariant forall k :: 0 <= k < j ==> found[k].id != id
      {
        if found[j].id == id {
          return true;
        }
      }
      return false;
    }

    /** Resolving one more id extends the loop by one turn. */
    lemma ResolveAuthorsStep(ids: seq<Option<int>>, i: nat)
      requires Valid() && i < |ids|
      ensures ResolveAuthors(ids[..i + 1]) == ResolveNext(ResolveAuthors(ids[..i]), ids[i])
    {
      assert ids[..i + 1][..i] == ids[..i];
    }

    /** The author loop of the common checks. */
    method CollectAuthors(ids: seq<Option<int>>) returns (r: Response<seq<Person>>)
      requires Valid()
      ensures r == ResolveAuthors(ids)
    {
      var found: seq<Person> := [];
      for i := 0 to |ids|
        invariant ResolveAuthors(ids[..i]) == Response(Ok, Some(found))
      {
        ResolveAuthorsStep(ids, i);
        if ids[i].Some? {
          var id := ids[i].value;
          var repeated := AlreadyResolved(found, id);
          if repeated {
            ResolveAuthorsFailureStays(ids, i + 1);
            return Fail(BadRequest);
          }
          var author := authors.FindById(Num(id));
          if author.None? {
            ResolveAuthorsFailureStays(ids, i + 1);
            return Fail(NotFound);
          }
          found := found + [AuthorClone(author.value)];
        }
      }
      assert ids[..|ids|] == ids;
      r := Response(Ok, Some(found));
    }

    /** The first two checks and the author loop. */
    function AuthorsStage(title: Option<string>, authorIds: seq<Option<int>>): (r: Response<seq<Person>>)
      requires Valid()
      reads this, books, authors, publishers, narrators
      ensures r.status in {Ok, BadRequest, NotFound}
      ensures r.status == Ok <==> r.data.Some?
    {
      if Missing(title) || authorIds == [] then Fail(BadRequest) else ResolveAuthors(authorIds)
    }

    /**
     * A null or blank title or an empty id list is BadRequest; otherwise the
     * stage passes exactly when the non-null ids are distinct and stored,
     * and then hands over authors carrying exactly those ids, in order.
     */
    lemma AuthorsStageStatus(title: Option<string>, authorIds: seq<Option<int>>)
      requires Valid()
      ensures var r := AuthorsStage(title, authorIds);
              && (Missing(title) || authorIds == [] ==> r.status == BadRequest)
              && (r.status == Ok <==>
                    !Missing(title) && authorIds != [] && Distinct(Present(authorIds))
                    && AllAuthorsHeld(Present(authorIds)))
              && (r.status == NotFound ==> !AllAuthorsHeld(Present(authorIds)))
              && (r.status == Ok ==> Ids(PersonId, r.data.value) == Present(authorIds))
    {
      ResolveAuthorsStatus(authorIds);
      ResolveAuthorsIds(authorIds);
    }

    /** The ISBN checks: given, well formed once trimmed, and new. */
    function IsbnStage(isbnText: Option<string>): (r: Response<string>)
      requires Valid()
      reads this, books, authors, publishers, narrators
      ensures r.status in {Ok, BadRequest, Conflict}
      ensures r.status == Ok <==> r.data.Some?
      ensures r.status == Ok ==> IsIsbn(r.data.value) && !BookHeld(r.data.value)
    {
      if Missing(isbnText) then Fail(BadRequest)
      else
        var isbn := Trim(isbnText.value);
        if !IsIsbn(isbn) then Fail(BadRequest)
        else if books.FindById(Str(isbn)).Some? then Fail(Conflict)
        else Response(Ok, Some(isbn))
    }

    /**
     * The ISBN stage passes exactly when the ISBN is given, of the form
     * NNN-N-NN-NNNNNN-N once trimmed, and held by no stored book, and then
     * hands over the trimmed ISBN; it is Conflict exactly when a well-formed
     * ISBN is held already, and BadRequest otherwise.
     */
    lemma IsbnStageStatus(isbnText: Option<string>)
      requires Valid()
      ensures var r := IsbnStage(isbnText);
              && (r.status == Ok <==>
                    !Missing(isbnText) && IsIsbn(Trim(isbnText.value)) && !BookHeld(Trim(isbnText.value)))
              && (r.status == Conflict <==>
                    !Missing(isbnText) && IsIsbn(Trim(isbnText.value)) && BookHeld(Trim(isbnText.value)))
              && (r.status == Ok ==> r.data.value == Trim(isbnText.value))
    {
    }

    /** Genre and format given, and the value given and a number above zero. */
    static function DetailsStage(genre: Option<string>, format: Option<string>, valueText: Option<string>)
      : (r: Response<Double>)
      ensures r.status in {Ok, BadRequest}
      ensures r.status == Ok <==> r.data.Some?
      ensures r.status == Ok ==> !AtMostZero(r.data.value)
    {
      if Missing(genre) || Missing(format) || Missing(valueText) then Fail(BadRequest)
      else
        match ParseDouble(Trim(valueText.value))
        case None => Fail(BadRequest)
        case Some(value) => if AtMostZero(value) then Fail(BadRequest) else Response(Ok, Some(value))
    }

    /**
     * The details stage passes exactly when genre, format and value are
     * given and the trimmed value parses to a number above zero, and then
     * hands over that number.
     */
    static lemma DetailsStageStatus(genre: Option<string>, format: Option<string>, valueText: Option<string>)
      ensures var r := DetailsStage(genre, format, valueText);
              && (r.status == Ok <==>
                    && !Missing(genre) && !Missing(format) && !Missing(valueText)
                    && ParseDouble(Trim(valueText.value)).Some?
                    && !AtMostZero(ParseDouble(Trim(valueText.value)).value))
              && (r.status == Ok ==> r.data == ParseDouble(Trim(valueText.value)))
    {
    }

    /** The publisher checks: NIT given and, trimmed, the NIT of a stored publisher. */
    function PublisherStage(publisherNit: Option<string>): (r: Response<PublisherView>)
      requires Valid()
      reads this, books, authors, publishers, narrators
      ensures r.status in {Ok, BadRequest, NotFound}
      ensures r.status == Ok <==> r.data.Some?
    {
      if Missing(publisherNit) then Fail(BadRequest)
      else
        match publishers.FindById(Str(Trim(publisherNit.value)))
        case None => Fail(NotFound)
        case Some(p) => Response(Ok, Some(PublisherClone(p)))
    }

    /**
     * The publisher stage is BadRequest exactly when the NIT is missing and
     * NotFound exactly when no stored publisher has the trimmed NIT; on
     * success it hands over a copy of that publisher.
     */
    lemma PublisherStageStatus(publisherNit: Option<string>)
      requires Valid()
      ensures var r := PublisherStage(publisherNit);
              && (r.status == BadRequest <==> Missing(publisherNit))
              && (r.status == NotFound <==> !Missing(publisherNit) && !PublisherHeld(Trim(publisherNit.value)))
              && (r.status == Ok ==>
                    && publishers.FindById(Str(Trim(publisherNit.value))).Some?
                    && r.data.value == PublisherClone(publishers.FindById(Str(Trim(publisherNit.value))).value)
                    && r.data.value.nit == Trim(publisherNit.value))
    {
    }

    /** `validateCommonBookData`: the four stages in order; the first failure decides. */
    function CheckCommon(title: Option<string>, authorIds: seq<Option<int>>, isbnText: Option<string>,
                         genre: Option<string>, format: Option<string>, valueText: Option<string>,
                         publisherNit: Option<string>): (r: Response<BookData>)
      requires Valid()
      reads this, books, authors, publishers, narrators
      ensures r.status == Ok <==> r.data.Some?
      ensures r.status == Ok ==> IsIsbn(r.data.value.isbn) && !BookHeld(r.data.value.isbn)
    {
      var a := AuthorsStage(title, authorIds);
      if a.status != Ok then Fail(a.status)
      else
        var i := IsbnStage(isbnText);
        if i.status != Ok then Fail(i.status)
        else
          var d := DetailsStage(genre, format, valueText);
          if d.status != Ok then Fail(d.status)
          else
            var p := PublisherStage(publisherNit);
            if p.status != Ok then Fail(p.status)
            else
              Response(Ok, Some(BookData(Trim(title.value), a.data.value, i.data.value, Trim(genre.value),
                                         Trim(format.value), d.data.value, p.data.value)))
    }

    /**
     * The common checks run in order (title and authors, ISBN, genre,
     * format and value, publisher) and the first failure decides the
     * status. On success the shared fields are the trimmed title, genre and
     * format, the resolved authors, the checked ISBN, the value and the
     * publisher copy.
     */
    lemma CheckCommonOrder(title: Option<string>, authorIds: seq<Option<int>>, isbnText: Option<string>,
                           genre: Option<string>, format: Option<string>, valueText: Option<string>,
                           publisherNit: Option<string>)
      requires Valid()
      ensures var c := CheckCommon(title, authorIds, isbnText, genre, format, valueText, publisherNit);
              var a, i, d, p := AuthorsStage(title, authorIds), IsbnStage(isbnText),
                                DetailsStage(genre, format, valueText), PublisherStage(publisherNit);
              && c.status == FirstFailure([a.status, i.status, d.status, p.status])
              && (c.status == Ok ==>
                    && a.status == Ok && i.status == Ok && d.status == Ok && p.status == Ok
                    && !Missing(title) && !Missing(genre) && !Missing(format)
                    && c.data.value == BookData(Trim(title.value), a.data.value, i.data.value, Trim(genre.value),
                                                Trim(format.value), d.data.value, p.data.value))
    {
      FirstFailureOfFour(AuthorsStage(title, authorIds).status, IsbnStage(isbnText).status,
                         DetailsStage(genre, format, valueText).status, PublisherStage(publisherNit).status);
    }

    /** The common checks as a straight run of early returns, with the author loop run as a loop. */
    method ValidateCommonBookData(title: Option<string>, authorIds: seq<Option<int>>, isbnText: Option<string>,
                                  genre: Option<string>, format: Option<string>, valueText: Option<string>,
                                  publisherNit: Option<string>) returns (r: Response<BookData>)
      requires Valid()
      ensures Valid()
      ensures r == CheckCommon(title, authorIds, isbnText, genre, format, valueText, publisherNit)
    {
      if Missing(title) || authorIds == [] {
        return Fail(BadRequest);
      }
      var resolved := CollectAuthors(authorIds);
      if resolved.status != Ok {
        return Fail(resolved.status);
      }
      if Missing(isbnText) {
        return Fail(BadRequest);
      }
      var isbn := Trim(isbnText.value);
      if !IsIsbn(isbn) {
        return Fail(BadRequest);
      }
      if books.FindById(Str(isbn)).Some? {
        return Fail(Conflict);
      }
      if Missing(genre) || Missing(format) || Missing(valueText) {
        return Fail(BadRequest);
      }
      var value := ParseDouble(Trim(valueText.value));
      if value.None? || AtMostZero(value.value) {
        return Fail(BadRequest);
      }
      if Missing(publisherNit) {
        return Fail(BadRequest);
      }
      var publisher := publishers.FindById(Str(Trim(publisherNit.value)));
      if publisher.None? {
        return Fail(NotFound);
      }
      r := Response(Ok, Some(BookData(Trim(title.value), resolved.data.value, isbn, Trim(genre.value),
                                      Trim(format.value), value.value, PublisherClone(publisher.value))));
    }

    /** The narrator checks of `createAudiobook`: the identifier rule, then a stored narrator. */
    function NarratorStage(narratorIdText: Option<string>): (r: Response<Person>)
      requires Valid()
      reads this, books, authors, publishers, narrators
      ensures r.status in {Ok, BadRequest, NotFound}
      ensures r.status == Ok <==> r.data.Some?
    {
      if Missing(narratorIdText) then Fail(BadRequest)
      else
        match ParseId(Trim(narratorIdText.value))
        case None => Fail(BadRequest)
        case Some(narratorId) =>
          match narrators.FindById(Num(narratorId))
          case None => Fail(NotFound)
          case Some(narrator) => Response(Ok, Some(narrator))
    }

    /**
     * The narrator stage is BadRequest exactly when the id is missing or
     * breaks the identifier rule once trimmed (not a `long`, negative, or
     * more than 15 significant characters), NotFound exactly when no stored
     * narrator has it, and otherwise hands over that narrator.
     */
    lemma NarratorStageStatus(narratorIdText: Option<string>)
      requires Valid()
      ensures var r := NarratorStage(narratorIdText);
              && (r.status == BadRequest <==> Missing(narratorIdText) || ParseId(Trim(narratorIdText.value)).None?)
              && (r.status == NotFound <==>
                    && !Missing(narratorIdText) && ParseId(Trim(narratorIdText.value)).Some?
                    && !NarratorHeld(ParseId(Trim(narratorIdText.value)).value))
              && (r.status == Ok ==>
                    && r.data.value.id == ParseId(Trim(narratorIdText.value)).value
                    && narrators.FindById(Num(r.data.value.id)) == r.data)
    {
    }

    /** `createPrintedBook`'s checks: the common ones, then pages and copies. */
    function CheckPrinted(title: Option<string>, authorIds: seq<Option<int>>, isbnText: Option<string>,
                          genre: Option<string>, format: Option<string>, valueText: Option<string>,
                          publisherNit: Option<string>, pagesText: Option<string>, copiesText: Option<string>)
      : (r: Response<Book>)
      requires Valid()
      reads this, books, authors, publishers, narrators
      ensures r.status == Ok <==> r.data.Some?
      ensures r.status == Ok ==> !BookHeld(r.data.value.isbn)
    {
      var c := CheckCommon(title, authorIds, isbnText, genre, format, valueText, publisherNit);
      if c.status != Ok then Fail(c.status)
      else
        match (ParseCount(pagesText), ParseCount(copiesText))
        case (Some(pages), Some(copies)) =>
          if pages <= 0 || copies <= 0 then Fail(BadRequest)
          else Response(Ok, Some(MakeBook(c.data.value, Printed(pages, copies))))
        case _ => Fail(BadRequest)
    }

    /**
     * After the common checks, pages and copies must both be `int`s above
     * zero (else BadRequest); on success the printed book carries them.
     */
    lemma CheckPrintedOrder(title: Option<string>, authorIds: seq<Option<int>>, isbnText: Option<string>,
                            genre: Option<string>, format: Option<string>, valueText: Option<string>,
                            publisherNit: Option<string>, pagesText: Option<string>, copiesText: Option<string>)
      requires Valid()
      ensures var c := CheckCommon(title, authorIds, isbnText, genre, format, valueText, publisherNit);
              var r := CheckPrinted(title, authorIds, isbnText, genre, format, valueText, publisherNit,
                                    pagesText, copiesText);
              && r.status == FirstFailure([c.status, CountStatus(pagesText, copiesText)])
              && (r.status == Ok ==>
                    && c.status == Ok && PositiveCount(pagesText) && PositiveCount(copiesText)
                    && r.data.value == MakeBook(c.data.value, Printed(ParseCount(pagesText).value,
                                                                      ParseCount(copiesText).value)))
    {
      FirstFailureOfTwo(CheckCommon(title, authorIds, isbnText, genre, format, valueText, publisherNit).status,
                        CountStatus(pagesText, copiesText));
    }

    /** `createDigitalBook`'s checks: only the common ones. */
    function CheckDigital(title: Option<string>, authorIds: seq<Option<int>>, isbnText: Option<string>,
                          genre: Option<string>, format: Option<string>, valueText: Option<string>,
                          publisherNit: Option<string>, hyperlink: Option<string>)
      : (r: Response<Book>)
      requires Valid()
      reads this, books, authors, publishers, narrators
      ensures r.status == Ok <==> r.data.Some?
      ensures r.status == Ok ==> !BookHeld(r.data.value.isbn)
    {
      var c := CheckCommon(title, authorIds, isbnText, genre, format, valueText, publisherNit);
      if c.status != Ok then Fail(c.status)
      else Response(Ok, Some(MakeBook(c.data.value, Digital(Hyperlink(hyperlink)))))
    }

    /**
     * A digital book fails exactly as the common checks do; on success it
     * carries the kept hyperlink.
     */
    lemma CheckDigitalOrder(title: Option<string>, authorIds: seq<Option<int>>, isbnText: Option<string>,
                            genre: Option<string>, format: Option<string>, valueText: Option<string>,
                            publisherNit: Option<string>, hyperlink: Option<string>)
      requires Valid()
      ensures var c := CheckCommon(title, authorIds, isbnText, genre, format, valueText, publisherNit);
              var r := CheckDigital(title, authorIds, isbnText, genre, format, valueText, publisherNit, hyperlink);
              && r.status == c.status
              && (r.status == Ok ==>
                    c.status == Ok && r.data.value == MakeBook(c.data.value, Digital(Hyperlink(hyperlink))))
    {
    }

    /** `createAudiobook`'s checks: the common ones, then the narrator, then the duration. */
    function CheckAudio(title: Option<string>, authorIds: seq<Option<int>>, isbnText: Option<string>,
                        genre: Option<string>, format: Option<string>, valueText: Option<string>,
                        publisherNit: Option<string>, narratorIdText: Option<string>, durationText: Option<string>)
      : (r: Response<Book>)
      requires Valid()
      reads this, books, authors, publishers, narrators
      ensures r.status == Ok <==> r.data.Some?
      ensures r.status == Ok ==> !BookHeld(r.data.value.isbn)
    {
      var c := CheckCommon(title, authorIds, isbnText, genre, format, valueText, publisherNit);
      if c.status != Ok then Fail(c.status)
      else
        var n := NarratorStage(narratorIdText);
        if n.status != Ok then Fail(n.status)
        else
          match ParseCount(durationText)
          case None => Fail(BadRequest)
          case Some(duration) =>
            if duration <= 0 then Fail(BadRequest)
            else Response(Ok, Some(MakeBook(c.data.value, Audio(duration, n.data.value))))
    }

    /**
     * After the common checks come the narrator checks and then a duration
     * that must be an `int` above zero (else BadRequest); the first failure
     * decides. On success the audiobook carries the duration and the
     * stored narrator.
     */
    lemma CheckAudioOrder(title: Option<string>, authorIds: seq<Option<int>>, isbnText: Option<string>,
                          genre: Option<string>, format: Option<string>, valueText: Option<string>,
                          publisherNit: Option<string>, narratorIdText: Option<string>, durationText: Option<string>)
      requires Valid()
      ensures var c, n := CheckCommon(title, authorIds, isbnText, genre, format, valueText, publisherNit),
                          NarratorStage(narratorIdText);
              var r := CheckAudio(title, authorIds, isbnText, genre, format, valueText, publisherNit,
                                  narratorIdText, durationText);
              && r.status == FirstFailure([c.status, n.status, DurationStatus(durationText)])
              && (r.status == Ok ==>
                    && c.status == Ok && n.status == Ok && PositiveCount(durationText)
                    && r.data == Some(MakeBook(c.data.value, Audio(ParseCount(durationText).value, n.data.value))))
    {
      FirstFailureOfThree(CheckCommon(title, authorIds, isbnText, genre, format, valueText, publisherNit).status,
                          NarratorStage(narratorIdText).status, DurationStatus(durationText));
    }

    /** Stores a book whose ISBN no stored book has, and notifies the observers. */
    method StoreBook(b: Book)
      requires Valid() && !BookHeld(b.isbn)
      modifies this, books
      ensures Valid()
      ensures authors.data == old(authors.data) && publishers.data == old(publishers.data)
      ensures narrators.data == old(narrators.data)
      ensures books.data == Sort(BookKey, old(books.data) + [b])
      ensures books.FindById(Str(b.isbn)) == Some(b)
      ensures events == old(events) + ["book"]
    {
      ghost var stored := books.data;
      var saved := books.Save(b);
      ghost var j :| InsertedAt(stored, books.data, b, j);
      FindInserted(BookKey, stored, books.data, b, j);
      events := events + ["book"];
    }

    /**
     * What a create call leaves behind, given the verdict `c` of its checks:
     * on success the book is stored in key order and found under its ISBN, a
     * copy comes back with Created and the observers are notified once; on
     * failure the failing status comes back and the books and notifications
     * are still `before` and `seen`.
     */
    ghost predicate CreateOutcome(c: Response<Book>, r: Response<Book>, before: seq<Book>, seen: seq<string>)
      reads this, books
    {
      if c.status == Ok then
        && c.data.Some?
        && r == Response(Created, c.data)
        && books.data == Sort(BookKey, before + [c.data.value])
        && books.FindById(Str(c.data.value.isbn)) == c.data
        && events == seen + ["book"]
      else
        r == Fail(c.status) && books.data == before && events == seen
    }

    /** The checks `createPrintedBook` makes before it stores anything, in its order. */
    method ValidatePrintedBook(title: Option<string>, authorIds: seq<Option<int>>, isbnText: Option<string>,
                               genre: Option<string>, format: Option<string>, valueText: Option<string>,
                               publisherNit: Option<string>, pagesText: Option<string>, copiesText: Option<string>)
      returns (r: Response<Book>)
      requires Valid()
      ensures r == CheckPrinted(title, authorIds, isbnText, genre, format, valueText, publisherNit,
                                pagesText, copiesText)
    {
      var common := ValidateCommonBookData(title, authorIds, isbnText, genre, format, valueText, publisherNit);
      // The call changes nothing, so the checks read the same state as on entry.
      assert common == old(CheckCommon(title, authorIds, isbnText, genre, format, valueText, publisherNit));
      assert CheckPrinted(title, authorIds, isbnText, genre, format, valueText, publisherNit,
                          pagesText, copiesText)
          == old(CheckPrinted(title, authorIds, isbnText, genre, format, valueText, publisherNit,
                              pagesText, copiesText));
      if common.status != Ok {
        return Fail(common.status);
      }
      var pages, copies := ParseCount(pagesText), ParseCount(copiesText);
      if pages.None? || copies.None? || pages.value <= 0 || copies.value <= 0 {
        return Fail(BadRequest);
      }
      r := Response(Ok, Some(MakeBook(common.data.value, Printed(pages.value, copies.value))));
    }

    /** The checks `createDigitalBook` makes before it stores anything, and the hyperlink it keeps. */
    method ValidateDigitalBook(title: Option<string>, authorIds: seq<Option<int>>, isbnText: Option<string>,
                               genre: Option<string>, format: Option<string>, valueText: Option<string>,
                               publisherNit: Option<string>, hyperlink: Option<string>)
      returns (r: Response<Book>)
      requires Valid()
      ensures r == CheckDigital(title, authorIds, isbnText, genre, format, valueText, publisherNit, hyperlink)
    {
      var common := ValidateCommonBookData(title, authorIds, isbnText, genre, format, valueText, publisherNit);
      // The call changes nothing, so the checks read the same state as on entry.
      assert common == old(CheckCommon(title, authorIds, isbnText, genre, format, valueText, publisherNit));
      assert CheckDigital(title, authorIds, isbnText, genre, format, valueText, publisherNit,
                          hyperlink)
          == old(CheckDigital(title, authorIds, isbnText, genre, format, valueText, publisherNit,
                              hyperlink));
      if common.status != Ok {
        return Fail(common.status);
      }
      var link: Option<string>;
      if Missing(hyperlink) {
        link := None;
      } else {
        link := Some(Trim(hyperlink.value));
      }
      r := Response(Ok, Some(MakeBook(common.data.value, Digital(link))));
    }

    /** The checks `createAudiobook` makes before it stores anything, in its order. */
    method ValidateAudiobook(title: Option<string>, authorIds: seq<Option<int>>, isbnText: Option<string>,
                             genre: Option<string>, format: Option<string>, valueText: Option<string>,
                             publisherNit: Option<string>, narratorIdText: Option<string>, durationText: Option<string>)
      returns (r: Response<Book>)
      requires Valid()
      ensures r == CheckAudio(title, authorIds, isbnText, genre, format, valueText, publisherNit,
                              narratorIdText, durationText)
    {
      var common := ValidateCommonBookData(title, authorIds, isbnText, genre, format, valueText, publisherNit);
      // The call changes nothing, so the checks read the same state as on entry.
      assert common == old(CheckCommon(title, authorIds, isbnText, genre, format, valueText, publisherNit));
      assert CheckAudio(title, authorIds, isbnText, genre, format, valueText, publisherNit,
                        narratorIdText, durationText)
          == old(CheckAudio(title, authorIds, isbnText, genre, format, valueText, publisherNit,
                            narratorIdText, durationText));
      assert NarratorStage(narratorIdText) == old(NarratorStage(narratorIdText));
      if common.status != Ok {
        return Fail(common.status);
      }
      var narrator := NarratorStage(narratorIdText);
      if narrator.status != Ok {
        return Fail(narrator.status);
      }
      var duration := ParseCount(durationText);
      if duration.None? || duration.value <= 0 {
        return Fail(BadRequest);
      }
      r := Response(Ok, Some(MakeBook(common.data.value, Audio(duration.value, narrator.data.value))));
    }

    /**
     * `createPrintedBook`: when every check passes, the book is stored (its
     * ISBN new) and a copy is returned; otherwise nothing changes.
     */
    method CreatePrintedBook(title: Option<string>, authorIds: seq<Option<int>>, isbnText: Option<string>,
                             genre: Option<string>, format: Option<string>, valueText: Option<string>,
                             publisherNit: Option<string>, pagesText: Option<string>, copiesText: Option<string>)
      returns (r: Response<Book>)
      requires Valid()
      modifies this, books
      ensures Valid()
      ensures authors.data == old(authors.data) && publishers.data == old(publishers.data)
      ensures narrators.data == old(narrators.data)
      ensures CreateOutcome(old(CheckPrinted(title, authorIds, isbnText, genre, format, valueText, publisherNit,
                                   pagesText, copiesText)), r, old(books.data), old(events))
    {
      var v := ValidatePrintedBook(title, authorIds, isbnText, genre, format, valueText, publisherNit,
                                   pagesText, copiesText);
      // The verdict of the checks as of entry, which the call left unchanged.
      assert v == old(CheckPrinted(title, authorIds, isbnText, genre, format, valueText, publisherNit,
                                   pagesText, copiesText));
      if v.status != Ok {
        return Fail(v.status);
      }
      StoreBook(v.data.value);
      r := Response(Created, Some(CloneBook(v.data.value)));
    }

    /**
     * `createDigitalBook`: when the common checks pass, the book is stored
     * (its ISBN new) and a copy is returned; otherwise nothing changes.
     */
    method CreateDigitalBook(title: Option<string>, authorIds: seq<Option<int>>, isbnText: Option<string>,
                             genre: Option<string>, format: Option<string>, valueText: Option<string>,
                             publisherNit: Option<string>, hyperlink: Option<string>)
      returns (r: Response<Book>)
      requires Valid()
      modifies this, books
      ensures Valid()
      ensures authors.data == old(authors.data) && publishers.data == old(publishers.data)
      ensures narrators.data == old(narrators.data)
      ensures CreateOutcome(old(CheckDigital(title, authorIds, isbnText, genre, format, valueText, publisherNit,
                                   hyperlink)), r, old(books.data), old(events))
    {
      var v := ValidateDigitalBook(title, authorIds, isbnText, genre, format, valueText, publisherNit, hyperlink);
      // The verdict of the checks as of entry, which the call left unchanged.
      assert v == old(CheckDigital(title, authorIds, isbnText, genre, format, valueText, publisherNit,
                                   hyperlink));
      if v.status != Ok {
        return Fail(v.status);
      }
      StoreBook(v.data.value);
      r := Response(Created, Some(CloneBook(v.data.value)));
    }

    /**
     * `createAudiobook`: when every check passes, the book is stored (its
     * ISBN new) and a copy is returned; otherwise nothing changes.
     */
    method CreateAudiobook(title: Option<string>, authorIds: seq<Option<int>>, isbnText: Option<string>,
                           genre: Option<string>, format: Option<string>, valueText: Option<string>,
                           publisherNit: Option<string>, narratorIdText: Option<string>, durationText: Option<string>)
      returns (r: Response<Book>)
      requires Valid()
      modifies this, books
      ensures Valid()
      ensures authors.data == old(authors.data) && publishers.data == old(publishers.data)
      ensures narrators.data == old(narrators.data)
      ensures CreateOutcome(old(CheckAudio(title, authorIds, isbnText, genre, format, valueText, publisherNit,
                                   narratorIdText, durationText)), r, old(books.data), old(events))
    {
      var v := ValidateAudiobook(title, authorIds, isbnText, genre, format, valueText, publisherNit,
                                 narratorIdText, durationText);
      // The verdict of the checks as of entry, which the call left unchanged.
      assert v == old(CheckAudio(title, authorIds, isbnText, genre, format, valueText, publisherNit,
                                 narratorIdText, durationText));
      if v.status != Ok {
        return Fail(v.status);
      }
      StoreBook(v.data.value);
      r := Response(Created, Some(CloneBook(v.data.value)));
    }

    /** The filtering loop shared by the three queries: a copy of every kept book, in stored order. */
    method Filter(q: Query) returns (r: seq<Book>)
      ensures r == Select(books.data, q)
    {
      var all := books.FindAll();
      r := [];
      for i := 0 to |all|
        invariant r == Select(all[..i], q)
      {
        var book := all[i];
        assert all[..i + 1][..i] == all[..i];
        var add: bool;
        match q {
          case OfType(kind) =>
            add := (kind == Some(PRINTED_BOOKS) && book.variant.Printed?)
                || (kind == Some(DIGITAL_BOOKS) && book.variant.Digital?)
                || (kind == Some(AUDIOBOOKS) && book.variant.Audio?)
                || kind == Some(ALL_BOOKS);
          case ByAuthor(id) =>
            add := false;
            var k := 0;
            while k < |book.authors|
              invariant 0 <= k <= |book.authors|
              invariant add <==> exists m :: 0 <= m < k && book.authors[m].id == id
            {
              if book.authors[k].id == id {
                add := true;
                break;
              }
              k := k + 1;
            }
          case OfFormat(f) =>
            add := f == book.format;
        }
        if add {
          r := r + [CloneBook(book)];
        }
      }
      assert all[..|all|] == all;
    }

    /** `getBooksByType`: the stored books of the labelled kind ("Todos los Libros": all of them). */
    method GetBooksByType(kind: Option<string>) returns (r: Response<seq<Book>>)
      ensures r == Response(Ok, Some(Select(books.data, OfType(kind))))
    {
      var found := Filter(OfType(kind));
      r := Response(Ok, Some(found));
    }

    /** `getBooksByAuthor`: NotFound for an id no author has; otherwise the stored books listing it. */
    method GetBooksByAuthor(authorId: int) returns (r: Response<seq<Book>>)
      requires Valid()
      ensures !AuthorHeld(authorId) ==> r == Fail(NotFound)
      ensures AuthorHeld(authorId) ==> r == Response(Ok, Some(Select(books.data, ByAuthor(authorId))))
    {
      if authors.FindById(Num(authorId)).None? {
        return Fail(NotFound);
      }
      var found := Filter(ByAuthor(authorId));
      r := Response(Ok, Some(found));
    }

    /** `getBooksByFormat`: BadRequest for a null or blank format; otherwise the stored books with exactly it. */
    method GetBooksByFormat(format: Option<string>) returns (r: Response<seq<Book>>)
      ensures Missing(format) ==> r == Fail(BadRequest)
      ensures !Missing(format) ==> r == Response(Ok, Some(Select(books.data, OfFormat(format.value))))
    {
      if Missing(format) {
        return Fail(BadRequest);
      }
      var found := Filter(OfFormat(format.value));
      r := Response(Ok, Some(found));
    }

    /**
     * `getAuthorsWithMostDifferentPublishers`: copies of the authors whose
     * publisher count is the largest (counted from -1), in ascending id
     * order; an empty list when there are no authors.
     */
    method GetAuthorsWithMostDifferentPublishers() returns (r: Response<seq<Person>>)
      requires Valid()
      ensures r.status == Ok && r.data.Some?
      ensures var top := WithQuantity(authors.data, Peak(authors.data));
              && |r.data.value| == |top|
              && forall k :: 0 <= k < |top| ==> r.data.value[k] == AuthorClone(top[k])
      ensures forall i, j :: 0 <= i < j < |r.data.value| ==> r.data.value[i].id <= r.data.value[j].id
    {
      var all := authors.FindAll();
      if |all| == 0 {
        return Response(Ok, Some([]));
      }
      var maxAuthors := MostPublishers(all);
      WithQuantitySorted(all, Peak(all));
      SortOfSorted(AuthorKey, maxAuthors);
      maxAuthors := Sort(AuthorKey, maxAuthors);
      var clones := CopyAuthors(maxAuthors);
      r := Response(Ok, Some(clones));
    }
  }
}
