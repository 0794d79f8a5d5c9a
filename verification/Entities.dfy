/**
 * The entities the controllers read and store, holding only the fields the
 * controllers use. Persons and books are values; stands and publishers are
 * heap objects, because buying stands links the stored objects in place.
 */
module Entities {
  import opened Common
  import opened Keys
  import opened Numbers

  /**
   * A manager or a narrator, and also the copy of any person a controller
   * hands out (`new X(id, firstname, lastname)`).
   */
  datatype Person = Person(id: int, firstname: string, lastname: string)

  /** An author, with the stored count of distinct publishers it has been published by. */
  datatype Author = Author(id: int, firstname: string, lastname: string, publisherQuantity: int)

  /** The copy of an author a controller hands out: id, first name and last name. */
  function AuthorClone(a: Author): Person
  {
    Person(a.id, a.firstname, a.lastname)
  }

  /** A stand, with the publishers that bought it (`Stand.getPublishers`). */
  class Stand {
    const id: int
    const price: Double
    var publishers: seq<Publisher>

    constructor (id: int, price: Double)
      ensures this.id == id && this.price == price && publishers == []
    {
      this.id := id;
      this.price := price;
      publishers := [];
    }

    /** `addPublisher`: the publisher goes to the end of the stand's list. */
    method AddPublisher(p: Publisher)
      modifies this
      ensures publishers == old(publishers) + [p]
    {
      publishers := publishers + [p];
    }
  }

  /** A publisher, with its manager and the stands it bought. */
  class Publisher {
    const nit: string
    const name: string
    const address: string
    const manager: Person
    var stands: seq<Stand>

    constructor (nit: string, name: string, address: string, manager: Person)
      ensures this.nit == nit && this.name == name && this.address == address
      ensures this.manager == manager && stands == []
    {
      this.nit := nit;
      this.name := name;
      this.address := address;
      this.manager := manager;
      stands := [];
    }

    /** `addStand`: the stand goes to the end of the publisher's list. */
    method AddStand(st: Stand)
      modifies this
      ensures stands == old(stands) + [st]
    {
      stands := stands + [st];
    }
  }

  /** The copy of a stand a controller hands out: `new Stand(id, price)`. */
  datatype StandView = StandView(id: int, price: Double)

  /**
   * The copy of a publisher a controller hands out (and the publisher data a
   * book carries): `new Publisher(nit, name, address, managerClone)`.
   */
  datatype PublisherView = PublisherView(nit: string, name: string, address: string, manager: Person)

  function StandClone(s: Stand): StandView
  {
    StandView(s.id, s.price)
  }

  function PublisherClone(p: Publisher): PublisherView
  {
    PublisherView(p.nit, p.name, p.address, p.manager)
  }

  /** What distinguishes the three kinds of book. */
  datatype Variant =
    | Printed(pages: int, copies: int)
    | Digital(hyperlink: Option<string>)
    | Audio(duration: int, narrator: Person)

  /** A book: the fields every kind shares, and its kind. */
  datatype Book = Book(
    title: string,
    authors: seq<Person>,
    isbn: string,
    genre: string,
    format: string,
    value: Double,
    publisher: PublisherView,
    variant: Variant)

  /**
   * `cloneBook`: rebuild the book kind by kind, copying authors, publisher
   * (with its manager) and narrator. The copy equals the original.
   */
  function CloneBook(b: Book): (c: Book)
    ensures c == b
  {
    var authors := seq(|b.authors|, i requires 0 <= i < |b.authors| =>
                         Person(b.authors[i].id, b.authors[i].firstname, b.authors[i].lastname));
    var m := b.publisher.manager;
    var publisher := PublisherView(b.publisher.nit, b.publisher.name, b.publisher.address,
                                   Person(m.id, m.firstname, m.lastname));
    var variant := match b.variant
      case Printed(pages, copies) => Printed(pages, copies)
      case Digital(hyperlink) => if hyperlink.Some? then Digital(Some(hyperlink.value)) else Digital(None)
      case Audio(duration, n) => Audio(duration, Person(n.id, n.firstname, n.lastname));
    Book(b.title, authors, b.isbn, b.genre, b.format, b.value, publisher, variant)
  }

  function AuthorKey(a: Author): Key { Num(a.id) }
  function PersonKey(p: Person): Key { Num(p.id) }
  function StandKey(s: Stand): Key { Num(s.id) }
  function PublisherKey(p: Publisher): Key { Str(p.nit) }
  function BookKey(b: Book): Key { Str(b.isbn) }

  function AuthorId(a: Author): int { a.id }
  function PersonId(p: Person): int { p.id }
  function StandId(s: Stand): int { s.id }

  /** The ids of a list of entities, in order. */
  function Ids<T>(idOf: T -> int, s: seq<T>): seq<int>
  {
    if s == [] then [] else Ids(idOf, s[..|s| - 1]) + [idOf(s[|s| - 1])]
  }

  lemma {:induction false} IdsLength<T>(idOf: T -> int, s: seq<T>)
    ensures |Ids(idOf, s)| == |s|
  {
    if s != [] {
      IdsLength(idOf, s[..|s| - 1]);
    }
  }

  /** Listing the ids distributes over concatenation. */
  lemma {:induction false} IdsAppend<T>(idOf: T -> int, a: seq<T>, b: seq<T>)
    ensures Ids(idOf, a + b) == Ids(idOf, a) + Ids(idOf, b)
  {
    if b != [] {
      assert (a + b)[..|a + b| - 1] == a + b[..|b| - 1];
      IdsAppend(idOf, a, b[..|b| - 1]);
    } else {
      assert a + b == a;
    }
  }

  /** Listing the ids of a split list. */
  lemma IdsSplit<T>(idOf: T -> int, s: seq<T>, j: nat)
    requires j <= |s|
    ensures Ids(idOf, s) == Ids(idOf, s[..j]) + Ids(idOf, s[j..])
  {
    assert s == s[..j] + s[j..];
    IdsAppend(idOf, s[..j], s[j..]);
  }

  /** Listing the ids of a list with one entity inserted. */
  lemma IdsInsertAt<T>(idOf: T -> int, a: seq<T>, e: T, b: seq<T>)
    ensures Ids(idOf, a + [e] + b) == Ids(idOf, a) + [idOf(e)] + Ids(idOf, b)
  {
    IdsAppend(idOf, a + [e], b);
    IdsAppend(idOf, a, [e]);
    assert Ids(idOf, [e]) == [idOf(e)];
  }

  /** An id is listed exactly when some entity carries it. */
  lemma {:induction false} IdsMember<T>(idOf: T -> int, s: seq<T>, id: int)
    ensures id in Ids(idOf, s) <==> exists i :: 0 <= i < |s| && idOf(s[i]) == id
  {
    if s != [] {
      var init := s[..|s| - 1];
      IdsMember(idOf, init, id);
      assert id in Ids(idOf, s) <==> id in Ids(idOf, init) || idOf(s[|s| - 1]) == id;
      if id in Ids(idOf, init) {
        var i :| 0 <= i < |init| && idOf(init[i]) == id;
        assert s[i] == init[i];
      } else if idOf(s[|s| - 1]) != id {
        forall i | 0 <= i < |s|
          ensures idOf(s[i]) != id
        {
          if i < |s| - 1 {
            assert s[i] == init[i];
          }
        }
      }
    }
  }
}
