/**
 * Registration and listing of authors, managers and narrators. The three
 * kinds share one identifier space: a new person is refused when any of the
 * three repositories already holds its id.
 */
module PersonController {
  import opened Common
  import opened Text
  import opened Numbers
  import opened Keys
  import opened Repository
  import opened Entities

  /**
   * `validatePersonId`: the text must be present and not blank; its trimmed
   * form must follow the identifier rule. On success the id is returned.
   */
  function ValidatePersonId(idText: Option<string>): (r: Response<int>)
    ensures r.status == Ok || r.status == BadRequest
    ensures r.status == Ok <==> r.data.Some?
    ensures r.status == Ok <==> !Missing(idText) && ParseId(Trim(idText.value)).Some?
    ensures r.status == Ok ==> r.data == ParseId(Trim(idText.value)) && 0 <= r.data.value < ID_LIMIT
  {
    if Missing(idText) then Fail(BadRequest)
    else
      match ParseId(Trim(idText.value))
      case None => Fail(BadRequest)
      case Some(id) => Response(Ok, Some(id))
  }

  /**
   * Any id below 10^15, written in decimal with any number of leading zeros
   * and surrounded by whitespace, is accepted as itself.
   */
  lemma ValidatePersonIdAccepts(before: string, z: nat, n: nat, after: string)
    requires n < ID_LIMIT && Spaces(before) && Spaces(after)
    ensures ValidatePersonId(Some(before + (Zeros(z) + Decimal(n)) + after)) == Response(Ok, Some(n))
  {
    var d := Zeros(z) + Decimal(n);
    PaddedDigitsTrim(before, z, n, after);
    ParseIdLeadingZeros(z, n);
    assert !Blank(before + d + after) by {
      assert (before + d + after)[|before|] == d[0];
    }
  }

  lemma PaddedDigitsTrim(before: string, z: nat, n: nat, after: string)
    requires Spaces(before) && Spaces(after)
    ensures Trim(before + (Zeros(z) + Decimal(n)) + after) == Zeros(z) + Decimal(n)
    ensures IsDigit((Zeros(z) + Decimal(n))[0])
  {
    var d := Zeros(z) + Decimal(n);
    ZerosValue(z, Decimal(n));
    assert IsDigit(d[0]) && IsDigit(d[|d| - 1]);
    TrimPadded(before, d, after);
  }

  /** A null or blank id is refused before anything else is looked at. */
  lemma ValidatePersonIdMissing(idText: Option<string>)
    requires Missing(idText)
    ensures ValidatePersonId(idText) == Fail(BadRequest)
  {
  }

  /** Inserting one entity adds exactly its id to the multiset of ids. */
  lemma IdsInsert<T>(idOf: T -> int, s: seq<T>, j: nat, e: T)
    requires j <= |s|
    ensures multiset(Ids(idOf, s[..j] + [e] + s[j..])) == multiset(Ids(idOf, s)) + multiset{idOf(e)}
  {
    var x, y := Ids(idOf, s[..j]), Ids(idOf, s[j..]);
    IdsSplit(idOf, s, j);
    IdsInsertAt(idOf, s[..j], e, s[j..]);
    assert multiset(x + [idOf(e)] + y) == multiset(x) + multiset{idOf(e)} + multiset(y);
  }

  /** No id occurs twice across the three id collections. */
  ghost predicate UniqueAcross(a: multiset<int>, b: multiset<int>, c: multiset<int>)
  {
    forall x :: a[x] + b[x] + c[x] <= 1
  }

  /** Uniqueness does not depend on the order of the collections. */
  lemma UniqueAcrossSymmetric(a: multiset<int>, b: multiset<int>, c: multiset<int>)
    ensures UniqueAcross(a, b, c) <==> UniqueAcross(b, a, c)
    ensures UniqueAcross(a, b, c) <==> UniqueAcross(c, b, a)
  {
  }

  /**
   * Inserting an entity whose id is held nowhere keeps the ids unique;
   * `b` and `c` are the ids held elsewhere.
   */
  lemma InsertKeepsUnique<T>(idOf: T -> int, s: seq<T>, j: nat, e: T, b: multiset<int>, c: multiset<int>)
    requires j <= |s|
    requires UniqueAcross(multiset(Ids(idOf, s)), b, c)
    requires idOf(e) !in Ids(idOf, s) && idOf(e) !in b && idOf(e) !in c
    ensures UniqueAcross(multiset(Ids(idOf, s[..j] + [e] + s[j..])), b, c)
  {
    IdsInsert(idOf, s, j, e);
  }

  /** The same, for the second collection of three. */
  lemma InsertKeepsUniqueSecond<T>(idOf: T -> int, a: multiset<int>, s: seq<T>, j: nat, e: T, c: multiset<int>)
    requires j <= |s|
    requires UniqueAcross(a, multiset(Ids(idOf, s)), c)
    requires idOf(e) !in a && idOf(e) !in Ids(idOf, s) && idOf(e) !in c
    ensures UniqueAcross(a, multiset(Ids(idOf, s[..j] + [e] + s[j..])), c)
  {
    UniqueAcrossSymmetric(a, multiset(Ids(idOf, s)), c);
    InsertKeepsUnique(idOf, s, j, e, a, c);
    UniqueAcrossSymmetric(a, multiset(Ids(idOf, s[..j] + [e] + s[j..])), c);
  }

  /** The same, for the third collection of three. */
  lemma InsertKeepsUniqueThird<T>(idOf: T -> int, a: multiset<int>, b: multiset<int>, s: seq<T>, j: nat, e: T)
    requires j <= |s|
    requires UniqueAcross(a, b, multiset(Ids(idOf, s)))
    requires idOf(e) !in a && idOf(e) !in b && idOf(e) !in Ids(idOf, s)
    ensures UniqueAcross(a, b, multiset(Ids(idOf, s[..j] + [e] + s[j..])))
  {
    UniqueAcrossSymmetric(a, b, multiset(Ids(idOf, s)));
    InsertKeepsUnique(idOf, s, j, e, b, a);
    UniqueAcrossSymmetric(a, b, multiset(Ids(idOf, s[..j] + [e] + s[j..])));
  }

  class PersonController {
    const authors: Repository<Author>
    const managers: Repository<Person>
    const narrators: Repository<Person>
    /** The notifications sent to observers, in order ("author", "manager", "narrator"). */
    ghost var events: seq<string>

    ghost predicate Valid()
      reads this, authors, managers, narrators
    {
      && authors.keyOf == AuthorKey && managers.keyOf == PersonKey && narrators.keyOf == PersonKey
      && managers != narrators
      && authors.Valid() && managers.Valid() && narrators.Valid()
    }

    /** Is the id held by an author, a manager or a narrator? */
    ghost predicate Held(id: int)
      reads this, authors, managers, narrators
    {
      id in Ids(AuthorId, authors.data) || id in Ids(PersonId, managers.data) || id in Ids(PersonId, narrators.data)
    }

    /** No id is held twice, within one repository or across two. */
    ghost predicate UniqueIds()
      reads this, authors, managers, narrators
    {
      UniqueAcross(multiset(Ids(AuthorId, authors.data)), multiset(Ids(PersonId, managers.data)),
                   multiset(Ids(PersonId, narrators.data)))
    }

    constructor (authors: Repository<Author>, managers: Repository<Person>, narrators: Repository<Person>)
      requires authors.keyOf == AuthorKey && managers.keyOf == PersonKey && narrators.keyOf == PersonKey
      requires managers != narrators
      requires authors.Valid() && managers.Valid() && narrators.Valid()
      ensures Valid() && events == []
      ensures this.authors == authors && this.managers == managers && this.narrators == narrators
    {
      this.authors := authors;
      this.managers := managers;
      this.narrators := narrators;
      events := [];
    }

    /** `existsPersonId`: is the id held by an author, a manager or a narrator? */
    function ExistsPersonId(id: int): (r: bool)
      requires Valid()
      reads this, authors, managers, narrators
      ensures r <==> Held(id)
    {
      IdsMember(AuthorId, authors.data, id);
      IdsMember(PersonId, managers.data, id);
      IdsMember(PersonId, narrators.data, id);
      authors.FindById(Num(id)).Some? || managers.FindById(Num(id)).Some? || narrators.FindById(Num(id)).Some?
    }

    /**
     * The checks every `create` method makes, in order: the id rule
     * (BadRequest), both names present (BadRequest), the id not yet held by
     * any person (Conflict). On success the id to store is returned.
     */
    function CheckNewPerson(idText: Option<string>, firstname: Option<string>, lastname: Option<string>)
      : (r: Response<int>)
      requires Valid()
      reads this, authors, managers, narrators
      ensures r.status in {Ok, BadRequest, Conflict}
      ensures r.status == BadRequest <==>
                ValidatePersonId(idText).status == BadRequest || Missing(firstname) || Missing(lastname)
      ensures r.status == Conflict <==>
                && ValidatePersonId(idText).status == Ok && !Missing(firstname) && !Missing(lastname)
                && Held(ValidatePersonId(idText).data.value)
      ensures r.status == Ok ==> r.data == ValidatePersonId(idText).data && !Held(r.data.value)
      ensures r.status != Ok ==> r.data.None?
    {
      var idCheck := ValidatePersonId(idText);
      if idCheck.status != Ok then Fail(idCheck.status)
      else if Missing(firstname) || Missing(lastname) then Fail(BadRequest)
      else if ExistsPersonId(idCheck.data.value) then Fail(Conflict)
      else idCheck
    }

    /** Stores an author whose id is held by nobody, and notifies the observers. */
    method StoreAuthor(author: Author)
      requires Valid() && !Held(author.id)
      modifies this, authors
      ensures Valid()
      ensures authors.data == Sort(AuthorKey, old(authors.data) + [author])
      ensures managers.data == old(managers.data) && narrators.data == old(narrators.data)
      ensures events == old(events) + ["author"]
      ensures old(UniqueIds()) ==> UniqueIds()
    {
      ghost var stored := authors.data;
      ghost var unique := UniqueIds();
      var saved := authors.Save(author);
      ghost var j :| InsertedAt(stored, authors.data, author, j);
      if unique {
        InsertKeepsUnique(AuthorId, stored, j, author, multiset(Ids(PersonId, managers.data)),
                          multiset(Ids(PersonId, narrators.data)));
      }
      events := events + ["author"];
    }

    /** `createAuthor`: on success the author (trimmed names) is stored and a copy returned. */
    method CreateAuthor(idText: Option<string>, firstname: Option<string>, lastname: Option<string>)
      returns (r: Response<Person>)
      requires Valid()
      modifies this, authors
      ensures Valid()
      ensures managers.data == old(managers.data) && narrators.data == old(narrators.data)
      ensures old(UniqueIds()) ==> UniqueIds()
      ensures var c := old(CheckNewPerson(idText, firstname, lastname));
              if c.status == Ok then
                var a := Author(c.data.value, Trim(firstname.value), Trim(lastname.value), 0);
                && r == Response(Created, Some(AuthorClone(a)))
                && authors.data == Sort(AuthorKey, old(authors.data) + [a])
                && events == old(events) + ["author"]
              else
                r == Fail(c.status) && authors.data == old(authors.data) && events == old(events)
    {
      var check := CheckNewPerson(idText, firstname, lastname);
      if check.status != Ok {
        return Fail(check.status);
      }
      var author := Author(check.data.value, Trim(firstname.value), Trim(lastname.value), 0);
      StoreAuthor(author);
      r := Response(Created, Some(AuthorClone(author)));
    }

    /** Stores a manager whose id is held by nobody, and notifies the observers. */
    method StoreManager(manager: Person)
      requires Valid() && !Held(manager.id)
      modifies this, managers
      ensures Valid()
      ensures managers.data == Sort(PersonKey, old(managers.data) + [manager])
      ensures authors.data == old(authors.data) && narrators.data == old(narrators.data)
      ensures events == old(events) + ["manager"]
      ensures old(UniqueIds()) ==> UniqueIds()
    {
      ghost var stored := managers.data;
      ghost var unique := UniqueIds();
      var saved := managers.Save(manager);
      ghost var j :| InsertedAt(stored, managers.data, manager, j);
      if unique {
        InsertKeepsUniqueSecond(PersonId, multiset(Ids(AuthorId, authors.data)), stored, j, manager,
                                multiset(Ids(PersonId, narrators.data)));
      }
      events := events + ["manager"];
    }

    /** `createManager`: on success the manager (trimmed names) is stored and a copy returned. */
    method CreateManager(idText: Option<string>, firstname: Option<string>, lastname: Option<string>)
      returns (r: Response<Person>)
      requires Valid()
      modifies this, managers
      ensures Valid()
      ensures authors.data == old(authors.data) && narrators.data == old(narrators.data)
      ensures old(UniqueIds()) ==> UniqueIds()
      ensures var c := old(CheckNewPerson(idText, firstname, lastname));
              if c.status == Ok then
                var m := Person(c.data.value, Trim(firstname.value), Trim(lastname.value));
                && r == Response(Created, Some(m))
                && managers.data == Sort(PersonKey, old(managers.data) + [m])
                && events == old(events) + ["manager"]
              else
                r == Fail(c.status) && managers.data == old(managers.data) && events == old(events)
    {
      var check := CheckNewPerson(idText, firstname, lastname);
      if check.status != Ok {
        return Fail(check.status);
      }
      var manager := Person(check.data.value, Trim(firstname.value), Trim(lastname.value));
      StoreManager(manager);
      r := Response(Created, Some(manager));
    }

    /** Stores a narrator whose id is held by nobody, and notifies the observers. */
    method StoreNarrator(narrator: Person)
      requires Valid() && !Held(narrator.id)
      modifies this, narrators
      ensures Valid()
      ensures narrators.data == Sort(PersonKey, old(narrators.data) + [narrator])
      ensures authors.data == old(authors.data) && managers.data == old(managers.data)
      ensures events == old(events) + ["narrator"]
      ensures old(UniqueIds()) ==> UniqueIds()
    {
      ghost var stored := narrators.data;
      ghost var unique := UniqueIds();
      var saved := narrators.Save(narrator);
      ghost var j :| InsertedAt(stored, narrators.data, narrator, j);
      if unique {
        InsertKeepsUniqueThird(PersonId, multiset(Ids(AuthorId, authors.data)), multiset(Ids(PersonId, managers.data)),
                               stored, j, narrator);
      }
      events := events + ["narrator"];
    }

    /** `createNarrator`: on success the narrator (trimmed names) is stored and a copy returned. */
    method CreateNarrator(idText: Option<string>, firstname: Option<string>, lastname: Option<string>)
      returns (r: Response<Person>)
      requires Valid()
      modifies this, narrators
      ensures Valid()
      ensures authors.data == old(authors.data) && managers.data == old(managers.data)
      ensures old(UniqueIds()) ==> UniqueIds()
      ensures var c := old(CheckNewPerson(idText, firstname, lastname));
              if c.status == Ok then
                var n := Person(c.data.value, Trim(firstname.value), Trim(lastname.value));
                && r == Response(Created, Some(n))
                && narrators.data == Sort(PersonKey, old(narrators.data) + [n])
                && events == old(events) + ["narrator"]
              else
                r == Fail(c.status) && narrators.data == old(narrators.data) && events == old(events)
    {
      var check := CheckNewPerson(idText, firstname, lastname);
      if check.status != Ok {
        return Fail(check.status);
      }
      var narrator := Person(check.data.value, Trim(firstname.value), Trim(lastname.value));
      StoreNarrator(narrator);
      r := Response(Created, Some(narrator));
    }

    /** `getAllAuthors`: a copy of every stored author, in id order. */
    method GetAllAuthors() returns (r: Response<seq<Person>>)
      ensures r.status == Ok && r.data.Some? && |r.data.value| == |authors.data|
      ensures forall i :: 0 <= i < |authors.data| ==> r.data.value[i] == AuthorClone(authors.data[i])
    {
      var all := authors.FindAll();
      var clones: seq<Person> := [];
      for i := 0 to |all|
        invariant |clones| == i
        invariant forall k :: 0 <= k < i ==> clones[k] == AuthorClone(all[k])
      {
        clones := clones + [AuthorClone(all[i])];
      }
      r := Response(Ok, Some(clones));
    }

    /** `getAllManagers`: a copy of every stored manager, in id order. */
    method GetAllManagers() returns (r: Response<seq<Person>>)
      ensures r == Response(Ok, Some(managers.data))
    {
      var all := managers.FindAll();
      var clones: seq<Person> := [];
      for i := 0 to |all|
        invariant clones == all[..i]
      {
        clones := clones + [Person(all[i].id, all[i].firstname, all[i].lastname)];
      }
      assert all[..|all|] == all;
      r := Response(Ok, Some(clones));
    }

    /** `getAllNarrators`: a copy of every stored narrator, in id order. */
    method GetAllNarrators() returns (r: Response<seq<Person>>)
      ensures r == Response(Ok, Some(narrators.data))
    {
      var all := narrators.FindAll();
      var clones: seq<Person> := [];
      for i := 0 to |all|
        invariant clones == all[..i]
      {
        clones := clones + [Person(all[i].id, all[i].firstname, all[i].lastname)];
      }
      assert all[..|all|] == all;
      r := Response(Ok, Some(clones));
    }
  }
}
