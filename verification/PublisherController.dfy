/**
 * Registration and listing of publishers. A publisher needs a NIT of the
 * form ddd.ddd.ddd-d that no stored publisher has, and the id of a manager
 * registered beforehand.
 */
module PublisherController {
  import opened Common
  import opened Text
  import opened Numbers
  import opened Keys
  import opened Patterns
  import opened Repository
  import opened Entities

  class PublisherController {
    const publishers: Repository<Publisher>
    const managers: Repository<Person>
    /** The notifications sent to observers, in order. */
    ghost var events: seq<string>

    ghost predicate Valid()
      reads this, publishers, managers
    {
      && publishers.keyOf == PublisherKey && managers.keyOf == PersonKey
      && publishers.Valid() && managers.Valid()
    }

    constructor (publishers: Repository<Publisher>, managers: Repository<Person>)
      requires publishers.keyOf == PublisherKey && managers.keyOf == PersonKey
      requires publishers.Valid() && managers.Valid()
      ensures Valid() && events == []
      ensures this.publishers == publishers && this.managers == managers
    {
      this.publishers := publishers;
      this.managers := managers;
      events := [];
    }

    /** Does a stored publisher have this NIT? */
    ghost predicate NitHeld(nit: string)
      reads this, publishers
    {
      exists i :: 0 <= i < |publishers.data| && publishers.data[i].nit == nit
    }

    /** Does a stored manager have this id? */
    ghost predicate ManagerHeld(id: int)
      reads this, managers
    {
      exists i :: 0 <= i < |managers.data| && managers.data[i].id == id
    }

    /** All four texts are given and not blank. */
    static predicate AllGiven(nitText: Option<string>, name: Option<string>, address: Option<string>,
                              managerIdText: Option<string>)
    {
      !Missing(nitText) && !Missing(name) && !Missing(address) && !Missing(managerIdText)
    }

    /**
     * The checks of `createPublisher`, in order: all four texts given
     * (BadRequest), the trimmed NIT well formed (BadRequest) and unused
     * (Conflict), the manager id following the identifier rule (BadRequest)
     * and naming a stored manager (NotFound). On success that manager is
     * returned.
     */
    function CheckNewPublisher(nitText: Option<string>, name: Option<string>, address: Option<string>,
                               managerIdText: Option<string>): (r: Response<Person>)
      requires Valid()
      reads this, publishers, managers
      ensures r.status in {Ok, BadRequest, Conflict, NotFound}
      ensures r.status == Ok <==> r.data.Some?
      ensures !AllGiven(nitText, name, address, managerIdText) ==> r.status == BadRequest
      ensures AllGiven(nitText, name, address, managerIdText) && !IsNit(Trim(nitText.value)) ==> r.status == BadRequest
      ensures r.status == Conflict <==>
                && AllGiven(nitText, name, address, managerIdText)
                && IsNit(Trim(nitText.value)) && NitHeld(Trim(nitText.value))
      ensures r.status == NotFound <==>
                && AllGiven(nitText, name, address, managerIdText)
                && IsNit(Trim(nitText.value)) && !NitHeld(Trim(nitText.value))
                && ParseId(Trim(managerIdText.value)).Some?
                && !ManagerHeld(ParseId(Trim(managerIdText.value)).value)
      ensures (&& AllGiven(nitText, name, address, managerIdText)
               && IsNit(Trim(nitText.value)) && !NitHeld(Trim(nitText.value))
               && ParseId(Trim(managerIdText.value)).None?) ==> r.status == BadRequest
      ensures r.status == Ok <==>
                && AllGiven(nitText, name, address, managerIdText)
                && IsNit(Trim(nitText.value)) && !NitHeld(Trim(nitText.value))
                && ParseId(Trim(managerIdText.value)).Some?
                && ManagerHeld(ParseId(Trim(managerIdText.value)).value)
      ensures r.status == Ok ==>
                && AllGiven(nitText, name, address, managerIdText)
                && IsNit(Trim(nitText.value)) && !NitHeld(Trim(nitText.value))
                && ParseId(Trim(managerIdText.value)).Some?
                && r.data.value in managers.data && r.data.value.id == ParseId(Trim(managerIdText.value)).value
    {
      if !AllGiven(nitText, name, address, managerIdText) then Fail(BadRequest)
      else
        var nit := Trim(nitText.value);
        if !IsNit(nit) then Fail(BadRequest)
        else if publishers.FindById(Str(nit)).Some? then Fail(Conflict)
        else
          match ParseId(Trim(managerIdText.value))
          case None => Fail(BadRequest)
          case Some(managerId) =>
            match managers.FindById(Num(managerId))
            case None => Fail(NotFound)
            case Some(manager) => Response(Ok, Some(manager))
    }

    /** Stores a publisher whose NIT no stored publisher has, and notifies the observers. */
    method StorePublisher(p: Publisher)
      requires Valid() && !NitHeld(p.nit)
      modifies this, publishers
      ensures Valid() && managers.data == old(managers.data)
      ensures publishers.data == Sort(PublisherKey, old(publishers.data) + [p])
      ensures publishers.FindById(Str(p.nit)) == Some(p)
      ensures events == old(events) + ["publisher"]
    {
      ghost var stored := publishers.data;
      var saved := publishers.Save(p);
      ghost var j :| InsertedAt(stored, publishers.data, p, j);
      FindInserted(PublisherKey, stored, publishers.data, p, j);
      events := events + ["publisher"];
    }

    /**
     * `createPublisher`: on success a new publisher (trimmed NIT, name and
     * address, the stored manager, no stands) is stored, and a copy is
     * returned; on failure nothing changes.
     */
    method CreatePublisher(nitText: Option<string>, name: Option<string>, address: Option<string>,
                           managerIdText: Option<string>) returns (r: Response<PublisherView>)
      requires Valid()
      modifies this, publishers
      ensures Valid() && managers.data == old(managers.data)
      ensures var c := old(CheckNewPublisher(nitText, name, address, managerIdText));
              if c.status == Ok then
                var view := PublisherView(Trim(nitText.value), Trim(name.value), Trim(address.value), c.data.value);
                var stored := publishers.FindById(Str(view.nit));
                && r == Response(Created, Some(view))
                && stored.Some? && fresh(stored.value) && stored.value.stands == []
                && PublisherClone(stored.value) == view
                && publishers.data == Sort(PublisherKey, old(publishers.data) + [stored.value])
                && events == old(events) + ["publisher"]
              else
                r == Fail(c.status) && publishers.data == old(publishers.data) && events == old(events)
    {
      var check := CheckNewPublisher(nitText, name, address, managerIdText);
      if check.status != Ok {
        return Fail(check.status);
      }
      var publisher := new Publisher(Trim(nitText.value), Trim(name.value), Trim(address.value), check.data.value);
      StorePublisher(publisher);
      r := Response(Created, Some(PublisherClone(publisher)));
    }

    /** `getAllPublishers`: a copy of every stored publisher (with its manager), in NIT order. */
    method GetAllPublishers() returns (r: Response<seq<PublisherView>>)
      ensures r.status == Ok && r.data.Some? && |r.data.value| == |publishers.data|
      ensures forall i :: 0 <= i < |publishers.data| ==> r.data.value[i] == PublisherClone(publishers.data[i])
    {
      var all := publishers.FindAll();
      var clones: seq<PublisherView> := [];
      for i := 0 to |all|
        invariant |clones| == i
        invariant forall k :: 0 <= k < i ==> clones[k] == PublisherClone(all[k])
      {
        var m := all[i].manager;
        clones := clones + [PublisherView(all[i].nit, all[i].name, all[i].address,
                                          Person(m.id, m.firstname, m.lastname))];
      }
      r := Response(Ok, Some(clones));
    }
  }
}
