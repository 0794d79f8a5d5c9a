/**
 * Registration and listing of stands, and the purchase of stands by
 * publishers, which links the stored stand and publisher objects in place.
 */
module StandController {
  import opened Common
  import opened Text
  import opened Numbers
  import opened Keys
  import opened Lists
  import opened Repository
  import opened Entities

  /** The stands and publishers a purchase resolved to, in the order requested. */
  datatype Purchase = Purchase(stands: seq<Stand>, publishers: seq<Publisher>)

  /** The NITs of a list of publishers, in order. */
  function Nits(ps: seq<Publisher>): seq<string>
  {
    if ps == [] then [] else Nits(ps[..|ps| - 1]) + [ps[|ps| - 1].nit]
  }

  /** The NITs of a selection that are neither null nor blank, trimmed, in order. */
  function NamedNits(nits: seq<Option<string>>): seq<string>
  {
    if nits == [] then []
    else
      var last := nits[|nits| - 1];
      NamedNits(nits[..|nits| - 1]) + if Missing(last) then [] else [Trim(last.value)]
  }

  /**
   * The purchase's linking of one stand to each publisher: the publisher
   * is added to the stand unless already there; the stand is added to the
   * publisher every time.
   */
  method LinkStand(st: Stand, ps: seq<Publisher>)
    modifies st, ps
    ensures st.publishers == AddAbsent(old(st.publishers), ps)
    ensures forall p :: p in ps ==> p.stands == old(p.stands) + Rep(st, Count(ps, p))
  {
    for b := 0 to |ps|
      invariant st.publishers == AddAbsent(old(st.publishers), ps[..b])
      invariant forall p :: p in ps ==> p.stands == old(p.stands) + Rep(st, Count(ps[..b], p))
    {
      var p := ps[b];
      PrefixStep(ps, b);
      if p !in st.publishers {
        st.AddPublisher(p);
      }
      p.AddStand(st);
    }
    assert ps[..|ps|] == ps;
  }

  /**
   * The linking loop of a purchase: every stand gets every publisher once,
   * and every publisher gets each stand once per time it was selected.
   */
  method Link(ss: seq<Stand>, ps: seq<Publisher>)
    modifies ss, ps
    ensures forall st :: st in ss ==> st.publishers == AddAbsent(old(st.publishers), ps)
    ensures forall p :: p in ps ==> p.stands == old(p.stands) + Repeat(ss, Count(ps, p))
  {
    for a := 0 to |ss|
      invariant forall st :: st in ss[..a] ==> st.publishers == AddAbsent(old(st.publishers), ps)
      invariant forall st :: st in ss && st !in ss[..a] ==> st.publishers == old(st.publishers)
      invariant forall p :: p in ps ==> p.stands == old(p.stands) + Repeat(ss[..a], Count(ps, p))
    {
      var st := ss[a];
      RepeatExtend(ss, a);
      AddAbsentIdempotent(old(st.publishers), ps);
      LinkStand(st, ps);
    }
    assert ss[..|ss|] == ss;
  }

  /** Extending the prefix by one stand adds that stand's run at the end, for any count. */
  lemma RepeatExtend<T>(s: seq<T>, a: nat)
    requires a < |s|
    ensures forall x :: x in s[..a + 1] <==> x in s[..a] || x == s[a]
    ensures forall n: nat :: Repeat(s[..a + 1], n) == Repeat(s[..a], n) + Rep(s[a], n)
  {
    assert s[..a + 1] == s[..a] + [s[a]];
    assert s[..a + 1][..a] == s[..a];
  }

  /** Extending a prefix by one element. */
  lemma PrefixStep<T>(s: seq<T>, b: nat)
    requires b < |s|
    ensures s[..b + 1][..b] == s[..b] && s[..b + 1][b] == s[b]
  {
  }

  class StandController {
    const stands: Repository<Stand>
    const publishers: Repository<Publisher>
    /** The notifications sent to observers, in order. */
    ghost var events: seq<string>

    ghost predicate Valid()
      reads this, stands, publishers
    {
      && stands.keyOf == StandKey && publishers.keyOf == PublisherKey
      && stands.Valid() && publishers.Valid()
    }

    constructor (stands: Repository<Stand>, publishers: Repository<Publisher>)
      requires stands.keyOf == StandKey && publishers.keyOf == PublisherKey
      requires stands.Valid() && publishers.Valid()
      ensures Valid() && events == []
      ensures this.stands == stands && this.publishers == publishers
    {
      this.stands := stands;
      this.publishers := publishers;
      events := [];
    }

    /** Does a stored stand have this id? */
    ghost predicate StandHeld(id: int)
      reads this, stands
    {
      exists i :: 0 <= i < |stands.data| && stands.data[i].id == id
    }

    /** Does a stored publisher have this NIT? */
    ghost predicate NitHeld(nit: string)
      reads this, publishers
    {
      exists i :: 0 <= i < |publishers.data| && publishers.data[i].nit == nit
    }

    /**
     * The checks of `createStand`, in order: both texts given (BadRequest),
     * the id rule (BadRequest), the price a number (BadRequest) greater than
     * zero (BadRequest; NaN passes), the id unused (Conflict). On success the
     * id and the price are returned.
     */
    function CheckNewStand(idText: Option<string>, priceText: Option<string>): (r: Response<(int, Double)>)
      requires Valid()
      reads this, stands, publishers
      ensures r.status in {Ok, BadRequest, Conflict}
      ensures r.status == Ok <==> r.data.Some?
      ensures Missing(idText) || Missing(priceText) ==> r.status == BadRequest
      ensures r.status != BadRequest <==>
                && !Missing(idText) && !Missing(priceText)
                && ParseId(Trim(idText.value)).Some?
                && ParseDouble(Trim(priceText.value)).Some? && !AtMostZero(ParseDouble(Trim(priceText.value)).value)
      ensures r.status == Conflict ==> StandHeld(ParseId(Trim(idText.value)).value)
      ensures r.status == Ok ==>
                && !StandHeld(ParseId(Trim(idText.value)).value)
                && r.data.value == (ParseId(Trim(idText.value)).value, ParseDouble(Trim(priceText.value)).value)
    {
      if Missing(idText) || Missing(priceText) then Fail(BadRequest)
      else
        match ParseId(Trim(idText.value))
        case None => Fail(BadRequest)
        case Some(id) =>
          match ParseDouble(Trim(priceText.value))
          case None => Fail(BadRequest)
          case Some(price) =>
            if AtMostZero(price) then Fail(BadRequest)
            else if stands.FindById(Num(id)).Some? then Fail(Conflict)
            else Response(Ok, Some((id, price)))
    }

    /** Stores a stand whose id no stored stand has, and notifies the observers. */
    method StoreStand(st: Stand)
      requires Valid() && !StandHeld(st.id)
      modifies this, stands
      ensures Valid() && publishers.data == old(publishers.data)
      ensures stands.data == Sort(StandKey, old(stands.data) + [st])
      ensures stands.FindById(Num(st.id)) == Some(st)
      ensures events == old(events) + ["stand"]
    {
      ghost var stored := stands.data;
      var saved := stands.Save(st);
      ghost var j :| InsertedAt(stored, stands.data, st, j);
      FindInserted(StandKey, stored, stands.data, st, j);
      events := events + ["stand"];
    }

    /**
     * `createStand`: on success a new stand (no publishers) is stored and a
     * copy returned; on failure nothing changes.
     */
    method CreateStand(idText: Option<string>, priceText: Option<string>) returns (r: Response<StandView>)
      requires Valid()
      modifies this, stands
      ensures Valid() && publishers.data == old(publishers.data)
      ensures var c := old(CheckNewStand(idText, priceText));
              if c.status == Ok then
                var view := StandView(c.data.value.0, c.data.value.1);
                var stored := stands.FindById(Num(view.id));
                && r == Response(Created, Some(view))
                && stored.Some? && fresh(stored.value) && stored.value.publishers == []
                && StandClone(stored.value) == view
                && stands.data == Sort(StandKey, old(stands.data) + [stored.value])
                && events == old(events) + ["stand"]
              else
                r == Fail(c.status) && stands.data == old(stands.data) && events == old(events)
    {
      var check := CheckNewStand(idText, priceText);
      if check.status != Ok {
        return Fail(check.status);
      }
      var stand := new Stand(check.data.value.0, check.data.value.1);
      StoreStand(stand);
      r := Response(Created, Some(StandClone(stand)));
    }

    /** `getAllStands`: a copy of every stored stand, in id order. */
    method GetAllStands() returns (r: Response<seq<StandView>>)
      ensures r.status == Ok && r.data.Some? && |r.data.value| == |stands.data|
      ensures forall i :: 0 <= i < |stands.data| ==> r.data.value[i] == StandClone(stands.data[i])
    {
      var all := stands.FindAll();
      var clones: seq<StandView> := [];
      for i := 0 to |all|
        invariant |clones| == i
        invariant forall k :: 0 <= k < i ==> clones[k] == StandClone(all[k])
      {
        clones := clones + [StandView(all[i].id, all[i].price)];
      }
      r := Response(Ok, Some(clones));
    }

    lemma FindByStandId(id: int)
      requires Valid()
      ensures stands.FindById(Num(id)).Some? <==> StandHeld(id)
    {
    }

    lemma FindByNit(nit: string)
      requires Valid()
      ensures publishers.FindById(Str(nit)).Some? <==> NitHeld(nit)
    {
    }

    /** Every non-null id names a stored stand. */
    ghost predicate AllStandsHeld(ids: seq<Option<int>>)
      reads this, stands
    {
      forall i :: 0 <= i < |ids| && ids[i].Some? ==> StandHeld(ids[i].value)
    }

    /** Every NIT that is neither null nor blank names, once trimmed, a stored publisher. */
    ghost predicate AllNitsHeld(nits: seq<Option<string>>)
      reads this, publishers
    {
      forall i :: 0 <= i < |nits| && !Missing(nits[i]) ==> NitHeld(Trim(nits[i].value))
    }

    lemma AllStandsHeldStep(ids: seq<Option<int>>)
      requires ids != []
      ensures AllStandsHeld(ids) <==>
                AllStandsHeld(ids[..|ids| - 1]) && (ids[|ids| - 1].Some? ==> StandHeld(ids[|ids| - 1].value))
    {
      assert forall i :: 0 <= i < |ids| - 1 ==> ids[..|ids| - 1][i] == ids[i];
    }

    lemma AllNitsHeldStep(nits: seq<Option<string>>)
      requires nits != []
      ensures AllNitsHeld(nits) <==>
                AllNitsHeld(nits[..|nits| - 1]) && (!Missing(nits[|nits| - 1]) ==> NitHeld(Trim(nits[|nits| - 1].value)))
    {
      assert forall i :: 0 <= i < |nits| - 1 ==> nits[..|nits| - 1][i] == nits[i];
    }

    /** The stands named by the non-null ids, in order; None when one is missing. */
    function LookupStands(ids: seq<Option<int>>): (r: Option<seq<Stand>>)
      requires Valid()
      reads this, stands, publishers
      ensures r.Some? <==> AllStandsHeld(ids)
      ensures r.Some? ==> forall k :: 0 <= k < |r.value| ==> r.value[k] in stands.data
    {
      if ids == [] then Some([])
      else
        var init := ids[..|ids| - 1];
        AllStandsHeldStep(ids);
        match LookupStands(init)
        case None => None
        case Some(found) =>
          match ids[|ids| - 1]
          case None => Some(found)
          case Some(id) =>
            FindByStandId(id);
            match stands.FindById(Num(id))
            case None => None
            case Some(st) => Some(found + [st])
    }

    /** The publishers named by the NITs that are neither null nor blank, in order; None when one is missing. */
    function LookupPublishers(nits: seq<Option<string>>): (r: Option<seq<Publisher>>)
      requires Valid()
      reads this, stands, publishers
      ensures r.Some? <==> AllNitsHeld(nits)
      ensures r.Some? ==> forall k :: 0 <= k < |r.value| ==> r.value[k] in publishers.data
    {
      if nits == [] then Some([])
      else
        var init := nits[..|nits| - 1];
        AllNitsHeldStep(nits);
        match LookupPublishers(init)
        case None => None
        case Some(found) =>
          var nit := nits[|nits| - 1];
          if Missing(nit) then Some(found)
          else
            FindByNit(Trim(nit.value));
            match publishers.FindById(Str(Trim(nit.value)))
            case None => None
            case Some(p) => Some(found + [p])
    }

    /** The stands looked up are those of the non-null ids, one per id, in order. */
    lemma {:induction false} LookupStandsIds(ids: seq<Option<int>>)
      requires Valid()
      ensures LookupStands(ids).Some? ==> Ids(StandId, LookupStands(ids).value) == Present(ids)
    {
      if ids != [] && LookupStands(ids).Some? {
        var init := ids[..|ids| - 1];
        LookupStandsIds(init);
        var found := LookupStands(init).value;
        var r := LookupStands(ids).value;
        if ids[|ids| - 1].Some? {
          assert r[..|r| - 1] == found;
        }
      }
    }

    /** The publishers looked up are those of the named NITs, one per NIT, in order. */
    lemma {:induction false} LookupPublishersNits(nits: seq<Option<string>>)
      requires Valid()
      ensures LookupPublishers(nits).Some? ==> Nits(LookupPublishers(nits).value) == NamedNits(nits)
    {
      if nits != [] && LookupPublishers(nits).Some? {
        var init := nits[..|nits| - 1];
        LookupPublishersNits(init);
        var found := LookupPublishers(init).value;
        var r := LookupPublishers(nits).value;
        if !Missing(nits[|nits| - 1]) {
          assert r[..|r| - 1] == found;
        }
      }
    }

    /**
     * The checks of `buyStands`, in order: a non-empty id list, a non-empty
     * NIT list (BadRequest); every stand, then every publisher, found
     * (NotFound); no repeated value in either raw list (BadRequest).
     */
    function CheckPurchase(standIds: seq<Option<int>>, nits: seq<Option<string>>): (r: Response<Purchase>)
      requires Valid()
      reads this, stands, publishers
      ensures r.status in {Ok, BadRequest, NotFound}
      ensures standIds == [] || nits == [] ==> r.status == BadRequest
      ensures r.status == NotFound <==>
                standIds != [] && nits != [] && !(AllStandsHeld(standIds) && AllNitsHeld(nits))
      ensures r.status == Ok <==>
                && standIds != [] && nits != [] && AllStandsHeld(standIds) && AllNitsHeld(nits)
                && !HasDuplicates(standIds) && !HasDuplicates(nits)
      ensures r.status == Ok ==>
                r.data == Some(Purchase(LookupStands(standIds).value, LookupPublishers(nits).value))
    {
      if standIds == [] || nits == [] then Fail(BadRequest)
      else
        match LookupStands(standIds)
        case None => Fail(NotFound)
        case Some(ss) =>
          match LookupPublishers(nits)
          case None => Fail(NotFound)
          case Some(ps) =>
            if HasDuplicates(standIds) || HasDuplicates(nits) then Fail(BadRequest)
            else Response(Ok, Some(Purchase(ss, ps)))
    }

    /**
     * A purchase that passes its checks links the stands of the non-null
     * ids and the publishers of the named NITs, each in the order given.
     */
    lemma CheckPurchaseSelection(standIds: seq<Option<int>>, nits: seq<Option<string>>)
      requires Valid()
      ensures var r := CheckPurchase(standIds, nits);
              r.status == Ok ==>
                && Ids(StandId, r.data.value.stands) == Present(standIds)
                && Nits(r.data.value.publishers) == NamedNits(nits)
    {
      LookupStandsIds(standIds);
      LookupPublishersNits(nits);
    }

    /**
     * `buyStands`: when every check passes, links every selected stand with
     * every selected publisher; otherwise no stand or publisher changes.
     */
    method BuyStands(standIds: seq<Option<int>>, nits: seq<Option<string>>) returns (r: Response<()>)
      requires Valid()
      modifies this, stands.data, publishers.data
      ensures Valid()
      ensures r == Fail(old(CheckPurchase(standIds, nits)).status)
      ensures old(CheckPurchase(standIds, nits)).status == Ok ==>
                var ss, ps := old(CheckPurchase(standIds, nits)).data.value.stands,
                              old(CheckPurchase(standIds, nits)).data.value.publishers;
                && (forall st :: st in ss ==> st.publishers == AddAbsent(old(st.publishers), ps))
                && (forall p :: p in ps ==> p.stands == old(p.stands) + Repeat(ss, Count(ps, p)))
                && (forall st :: st in stands.data && st !in ss ==> st.publishers == old(st.publishers))
                && (forall p :: p in publishers.data && p !in ps ==> p.stands == old(p.stands))
                && events == old(events) + ["stand", "publisher"]
      ensures old(CheckPurchase(standIds, nits)).status != Ok ==>
                && (forall st :: st in stands.data ==> st.publishers == old(st.publishers))
                && (forall p :: p in publishers.data ==> p.stands == old(p.stands))
                && events == old(events)
    {
      if |standIds| == 0 || |nits| == 0 {
        return Fail(BadRequest);
      }
      var ss: seq<Stand> := [];
      for i := 0 to |standIds|
        invariant LookupStands(standIds[..i]) == Some(ss)
      {
        assert standIds[..i + 1] == standIds[..i] + [standIds[i]];
        assert standIds[..i + 1][..i] == standIds[..i];
        if standIds[i].Some? {
          var found := stands.FindById(Num(standIds[i].value));
          if found.None? {
            assert !AllStandsHeld(standIds);
            return Fail(NotFound);
          }
          ss := ss + [found.value];
        }
      }
      assert standIds[..|standIds|] == standIds;
      var ps: seq<Publisher> := [];
      for i := 0 to |nits|
        invariant LookupPublishers(nits[..i]) == Some(ps)
      {
        assert nits[..i + 1] == nits[..i] + [nits[i]];
        assert nits[..i + 1][..i] == nits[..i];
        if !Missing(nits[i]) {
          var found := publishers.FindById(Str(Trim(nits[i].value)));
          if found.None? {
            assert !AllNitsHeld(nits);
            return Fail(NotFound);
          }
          ps := ps + [found.value];
        }
      }
      assert nits[..|nits|] == nits;
      if HasDuplicates(standIds) || HasDuplicates(nits) {
        return Fail(BadRequest);
      }
      assert CheckPurchase(standIds, nits).data == Some(Purchase(ss, ps));
      Link(ss, ps);
      events := events + ["stand", "publisher"];
      r := Fail(Ok);
    }
  }
}
