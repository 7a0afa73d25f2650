/**
  `GattDirectory`: a tree of service, characteristic and descriptor nodes with links to their parents,
  and a flat index by handle that is to name the same node objects.

  An index record that the code has not created yet is an empty map here; nothing distinguishes the two.
 */
module GattDirectory {
  import opened Bytes
  import opened GattClone
  import opened GattFiling
  import opened GattIndex
  import opened GattLinks
  import opened GattNodes
  import opened GattProfile

  class GattDirectory {
    var services: Option<map<nat, ServiceNode>>
    var flatServices: map<nat, ServiceNode>
    var flatCharacteristics: map<nat, CharacteristicNode>
    var flatDescriptors: map<nat, DescriptorNode>

    /** Services and characteristics, as they are linked now. */
    ghost function Upper(): Level<ServiceNode, CharacteristicNode>
      reads this, flatServices.Values, flatCharacteristics.Values
    {
      Level(
        flatServices, flatCharacteristics,
        map s | s in flatServices :: flatServices[s].characteristics,
        map h | h in flatCharacteristics ::
          ServiceLink(flatCharacteristics[h].parent))
    }

    /** Characteristics and descriptors, as they are linked now. */
    ghost function Lower(): Level<CharacteristicNode, DescriptorNode>
      reads this, flatCharacteristics.Values, flatDescriptors.Values
    {
      Level(
        flatCharacteristics, flatDescriptors,
        map h | h in flatCharacteristics :: flatCharacteristics[h].descriptors,
        map d | d in flatDescriptors ::
          CharacteristicLink(flatDescriptors[d].parent))
    }

    ghost function Includes(): set<nat>
      reads this, flatServices.Values
    {
      set s | s in flatServices && flatServices[s].includesKnown
    }

    predicate OwnHandles()
      reads this
    {
      && (forall s :: s in flatServices ==> flatServices[s].service.handle == s)
      && (forall h :: h in flatCharacteristics ==> flatCharacteristics[h].characteristic.handle == h)
      && (forall d :: d in flatDescriptors ==> flatDescriptors[d].descriptor.handle == d)
    }

    /** Every service and characteristic in the index was there before or is newly allocated. */
    twostate predicate NodesKept()
      reads this
    {
      && (forall s :: s in flatServices ==> fresh(flatServices[s]) || flatServices[s] in old(flatServices.Values))
      && (forall h :: h in flatCharacteristics ==>
            fresh(flatCharacteristics[h]) || flatCharacteristics[h] in old(flatCharacteristics.Values))
    }

    twostate lemma ServicesKept(new added: map<nat, ServiceNode>)
      requires flatCharacteristics == old(flatCharacteristics) && flatDescriptors == old(flatDescriptors)
      requires flatServices == old(flatServices) + added && forall h :: h in added ==> fresh(added[h])
      ensures NodesKept()
    {
    }

    twostate lemma CharacteristicsKept(new added: map<nat, CharacteristicNode>)
      requires flatServices == old(flatServices) && flatDescriptors == old(flatDescriptors)
      requires flatCharacteristics == old(flatCharacteristics) + added && forall h :: h in added ==> fresh(added[h])
      ensures NodesKept()
    {
    }

    twostate lemma DescriptorsKept(new added: map<nat, DescriptorNode>)
      requires flatServices == old(flatServices) && flatCharacteristics == old(flatCharacteristics)
      requires flatDescriptors == old(flatDescriptors) + added && forall h :: h in added ==> fresh(added[h])
      ensures NodesKept()
    {
    }

    /** Tree and index agree. */
    ghost predicate Agree()
      reads this, flatServices.Values, flatCharacteristics.Values, flatDescriptors.Values
    {
      && flatServices == Content(services)
      && OwnHandles() && Indexed(Upper()) && Indexed(Lower())
    }

    ghost function Abs(): Catalog
      reads this, flatServices.Values, flatCharacteristics.Values, flatDescriptors.Values
    {
      CatalogOf(services, Includes(), Upper(), Lower())
    }

    /** What the directory knows, if tree and index agree. */
    ghost function State(): Option<Catalog>
      reads this, flatServices.Values, flatCharacteristics.Values, flatDescriptors.Values
    {
      if Agree() then Some(Abs()) else None
    }

    lemma StateIs()
      ensures State() == if Agree() then Some(Abs()) else None
    {
    }

    constructor Empty()
      ensures State() == Some(EMPTY)
      ensures fresh(flatServices.Values) && fresh(flatCharacteristics.Values)
    {
      services := None;
      flatServices, flatCharacteristics, flatDescriptors := map[], map[], map[];
      new;
      NothingKnown();
    }

    lemma NothingKnown()
      requires services == None && flatServices == map[] && flatCharacteristics == map[] && flatDescriptors == map[]
      ensures State() == Some(EMPTY) && Tree(EMPTY) == Profile(None)
    {
      assert Agree() && Abs() == EMPTY;
    }

    lemma FilledUpper(t: Leaves)
      requires Rooted(t, flatServices.Keys) && Linked(flatServices, t) && flatCharacteristics == t.characteristics
      ensures ShowsUpper(t.includes, UpperOf(flatServices, t))
    {
    }

    lemma FilledLower(t: Leaves)
      requires Rooted(t, flatServices.Keys) && Linked(flatServices, t)
      requires flatCharacteristics == t.characteristics && flatDescriptors == t.descriptors
      ensures ShowsLower(LowerOf(t))
    {
    }

    lemma FilledAgrees(t: Leaves)
      requires Rooted(t, flatServices.Keys) && Linked(flatServices, t)
      requires services == Some(flatServices) && forall s :: s in flatServices ==> flatServices[s].service.handle == s
      requires flatCharacteristics == t.characteristics && flatDescriptors == t.descriptors
      ensures Agree() && Abs() == CatalogOf(services, t.includes, UpperOf(flatServices, t), LowerOf(t))
    {
      FilledUpper(t);
      FilledLower(t);
      ShowsThese(t.includes, UpperOf(flatServices, t), LowerOf(t));
      UpperIndexed(flatServices, t);
      LowerIndexed(flatServices, t);
    }

    /** The index over a copy of a profile in which every handle has one place agrees with it. */
    lemma FilledUnique(p: Profile)
      requires Cloned(flatServices, p) && AllHandled(flatServices) && Unique(p)
      requires p.services.Some? && services == Some(flatServices)
      requires flatCharacteristics == Together(CharacteristicParts(flatServices))
      requires flatDescriptors == Together(LowerParts(flatServices))
      ensures Agree() && Tree(Abs()) == p
    {
      var t := LeavesOf(flatServices, p);
      LeavesTogether(flatServices, t);
      FilledAgrees(t);
      CopiedTree(flatServices, p, t);
    }

    lemma CopiedHeld(p: Profile, s: nat, h: nat)
      requires Cloned(flatServices, p) && Agree() && HasCharacteristic(p, s, h)
      ensures s in flatServices && h in flatCharacteristics && flatCharacteristics[h].parent == flatServices[s]
      ensures CharacteristicCloned(flatCharacteristics[h], CharacteristicAt(p, s, h))
    {
      ClonedNode(flatServices, p, s, h);
      assert InRecord(Upper(), s, h) && Held(Upper(), s, h);
    }

    lemma CopiedHeldBelow(p: Profile, s: nat, h: nat, d: nat)
      requires Cloned(flatServices, p) && Agree() && HasDescriptor(p, s, h, d)
      ensures h in flatCharacteristics && d in flatDescriptors && flatDescriptors[d].parent == flatCharacteristics[h]
    {
      CopiedHeld(p, s, h);
      assert d in DescriptorInfos(Content(flatCharacteristics[h].descriptors));
      assert InRecord(Lower(), h, d) && Held(Lower(), h, d);
    }

    /** An index over a copy agrees with it only if every handle has one place. */
    lemma OneNodeEach(p: Profile)
      requires Cloned(flatServices, p) && Agree()
      ensures OnePlaceEach(p)
    {
      forall s, s', h | HasCharacteristic(p, s, h) && HasCharacteristic(p, s', h)
        ensures s == s'
      {
        CopiedHeld(p, s, h);
        CopiedHeld(p, s', h);
      }
      forall s, h, s', h', d | HasDescriptor(p, s, h, d) && HasDescriptor(p, s', h', d)
        ensures h == h'
      {
        CopiedHeldBelow(p, s, h, d);
        CopiedHeldBelow(p, s', h', d);
      }
    }

    /** The index over a copy agrees with it exactly when every handle has one place. */
    lemma FilledState(p: Profile)
      requires Cloned(flatServices, p) && Ordered(p)
      requires p.services.Some? && services == Some(flatServices)
      requires flatCharacteristics == Together(CharacteristicParts(flatServices))
      requires flatDescriptors == Together(LowerParts(flatServices))
      ensures State().Some? <==> OnePlaceEach(p)
      ensures State().Some? ==> Tree(State().value) == p
    {
      ClonedHandled(flatServices, p);
      if OnePlaceEach(p) {
        FilledUnique(p);
      } else if Agree() {
        OneNodeEach(p);
      }
    }

    method Adopt(flat: FlatProfile, ghost p: Profile)
      requires Cloned(flat.services, p) && Ordered(p) && p.services.Some?
      requires flat.characteristics == Together(CharacteristicParts(flat.services))
      requires flat.descriptors == Together(LowerParts(flat.services))
      modifies this
      ensures State().Some? <==> OnePlaceEach(p)
      ensures State().Some? ==> Tree(State().value) == p
      ensures flatServices == flat.services && flatCharacteristics == flat.characteristics
    {
      services := Some(flat.services);
      flatServices, flatCharacteristics, flatDescriptors := flat.services, flat.characteristics, flat.descriptors;
      hide Cloned, Together, CharacteristicParts, LowerParts, Ordered, OnePlaceEach, Agree, State;
      CopyKept(flat.services, p);
      FilledState(p);
    }

    /**
      A directory built from a profile: `cloneProfile`, then `fillFlatProfile`. Index and tree agree
      exactly when no handle occurs at two places.
     */
    constructor FromProfile(p: Profile)
      ensures State().Some? <==> OnePlaceEach(Refiled(p))
      ensures State().Some? ==> Tree(State().value) == Refiled(p)
      ensures fresh(flatServices.Values) && fresh(flatCharacteristics.Values)
    {
      services := None;
      flatServices, flatCharacteristics, flatDescriptors := map[], map[], map[];
      new;
      assert p.services.None? ==> Refiled(p) == Profile(None) && OnePlaceEach(Refiled(p));
      hide Cloned, Together, CharacteristicParts, LowerParts, OnePlaceEach, Refiled, Agree, State;
      if p.services.Some? {
        RefiledIsOrdered(p);
        var flat := CloneAndFill(p, Refiled(p));
        Adopt(flat, Refiled(p));
      } else {
        NothingKnown();
      }
    }

    lemma AllDistinct()
      requires OwnHandles()
      ensures Distinct(Upper()) && Distinct(Lower())
    {
    }

    lemma StateWellFormed()
      requires State().Some?
      ensures WellFormed(State().value)
    {
      hide State;
      StateIs();
      AllDistinct();
      CatalogWellFormed(services, Includes(), Upper(), Lower());
    }

    /** The record and the loop of `saveServices`. */
    method AddServices(list: seq<ServiceInfo>) returns (ghost added: map<nat, ServiceNode>)
      modifies this`services, this`flatServices
      ensures services == Some(Content(old(services)) + added)
      ensures flatServices == old(flatServices) + added
      ensures ServiceInfos(added) == ServicesByHandle(list)
      ensures forall s :: s in added ==>
        fresh(added[s]) && !added[s].includesKnown && added[s].characteristics == None
    {
      ghost var (base, index) := (Content(services), flatServices);
      added := map[];
      if services.None? {
        services := Some(map[]);
      }
      assert base + added == Content(services);
      for i := 0 to |list|
        invariant services == Some(base + added)
        invariant flatServices == index + added
        invariant ServiceInfos(added) == ServicesByHandle(list[..i])
        invariant forall s :: s in added ==>
          fresh(added[s]) && !added[s].includesKnown && added[s].characteristics == None
      {
        var node := new ServiceNode(list[i]);
        PlusUpdate(base, added, list[i].handle, node);
        PlusUpdate(index, added, list[i].handle, node);
        ServiceInfosUpdate(added, list[i].handle, node);
        services := Some(services.value[list[i].handle := node]);
        flatServices := flatServices[list[i].handle := services.value[list[i].handle]];
        added := added[list[i].handle := node];
        assert list[..i + 1][..i] == list[..i];
      }
      assert list[..|list|] == list;
    }

    twostate lemma UpperGotParents(new includes: set<nat>, u: Level<ServiceNode, CharacteristicNode>,
      new added: map<nat, ServiceNode>)
      requires old(ShowsUpper(includes, u)) && flatServices == u.parents + added && flatCharacteristics == u.children
      requires unchanged(u.parents.Values) && unchanged(u.children.Values)
      requires forall s :: s in added ==> !added[s].includesKnown && added[s].characteristics == None
      ensures ShowsUpper(includes - added.Keys, WithParents(u, added))
    {
    }

    twostate lemma LowerSame(l: Level<CharacteristicNode, DescriptorNode>)
      requires old(ShowsLower(l)) && flatCharacteristics == old(flatCharacteristics) &&
        flatDescriptors == old(flatDescriptors)
      requires unchanged(l.parents.Values) && unchanged(l.children.Values)
      ensures ShowsLower(l)
    {
    }

    twostate lemma OwnServiceHandles(new list: seq<ServiceInfo>, new added: map<nat, ServiceNode>)
      requires old(OwnHandles()) && flatServices == old(flatServices) + added &&
        ServiceInfos(added) == ServicesByHandle(list)
      requires flatCharacteristics == old(flatCharacteristics) && flatDescriptors == old(flatDescriptors)
      ensures OwnHandles()
    {
      ServiceHandles(list);
      assert ServiceInfos(added).Keys == added.Keys;
    }

    method PlaceServices(list: seq<ServiceInfo>, ghost includes: set<nat>,
      ghost u: Level<ServiceNode, CharacteristicNode>,
      ghost l: Level<CharacteristicNode, DescriptorNode>)
      returns (ghost added: map<nat, ServiceNode>)
      requires ShowsUpper(includes, u) && ShowsLower(l) && OwnHandles()
      modifies this`services, this`flatServices
      ensures services == Some(Content(old(services)) + added) && flatServices == old(flatServices) + added &&
        NodesKept()
      ensures forall s :: s in added ==> fresh(added[s])
      ensures ServiceInfos(added) == ServicesByHandle(list) && OwnHandles()
      ensures ShowsUpper(includes - added.Keys, WithParents(u, added)) && ShowsLower(l)
    {
      assert flatServices == u.parents && flatCharacteristics == u.children;
      assert flatCharacteristics == l.parents && flatDescriptors == l.children;
      hide ShowsUpper, ShowsLower, OwnHandles, ServiceInfos, ServicesByHandle;
      added := AddServices(list);
      UpperGotParents(includes, u, added);
      LowerSame(l);
      ServicesKept(added);
      OwnServiceHandles(list, added);
    }

    lemma ServicesSaved(before: Option<map<nat, ServiceNode>>, includes: set<nat>,
      u: Level<ServiceNode, CharacteristicNode>,
      l: Level<CharacteristicNode, DescriptorNode>, list: seq<ServiceInfo>, added: map<nat, ServiceNode>)
      requires Indexed(u) && Distinct(u) && Indexed(l) && u.parents == Content(before)
      requires services == Some(Content(before) + added) && OwnHandles() &&
        ServiceInfos(added) == ServicesByHandle(list)
      requires ShowsUpper(includes - added.Keys, WithParents(u, added)) && ShowsLower(l)
      ensures Abs() == SavedServices(CatalogOf(before, includes, u, l), list)
      ensures Agree() <==> ServicesFit(CatalogOf(before, includes, u, l), list)
    {
      ShowsThese(includes - added.Keys, WithParents(u, added), l);
      ServicesInCatalog(before, includes, u, l, list, added);
      ServicesFitLinks(before, includes, u, l, list, added);
    }

    /** Index and tree still agree exactly when no replaced service had characteristics. */
    method SaveServices(list: seq<ServiceInfo>)
      requires State().Some?
      modifies this
      ensures var c := old(State().value);
        State() == if ServicesFit(c, list) then Some(SavedServices(c, list)) else None
      ensures NodesKept()
    {
      hide State;
      StateIs();
      ghost var (before, includes, u, l) := (services, Includes(), Upper(), Lower());
      ShowsAll();
      AllDistinct();
      ghost var added := PlaceServices(list, includes, u, l);
      ServicesSaved(before, includes, u, l, list, added);
      StateIs();
    }

    method GetServices() returns (r: Option<seq<ServiceInfo>>)
      requires State().Some?
      ensures r == match State().value.services case None => None case Some(m) => Some(ListServices(m))
    {
      hide State;
      StateIs();
      if services.None? {
        return None;
      }
      var record := flatServices;
      var list := ServiceValues(record);
      return Some(list);
    }

    method GetIncludedServices(handle: nat) returns (known: bool)
      requires State().Some?
      ensures known <==> handle in State().value.includesKnown
    {
      hide State;
      StateIs();
      known := handle in flatServices && flatServices[handle].includesKnown;
    }

    /** `saveIncludedServices` with an empty list. */
    method SaveNoIncludedServices(handle: nat) returns (ok: bool)
      requires State().Some?
      modifies flatServices.Values
      ensures var c := old(State().value);
        ok == (handle in Known(c)) && State() == Some(if ok then SavedIncludes(c, handle) else c)
    {
      hide State;
      StateIs();
      if handle !in flatServices {
        return false;
      }
      ghost var (includes, u, l) := (Includes(), Upper(), Lower());
      ShowsAll();
      flatServices[handle].includesKnown := true;
      ok := true;
      ShowsThese(includes + {handle}, u, l);
      StateIs();
    }

    method GetCharacteristics(handle: nat) returns (r: Option<seq<CharacteristicInfo>>)
      requires State().Some?
      ensures var c := State().value;
        r == if handle in c.characteristics then Some(ListCharacteristics(c.characteristics[handle])) else None
    {
      hide State;
      StateIs();
      if handle !in flatServices || flatServices[handle].characteristics.None? {
        return None;
      }
      var list := CharacteristicValues(flatServices[handle].characteristics.value);
      return Some(list);
    }

    method PutCharacteristic(service: ServiceNode, info: CharacteristicInfo) returns (node: CharacteristicNode)
      requires service.characteristics.Some?
      modifies this`flatCharacteristics, service`characteristics
      ensures fresh(node) && node.characteristic == info && node.parent == service && node.descriptors == None
      ensures service.characteristics == Some(old(service.characteristics).value[info.handle := node])
      ensures flatCharacteristics == old(flatCharacteristics)[info.handle := node]
    {
      node := new CharacteristicNode(info, service);
      service.characteristics := Some(service.characteristics.value[info.handle := node]);
      flatCharacteristics := flatCharacteristics[info.handle := service.characteristics.value[info.handle]];
    }

    /**
      The record and the loop of `saveCharacteristics`: a node for each entry, in the service's record and in
      the index.
     */
    method AddCharacteristics(service: ServiceNode, list: seq<CharacteristicInfo>)
      returns (ghost added: map<nat, CharacteristicNode>)
      modifies this`flatCharacteristics, service`characteristics
      ensures service.characteristics == Some(Content(old(service.characteristics)) + added)
      ensures flatCharacteristics == old(flatCharacteristics) + added
      ensures CharacteristicInfos(added) == CharacteristicsByHandle(list)
      ensures forall h :: h in added ==>
        fresh(added[h]) && added[h].parent == service && added[h].descriptors == None
    {
      ghost var (base, index) := (Content(service.characteristics), flatCharacteristics);
      added := map[];
      assert CharacteristicInfos(added) == CharacteristicsByHandle(list[..0]);
      hide CharacteristicInfos, CharacteristicsByHandle;
      if service.characteristics.None? {
        service.characteristics := Some(map[]);
      }
      assert base + added == Content(service.characteristics);
      for i := 0 to |list|
        invariant service.characteristics == Some(base + added)
        invariant flatCharacteristics == index + added
        invariant CharacteristicInfos(added) == CharacteristicsByHandle(list[..i])
        invariant forall h :: h in added ==>
          fresh(added[h]) && added[h].parent == service && added[h].descriptors == None
      {
        var node := PutCharacteristic(service, list[i]);
        PlusUpdate(base, added, list[i].handle, node);
        PlusUpdate(index, added, list[i].handle, node);
        CharacteristicInfosUpdate(added, list[i].handle, node);
        added := added[list[i].handle := node];
        CharacteristicsByHandleNext(list, i);
      }
      assert list[..|list|] == list;
    }

    /** The upper level and the services with known includes are those of the nodes as they are linked now. */
    ghost predicate ShowsUpper(includes: set<nat>, u: Level<ServiceNode, CharacteristicNode>)
      reads this, flatServices.Values, flatCharacteristics.Values
    {
      && flatServices == u.parents && flatCharacteristics == u.children && includes <= flatServices.Keys
      && u.records.Keys == flatServices.Keys && u.parentOf.Keys == flatCharacteristics.Keys
      && (forall s :: s in flatServices ==> flatServices[s].includesKnown == (s in includes))
      && (forall s :: s in flatServices ==> flatServices[s].characteristics == u.records[s])
      && (forall h :: h in flatCharacteristics ==> ServiceLink(flatCharacteristics[h].parent) == u.parentOf[h])
    }

    ghost predicate ShowsLower(l: Level<CharacteristicNode, DescriptorNode>)
      reads this, flatCharacteristics.Values, flatDescriptors.Values
    {
      && flatCharacteristics == l.parents && flatDescriptors == l.children
      && l.records.Keys == flatCharacteristics.Keys && l.parentOf.Keys == flatDescriptors.Keys
      && (forall h :: h in flatCharacteristics ==> flatCharacteristics[h].descriptors == l.records[h])
      && (forall d :: d in flatDescriptors ==> CharacteristicLink(flatDescriptors[d].parent) == l.parentOf[d])
    }

    lemma ShowsAll()
      ensures ShowsUpper(Includes(), Upper()) && ShowsLower(Lower())
      ensures Abs() == CatalogOf(services, Includes(), Upper(), Lower())
    {
    }

    lemma ShowsThese(includes: set<nat>, u: Level<ServiceNode, CharacteristicNode>,
      l: Level<CharacteristicNode, DescriptorNode>)
      requires ShowsUpper(includes, u) && ShowsLower(l)
      ensures Upper() == u && Lower() == l && Includes() == includes
      ensures Abs() == CatalogOf(services, includes, u, l)
    {
      assert Upper().records == u.records;
      assert Upper().parentOf == u.parentOf;
      assert Lower().records == l.records;
      assert Lower().parentOf == l.parentOf;
    }

    twostate lemma UpperGrew(new includes: set<nat>, u: Level<ServiceNode, CharacteristicNode>, new handle: nat,
      new added: map<nat, CharacteristicNode>)
      requires old(ShowsUpper(includes, u)) && flatServices == u.parents && flatCharacteristics == u.children + added
      requires handle in u.parents && u.parents[handle].characteristics == Some(Content(u.records[handle]) + added)
      requires unchanged(u.parents.Values`includesKnown) && unchanged(u.children.Values)
      requires forall s :: s in u.parents && s != handle ==>
        u.parents[s].characteristics == old(u.parents[s].characteristics)
      requires forall h :: h in added ==> added[h].parent == u.parents[handle]
      ensures ShowsUpper(includes, WithChildren(u, handle, added))
    {
    }

    twostate lemma OwnCharacteristicHandles(new list: seq<CharacteristicInfo>, new added: map<nat, CharacteristicNode>)
      requires old(OwnHandles()) && flatCharacteristics == old(flatCharacteristics) + added
      requires CharacteristicInfos(added) == CharacteristicsByHandle(list)
      requires flatServices == old(flatServices) && flatDescriptors == old(flatDescriptors)
      ensures OwnHandles()
    {
      CharacteristicHandles(list);
      assert CharacteristicInfos(added).Keys == added.Keys;
    }

    method LinkCharacteristics(handle: nat, service: ServiceNode, list: seq<CharacteristicInfo>,
      ghost includes: set<nat>, ghost u: Level<ServiceNode, CharacteristicNode>)
      returns (ghost added: map<nat, CharacteristicNode>)
      requires ShowsUpper(includes, u) && OwnHandles() && handle in flatServices && flatServices[handle] == service
      modifies this`flatCharacteristics, service`characteristics
      ensures CharacteristicInfos(added) == CharacteristicsByHandle(list) && OwnHandles()
      ensures forall h :: h in added ==> fresh(added[h]) && added[h].descriptors == None
      ensures flatCharacteristics == old(flatCharacteristics) + added && NodesKept()
      ensures ShowsUpper(includes, WithChildren(u, handle, added))
    {
      assert flatServices == u.parents && flatCharacteristics == u.children &&
        service.characteristics == u.records[handle];
      hide ShowsUpper, OwnHandles, CharacteristicInfos, CharacteristicsByHandle;
      added := AddCharacteristics(service, list);
      UpperGrew(includes, u, handle, added);
      CharacteristicsKept(added);
      OwnCharacteristicHandles(list, added);
    }

    twostate lemma LowerUntouched(l: Level<CharacteristicNode, DescriptorNode>, new added: map<nat, CharacteristicNode>)
      requires old(ShowsLower(l)) && flatCharacteristics == l.parents + added && flatDescriptors == l.children
      requires unchanged(l.parents.Values) && unchanged(l.children.Values)
      requires forall h :: h in added ==> added[h].descriptors == None
      ensures ShowsLower(WithParents(l, added))
    {
    }

    twostate lemma UpperUntouched(new includes: set<nat>, u: Level<ServiceNode, CharacteristicNode>)
      requires old(ShowsUpper(includes, u)) && flatServices == u.parents && flatCharacteristics == u.children
      requires unchanged(u.parents.Values) && unchanged(u.children.Values`parent)
      ensures ShowsUpper(includes, u)
    {
    }

    method PlaceCharacteristics(handle: nat, service: ServiceNode, list: seq<CharacteristicInfo>,
      ghost includes: set<nat>, ghost u: Level<ServiceNode, CharacteristicNode>,
      ghost l: Level<CharacteristicNode, DescriptorNode>)
      returns (ghost added: map<nat, CharacteristicNode>)
      requires ShowsUpper(includes, u) && ShowsLower(l)
      requires OwnHandles() && handle in flatServices && flatServices[handle] == service
      modifies this`flatCharacteristics, service`characteristics
      ensures CharacteristicInfos(added) == CharacteristicsByHandle(list) && OwnHandles()
      ensures forall h :: h in added ==> fresh(added[h])
      ensures flatCharacteristics == old(flatCharacteristics) + added && NodesKept()
      ensures ShowsUpper(includes, WithChildren(u, handle, added)) && ShowsLower(WithParents(l, added))
    {
      assert flatServices == u.parents && flatCharacteristics == l.parents && flatDescriptors == l.children;
      hide ShowsUpper, ShowsLower, OwnHandles;
      added := LinkCharacteristics(handle, service, list, includes, u);
      LowerUntouched(l, added);
    }

    lemma CharacteristicsSaved(includes: set<nat>, u: Level<ServiceNode, CharacteristicNode>,
      l: Level<CharacteristicNode, DescriptorNode>, handle: nat, list: seq<CharacteristicInfo>,
      added: map<nat, CharacteristicNode>)
      requires Indexed(u) && Indexed(l) && Distinct(l) && u.parents == Content(services) && handle in u.parents
      requires OwnHandles() && CharacteristicInfos(added) == CharacteristicsByHandle(list)
      requires forall h :: h in added && h in u.children ==> added[h] != u.children[h]
      requires ShowsUpper(includes, WithChildren(u, handle, added)) && ShowsLower(WithParents(l, added))
      ensures Abs() == SavedCharacteristics(CatalogOf(services, includes, u, l), handle, list)
      ensures Agree() <==> CharacteristicsFit(CatalogOf(services, includes, u, l), handle, list)
    {
      ShowsThese(includes, WithChildren(u, handle, added), WithParents(l, added));
      CharacteristicsInCatalog(services, includes, u, l, handle, list, added);
      CharacteristicsFitLinks(services, includes, u, l, handle, list, added);
    }

    method CommitCharacteristics(handle: nat, service: ServiceNode, list: seq<CharacteristicInfo>,
      ghost includes: set<nat>, ghost u: Level<ServiceNode, CharacteristicNode>,
      ghost l: Level<CharacteristicNode, DescriptorNode>)
      requires ShowsUpper(includes, u) && ShowsLower(l) && OwnHandles() && u.parents == Content(services)
      requires Indexed(u) && Indexed(l) && Distinct(l)
      requires handle in flatServices && flatServices[handle] == service
      modifies this`flatCharacteristics, service`characteristics
      ensures Abs() == SavedCharacteristics(CatalogOf(services, includes, u, l), handle, list)
      ensures Agree() <==> CharacteristicsFit(CatalogOf(services, includes, u, l), handle, list)
      ensures NodesKept()
    {
      ghost var added := PlaceCharacteristics(handle, service, list, includes, u, l);
      CharacteristicsSaved(includes, u, l, handle, list, added);
    }

    /**
      Index and tree still agree exactly when no other service had one of the characteristics and no
      replaced one had descriptors.
     */
    method SaveCharacteristics(handle: nat, list: seq<CharacteristicInfo>) returns (ok: bool)
      requires State().Some?
      modifies this, flatServices.Values
      ensures var c := old(State().value);
        && ok == (handle in Known(c)) && (!ok ==> State() == Some(c))
        && (ok ==> State() == if CharacteristicsFit(c, handle, list) then Some(SavedCharacteristics(c, handle, list))
          else None)
      ensures flatServices == old(flatServices) && NodesKept()
    {
      hide State;
      StateIs();
      if handle !in flatServices {
        return false;
      }
      ok := true;
      ShowsAll();
      AllDistinct();
      CommitCharacteristics(handle, flatServices[handle], list, Includes(), Upper(), Lower());
      StateIs();
    }

    method GetDescriptors(handle: nat) returns (r: Option<seq<DescriptorInfo>>)
      requires State().Some?
      ensures var c := State().value;
        r == if handle in c.descriptors then Some(ListDescriptors(c.descriptors[handle])) else None
    {
      hide State;
      StateIs();
      if handle !in flatCharacteristics || flatCharacteristics[handle].descriptors.None? {
        return None;
      }
      var list := DescriptorValues(flatCharacteristics[handle].descriptors.value);
      return Some(list);
    }

    method PutDescriptor(characteristic: CharacteristicNode, info: DescriptorInfo) returns (node: DescriptorNode)
      requires characteristic.descriptors.Some?
      modifies this`flatDescriptors, characteristic`descriptors
      ensures fresh(node) && node.descriptor == info && node.parent == characteristic
      ensures characteristic.descriptors == Some(old(characteristic.descriptors).value[info.handle := node])
      ensures flatDescriptors == old(flatDescriptors)[info.handle := node]
    {
      node := new DescriptorNode(info, characteristic);
      characteristic.descriptors := Some(characteristic.descriptors.value[info.handle := node]);
      flatDescriptors := flatDescriptors[info.handle := characteristic.descriptors.value[info.handle]];
    }

    /** The record and the loop of `saveDescriptors`. */
    method AddDescriptors(characteristic: CharacteristicNode, list: seq<DescriptorInfo>)
      returns (ghost added: map<nat, DescriptorNode>)
      modifies this`flatDescriptors, characteristic`descriptors
      ensures characteristic.descriptors == Some(Content(old(characteristic.descriptors)) + added)
      ensures flatDescriptors == old(flatDescriptors) + added
      ensures DescriptorInfos(added) == DescriptorsByHandle(list)
      ensures forall d :: d in added ==>
        fresh(added[d]) && added[d].parent == characteristic
    {
      ghost var (base, index) := (Content(characteristic.descriptors), flatDescriptors);
      added := map[];
      assert DescriptorInfos(added) == DescriptorsByHandle(list[..0]);
      hide DescriptorInfos, DescriptorsByHandle;
      if characteristic.descriptors.None? {
        characteristic.descriptors := Some(map[]);
      }
      assert base + added == Content(characteristic.descriptors);
      for i := 0 to |list|
        invariant characteristic.descriptors == Some(base + added)
        invariant flatDescriptors == index + added
        invariant DescriptorInfos(added) == DescriptorsByHandle(list[..i])
        invariant forall d :: d in added ==>
          fresh(added[d]) && added[d].parent == characteristic
      {
        var node := PutDescriptor(characteristic, list[i]);
        PlusUpdate(base, added, list[i].handle, node);
        PlusUpdate(index, added, list[i].handle, node);
        DescriptorInfosUpdate(added, list[i].handle, node);
        added := added[list[i].handle := node];
        DescriptorsByHandleNext(list, i);
      }
      assert list[..|list|] == list;
    }

    twostate lemma LowerGrew(l: Level<CharacteristicNode, DescriptorNode>, new handle: nat,
      new added: map<nat, DescriptorNode>)
      requires old(ShowsLower(l)) && flatCharacteristics == l.parents && flatDescriptors == l.children + added
      requires handle in l.parents && l.parents[handle].descriptors == Some(Content(l.records[handle]) + added)
      requires unchanged(l.children.Values)
      requires forall h :: h in l.parents && h != handle ==> l.parents[h].descriptors == old(l.parents[h].descriptors)
      requires forall d :: d in added ==> added[d].parent == l.parents[handle]
      ensures ShowsLower(WithChildren(l, handle, added))
    {
    }

    twostate lemma OwnDescriptorHandles(new list: seq<DescriptorInfo>, new added: map<nat, DescriptorNode>)
      requires old(OwnHandles()) && flatDescriptors == old(flatDescriptors) + added
      requires DescriptorInfos(added) == DescriptorsByHandle(list)
      requires flatServices == old(flatServices) && flatCharacteristics == old(flatCharacteristics)
      ensures OwnHandles()
    {
      DescriptorHandles(list);
      assert DescriptorInfos(added).Keys == added.Keys;
    }

    method LinkDescriptors(handle: nat, characteristic: CharacteristicNode, list: seq<DescriptorInfo>,
      ghost l: Level<CharacteristicNode, DescriptorNode>)
      returns (ghost added: map<nat, DescriptorNode>)
      requires ShowsLower(l) && OwnHandles() && handle in flatCharacteristics &&
        flatCharacteristics[handle] == characteristic
      modifies this`flatDescriptors, characteristic`descriptors
      ensures DescriptorInfos(added) == DescriptorsByHandle(list) && OwnHandles()
      ensures forall d :: d in added ==> fresh(added[d])
      ensures flatDescriptors == old(flatDescriptors) + added && NodesKept()
      ensures ShowsLower(WithChildren(l, handle, added))
    {
      assert flatCharacteristics == l.parents && flatDescriptors == l.children &&
        characteristic.descriptors == l.records[handle];
      hide ShowsLower, OwnHandles, DescriptorInfos, DescriptorsByHandle;
      added := AddDescriptors(characteristic, list);
      LowerGrew(l, handle, added);
      DescriptorsKept(added);
      OwnDescriptorHandles(list, added);
    }

    method PlaceDescriptors(handle: nat, characteristic: CharacteristicNode, list: seq<DescriptorInfo>,
      ghost includes: set<nat>, ghost u: Level<ServiceNode, CharacteristicNode>,
      ghost l: Level<CharacteristicNode, DescriptorNode>)
      returns (ghost added: map<nat, DescriptorNode>)
      requires ShowsUpper(includes, u) && ShowsLower(l)
      requires OwnHandles() && handle in flatCharacteristics && flatCharacteristics[handle] == characteristic
      modifies this`flatDescriptors, characteristic`descriptors
      ensures DescriptorInfos(added) == DescriptorsByHandle(list) && OwnHandles()
      ensures forall d :: d in added ==> fresh(added[d])
      ensures flatDescriptors == old(flatDescriptors) + added && NodesKept()
      ensures ShowsUpper(includes, u) && ShowsLower(WithChildren(l, handle, added))
    {
      assert flatServices == u.parents && flatCharacteristics == u.children == l.parents;
      hide ShowsUpper, ShowsLower, OwnHandles;
      added := LinkDescriptors(handle, characteristic, list, l);
      UpperUntouched(includes, u);
    }

    lemma DescriptorsSaved(includes: set<nat>, u: Level<ServiceNode, CharacteristicNode>,
      l: Level<CharacteristicNode, DescriptorNode>, handle: nat, list: seq<DescriptorInfo>,
      added: map<nat, DescriptorNode>)
      requires Indexed(u) && Indexed(l) && u.parents == Content(services) && handle in l.parents
      requires OwnHandles() && DescriptorInfos(added) == DescriptorsByHandle(list)
      requires forall d :: d in added && d in l.children ==> added[d] != l.children[d]
      requires ShowsUpper(includes, u) && ShowsLower(WithChildren(l, handle, added))
      ensures Abs() == SavedDescriptors(CatalogOf(services, includes, u, l), handle, list)
      ensures Agree() <==> DescriptorsFit(CatalogOf(services, includes, u, l), handle, list)
    {
      ShowsThese(includes, u, WithChildren(l, handle, added));
      DescriptorsInCatalog(services, includes, u, l, handle, list, added);
      DescriptorsFitLinks(services, includes, u, l, handle, list, added);
    }

    method CommitDescriptors(handle: nat, characteristic: CharacteristicNode, list: seq<DescriptorInfo>,
      ghost includes: set<nat>, ghost u: Level<ServiceNode, CharacteristicNode>,
      ghost l: Level<CharacteristicNode, DescriptorNode>)
      requires ShowsUpper(includes, u) && ShowsLower(l) && OwnHandles() && Indexed(u) && Indexed(l) &&
        u.parents == Content(services)
      requires handle in flatCharacteristics && flatCharacteristics[handle] == characteristic
      modifies this`flatDescriptors, characteristic`descriptors
      ensures Abs() == SavedDescriptors(CatalogOf(services, includes, u, l), handle, list)
      ensures Agree() <==> DescriptorsFit(CatalogOf(services, includes, u, l), handle, list)
      ensures NodesKept()
    {
      ghost var added := PlaceDescriptors(handle, characteristic, list, includes, u, l);
      DescriptorsSaved(includes, u, l, handle, list, added);
    }

    /** Index and tree still agree exactly when no other characteristic had one of the descriptors. */
    method SaveDescriptors(handle: nat, list: seq<DescriptorInfo>) returns (ok: bool)
      requires State().Some?
      modifies this, flatCharacteristics.Values
      ensures var c := old(State().value);
        && ok == (exists s :: CharacteristicOf(c, handle, s)) && (!ok ==> State() == Some(c))
        && (ok ==> State() == if DescriptorsFit(c, handle, list) then Some(SavedDescriptors(c, handle, list)) else None)
      ensures flatServices == old(flatServices) && flatCharacteristics == old(flatCharacteristics)
    {
      hide State, Abs, DescriptorsFit, SavedDescriptors, CharacteristicOf, CatalogOf;
      StateIs();
      CharacteristicIsIndexed(handle);
      if handle !in flatCharacteristics {
        return false;
      }
      ok := true;
      ShowsAll();
      CommitDescriptors(handle, flatCharacteristics[handle], list, Includes(), Upper(), Lower());
      StateIs();
    }

    lemma CharacteristicIsIndexed(handle: nat)
      requires Agree()
      ensures handle in flatCharacteristics <==> exists s :: CharacteristicOf(Abs(), handle, s)
    {
      assert forall s :: CharacteristicOf(Abs(), handle, s) <==> InRecord(Upper(), s, handle);
      if handle in flatCharacteristics {
        var s :| Held(Upper(), s, handle);
        assert CharacteristicOf(Abs(), handle, s);
      } else {
        assert forall s :: InRecord(Upper(), s, handle) ==> Held(Upper(), s, handle);
      }
    }

    // -------------------------------------------------------------- lookups

    lemma CharacteristicInTree(s: nat, h: nat)
      requires Agree() && InRecord(Upper(), s, h)
      ensures CharacteristicValue(Content(flatServices[s].characteristics)[h])
           == Characteristic(Content(flatServices[s].characteristics)[h].characteristic, DescriptorsAt(Abs(), h))
    {
      assert Held(Upper(), s, h);
    }

    lemma ServiceInTree(s: nat)
      requires Agree() && services.Some? && s in services.value
      ensures ServiceValue(services.value[s]) == Tree(Abs()).services.value[s]
    {
      var c := Abs();
      var node := services.value[s];
      if node.characteristics.Some? {
        var record := node.characteristics.value;
        RecordInCatalog(s);
        forall h | h in record
          ensures CharacteristicValue(record[h]) == Characteristic(c.characteristics[s][h], DescriptorsAt(c, h))
        {
          CharacteristicInTree(s, h);
        }
        assert CharacteristicsAt(c, s).value == map h | h in record :: CharacteristicValue(record[h]);
      }
    }

    /** The `Profile` getter: the tree as a value of its own. */
    method GetProfile() returns (p: Profile)
      requires State().Some?
      ensures p == Tree(State().value)
    {
      hide State;
      StateIs();
      if services.None? {
        return Profile(None);
      }
      p := Profile(Some(map s | s in services.value :: ServiceValue(services.value[s])));
      forall s | s in services.value
        ensures p.services.value[s] == Tree(Abs()).services.value[s]
      {
        ServiceInTree(s);
      }
      assert p.services.value == Tree(Abs()).services.value;
    }

    lemma DescriptorLeads(d: nat, h: nat, s: nat)
      requires Agree() && Held(Lower(), h, d) && Held(Upper(), s, h)
      ensures Leads(Abs(), d,
        Entry(flatServices[s].service, flatCharacteristics[h].characteristic, flatDescriptors[d].descriptor))
    {
      CatalogPaths(services, Includes(), Upper(), Lower());
    }

    /** Follows the parent links from the descriptor kept under `handle`. */
    method FindByDescriptorHandle(handle: nat) returns (r: Option<Entry>)
      requires State().Some?
      ensures r.Some? ==> Leads(State().value, handle, r.value)
      ensures r.None? ==> forall h :: !DescriptorOf(State().value, handle, h)
    {
      hide State;
      StateIs();
      r := None;
      CatalogPaths(services, Includes(), Upper(), Lower());
      if handle in flatDescriptors {
        var d := flatDescriptors[handle];
        ghost var h :| Held(Lower(), h, handle);
        ghost var s :| Held(Upper(), s, h);
        DescriptorLeads(handle, h, s);
        if d.parent != null {
          var c: CharacteristicNode := d.parent;
          if c.parent != null {
            r := Some(Entry(c.parent.service, c.characteristic, d.descriptor));
          }
        }
      }
    }

    /** The loop over services of the lookups by UUID. */
    method FindServiceByUuid(uuid: Uuid) returns (handle: Option<nat>)
      requires State().Some?
      ensures handle.Some? ==> handle.value in flatServices
      ensures FirstService(ListServices(Known(State().value)), uuid)
           == match handle case None => None case Some(s) => Some(flatServices[s].service)
    {
      hide State;
      StateIs();
      ghost var list := ListServices(Known(Abs()));
      assert Known(Abs()) == ServiceInfos(flatServices) && ServiceInfos(flatServices).Keys == flatServices.Keys;
      SortedIsAscending(flatServices.Keys);
      var keys := Sorted(flatServices.Keys);
      for i := 0 to |keys|
        invariant FirstService(list, uuid) == FirstService(list[i..], uuid)
      {
        assert keys[i] in keys;
        assert list[i..][0] == flatServices[keys[i]].service && list[i..][1..] == list[i + 1..];
        if flatServices[keys[i]].service.uuid == uuid {
          return Some(keys[i]);
        }
      }
      assert list[|keys|..] == [];
      return None;
    }

    lemma NodeHasType(s: nat, h: nat, uuid: Uuid)
      requires Agree() && s in flatServices && h in Content(flatServices[s].characteristics)
      ensures HasType(Abs(), h, uuid)
         <==> TypeIn(DescriptorInfos(Content(Content(flatServices[s].characteristics)[h].descriptors)), uuid)
      ensures Content(flatServices[s].characteristics)[h].characteristic.handle == h
    {
      assert InRecord(Upper(), s, h) && Held(Upper(), s, h);
      var node := flatCharacteristics[h];
      if node.descriptors.Some? {
        assert Abs().descriptors[h] == DescriptorInfos(node.descriptors.value);
      }
    }

    lemma RecordInCatalog(s: nat)
      requires Agree() && s in flatServices
      ensures flatServices[s].service.handle == s
      ensures s in Abs().characteristics <==> flatServices[s].characteristics.Some?
      ensures s in Abs().characteristics ==>
        Abs().characteristics[s] == CharacteristicInfos(Content(flatServices[s].characteristics))
    {
    }

    lemma RecordHasType(s: nat, uuid: Uuid)
      requires Agree() && s in flatServices
      ensures KnowsTypes(Abs(), Content(flatServices[s].characteristics), uuid)
    {
      forall h | h in Content(flatServices[s].characteristics)
        ensures Content(flatServices[s].characteristics)[h].characteristic.handle == h
        ensures HasType(Abs(), h, uuid) ==
          TypeIn(DescriptorInfos(Content(Content(flatServices[s].characteristics)[h].descriptors)), uuid)
      {
        NodeHasType(s, h, uuid);
      }
    }

    method FindCharacteristicIn(s: nat, uuid: Uuid) returns (r: Option<CharacteristicInfo>)
      requires State().Some? && s in flatServices
      ensures flatServices[s].service.handle == s
      ensures r == FirstIn(State().value, s, uuid)
    {
      hide State;
      StateIs();
      RecordInCatalog(s);
      r := None;
      if flatServices[s].characteristics.Some? {
        RecordHasType(s, uuid);
        var record := flatServices[s].characteristics.value;
        r := FirstNodeWithType(record, uuid, Abs());
      }
    }

    method FindCharacteristicByUuids(service: Uuid, characteristic: Uuid) returns (r: Option<CharacteristicInfo>)
      requires State().Some?
      ensures r == CharacteristicByUuids(State().value, service, characteristic)
    {
      hide State;
      r := None;
      var s := FindServiceByUuid(service);
      if s.Some? {
        r := FindCharacteristicIn(s.value, characteristic);
      }
    }
  }

  /** Every answer comes from the catalog, so a directory rebuilt from another's profile answers every call alike. */
  lemma SameProfileSameState(rebuilt: GattDirectory, original: GattDirectory)
    requires rebuilt.State().Some? && original.State().Some?
    requires Tree(rebuilt.State().value) == Tree(original.State().value)
    ensures rebuilt.State() == original.State()
  {
    rebuilt.StateWellFormed();
    original.StateWellFormed();
    TreeDeterminesCatalog(rebuilt.State().value, original.State().value);
  }
}
