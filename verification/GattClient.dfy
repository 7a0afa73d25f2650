/**
  Discovery in `GattClient`, against a server that may page its answers as it likes and fail any request.
  What the directory knows already is not asked for again.
 */
module GattClient {
  import opened Bytes
  import opened GattDirectory
  import opened GattFiling
  import opened GattPaging
  import opened GattProfile
  import opened GattServer

  datatype DiscoveryError = Att(code: nat) | Malformed

  /**
    `first` is the number of requests sent before a call, `sent` that of those it sends; the answers may
    depend on the count.
   */
  class GattClient {
    const directory: GattDirectory
    const byGroup: Server<seq<byte>>
    const includes: Server<seq<byte>>
    const byType: Server<seq<byte>>
    const information: Server<Uuid>

    /**
      With an empty directory, or one made from the profile of an earlier discovery, in which index and tree
      agree exactly when no handle occurs at two places.
     */
    constructor (byGroup: Server<seq<byte>>, includes: Server<seq<byte>>, byType: Server<seq<byte>>,
      information: Server<Uuid>,
      profile: Option<Profile>)
      ensures this.byGroup == byGroup && this.includes == includes && this.byType == byType &&
        this.information == information
      ensures directory.State().Some? <==> OnePlaceEach(Refiled(Given(profile)))
      ensures directory.State().Some? ==> Tree(directory.State().value) == Refiled(Given(profile))
      ensures fresh(directory) && fresh(directory.flatServices.Values) && fresh(directory.flatCharacteristics.Values)
    {
      var d := NewDirectory(profile);
      directory := d;
      this.byGroup, this.includes, this.byType, this.information := byGroup, includes, byType, information;
    }

    /** The answers are those of a server with this database. */
    ghost predicate Served(db: Database) {
      && ValidDatabase(db) && Conforms(byGroup, db.services) && Conforms(includes, db.includes)
      && Conforms(byType, db.declarations) && Conforms(information, db.attributes)
    }

    ghost predicate RequestFails(n: nat, code: nat) {
      || (exists lo, hi :: AnsweredBy(byGroup, n, lo, hi, code))
      || (exists lo, hi :: AnsweredBy(includes, n, lo, hi, code))
      || (exists lo, hi :: AnsweredBy(byType, n, lo, hi, code))
      || (exists lo, hi :: AnsweredBy(information, n, lo, hi, code))
    }

    /** No request from the n-th on is answered with an error other than that there is nothing to find. */
    ghost predicate UnfailingFrom(first: nat) {
      forall n, code :: first <= n ==> !RequestFails(n, code)
    }

    /** An error is that of the last request, or there is an Include declaration, which no other error tells. */
    ghost predicate Caused(e: DiscoveryError, last: int, db: Database)
      requires ValidDatabase(db)
    {
      match e
      case Att(code) => last >= 0 && RequestFails(last, code)
      case Malformed => SomeInclude(db)
    }

    lemma OnlyIncludes(e: DiscoveryError, first: nat, last: int, db: Database)
      requires ValidDatabase(db) && Caused(e, last, db) && first <= last
      ensures UnfailingFrom(first) ==> SomeInclude(db)
    {
    }

    // -------------------------------------------------------------- requests and what their entries say

    method AskServices(first: nat, ghost db: Database) returns (r: Result<seq<ServiceInfo>, DiscoveryError>, sent: nat)
      requires Served(db)
      ensures r.Success? ==> r.value == ServicesOf(db)
      ensures r.Failure? ==> sent > 0 && r.error.Att? && RequestFails(first + sent - 1, r.error.code)
      ensures sent <= |db.services| + 1
    {
      AllServices(db);
      var reply;
      reply, sent := ReadByGroupTypeBetween(byGroup, db.services, first, 1, 0xFFFF);
      if reply.Failure? {
        return Failure(Att(reply.error)), sent;
      }
      var parsed := ParseServices(reply.value);
      if parsed.None? {
        return Failure(Malformed), sent;
      }
      assert parsed.value == ServicesOf(db);
      return Success(parsed.value), sent;
    }

    /** An Include declaration is no UUID: only a service without one has an answer that can be used. */
    method AskIncludedServices(first: nat, s: ServiceInfo, ghost db: Database)
      returns (r: Result<seq<ServiceInfo>, DiscoveryError>, sent: nat)
      requires Served(db)
      ensures r.Success? ==> r.value == [] && !HasInclude(db, s)
      ensures r.Failure? ==> sent > 0
      ensures r.Failure? ==> if r.error.Att? then RequestFails(first + sent - 1, r.error.code) else HasInclude(db, s)
      ensures sent <= |Within(db.includes, s.handle, s.endingHandle)| + 1
    {
      IncludesRefused(db, s);
      var reply;
      reply, sent := ReadByTypeBetween(includes, db.includes, first, s.handle, s.endingHandle);
      if reply.Failure? {
        return Failure(Att(reply.error)), sent;
      }
      var parsed := ParseServices(reply.value);
      if parsed.None? {
        return Failure(Malformed), sent;
      }
      return Success(parsed.value), sent;
    }

    method AskCharacteristics(first: nat, s: ServiceInfo, ghost db: Database)
      returns (r: Result<seq<CharacteristicInfo>, DiscoveryError>, sent: nat)
      requires Served(db)
      ensures r.Success? ==> r.value == CharacteristicsOf(db, s)
      ensures r.Failure? ==> sent > 0 && r.error.Att? && RequestFails(first + sent - 1, r.error.code)
      ensures sent <= |Within(db.declarations, s.handle, s.endingHandle)| + 1
    {
      DeclarationsWithin(db, s.handle, s.endingHandle);
      var reply;
      reply, sent := ReadByTypeBetween(byType, db.declarations, first, s.handle, s.endingHandle);
      if reply.Failure? {
        return Failure(Att(reply.error)), sent;
      }
      var parsed := ParseCharacteristics(reply.value);
      if parsed.None? {
        return Failure(Malformed), sent;
      }
      assert parsed.value == CharacteristicsOf(db, s);
      return Success(parsed.value), sent;
    }

    method AskDescriptors(first: nat, c: CharacteristicInfo, ghost db: Database)
      returns (r: Result<seq<DescriptorInfo>, DiscoveryError>, sent: nat)
      requires Served(db)
      ensures r.Success? ==> r.value == DescriptorsOf(db, c)
      ensures r.Failure? ==> sent > 0 && r.error.Att? && RequestFails(first + sent - 1, r.error.code)
      ensures sent <= Attributes(db, c) + 1
    {
      AttributesWithin(db, c.handle, c.endingHandle);
      var reply;
      reply, sent := ReadByTypeBetween(information, db.attributes, first, c.handle, c.endingHandle);
      if reply.Failure? {
        return Failure(Att(reply.error)), sent;
      }
      var parsed := ParseDescriptors(reply.value);
      if parsed.None? {
        return Failure(Malformed), sent;
      }
      assert parsed.value == DescriptorsOf(db, c);
      return Success(parsed.value), sent;
    }

    // -------------------------------------------------------------- discovery, one record at a time

    method DiscoverServices(first: nat, ghost db: Database, ghost c: Catalog)
      returns (r: Result<seq<ServiceInfo>, DiscoveryError>, sent: nat)
      requires Served(db) && directory.State() == Some(c)
      requires c.services.None? ==> ServicesFit(c, ServicesOf(db))
      modifies directory
      ensures directory.State() == Some(if r.Success? then WithServices(c, db) else c) && directory.NodesKept()
      ensures c.services.Some? ==> r == Success(ListServices(c.services.value)) && sent == 0
      ensures c.services.None? && r.Success? ==> r.value == ServicesOf(db)
      ensures r.Failure? ==> sent > 0 && r.error.Att? && RequestFails(first + sent - 1, r.error.code)
      ensures sent <= |db.services| + 1
    {
      hide GattDirectory.State;
      var cached := directory.GetServices();
      if cached.Some? {
        return Success(cached.value), 0;
      }
      r, sent := AskServices(first, db);
      if r.Success? {
        directory.SaveServices(r.value);
      }
    }

    method DiscoverIncludedServices(first: nat, service: ServiceInfo, ghost db: Database, ghost c: Catalog)
      returns (error: Option<DiscoveryError>, sent: nat)
      requires Served(db) && directory.State() == Some(c) && Partial(c, db)
      requires service.handle in Known(c) && Known(c)[service.handle] == service
      modifies directory.flatServices.Values
      ensures directory.State() == Some(if error.None? then SavedIncludes(c, service.handle) else c)
      ensures error.None? ==> !HasInclude(db, service)
      ensures error.Some? ==> sent > 0
      ensures error.Some? ==>
        if error.value.Att? then RequestFails(first + sent - 1, error.value.code) else HasInclude(db, service)
      ensures service.handle in c.includesKnown ==> error.None? && sent == 0
      ensures sent <= |Within(db.includes, service.handle, service.endingHandle)| + 1
    {
      hide GattDirectory.State;
      var cached := directory.GetIncludedServices(service.handle);
      if cached {
        assert c.includesKnown + {service.handle} == c.includesKnown;
        return None, 0;
      }
      var asked;
      asked, sent := AskIncludedServices(first, service, db);
      if asked.Failure? {
        return Some(asked.error), sent;
      }
      var saved := directory.SaveNoIncludedServices(service.handle);
      return None, sent;
    }

    method DiscoverCharacteristics(first: nat, service: ServiceInfo, ghost db: Database, ghost c: Catalog)
      returns (r: Result<seq<CharacteristicInfo>, DiscoveryError>, sent: nat)
      requires Served(db) && directory.State() == Some(c) && service.handle in Known(c)
      requires service.handle !in c.characteristics ==>
        CharacteristicsFit(c, service.handle, CharacteristicsOf(db, service))
      modifies directory, directory.flatServices.Values
      ensures directory.State() == Some(if r.Success? then WithCharacteristics(c, db, service) else c) &&
        directory.NodesKept()
      ensures service.handle in c.characteristics ==>
        r == Success(ListCharacteristics(c.characteristics[service.handle])) && sent == 0
      ensures service.handle !in c.characteristics && r.Success? ==> r.value == CharacteristicsOf(db, service)
      ensures r.Failure? ==> sent > 0 && r.error.Att? && RequestFails(first + sent - 1, r.error.code)
      ensures sent <= |Within(db.declarations, service.handle, service.endingHandle)| + 1
    {
      hide GattDirectory.State;
      var cached := directory.GetCharacteristics(service.handle);
      if cached.Some? {
        return Success(cached.value), 0;
      }
      r, sent := AskCharacteristics(first, service, db);
      if r.Success? {
        var saved := directory.SaveCharacteristics(service.handle, r.value);
      }
    }

    method DiscoverDescriptors(first: nat, x: CharacteristicInfo, ghost s: nat, ghost db: Database, ghost c: Catalog)
      returns (r: Result<seq<DescriptorInfo>, DiscoveryError>, sent: nat)
      requires Served(db) && directory.State() == Some(c) && CharacteristicOf(c, x.handle, s)
      requires x.handle !in c.descriptors ==> DescriptorsFit(c, x.handle, DescriptorsOf(db, x))
      modifies directory, directory.flatCharacteristics.Values
      ensures directory.State() == Some(if r.Success? then WithDescriptors(c, db, x) else c)
      ensures directory.flatServices == old(directory.flatServices)
      ensures directory.flatCharacteristics == old(directory.flatCharacteristics)
      ensures x.handle in c.descriptors ==> r == Success(ListDescriptors(c.descriptors[x.handle])) && sent == 0
      ensures x.handle !in c.descriptors && r.Success? ==> r.value == DescriptorsOf(db, x)
      ensures r.Failure? ==> sent > 0 && r.error.Att? && RequestFails(first + sent - 1, r.error.code)
      ensures sent <= Attributes(db, x) + 1
    {
      hide GattDirectory.State;
      var cached := directory.GetDescriptors(x.handle);
      if cached.Some? {
        return Success(cached.value), 0;
      }
      r, sent := AskDescriptors(first, x, db);
      if r.Success? {
        var saved := directory.SaveDescriptors(x.handle, r.value);
      }
    }

    // -------------------------------------------------------------- discovery of a whole profile

    method DiscoverAllDescriptors(first: nat, list: seq<CharacteristicInfo>, ghost s: nat, ghost db: Database,
      ghost c: Catalog)
      returns (error: Option<DiscoveryError>, sent: nat, ghost k: nat)
      requires Served(db) && directory.State() == Some(c) && Partial(c, db) && Of(list, c, s)
      modifies directory, directory.flatCharacteristics.Values
      ensures k <= |list| && (error.None? ==> k == |list|)
      ensures directory.State() == Some(AfterDescriptors(c, db, list[..k]))
      ensures directory.flatServices == old(directory.flatServices)
      ensures directory.flatCharacteristics == old(directory.flatCharacteristics)
      ensures (forall i :: 0 <= i < |list| ==> list[i].handle in c.descriptors) ==> error.None? && sent == 0
      ensures error.Some? ==> sent > 0 && error.value.Att? && RequestFails(first + sent - 1, error.value.code)
      ensures sent <= DescriptorRequests(db, list)
    {
      hide GattDirectory.State, WellFormed, Consistent, RequestFails, Of, AfterDescriptors, DescriptorRequests;
      NoneDescribed(c, db, list);
      sent, error, k := 0, None, 0;
      ghost var known := forall j :: 0 <= j < |list| ==> list[j].handle in c.descriptors;
      for i := 0 to |list|
        invariant k == i && directory.State() == Some(AfterDescriptors(c, db, list[..i]))
        invariant directory.flatServices == old(directory.flatServices)
        invariant directory.flatCharacteristics == old(directory.flatCharacteristics)
        invariant known ==> sent == 0
        invariant sent <= DescriptorRequests(db, list[..i])
      {
        DescriptorRequestsNext(db, list, i);
        NextDescribable(c, db, s, list, i);
        if known {
          NothingToDescribe(c, db, list[..i]);
        }
        var r, n := DiscoverDescriptors(first + sent, list[i], s, db, AfterDescriptors(c, db, list[..i]));
        sent := sent + n;
        if r.Failure? {
          return Some(r.error), sent, i;
        }
        k := i + 1;
      }
      assert list[..|list|] == list;
    }

    /** What is asked first about a service. */
    method DiscoverListed(first: nat, service: ServiceInfo, ghost db: Database, ghost c: Catalog)
      returns (r: Result<seq<CharacteristicInfo>, DiscoveryError>, sent: nat, ghost c': Catalog)
      requires Served(db) && directory.State() == Some(c) && Partial(c, db)
      requires service.handle in Known(c) && Known(c)[service.handle] == service
      modifies directory, directory.flatServices.Values
      ensures directory.State() == Some(c') && Partial(c', db) && Extends(c, c') && directory.NodesKept()
      ensures r.Success? ==>
        r.value == CharacteristicsOf(db, service) && !HasInclude(db, service) && c' == Listed(c, db, service)
      ensures Charted(c, service.handle) ==> r.Success? && sent == 0
      ensures r.Failure? ==> sent > 0 && Caused(r.error, first + sent - 1, db)
      ensures sent <= RequestsListing(db, service)
    {
      hide GattDirectory.State, WellFormed, Consistent, Extends, RequestFails;
      c' := c;
      ExtendsItself(c);
      var error, n;
      KnownService(c, db, service);
      error, sent := DiscoverIncludedServices(first, service, db, c);
      if error.Some? {
        return Failure(error.value), sent, c;
      }
      IncludesStep(c, db, service.handle);
      c' := SavedIncludes(c, service.handle);
      CharacteristicsHanded(c', db, service);
      r, n := DiscoverCharacteristics(first + sent, service, db, c');
      sent := sent + n;
      if r.Success? {
        ListedIs(c, db, service);
        c' := Listed(c, db, service);
      }
    }

    /** One round of the loop over services. */
    method DiscoverBelow(first: nat, service: ServiceInfo, ghost db: Database, ghost c: Catalog)
      returns (error: Option<DiscoveryError>, sent: nat, ghost c': Catalog)
      requires Served(db) && directory.State() == Some(c) && Partial(c, db)
      requires service.handle in Known(c) && Known(c)[service.handle] == service
      modifies directory, directory.flatServices.Values, directory.flatCharacteristics.Values
      ensures directory.State() == Some(c') && Partial(c', db) && Extends(c, c') && directory.NodesKept()
      ensures error.None? ==> Charted(c', service.handle)
      ensures Charted(c, service.handle) ==> error.None? && sent == 0 && c' == c
      ensures error.Some? ==> sent > 0 && Caused(error.value, first + sent - 1, db)
      ensures sent <= RequestsBelow(db, service)
    {
      hide GattDirectory.State, WellFormed, Consistent, Extends, RequestFails, Charted, Listed, AfterDescriptors, Of;
      var r, n;
      r, sent, c' := DiscoverListed(first, service, db, c);
      if r.Failure? {
        return Some(r.error), sent, c';
      }
      ListedIs(c, db, service);
      if Charted(c, service.handle) {
        BelowCharted(c, db, service);
      }
      ghost var k;
      error, n, k := DiscoverAllDescriptors(first + sent, r.value, service.handle, db, c');
      sent := sent + n;
      BelowIs(c', db, service, k);
      ExtendsOn(c, c', AfterDescriptors(c', db, r.value[..k]));
      assert r.value[..|r.value|] == r.value;
      c' := AfterDescriptors(c', db, r.value[..k]);
    }

    method DiscoverFirst(first: nat, ghost db: Database, ghost c: Catalog)
      returns (r: Result<seq<ServiceInfo>, DiscoveryError>, sent: nat)
      requires Served(db) && directory.State() == Some(c) && Partial(c, db)
      modifies directory
      ensures directory.State() == Some(if r.Success? then WithServices(c, db) else c) && directory.NodesKept()
      ensures r.Success? ==> r.value == ServicesOf(db) && InProgress(c, WithServices(c, db), db, 0)
      ensures Complete(c) ==> r.Success? && sent == 0
      ensures r.Failure? ==> sent > 0 && Caused(r.error, first + sent - 1, db)
      ensures sent <= |db.services| + 1
    {
      hide GattDirectory.State, InProgress, RequestFails;
      ServicesHanded(c, db);
      r, sent := DiscoverServices(first, db, c);
      if r.Success? {
        Begins(c, db);
      }
    }

    /** One round of the loop over services, with what it means for the whole. */
    method DiscoverNext(first: nat, service: ServiceInfo, ghost n: nat, ghost db: Database, ghost c: Catalog,
      ghost before: Catalog)
      returns (error: Option<DiscoveryError>, sent: nat, ghost c': Catalog)
      requires Served(db) && directory.State() == Some(before) && InProgress(c, before, db, n)
      requires n < |ServicesOf(db)| && service == ServicesOf(db)[n]
      modifies directory, directory.flatServices.Values, directory.flatCharacteristics.Values
      ensures directory.State() == Some(c') && directory.NodesKept()
      ensures error.None? ==> InProgress(c, c', db, n + 1)
      ensures error.Some? ==> Partial(c', db) && Extends(c, c')
      ensures Complete(c) ==> error.None? && sent == 0
      ensures error.Some? ==> sent > 0 && Caused(error.value, first + sent - 1, db)
      ensures sent <= RequestsBelow(db, service)
    {
      hide GattDirectory.State, InProgress, RequestsBelow, Caused;
      ReadyForNext(c, before, db, n);
      error, sent, c' := DiscoverBelow(first, service, db, before);
      if error.Some? {
        Stops(c, before, c', db, n);
      } else {
        GoesOn(c, before, c', db, n);
      }
    }

    method DiscoverEach(first: nat, list: seq<ServiceInfo>, ghost db: Database, ghost c: Catalog, ghost before: Catalog)
      returns (error: Option<DiscoveryError>, sent: nat, ghost c': Catalog)
      requires Served(db) && directory.State() == Some(before) && list == ServicesOf(db) && InProgress(c, before, db, 0)
      modifies directory, directory.flatServices.Values, directory.flatCharacteristics.Values
      ensures directory.State() == Some(c') && directory.NodesKept()
      ensures error.None? ==> InProgress(c, c', db, |list|)
      ensures error.Some? ==> Partial(c', db) && Extends(c, c')
      ensures Complete(c) ==> error.None? && sent == 0
      ensures error.Some? ==> sent > 0 && Caused(error.value, first + sent - 1, db)
      ensures sent <= RequestsFor(db, list)
    {
      hide GattDirectory.State, InProgress, WellFormed, Consistent, Extends, Complete, RequestsBelow, RequestsFor,
        Caused;
      error, sent, c' := None, 0, before;
      ghost var complete := Complete(c);
      for i := 0 to |list|
        invariant error == None && directory.State() == Some(c') && directory.NodesKept() && InProgress(c, c', db, i)
        invariant complete ==> sent == 0
        invariant sent <= RequestsFor(db, list[..i])
      {
        RequestsForNext(db, list, i);
        var n;
        error, n, c' := DiscoverNext(first + sent, list[i], i, db, c, c');
        sent := sent + n;
        if error.Some? {
          return;
        }
      }
      assert list[..|list|] == list;
    }

    /**
      `discover`. Whatever the directory knew stays, also when a request fails, so that another attempt
      goes on from there. A complete directory sends nothing.
     */
    method Discover(first: nat, ghost db: Database, ghost c: Catalog)
      returns (r: Result<Profile, DiscoveryError>, sent: nat, ghost c': Catalog)
      requires Served(db) && directory.State() == Some(c) && Partial(c, db)
      modifies directory, directory.flatServices.Values, directory.flatCharacteristics.Values
      ensures directory.State() == Some(c') && directory.NodesKept() && Partial(c', db) && Extends(c, c')
      ensures r.Success? ==> Complete(c') && r.value == Tree(c') && Describes(r.value, db)
      ensures Complete(c) ==> r == Success(Tree(c)) && sent == 0 && c' == c
      ensures r.Failure? ==> sent > 0 && Caused(r.error, first + sent - 1, db)
      ensures sent <= Requests(db)
      ensures UnfailingFrom(first) ==> (r.Success? <==> !SomeInclude(db))
    {
      hide GattDirectory.State, InProgress, RequestsFor, Caused, UnfailingFrom, SomeInclude, Extends, WellFormed;
      hide Describes;
      var services;
      services, sent := DiscoverFirst(first, db, c);
      if services.Failure? {
        ExtendsItself(c);
        OnlyIncludes(services.error, first, first + sent - 1, db);
        return Failure(services.error), sent, c;
      }
      var error, n;
      error, n, c' := DiscoverEach(first + sent, services.value, db, c, WithServices(c, db));
      sent := sent + n;
      if error.Some? {
        OnlyIncludes(error.value, first, first + sent - 1, db);
        return Failure(error.value), sent, c';
      }
      Ends(c, c', db);
      NoIncludes(c', db);
      ProfileDescribes(c', db);
      var p := directory.GetProfile();
      r := Success(p);
    }

    /** `onValueNotification`: what is emitted, if anything. */
    method OnValueNotification(handle: nat, value: seq<byte>, ghost c: Catalog)
      returns (event: Option<(Entry, seq<byte>)>)
      requires directory.State() == Some(c)
      ensures event.Some? ==> Leads(c, handle, event.value.0) && event.value.1 == value
      ensures event.None? ==> forall h :: !DescriptorOf(c, handle, h)
    {
      hide GattDirectory.State;
      var entry := directory.FindByDescriptorHandle(handle);
      assert directory.State() == Some(c);
      event := if entry.Some? then Some((entry.value, value)) else None;
    }
  }

  /** After a completed discovery another one on the same client sends nothing and returns the same profile. */
  method DiscoverTwice(client: GattClient, first: nat, ghost db: Database, ghost c: Catalog)
    returns (r: Result<Profile, DiscoveryError>, again: Result<Profile, DiscoveryError>, sent: nat, resent: nat,
      ghost c': Catalog)
    requires client.Served(db) && client.directory.State() == Some(c) && Partial(c, db)
    modifies client.directory, client.directory.flatServices.Values, client.directory.flatCharacteristics.Values
    ensures client.UnfailingFrom(first) ==> (r.Success? <==> !SomeInclude(db))
    ensures r.Success? ==> again == r && resent == 0 && r.value == Tree(c')
    ensures r.Success? ==> client.directory.State() == Some(c') && Complete(c') && Consistent(c', db)
  {
    r, sent, c' := client.Discover(first, db, c);
    again, resent := r, 0;
    if r.Success? {
      ghost var c2;
      again, resent, c2 := client.Discover(first + sent, db, c');
    }
  }

  /**
    A client rebuilt from the profile of a completed discovery sends nothing, returns the same profile
    and knows what the original knows, so that its lookups, which are determined by that, answer alike.
   */
  method DiscoverRebuilt(client: GattClient, first: nat, ghost db: Database, ghost c: Catalog)
    returns (r: Result<Profile, DiscoveryError>, rebuilt: GattClient,
      again: Result<Profile, DiscoveryError>, sent: nat, resent: nat, ghost c': Catalog)
    requires client.Served(db) && client.directory.State() == Some(c) && Partial(c, db)
    modifies client.directory, client.directory.flatServices.Values, client.directory.flatCharacteristics.Values
    ensures client.UnfailingFrom(first) ==> (r.Success? <==> !SomeInclude(db))
    ensures r.Success? ==> fresh(rebuilt) && again == r && resent == 0 && r.value == Tree(c')
    ensures r.Success? ==> client.directory.State() == Some(c') && rebuilt.directory.State() == Some(c')
    ensures r.Success? ==> Complete(c') && Consistent(c', db)
  {
    hide GattDirectory.State, Complete, Extends, Consistent;
    r, sent, c' := client.Discover(first, db, c);
    rebuilt, again, resent := client, r, 0;
    if r.Success? {
      TreeIsUnique(c');
      RefiledSame(r.value);
      rebuilt := new GattClient(client.byGroup, client.includes, client.byType, client.information, Some(r.value));
      SameProfileSameState(rebuilt.directory, client.directory);
      ghost var c2;
      again, resent, c2 := rebuilt.Discover(first + sent, db, c');
    }
  }

  function Given(profile: Option<Profile>): Profile {
    if profile.None? then Profile(None) else profile.value
  }

  method NewDirectory(profile: Option<Profile>) returns (directory: GattDirectory)
    ensures directory.State().Some? <==> OnePlaceEach(Refiled(Given(profile)))
    ensures directory.State().Some? ==> Tree(directory.State().value) == Refiled(Given(profile))
    ensures fresh(directory) && fresh(directory.flatServices.Values) && fresh(directory.flatCharacteristics.Values)
  {
    if profile.None? {
      directory := new GattDirectory.Empty();
      assert Refiled(Profile(None)) == Profile(None);
    } else {
      directory := new GattDirectory.FromProfile(profile.value);
    }
  }

  method ParseServices(entries: seq<AttDataEntry<seq<byte>>>) returns (r: Option<seq<ServiceInfo>>)
    ensures r.Some? <==> Usable(entries)
    ensures r.Some? ==> |r.value| == |entries| && forall i :: 0 <= i < |entries| ==>
      ServiceFrom(entries[i]) == Some(r.value[i])
  {
    var list := [];
    for i := 0 to |entries|
      invariant |list| == i && forall j :: 0 <= j < i ==> ServiceFrom(entries[j]) == Some(list[j])
    {
      var info := ServiceFrom(entries[i]);
      if info.None? {
        return None;
      }
      list := list + [info.value];
    }
    return Some(list);
  }

  method ParseCharacteristics(entries: seq<AttDataEntry<seq<byte>>>) returns (r: Option<seq<CharacteristicInfo>>)
    ensures r.Some? <==> forall i :: 0 <= i < |entries| ==> CharacteristicFrom(entries[i]).Some?
    ensures r.Some? ==> |r.value| == |entries| && forall i :: 0 <= i < |entries| ==>
      CharacteristicFrom(entries[i]) == Some(r.value[i])
  {
    var list := [];
    for i := 0 to |entries|
      invariant |list| == i && forall j :: 0 <= j < i ==> CharacteristicFrom(entries[j]) == Some(list[j])
    {
      var info := CharacteristicFrom(entries[i]);
      if info.None? {
        return None;
      }
      list := list + [info.value];
    }
    return Some(list);
  }

  method ParseDescriptors(entries: seq<AttDataEntry<Uuid>>) returns (r: Option<seq<DescriptorInfo>>)
    ensures r.Some? <==> forall i :: 0 <= i < |entries| ==> DescriptorFrom(entries[i]).Some?
    ensures r.Some? ==> |r.value| == |entries| && forall i :: 0 <= i < |entries| ==>
      DescriptorFrom(entries[i]) == Some(r.value[i])
  {
    var list := [];
    for i := 0 to |entries|
      invariant |list| == i && forall j :: 0 <= j < i ==> DescriptorFrom(entries[j]) == Some(list[j])
    {
      var info := DescriptorFrom(entries[i]);
      if info.None? {
        return None;
      }
      list := list + [info.value];
    }
    return Some(list);
  }
}
