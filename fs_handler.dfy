/** The file system handler: the loaders in the order they were added, the
    identifier -> locator-list table they fill, and the cache of loaded
    streams, which holds weak references keyed by locator. */
module FileSystemHandlers {
  import opened Common
  import opened ResourceNames
  import opened MemoryStreams
  import opened ResourceMaps
  import opened Loaders

  /** Every identifier in the table has a non-empty locator list, and every
      locator in it names one of the loaders `ids`. */
  ghost predicate WellFormed(m: ResourcesMap, ids: set<LoaderId>) {
    forall k :: k in m ==>
      m[k] != [] && forall loc :: loc in m[k] ==> loc.loader.Some? && loc.loader.value in ids
  }

  /** Registrations whose locators all name loaders in `ids` keep the table
      well formed. */
  lemma AddAllWellFormed(m: ResourcesMap, regs: seq<Registration>, ids: set<LoaderId>)
    requires WellFormed(m, ids)
    requires forall i :: 0 <= i < |regs| ==> regs[i].loc.loader.Some? && regs[i].loc.loader.value in ids
    ensures WellFormed(AddAll(m, regs), ids)
  {
    var m': ResourcesMap := AddAll(m, regs);
    forall k | k in m'
      ensures m'[k] != [] && forall loc: ResourceLocator :: loc in m'[k] ==> loc.loader.Some? && loc.loader.value in ids
    {
      AddAllLocators(m, regs, k);
      assert m'[k] == ListAt(m, k) + LocatorsFor(regs, k);
      forall loc: ResourceLocator | loc in m'[k] ensures loc.loader.Some? && loc.loader.value in ids {
        if loc !in ListAt(m, k) {
          LocatorsForMember(regs, k, loc);
        }
      }
    }
  }

  /** A table well formed for some loaders stays so when loaders are added. */
  lemma WellFormedGrow(m: ResourcesMap, ids: set<LoaderId>, more: set<LoaderId>)
    requires WellFormed(m, ids) && ids <= more
    ensures WellFormed(m, more)
  {
  }

  /** The addresses of a sequence of loaders. */
  function IdsOf(ls: seq<ResourceLoader>): (ids: set<LoaderId>)
    ensures forall i :: 0 <= i < |ls| ==> ls[i].id in ids
    ensures forall lid :: lid in ids ==> exists i :: 0 <= i < |ls| && ls[i].id == lid
  {
    set i | 0 <= i < |ls| :: ls[i].id
  }

  /** Appending a loader adds its address and keeps addresses distinct when it
      is new. */
  lemma IdsOfAppend(ls: seq<ResourceLoader>, h: ResourceLoader)
    requires h.id !in IdsOf(ls)
    requires forall i, j :: 0 <= i < j < |ls| ==> ls[i].id != ls[j].id
    ensures IdsOf(ls + [h]) == IdsOf(ls) + {h.id}
    ensures forall i, j :: 0 <= i < j < |ls + [h]| ==> (ls + [h])[i].id != (ls + [h])[j].id
  {
    var ls' := ls + [h];
    assert forall i :: 0 <= i < |ls| ==> ls'[i] == ls[i];
    assert ls'[|ls|] == h;
  }

  /** Registering a loader's records keeps the table well formed for a set of
      loaders that includes it. */
  lemma RegistrationsWellFormed(m: ResourcesMap, src: Source, prefix: string, id: LoaderId, ids: set<LoaderId>, before: set<LoaderId>)
    requires WellFormed(m, before) && before <= ids && id in ids
    ensures WellFormed(AddAll(m, Registrations(src, prefix, id, RecordCount(src))), ids)
  {
    WellFormedGrow(m, before, ids);
    AddAllWellFormed(m, Registrations(src, prefix, id, RecordCount(src)), ids);
  }

  /** The position of the loader with address `lid`, if one is registered. */
  function FindLoader(ls: seq<ResourceLoader>, lid: LoaderId): (r: Option<nat>)
    ensures r.Some? ==> r.value < |ls| && ls[r.value].id == lid
    ensures r.None? <==> forall i :: 0 <= i < |ls| ==> ls[i].id != lid
  {
    if ls == [] then None
    else if ls[0].id == lid then Some(0)
    else
      var rest := FindLoader(ls[1..], lid);
      if rest.None? then
        assert forall i :: 1 <= i < |ls| ==> ls[i].id == ls[1..][i - 1].id;
        None
      else Some(rest.value + 1)
  }

  /** The weak reference `addResource` stores for a freshly loaded stream: a
      null stream gives a reference that is expired from the start. */
  function SlotFor(s: MemoryStream?): (w: WeakSlot<MemoryStream>)
    ensures w.Live? <==> s != null
    ensures w.Live? ==> w.obj == s
    ensures !w.Live? ==> w == Expired
  {
    if s == null then Expired else var o: MemoryStream := s; Live(o)
  }

  /** The cache update of `addResource` as written: `insert` leaves a key that
      is already present untouched, so an expired reference is never replaced. */
  function CacheInsertAsWritten<T>(m: map<ResourceLocator, WeakSlot<T>>, k: ResourceLocator, w: WeakSlot<T>): (r: map<ResourceLocator, WeakSlot<T>>)
    ensures k in m ==> r == m
    ensures k !in m ==> r == m[k := w]
  {
    if k in m then m else m[k := w]
  }

  /** The intended cache update: the new reference replaces whatever was
      stored for the key, and every other key keeps its slot. */
  function CacheInsert<T>(m: map<ResourceLocator, WeakSlot<T>>, k: ResourceLocator, w: WeakSlot<T>): (r: map<ResourceLocator, WeakSlot<T>>)
    ensures SlotOf(r, k) == w
    ensures forall j :: j != k ==> SlotOf(r, j) == SlotOf(m, j)
    ensures r.Keys == m.Keys + {k}
  {
    m[k := w]
  }

  /** Counterexample for the cache insert as written: once the reference for
      a locator has expired, reloading it stores nothing, the slot stays
      expired and every later lookup loads the resource again; the intended
      insert makes the reloaded stream the cached one. */
  lemma CacheInsertAsWrittenKeepsExpired<T>(m: map<ResourceLocator, WeakSlot<T>>, k: ResourceLocator, obj: T)
    requires SlotOf(m, k) == Expired
    ensures SlotOf(CacheInsertAsWritten(m, k, Live(obj)), k) == Expired
    ensures SlotOf(CacheInsert(m, k, Live(obj)), k) == Live(obj)
  {
  }

  /** The intended insert agrees with `insert` on a key that is not yet
      cached. */
  lemma CacheInsertAgreesOnNewKey<T>(m: map<ResourceLocator, WeakSlot<T>>, k: ResourceLocator, w: WeakSlot<T>)
    requires k !in m
    ensures CacheInsertAsWritten(m, k, w) == CacheInsert(m, k, w)
  {
  }

  /** `getResource`'s locator choice: nothing for an unregistered identifier,
      otherwise the most recently registered locator, or the first one when
      `fromBegin`. */
  function Lookup(resources: ResourcesMap, id: ResourceIdentifier, fromBegin: bool): (r: Option<ResourceLocator>)
    requires forall k :: k in resources ==> resources[k] != []
    ensures r.None? <==> id !in resources
    ensures r.Some? ==> r.value in resources[id]
    ensures r.Some? && fromBegin ==> r.value == resources[id][0]
    ensures r.Some? && !fromBegin ==> r.value == resources[id][|resources[id]| - 1]
  {
    if id !in resources then None else Some(ChooseLocator(resources[id], fromBegin))
  }

  class FileSystemHandler {
    /** Identifier -> locators, in registration order. */
    var resources: ResourcesMap
    /** The loaders, in the order they were added. */
    var loaders: seq<ResourceLoader>
    /** Weak references to the streams handed out, by locator. */
    var memoryStreams: map<ResourceLocator, WeakSlot<MemoryStream>>

    /** The addresses of the registered loaders. */
    function Ids(): (ids: set<LoaderId>)
      reads this
      ensures ids == IdsOf(loaders)
    {
      IdsOf(loaders)
    }

    /** Loaders are distinct objects, the table is well formed for them, and
        every live cached stream is a valid stream. */
    ghost predicate Valid()
      reads this
    {
      (forall i, j :: 0 <= i < j < |loaders| ==> loaders[i].id != loaders[j].id) &&
      WellFormed(resources, Ids()) &&
      (forall loc :: loc in memoryStreams && memoryStreams[loc].Live? ==> memoryStreams[loc].obj.Valid())
    }

    /** An empty handler: no loaders, no resources, nothing cached. */
    constructor ()
      ensures Valid()
      ensures resources == map[] && loaders == [] && memoryStreams == map[]
    {
      resources := map[];
      loaders := [];
      memoryStreams := map[];
    }

    /** `addHandler`: the loader is appended to the loader list, then its
        enumeration registers its records in the table (and fills its entry
        table). The cache is untouched. */
    method AddHandler(h: ResourceLoader)
      requires Valid()
      requires h.id !in Ids()
      modifies this, h
      ensures Valid()
      ensures loaders == old(loaders) + [h]
      ensures h.entries == CatalogEntries(h.source, old(h.entries))
      ensures resources == AddAll(old(resources), Registrations(h.source, h.prefix, h.id, RecordCount(h.source)))
      ensures memoryStreams == old(memoryStreams)
    {
      IdsOfAppend(loaders, h);
      RegistrationsWellFormed(resources, h.source, h.prefix, h.id, IdsOf(loaders + [h]), IdsOf(loaders));
      loaders := loaders + [h];
      resources := h.InsertEntriesIntoResourcesMap(resources);
    }

    /** The loader a locator of the table names. */
    function LoaderOf(loc: ResourceLocator): (l: ResourceLoader)
      requires loc.loader.Some? && loc.loader.value in Ids()
      reads this
      ensures l in loaders && l.id == loc.loader.value
    {
      var k := FindLoader(loaders, loc.loader.value);
      loaders[k.value]
    }

    /** `addResource`: the locator's loader loads the stream, and a weak
        reference to it is cached under the locator, replacing any expired
        one. */
    method AddResource(loc: ResourceLocator) returns (s: MemoryStream?)
      requires Valid()
      requires loc.loader.Some? && loc.loader.value in Ids()
      modifies this
      ensures Valid()
      ensures resources == old(resources) && loaders == old(loaders)
      ensures s == null <==> LoaderOf(loc).Loaded(loc.resourceName).None?
      ensures s != null ==> fresh(s) && s.Valid() && s.seekPos == 0 &&
                            s.data == LoaderOf(loc).Loaded(loc.resourceName).value
      ensures memoryStreams == CacheInsert(old(memoryStreams), loc, SlotFor(s))
    {
      var l := LoaderOf(loc);
      s := l.LoadResource(loc.resourceName);
      memoryStreams := CacheInsert(memoryStreams, loc, SlotFor(s));
    }

    /** `getResource`: null for an unregistered identifier. Otherwise the
        chosen locator's cached stream when its reference is live, without
        loading; when it is absent or expired, the stream `addResource`
        loads. Only the cache changes. */
    method GetResource(identifier: ResourceIdentifier, fromBegin: bool) returns (s: MemoryStream?)
      requires Valid()
      modifies this
      ensures Valid()
      ensures resources == old(resources) && loaders == old(loaders)
      ensures identifier !in resources ==> s == null && memoryStreams == old(memoryStreams)
      ensures identifier in resources ==>
        var loc := Lookup(resources, identifier, fromBegin).value;
        loc.loader.Some? && loc.loader.value in Ids() &&
        (old(SlotOf(memoryStreams, loc)).Live? ==>
           s == old(SlotOf(memoryStreams, loc)).obj && memoryStreams == old(memoryStreams)) &&
        (!old(SlotOf(memoryStreams, loc)).Live? ==>
           memoryStreams == CacheInsert(old(memoryStreams), loc, SlotFor(s)) &&
           (s == null <==> LoaderOf(loc).Loaded(loc.resourceName).None?))
      ensures s != null ==> s.Valid()
    {
      var found := Lookup(resources, identifier, fromBegin);
      if found.None? {
        return null;
      }
      var loc := found.value;
      var slot := SlotOf(memoryStreams, loc);
      if slot.Live? {
        return slot.obj;
      }
      s := AddResource(loc);
    }

    /** The last strong owner of the stream cached for `loc` lets go of it:
        a live reference becomes expired; nothing else changes. */
    method Release(loc: ResourceLocator)
      requires Valid()
      modifies this
      ensures Valid()
      ensures resources == old(resources) && loaders == old(loaders)
      ensures old(SlotOf(memoryStreams, loc)).Live? ==> memoryStreams == old(memoryStreams)[loc := Expired]
      ensures !old(SlotOf(memoryStreams, loc)).Live? ==> memoryStreams == old(memoryStreams)
    {
      if SlotOf(memoryStreams, loc).Live? {
        memoryStreams := memoryStreams[loc := Expired];
      }
    }
  }
}
