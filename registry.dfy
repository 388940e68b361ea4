/**
 The `DialectRegistry`: a catalog from namespace to (dialect identifier,
 allocator), kept sorted by namespace, and a table of delayed interface
 registrations keyed by the identifier of the dialect they target, applied
 when that dialect is loaded.
 */
module Registry {
  import opened Options
  import opened Names
  import opened Dialects

  /** The identifier of a cataloged dialect and the function that allocates it. */
  datatype CatalogEntry = CatalogEntry(dialectId: TypeId, allocator: FunctionRef)

  type Catalog = map<string, CatalogEntry>

  /** A pending dialect interface: its identifier and its allocator. */
  datatype DialectInterfaceEntry = DialectInterfaceEntry(interfaceId: TypeId, allocator: FunctionRef)

  /** A pending operation, attribute or type interface: the object kind, the
      interface and the function that attaches the model to the kind. */
  datatype ObjectInterfaceEntry = ObjectInterfaceEntry(objectId: TypeId, interfaceId: TypeId, attach: FunctionRef)

  /** The two lists of interfaces to register when one dialect is loaded. */
  datatype DelayedInterfaces = DelayedInterfaces(
    dialectInterfaces: seq<DialectInterfaceEntry>,
    objectInterfaces: seq<ObjectInterfaceEntry>)

  const NoDelayedInterfaces := DelayedInterfaces([], [])

  type DelayedTable = map<TypeId, DelayedInterfaces>

  // ---------------------------------------------------------------------------
  // The catalog
  // ---------------------------------------------------------------------------

  /** The identifiers of all cataloged dialects. */
  ghost function CatalogedIds(catalog: Catalog): set<TypeId>
  {
    set name | name in catalog :: catalog[name].dialectId
  }

  /** Inserting `name` with `id` does not clash with what is cataloged: a
      namespace bound to another dialect identifier is a fatal error. */
  predicate Consistent(catalog: Catalog, name: string, id: TypeId)
  {
    name in catalog ==> catalog[name].dialectId == id
  }

  /** No namespace is bound to different dialects in the two catalogs. */
  ghost predicate Compatible(source: Catalog, destination: Catalog)
  {
    forall name :: name in source && name in destination ==>
      source[name].dialectId == destination[name].dialectId
  }

  /** `insert(typeID, name, ctor)` with the semantics of `std::map::insert`:
      a new namespace gets the entry; a namespace already bound to the same
      dialect keeps the entry it has. */
  function Inserted(catalog: Catalog, id: TypeId, name: string, ctor: FunctionRef): (r: Catalog)
    requires Consistent(catalog, name, id)
    ensures r.Keys == catalog.Keys + {name}
    ensures r[name].dialectId == id
    ensures name !in catalog ==> r[name].allocator == ctor
    ensures forall n :: n in catalog ==> r[n] == catalog[n]
    ensures CatalogedIds(r) == CatalogedIds(catalog) + {id}
  {
    if name in catalog then catalog
    else
      var r := catalog[name := CatalogEntry(id, ctor)];
      assert CatalogedIds(r) == CatalogedIds(catalog) + {id} by {
        assert r[name].dialectId == id;
        forall x | x in CatalogedIds(catalog)
          ensures x in CatalogedIds(r)
        {
          var n :| n in catalog && catalog[n].dialectId == x;
          assert r[n] == catalog[n];
        }
      }
      r
  }

  /** `getDialectAllocator(name)`: the allocator of a cataloged namespace, or
      nothing for an unknown one. */
  function Allocator(catalog: Catalog, name: string): (r: Option<FunctionRef>)
    ensures r.Some? <==> name in catalog
    ensures r.Some? ==> r.value == catalog[name].allocator
  {
    if name in catalog then Some(catalog[name].allocator) else None
  }

  /** After an insert the namespace has an allocator: the one given when the
      namespace is new, the one already there otherwise; no other namespace's
      allocator changes. */
  lemma AllocatorAfterInsert(catalog: Catalog, id: TypeId, name: string, ctor: FunctionRef, query: string)
    requires Consistent(catalog, name, id)
    ensures Allocator(Inserted(catalog, id, name, ctor), query) ==
      if query == name && name !in catalog then Some(ctor) else Allocator(catalog, query)
  {
  }

  /** The catalog `destination` holds after `source.appendTo(destination)`:
      every namespace of either, the destination's entries kept. */
  function MergedCatalog(source: Catalog, destination: Catalog): (r: Catalog)
    requires Compatible(source, destination)
    ensures r.Keys == source.Keys + destination.Keys
    ensures forall name :: name in destination ==> r[name] == destination[name]
    ensures forall name :: name in source ==> r[name].dialectId == source[name].dialectId
    ensures forall name :: name in source && name !in destination ==> r[name] == source[name]
    ensures CatalogedIds(source) <= CatalogedIds(r)
  {
    var r := source + destination;
    assert forall id :: id in CatalogedIds(source) ==> id in CatalogedIds(r) by {
      forall id | id in CatalogedIds(source)
        ensures id in CatalogedIds(r)
      {
        var name :| name in source && source[name].dialectId == id;
        assert r[name].dialectId == id;
      }
    }
    r
  }

  /** After a merge a namespace new to the destination has the source's
      allocator, and every namespace the destination had keeps its own. */
  lemma AllocatorAfterMerge(source: Catalog, destination: Catalog, query: string)
    requires Compatible(source, destination)
    ensures Allocator(MergedCatalog(source, destination), query) ==
      if query in destination then Allocator(destination, query) else Allocator(source, query)
  {
  }

  /** Appending a registry to itself leaves its catalog as it is. */
  lemma SelfMergedCatalog(catalog: Catalog)
    ensures Compatible(catalog, catalog)
    ensures MergedCatalog(catalog, catalog) == catalog
  {
  }

  /** `getDialectNames()`: every cataloged namespace exactly once, ascending. */
  ghost function DialectNames(catalog: Catalog): (names: seq<string>)
    ensures |names| == |catalog|
    ensures forall name :: name in names <==> name in catalog
    ensures forall i, j :: 0 <= i < j < |names| ==> names[i] != names[j]
    ensures StrictlySorted(names)
  {
    var names := SortedNames(catalog.Keys);
    SortedHasNoDuplicates(names);
    names
  }

  /** Merging two sources into a destination gives the same namespaces
      whichever source is merged first. */
  lemma MergedNamesOrderIndependent(r1: Catalog, r2: Catalog, d: Catalog)
    requires Compatible(r1, d) && Compatible(r2, d) && Compatible(r1, r2)
    ensures Compatible(r2, MergedCatalog(r1, d)) && Compatible(r1, MergedCatalog(r2, d))
    ensures DialectNames(MergedCatalog(r2, MergedCatalog(r1, d))) ==
            DialectNames(MergedCatalog(r1, MergedCatalog(r2, d)))
  {
    var d1 := MergedCatalog(r1, d);
    var d2 := MergedCatalog(r2, d);
    assert Compatible(r2, d1) by {
      forall name | name in r2 && name in d1
        ensures r2[name].dialectId == d1[name].dialectId
      {
        if name in d {
          assert d1[name] == d[name];
        } else {
          assert name in r1;
        }
      }
    }
    assert Compatible(r1, d2) by {
      forall name | name in r1 && name in d2
        ensures r1[name].dialectId == d2[name].dialectId
      {
        if name in d {
          assert d2[name] == d[name];
        } else {
          assert name in r2;
        }
      }
    }
    assert MergedCatalog(r2, d1).Keys == MergedCatalog(r1, d2).Keys;
  }

  // ---------------------------------------------------------------------------
  // The delayed-interface table
  // ---------------------------------------------------------------------------

  /** The pending interfaces of a dialect, none when it has no entry. */
  function Pending(table: DelayedTable, dialectId: TypeId): DelayedInterfaces
  {
    if dialectId in table then table[dialectId] else NoDelayedInterfaces
  }

  /** The two lists of `first` followed by those of `second`. */
  function Concat(first: DelayedInterfaces, second: DelayedInterfaces): (r: DelayedInterfaces)
    ensures |r.dialectInterfaces| == |first.dialectInterfaces| + |second.dialectInterfaces|
    ensures |r.objectInterfaces| == |first.objectInterfaces| + |second.objectInterfaces|
    ensures r.dialectInterfaces[..|first.dialectInterfaces|] == first.dialectInterfaces
    ensures r.dialectInterfaces[|first.dialectInterfaces|..] == second.dialectInterfaces
    ensures r.objectInterfaces[..|first.objectInterfaces|] == first.objectInterfaces
    ensures r.objectInterfaces[|first.objectInterfaces|..] == second.objectInterfaces
  {
    DelayedInterfaces(first.dialectInterfaces + second.dialectInterfaces,
                      first.objectInterfaces + second.objectInterfaces)
  }

  /** The delayed table `destination` holds after `source.appendTo(destination)`. */
  function MergedDelayed(source: DelayedTable, destination: DelayedTable): (r: DelayedTable)
    ensures r.Keys == source.Keys + destination.Keys
    ensures forall id :: id in source && id !in destination ==> r[id] == source[id]
    ensures forall id :: id in destination && id !in source ==> r[id] == destination[id]
    ensures forall id :: id in source && id in destination ==> r[id] == Concat(destination[id], source[id])
  {
    map id | id in source.Keys + destination.Keys ::
      if id in source && id in destination then Concat(destination[id], source[id])
      else if id in source then source[id]
      else destination[id]
  }

  /** What the merge does to each dialect's entry: one absent from the
      destination is copied from the source exactly; one present in both has
      the source's lists appended after its own, nothing removed or
      deduplicated; one absent from the source is untouched. */
  lemma MergedDelayedEntries(source: DelayedTable, destination: DelayedTable, id: TypeId)
    ensures id in MergedDelayed(source, destination) <==> id in source || id in destination
    ensures id in source && id !in destination ==> MergedDelayed(source, destination)[id] == source[id]
    ensures id !in source && id in destination ==> MergedDelayed(source, destination)[id] == destination[id]
    ensures id in source && id in destination ==>
      var merged := MergedDelayed(source, destination)[id];
      && |merged.dialectInterfaces| == |destination[id].dialectInterfaces| + |source[id].dialectInterfaces|
      && |merged.objectInterfaces| == |destination[id].objectInterfaces| + |source[id].objectInterfaces|
      && merged.dialectInterfaces[..|destination[id].dialectInterfaces|] == destination[id].dialectInterfaces
      && merged.objectInterfaces[..|destination[id].objectInterfaces|] == destination[id].objectInterfaces
      && merged.dialectInterfaces[|destination[id].dialectInterfaces|..] == source[id].dialectInterfaces
      && merged.objectInterfaces[|destination[id].objectInterfaces|..] == source[id].objectInterfaces
  {
  }

  /** Every delayed entry targets a cataloged dialect: entries are only added
      for a namespace already present, and resolved to its identifier. */
  ghost predicate Linked(catalog: Catalog, table: DelayedTable)
  {
    table.Keys <= CatalogedIds(catalog)
  }

  /** `appendTo` keeps the destination's delayed entries linked to its catalog. */
  lemma MergePreservesLinked(sourceCatalog: Catalog, sourceTable: DelayedTable,
                             destinationCatalog: Catalog, destinationTable: DelayedTable)
    requires Linked(sourceCatalog, sourceTable) && Linked(destinationCatalog, destinationTable)
    requires Compatible(sourceCatalog, destinationCatalog)
    ensures Linked(MergedCatalog(sourceCatalog, destinationCatalog),
                   MergedDelayed(sourceTable, destinationTable))
  {
  }

  /** `interfaces[dialectId].dialectInterfaces.push_back(entry)`. */
  function WithDialectInterface(table: DelayedTable, dialectId: TypeId, entry: DialectInterfaceEntry): (r: DelayedTable)
    ensures r.Keys == table.Keys + {dialectId}
    ensures r[dialectId].dialectInterfaces == Pending(table, dialectId).dialectInterfaces + [entry]
    ensures r[dialectId].objectInterfaces == Pending(table, dialectId).objectInterfaces
    ensures forall id :: id in table && id != dialectId ==> r[id] == table[id]
  {
    var current := Pending(table, dialectId);
    table[dialectId := DelayedInterfaces(current.dialectInterfaces + [entry], current.objectInterfaces)]
  }

  /** `interfaces[dialectId].objectInterfaces.push_back(entry)`. */
  function WithObjectInterface(table: DelayedTable, dialectId: TypeId, entry: ObjectInterfaceEntry): (r: DelayedTable)
    ensures r.Keys == table.Keys + {dialectId}
    ensures r[dialectId].objectInterfaces == Pending(table, dialectId).objectInterfaces + [entry]
    ensures r[dialectId].dialectInterfaces == Pending(table, dialectId).dialectInterfaces
    ensures forall id :: id in table && id != dialectId ==> r[id] == table[id]
  {
    var current := Pending(table, dialectId);
    table[dialectId := DelayedInterfaces(current.dialectInterfaces, current.objectInterfaces + [entry])]
  }

  // ---------------------------------------------------------------------------
  // Applying delayed interfaces to a loaded dialect
  // ---------------------------------------------------------------------------

  /** The interface a pending allocator produces for the dialect. */
  function Instantiate(entry: DialectInterfaceEntry): (iface: DialectInterface)
    ensures iface.interfaceId == entry.interfaceId
  {
    DialectInterface(entry.interfaceId, entry.allocator)
  }

  /** The interface map after attaching `pending` in order, each entry only
      when its interface is not registered yet. */
  function AttachPending(interfaces: InterfaceMap, pending: seq<DialectInterfaceEntry>): (r: InterfaceMap)
    requires WellKeyed(interfaces)
    ensures WellKeyed(r)
    ensures r.Keys == interfaces.Keys + PendingIds(pending)
    ensures forall id :: id in interfaces ==> r[id] == interfaces[id]
    decreases |pending|
  {
    if pending == [] then interfaces
    else
      var prior := AttachPending(interfaces, pending[..|pending| - 1]);
      var last := pending[|pending| - 1];
      assert PendingIds(pending) == PendingIds(pending[..|pending| - 1]) + {last.interfaceId} by {
        assert pending == pending[..|pending| - 1] + [last];
      }
      if last.interfaceId in prior then prior else prior[last.interfaceId := Instantiate(last)]
  }

  /** The interface identifiers of a list of pending entries. */
  ghost function PendingIds(pending: seq<DialectInterfaceEntry>): set<TypeId>
  {
    set i | 0 <= i < |pending| :: pending[i].interfaceId
  }

  ghost predicate DistinctPending(pending: seq<DialectInterfaceEntry>)
  {
    forall i, j :: 0 <= i < j < |pending| ==> pending[i].interfaceId != pending[j].interfaceId
  }

  /** One more pending entry is attached as its allocator produces it, unless
      its interface is registered already. */
  lemma AttachPendingStep(interfaces: InterfaceMap, init: seq<DialectInterfaceEntry>, last: DialectInterfaceEntry)
    requires WellKeyed(interfaces)
    ensures var prior := AttachPending(interfaces, init);
      AttachPending(interfaces, init + [last]) ==
        if last.interfaceId in prior then prior else prior[last.interfaceId := Instantiate(last)]
  {
  }

  /** For a freshly loaded dialect with N pending interfaces of distinct
      identifiers it does not have yet, all N are attached, each exactly as
      its allocator produced it, and the map grows by exactly N. */
  lemma {:induction false} AttachPendingFresh(interfaces: InterfaceMap, pending: seq<DialectInterfaceEntry>)
    requires WellKeyed(interfaces)
    requires DistinctPending(pending)
    requires forall i :: 0 <= i < |pending| ==> pending[i].interfaceId !in interfaces
    ensures |AttachPending(interfaces, pending)| == |interfaces| + |pending|
    ensures forall i :: 0 <= i < |pending| ==>
      AttachPending(interfaces, pending)[pending[i].interfaceId] == Instantiate(pending[i])
    decreases |pending|
  {
    if pending != [] {
      var init, last := pending[..|pending| - 1], pending[|pending| - 1];
      assert pending == init + [last];
      AttachPendingFresh(interfaces, init);
      var prior := AttachPending(interfaces, init);
      assert last.interfaceId !in PendingIds(init) by {
        assert forall i :: 0 <= i < |init| ==> init[i].interfaceId != last.interfaceId;
      }
      assert last.interfaceId !in prior;
      AttachPendingStep(interfaces, init, last);
      var r := prior[last.interfaceId := Instantiate(last)];
      assert AttachPending(interfaces, pending) == r;
      assert |r| == |prior| + 1;
      forall i | 0 <= i < |pending|
        ensures r[pending[i].interfaceId] == Instantiate(pending[i])
      {
        if i < |init| {
          assert pending[i] == init[i];
        }
      }
    }
  }

  /** The part of a map whose keys are in `keys`. */
  function Only<K, V>(m: map<K, V>, keys: set<K>): (r: map<K, V>)
    ensures r.Keys == m.Keys * keys
    ensures forall k :: k in r ==> r[k] == m[k]
  {
    map k | k in m && k in keys :: m[k]
  }

  /** One more catalog entry merged is one more `insert` into the destination. */
  lemma CatalogMergeStep(source: Catalog, done: set<string>, destination: Catalog, name: string)
    requires Compatible(source, destination) && Compatible(Only(source, done), destination)
    requires name in source && name !in done
    ensures Compatible(Only(source, done + {name}), destination)
    ensures Consistent(MergedCatalog(Only(source, done), destination), name, source[name].dialectId)
    ensures MergedCatalog(Only(source, done + {name}), destination) ==
      Inserted(MergedCatalog(Only(source, done), destination), source[name].dialectId, name, source[name].allocator)
  {
  }

  /** One more delayed entry merged is one more copy or append in the destination. */
  lemma DelayedMergeStep(source: DelayedTable, done: set<TypeId>, destination: DelayedTable, id: TypeId)
    requires id in source && id !in done
    ensures var current := MergedDelayed(Only(source, done), destination);
      MergedDelayed(Only(source, done + {id}), destination) ==
        if id in current then current[id := Concat(current[id], source[id])]
        else current[id := source[id]]
  {
  }

  /** A dialect interface queued in either registry before a merge is
      registered on the dialect once it loads from the merged registry. */
  lemma MergedDialectInterfaceAttachedOnLoad(source: DelayedTable, destination: DelayedTable,
                                             dialectId: TypeId, loaded: InterfaceMap,
                                             entry: DialectInterfaceEntry)
    requires WellKeyed(loaded)
    requires entry in Pending(source, dialectId).dialectInterfaces
          || entry in Pending(destination, dialectId).dialectInterfaces
    ensures entry.interfaceId in
      AttachPending(loaded, Pending(MergedDelayed(source, destination), dialectId).dialectInterfaces)
  {
  }

  /** An object interface queued in either registry before a merge has its
      attach function invoked once the dialect loads from the merged registry. */
  lemma MergedObjectInterfaceInvokedOnLoad(source: DelayedTable, destination: DelayedTable,
                                           dialectId: TypeId, entry: ObjectInterfaceEntry)
    requires entry in Pending(source, dialectId).objectInterfaces
          || entry in Pending(destination, dialectId).objectInterfaces
    ensures entry.attach in AttachFunctions(Pending(MergedDelayed(source, destination), dialectId).objectInterfaces)
  {
  }

  /** No earlier entry of `pending` has the interface of entry `i`. */
  ghost predicate FirstOccurrence(pending: seq<DialectInterfaceEntry>, i: nat)
    requires i < |pending|
  {
    forall j :: 0 <= j < i ==> pending[j].interfaceId != pending[i].interfaceId
  }

  /** When the queue repeats an interface the dialect lacks, the first queued
      entry is the one attached; later ones are skipped. */
  lemma {:induction false} AttachPendingKeepsFirst(interfaces: InterfaceMap, pending: seq<DialectInterfaceEntry>, i: nat)
    requires WellKeyed(interfaces)
    requires i < |pending| && FirstOccurrence(pending, i)
    requires pending[i].interfaceId !in interfaces
    ensures AttachPending(interfaces, pending)[pending[i].interfaceId] == Instantiate(pending[i])
    decreases |pending|
  {
    var init, last := pending[..|pending| - 1], pending[|pending| - 1];
    assert pending == init + [last];
    AttachPendingStep(interfaces, init, last);
    var prior := AttachPending(interfaces, init);
    if i < |init| {
      assert FirstOccurrence(init, i) by {
        assert forall j :: 0 <= j <= i ==> init[j] == pending[j];
      }
      AttachPendingKeepsFirst(interfaces, init, i);
      assert init[i] == pending[i];
    } else {
      assert last.interfaceId !in PendingIds(init) by {
        assert forall j :: 0 <= j < |init| ==> init[j] == pending[j];
      }
    }
  }

  /** Appending a registry to itself doubles every delayed list. */
  lemma SelfMergedDelayed(table: DelayedTable, id: TypeId)
    requires id in table
    ensures MergedDelayed(table, table)[id] == Concat(table[id], table[id])
  {
  }

  // ---------------------------------------------------------------------------
  // The registry object
  // ---------------------------------------------------------------------------

  class DialectRegistry {
    /** Namespace to (dialect identifier, allocator), ordered by namespace. */
    var registry: Catalog
    /** Delayed interfaces, keyed by the identifier of the target dialect. */
    var interfaces: DelayedTable

    ghost predicate Valid()
      reads this
    {
      Linked(registry, interfaces)
    }

    constructor ()
      ensures Valid()
      ensures registry == map[] && interfaces == map[]
    {
      registry := map[];
      interfaces := map[];
    }

    /** Adds a dialect constructor under its namespace. A namespace already
        bound to another dialect identifier is a fatal error, so callers must
        not ask for it. */
    method Insert(id: TypeId, name: string, ctor: FunctionRef)
      requires Valid()
      requires Consistent(registry, name, id)
      modifies this`registry
      ensures Valid()
      ensures registry == Inserted(old(registry), id, name, ctor)
    {
      registry := Inserted(registry, id, name, ctor);
    }

    /** `getDialectAllocator(name)`: present exactly for a cataloged
        namespace, and then that namespace's allocator; nothing is allocated. */
    function GetDialectAllocator(name: string): (r: Option<FunctionRef>)
      reads this
      ensures r.Some? <==> name in registry
      ensures r.Some? ==> r.value == registry[name].allocator
    {
      Allocator(registry, name)
    }

    /** `getDialectNames()`: the cataloged namespaces, each once, ascending. */
    ghost function GetDialectNames(): (names: seq<string>)
      reads this
      ensures forall name :: name in names <==> name in registry
      ensures forall i, j :: 0 <= i < j < |names| ==> names[i] != names[j]
      ensures StrictlySorted(names)
    {
      DialectNames(registry)
    }

    /** Registers every dialect and every delayed interface of this registry
        with `destination`, which may be this registry itself. The source walks
        its live maps. On a self-append, every catalog re-insert hits an
        existing key and does nothing. Every delayed identifier is found, so no
        key is added, and each append reads the entry's own copy. The catalog
        therefore stays as it is and every delayed list is doubled. Reading
        the tables into locals first gives that same result here. A distinct
        source is left as it is. */
    method AppendTo(destination: DialectRegistry)
      requires Valid() && destination.Valid()
      requires Compatible(registry, destination.registry)
      modifies destination
      ensures destination.Valid()
      ensures destination.registry == MergedCatalog(old(registry), old(destination.registry))
      ensures destination.interfaces == MergedDelayed(old(interfaces), old(destination.interfaces))
      ensures destination != this ==> registry == old(registry) && interfaces == old(interfaces)
    {
      var catalog, table := registry, interfaces;
      MergePreservesLinked(catalog, table, destination.registry, destination.interfaces);
      AppendCatalogTo(catalog, destination);
      AppendDelayedTo(table, destination);
    }

    /** Queues a dialect interface for the dialect cataloged under
        `dialectName`; that dialect must already be cataloged. */
    method AddDialectInterface(dialectName: string, interfaceId: TypeId, allocator: FunctionRef)
      requires Valid()
      requires dialectName in registry
      modifies this`interfaces
      ensures Valid()
      ensures interfaces == WithDialectInterface(old(interfaces), registry[dialectName].dialectId,
                                                 DialectInterfaceEntry(interfaceId, allocator))
    {
      var dialectId := registry[dialectName].dialectId;
      interfaces := WithDialectInterface(interfaces, dialectId, DialectInterfaceEntry(interfaceId, allocator));
    }

    /** Queues an operation, attribute or type interface model for the dialect
        cataloged under `dialectName`; that dialect must already be cataloged. */
    method AddObjectInterface(dialectName: string, objectId: TypeId, interfaceId: TypeId, attach: FunctionRef)
      requires Valid()
      requires dialectName in registry
      modifies this`interfaces
      ensures Valid()
      ensures interfaces == WithObjectInterface(old(interfaces), registry[dialectName].dialectId,
                                                ObjectInterfaceEntry(objectId, interfaceId, attach))
    {
      var dialectId := registry[dialectName].dialectId;
      interfaces := WithObjectInterface(interfaces, dialectId, ObjectInterfaceEntry(objectId, interfaceId, attach));
    }

    /** Queues an operation interface model under the dialect whose namespace
        is the operation name's prefix before its first '.'. */
    method AddOpInterface(opName: string, opId: TypeId, interfaceId: TypeId, attach: FunctionRef)
      requires Valid()
      requires OpDialectName(opName) in registry
      modifies this`interfaces
      ensures Valid()
      ensures interfaces == WithObjectInterface(old(interfaces), registry[OpDialectName(opName)].dialectId,
                                                ObjectInterfaceEntry(opId, interfaceId, attach))
    {
      var dialectName := OpDialectName(opName);
      AddObjectInterface(dialectName, opId, interfaceId, attach);
    }

    /** Applies the pending interfaces for `dialect`'s identifier: each
        dialect interface not registered yet is allocated and attached, in
        order, and every object-interface attach function is invoked with the
        dialect's context, in order. The registry is not changed. */
    method RegisterDelayedInterfaces(dialect: Dialect)
      requires dialect.Valid()
      modifies dialect`registeredInterfaces, dialect.context`attachCalls
      ensures dialect.Valid()
      ensures dialect.registeredInterfaces ==
        AttachPending(old(dialect.registeredInterfaces), Pending(interfaces, dialect.dialectId).dialectInterfaces)
      ensures dialect.context.attachCalls ==
        old(dialect.context.attachCalls) + AttachFunctions(Pending(interfaces, dialect.dialectId).objectInterfaces)
      ensures forall entry :: entry in Pending(interfaces, dialect.dialectId).dialectInterfaces ==>
                IsaInterface(dialect, entry.interfaceId)
    {
      if dialect.dialectId !in interfaces {
        return;
      }
      var pending := interfaces[dialect.dialectId];
      AttachDialectInterfaces(dialect, pending.dialectInterfaces);
      InvokeAttachFunctions(dialect.context, pending.objectInterfaces);
    }
  }

  /** The first loop of `appendTo`: every entry of the source catalog,
      through `insert`. */
  method AppendCatalogTo(source: Catalog, destination: DialectRegistry)
    requires destination.Valid()
    requires Compatible(source, destination.registry)
    modifies destination`registry
    ensures destination.Valid()
    ensures destination.registry == MergedCatalog(source, old(destination.registry))
  {
    ghost var catalog0 := destination.registry;
    var names := source.Keys;
    ghost var done: set<string> := {};
    while names != {}
      invariant names == source.Keys - done && done <= source.Keys
      invariant destination.Valid()
      invariant Compatible(Only(source, done), catalog0)
      invariant destination.registry == MergedCatalog(Only(source, done), catalog0)
      decreases names
    {
      var name :| name in names;
      var entry := source[name];
      CatalogMergeStep(source, done, catalog0, name);
      destination.Insert(entry.dialectId, name, entry.allocator);
      names, done := names - {name}, done + {name};
    }
    assert Only(source, done) == source;
  }

  /** The second loop of `appendTo`: every entry of the source's delayed
      table, copied when the destination has none for that dialect, appended
      otherwise. */
  method AppendDelayedTo(source: DelayedTable, destination: DialectRegistry)
    modifies destination`interfaces
    ensures destination.interfaces == MergedDelayed(source, old(destination.interfaces))
  {
    ghost var table0 := destination.interfaces;
    var ids := source.Keys;
    ghost var merged: set<TypeId> := {};
    while ids != {}
      invariant ids == source.Keys - merged && merged <= source.Keys
      invariant destination.interfaces == MergedDelayed(Only(source, merged), table0)
      decreases ids
    {
      var id :| id in ids;
      var pending := source[id];
      DelayedMergeStep(source, merged, table0, id);
      if id !in destination.interfaces {
        destination.interfaces := destination.interfaces[id := pending];
      } else {
        destination.interfaces := destination.interfaces[id := Concat(destination.interfaces[id], pending)];
      }
      ids, merged := ids - {id}, merged + {id};
    }
    assert Only(source, merged) == source;
  }

  /** The dialect-interface loop of `registerDelayedInterfaces`: allocate and
      attach each pending interface the dialect does not have yet. */
  method AttachDialectInterfaces(dialect: Dialect, pending: seq<DialectInterfaceEntry>)
    requires dialect.Valid()
    modifies dialect`registeredInterfaces
    ensures dialect.Valid()
    ensures dialect.registeredInterfaces == AttachPending(old(dialect.registeredInterfaces), pending)
  {
    for i := 0 to |pending|
      invariant dialect.Valid()
      invariant dialect.registeredInterfaces == AttachPending(old(dialect.registeredInterfaces), pending[..i])
    {
      var entry := pending[i];
      assert pending[..i + 1] == pending[..i] + [entry];
      AttachPendingStep(old(dialect.registeredInterfaces), pending[..i], entry);
      if dialect.GetRegisteredInterface(entry.interfaceId).None? {
        dialect.AddInterface(Instantiate(entry));
      }
    }
    assert pending[..|pending|] == pending;
  }

  /** The object-interface loop of `registerDelayedInterfaces`: invoke each
      pending attach function with the context, in order. */
  method InvokeAttachFunctions(context: Context, pending: seq<ObjectInterfaceEntry>)
    modifies context`attachCalls
    ensures context.attachCalls == old(context.attachCalls) + AttachFunctions(pending)
  {
    for i := 0 to |pending|
      invariant context.attachCalls == old(context.attachCalls) + AttachFunctions(pending[..i])
    {
      assert pending[..i + 1][..i] == pending[..i];
      context.attachCalls := context.attachCalls + [pending[i].attach];
    }
    assert pending[..|pending|] == pending;
  }

  /** The attach functions of a list of object-interface entries, in order. */
  function AttachFunctions(entries: seq<ObjectInterfaceEntry>): (fns: seq<FunctionRef>)
    ensures |fns| == |entries|
    ensures forall i :: 0 <= i < |entries| ==> fns[i] == entries[i].attach
  {
    if entries == [] then []
    else AttachFunctions(entries[..|entries| - 1]) + [entries[|entries| - 1].attach]
  }
}
