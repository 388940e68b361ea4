# MLIR dialects and the dialect registry, in Dafny

This project models the dialect machinery of MLIR's IR library, as declared in
`mlir/include/mlir/IR/Dialect.h`:

- a **`Dialect`** is a loaded namespace instance. It has a namespace without
  `'.'`, a type identifier, two "unknown operations / types allowed" flags
  that start false, and the interfaces it owns, keyed by interface identifier.
  It offers a constant-time interface lookup and the `isa<DialectT>` and
  `isa<InterfaceT>` capability queries;
- a **`DialectRegistry`** keeps a catalog from namespace to (dialect
  identifier, allocator), ordered by namespace as a `std::map` is. It also keeps
  a table of *delayed* interfaces keyed by the target dialect's identifier:
  dialect interfaces and operation/attribute/type ("object") interfaces
  queued before the dialect is loaded. Registries merge with `appendTo`, and
  `registerDelayedInterfaces` applies the queued interfaces to a dialect when it
  loads.

Modules, one per concern:

- `options.dfy`, `Options`: the absent-or-present result that stands for null
  pointers and null function references.
- `names.dfy`, `Names`: the `std::string` order of the catalog's keys, the sorted
  name list, the namespace rule, and the split of an operation name at its
  first `'.'`.
- `dialects.dfy`, `Dialects`: type identifiers, interface values, the `Context`
  (only the log of attach functions invoked with it), the `Dialect` class and
  the `isa` predicates.
- `registry.dfy`, `Registry`: the catalog and delayed-table values with their
  update and merge functions, the lemmas about them, and the `DialectRegistry`
  class whose methods are proved against those functions.

Type identifiers are `nat`s compared only for equality. Allocators and attach
functions are opaque identifiers (`FunctionRef`). An interface a dialect owns is
the value `DialectInterface(interfaceId, model)`, where `model` names the
allocator or eager construction that produced it. Invoking an object-interface
attach function appends its identifier to the context's `attachCalls` log.

`Dialect.cpp` is not part of this model, so where the header leaves behaviour
to it the model picks a policy:

- `insert` behaves like `std::map::insert`. A new namespace gets the entry. A
  namespace already bound to the *same* identifier keeps its existing entry and
  allocator, so re-registering the same dialect is allowed. A namespace bound to
  a *different* identifier is a fatal error, so it is a precondition
  (`Registry.Consistent`).
- `Dialect::addInterface` requires the interface identifier not to be
  registered yet. A duplicate is a programming error, not a replacement.
- `registerDelayedInterfaces` allocates and attaches a queued dialect interface
  only when its identifier is not registered yet. This is how the duplicates
  that `appendTo` deliberately keeps are tolerated. Every queued attach function
  is invoked, in order.
- `addDialectInterface` and `addObjectInterface` append to the queue for the
  cataloged dialect's identifier, without deduplication. The dialect must
  already be cataloged (header lines 363-366 and 383-385), so that is a
  precondition.
- `isValidNamespace` is modelled by the header's own rule (line 186): no `'.'`.
- `DialectRegistry()` is declared at line 302 but defined in `Dialect.cpp`. The
  model's registry starts with an empty catalog and no delayed interfaces.

`getDialectNames` enumerates the catalog, a `std::map`, so names come in
ascending string order. Accepting the empty namespace is the model's own
choice: the header states no rule beyond the absence of `'.'`.

## Model

| member | source | states |
|---|---|---|
| `Dialects.Dialect.constructor` | mlir/include/mlir/IR/Dialect.h:183-191 | requires a namespace without `'.'`; binds namespace, context and identifier; both unknown-kind flags false and the interface map empty, so no lookup finds anything |
| `Dialects.Context.constructor` | mlir/include/mlir/IR/Dialect.h:33 | a new context has had no object-interface attach function invoked with it |
| `Dialects.Dialect.GetContext` | mlir/include/mlir/IR/Dialect.h:56 | the context bound at construction (a `const` field, so never changed) |
| `Dialects.Dialect.GetNamespace` | mlir/include/mlir/IR/Dialect.h:58 | the namespace bound at construction, which holds no `'.'` |
| `Dialects.Dialect.GetTypeID` | mlir/include/mlir/IR/Dialect.h:60-61 | the identifier bound at construction |
| `Dialects.Dialect.AllowsUnknownOperations` | mlir/include/mlir/IR/Dialect.h:63-66 | the unknown-operations flag, false after construction and changed only by `AllowUnknownOperations` |
| `Dialects.Dialect.AllowsUnknownTypes` | mlir/include/mlir/IR/Dialect.h:68-71 | the unknown-types flag, false after construction and changed only by `AllowUnknownTypes` |
| `Dialects.Dialect.AllowUnknownOperations` | mlir/include/mlir/IR/Dialect.h:220-221 | sets `allowsUnknownOperations()` to the argument, `true` when omitted; the other flag and the interfaces are unchanged (namespace, identifier and context are immutable) |
| `Dialects.Dialect.AllowUnknownTypes` | mlir/include/mlir/IR/Dialect.h:223-224 | sets `allowsUnknownTypes()` to the argument, `true` when omitted; the other flag and the interfaces are unchanged |
| `Dialects.Lookup` | mlir/include/mlir/IR/Dialect.h:159-164 | finds an interface exactly when one is stored under the identifier, and then it is that one, carrying that identifier |
| `Dialects.Dialect.GetRegisteredInterface` | mlir/include/mlir/IR/Dialect.h:159-168 | present exactly when an interface is registered under the identifier, and then it is the one stored there and its own identifier is the one asked for; reads the dialect without changing it |
| `Dialects.Dialect.GetRegisteredInterfaceForOp` | mlir/include/mlir/IR/Dialect.h:170-181 | the default per-operation lookup finds nothing |
| `Dialects.Dialect.AddInterface` | mlir/include/mlir/IR/Dialect.h:226-227 | for an identifier not registered yet: the map gains exactly that entry, the lookup returns the installed interface afterwards and every other lookup is unchanged |
| `Dialects.Dialect.AddInterfaces` | mlir/include/mlir/IR/Dialect.h:229-233 | attaching a list of interfaces with distinct new identifiers: each is found under its identifier afterwards, the keys grow by exactly those identifiers, other lookups unchanged |
| `Dialects.IsaDialect` | mlir/include/mlir/IR/Dialect.h:447-453 | `isa<DialectT>` holds iff the dialect's identifier equals `DialectT`'s |
| `Dialects.IsaInterface` | mlir/include/mlir/IR/Dialect.h:454-461 | `isa<InterfaceT>` holds iff the interface lookup for `InterfaceT` finds something |
| `Names.OpDialectName` | mlir/include/mlir/IR/Dialect.h:386-388 | the part of an operation name before its first `'.'`: a prefix of the name, free of `'.'`, and either the whole name or followed by `'.'` |
| `Names.IsValidNamespace` | mlir/include/mlir/IR/Dialect.h:52-54 | a namespace is valid exactly when no character of it is `'.'` (the note at line 186) |
| `Names.OpDialectNameOfQualified` | mlir/include/mlir/IR/Dialect.h:186-190 | for a valid namespace `ns`, splitting `ns + "." + rest` gives back `ns` whatever `rest` is |
| `Registry.DialectNames` | mlir/include/mlir/IR/Dialect.h:356-361 | the names are exactly the catalog's keys, as many as the keys, each once, in strictly ascending `std::string` order |
| `Registry.DialectRegistry.constructor` | mlir/include/mlir/IR/Dialect.h:302 | by the model's policy, a new registry has an empty catalog and no delayed interfaces |
| `Registry.Inserted` | mlir/include/mlir/IR/Dialect.h:321-325 | the namespace is cataloged with the given identifier; when new it gets the given allocator; every earlier entry is kept; the cataloged identifiers grow by the given one |
| `Registry.DialectRegistry.Insert` | mlir/include/mlir/IR/Dialect.h:321-325 | the catalog becomes `Inserted` of the old catalog and the delayed entries stay linked to cataloged dialects; a conflicting identifier is excluded by the precondition |
| `Registry.Allocator` | mlir/include/mlir/IR/Dialect.h:327-329 | present exactly when the namespace is cataloged, and then that namespace's allocator; absent (null) for an unknown one |
| `Registry.DialectRegistry.GetDialectAllocator` | mlir/include/mlir/IR/Dialect.h:327-329 | the same on the registry's own catalog; reading only, nothing is allocated |
| `Registry.DialectRegistry.GetDialectNames` | mlir/include/mlir/IR/Dialect.h:356-361 | exactly the registry's namespaces, each once, in strictly ascending order |
| `Registry.AllocatorAfterInsert` | mlir/include/mlir/IR/Dialect.h:327-329 | after an insert the namespace's allocator is the given one when the namespace was new, the existing one otherwise; every other namespace's allocator, or absence of one, is unchanged |
| `Registry.MergedCatalog` | mlir/include/mlir/IR/Dialect.h:333-337 | after the merge every namespace of source and destination is cataloged, destination entries are kept, a namespace new to the destination gets the source's entry (identifier and allocator), source namespaces keep their identifier, and every source identifier is cataloged |
| `Registry.AllocatorAfterMerge` | mlir/include/mlir/IR/Dialect.h:333-337 | after a merge the allocator lookup gives the destination's allocator for its own namespaces and the source's for the others |
| `Registry.SelfMergedCatalog` | mlir/include/mlir/IR/Dialect.h:333-337 | a registry is compatible with itself, and merging its catalog into itself changes nothing |
| `Registry.MergedNamesOrderIndependent` | mlir/include/mlir/IR/Dialect.h:331-337 | merging two registries into a destination in either order gives the same dialect names |
| `Registry.Concat` | mlir/include/mlir/IR/Dialect.h:346-352 | the merged lists have the summed lengths, the destination's list as prefix and the source's as suffix |
| `Registry.MergedDelayed` | mlir/include/mlir/IR/Dialect.h:338-353 | the merged table has the dialects of both; a source-only entry is copied, a destination-only entry kept, and an entry in both becomes the destination's lists followed by the source's |
| `Registry.SelfMergedDelayed` | mlir/include/mlir/IR/Dialect.h:338-353 | merging a delayed table into itself doubles every dialect's lists |
| `Registry.MergedDelayedEntries` | mlir/include/mlir/IR/Dialect.h:338-353 | a dialect absent from the destination gets the source's entry exactly; one in both gets old ++ source for both lists, lengths adding, nothing removed or deduplicated; one absent from the source is untouched |
| `Registry.MergePreservesLinked` | mlir/include/mlir/IR/Dialect.h:333-353 | if both registries have delayed entries only for cataloged dialects, so does the merged destination |
| `Registry.DialectRegistry.AppendTo` | mlir/include/mlir/IR/Dialect.h:331-354 | the destination's catalog becomes `MergedCatalog` and its delayed table `MergedDelayed` of the old source and old destination, also when the destination is the source itself (the re-inserts hit existing keys and the appends read per-entry copies, so walking the live maps gives the same result as the model's snapshot); a distinct source is unchanged; the destination stays linked |
| `Registry.AppendCatalogTo` | mlir/include/mlir/IR/Dialect.h:334-337 | the catalog loop of `appendTo`, one `insert` per source entry, yields `MergedCatalog` |
| `Registry.AppendDelayedTo` | mlir/include/mlir/IR/Dialect.h:338-353 | the interface loop of `appendTo`, copying or appending each source entry, yields `MergedDelayed` |
| `Registry.WithDialectInterface` | mlir/include/mlir/IR/Dialect.h:417-420 | the dialect's dialect-interface list gains the entry at its end; its object list and all other dialects' entries are unchanged |
| `Registry.DialectRegistry.AddDialectInterface` | mlir/include/mlir/IR/Dialect.h:363-381 | requires the namespace to be cataloged; appends the entry under that namespace's dialect identifier, not under the string |
| `Registry.WithObjectInterface` | mlir/include/mlir/IR/Dialect.h:422-426 | the dialect's object-interface list gains the entry at its end; its dialect list and all other dialects' entries are unchanged |
| `Registry.DialectRegistry.AddObjectInterface` | mlir/include/mlir/IR/Dialect.h:396-437 | requires the namespace to be cataloged; appends (object, interface, attach) under that namespace's dialect identifier; this is what `addAttrInterface` and `addTypeInterface` do through `addStorageUserInterface` |
| `Registry.DialectRegistry.AddOpInterface` | mlir/include/mlir/IR/Dialect.h:383-394 | requires the dialect named by the operation name's prefix before its first `'.'` to be cataloged, and files the entry under that dialect |
| `Registry.AttachPending` | mlir/include/mlir/IR/Dialect.h:412-414 | attaching a pending list keeps every interface already registered, stays keyed by interface identifier, and afterwards every pending identifier is registered |
| `Registry.AttachPendingKeepsFirst` | mlir/include/mlir/IR/Dialect.h:412-414 | when the queue names an interface the dialect lacks more than once, the first queued entry is the one attached |
| `Registry.AttachPendingFresh` | mlir/include/mlir/IR/Dialect.h:412-414 | with N pending interfaces of distinct identifiers the dialect lacks, exactly N are attached, each as its allocator produced it |
| `Registry.DialectRegistry.RegisterDelayedInterfaces` | mlir/include/mlir/IR/Dialect.h:412-414 | the dialect's interfaces become `AttachPending` of the queue for its identifier, and the context's attach log gains that queue's attach functions in order; afterwards `isa<InterfaceT>` holds for every queued dialect interface; the flags and the registry are unchanged |
| `Registry.AttachDialectInterfaces` | mlir/include/mlir/IR/Dialect.h:412-414 | the dialect-interface loop, attaching each pending interface the dialect lacks, yields `AttachPending` |
| `Registry.InvokeAttachFunctions` | mlir/include/mlir/IR/Dialect.h:412-414 | the object-interface loop invokes every attach function with the context, in queue order |
| `Registry.MergedDialectInterfaceAttachedOnLoad` | mlir/include/mlir/IR/Dialect.h:338-353 | a dialect interface queued in either registry before `appendTo` is registered on the dialect once it loads from the merged registry |
| `Registry.MergedObjectInterfaceInvokedOnLoad` | mlir/include/mlir/IR/Dialect.h:338-353 | an object interface queued in either registry before `appendTo` has its attach function invoked once the dialect loads from the merged registry |

`Names.Below` (with its irreflexivity, transitivity and totality lemmas),
`Names.Least` and `Names.SortedNames` give the order of `std::less<std::string>`
and the ascending key list that `DialectNames` is built from.
`Registry.CatalogMergeStep`, `Registry.DelayedMergeStep` and
`Registry.AttachPendingStep` are the one-step facts behind the loops, and
`Registry.AttachFunctions` lists the attach functions of a queue in order.
`Registry.Instantiate` is the model's definition of what a queued allocator
produces: the interface queued under that identifier, made by that allocator.

## Left out

- The parse, print and verify hooks, `materializeConstant` and
  `getCanonicalizationPatterns`: their defaults depend on the parser, printer,
  IR and rewrite-pattern types, or abort.
- `getParseOperationHook` and `getOperationPrinter`: their defaults live in
  `Dialect.cpp` and depend on registered operation names.
- `addOperations`, `addTypes`, `addAttributes`, `addType` and `addAttribute`:
  they register kinds with the operation, type and attribute uniquers, which
  are external collaborators.
- How type identifiers are generated. They are plain `nat`s here.
- The variadic `insert<Dialects...>()` and the template wrappers of
  `addDialectInterface`. They reduce to `Insert` and `AddDialectInterface`
  called with the dialect's identifier and namespace.
- What allocators and attach functions do. They are opaque identifiers. A
  dialect allocator is never invoked: loading a dialect in an `MLIRContext`
  (`getOrLoadDialect`) is outside this model.
- The back-reference from an interface to its dialect.
- The `cast_retty_impl` and `cast_convert_val` casts. Only the boolean `isa`
  queries are modelled.
- `Registry.DialectRegistry.constructor` starts empty. The constructor's body
  is in `Dialect.cpp`, which is not part of this model, and the real
  constructor may pre-register a dialect (such as the builtin one).
- `Registry.Instantiate` assumes a queued allocator produces an interface whose
  identifier is the one it was queued under. Lines 375-380 guarantee this for
  `addDialectInterface<DialectTy, InterfaceTy>()`. For the overload taking an
  arbitrary allocator (lines 366-371) it is the caller's obligation.
- `Registry.DialectRegistry.AppendTo` visits catalog names and delayed
  identifiers in an arbitrary order. The source visits them in map order. The
  result is the same, because each key is handled once and independently.
- `Registry.DialectRegistry.GetDialectNames` returns the full sorted list as a
  ghost value rather than a lazy range.
- `Names.IsValidNamespace` checks only the absence of `'.'`. Any further
  character rules in `Dialect.cpp` are not part of this model.
- Thread safety and ownership lifetimes. The model is sequential. Owned
  interfaces are values in the dialect's map.
