/**
 The `Dialect` class: a loaded namespace instance with its type identifier,
 its two "unknown kinds allowed" flags and the interfaces it owns, plus the
 capability queries behind `isa<DialectT>` and `isa<InterfaceT>`.
 */
module Dialects {
  import opened Options
  import opened Names

  /** A type identifier: opaque, compared only for equality. */
  type TypeId = nat

  /** Opaque identity of a function the model never looks inside: a dialect
      allocator, a dialect-interface allocator, an object-interface attach
      function. */
  type FunctionRef = nat

  /** An interface instance owned by a dialect: the identifier of its
      interface and the allocator (or eager construction) that produced it. */
  datatype DialectInterface = DialectInterface(interfaceId: TypeId, model: FunctionRef)

  type InterfaceMap = map<TypeId, DialectInterface>

  /** Every interface is stored under its own identifier. */
  ghost predicate WellKeyed(interfaces: InterfaceMap)
  {
    forall id :: id in interfaces ==> interfaces[id].interfaceId == id
  }

  /** The `registeredInterfaces.find` lookup: the interface stored under
      exactly `id`, or nothing. */
  function Lookup(interfaces: InterfaceMap, id: TypeId): (r: Option<DialectInterface>)
    requires WellKeyed(interfaces)
    ensures r.Some? <==> id in interfaces
    ensures r.Some? ==> r.value.interfaceId == id && r.value == interfaces[id]
  {
    if id in interfaces then Some(interfaces[id]) else None
  }

  /** The compilation context a dialect is bound to. Only the effect of the
      object-interface attach functions invoked with it is recorded. */
  class Context {
    /** Attach functions invoked with this context, in invocation order. */
    ghost var attachCalls: seq<FunctionRef>

    constructor ()
      ensures attachCalls == []
    {
      attachCalls := [];
    }
  }

  class Dialect {
    /** The namespace; fixed at construction. */
    const name: string
    /** The identifier of the concrete dialect kind. */
    const dialectId: TypeId
    /** The context that owns this dialect. */
    const context: Context
    var unknownOpsAllowed: bool
    var unknownTypesAllowed: bool
    var registeredInterfaces: InterfaceMap

    ghost predicate Valid()
      reads this
    {
      IsValidNamespace(name) && WellKeyed(registeredInterfaces)
    }

    constructor (name: string, context: Context, id: TypeId)
      requires IsValidNamespace(name)
      ensures Valid()
      ensures this.name == name && this.context == context && dialectId == id
      ensures !AllowsUnknownOperations() && !AllowsUnknownTypes()
      ensures registeredInterfaces == map[]
      ensures forall interfaceId :: GetRegisteredInterface(interfaceId) == None
    {
      this.name := name;
      this.context := context;
      dialectId := id;
      unknownOpsAllowed := false;
      unknownTypesAllowed := false;
      registeredInterfaces := map[];
    }

    /** The context bound at construction; it never changes. */
    function GetContext(): (c: Context)
      ensures c == context
    {
      context
    }

    /** The namespace bound at construction; it never changes and holds no
        separator. */
    function GetNamespace(): (ns: string)
      reads this
      requires Valid()
      ensures ns == name && IsValidNamespace(ns)
    {
      name
    }

    /** The identifier bound at construction; it never changes. */
    function GetTypeID(): (id: TypeId)
      ensures id == dialectId
    {
      dialectId
    }

    function AllowsUnknownOperations(): (allowed: bool)
      reads this
      ensures allowed == unknownOpsAllowed
    {
      unknownOpsAllowed
    }

    function AllowsUnknownTypes(): (allowed: bool)
      reads this
      ensures allowed == unknownTypesAllowed
    {
      unknownTypesAllowed
    }

    /** The interface registered for `interfaceId`, or nothing; reading only,
        the dialect is unchanged. */
    function GetRegisteredInterface(interfaceId: TypeId): (r: Option<DialectInterface>)
      reads this
      requires WellKeyed(registeredInterfaces)
      ensures r.Some? <==> interfaceId in registeredInterfaces.Keys
      ensures r.Some? ==> r.value.interfaceId == interfaceId
      ensures r.Some? ==> r.value == registeredInterfaces[interfaceId]
    {
      Lookup(registeredInterfaces, interfaceId)
    }

    /** The default per-operation interface lookup finds nothing; dialects
        with per-operation tables override it. */
    function GetRegisteredInterfaceForOp(interfaceId: TypeId, opName: string): (r: Option<FunctionRef>)
      ensures r.None?
    {
      None
    }

    method AllowUnknownOperations(allow: bool := true)
      requires Valid()
      modifies this`unknownOpsAllowed
      ensures Valid()
      ensures AllowsUnknownOperations() == allow
      ensures AllowsUnknownTypes() == old(AllowsUnknownTypes())
      ensures registeredInterfaces == old(registeredInterfaces)
    {
      unknownOpsAllowed := allow;
    }

    method AllowUnknownTypes(allow: bool := true)
      requires Valid()
      modifies this`unknownTypesAllowed
      ensures Valid()
      ensures AllowsUnknownTypes() == allow
      ensures AllowsUnknownOperations() == old(AllowsUnknownOperations())
      ensures registeredInterfaces == old(registeredInterfaces)
    {
      unknownTypesAllowed := allow;
    }

    /** Takes ownership of `iface`, keyed by its interface identifier. A second
        interface with an identifier already registered is a programming
        error here, not a replacement. */
    method AddInterface(iface: DialectInterface)
      requires Valid()
      requires iface.interfaceId !in registeredInterfaces
      modifies this`registeredInterfaces
      ensures Valid()
      ensures registeredInterfaces == old(registeredInterfaces)[iface.interfaceId := iface]
      ensures GetRegisteredInterface(iface.interfaceId) == Some(iface)
      ensures forall id :: id != iface.interfaceId ==>
                GetRegisteredInterface(id) == old(GetRegisteredInterface(id))
    {
      registeredInterfaces := registeredInterfaces[iface.interfaceId := iface];
    }

    /** Attaches a fixed list of interfaces, one `AddInterface` each, in order. */
    method AddInterfaces(ifaces: seq<DialectInterface>)
      requires Valid()
      requires DistinctInterfaces(ifaces)
      requires forall i :: 0 <= i < |ifaces| ==> ifaces[i].interfaceId !in registeredInterfaces
      modifies this`registeredInterfaces
      ensures Valid()
      ensures registeredInterfaces.Keys == old(registeredInterfaces.Keys) + InterfaceIds(ifaces)
      ensures forall i :: 0 <= i < |ifaces| ==>
                GetRegisteredInterface(ifaces[i].interfaceId) == Some(ifaces[i])
      ensures forall id :: id !in InterfaceIds(ifaces) ==>
                GetRegisteredInterface(id) == old(GetRegisteredInterface(id))
    {
      for k := 0 to |ifaces|
        invariant Valid()
        invariant registeredInterfaces.Keys == old(registeredInterfaces.Keys) + InterfaceIds(ifaces[..k])
        invariant forall i :: 0 <= i < k ==> GetRegisteredInterface(ifaces[i].interfaceId) == Some(ifaces[i])
        invariant forall id :: id !in InterfaceIds(ifaces[..k]) ==>
                    GetRegisteredInterface(id) == old(GetRegisteredInterface(id))
      {
        ghost var added := ifaces[..k + 1];
        assert added == ifaces[..k] + [ifaces[k]];
        assert InterfaceIds(added) == InterfaceIds(ifaces[..k]) + {ifaces[k].interfaceId} by {
          assert forall i :: 0 <= i < k ==> added[i] == ifaces[..k][i];
          assert added[k] == ifaces[k];
        }
        assert forall i :: 0 <= i < k ==> ifaces[i].interfaceId != ifaces[k].interfaceId;
        AddInterface(ifaces[k]);
      }
      assert ifaces[..|ifaces|] == ifaces;
    }
  }

  /** The identifiers of a list of interfaces. */
  ghost function InterfaceIds(ifaces: seq<DialectInterface>): set<TypeId>
  {
    set i | 0 <= i < |ifaces| :: ifaces[i].interfaceId
  }

  ghost predicate DistinctInterfaces(ifaces: seq<DialectInterface>)
  {
    forall i, j :: 0 <= i < j < |ifaces| ==> ifaces[i].interfaceId != ifaces[j].interfaceId
  }

  /** `isa<DialectT>(dialect)`: the dialect's identifier is that of `DialectT`. */
  predicate IsaDialect(dialect: Dialect, dialectT: TypeId)
    ensures IsaDialect(dialect, dialectT) <==> dialect.GetTypeID() == dialectT
  {
    dialect.dialectId == dialectT
  }

  /** `isa<InterfaceT>(dialect)`: an interface is registered for `InterfaceT`. */
  predicate IsaInterface(dialect: Dialect, interfaceT: TypeId)
    reads dialect
    requires dialect.Valid()
    ensures IsaInterface(dialect, interfaceT) <==> dialect.GetRegisteredInterface(interfaceT).Some?
  {
    interfaceT in dialect.registeredInterfaces
  }
}
