/** ServiceLocator.cs: a dictionary from a type to one registered instance
    of it, through which the platform-specific keyboard service is found. */
module ServiceLocator {
  import opened Options

  /** A type, by its full name. */
  type TypeKey = string

  /** A registered object: an identity, and the types it is an instance of
      (its class, its base classes, its interfaces). */
  datatype Instance = Instance(id: nat, types: set<TypeKey>)

  /** The dictionary. A stored None is a registered null. */
  datatype Registry = Registry(services: map<TypeKey, Option<Instance>>)

  /** The dictionary as the static constructor leaves it. */
  const Empty: Registry := Registry(map[])

  /** Every entry under T holds null or an instance of T: Register<T> only
      ever stores a T. */
  predicate WellTyped(r: Registry) {
    forall t :: t in r.services && r.services[t].Some? ==> t in r.services[t].value.types
  }

  /** Register<T>(instance): stores the instance under typeof(T), replacing
      any earlier one. The compiler guarantees the instance is a T. */
  function Register(r: Registry, t: TypeKey, instance: Option<Instance>): (r': Registry)
    requires instance.Some? ==> t in instance.value.types
    ensures t in r'.services && r'.services[t] == instance
    ensures forall u :: u != t ==> (u in r'.services <==> u in r.services)
    ensures forall u :: u != t && u in r.services ==> r'.services[u] == r.services[u]
    ensures WellTyped(r) ==> WellTyped(r')
  {
    Registry(r.services[t := instance])
  }

  /** Resolve<T>(): the instance stored under typeof(T) if it is a T, null
      when nothing or null is stored. */
  function Resolve(r: Registry, t: TypeKey): (v: Option<Instance>)
    ensures v.Some? ==> t in r.services && r.services[t] == v && t in v.value.types
    ensures t !in r.services ==> v.None?
  {
    if t in r.services then
      match r.services[t]
      case Some(inst) => if t in inst.types then Some(inst) else None
      case None => None
    else None
  }

  /** In a well-typed registry the `as T` cast never fails: Resolve gives
      exactly what is stored. */
  lemma ResolveStored(r: Registry, t: TypeKey)
    requires WellTyped(r) && t in r.services
    ensures Resolve(r, t) == r.services[t]
  {
  }

  /** Resolving right after registering gives back that instance, null
      included. */
  lemma ResolveAfterRegister(r: Registry, t: TypeKey, instance: Option<Instance>)
    requires instance.Some? ==> t in instance.value.types
    ensures Resolve(Register(r, t, instance), t) == instance
  {
  }

  /** Registering one type leaves every other type's resolution alone. */
  lemma RegisterLeavesOthers(r: Registry, t: TypeKey, instance: Option<Instance>, u: TypeKey)
    requires instance.Some? ==> t in instance.value.types
    requires u != t
    ensures Resolve(Register(r, t, instance), u) == Resolve(r, u)
  {
  }

  /** A later registration under the same type wins. */
  lemma RegisterReplaces(r: Registry, t: TypeKey, first: Option<Instance>, second: Option<Instance>)
    requires first.Some? ==> t in first.value.types
    requires second.Some? ==> t in second.value.types
    ensures Register(Register(r, t, first), t, second) == Register(r, t, second)
  {
  }

  /** A type never registered resolves to null, even when an instance of
      it is registered under another type (lookup is by the exact key). */
  lemma ResolveUnregistered(r: Registry, t: TypeKey, u: TypeKey, instance: Instance)
    requires u != t && t in instance.types && u in instance.types
    requires t !in r.services
    ensures Resolve(Register(r, u, Some(instance)), t).None?
  {
  }

  /** Every registry built by Register from the empty one is well typed. */
  lemma {:induction false} RegistrationsWellTyped(regs: seq<(TypeKey, Option<Instance>)>)
    requires forall k :: 0 <= k < |regs| && regs[k].1.Some? ==> regs[k].0 in regs[k].1.value.types
    ensures WellTyped(Apply(Empty, regs))
    decreases |regs|
  {
    if regs != [] {
      RegistrationsWellTyped(regs[..|regs| - 1]);
    }
  }

  /** The registry after a sequence of registrations, in order. */
  function Apply(r: Registry, regs: seq<(TypeKey, Option<Instance>)>): Registry
    requires forall k :: 0 <= k < |regs| && regs[k].1.Some? ==> regs[k].0 in regs[k].1.value.types
    decreases |regs|
  {
    if regs == [] then r
    else
      var last := regs[|regs| - 1];
      Register(Apply(r, regs[..|regs| - 1]), last.0, last.1)
  }
}
