/**
 * The shared-instance registry of the container (`DefaultSingletonBeanRegistry`): a
 * three-tier cache of singletons, the set of names under creation, the dependency and
 * containment relations between beans, and the teardown that destroys beans in
 * dependency order. It resolves bean names through an alias registry.
 */
module Singletons {
  import opened Common
  import Aliases

  /** The identity of a Java object held by the registry. */
  type Ref = nat

  /** A value of `singletonObjects`: a concurrent map holds no null, so a null
      singleton is stored as the sentinel `NULL_OBJECT`. */
  datatype Cached = NullObject | Object(ref: Ref)

  /** An `ObjectFactory`; what its `getObject` does is outside the registry. */
  datatype Factory = Factory(id: nat)

  /** A `DisposableBean` registered for teardown. */
  datatype Disposable = Disposable(id: nat)

  /** What one call of `ObjectFactory.getObject` did: returned a possibly null object, or threw. */
  datatype Produced = Produced(obj: Option<Ref>) | Threw(failure: Thrown)

  /** `singletonObject != null ? singletonObject : NULL_OBJECT`. */
  function Store(obj: Option<Ref>): (c: Cached)
    ensures Expose(c) == obj
    ensures c == NullObject <==> obj == None
  {
    match obj
    case None => NullObject
    case Some(r) => Object(r)
  }

  /** `singletonObject != NULL_OBJECT ? singletonObject : null`. */
  function Expose(c: Cached): (r: Option<Ref>)
    ensures r == None <==> c == NullObject
  {
    match c
    case NullObject => None
    case Object(r) => Some(r)
  }

  /** Storing what was read back gives the stored value again. */
  lemma StoreExpose(c: Cached)
    ensures Store(Expose(c)) == c
  {
  }

  /** A relation map (`Map<String, Set<String>>`) whose sets keep insertion order. */
  type Relation = map<Name, seq<Name>>

  /** The set registered under `k`, empty when there is none. */
  function Related(rel: Relation, k: Name): seq<Name>
  {
    if k in rel then rel[k] else []
  }

  /** No set of a relation is empty or holds a name twice. */
  predicate WellFormed(rel: Relation)
  {
    forall k | k in rel :: rel[k] != [] && NoDups(rel[k])
  }

  /** Adds `v` to the set under `k`, creating the set when there is none. */
  function AddEdge(rel: Relation, k: Name, v: Name): (r: Relation)
    ensures r.Keys == rel.Keys + {k}
    ensures forall x :: x in Related(r, k) <==> x in Related(rel, k) || x == v
    ensures forall j | j != k :: Related(r, j) == Related(rel, j)
    ensures v in Related(rel, k) ==> r == rel
    ensures WellFormed(rel) ==> WellFormed(r)
  {
    rel[k := Insert(Related(rel, k), v)]
  }

  /** Registering an edge twice is registering it once. */
  lemma AddEdgeIdempotent(rel: Relation, k: Name, v: Name)
    ensures AddEdge(AddEdge(rel, k, v), k, v) == AddEdge(rel, k, v)
  {
    assert v in Related(AddEdge(rel, k, v), k);
  }

  /** Every set of the relation without `name`, and without the sets that become empty. */
  function Forget(rel: Relation, name: Name): (r: Relation)
    ensures forall k :: k in r <==> k in rel && exists x :: x in rel[k] && x != name
    ensures forall k | k in r :: name !in r[k] && forall x :: x in r[k] <==> x in rel[k] && x != name
    ensures WellFormed(rel) ==> WellFormed(r)
  {
    forall k | k in rel ensures Without(rel[k], name) != [] <==> exists x :: x in rel[k] && x != name {
      var rest := Without(rel[k], name);
      if rest != [] { assert rest[0] in rest; }
    }
    map k | k in rel && Without(rel[k], name) != [] :: Without(rel[k], name)
  }

  /** `dependentBeanMap` and `dependenciesForBeanMap` describe the same edges. */
  ghost predicate Mirrored(dependents: Relation, dependencies: Relation)
  {
    forall a, b :: b in Related(dependents, a) <==> a in Related(dependencies, b)
  }

  /** `registerDependentBean` records an edge on both sides, keeping them mirrored. */
  lemma AddEdgeKeepsMirrored(dependents: Relation, dependencies: Relation, bean: Name, dependent: Name)
    requires Mirrored(dependents, dependencies)
    ensures Mirrored(AddEdge(dependents, bean, dependent), AddEdge(dependencies, dependent, bean))
  {
    var dependents' := AddEdge(dependents, bean, dependent);
    var dependencies' := AddEdge(dependencies, dependent, bean);
    forall a, b ensures b in Related(dependents', a) <==> a in Related(dependencies', b) {
      assert b in Related(dependents, a) <==> a in Related(dependencies, b);
    }
  }

  /** The cache tiers of a registry: a name is in at most one tier, and the registration
      order lists exactly the names in some tier, once each. */
  ghost predicate Tiers(objects: map<Name, Cached>, factories: map<Name, Factory>,
                        early: map<Name, Option<Ref>>, registered: seq<Name>)
  {
    objects.Keys !! factories.Keys && objects.Keys !! early.Keys && factories.Keys !! early.Keys &&
    NoDups(registered) && Elems(registered) == objects.Keys + factories.Keys + early.Keys
  }

  /** Empty caches are consistent. */
  lemma TiersEmpty()
    ensures Tiers(map[], map[], map[], [])
  {
  }

  /** `addSingleton` keeps the tiers consistent. */
  lemma TiersAdd(objects: map<Name, Cached>, factories: map<Name, Factory>, early: map<Name, Option<Ref>>,
                 registered: seq<Name>, name: Name, c: Cached)
    requires Tiers(objects, factories, early, registered)
    ensures Tiers(objects[name := c], factories - {name}, early - {name}, Insert(registered, name))
  {
    InsertElems(registered, name);
  }

  /** `addSingletonFactory` keeps the tiers consistent. */
  lemma TiersAddFactory(objects: map<Name, Cached>, factories: map<Name, Factory>, early: map<Name, Option<Ref>>,
                        registered: seq<Name>, name: Name, f: Factory)
    requires Tiers(objects, factories, early, registered) && name !in objects
    ensures Tiers(objects, factories[name := f], early - {name}, Insert(registered, name))
  {
    InsertElems(registered, name);
  }

  /** Moving an early reference from the factory tier to the early tier keeps the tiers consistent. */
  lemma TiersEarly(objects: map<Name, Cached>, factories: map<Name, Factory>, early: map<Name, Option<Ref>>,
                   registered: seq<Name>, name: Name, v: Option<Ref>)
    requires Tiers(objects, factories, early, registered) && name in factories
    ensures Tiers(objects, factories - {name}, early[name := v], registered)
  {
  }

  /** `removeSingleton` keeps the tiers consistent. */
  lemma TiersRemove(objects: map<Name, Cached>, factories: map<Name, Factory>, early: map<Name, Option<Ref>>,
                    registered: seq<Name>, name: Name)
    requires Tiers(objects, factories, early, registered)
    ensures Tiers(objects - {name}, factories - {name}, early - {name}, Without(registered, name))
  {
    WithoutElems(registered, name);
  }

  /** `order` lists exactly `keys`, once each (the key order of a `LinkedHashMap`). */
  ghost predicate Listed(order: seq<Name>, keys: set<Name>)
  {
    NoDups(order) && Elems(order) == keys
  }

  lemma ListedInsert(order: seq<Name>, keys: set<Name>, name: Name)
    requires Listed(order, keys)
    ensures Listed(Insert(order, name), keys + {name})
  {
    InsertElems(order, name);
  }

  lemma ListedRemove(order: seq<Name>, keys: set<Name>, name: Name)
    requires Listed(order, keys)
    ensures Listed(Without(order, name), keys - {name})
  {
    WithoutElems(order, name);
  }

  /** `trace` lists, once each, exactly the names that left the disposables as they went
      from `d0` to `d1`. */
  ghost predicate Accounts(trace: seq<Name>, d0: set<Name>, d1: set<Name>)
  {
    d1 <= d0 && multiset(trace) == multiset(d0 - d1)
  }

  /** Two destructions one after the other account for both. */
  lemma AccountsChain(t1: seq<Name>, t2: seq<Name>, d0: set<Name>, d1: set<Name>, d2: set<Name>)
    requires Accounts(t1, d0, d1) && Accounts(t2, d1, d2)
    ensures Accounts(t1 + t2, d0, d2)
  {
    assert multiset(d0 - d2) == multiset(d0 - d1) + multiset(d1 - d2) by {
      assert d0 - d2 == (d0 - d1) + (d1 - d2);
      SetUnionMultiset(d0 - d1, d1 - d2);
    }
  }

  lemma SetUnionMultiset(a: set<Name>, b: set<Name>)
    requires a !! b
    ensures multiset(a + b) == multiset(a) + multiset(b)
  {
    forall x ensures multiset(a + b)[x] == (multiset(a) + multiset(b))[x] {
    }
  }

  /** Destroying `x`, taken out of the disposables `m` beforehand, between two destructions. */
  lemma AccountsAround(t1: seq<Name>, x: Name, t2: seq<Name>, m: map<Name, Disposable>, d1: set<Name>, d2: set<Name>)
    requires x in m && Accounts(t1, (m - {x}).Keys, d1) && Accounts(t2, d1, d2)
    ensures Accounts(t1 + [x] + t2, m.Keys, d2)
  {
    var d0 := (m - {x}).Keys;
    AccountsChain(t1, t2, d0, d1, d2);
    KeysAround(m, x, d2);
    SetUnionMultiset(d0 - d2, {x});
    MultisetAround(t1, x, t2);
  }

  lemma KeysAround(m: map<Name, Disposable>, x: Name, d: set<Name>)
    requires x in m && x !in d
    ensures m.Keys - d == ((m - {x}).Keys - d) + {x}
  {
  }

  lemma MultisetAround(t1: seq<Name>, x: Name, t2: seq<Name>)
    ensures multiset(t1 + [x] + t2) == multiset(t1 + t2) + multiset{x}
  {
    calc {
      multiset(t1 + [x] + t2);
      multiset(t1) + multiset([x]) + multiset(t2);
      multiset(t1) + multiset(t2) + multiset{x};
    }
  }

  /** One more destruction, of `names[k]`, in a loop over `names`: the names handled
      before stay out of the disposables. */
  lemma AccountsStep(trace: seq<Name>, step: seq<Name>, d0: set<Name>, d1: set<Name>, d2: set<Name>,
                     names: seq<Name>, lo: nat, k: nat, hi: nat)
    requires Accounts(trace, d0, d1) && Accounts(step, d1, d2)
    requires lo <= k < hi <= |names| && names[k] !in d2
    requires forall j | lo <= j < hi && j != k :: names[j] !in d1
    ensures Accounts(trace + step, d0, d2)
    ensures forall j | lo <= j < hi :: names[j] !in d2
  {
    AccountsChain(trace, step, d0, d1, d2);
  }

  /** A name that left the disposables is in the trace that accounts for it. */
  lemma AccountedFor(trace: seq<Name>, d0: set<Name>, d1: set<Name>, x: Name)
    requires Accounts(trace, d0, d1) && x in d0 && x !in d1
    ensures x in trace
  {
    assert x in multiset(d0 - d1);
  }

  /** When every listed name has left the disposables, none is left. */
  lemma NoneLeft(names: seq<Name>, m: map<Name, Disposable>, d1: set<Name>, order: seq<Name>)
    requires Listed(names, m.Keys) && Listed(order, d1) && d1 <= m.Keys
    requires forall j | 0 <= j < |names| :: names[j] !in d1
    ensures d1 == {} && order == []
  {
    NoDupsCard(order);
  }

  /** `a` is destroyed before `b` in `trace`. */
  ghost predicate DestroyedBefore(trace: seq<Name>, a: Name, b: Name)
  {
    exists i, j | 0 <= i < j < |trace| :: trace[i] == a && trace[j] == b
  }

  /** A bean destroyed in the phase before `x`'s own `destroy` is destroyed before `x`. */
  lemma BeforeOwn(t1: seq<Name>, x: Name, t2: seq<Name>, a: Name)
    requires a in t1
    ensures DestroyedBefore(t1 + [x] + t2, a, x)
  {
    var i :| 0 <= i < |t1| && t1[i] == a;
    var trace := t1 + [x] + t2;
    assert trace[i] == a && trace[|t1|] == x;
  }

  /** The destruction trace of a bean's own `destroy`: its name when it has a disposable. */
  function Own(bean: Option<Disposable>, name: Name): seq<Name>
  {
    if bean.Some? then [name] else []
  }

  /** The key sets of the three cache tiers and the three relations. */
  datatype Footprint = Footprint(objects: set<Name>, factories: set<Name>, early: set<Name>,
                                 dependents: set<Name>, contained: set<Name>, dependencies: set<Name>)

  /** Every key set of `a` is contained in that of `b`. */
  predicate Within(a: Footprint, b: Footprint)
  {
    a.objects <= b.objects && a.factories <= b.factories && a.early <= b.early &&
    a.dependents <= b.dependents && a.contained <= b.contained && a.dependencies <= b.dependencies
  }

  lemma WithinTrans(a: Footprint, b: Footprint, c: Footprint)
    requires Within(a, b) && Within(b, c)
    ensures Within(a, c)
  {
  }

  /** The recursion measure of the teardown never grows within a footprint. */
  lemma WithinCount(a: Footprint, b: Footprint)
    requires Within(a, b)
    ensures |a.dependents| + |a.contained| <= |b.dependents| + |b.contained|
  {
    SubsetCard(a.dependents, b.dependents);
    SubsetCard(a.contained, b.contained);
  }

  lemma WellFormedRemove(rel: Relation, k: Name)
    requires WellFormed(rel)
    ensures WellFormed(rel - {k})
  {
  }

  lemma SubsetCard(a: set<Name>, b: set<Name>)
    requires a <= b
    ensures |a| <= |b|
  {
    assert b == a + (b - a);
  }

  /** `afterSingletonCreation` as written: `Map.remove` returns null for an unmarked name,
      and negating it unboxes that null. Returns the outcome and the new marker set. */
  function AfterCreationAsWritten(marked: set<Name>, excluded: set<Name>, name: Name): (r: (Outcome, set<Name>))
    ensures r.0 == Ok <==> name in excluded || name in marked
    ensures r.0 != Ok ==> r.0 == Err(NullPointer)
    ensures name in excluded ==> r.1 == marked
    ensures name !in excluded ==> name !in r.1 && r.1 + {name} == marked + {name}
  {
    if name in excluded then (Ok, marked)
    else
      var removed: Option<bool> := if name in marked then Some(true) else None;
      var rest := marked - {name};
      if removed.None? then (Err(NullPointer), rest)
      else if !removed.value then (Err(IllegalState), rest)
      else (Ok, rest)
  }

  /** The `IllegalStateException` of `afterSingletonCreation` is never thrown: an unmarked
      name raises a `NullPointerException` instead, for instance `"x"` with no marks. */
  lemma AfterCreationAsWrittenNeverIllegalState(marked: set<Name>, excluded: set<Name>, name: Name)
    ensures AfterCreationAsWritten(marked, excluded, name).0 != Err(IllegalState)
    ensures name !in excluded && name !in marked ==> AfterCreationAsWritten(marked, excluded, name) == (Err(NullPointer), marked)
    ensures AfterCreationAsWritten({}, {}, "x") == (Err(NullPointer), {})
  {
  }

  class SingletonRegistry {
    /** The alias registry this registry extends. */
    const aliases: Aliases.AliasRegistry

    /** Finished singletons. */
    var singletonObjects: map<Name, Cached>
    /** Factories of singletons that may be asked for an early reference. */
    var singletonFactories: map<Name, Factory>
    /** Early references, produced by a factory while their bean is in creation. */
    var earlySingletonObjects: map<Name, Option<Ref>>
    /** Registered singleton names, in registration order. */
    var registeredSingletons: seq<Name>
    /** Names currently in creation. */
    var singletonsCurrentlyInCreation: set<Name>
    /** Names excluded from the in-creation checks. */
    var inCreationCheckExclusions: set<Name>
    /** Exceptions suppressed during the outermost creation; `None` when no creation runs. */
    var suppressedExceptions: Option<seq<Thrown>>
    /** Set while `destroySingletons` runs. */
    var singletonsCurrentlyInDestruction: bool
    /** Disposable beans by name, and the order they were registered in. */
    var disposableBeans: map<Name, Disposable>
    var disposableOrder: seq<Name>
    /** Outer bean -> the inner beans it contains. */
    var containedBeanMap: Relation
    /** Bean -> the beans that depend on it. */
    var dependentBeanMap: Relation
    /** Bean -> the beans it depends on. */
    var dependenciesForBeanMap: Relation

    /** The factories called so far, in order. */
    ghost var factoryCalls: seq<Factory>

    ghost predicate CacheValid()
      reads this`singletonObjects, this`singletonFactories, this`earlySingletonObjects, this`registeredSingletons
    {
      Tiers(singletonObjects, singletonFactories, earlySingletonObjects, registeredSingletons)
    }

    ghost predicate DisposablesValid()
      reads this`disposableBeans, this`disposableOrder
    {
      Listed(disposableOrder, disposableBeans.Keys)
    }

    /** No relation holds an empty or repeating set. */
    ghost predicate RelationsValid()
      reads this`containedBeanMap, this`dependentBeanMap, this`dependenciesForBeanMap
    {
      WellFormed(containedBeanMap) && WellFormed(dependentBeanMap) && WellFormed(dependenciesForBeanMap)
    }

    /** The registry's own invariant, apart from that of its alias registry. */
    ghost predicate StateValid()
      reads this`singletonObjects, this`singletonFactories, this`earlySingletonObjects, this`registeredSingletons,
            this`disposableBeans, this`disposableOrder,
            this`containedBeanMap, this`dependentBeanMap, this`dependenciesForBeanMap
    {
      CacheValid() && DisposablesValid() && RelationsValid()
    }

    ghost predicate Valid()
      reads aliases, this`singletonObjects, this`singletonFactories, this`earlySingletonObjects,
            this`registeredSingletons, this`disposableBeans, this`disposableOrder,
            this`containedBeanMap, this`dependentBeanMap, this`dependenciesForBeanMap
    {
      aliases.Valid() && StateValid()
    }

    /** The measure that bounds the recursion of the teardown. */
    function RelationCount(): nat
      reads this`dependentBeanMap, this`containedBeanMap
    {
      |dependentBeanMap.Keys| + |containedBeanMap.Keys|
    }

    /** The key sets that the teardown only shrinks. */
    function Keys(): Footprint
      reads this`singletonObjects, this`singletonFactories, this`earlySingletonObjects,
            this`dependentBeanMap, this`containedBeanMap, this`dependenciesForBeanMap
    {
      Footprint(singletonObjects.Keys, singletonFactories.Keys, earlySingletonObjects.Keys,
                dependentBeanMap.Keys, containedBeanMap.Keys, dependenciesForBeanMap.Keys)
    }

    constructor (aliasRegistry: Aliases.AliasRegistry)
      requires aliasRegistry.Valid()
      ensures Valid() && aliases == aliasRegistry
      ensures singletonObjects == map[] && singletonFactories == map[] && earlySingletonObjects == map[]
      ensures registeredSingletons == [] && singletonsCurrentlyInCreation == {} && inCreationCheckExclusions == {}
      ensures suppressedExceptions == None && !singletonsCurrentlyInDestruction
      ensures disposableBeans == map[] && disposableOrder == []
      ensures containedBeanMap == map[] && dependentBeanMap == map[] && dependenciesForBeanMap == map[]
      ensures factoryCalls == []
    {
      aliases := aliasRegistry;
      singletonObjects, singletonFactories, earlySingletonObjects := map[], map[], map[];
      registeredSingletons := [];
      singletonsCurrentlyInCreation, inCreationCheckExclusions := {}, {};
      suppressedExceptions := None;
      singletonsCurrentlyInDestruction := false;
      disposableBeans, disposableOrder := map[], [];
      containedBeanMap, dependentBeanMap, dependenciesForBeanMap := map[], map[], map[];
      factoryCalls := [];
    }

    // -------------------------------------------------------------------------
    // The cache tiers
    // -------------------------------------------------------------------------

    /** `registerSingleton`: refuses a name that is already bound. */
    method RegisterSingleton(beanName: Name, singletonObject: Option<Ref>) returns (o: Outcome)
      requires Valid()
      modifies this`singletonObjects, this`singletonFactories, this`earlySingletonObjects, this`registeredSingletons
      ensures Valid()
      ensures beanName in old(singletonObjects) ==>
                o == Err(IllegalState) && singletonObjects == old(singletonObjects) &&
                singletonFactories == old(singletonFactories) && earlySingletonObjects == old(earlySingletonObjects) &&
                registeredSingletons == old(registeredSingletons)
      ensures beanName !in old(singletonObjects) ==>
                o == Ok && singletonObjects == old(singletonObjects)[beanName := Store(singletonObject)] &&
                singletonFactories == old(singletonFactories) - {beanName} &&
                earlySingletonObjects == old(earlySingletonObjects) - {beanName} &&
                registeredSingletons == Insert(old(registeredSingletons), beanName)
    {
      if beanName in singletonObjects {
        o := Err(IllegalState);
        return;
      }
      AddSingleton(beanName, singletonObject);
      o := Ok;
    }

    /** `addSingleton`: the name becomes finished and leaves the other two tiers. */
    method AddSingleton(beanName: Name, singletonObject: Option<Ref>)
      requires Valid()
      modifies this`singletonObjects, this`singletonFactories, this`earlySingletonObjects, this`registeredSingletons
      ensures Valid()
      ensures singletonObjects == old(singletonObjects)[beanName := Store(singletonObject)]
      ensures singletonFactories == old(singletonFactories) - {beanName}
      ensures earlySingletonObjects == old(earlySingletonObjects) - {beanName}
      ensures registeredSingletons == Insert(old(registeredSingletons), beanName)
    {
      TiersAdd(singletonObjects, singletonFactories, earlySingletonObjects, registeredSingletons, beanName, Store(singletonObject));
      singletonObjects := singletonObjects[beanName := Store(singletonObject)];
      singletonFactories := singletonFactories - {beanName};
      earlySingletonObjects := earlySingletonObjects - {beanName};
      registeredSingletons := Insert(registeredSingletons, beanName);
    }

    /** `addSingletonFactory`: registers a factory unless the name is already finished. */
    method AddSingletonFactory(beanName: Name, singletonFactory: Factory)
      requires Valid()
      modifies this`singletonFactories, this`earlySingletonObjects, this`registeredSingletons
      ensures Valid()
      ensures beanName in singletonObjects ==>
                singletonFactories == old(singletonFactories) && earlySingletonObjects == old(earlySingletonObjects) &&
                registeredSingletons == old(registeredSingletons)
      ensures beanName !in singletonObjects ==>
                singletonFactories == old(singletonFactories)[beanName := singletonFactory] &&
                earlySingletonObjects == old(earlySingletonObjects) - {beanName} &&
                registeredSingletons == Insert(old(registeredSingletons), beanName)
    {
      if beanName !in singletonObjects {
        TiersAddFactory(singletonObjects, singletonFactories, earlySingletonObjects, registeredSingletons, beanName, singletonFactory);
        singletonFactories := singletonFactories[beanName := singletonFactory];
        earlySingletonObjects := earlySingletonObjects - {beanName};
        registeredSingletons := Insert(registeredSingletons, beanName);
      }
    }

    /** `getSingleton(beanName)`: a lookup that allows early references. */
    method GetSingleton(beanName: Name, getObject: Factory -> Produced) returns (r: Result<Option<Ref>>)
      requires Valid()
      modifies this`singletonFactories, this`earlySingletonObjects, this`factoryCalls
      ensures Valid()
      ensures beanName in singletonObjects ==> r == Success(Expose(singletonObjects[beanName]))
      ensures beanName !in old(singletonObjects) && beanName !in singletonsCurrentlyInCreation ==> r == Success(None)
      ensures LookedUp(beanName, true, getObject, r)
    {
      r := GetSingletonWithEarly(beanName, true, getObject);
    }

    /** The outcome of `getSingleton(beanName, allowEarlyReference)`, where `getObject` is
        what the factories do when called. */
    twostate predicate LookedUp(beanName: Name, allowEarlyReference: bool, getObject: Factory -> Produced,
                                new r: Result<Option<Ref>>)
      reads this
    {
      var kept := singletonFactories == old(singletonFactories) &&
                       earlySingletonObjects == old(earlySingletonObjects) && factoryCalls == old(factoryCalls);
      var early := if beanName in old(earlySingletonObjects) then old(earlySingletonObjects)[beanName] else None;
      if beanName in singletonObjects then
        r == Success(Expose(singletonObjects[beanName])) && kept
      else if beanName !in singletonsCurrentlyInCreation then
        r == Success(None) && kept
      else if early.Some? then
        r == Success(early) && kept
      else if allowEarlyReference && beanName in old(singletonFactories) then
        var factory := old(singletonFactories)[beanName];
        factoryCalls == old(factoryCalls) + [factory] &&
        match getObject(factory)
        case Threw(e) =>
          r == Failure(FactoryFailed(e, [])) &&
          singletonFactories == old(singletonFactories) && earlySingletonObjects == old(earlySingletonObjects)
        case Produced(obj) =>
          r == Success(obj) &&
          earlySingletonObjects == old(earlySingletonObjects)[beanName := obj] &&
          singletonFactories == old(singletonFactories) - {beanName}
      else
        r == Success(None) && kept
    }

    /** `getSingleton(beanName, allowEarlyReference)`: the finished object; failing that, for a
        name in creation, its early reference; failing that, when allowed, the early reference
        its factory produces, which moves from the factory tier to the early tier. */
    method GetSingletonWithEarly(beanName: Name, allowEarlyReference: bool, getObject: Factory -> Produced)
      returns (r: Result<Option<Ref>>)
      requires Valid()
      modifies this`singletonFactories, this`earlySingletonObjects, this`factoryCalls
      ensures Valid()
      ensures LookedUp(beanName, allowEarlyReference, getObject, r)
    {
      if beanName in singletonObjects {
        return Success(Expose(singletonObjects[beanName]));
      }
      if beanName !in singletonsCurrentlyInCreation {
        return Success(None);
      }
      var singletonObject: Option<Ref> := if beanName in earlySingletonObjects then earlySingletonObjects[beanName] else None;
      if singletonObject.None? && allowEarlyReference && beanName in singletonFactories {
        var singletonFactory := singletonFactories[beanName];
        factoryCalls := factoryCalls + [singletonFactory];
        match getObject(singletonFactory)
        case Threw(e) =>
          return Failure(FactoryFailed(e, []));
        case Produced(obj) =>
          TiersEarly(singletonObjects, singletonFactories, earlySingletonObjects, registeredSingletons, beanName, obj);
          earlySingletonObjects := earlySingletonObjects[beanName := obj];
          singletonFactories := singletonFactories - {beanName};
          singletonObject := obj;
      }
      r := Success(singletonObject);
    }

    /** `getSingleton(beanName, singletonFactory)`: returns the finished object, or creates it
        with the factory between the two creation callbacks and commits it. `produced` is what
        the factory's `getObject` does when it is called. */
    method GetSingletonFromFactory(beanName: Name, singletonFactory: Factory, produced: Produced)
      returns (r: Result<Option<Ref>>)
      requires Valid()
      modifies this`singletonObjects, this`singletonFactories, this`earlySingletonObjects, this`registeredSingletons,
               this`singletonsCurrentlyInCreation, this`suppressedExceptions, this`factoryCalls
      ensures Valid()
      ensures suppressedExceptions == old(suppressedExceptions)
      ensures singletonsCurrentlyInCreation == old(singletonsCurrentlyInCreation)
      ensures beanName in old(singletonObjects) ==>
                r == Success(Expose(old(singletonObjects)[beanName])) && factoryCalls == old(factoryCalls) &&
                Unchanged()
      ensures beanName !in old(singletonObjects) && singletonsCurrentlyInDestruction ==>
                r == Failure(CreationNotAllowed(beanName)) && factoryCalls == old(factoryCalls) && Unchanged()
      ensures beanName !in old(singletonObjects) && !singletonsCurrentlyInDestruction ==>
                Created(beanName, singletonFactory, produced, r)
    {
      if beanName in singletonObjects {
        return Success(Expose(singletonObjects[beanName]));
      }
      if singletonsCurrentlyInDestruction {
        return Failure(CreationNotAllowed(beanName));
      }
      r := CreateSingleton(beanName, singletonFactory, produced);
    }

    /** The cache tiers are as they were. */
    twostate predicate Unchanged()
      reads this
    {
      singletonObjects == old(singletonObjects) && singletonFactories == old(singletonFactories) &&
      earlySingletonObjects == old(earlySingletonObjects) && registeredSingletons == old(registeredSingletons)
    }

    /** The outcome of creating `beanName` with `singletonFactory`, whose `getObject` does
        `produced`: a name already in creation is refused without calling the factory; otherwise
        the factory is called, and what it returns is committed and returned, or what it
        throws is rethrown with the caches untouched. */
    twostate predicate Created(beanName: Name, singletonFactory: Factory, produced: Produced, new r: Result<Option<Ref>>)
      reads this
    {
      if beanName !in inCreationCheckExclusions && beanName in old(singletonsCurrentlyInCreation) then
        r == Failure(CurrentlyInCreation(beanName)) && factoryCalls == old(factoryCalls) && Unchanged()
      else
        factoryCalls == old(factoryCalls) + [singletonFactory] &&
        match produced
        case Threw(e) =>
          r == Failure(FactoryFailed(e, [])) && Unchanged()
        case Produced(obj) =>
          r == Success(obj) &&
          singletonObjects == old(singletonObjects)[beanName := Store(obj)] &&
          singletonFactories == old(singletonFactories) - {beanName} &&
          earlySingletonObjects == old(earlySingletonObjects) - {beanName} &&
          registeredSingletons == Insert(old(registeredSingletons), beanName)
    }

    /** The creation part of `getSingleton(beanName, singletonFactory)`. */
    method CreateSingleton(beanName: Name, singletonFactory: Factory, produced: Produced)
      returns (r: Result<Option<Ref>>)
      requires Valid()
      modifies this`singletonObjects, this`singletonFactories, this`earlySingletonObjects, this`registeredSingletons,
               this`singletonsCurrentlyInCreation, this`suppressedExceptions, this`factoryCalls
      ensures Valid()
      ensures suppressedExceptions == old(suppressedExceptions)
      ensures singletonsCurrentlyInCreation == old(singletonsCurrentlyInCreation)
      ensures Created(beanName, singletonFactory, produced, r)
    {
      var before := BeforeSingletonCreation(beanName);
      if before.Err? {
        return Failure(before.error);
      }
      var pending := InvokeFactory(singletonFactory, produced);
      // finally
      var after := AfterSingletonCreation(beanName);
      if after.Err? {
        // The name was marked by beforeSingletonCreation above and nothing unmarked it.
        assert false;
      }
      if pending.Some? {
        return Failure(pending.value);
      }
      AddSingleton(beanName, produced.obj);
      r := Success(produced.obj);
    }

    /** The `try`/`catch` around `singletonFactory.getObject()` in `getSingleton`, with the
        suppressed-exception bookkeeping of its `finally`: records the call and turns a
        thrown failure into the exception that is rethrown. A BeanCreationException carries
        the exceptions suppressed meanwhile, which the model leaves empty because no
        callback runs during the call. */
    method InvokeFactory(singletonFactory: Factory, produced: Produced) returns (pending: Option<Error>)
      modifies this`suppressedExceptions, this`factoryCalls
      ensures suppressedExceptions == old(suppressedExceptions)
      ensures factoryCalls == old(factoryCalls) + [singletonFactory]
      ensures pending == if produced.Threw? then Some(FactoryFailed(produced.failure, [])) else None
    {
      var recordSuppressedExceptions := suppressedExceptions.None?;
      if recordSuppressedExceptions {
        suppressedExceptions := Some([]);
      }
      // singletonFactory.getObject()
      factoryCalls := factoryCalls + [singletonFactory];
      pending := None;
      if produced.Threw? {
        var related := if recordSuppressedExceptions && produced.failure.BeanCreationFailure?
                       then suppressedExceptions.value else [];
        pending := Some(FactoryFailed(produced.failure, related));
      }
      if recordSuppressedExceptions {
        suppressedExceptions := None;
      }
    }

    /** `onSuppressedException`: records `ex` while an outermost creation runs. */
    method OnSuppressedException(ex: Thrown)
      modifies this`suppressedExceptions
      ensures old(suppressedExceptions).None? ==> suppressedExceptions == None
      ensures old(suppressedExceptions).Some? ==>
                suppressedExceptions.Some? && ex in suppressedExceptions.value &&
                suppressedExceptions.value ==
                  if ex in old(suppressedExceptions).value then old(suppressedExceptions).value
                  else old(suppressedExceptions).value + [ex]
    {
      if suppressedExceptions.Some? && ex !in suppressedExceptions.value {
        suppressedExceptions := Some(suppressedExceptions.value + [ex]);
      }
    }

    /** `removeSingleton`: purges the name from the three tiers and the registration order. */
    method RemoveSingleton(beanName: Name)
      requires StateValid()
      modifies this`singletonObjects, this`singletonFactories, this`earlySingletonObjects, this`registeredSingletons
      ensures StateValid()
      ensures Within(Keys(), old(Keys()))
      ensures singletonObjects == old(singletonObjects) - {beanName}
      ensures singletonFactories == old(singletonFactories) - {beanName}
      ensures earlySingletonObjects == old(earlySingletonObjects) - {beanName}
      ensures registeredSingletons == Without(old(registeredSingletons), beanName)
    {
      TiersRemove(singletonObjects, singletonFactories, earlySingletonObjects, registeredSingletons, beanName);
      singletonObjects := singletonObjects - {beanName};
      singletonFactories := singletonFactories - {beanName};
      earlySingletonObjects := earlySingletonObjects - {beanName};
      registeredSingletons := Without(registeredSingletons, beanName);
    }

    /** `containsSingleton`. */
    method ContainsSingleton(beanName: Name) returns (b: bool)
      ensures b <==> beanName in singletonObjects
    {
      b := beanName in singletonObjects;
    }

    /** `getSingletonNames`: the registered names in registration order. */
    method GetSingletonNames() returns (names: seq<Name>)
      requires CacheValid()
      ensures names == registeredSingletons
      ensures NoDups(names)
      ensures Elems(names) == singletonObjects.Keys + singletonFactories.Keys + earlySingletonObjects.Keys
    {
      names := registeredSingletons;
    }

    /** `getSingletonCount`: the number of names in some tier. */
    method GetSingletonCount() returns (count: nat)
      requires CacheValid()
      ensures count == |singletonObjects.Keys + singletonFactories.Keys + earlySingletonObjects.Keys|
    {
      NoDupsCard(registeredSingletons);
      count := |registeredSingletons|;
    }

    // -------------------------------------------------------------------------
    // Creation markers
    // -------------------------------------------------------------------------

    /** `setCurrentlyInCreation(beanName, false)` excludes the name from the checks;
        `true` includes it again. */
    method SetCurrentlyInCreation(beanName: Name, inCreation: bool)
      modifies this`inCreationCheckExclusions
      ensures inCreationCheckExclusions ==
                if inCreation then old(inCreationCheckExclusions) - {beanName}
                else old(inCreationCheckExclusions) + {beanName}
    {
      if !inCreation {
        inCreationCheckExclusions := inCreationCheckExclusions + {beanName};
      } else {
        inCreationCheckExclusions := inCreationCheckExclusions - {beanName};
      }
    }

    /** `isCurrentlyInCreation`: marked and not excluded. */
    method IsCurrentlyInCreation(beanName: Name) returns (b: bool)
      ensures b <==> beanName !in inCreationCheckExclusions && beanName in singletonsCurrentlyInCreation
    {
      var actually := IsSingletonCurrentlyInCreation(beanName);
      b := beanName !in inCreationCheckExclusions && actually;
    }

    /** `isSingletonCurrentlyInCreation` (and `isActuallyInCreation`): marked, exclusions aside. */
    method IsSingletonCurrentlyInCreation(beanName: Name) returns (b: bool)
      ensures b <==> beanName in singletonsCurrentlyInCreation
    {
      b := beanName in singletonsCurrentlyInCreation;
    }

    /** `beforeSingletonCreation`: marks a name that is not excluded, and refuses one that
        was already marked. */
    method BeforeSingletonCreation(beanName: Name) returns (o: Outcome)
      modifies this`singletonsCurrentlyInCreation
      ensures beanName in inCreationCheckExclusions ==>
                o == Ok && singletonsCurrentlyInCreation == old(singletonsCurrentlyInCreation)
      ensures beanName !in inCreationCheckExclusions ==>
                singletonsCurrentlyInCreation == old(singletonsCurrentlyInCreation) + {beanName} &&
                o == if beanName in old(singletonsCurrentlyInCreation) then Err(CurrentlyInCreation(beanName)) else Ok
    {
      o := Ok;
      if beanName !in inCreationCheckExclusions {
        var previous := beanName in singletonsCurrentlyInCreation;
        singletonsCurrentlyInCreation := singletonsCurrentlyInCreation + {beanName};
        if previous {
          o := Err(CurrentlyInCreation(beanName));
        }
      }
    }

    /** `afterSingletonCreation`, corrected to throw the `IllegalStateException` it means to:
        unmarks a name that is not excluded, and refuses one that was not marked. */
    method AfterSingletonCreation(beanName: Name) returns (o: Outcome)
      modifies this`singletonsCurrentlyInCreation
      ensures beanName in inCreationCheckExclusions ==>
                o == Ok && singletonsCurrentlyInCreation == old(singletonsCurrentlyInCreation)
      ensures beanName !in inCreationCheckExclusions ==>
                singletonsCurrentlyInCreation == old(singletonsCurrentlyInCreation) - {beanName} &&
                o == if beanName in old(singletonsCurrentlyInCreation) then Ok else Err(IllegalState)
    {
      o := Ok;
      if beanName !in inCreationCheckExclusions {
        var removed := beanName in singletonsCurrentlyInCreation;
        singletonsCurrentlyInCreation := singletonsCurrentlyInCreation - {beanName};
        if !removed {
          o := Err(IllegalState);
        }
      }
    }

    // -------------------------------------------------------------------------
    // Disposables, dependencies and containment
    // -------------------------------------------------------------------------

    /** `registerDisposableBean`: a new name goes last; a known name keeps its place. */
    method RegisterDisposableBean(beanName: Name, bean: Disposable)
      requires Valid()
      modifies this`disposableBeans, this`disposableOrder
      ensures Valid()
      ensures disposableBeans == old(disposableBeans)[beanName := bean]
      ensures disposableOrder == Insert(old(disposableOrder), beanName)
    {
      ListedInsert(disposableOrder, disposableBeans.Keys, beanName);
      disposableBeans := disposableBeans[beanName := bean];
      disposableOrder := Insert(disposableOrder, beanName);
    }

    /** `registerContainedBean`: records the inner bean under the outer one, then makes the
        outer bean a dependent of the inner one. */
    method RegisterContainedBean(containedBeanName: Name, containingBeanName: Name)
      requires Valid()
      modifies this`containedBeanMap, this`dependentBeanMap, this`dependenciesForBeanMap
      ensures Valid()
      ensures containedBeanMap == AddEdge(old(containedBeanMap), containingBeanName, containedBeanName)
      ensures var canonical := Aliases.Canonical(aliases.aliasMap, containedBeanName);
              dependentBeanMap == AddEdge(old(dependentBeanMap), canonical, containingBeanName) &&
              dependenciesForBeanMap == AddEdge(old(dependenciesForBeanMap), containingBeanName, canonical)
      ensures Mirrored(old(dependentBeanMap), old(dependenciesForBeanMap)) ==>
                Mirrored(dependentBeanMap, dependenciesForBeanMap)
    {
      containedBeanMap := AddEdge(containedBeanMap, containingBeanName, containedBeanName);
      RegisterDependentBean(containedBeanName, containingBeanName);
    }

    /** `registerDependentBean`: records, against the canonical name of `beanName`, that
        `dependentBeanName` depends on it, on both sides of the relation. */
    method RegisterDependentBean(beanName: Name, dependentBeanName: Name)
      requires Valid()
      modifies this`dependentBeanMap, this`dependenciesForBeanMap
      ensures Valid()
      ensures var canonical := Aliases.Canonical(aliases.aliasMap, beanName);
              dependentBeanMap == AddEdge(old(dependentBeanMap), canonical, dependentBeanName) &&
              dependenciesForBeanMap == AddEdge(old(dependenciesForBeanMap), dependentBeanName, canonical)
      ensures Mirrored(old(dependentBeanMap), old(dependenciesForBeanMap)) ==>
                Mirrored(dependentBeanMap, dependenciesForBeanMap)
    {
      var canonicalName := aliases.CanonicalName(beanName);
      // The caches and the disposables are not touched.
      ghost var cache, disposables := CacheValid(), DisposablesValid();
      if Mirrored(dependentBeanMap, dependenciesForBeanMap) {
        AddEdgeKeepsMirrored(dependentBeanMap, dependenciesForBeanMap, canonicalName, dependentBeanName);
      }
      dependentBeanMap := AddEdge(dependentBeanMap, canonicalName, dependentBeanName);
      dependenciesForBeanMap := AddEdge(dependenciesForBeanMap, dependentBeanName, canonicalName);
      assert cache == CacheValid() && disposables == DisposablesValid();
    }

    /** `hasDependentBean`. */
    method HasDependentBean(beanName: Name) returns (b: bool)
      ensures b <==> beanName in dependentBeanMap
    {
      b := beanName in dependentBeanMap;
    }

    /** `getDependentBeans`: empty, never absent, when nothing depends on the bean. */
    method GetDependentBeans(beanName: Name) returns (names: seq<Name>)
      requires Valid()
      ensures NoDups(names)
      ensures forall d :: d in names <==> beanName in dependentBeanMap && d in dependentBeanMap[beanName]
    {
      names := Related(dependentBeanMap, beanName);
    }

    /** `getDependenciesForBean`: empty, never absent, when the bean depends on nothing. */
    method GetDependenciesForBean(beanName: Name) returns (names: seq<Name>)
      requires Valid()
      ensures NoDups(names)
      ensures forall d :: d in names <==> beanName in dependenciesForBeanMap && d in dependenciesForBeanMap[beanName]
    {
      names := Related(dependenciesForBeanMap, beanName);
    }

    // -------------------------------------------------------------------------
    // Teardown
    // -------------------------------------------------------------------------

    /** `destroySingletons`: destroys the disposable beans, last registered first, then
        clears every cache and relation. `trace` is the destruction order: every disposable
        bean exactly once. The teardown does not touch the alias registry. */
    method DestroySingletons() returns (ghost trace: seq<Name>)
      requires StateValid()
      modifies this`singletonObjects, this`singletonFactories, this`earlySingletonObjects, this`registeredSingletons,
               this`disposableBeans, this`disposableOrder, this`containedBeanMap, this`dependentBeanMap,
               this`dependenciesForBeanMap, this`singletonsCurrentlyInDestruction
      ensures StateValid()
      ensures singletonObjects == map[] && singletonFactories == map[] && earlySingletonObjects == map[]
      ensures registeredSingletons == []
      ensures containedBeanMap == map[] && dependentBeanMap == map[] && dependenciesForBeanMap == map[]
      ensures disposableBeans.Keys == {} && disposableOrder == []
      ensures !singletonsCurrentlyInDestruction
      ensures Accounts(trace, old(disposableBeans.Keys), {})
    {
      singletonsCurrentlyInDestruction := true;
      trace := DestroyDisposables();
      containedBeanMap, dependentBeanMap, dependenciesForBeanMap := map[], map[], map[];
      singletonObjects, singletonFactories, earlySingletonObjects := map[], map[], map[];
      registeredSingletons := [];
      singletonsCurrentlyInDestruction := false;
      TiersEmpty();
    }

    /** The loop of `destroySingletons`: `destroySingleton` on a copy of the disposable
        names, from the last registered to the first, until no disposable is left. */
    method DestroyDisposables() returns (ghost trace: seq<Name>)
      requires StateValid()
      modifies this`singletonObjects, this`singletonFactories, this`earlySingletonObjects, this`registeredSingletons,
               this`disposableBeans, this`disposableOrder, this`containedBeanMap, this`dependentBeanMap,
               this`dependenciesForBeanMap
      ensures StateValid()
      ensures disposableBeans.Keys == {} && disposableOrder == []
      ensures Accounts(trace, old(disposableBeans.Keys), {})
    {
      var disposableBeanNames := disposableOrder;
      trace := [];
      var i := |disposableBeanNames|;
      while i > 0
        invariant 0 <= i <= |disposableBeanNames|
        invariant StateValid()
        invariant Accounts(trace, old(disposableBeans.Keys), disposableBeans.Keys)
        invariant forall j | i <= j < |disposableBeanNames| :: disposableBeanNames[j] !in disposableBeans
      {
        i := i - 1;
        ghost var d1 := disposableBeans.Keys;
        ghost var step := DestroySingleton(disposableBeanNames[i]);
        AccountsStep(trace, step, old(disposableBeans.Keys), d1, disposableBeans.Keys, disposableBeanNames, i, i, |disposableBeanNames|);
        trace := trace + step;
      }
      NoneLeft(disposableBeanNames, old(disposableBeans), disposableBeans.Keys, disposableOrder);
    }

    /** `destroySingleton`: removes the name from the caches and the disposables first, so
        that its disposable is destroyed at most once, then destroys the bean. */
    method DestroySingleton(beanName: Name) returns (ghost trace: seq<Name>)
      requires StateValid()
      modifies this`singletonObjects, this`singletonFactories, this`earlySingletonObjects, this`registeredSingletons,
               this`disposableBeans, this`disposableOrder, this`containedBeanMap, this`dependentBeanMap,
               this`dependenciesForBeanMap
      decreases RelationCount(), 3
      ensures StateValid() && Within(Keys(), old(Keys()))
      ensures Accounts(trace, old(disposableBeans.Keys), disposableBeans.Keys)
      ensures beanName !in singletonObjects && beanName !in singletonFactories && beanName !in earlySingletonObjects
      ensures beanName !in disposableBeans
      ensures beanName !in dependentBeanMap && beanName !in containedBeanMap && beanName !in dependenciesForBeanMap
      ensures forall k | k in dependentBeanMap :: beanName !in dependentBeanMap[k]
      ensures beanName in old(disposableBeans) ==>
                forall d | d in Related(old(dependentBeanMap), beanName) && d in old(disposableBeans) && d != beanName ::
                  DestroyedBefore(trace, d, beanName)
    {
      RemoveSingleton(beanName);
      ghost var k1 := Keys();
      ghost var m0 := disposableBeans;
      var disposableBean := TakeDisposable(beanName);
      ghost var d1 := disposableBeans.Keys;
      ghost var dependentsPhase, remaining, containedPhase := DestroyBean(beanName, disposableBean);
      WithinTrans(Keys(), k1, old(Keys()));
      trace := dependentsPhase + Own(disposableBean, beanName) + containedPhase;
      if disposableBean.Some? {
        AccountsAround(dependentsPhase, beanName, containedPhase, m0, remaining, disposableBeans.Keys);
        forall d | d in Related(old(dependentBeanMap), beanName) && d in old(disposableBeans) && d != beanName
          ensures DestroyedBefore(trace, d, beanName)
        {
          BeforeOwn(dependentsPhase, beanName, containedPhase, d);
        }
      } else {
        AccountsChain(dependentsPhase, containedPhase, d1, remaining, disposableBeans.Keys);
        assert dependentsPhase + [] == dependentsPhase;
      }
    }

    /** The removal from the disposables in `destroySingleton`: returns the disposable
        registered under `beanName`, if any, and forgets it. */
    method TakeDisposable(beanName: Name) returns (bean: Option<Disposable>)
      requires StateValid()
      modifies this`disposableBeans, this`disposableOrder
      ensures StateValid() && Keys() == old(Keys())
      ensures bean == if beanName in old(disposableBeans) then Some(old(disposableBeans)[beanName]) else None
      ensures disposableBeans == old(disposableBeans) - {beanName}
      ensures disposableOrder == Without(old(disposableOrder), beanName)
    {
      bean := None;
      if beanName in disposableBeans {
        ListedRemove(disposableOrder, disposableBeans.Keys, beanName);
        bean := Some(disposableBeans[beanName]);
      }
      disposableBeans := disposableBeans - {beanName};
      disposableOrder := Without(disposableOrder, beanName);
    }

    /** `destroySingleton` for each of `names` in turn (the loops of `destroyBean`); the
        relations are smaller than `bound`, which bounds the recursion. */
    method DestroyEach(names: seq<Name>, ghost bound: nat) returns (ghost trace: seq<Name>)
      requires StateValid() && RelationCount() < bound
      modifies this`singletonObjects, this`singletonFactories, this`earlySingletonObjects, this`registeredSingletons,
               this`disposableBeans, this`disposableOrder, this`containedBeanMap, this`dependentBeanMap,
               this`dependenciesForBeanMap
      decreases bound, 0
      ensures StateValid() && Within(Keys(), old(Keys()))
      ensures Accounts(trace, old(disposableBeans.Keys), disposableBeans.Keys)
      ensures forall j | 0 <= j < |names| :: names[j] !in disposableBeans
    {
      trace := [];
      var i := 0;
      while i < |names|
        invariant 0 <= i <= |names|
        invariant StateValid() && Within(Keys(), old(Keys()))
        invariant Accounts(trace, old(disposableBeans.Keys), disposableBeans.Keys)
        invariant forall j | 0 <= j < i :: names[j] !in disposableBeans
      {
        ghost var d1 := disposableBeans.Keys;
        ghost var k1 := Keys();
        WithinCount(k1, old(Keys()));
        ghost var step := DestroySingleton(names[i]);
        WithinTrans(Keys(), k1, old(Keys()));
        AccountsStep(trace, step, old(disposableBeans.Keys), d1, disposableBeans.Keys, names, 0, i, i + 1);
        trace := trace + step;
        i := i + 1;
      }
    }

    /** `destroyBean`: destroys the beans that depend on `beanName`, then calls the bean's own
        `destroy` (whose exceptions are swallowed), then destroys the beans it contains, and
        finally forgets `beanName` in the dependency relations. The ghost results split the
        destruction trace around the bean's own `destroy`; `remaining` is the disposables
        left in between. */
    method DestroyBean(beanName: Name, bean: Option<Disposable>)
      returns (ghost dependentsPhase: seq<Name>, ghost remaining: set<Name>, ghost containedPhase: seq<Name>)
      requires StateValid() && beanName !in disposableBeans
      modifies this`singletonObjects, this`singletonFactories, this`earlySingletonObjects, this`registeredSingletons,
               this`disposableBeans, this`disposableOrder, this`containedBeanMap, this`dependentBeanMap,
               this`dependenciesForBeanMap
      decreases RelationCount(), 2
      ensures StateValid() && Within(Keys(), old(Keys()))
      ensures Accounts(dependentsPhase, old(disposableBeans.Keys), remaining)
      ensures Accounts(containedPhase, remaining, disposableBeans.Keys)
      ensures forall d | d in Related(old(dependentBeanMap), beanName) && d in old(disposableBeans) :: d in dependentsPhase
      ensures beanName !in dependentBeanMap && beanName !in containedBeanMap && beanName !in dependenciesForBeanMap
      ensures forall k | k in dependentBeanMap :: beanName !in dependentBeanMap[k]
    {
      ghost var rc := RelationCount();
      dependentsPhase := DestroyDependents(beanName);
      ghost var k1 := Keys();
      WithinCount(k1, old(Keys()));
      remaining := disposableBeans.Keys;
      // Here the bean's own DisposableBean.destroy() runs (its exceptions are logged and
      // swallowed); it is the `Own(bean, beanName)` entry between the two phases.
      containedPhase := DestroyContained(beanName, rc);
      ghost var k2 := Keys();
      WithinTrans(k2, k1, old(Keys()));
      ForgetBean(beanName);
      WithinTrans(Keys(), k2, old(Keys()));
    }

    /** The last steps of `destroyBean`: removes `beanName` from the other beans' dependents
        and drops its own dependency information. */
    method ForgetBean(beanName: Name)
      requires StateValid()
      modifies this`dependentBeanMap, this`dependenciesForBeanMap
      ensures StateValid() && Within(Keys(), old(Keys()))
      ensures dependentBeanMap == Forget(old(dependentBeanMap), beanName)
      ensures dependenciesForBeanMap == old(dependenciesForBeanMap) - {beanName}
    {
      // Remove the destroyed bean from other beans' dependents.
      ForgetDependent(beanName);
      // Remove the destroyed bean's prepared dependency information.
      WellFormedRemove(dependenciesForBeanMap, beanName);
      dependenciesForBeanMap := dependenciesForBeanMap - {beanName};
    }

    /** The first step of `destroyBean`: takes the beans that depend on `beanName` out of
        the dependency relation and destroys each of them. */
    method DestroyDependents(beanName: Name) returns (ghost trace: seq<Name>)
      requires StateValid()
      modifies this`singletonObjects, this`singletonFactories, this`earlySingletonObjects, this`registeredSingletons,
               this`disposableBeans, this`disposableOrder, this`containedBeanMap, this`dependentBeanMap,
               this`dependenciesForBeanMap
      decreases RelationCount(), 1
      ensures StateValid() && Within(Keys(), old(Keys()))
      ensures Accounts(trace, old(disposableBeans.Keys), disposableBeans.Keys)
      ensures forall d | d in Related(old(dependentBeanMap), beanName) && d in old(disposableBeans) :: d in trace
      ensures beanName !in dependentBeanMap
    {
      trace := [];
      if beanName in dependentBeanMap {
        ghost var rc := RelationCount();
        var dependencies := dependentBeanMap[beanName];
        WellFormedRemove(dependentBeanMap, beanName);
        dependentBeanMap := dependentBeanMap - {beanName};
        assert dependentBeanMap.Keys == old(dependentBeanMap.Keys) - {beanName};
        trace := DestroyEach(dependencies, rc);
        forall d | d in dependencies && d in old(disposableBeans) ensures d in trace {
          AccountedFor(trace, old(disposableBeans.Keys), disposableBeans.Keys, d);
        }
      }
    }

    /** The third step of `destroyBean`: takes the beans that `beanName` contains out of the
        containment relation and destroys each of them. */
    method DestroyContained(beanName: Name, ghost bound: nat) returns (ghost trace: seq<Name>)
      requires StateValid() && RelationCount() <= bound
      modifies this`singletonObjects, this`singletonFactories, this`earlySingletonObjects, this`registeredSingletons,
               this`disposableBeans, this`disposableOrder, this`containedBeanMap, this`dependentBeanMap,
               this`dependenciesForBeanMap
      decreases bound, 1
      ensures StateValid() && Within(Keys(), old(Keys()))
      ensures Accounts(trace, old(disposableBeans.Keys), disposableBeans.Keys)
      ensures forall c | c in Related(old(containedBeanMap), beanName) :: c !in disposableBeans
      ensures beanName !in containedBeanMap
    {
      trace := [];
      if beanName in containedBeanMap {
        ghost var rc := RelationCount();
        var containedBeans := containedBeanMap[beanName];
        WellFormedRemove(containedBeanMap, beanName);
        containedBeanMap := containedBeanMap - {beanName};
        assert containedBeanMap.Keys == old(containedBeanMap.Keys) - {beanName};
        trace := DestroyEach(containedBeans, rc);
      }
    }

    /** The iterator loop of `destroyBean`: drops `beanName` from every set of dependents and
        removes the sets that become empty. */
    method ForgetDependent(beanName: Name)
      requires StateValid()
      modifies this`dependentBeanMap
      ensures StateValid()
      ensures dependentBeanMap == Forget(old(dependentBeanMap), beanName)
    {
      ghost var start := dependentBeanMap;
      // The caches and the disposables are not touched.
      ghost var cache, disposables := CacheValid(), DisposablesValid();
      var entries := dependentBeanMap.Keys;
      while entries != {}
        invariant entries <= start.Keys && WellFormed(dependentBeanMap)
        invariant forall k :: k in dependentBeanMap <==> k in start && (k in entries || Without(start[k], beanName) != [])
        invariant forall k | k in dependentBeanMap ::
                    dependentBeanMap[k] == if k in entries then start[k] else Without(start[k], beanName)
        decreases entries
      {
        var k :| k in entries;
        entries := entries - {k};
        var dependenciesToClean := Without(dependentBeanMap[k], beanName);
        if dependenciesToClean == [] {
          dependentBeanMap := dependentBeanMap - {k};
        } else {
          dependentBeanMap := dependentBeanMap[k := dependenciesToClean];
        }
      }
      assert dependentBeanMap.Keys == Forget(start, beanName).Keys;
      assert cache == CacheValid() && disposables == DisposablesValid();
    }
  }
}
