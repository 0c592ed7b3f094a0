# Spring bean registries, modelled in Dafny

This project models two registries of the Spring framework's bean container.

**The alias registry** (`SimpleAliasRegistry`) maps each alias to the name it stands for.
- Names and aliases form chains: an alias may point at another alias.
- `canonicalName` follows a chain to its end.
- Registering an alias is meant to reject any entry that would close a circle. The source's check misses circles made by rebinding an existing alias (see Findings). The model uses a corrected check, and keeps the code as written beside it to show the gap.

**The singleton registry** (`DefaultSingletonBeanRegistry`) extends the alias registry. It holds:
- three cache tiers:
  - finished singletons;
  - factories for early references;
  - early references;
- the registration order;
- creation markers, with a set of names excluded from the in-creation checks;
- the disposable beans, in registration order;
- three relations between beans:
  - contained beans;
  - dependent beans;
  - dependencies.

It also runs the teardown. `destroySingletons`, `destroySingleton` and `destroyBean` recurse into one another: the dependents of a bean are destroyed first, then the bean itself, then the beans it contains.

**Files**
- `common.dfy` (module `Common`): names, the exceptions, and insertion-ordered sets as duplicate-free sequences.
- `alias_registry.dfy` (module `Aliases`): the alias table and its chains, the class `AliasRegistry`, and the lemmas about acyclicity.
- `singleton_registry.dfy` (module `Singletons`): the class `SingletonRegistry`.
  - Java inheritance becomes composition: the class holds its `AliasRegistry` in the field `aliases`.

**How the alias model is built**
- A chain is a sequence of steps `Walk(m, x, n)`.
- A table is `Acyclic` when every chain ends.
- `Canonical(m, x)` is the end of the chain that starts at `x`.

**How the singleton model is built**
- `registeredSingletons`, the sets inside the relations, and the key order of `disposableBeans` are `LinkedHashSet`s and `LinkedHashMap`s in Java. Here they are duplicate-free sequences.
- A callback becomes a parameter:
  - `ObjectFactory.getObject` becomes the value it produces or the failure it throws;
  - `StringValueResolver` becomes a function.
- A call of `DisposableBean.destroy` becomes an entry in a ghost destruction trace that the teardown methods return.
- The `ObjectFactory` calls made so far are recorded in the ghost field `factoryCalls`.

## Model

Source paths are relative to the repository root.

| member | source | states |
|---|---|---|
| Common.Insert | spring-beans/src/main/java/org/springframework/beans/factory/support/DefaultSingletonBeanRegistry.java:537-539 | Adding to a `LinkedHashSet` (or a new `LinkedHashMap` key) appends the element only when it is new. The membership afterwards is the old membership plus the element, and the result stays duplicate-free. |
| Common.Without | spring-beans/src/main/java/org/springframework/beans/factory/support/DefaultSingletonBeanRegistry.java:400-401 | Removing from a `LinkedHashSet` drops exactly that element, keeps the rest, and keeps the set duplicate-free. |
| Aliases.CanonicalUnfold | spring-core/src/main/java/org/springframework/core/SimpleAliasRegistry.java:184-198 | A name that is not an alias is its own canonical name. An alias has the canonical name of the name it points at. |
| Aliases.CanonicalIdempotent | spring-core/src/main/java/org/springframework/core/SimpleAliasRegistry.java:184-198 | `canonicalName(canonicalName(x)) == canonicalName(x)` on a table whose chain from `x` ends. |
| Aliases.RemovePreservesAcyclic | spring-core/src/main/java/org/springframework/core/SimpleAliasRegistry.java:56-58 | Removing an alias keeps an acyclic table acyclic. |
| Aliases.RebindPreservesAcyclic | spring-core/src/main/java/org/springframework/core/SimpleAliasRegistry.java:77-78 | Binding `alias` to `name` keeps the table acyclic when `alias` is not on the chain of `name`. |
| Aliases.NotOnOwnChain | spring-core/src/main/java/org/springframework/core/SimpleAliasRegistry.java:217-224 | In an acyclic table, an alias never lies on the chain of the name it points at. |
| Aliases.FreshCheckAgrees | spring-core/src/main/java/org/springframework/core/SimpleAliasRegistry.java:217-224 | For an alias that is not yet registered, "on the chain of `name`" and "equal to `canonicalName(name)`" coincide. The check as written is therefore exact for fresh aliases. |
| Aliases.AliasesShrink | spring-core/src/main/java/org/springframework/core/SimpleAliasRegistry.java:118-129 | The aliases reached through a direct alias `c` of `y` are a strict subset of those of `y`. This is why the recursion of `retrieveAliases` ends. |
| Aliases.BranchesDisjoint | spring-core/src/main/java/org/springframework/core/SimpleAliasRegistry.java:118-129 | Two direct aliases of one name share no transitive alias, so `retrieveAliases` adds no name twice. |
| Aliases.AliasRegistry.constructor | spring-core/src/main/java/org/springframework/core/SimpleAliasRegistry.java:49 | A new registry has an empty table, which is acyclic. |
| Aliases.AliasRegistry.CanonicalName | spring-core/src/main/java/org/springframework/core/SimpleAliasRegistry.java:184-198 | The loop returns the end of the chain from `name`: a name that is not an alias and lies on the chain. |
| Aliases.AliasRegistry.CheckForAliasCircleAsWritten | spring-core/src/main/java/org/springframework/core/SimpleAliasRegistry.java:217-224 | The check as written throws `IllegalStateException` exactly when `alias == canonicalName(name)`. |
| Aliases.AliasRegistry.CheckForAliasCircle | spring-core/src/main/java/org/springframework/core/SimpleAliasRegistry.java:217-224 | The corrected check throws exactly when `alias` lies on the chain of `name`. For an unregistered alias it agrees with the check as written. |
| Aliases.AliasRegistry.RegisterAlias | spring-core/src/main/java/org/springframework/core/SimpleAliasRegistry.java:50-80 | Corrected: a blank name or alias gives `IllegalArgumentException`. A self-alias removes the entry. Rebinding an alias to a different name without overriding gives `IllegalStateException` and leaves the table unchanged. A circle gives `IllegalStateException` and leaves the table unchanged. Otherwise exactly `aliasMap[alias] := name` is written. The table stays acyclic in every case. |
| Aliases.AliasRegistry.ResolveAliases | spring-core/src/main/java/org/springframework/core/SimpleAliasRegistry.java:139-172 | Corrected: visits every snapshot entry once, in the order it returns. On success the table is `ResolveAll` of the old table over that order, and every entry is the resolution of a snapshot entry. On failure, an `IllegalStateException`, the table is as the entries before the failing one left it. The table stays acyclic. |
| Aliases.ResolveStep | spring-core/src/main/java/org/springframework/core/SimpleAliasRegistry.java:145-169 | Corrected: one iteration of the loop, with a circle check in both branches that rebind. A failure is an `IllegalStateException`. Every entry of the result is an entry of the current table or the resolution of a snapshot entry. |
| Aliases.ResolveStepKeepsAcyclic | spring-core/src/main/java/org/springframework/core/SimpleAliasRegistry.java:145-169 | A successful corrected iteration keeps the table acyclic. |
| Aliases.ResolveAllKeepsAcyclic | spring-core/src/main/java/org/springframework/core/SimpleAliasRegistry.java:139-172 | A successful corrected `resolveAliases`, in any visiting order, keeps the table acyclic. |
| Aliases.ResolveIdentity | spring-core/src/main/java/org/springframework/core/SimpleAliasRegistry.java:139-172 | A resolver that leaves every alias and name of an acyclic table as it is leaves the table unchanged, in any visiting order. |
| Aliases.AliasRegistry.RemoveAlias | spring-core/src/main/java/org/springframework/core/SimpleAliasRegistry.java:91-96 | Deletes exactly the given key. An unregistered alias gives `IllegalStateException` and leaves the table unchanged. |
| Aliases.AliasRegistry.IsAlias | spring-core/src/main/java/org/springframework/core/SimpleAliasRegistry.java:98-100 | True exactly when the name is a key of the table. |
| Aliases.AliasRegistry.GetAliases | spring-core/src/main/java/org/springframework/core/SimpleAliasRegistry.java:102-108 | Returns, without duplicates, exactly the aliases whose chain passes through `name`. |
| Aliases.AliasRegistry.RetrieveAliases | spring-core/src/main/java/org/springframework/core/SimpleAliasRegistry.java:118-129 | Extends the caller's list, keeping it as a prefix. It appends exactly the transitive aliases of `name`, none twice. |
| Aliases.RegisterAsWritten | spring-core/src/main/java/org/springframework/core/SimpleAliasRegistry.java:52-80 | `registerAlias` as written, with the circle check comparing `alias` with `canonicalName(name)` only. Blank arguments give `IllegalArgumentException` and nothing else does. A success changes only the entry of `alias`: removed for a self-alias, otherwise bound to `name`. |
| Aliases.ResolveStepAsWritten | spring-core/src/main/java/org/springframework/core/SimpleAliasRegistry.java:145-169 | One iteration of `resolveAliases` as written. A failure is an `IllegalStateException`. Every entry of the result is an entry of the current table or the resolution of a snapshot entry. |
| Aliases.ResolveStepAsWrittenAgrees | spring-core/src/main/java/org/springframework/core/SimpleAliasRegistry.java:145-169 | The as-written and corrected iterations agree except where the third branch (lines 167-168) rebinds an alias to a new name without a circle check. In the second branch the two checks agree on every acyclic table, fresh or registered alias alike. |
| Aliases.RegisterAsWrittenMakesCycle | spring-core/src/main/java/org/springframework/core/SimpleAliasRegistry.java:77-78 | With overriding allowed, `registerAlias("c", "a")` on `{a -> b, c -> a}` passes the check as written and produces the circle `{a -> c, c -> a}`. |
| Aliases.RegisterAsWrittenFreshAliasKeepsAcyclic | spring-core/src/main/java/org/springframework/core/SimpleAliasRegistry.java:60-78 | When `alias` is not yet registered, a successful registration as written keeps the table acyclic. |
| Aliases.RegisterAsWrittenNoOverridingKeepsAcyclic | spring-core/src/main/java/org/springframework/core/SimpleAliasRegistry.java:60-78 | When overriding is disallowed, every successful registration as written keeps the table acyclic. |
| Aliases.ResolveAsWrittenMakesCycle | spring-core/src/main/java/org/springframework/core/SimpleAliasRegistry.java:167-169 | The third branch of `resolveAliases` rebinds without a circle check. A resolver mapping `b` to `c` turns `{a -> b, c -> a}` into a circle. |
| Singletons.Store | spring-beans/src/main/java/org/springframework/beans/factory/support/DefaultSingletonBeanRegistry.java:86 | A null singleton is stored as `NULL_OBJECT`, and only a null one is. Reading the stored value back gives the original object or null. |
| Singletons.Expose | spring-beans/src/main/java/org/springframework/beans/factory/support/DefaultSingletonBeanRegistry.java:303 | Reading a stored value back gives null exactly for `NULL_OBJECT`. |
| Singletons.StoreExpose | spring-beans/src/main/java/org/springframework/beans/factory/support/DefaultSingletonBeanRegistry.java:220 | Storing a value that was read back gives the stored value again. |
| Singletons.AddEdge | spring-beans/src/main/java/org/springframework/beans/factory/support/DefaultSingletonBeanRegistry.java:582-600 | The `get`/`put new LinkedHashSet`/`add` idiom adds exactly `v` to the set under `k`, creating the set if needed. It leaves every other key alone, and changes nothing when `v` is already present. |
| Singletons.AddEdgeIdempotent | spring-beans/src/main/java/org/springframework/beans/factory/support/DefaultSingletonBeanRegistry.java:579-602 | Registering the same dependency twice is the same as registering it once. |
| Singletons.AddEdgeKeepsMirrored | spring-beans/src/main/java/org/springframework/beans/factory/support/DefaultSingletonBeanRegistry.java:579-602 | Adding the edge to both `dependentBeanMap` and `dependenciesForBeanMap` keeps the two maps mirror images. |
| Singletons.Forget | spring-beans/src/main/java/org/springframework/beans/factory/support/DefaultSingletonBeanRegistry.java:761-770 | The iterator loop removes `name` from every dependents set. It drops the sets that become empty and keeps all other members. |
| Singletons.TiersEmpty | spring-beans/src/main/java/org/springframework/beans/factory/support/DefaultSingletonBeanRegistry.java:674-684 | Empty caches satisfy tier exclusivity. |
| Singletons.TiersAdd | spring-beans/src/main/java/org/springframework/beans/factory/support/DefaultSingletonBeanRegistry.java:216-228 | `addSingleton` keeps the three tiers disjoint, and keeps `registeredSingletons` equal to their union, without duplicates. |
| Singletons.TiersAddFactory | spring-beans/src/main/java/org/springframework/beans/factory/support/DefaultSingletonBeanRegistry.java:241-251 | `addSingletonFactory` on an unfinished name preserves tier exclusivity. |
| Singletons.TiersEarly | spring-beans/src/main/java/org/springframework/beans/factory/support/DefaultSingletonBeanRegistry.java:288-290 | Promoting a factory's result to an early reference preserves tier exclusivity. |
| Singletons.TiersRemove | spring-beans/src/main/java/org/springframework/beans/factory/support/DefaultSingletonBeanRegistry.java:396-403 | `removeSingleton` preserves tier exclusivity. |
| Singletons.ListedInsert | spring-beans/src/main/java/org/springframework/beans/factory/support/DefaultSingletonBeanRegistry.java:536-540 | Putting into `disposableBeans` keeps its key order listing every key once. |
| Singletons.ListedRemove | spring-beans/src/main/java/org/springframework/beans/factory/support/DefaultSingletonBeanRegistry.java:705-708 | Removing from `disposableBeans` keeps its key order listing every key once. |
| Singletons.AccountsChain | spring-beans/src/main/java/org/springframework/beans/factory/support/DefaultSingletonBeanRegistry.java:669-671 | Two teardowns in a row destroy, once each, exactly the beans that left the disposables in either. |
| Singletons.AccountsAround | spring-beans/src/main/java/org/springframework/beans/factory/support/DefaultSingletonBeanRegistry.java:699-710 | A bean taken out of the disposables and destroyed between two teardown phases is accounted for exactly once. |
| Singletons.BeforeOwn | spring-beans/src/main/java/org/springframework/beans/factory/support/DefaultSingletonBeanRegistry.java:727-747 | A bean destroyed in the dependents phase comes before the bean's own `destroy` in the trace. |
| Singletons.NoneLeft | spring-beans/src/main/java/org/springframework/beans/factory/support/DefaultSingletonBeanRegistry.java:664-671 | Once every name of the snapshot has left the disposables, no disposable is left. |
| Singletons.AfterCreationAsWritten | spring-beans/src/main/java/org/springframework/beans/factory/support/DefaultSingletonBeanRegistry.java:514-521 | `afterSingletonCreation` as written returns normally exactly when the name is excluded or marked. Otherwise it throws `NullPointerException`. An excluded name leaves the markers alone; any other name is unmarked, whether it throws or not. |
| Singletons.AfterCreationAsWrittenNeverIllegalState | spring-beans/src/main/java/org/springframework/beans/factory/support/DefaultSingletonBeanRegistry.java:514-521 | As written, `afterSingletonCreation` never throws its `IllegalStateException`. For an unmarked, unexcluded name (`"x"` with no marks) it throws `NullPointerException` instead. |
| Singletons.SingletonRegistry.constructor | spring-beans/src/main/java/org/springframework/beans/factory/support/DefaultSingletonBeanRegistry.java:98-186 | A new registry has empty caches, markers, disposables and relations, no suppressed-exception set, and the destruction flag cleared. |
| Singletons.SingletonRegistry.RegisterSingleton | spring-beans/src/main/java/org/springframework/beans/factory/support/DefaultSingletonBeanRegistry.java:192-205 | An already bound name gives `IllegalStateException` and changes nothing. Otherwise the name becomes finished, leaves the other tiers, and is appended once to the registration order. |
| Singletons.SingletonRegistry.AddSingleton | spring-beans/src/main/java/org/springframework/beans/factory/support/DefaultSingletonBeanRegistry.java:216-228 | The name becomes finished, holding `NULL_OBJECT` for null. It leaves the factory and early tiers, and is appended to the order if new. Tier exclusivity is kept. |
| Singletons.SingletonRegistry.AddSingletonFactory | spring-beans/src/main/java/org/springframework/beans/factory/support/DefaultSingletonBeanRegistry.java:241-251 | A finished name changes nothing. Otherwise the factory is registered, any early reference is dropped, and the name is appended to the order if new. |
| Singletons.SingletonRegistry.GetSingleton | spring-beans/src/main/java/org/springframework/beans/factory/support/DefaultSingletonBeanRegistry.java:256-258 | Behaves as `getSingleton(beanName, true)`, stated by `LookedUp`. A finished name returns its object with the caches unchanged. A name not in creation returns null. A name in creation returns its early reference. Failing that, a registered factory is called exactly once, and its result moves the name from the factory tier to the early tier. |
| Singletons.SingletonRegistry.GetSingletonWithEarly | spring-beans/src/main/java/org/springframework/beans/factory/support/DefaultSingletonBeanRegistry.java:277-304 | Returns the finished object if present, changing nothing. For a name not in creation, returns null and changes nothing. For a name in creation, returns its early reference if one is set. Otherwise, when early references are allowed and a factory exists, it calls the factory exactly once, stores the result as early, drops the factory and returns the result. A failure of the factory is rethrown with the caches unchanged. |
| Singletons.SingletonRegistry.GetSingletonFromFactory | spring-beans/src/main/java/org/springframework/beans/factory/support/DefaultSingletonBeanRegistry.java:317-368 | A finished name is returned without calling the factory. During `destroySingletons` it throws `BeanCreationNotAllowedException`. Otherwise the name is created: see `CreateSingleton`. |
| Singletons.SingletonRegistry.CreateSingleton | spring-beans/src/main/java/org/springframework/beans/factory/support/DefaultSingletonBeanRegistry.java:334-366 | A name already marked gives `BeanCurrentlyInCreationException` without calling the factory. Otherwise the factory is called exactly once. The marker set ends as it began, whether the factory returns or throws. A returned object is committed via `addSingleton` and returned. A thrown failure is rethrown with the caches unchanged. The suppressed-exception set ends as it began. |
| Singletons.SingletonRegistry.InvokeFactory | spring-beans/src/main/java/org/springframework/beans/factory/support/DefaultSingletonBeanRegistry.java:336-359 | Calls the factory once. A failure becomes the exception that is rethrown. The suppressed-exception set is created only by the outermost call and reset in its `finally`. |
| Singletons.SingletonRegistry.OnSuppressedException | spring-beans/src/main/java/org/springframework/beans/factory/support/DefaultSingletonBeanRegistry.java:378-384 | Records the exception, once, only while a suppressed-exception set exists. |
| Singletons.SingletonRegistry.RemoveSingleton | spring-beans/src/main/java/org/springframework/beans/factory/support/DefaultSingletonBeanRegistry.java:396-403 | Removes the name from all three tiers and from the registration order, and nothing else. |
| Singletons.SingletonRegistry.ContainsSingleton | spring-beans/src/main/java/org/springframework/beans/factory/support/DefaultSingletonBeanRegistry.java:409-411 | True exactly when the name is finished. |
| Singletons.SingletonRegistry.GetSingletonNames | spring-beans/src/main/java/org/springframework/beans/factory/support/DefaultSingletonBeanRegistry.java:417-421 | Exactly `registeredSingletons`, in registration order, without duplicates. These are the names in some tier. |
| Singletons.SingletonRegistry.GetSingletonCount | spring-beans/src/main/java/org/springframework/beans/factory/support/DefaultSingletonBeanRegistry.java:427-431 | The number of names in some tier. |
| Singletons.SingletonRegistry.SetCurrentlyInCreation | spring-beans/src/main/java/org/springframework/beans/factory/support/DefaultSingletonBeanRegistry.java:441-449 | `false` adds the name to the exclusions. `true` removes it. |
| Singletons.SingletonRegistry.IsCurrentlyInCreation | spring-beans/src/main/java/org/springframework/beans/factory/support/DefaultSingletonBeanRegistry.java:458-461 | True exactly when the name is not excluded and is marked. |
| Singletons.SingletonRegistry.IsSingletonCurrentlyInCreation | spring-beans/src/main/java/org/springframework/beans/factory/support/DefaultSingletonBeanRegistry.java:471-485 | True exactly when the name is marked. |
| Singletons.SingletonRegistry.BeforeSingletonCreation | spring-beans/src/main/java/org/springframework/beans/factory/support/DefaultSingletonBeanRegistry.java:496-503 | An excluded name is left alone. Any other name is marked, and was it marked already, `BeanCurrentlyInCreationException` is thrown. |
| Singletons.SingletonRegistry.AfterSingletonCreation | spring-beans/src/main/java/org/springframework/beans/factory/support/DefaultSingletonBeanRegistry.java:514-521 | Corrected: an excluded name is left alone. Any other name is unmarked, and was it not marked, `IllegalStateException` is thrown. |
| Singletons.SingletonRegistry.RegisterDisposableBean | spring-beans/src/main/java/org/springframework/beans/factory/support/DefaultSingletonBeanRegistry.java:536-540 | Binds the disposable. A new name goes last in the order; a known one keeps its place. |
| Singletons.SingletonRegistry.RegisterContainedBean | spring-beans/src/main/java/org/springframework/beans/factory/support/DefaultSingletonBeanRegistry.java:554-568 | Adds the inner bean under the outer one. It then records the outer bean as a dependent of the inner bean's canonical name, on both sides, keeping them mirrored. |
| Singletons.SingletonRegistry.RegisterDependentBean | spring-beans/src/main/java/org/springframework/beans/factory/support/DefaultSingletonBeanRegistry.java:579-602 | Adds the dependent under `canonicalName(beanName)` and the canonical name under the dependent. Both relations stay well formed and mirrored. |
| Singletons.SingletonRegistry.HasDependentBean | spring-beans/src/main/java/org/springframework/beans/factory/support/DefaultSingletonBeanRegistry.java:611-613 | True exactly when some bean depends on the name. |
| Singletons.SingletonRegistry.GetDependentBeans | spring-beans/src/main/java/org/springframework/beans/factory/support/DefaultSingletonBeanRegistry.java:623-629 | Exactly the registered dependents, without duplicates. Empty when there are none. |
| Singletons.SingletonRegistry.GetDependenciesForBean | spring-beans/src/main/java/org/springframework/beans/factory/support/DefaultSingletonBeanRegistry.java:640-647 | Exactly the registered dependencies, without duplicates. Empty when there are none. |
| Singletons.SingletonRegistry.DestroySingletons | spring-beans/src/main/java/org/springframework/beans/factory/support/DefaultSingletonBeanRegistry.java:654-685 | Every disposable bean is destroyed exactly once. Afterwards all tiers, the order, the disposables and the three relations are empty, and the destruction flag is cleared. |
| Singletons.SingletonRegistry.DestroyDisposables | spring-beans/src/main/java/org/springframework/beans/factory/support/DefaultSingletonBeanRegistry.java:664-671 | The reverse loop over the snapshot of disposable names destroys every disposable exactly once and leaves none. |
| Singletons.SingletonRegistry.DestroySingleton | spring-beans/src/main/java/org/springframework/beans/factory/support/DefaultSingletonBeanRegistry.java:699-710 | The name leaves every tier, the disposables and all relations. The beans that left the disposables are destroyed once each. Every disposable dependent of the bean is destroyed before the bean itself. No key set grows. |
| Singletons.SingletonRegistry.TakeDisposable | spring-beans/src/main/java/org/springframework/beans/factory/support/DefaultSingletonBeanRegistry.java:705-708 | Removes the name from the disposables and returns what was bound to it. |
| Singletons.SingletonRegistry.DestroyEach | spring-beans/src/main/java/org/springframework/beans/factory/support/DefaultSingletonBeanRegistry.java:733-735 | Calls `destroySingleton` on each name. Afterwards none of them is disposable, and the departed beans are destroyed once each. |
| Singletons.SingletonRegistry.DestroyBean | spring-beans/src/main/java/org/springframework/beans/factory/support/DefaultSingletonBeanRegistry.java:724-775 | Destroys all disposable dependents in the first phase, then the bean's own `destroy`, then the contained beans. Afterwards the bean is in no relation and in no dependents set. |
| Singletons.SingletonRegistry.DestroyDependents | spring-beans/src/main/java/org/springframework/beans/factory/support/DefaultSingletonBeanRegistry.java:727-736 | Removes the bean's dependents entry and destroys every disposable dependent. |
| Singletons.SingletonRegistry.DestroyContained | spring-beans/src/main/java/org/springframework/beans/factory/support/DefaultSingletonBeanRegistry.java:751-757 | Removes the bean's contained entry and destroys every contained bean. |
| Singletons.SingletonRegistry.ForgetBean | spring-beans/src/main/java/org/springframework/beans/factory/support/DefaultSingletonBeanRegistry.java:761-774 | Drops the bean from every dependents set, and drops its dependencies entry. |
| Singletons.SingletonRegistry.ForgetDependent | spring-beans/src/main/java/org/springframework/beans/factory/support/DefaultSingletonBeanRegistry.java:761-770 | The iterator loop leaves the dependent map equal to `Forget` of the old one, removing sets that become empty. |

## Left out

- Synchronisation: the `synchronized` blocks and the concurrent maps. The model is single-threaded.
- Logging.
- `getSingletonMutex`: it only returns the lock object.
- Null arguments: the `Assert.notNull` checks on bean names and factories are not modelled, since names here are never null.
- `Assert.hasText`: modelled only for the whitespace characters of the ASCII range.
- Re-entrant callbacks: `ObjectFactory.getObject`, `DisposableBean.destroy` and `StringValueResolver.resolveStringValue` cannot call back into the registry.
- Aliases.AliasRegistry.ResolveAliases: the resolver is a total function on names. A resolver that returns null makes the Java code throw `NullPointerException`, which is not modelled.
- Singletons.SingletonRegistry.InvokeFactory: the related causes attached to a thrown `BeanCreationException` are always empty. No callback can reach `onSuppressedException` during the factory call.
- Singletons.SingletonRegistry.DestroyBean: failures of `destroy` are not modelled. The source logs and swallows them, so they do not change the registry.
- Singletons.SingletonRegistry.DestroyBean: the relative order of the contained-bean phase is not stated. A nested destruction in the dependents phase may already remove the bean's contained entry.
- Singletons.SingletonRegistry.DestroySingletons: the "last registered first" order is not stated in the contract; only the loop itself runs from the last index down. A bean can be destroyed earlier, as a dependent of a bean registered after it, so the trace order is not simply the reverse registration order.
- Singletons.SingletonRegistry.DestroySingleton: the mirroring of `dependentBeanMap` and `dependenciesForBeanMap` is not proved to survive teardown. Only the well-formedness of the relations is.
- The iteration order of `HashMap`-backed keys (the finished tier and the relations' own key order) is not modelled. Only the `LinkedHashSet` and `LinkedHashMap` orders are.

## Findings

| source | as written | input that shows it | evidently intended | confidence | as-written member | corrected member |
|---|---|---|---|---|---|---|
| spring-core/src/main/java/org/springframework/core/SimpleAliasRegistry.java:77-78, 217-224 | With overriding allowed, the circle check compares `alias` only with `canonicalName(name)`, so rebinding an existing alias can close a circle. | `{a -> b, c -> a}`, `registerAlias("c", "a")` gives `{a -> c, c -> a}` | reject when `alias` lies anywhere on the chain of `name` | not executed | Aliases.RegisterAsWritten (exhibited by Aliases.RegisterAsWrittenMakesCycle) | Aliases.AliasRegistry.RegisterAlias |
| spring-core/src/main/java/org/springframework/core/SimpleAliasRegistry.java:167-169 | In `resolveAliases`, the branch that keeps the alias and changes its target rebinds without any circle check. | `{a -> b, c -> a}` with a resolver mapping `b` to `c` gives `{a -> c, c -> a}` | check for a circle as the other branch does | not executed | Aliases.ResolveStepAsWritten (exhibited by Aliases.ResolveAsWrittenMakesCycle) | Aliases.AliasRegistry.ResolveAliases |
| spring-beans/src/main/java/org/springframework/beans/factory/support/DefaultSingletonBeanRegistry.java:514-521 | `!singletonsCurrentlyInCreation.remove(beanName)` unboxes the `null` that `Map.remove` returns for an unmarked name, so a `NullPointerException` is thrown and the `IllegalStateException` is never thrown. | `afterSingletonCreation("x")` with no marks and no exclusions | throw `IllegalStateException` for an unmarked name | not executed | Singletons.AfterCreationAsWritten (exhibited by Singletons.AfterCreationAsWrittenNeverIllegalState) | Singletons.SingletonRegistry.AfterSingletonCreation |
