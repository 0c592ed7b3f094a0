/**
 * The alias table of the container (`SimpleAliasRegistry`): a map from alias to
 * the name it stands for. A name may itself be an alias, so aliases form chains;
 * the registry is meant to keep those chains free of cycles.
 */
module Aliases {
  import opened Common

  /** alias -> name, the `aliasMap` field. */
  type AliasMap = map<Name, Name>

  /** The name reached from `x` after following at most `n` alias links. */
  function Walk(m: AliasMap, x: Name, n: nat): Name
    decreases n
  {
    if n == 0 || x !in m then x else Walk(m, m[x], n - 1)
  }

  /** Following the alias links from `x` eventually reaches a name that is not an alias. */
  ghost predicate Terminates(m: AliasMap, x: Name) {
    exists n: nat :: Walk(m, x, n) !in m
  }

  /** No alias chain runs in a circle. */
  ghost predicate Acyclic(m: AliasMap) {
    forall x :: Terminates(m, x)
  }

  /** `y` lies on the alias chain that starts at `x` (`x` itself included). */
  ghost predicate OnChain(m: AliasMap, x: Name, y: Name) {
    exists n: nat :: Walk(m, x, n) == y
  }

  /** The canonical name of `x`: the end of its alias chain. */
  ghost function Canonical(m: AliasMap, x: Name): (r: Name)
    requires Terminates(m, x)
    ensures r !in m && OnChain(m, x, r)
  {
    var n: nat :| Walk(m, x, n) !in m; Walk(m, x, n)
  }

  /** The aliases of `y`, direct or through other aliases: the keys whose chain passes through `y`. */
  ghost function AliasesOf(m: AliasMap, y: Name): set<Name> {
    set k | k in m && OnChain(m, m[k], y)
  }

  // ---------------------------------------------------------------------------
  // Facts about walking the alias chain
  // ---------------------------------------------------------------------------

  lemma {:induction false} WalkAdd(m: AliasMap, x: Name, i: nat, k: nat)
    ensures Walk(m, x, i + k) == Walk(m, Walk(m, x, i), k)
    decreases i
  {
    if i == 0 || x !in m {
    } else {
      WalkAdd(m, m[x], i - 1, k);
    }
  }

  /** Once the walk leaves the keys of the map it stays where it is. */
  lemma WalkStable(m: AliasMap, x: Name, i: nat, k: nat)
    requires Walk(m, x, i) !in m && i <= k
    ensures Walk(m, x, k) == Walk(m, x, i)
  {
    WalkAdd(m, x, i, k - i);
  }

  lemma WalkStep(m: AliasMap, x: Name, n: nat)
    requires Walk(m, x, n) in m
    ensures Walk(m, x, n + 1) == m[Walk(m, x, n)]
  {
    WalkAdd(m, x, n, 1);
  }

  /** Every walk that ends outside the map ends at the canonical name. */
  lemma CanonicalIsEnd(m: AliasMap, x: Name, n: nat)
    requires Walk(m, x, n) !in m
    ensures Terminates(m, x) && Canonical(m, x) == Walk(m, x, n)
  {
    var r := Canonical(m, x);
    var n': nat :| Walk(m, x, n') == r;
    if n <= n' { WalkStable(m, x, n, n'); } else { WalkStable(m, x, n', n); }
  }

  /** The recursive reading of `canonicalName`: a name that is not an alias is its own
      canonical name, and an alias has the canonical name of its target. */
  lemma CanonicalUnfold(m: AliasMap, x: Name)
    requires Terminates(m, x)
    ensures x !in m ==> Canonical(m, x) == x
    ensures x in m ==> Terminates(m, m[x]) && Canonical(m, x) == Canonical(m, m[x])
  {
    var n: nat :| Walk(m, x, n) !in m;
    CanonicalIsEnd(m, x, n);
    if x in m {
      assert n > 0 && Walk(m, m[x], n - 1) == Walk(m, x, n);
      CanonicalIsEnd(m, m[x], n - 1);
    } else {
      CanonicalIsEnd(m, x, 0);
    }
  }

  /** `canonicalName(canonicalName(x)) == canonicalName(x)`. */
  lemma CanonicalIdempotent(m: AliasMap, x: Name)
    requires Terminates(m, x)
    ensures Terminates(m, Canonical(m, x)) && Canonical(m, Canonical(m, x)) == Canonical(m, x)
  {
    CanonicalIsEnd(m, Canonical(m, x), 0);
  }

  /** On a walk that comes back to `x`, every step is an alias. */
  lemma {:induction false} CycleStaysInMap(m: AliasMap, x: Name, j: nat, n: nat)
    requires x in m && j >= 1 && Walk(m, x, j) == x
    ensures Walk(m, x, n) in m
    decreases n
  {
    if n < j {
      if Walk(m, x, n) !in m {
        WalkStable(m, x, n, j);
        assert false;
      }
    } else {
      WalkAdd(m, x, j, n - j);
      CycleStaysInMap(m, x, j, n - j);
    }
  }

  /** In an acyclic map an alias never leads back to itself. */
  lemma NoReturn(m: AliasMap, x: Name, j: nat)
    requires Terminates(m, x) && x in m && j >= 1
    ensures Walk(m, x, j) != x
  {
    var n: nat :| Walk(m, x, n) !in m;
    if Walk(m, x, j) == x {
      CycleStaysInMap(m, x, j, n);
      assert false;
    }
  }

  /** An alias `c` of `y` does not lie on the chain of `y`. */
  lemma NotOnOwnChain(m: AliasMap, y: Name, c: Name)
    requires Acyclic(m) && c in m && m[c] == y
    ensures !OnChain(m, y, c)
  {
    forall j: nat ensures Walk(m, y, j) != c {
      if y in m {
        WalkAdd(m, y, j, 1);
        NoReturn(m, y, j + 1);
      }
    }
  }

  /** Removing `a` never lengthens a chain: each step of the new walk is a step of the old one. */
  lemma {:induction false} RemoveWalk(m: AliasMap, a: Name, x: Name, k: nat)
    ensures OnChain(m, x, Walk(m - {a}, x, k))
    decreases k
  {
    var m' := m - {a};
    if k == 0 || x !in m' {
      assert Walk(m, x, 0) == Walk(m', x, k);
    } else {
      RemoveWalk(m, a, m[x], k - 1);
      var j: nat :| Walk(m, m[x], j) == Walk(m', m'[x], k - 1);
      assert Walk(m, x, j + 1) == Walk(m', x, k);
    }
  }

  lemma RemoveChain(m: AliasMap, a: Name, x: Name, y: Name)
    requires OnChain(m - {a}, x, y)
    ensures OnChain(m, x, y)
  {
    var k: nat :| Walk(m - {a}, x, k) == y;
    RemoveWalk(m, a, x, k);
  }

  lemma {:induction false} RemoveTerminates(m: AliasMap, a: Name, x: Name, n: nat)
    requires Walk(m, x, n) !in m
    ensures Terminates(m - {a}, x)
    decreases n
  {
    var m' := m - {a};
    if x !in m' {
      assert Walk(m', x, 0) !in m';
    } else {
      RemoveTerminates(m, a, m[x], n - 1);
      var k: nat :| Walk(m', m[x], k) !in m';
      assert Walk(m', x, k + 1) !in m';
    }
  }

  /** `aliasMap.remove(a)` keeps the chains acyclic. */
  lemma RemovePreservesAcyclic(m: AliasMap, a: Name)
    requires Acyclic(m)
    ensures Acyclic(m - {a})
  {
    forall x ensures Terminates(m - {a}, x) {
      assert Terminates(m, x);
      var n: nat :| Walk(m, x, n) !in m;
      RemoveTerminates(m, a, x, n);
    }
  }

  /** A walk that never meets `a` is unaffected by rebinding `a`. */
  lemma {:induction false} AvoidingWalk(m: AliasMap, a: Name, v: Name, y: Name, n: nat)
    requires !OnChain(m, y, a)
    ensures Walk(m[a := v], y, n) == Walk(m, y, n)
    decreases n
  {
    assert Walk(m, y, 0) != a;
    if n > 0 && y in m {
      forall k: nat ensures Walk(m, m[y], k) != a {
        assert Walk(m, y, k + 1) == Walk(m, m[y], k);
      }
      AvoidingWalk(m, a, v, m[y], n - 1);
    }
  }

  lemma {:induction false} RebindTerminates(m: AliasMap, a: Name, v: Name, x: Name, n: nat)
    requires Walk(m, x, n) !in m && Terminates(m[a := v], v)
    ensures Terminates(m[a := v], x)
    decreases n
  {
    var m' := m[a := v];
    if x == a {
      var k: nat :| Walk(m', v, k) !in m';
      assert Walk(m', x, k + 1) == Walk(m', v, k);
    } else if x !in m {
      assert Walk(m', x, 0) !in m';
    } else {
      RebindTerminates(m, a, v, m[x], n - 1);
      var k: nat :| Walk(m', m[x], k) !in m';
      assert Walk(m', x, k + 1) == Walk(m', m[x], k);
    }
  }

  /** Binding `a` to `v` keeps the map acyclic when `a` is not on the chain of `v`
      (whether or not `a` was already an alias). */
  lemma RebindPreservesAcyclic(m: AliasMap, a: Name, v: Name)
    requires Acyclic(m) && !OnChain(m, v, a)
    ensures Acyclic(m[a := v])
  {
    var m' := m[a := v];
    assert Terminates(m, v);
    var n: nat :| Walk(m, v, n) !in m;
    AvoidingWalk(m, a, v, v, n);
    assert Walk(m, v, n) != a;
    assert Walk(m', v, n) !in m';
    forall x ensures Terminates(m', x) {
      assert Terminates(m, x);
      var nx: nat :| Walk(m, x, nx) !in m;
      RebindTerminates(m, a, v, x, nx);
    }
  }

  /** When `a` is not yet an alias, the chain of `v` meets `a` only at its end. */
  lemma FreshCheckAgrees(m: AliasMap, v: Name, a: Name)
    requires Terminates(m, v) && a !in m
    ensures OnChain(m, v, a) <==> a == Canonical(m, v)
  {
    if OnChain(m, v, a) {
      var k: nat :| Walk(m, v, k) == a;
      CanonicalIsEnd(m, v, k);
    }
  }

  // ---------------------------------------------------------------------------
  // The aliases of a name, as a tree of branches
  // ---------------------------------------------------------------------------

  /** `k` is `c` or one of its aliases, where `c` is a direct alias of `y` taken from `P`. */
  ghost predicate InBranches(m: AliasMap, y: Name, k: Name, P: set<Name>) {
    exists c :: c in P && c in m && m[c] == y && (k == c || k in AliasesOf(m, c))
  }

  lemma {:induction false} BranchOf(m: AliasMap, y: Name, k: Name, j: nat)
    requires k in m && Walk(m, m[k], j) == y
    ensures InBranches(m, y, k, m.Keys)
    decreases j
  {
    if m[k] == y {
      assert k == k;
    } else {
      var p := m[k];
      assert j > 0 && p in m;
      BranchOf(m, y, p, j - 1);
      var c :| c in m && m[c] == y && (p == c || p in AliasesOf(m, c));
      if p == c {
        assert Walk(m, m[k], 0) == c;
      } else {
        var i: nat :| Walk(m, m[p], i) == c;
        assert Walk(m, m[k], i + 1) == c;
      }
      assert k in AliasesOf(m, c);
    }
  }

  /** The aliases of `y` are its direct aliases together with their own aliases. */
  lemma AliasesDecompose(m: AliasMap, y: Name, k: Name)
    ensures k in AliasesOf(m, y) <==> InBranches(m, y, k, m.Keys)
  {
    if k in AliasesOf(m, y) {
      var j: nat :| Walk(m, m[k], j) == y;
      BranchOf(m, y, k, j);
    }
    if InBranches(m, y, k, m.Keys) {
      var c :| c in m && m[c] == y && (k == c || k in AliasesOf(m, c));
      if k == c {
        assert Walk(m, m[k], 0) == y;
      } else {
        var i: nat :| Walk(m, m[k], i) == c;
        WalkAdd(m, m[k], i, 1);
        assert Walk(m, m[k], i + 1) == y;
      }
    }
  }

  /** Two direct aliases of `y` share no alias. */
  lemma BranchesDisjoint(m: AliasMap, y: Name, c: Name, c': Name, k: Name)
    requires Acyclic(m) && c in m && c' in m && m[c] == y && m[c'] == y
    requires k in AliasesOf(m, c) && k in AliasesOf(m, c')
    ensures c == c'
  {
    var i: nat :| Walk(m, m[k], i) == c;
    var i': nat :| Walk(m, m[k], i') == c';
    if i < i' {
      WalkAdd(m, m[k], i, 1);
      WalkAdd(m, m[k], i + 1, i' - i - 1);
      NotOnOwnChain(m, y, c');
      assert false;
    } else if i' < i {
      WalkAdd(m, m[k], i', 1);
      WalkAdd(m, m[k], i' + 1, i - i' - 1);
      NotOnOwnChain(m, y, c);
      assert false;
    }
  }

  /** A direct alias `c` of `y` is an alias of `y` but not an alias of itself, and its
      own aliases are aliases of `y`: the measure that makes `retrieveAliases` terminate. */
  lemma AliasesShrink(m: AliasMap, y: Name, c: Name)
    requires Acyclic(m) && c in m && m[c] == y
    ensures AliasesOf(m, c) < AliasesOf(m, y)
    ensures c in AliasesOf(m, y) && c !in AliasesOf(m, c)
  {
    AliasesDecompose(m, y, c);
    forall k | k in AliasesOf(m, c) ensures k in AliasesOf(m, y) {
      AliasesDecompose(m, y, k);
    }
    if c in AliasesOf(m, c) {
      var i: nat :| Walk(m, m[c], i) == c;
      assert Walk(m, c, i + 1) == c;
      NoReturn(m, c, i + 1);
      assert false;
    }
  }

  // ---------------------------------------------------------------------------
  // Resolving the table through a resolver
  // ---------------------------------------------------------------------------

  /** An entry of a resolved table: some original entry `a -> copy[a]` whose alias and
      name the resolver turns into `k` and `v`. */
  ghost predicate ResolvedEntry(copy: AliasMap, resolve: Name -> Name, k: Name, v: Name) {
    exists a :: a in copy && resolve(a) == k && resolve(copy[a]) == v
  }

  /** One iteration of the loop of `resolveAliases`, for the entry `alias` of the snapshot
      `copy`, on the current table `m`, with the corrected circle check in both branches
      that rebind. */
  ghost function ResolveStep(m: AliasMap, copy: AliasMap, resolve: Name -> Name, alias: Name): (r: Result<AliasMap>)
    requires alias in copy
    ensures r.Failure? ==> r.error == IllegalState
    ensures r.Success? ==> forall k | k in r.value :: (k in m && r.value[k] == m[k]) || ResolvedEntry(copy, resolve, k, r.value[k])
  {
    var registeredName := copy[alias];
    var resolvedAlias := resolve(alias);
    var resolvedName := resolve(registeredName);
    assert ResolvedEntry(copy, resolve, resolvedAlias, resolvedName);
    if resolvedAlias == resolvedName then Success(m - {alias})
    else if resolvedAlias != alias then
      if resolvedAlias in m && m[resolvedAlias] != resolvedName then Failure(IllegalState)
      else if OnChain(m, resolvedName, resolvedAlias) then Failure(IllegalState)
      else Success((m - {alias})[resolvedAlias := resolvedName])
    else if registeredName != resolvedName then
      if OnChain(m, resolvedName, alias) then Failure(IllegalState)
      else Success(m[alias := resolvedName])
    else Success(m)
  }

  /** The corrected `resolveAliases` on the table `m`, visiting the entries of the snapshot
      `copy` in `order` and stopping at the first failure. */
  ghost function ResolveAll(m: AliasMap, copy: AliasMap, resolve: Name -> Name, order: seq<Name>): Result<AliasMap>
    requires forall a | a in order :: a in copy
    decreases |order|
  {
    if order == [] then Success(m)
    else
      var prefix := order[..|order| - 1];
      assert forall a | a in prefix :: a in order;
      match ResolveAll(m, copy, resolve, prefix)
      case Failure(e) => Failure(e)
      case Success(m') => ResolveStep(m', copy, resolve, order[|order| - 1])
  }

  /** A step of the corrected `resolveAliases` keeps the table free of circles. */
  lemma ResolveStepKeepsAcyclic(m: AliasMap, copy: AliasMap, resolve: Name -> Name, alias: Name)
    requires Acyclic(m) && alias in copy
    ensures ResolveStep(m, copy, resolve, alias).Success? ==> Acyclic(ResolveStep(m, copy, resolve, alias).value)
  {
    var registeredName := copy[alias];
    var resolvedAlias := resolve(alias);
    var resolvedName := resolve(registeredName);
    if resolvedAlias == resolvedName {
      RemovePreservesAcyclic(m, alias);
    } else if resolvedAlias != alias {
      if !(resolvedAlias in m && m[resolvedAlias] != resolvedName) && !OnChain(m, resolvedName, resolvedAlias) {
        var rest := m - {alias};
        RemovePreservesAcyclic(m, alias);
        if OnChain(rest, resolvedName, resolvedAlias) {
          RemoveChain(m, alias, resolvedName, resolvedAlias);
          assert false;
        }
        RebindPreservesAcyclic(rest, resolvedAlias, resolvedName);
      }
    } else if registeredName != resolvedName && !OnChain(m, resolvedName, alias) {
      RebindPreservesAcyclic(m, alias, resolvedName);
    }
  }

  /** The whole corrected `resolveAliases` keeps the table free of circles. */
  lemma {:induction false} ResolveAllKeepsAcyclic(m: AliasMap, copy: AliasMap, resolve: Name -> Name, order: seq<Name>)
    requires Acyclic(m) && forall a | a in order :: a in copy
    ensures ResolveAll(m, copy, resolve, order).Success? ==> Acyclic(ResolveAll(m, copy, resolve, order).value)
    decreases |order|
  {
    if order != [] {
      var prefix := order[..|order| - 1];
      assert forall a | a in prefix :: a in order;
      ResolveAllKeepsAcyclic(m, copy, resolve, prefix);
      var p := ResolveAll(m, copy, resolve, prefix);
      if p.Success? {
        ResolveStepKeepsAcyclic(p.value, copy, resolve, order[|order| - 1]);
      }
    }
  }

  /** A resolver that leaves every alias and name of an acyclic table as it is leaves the
      table unchanged, whatever order the entries are visited in. */
  lemma {:induction false} ResolveIdentity(m: AliasMap, resolve: Name -> Name, order: seq<Name>)
    requires Acyclic(m) && forall a | a in order :: a in m
    requires forall k | k in m :: resolve(k) == k && resolve(m[k]) == m[k]
    ensures ResolveAll(m, m, resolve, order) == Success(m)
    decreases |order|
  {
    if order != [] {
      var prefix := order[..|order| - 1];
      assert forall a | a in prefix :: a in order;
      ResolveIdentity(m, resolve, prefix);
      var last := order[|order| - 1];
      NotOnOwnChain(m, m[last], last);
      assert Walk(m, m[last], 0) == m[last];
    }
  }

  // ---------------------------------------------------------------------------
  // The code as written, and what goes wrong with it
  // ---------------------------------------------------------------------------

  /** `registerAlias` as written: its circle check compares `alias` with the canonical
      name of `name` only. */
  ghost function RegisterAsWritten(m: AliasMap, name: Name, alias: Name, allowOverriding: bool): (r: Result<AliasMap>)
    requires Acyclic(m)
    ensures r.Failure? ==> (r.error == IllegalArgument <==> !HasText(name) || !HasText(alias))
    ensures r.Success? ==> forall k | k != alias :: (k in r.value <==> k in m) && (k in m ==> r.value[k] == m[k])
    ensures r.Success? ==> if alias == name then alias !in r.value else alias in r.value && r.value[alias] == name
  {
    if !HasText(name) || !HasText(alias) then Failure(IllegalArgument)
    else if alias == name then Success(m - {alias})
    else if !allowOverriding && alias in m && m[alias] != name then Failure(IllegalState)
    else if alias == Canonical(m, name) then Failure(IllegalState)
    else Success(m[alias := name])
  }

  /** One iteration of the loop of `resolveAliases` as written, for the entry `alias` of the
      snapshot `copy`: the second branch checks circles like `registerAlias`, the third
      rebinds without any check. */
  ghost function ResolveStepAsWritten(m: AliasMap, copy: AliasMap, resolve: Name -> Name, alias: Name): (r: Result<AliasMap>)
    requires Acyclic(m) && alias in copy
    ensures r.Failure? ==> r.error == IllegalState
    ensures r.Success? ==> forall k | k in r.value :: (k in m && r.value[k] == m[k]) || ResolvedEntry(copy, resolve, k, r.value[k])
  {
    var registeredName := copy[alias];
    var resolvedAlias := resolve(alias);
    var resolvedName := resolve(registeredName);
    assert ResolvedEntry(copy, resolve, resolvedAlias, resolvedName);
    if resolvedAlias == resolvedName then Success(m - {alias})
    else if resolvedAlias != alias then
      if resolvedAlias in m && m[resolvedAlias] != resolvedName then Failure(IllegalState)
      else if resolvedAlias == Canonical(m, resolvedName) then Failure(IllegalState)
      else Success((m - {alias})[resolvedAlias := resolvedName])
    else if registeredName != resolvedName then Success(m[alias := resolvedName])
    else Success(m)
  }

  /** The step as written and the corrected step differ only where the code misses a
      circle: when the third branch rebinds without a check. In the second branch an
      alias registered to another name fails both checks, and one registered to the
      resolved name already is off its chain and is not its canonical name. */
  lemma ResolveStepAsWrittenAgrees(m: AliasMap, copy: AliasMap, resolve: Name -> Name, alias: Name)
    requires Acyclic(m) && alias in copy
    requires resolve(alias) == resolve(copy[alias])
             || resolve(alias) != alias
             || copy[alias] == resolve(copy[alias])
    ensures ResolveStepAsWritten(m, copy, resolve, alias) == ResolveStep(m, copy, resolve, alias)
  {
    var resolvedAlias := resolve(alias);
    var resolvedName := resolve(copy[alias]);
    if resolvedAlias != resolvedName && resolvedAlias != alias {
      if resolvedAlias !in m {
        FreshCheckAgrees(m, resolvedName, resolvedAlias);
      } else if m[resolvedAlias] == resolvedName {
        NotOnOwnChain(m, resolvedName, resolvedAlias);
        assert Canonical(m, resolvedName) !in m;
      }
    }
  }

  /** The table `{a -> b, c -> a}` has no circle. */
  lemma SampleAcyclic()
    ensures Acyclic(map["a" := "b", "c" := "a"])
  {
    var m := map["a" := "b", "c" := "a"];
    forall x ensures Terminates(m, x) {
      if x == "c" {
        assert Walk(m, x, 2) == "b";
      } else if x == "a" {
        assert Walk(m, x, 1) == "b";
      } else {
        assert Walk(m, x, 0) !in m;
      }
    }
  }

  /** `{a -> c, c -> a}` is a circle: `canonicalName("a")` never returns. */
  lemma SampleCycle()
    ensures !Terminates(map["a" := "c", "c" := "a"], "a")
  {
    var m := map["a" := "c", "c" := "a"];
    assert Walk(m, "a", 2) == "a";
    forall n: nat ensures Walk(m, "a", n) in m {
      CycleStaysInMap(m, "a", 2, n);
    }
  }

  /** With overriding allowed, `registerAlias("c", "a")` on `{a -> b, c -> a}` passes the
      check (the canonical name of `c` is `b`) and writes `a -> c`, closing a circle. */
  lemma RegisterAsWrittenMakesCycle()
    ensures Acyclic(map["a" := "b", "c" := "a"])
    ensures RegisterAsWritten(map["a" := "b", "c" := "a"], "c", "a", true) == Success(map["a" := "c", "c" := "a"])
    ensures !Acyclic(map["a" := "c", "c" := "a"])
  {
    var m := map["a" := "b", "c" := "a"];
    SampleAcyclic();
    assert !IsWhitespace("c"[0]) && !IsWhitespace("a"[0]);
    assert Walk(m, "c", 2) == "b";
    CanonicalIsEnd(m, "c", 2);
    assert m["a" := "c"] == map["a" := "c", "c" := "a"];
    SampleCycle();
  }

  /** The check as written is enough when `alias` is not yet an alias: then a successful
      registration keeps the table acyclic. */
  lemma RegisterAsWrittenFreshAliasKeepsAcyclic(m: AliasMap, name: Name, alias: Name, allowOverriding: bool)
    requires Acyclic(m) && alias !in m
    ensures RegisterAsWritten(m, name, alias, allowOverriding).Success? ==>
              Acyclic(RegisterAsWritten(m, name, alias, allowOverriding).value)
  {
    if alias == name {
      RemovePreservesAcyclic(m, alias);
    } else {
      FreshCheckAgrees(m, name, alias);
      if alias != Canonical(m, name) {
        RebindPreservesAcyclic(m, alias, name);
      }
    }
  }

  /** Without overriding, a registration as written never closes a circle: a rebinding of an
      existing alias to a different name is refused, and to the same name changes nothing. */
  lemma RegisterAsWrittenNoOverridingKeepsAcyclic(m: AliasMap, name: Name, alias: Name)
    requires Acyclic(m)
    ensures RegisterAsWritten(m, name, alias, false).Success? ==>
              Acyclic(RegisterAsWritten(m, name, alias, false).value)
  {
    if alias == name {
      RemovePreservesAcyclic(m, alias);
    } else if alias in m {
      if m[alias] == name {
        assert m[alias := name] == m;
      }
    } else {
      RegisterAsWrittenFreshAliasKeepsAcyclic(m, name, alias, false);
    }
  }

  /** In `resolveAliases`, a resolver that maps `b` to `c` rewrites the entry `a -> b` of
      `{a -> b, c -> a}` by the third branch into `a -> c`, closing a circle. */
  lemma ResolveAsWrittenMakesCycle()
    ensures Acyclic(map["a" := "b", "c" := "a"])
    ensures ResolveStepAsWritten(map["a" := "b", "c" := "a"], map["a" := "b", "c" := "a"],
                                 x => if x == "b" then "c" else x, "a")
            == Success(map["a" := "c", "c" := "a"])
    ensures !Acyclic(map["a" := "c", "c" := "a"])
  {
    var m := map["a" := "b", "c" := "a"];
    SampleAcyclic();
    assert m["a" := "c"] == map["a" := "c", "c" := "a"];
    SampleCycle();
  }

  // ---------------------------------------------------------------------------
  // The registry
  // ---------------------------------------------------------------------------

  class AliasRegistry {
    /** Map from alias to canonical name. */
    var aliasMap: AliasMap
    /** `allowAliasOverriding()`: `true` in this class, a policy subclasses may change. */
    const allowAliasOverriding: bool

    ghost predicate Valid()
      reads this
    {
      Acyclic(aliasMap)
    }

    constructor (allowOverriding: bool)
      ensures Valid() && aliasMap == map[] && allowAliasOverriding == allowOverriding
    {
      aliasMap := map[];
      allowAliasOverriding := allowOverriding;
      new;
      forall x ensures Terminates(aliasMap, x) { assert Walk(aliasMap, x, 0) !in aliasMap; }
    }

    /** `canonicalName`: follows the alias links until a name that is no alias. */
    method CanonicalName(name: Name) returns (canonical: Name)
      requires Valid()
      ensures canonical !in aliasMap && OnChain(aliasMap, name, canonical)
      ensures canonical == Canonical(aliasMap, name)
    {
      assert Terminates(aliasMap, name);
      ghost var bound: nat :| Walk(aliasMap, name, bound) !in aliasMap;
      ghost var steps := 0;
      canonical := name;
      var resolved := true;
      while resolved
        invariant steps <= bound && canonical == Walk(aliasMap, name, steps)
        invariant !resolved ==> canonical !in aliasMap
        decreases resolved, bound - steps
      {
        if canonical in aliasMap {
          if steps >= bound { WalkStable(aliasMap, name, bound, steps); }
          WalkStep(aliasMap, name, steps);
          canonical := aliasMap[canonical];
          steps := steps + 1;
        } else {
          resolved := false;
        }
      }
      CanonicalIsEnd(aliasMap, name, steps);
    }

    /** `checkForAliasCircle` as written: rejects only when `alias` is the canonical name of `name`. */
    method CheckForAliasCircleAsWritten(name: Name, alias: Name) returns (o: Outcome)
      requires Valid()
      ensures o == if alias == Canonical(aliasMap, name) then Err(IllegalState) else Ok
    {
      var canonical := CanonicalName(name);
      if alias == canonical {
        o := Err(IllegalState);
      } else {
        o := Ok;
      }
    }

    /** `checkForAliasCircle`, corrected: rejects when `alias` lies anywhere on the chain of
        `name`, which is exactly when binding `alias` to `name` would close a circle. */
    method CheckForAliasCircle(name: Name, alias: Name) returns (o: Outcome)
      requires Valid()
      ensures o == if OnChain(aliasMap, name, alias) then Err(IllegalState) else Ok
      ensures alias !in aliasMap ==> (o.Err? <==> alias == Canonical(aliasMap, name))
    {
      assert Terminates(aliasMap, name);
      ghost var bound: nat :| Walk(aliasMap, name, bound) !in aliasMap;
      ghost var steps := 0;
      var current := name;
      while current != alias && current in aliasMap
        invariant steps <= bound && current == Walk(aliasMap, name, steps)
        invariant forall k: nat :: k < steps ==> Walk(aliasMap, name, k) != alias
        decreases bound - steps
      {
        if steps >= bound { WalkStable(aliasMap, name, bound, steps); }
        WalkStep(aliasMap, name, steps);
        current := aliasMap[current];
        steps := steps + 1;
      }
      if current == alias {
        o := Err(IllegalState);
      } else {
        forall k: nat ensures Walk(aliasMap, name, k) != alias {
          if k >= steps { WalkStable(aliasMap, name, steps, k); }
        }
        o := Ok;
      }
      if alias !in aliasMap { FreshCheckAgrees(aliasMap, name, alias); }
    }

    /** `registerAlias(name, alias)`. */
    method RegisterAlias(name: Name, alias: Name) returns (o: Outcome)
      requires Valid()
      modifies this
      ensures Valid()
      ensures !HasText(name) || !HasText(alias) ==> o == Err(IllegalArgument) && aliasMap == old(aliasMap)
      ensures HasText(name) && HasText(alias) && alias == name ==> o == Ok && aliasMap == old(aliasMap) - {alias}
      ensures HasText(name) && HasText(alias) && alias != name && !allowAliasOverriding && alias in old(aliasMap) && old(aliasMap)[alias] != name ==>
                o == Err(IllegalState) && aliasMap == old(aliasMap)
      ensures HasText(name) && HasText(alias) && alias != name && (allowAliasOverriding || alias !in old(aliasMap) || old(aliasMap)[alias] == name) ==>
                if OnChain(old(aliasMap), name, alias) then o == Err(IllegalState) && aliasMap == old(aliasMap)
                else o == Ok && aliasMap == old(aliasMap)[alias := name]
    {
      if !HasText(name) || !HasText(alias) {
        return Err(IllegalArgument);
      }
      if alias == name {
        RemovePreservesAcyclic(aliasMap, alias);
        aliasMap := aliasMap - {alias};
        o := Ok;
      } else {
        if !allowAliasOverriding {
          if alias in aliasMap && aliasMap[alias] != name {
            o := Err(IllegalState);
            return;
          }
        }
        o := CheckForAliasCircle(name, alias);
        if o.Ok? {
          RebindPreservesAcyclic(aliasMap, alias, name);
          aliasMap := aliasMap[alias := name];
        }
      }
    }

    /** `resolveAliases`: rewrites every alias and name through `resolve`, visiting the
        entries of a snapshot in an unspecified order, returned as `order`. The circle checks
        are the corrected ones: the third branch, which the code runs without a check, is
        checked too. */
    method ResolveAliases(resolve: Name -> Name) returns (o: Outcome, ghost order: seq<Name>)
      requires Valid()
      modifies this
      ensures Valid()
      ensures NoDups(order) && Elems(order) <= old(aliasMap).Keys
      ensures o.Ok? ==>
                Elems(order) == old(aliasMap).Keys &&
                ResolveAll(old(aliasMap), old(aliasMap), resolve, order) == Success(aliasMap)
      ensures o.Err? ==>
                o.error == IllegalState && order != [] &&
                ResolveAll(old(aliasMap), old(aliasMap), resolve, order[..|order| - 1]) == Success(aliasMap) &&
                ResolveStep(aliasMap, old(aliasMap), resolve, order[|order| - 1]) == Failure(IllegalState)
      ensures o.Ok? ==> forall k | k in aliasMap :: ResolvedEntry(old(aliasMap), resolve, k, aliasMap[k])
    {
      var aliasCopy := aliasMap;
      var pending := aliasCopy.Keys;
      order := [];
      while pending != {}
        invariant Valid() && pending <= aliasCopy.Keys
        invariant forall k | k in aliasMap ::
                    (k in pending && aliasMap[k] == aliasCopy[k]) || ResolvedEntry(aliasCopy, resolve, k, aliasMap[k])
        invariant NoDups(order) && Elems(order) == aliasCopy.Keys - pending
        invariant ResolveAll(aliasCopy, aliasCopy, resolve, order) == Success(aliasMap)
        decreases pending
      {
        var alias :| alias in pending;
        pending := pending - {alias};
        ghost var before, done := aliasMap, order;
        order := Insert(done, alias);
        assert order == done + [alias] && order[..|order| - 1] == done;
        var registeredName := aliasCopy[alias];
        var resolvedAlias := resolve(alias);
        var resolvedName := resolve(registeredName);
        assert ResolvedEntry(aliasCopy, resolve, resolvedAlias, resolvedName);
        if resolvedAlias == resolvedName {
          aliasMap := aliasMap - {alias};
        } else if resolvedAlias != alias {
          if resolvedAlias in aliasMap && aliasMap[resolvedAlias] != resolvedName {
            o := Err(IllegalState);
            return;
          }
          o := CheckForAliasCircle(resolvedName, resolvedAlias);
          if o.Err? {
            return;
          }
          aliasMap := (aliasMap - {alias})[resolvedAlias := resolvedName];
        } else if registeredName != resolvedName {
          o := CheckForAliasCircle(resolvedName, alias);
          if o.Err? {
            return;
          }
          aliasMap := aliasMap[alias := resolvedName];
        }
        assert ResolveStep(before, aliasCopy, resolve, alias) == Success(aliasMap);
        ResolveStepKeepsAcyclic(before, aliasCopy, resolve, alias);
      }
      o := Ok;
    }

    /** `removeAlias`. */
    method RemoveAlias(alias: Name) returns (o: Outcome)
      requires Valid()
      modifies this
      ensures Valid()
      ensures alias in old(aliasMap) ==> o == Ok && aliasMap == old(aliasMap) - {alias}
      ensures alias !in old(aliasMap) ==> o == Err(IllegalState) && aliasMap == old(aliasMap)
    {
      if alias in aliasMap {
        RemovePreservesAcyclic(aliasMap, alias);
        aliasMap := aliasMap - {alias};
        o := Ok;
      } else {
        o := Err(IllegalState);
      }
    }

    /** `isAlias`. */
    method IsAlias(name: Name) returns (b: bool)
      ensures b <==> name in aliasMap
    {
      b := name in aliasMap;
    }

    /** `getAliases`: every alias of `name`, direct or transitive, each once. */
    method GetAliases(name: Name) returns (result: seq<Name>)
      requires Valid()
      ensures NoDups(result) && Elems(result) == AliasesOf(aliasMap, name)
    {
      result := RetrieveAliases(name, []);
    }

    /** `retrieveAliases`: appends the aliases of `name` to `result`, depth first. The
        entries of the map are visited in an unspecified order, as a hash map does. */
    method RetrieveAliases(name: Name, acc: seq<Name>) returns (result: seq<Name>)
      requires Valid()
      requires NoDups(acc) && Elems(acc) !! AliasesOf(aliasMap, name)
      ensures NoDups(result) && Elems(result) == Elems(acc) + AliasesOf(aliasMap, name)
      ensures |acc| <= |result| && result[..|acc|] == acc
      decreases AliasesOf(aliasMap, name)
    {
      var m := aliasMap;
      result := acc;
      var entries := m.Keys;
      while entries != {}
        invariant entries <= m.Keys
        invariant NoDups(result) && |acc| <= |result| && result[..|acc|] == acc
        invariant forall k :: k in result <==> k in acc || InBranches(m, name, k, m.Keys - entries)
        decreases entries
      {
        var alias :| alias in entries;
        entries := entries - {alias};
        if m[alias] == name {
          AliasesShrink(m, name, alias);
          ghost var before := result;
          forall k | k in AliasesOf(m, alias) + {alias}
            ensures k !in before
          {
            AliasesDecompose(m, name, k);
            if k in before && k !in acc {
              var c :| c in m.Keys - entries - {alias} && c in m && m[c] == name && (k == c || k in AliasesOf(m, c));
              if k == alias {
                NotOnOwnChain(m, name, c);
                assert false;
              } else if k == c {
                NotOnOwnChain(m, name, c);
                assert false;
              } else {
                BranchesDisjoint(m, name, alias, c, k);
                assert false;
              }
            }
          }
          result := result + [alias];
          result := RetrieveAliases(alias, result);
        }
        forall k ensures k in result <==> k in acc || InBranches(m, name, k, m.Keys - entries) {
          if k in result && k !in acc && !InBranches(m, name, k, m.Keys - entries - {alias}) {
            assert k == alias || k in AliasesOf(m, alias);
          }
        }
      }
      forall k ensures k in AliasesOf(m, name) <==> InBranches(m, name, k, m.Keys) {
        AliasesDecompose(m, name, k);
      }
    }
  }
}
