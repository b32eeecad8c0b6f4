/** The registry of installed modules, by identifier and by name
    (workspace/src/framework/impl/module/module_registry.cpp:19-176, 202-212). */
module ModuleRegistries {
  import opened Wrappers
  import opened Versions
  import opened Graphs

  datatype RegistrationError = NullModule | AlreadyRegistered(id: nat)

  class Module {
    const id: nat
    const symbolicName: string
    const version: Version

    constructor (id: nat, symbolicName: string, version: Version)
      ensures this.id == id && this.symbolicName == symbolicName && this.version == version
    {
      this.id, this.symbolicName, this.version := id, symbolicName, version;
    }
  }

  /** Highest version first; modules of one version in any order. */
  ghost predicate Sorted(s: seq<Module>) {
    forall i, j :: 0 <= i < j < |s| ==> AtMost(s[j].version, s[i].version)
  }

  // ---------------------------------------------------------------------------------------------
  // The reference: a scan of all modules by identifier
  // ---------------------------------------------------------------------------------------------

  predicate Compatible(m: Module, name: string, range: VersionRange) {
    m.symbolicName == name && Includes(range, m.version)
  }

  ghost predicate Candidate(modules: map<nat, Module>, m: Module, name: string, range: VersionRange) {
    m.id in modules && modules[m.id] == m && Compatible(m, name, range)
  }

  /** `m` is a compatible module of the highest version. */
  ghost predicate Best(modules: map<nat, Module>, m: Module, name: string, range: VersionRange) {
    && Candidate(modules, m, name, range)
    && forall id :: id in modules && Compatible(modules[id], name, range) ==> AtMost(modules[id].version, m.version)
  }

  /** All best modules have one version, so the order among equal versions does not show in it. */
  lemma BestVersionIsUnique(modules: map<nat, Module>, a: Module, b: Module, name: string, range: VersionRange)
    requires Best(modules, a, name, range) && Best(modules, b, name, range)
    ensures a.version == b.version
  {
    OrderIsAntisymmetric(a.version, b.version);
  }

  // ---------------------------------------------------------------------------------------------
  // Sorted lists
  // ---------------------------------------------------------------------------------------------

  /** Where the first module of a lower version stands. */
  method Position(s: seq<Module>, m: Module) returns (k: nat)
    requires Sorted(s)
    ensures k <= |s|
    ensures forall i :: 0 <= i < k ==> AtMost(m.version, s[i].version)
    ensures forall i :: k <= i < |s| ==> AtMost(s[i].version, m.version)
  {
    k := 0;
    while k < |s| && Compare(s[k].version, m.version) >= 0
      invariant 0 <= k <= |s|
      invariant forall i :: 0 <= i < k ==> AtMost(m.version, s[i].version)
    {
      OrderIsAntisymmetric(s[k].version, m.version);
      k := k + 1;
    }
    forall i | k <= i < |s|
      ensures AtMost(s[i].version, m.version)
    {
      if k < i {
        OrderIsTransitive(s[i].version, s[k].version, m.version);
      }
    }
  }

  lemma InsertionKeepsSorted(s: seq<Module>, m: Module, k: nat)
    requires Sorted(s) && k <= |s|
    requires forall i :: 0 <= i < k ==> AtMost(m.version, s[i].version)
    requires forall i :: k <= i < |s| ==> AtMost(s[i].version, m.version)
    ensures Sorted(s[..k] + [m] + s[k..])
    ensures multiset(s[..k] + [m] + s[k..]) == multiset(s) + multiset{m}
  {
    hide AtMost;
    assert s == s[..k] + s[k..];
  }

  /** std::sort: some sorted permutation.  Callers may rely on nothing else. */
  method SortByVersion(s: seq<Module>) returns (t: seq<Module>)
    ensures Sorted(t) && multiset(t) == multiset(s)
  {
    t := [];
    var i := 0;
    while i < |s|
      invariant 0 <= i <= |s| && Sorted(t) && multiset(t) == multiset(s[..i])
    {
      var k := Position(t, s[i]);
      InsertionKeepsSorted(t, s[i], k);
      assert s[..i + 1] == s[..i] + [s[i]];
      t := t[..k] + [s[i]] + t[k..];
      i := i + 1;
    }
    assert s[..i] == s;
  }

  lemma PermutationKeepsElements(s: seq<Module>, t: seq<Module>)
    requires multiset(s) == multiset(t)
    ensures |s| == |t|
    ensures forall x :: x in s <==> x in t
    ensures Distinct(s) <==> Distinct(t)
  {
    assert |multiset(s)| == |multiset(t)|;
    forall x
      ensures x in s <==> x in t
    {
      assert x in s <==> x in multiset(s);
      assert x in t <==> x in multiset(t);
    }
    DistinctByCount(s);
    DistinctByCount(t);
  }

  lemma {:induction false} DistinctByCount(s: seq<Module>)
    ensures Distinct(s) <==> forall x :: x in s ==> multiset(s)[x] == 1
  {
    if s != [] {
      var front, last := s[..|s| - 1], s[|s| - 1];
      DistinctByCount(front);
      assert s == front + [last];
      assert multiset(s) == multiset(front) + multiset{last};
      assert forall x :: x in s <==> x in front || x == last;
      if last in front {
        assert multiset(s)[last] >= 2 && last in s;
        var i :| 0 <= i < |front| && front[i] == last;
        assert s[i] == s[|s| - 1];
      } else {
        assert multiset(s)[last] == 1;
        assert forall x :: x in front ==> multiset(s)[x] == multiset(front)[x];
        assert Distinct(s) <==> Distinct(front) by {
          assert forall i :: 0 <= i < |front| ==> s[i] == front[i] && front[i] in front;
        }
      }
    }
  }

  /** std::remove and erase. */
  method Removed(s: seq<Module>, m: Module) returns (t: seq<Module>)
    ensures forall x :: x in t <==> x in s && x != m
    ensures Sorted(s) ==> Sorted(t)
    ensures Distinct(s) ==> Distinct(t)
  {
    t := [];
    ghost var at: seq<nat> := [];
    var i := 0;
    while i < |s|
      invariant 0 <= i <= |s| && |at| == |t|
      invariant forall x :: x in t <==> x in s[..i] && x != m
      invariant forall k :: 0 <= k < |t| ==> at[k] < i && t[k] == s[at[k]]
      invariant forall j, k :: 0 <= j < k < |t| ==> at[j] < at[k]
    {
      assert s[..i + 1] == s[..i] + [s[i]];
      if s[i] != m {
        t, at := t + [s[i]], at + [i];
      }
      i := i + 1;
    }
    assert s[..i] == s;
    SubsequenceKeepsOrder(s, t, at);
  }

  lemma SubsequenceKeepsOrder(s: seq<Module>, t: seq<Module>, at: seq<nat>)
    requires |at| == |t|
    requires forall k :: 0 <= k < |t| ==> at[k] < |s| && t[k] == s[at[k]]
    requires forall j, k :: 0 <= j < k < |t| ==> at[j] < at[k]
    ensures Sorted(s) ==> Sorted(t)
    ensures Distinct(s) ==> Distinct(t)
  {
    hide AtMost;
  }

  // ---------------------------------------------------------------------------------------------
  // The registry
  // ---------------------------------------------------------------------------------------------

  class ModuleRegistry {
    var modulesById: map<nat, Module>
    var modulesByName: map<string, seq<Module>>
    var nextModuleId: nat

    /** The list kept under `name` is sorted, names each module once, and holds the modules of that name. */
    ghost predicate ListValid(name: string)
      requires name in modulesByName
      reads this
    {
      var list := modulesByName[name];
      && list != [] && Sorted(list) && Distinct(list)
      && forall m :: m in list ==> m.symbolicName == name && m.id in modulesById && modulesById[m.id] == m
    }

    ghost predicate Listed(id: nat)
      requires id in modulesById
      reads this
    {
      var m := modulesById[id];
      m.id == id && m.symbolicName in modulesByName && m in modulesByName[m.symbolicName]
    }

    ghost predicate Valid()
      reads this
    {
      && (forall name :: name in modulesByName ==> ListValid(name))
      && (forall id :: id in modulesById ==> Listed(id))
    }

    /** Both indexes describe the same modules: a name is kept exactly while a module has it, with each module
        of that name once and the highest version first. */
    lemma IndexesAgree(name: string)
      requires Valid()
      ensures name in modulesByName <==> exists id :: id in modulesById && modulesById[id].symbolicName == name
      ensures name in modulesByName ==>
                var list := modulesByName[name];
                && (forall m: Module :: m in list <==> m.id in modulesById && modulesById[m.id] == m && m.symbolicName == name)
                && (forall i, j :: 0 <= i < j < |list| ==> list[i] != list[j] && AtMost(list[j].version, list[i].version))
    {
      hide AtMost;
      if name in modulesByName {
        assert ListValid(name);
        assert modulesByName[name][0] in modulesByName[name];
      }
      forall id | id in modulesById && modulesById[id].symbolicName == name
        ensures name in modulesByName && modulesById[id] in modulesByName[name]
      {
        assert Listed(id);
      }
    }

    constructor ()
      ensures Valid() && modulesById == map[] && nextModuleId == 1
    {
      modulesById, modulesByName, nextModuleId := map[], map[], 1;
    }

    method GenerateModuleId() returns (id: nat)
      modifies this`nextModuleId
      ensures id == old(nextModuleId) && nextModuleId == id + 1
    {
      id := nextModuleId;
      nextModuleId := nextModuleId + 1;
    }

    method RegisterModule(m: Module?) returns (r: Outcome<RegistrationError>)
      requires Valid()
      modifies this`modulesById, this`modulesByName
      ensures Valid()
      ensures r == if m == null then Fail(NullModule)
                   else if m.id in old(modulesById) then Fail(AlreadyRegistered(m.id)) else Pass
      ensures modulesById == if r.Pass? then old(modulesById)[m.id := m] else old(modulesById)
      ensures r.Fail? ==> modulesByName == old(modulesByName)
    {
      if m == null {
        return Fail(NullModule);
      }
      if m.id in modulesById {
        return Fail(AlreadyRegistered(m.id));
      }
      modulesById := modulesById[m.id := m];
      var name := m.symbolicName;
      var list := (if name in modulesByName then modulesByName[name] else []) + [m];
      var sorted := SortByVersion(list);
      modulesByName := modulesByName[name := sorted];
      PermutationKeepsElements(sorted, list);
      return Pass;
    }

    method UnregisterModule(id: nat) returns (known: bool)
      requires Valid()
      modifies this`modulesById, this`modulesByName
      ensures Valid()
      ensures known <==> id in old(modulesById)
      ensures modulesById == old(modulesById) - {id}
      ensures !known ==> modulesByName == old(modulesByName)
    {
      if id !in modulesById {
        return false;
      }
      var m := modulesById[id];
      var name := m.symbolicName;
      assert Listed(id) && ListValid(name);
      modulesById := modulesById - {id};
      var list := Removed(modulesByName[name], m);
      if list == [] {
        modulesByName := modulesByName - {name};
      } else {
        modulesByName := modulesByName[name := list];
      }
      return true;
    }

    /** The best of all registered modules, exactly when one is compatible. */
    method FindCompatibleModule(name: string, range: VersionRange) returns (m: Module?)
      requires Valid()
      ensures m == null <==> forall id :: id in modulesById ==> !Compatible(modulesById[id], name, range)
      ensures m != null ==> Best(modulesById, m, name, range)
    {
      if name !in modulesByName {
        return null;
      }
      var list := modulesByName[name];
      assert ListValid(name);
      var i := 0;
      while i < |list|
        invariant 0 <= i <= |list|
        invariant forall j :: 0 <= j < i ==> !Includes(range, list[j].version)
      {
        if Includes(range, list[i].version) {
          FirstMatchIsBest(name, range, i);
          return list[i];
        }
        i := i + 1;
      }
      return null;
    }

    lemma FirstMatchIsBest(name: string, range: VersionRange, i: nat)
      requires Valid() && name in modulesByName && i < |modulesByName[name]|
      requires Includes(range, modulesByName[name][i].version)
      requires forall j :: 0 <= j < i ==> !Includes(range, modulesByName[name][j].version)
      ensures Best(modulesById, modulesByName[name][i], name, range)
    {
      hide Includes, Compare;
      var list := modulesByName[name];
      assert ListValid(name) && list[i] in list;
      OrderIsAntisymmetric(list[i].version, list[i].version);
      forall id | id in modulesById && Compatible(modulesById[id], name, range)
        ensures AtMost(modulesById[id].version, list[i].version)
      {
        assert Listed(id);
      }
    }

    /** All compatible modules, each once, highest version first. */
    method FindCompatibleModules(name: string, range: VersionRange) returns (matching: seq<Module>)
      requires Valid()
      ensures forall m :: m in matching <==> Candidate(modulesById, m, name, range)
      ensures Sorted(matching) && Distinct(matching)
    {
      matching := [];
      if name !in modulesByName {
        assert forall id :: id in modulesById ==> Listed(id);
        return;
      }
      var list := modulesByName[name];
      assert ListValid(name);
      ghost var at: seq<nat> := [];
      var i := 0;
      while i < |list|
        invariant 0 <= i <= |list| && |at| == |matching|
        invariant forall m :: m in matching <==> m in list[..i] && Includes(range, m.version)
        invariant forall k :: 0 <= k < |matching| ==> at[k] < i && matching[k] == list[at[k]]
        invariant forall j, k :: 0 <= j < k < |matching| ==> at[j] < at[k]
      {
        assert list[..i + 1] == list[..i] + [list[i]];
        if Includes(range, list[i].version) {
          matching, at := matching + [list[i]], at + [i];
        }
        i := i + 1;
      }
      assert list[..i] == list;
      SubsequenceKeepsOrder(list, matching, at);
    }

    /** The highest version of a name. */
    method GetModule(name: string) returns (m: Module?)
      requires Valid()
      ensures m == null <==> forall id :: id in modulesById ==> modulesById[id].symbolicName != name
      ensures m != null ==> m.id in modulesById && modulesById[m.id] == m && m.symbolicName == name
      ensures m != null ==> forall id :: id in modulesById && modulesById[id].symbolicName == name ==>
                              AtMost(modulesById[id].version, m.version)
    {
      if name in modulesByName && modulesByName[name] != [] {
        m := modulesByName[name][0];
        assert ListValid(name) && m in modulesByName[name];
        HeadIsHighest(name);
      } else {
        m := null;
      }
    }

    lemma HeadIsHighest(name: string)
      requires Valid() && name in modulesByName && modulesByName[name] != []
      ensures forall id :: id in modulesById && modulesById[id].symbolicName == name ==>
                AtMost(modulesById[id].version, modulesByName[name][0].version)
    {
      hide Compare;
      assert ListValid(name);
      OrderIsAntisymmetric(modulesByName[name][0].version, modulesByName[name][0].version);
      forall id | id in modulesById && modulesById[id].symbolicName == name
        ensures AtMost(modulesById[id].version, modulesByName[name][0].version)
      {
        assert Listed(id);
      }
    }

    /** A module of exactly that version, if there is one. */
    method GetModuleVersion(name: string, version: Version) returns (m: Module?)
      requires Valid()
      ensures m == null <==> forall id :: id in modulesById ==> !(modulesById[id].symbolicName == name && modulesById[id].version == version)
      ensures m != null ==> m.id in modulesById && modulesById[m.id] == m && m.symbolicName == name && m.version == version
    {
      if name !in modulesByName {
        return null;
      }
      var list := modulesByName[name];
      assert ListValid(name);
      var i := 0;
      while i < |list|
        invariant 0 <= i <= |list|
        invariant forall j :: 0 <= j < i ==> list[j].version != version
      {
        OrderIsAntisymmetric(list[i].version, version);
        if Compare(list[i].version, version) == 0 {
          assert list[i] in list;
          return list[i];
        }
        i := i + 1;
      }
      return null;
    }
  }
}
