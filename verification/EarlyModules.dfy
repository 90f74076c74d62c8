/** Loading the listed kernel modules and their dependencies before the root is switched. */
module EarlyModules {
  import opened Common

  type Name = string

  /** A path on a line of modules.dep, and the module name in it, if it has one. */
  datatype Dep = Dep(path: string, name: Option<Name>)

  /** A line of modules.dep: everything the module needs, in the reverse of the order of loading. */
  datatype ModEntry = ModEntry(path: string, deps: seq<Dep>)

  type ModulesDep = map<Name, ModEntry>

  ghost function NamesFrom(deps: seq<Dep>, i: nat): set<Name>
    requires i <= |deps|
  {
    set j | i <= j < |deps| && deps[j].name.Some? :: deps[j].name.value
  }

  /** What a module needs, according to its own line. */
  ghost function Needs(all: ModulesDep, name: Name): set<Name> {
    if name in all then NamesFrom(all[name].deps, 0) else {}
  }

  /** As depmod writes it: every dependency has a line, and what it needs stands behind it. */
  ghost predicate Consistent(all: ModulesDep) {
    forall m, i :: m in all && 0 <= i < |all[m].deps| ==>
      var dep := all[m].deps[i];
      && dep.name.Some? && dep.name.value in all
      && Needs(all, dep.name.value) <= NamesFrom(all[m].deps, i + 1)
  }

  lemma {:induction false} NotBehindItself(all: ModulesDep, m: Name, i: nat)
    requires Consistent(all) && m in all && i <= |all[m].deps|
    ensures m !in NamesFrom(all[m].deps, i)
    decreases |all[m].deps| - i
  {
    if i < |all[m].deps| {
      NotBehindItself(all, m, i + 1);
      var deps := all[m].deps;
      assert Needs(all, m) == NamesFrom(deps, 0);
      assert deps[i].name.value in NamesFrom(deps, 0) && Needs(all, deps[i].name.value) <= NamesFrom(deps, i + 1);
      assert NamesFrom(deps, i) == NamesFrom(deps, i + 1) + {deps[i].name.value};
    }
  }

  lemma NothingNeedsItself(all: ModulesDep, m: Name)
    requires Consistent(all)
    ensures m !in Needs(all, m)
  {
    if m in all {
      NotBehindItself(all, m, 0);
    }
  }

  /** The dependency at i is needed and, in a consistent file, has all that it needs behind it. */
  lemma DependencyAt(all: ModulesDep, m: Name, i: nat)
    requires m in all && i < |all[m].deps|
    ensures var dep := all[m].deps[i];
            && (dep.name.Some? ==>
                  && dep.name.value in Needs(all, m)
                  && NamesFrom(all[m].deps, i) == NamesFrom(all[m].deps, i + 1) + {dep.name.value})
            && (Consistent(all) ==>
                  && dep.name.Some? && dep.name.value in all && dep.name.value != m
                  && Needs(all, dep.name.value) <= NamesFrom(all[m].deps, i + 1))
  {
    if Consistent(all) {
      NotBehindItself(all, m, i);
    }
  }

  lemma NeedsAreWanted(all: ModulesDep, listed: set<Name>, m: Name)
    requires m in listed
    ensures Wanted(all, listed, m) && forall n :: n in Needs(all, m) ==> Wanted(all, listed, n)
  {
  }

  lemma AllNames(all: ModulesDep, m: Name)
    requires m in all
    ensures Needs(all, m) == NamesFrom(all[m].deps, 0)
    ensures NamesFrom(all[m].deps, |all[m].deps|) == {}
  {
  }

  /** A call of the loader and the modules that were present when it was made. */
  datatype LoadCall = LoadCall(name: Name, present: set<Name>)

  datatype LoadResult = Loaded | AlreadyLoaded | Refused

  class Kernel {
    const builtin: set<Name>
    // The modules that sysfs shows as loaded.
    var live: set<Name>
    ghost var calls: seq<LoadCall>
    // The modules whose file could not be opened, or which the kernel refused.
    ghost var failed: set<Name>

    ghost function Present(): set<Name>
      reads this
    {
      builtin + live
    }

    method OpenFile(name: Name) returns (ok: bool)
      modifies this`failed
      ensures failed == old(failed) + if ok then {} else {name}
    {
      ok := *;
      if !ok {
        failed := failed + {name};
      }
    }

    method Load(name: Name) returns (r: LoadResult)
      modifies this
      ensures calls == old(calls) + [LoadCall(name, old(Present()))]
      ensures live == if r.Refused? then old(live) else old(live) + {name}
      ensures failed == old(failed) + if r.Refused? then {name} else {}
    {
      calls := calls + [LoadCall(name, Present())];
      var refused: bool := *;
      if refused {
        failed := failed + {name};
        return Refused;
      }
      var existed: bool := *;
      live := live + {name};
      r := if existed then AlreadyLoaded else Loaded;
    }
  }

  ghost predicate CalledAtMostOnce(calls: seq<LoadCall>) {
    forall i, j :: 0 <= i < j < |calls| ==> calls[i].name != calls[j].name
  }

  /** Only modules that are listed, or needed by a listed one, are loaded, and only while they are not present. */
  ghost predicate CalledForAReason(all: ModulesDep, listed: set<Name>, calls: seq<LoadCall>) {
    forall i :: 0 <= i < |calls| ==> calls[i].name !in calls[i].present && Wanted(all, listed, calls[i].name)
  }

  ghost predicate Wanted(all: ModulesDep, listed: set<Name>, name: Name) {
    name in listed || exists m :: m in listed && name in Needs(all, m)
  }

  /** Every module was handed to the kernel after everything it needs. */
  ghost predicate NeedsWerePresent(all: ModulesDep, calls: seq<LoadCall>) {
    forall i :: 0 <= i < |calls| ==> Needs(all, calls[i].name) <= calls[i].present
  }

  ghost predicate StopsLoading(dep: Dep, failed: set<Name>) {
    dep.name.None? || dep.name.value in failed
  }

  /** Why a module is missing: it has no line, it failed itself, or something on its line has no name or failed. */
  ghost predicate Blocked(all: ModulesDep, failed: set<Name>, name: Name) {
    name in all ==>
      name in failed || exists i :: 0 <= i < |all[name].deps| && StopsLoading(all[name].deps[i], failed)
  }

  class Session {
    const kernel: Kernel
    // The lines of the listed modules.
    const deps: map<Name, ModEntry>
    ghost const all: ModulesDep
    ghost const listed: set<Name>
    // Modules whose fate is known: true for those in the kernel.
    var outcome: map<Name, bool>

    constructor (kernel: Kernel, deps: map<Name, ModEntry>, ghost all: ModulesDep, ghost listed: set<Name>)
      requires deps == map n | n in all && n in listed :: all[n]
      requires kernel.calls == [] && kernel.failed == {}
      ensures this.kernel == kernel && this.deps == deps && this.all == all && this.listed == listed
      ensures outcome == map[] && Valid()
    {
      this.kernel, this.deps, this.all, this.listed := kernel, deps, all, listed;
      outcome := map[];
    }

    ghost predicate Valid()
      reads this, kernel
    {
      && deps == (map n | n in all && n in listed :: all[n])
      && (forall n :: n in outcome ==> (outcome[n] <==> n in kernel.Present()))
      && (forall i :: 0 <= i < |kernel.calls| ==> kernel.calls[i].name in outcome)
      && CalledAtMostOnce(kernel.calls)
      && CalledForAReason(all, listed, kernel.calls)
      && (Consistent(all) ==> NeedsWerePresent(all, kernel.calls))
      && (forall n :: n in kernel.failed <==> n in outcome && !outcome[n])
    }

    /** The outcome of the module is known to be bad, or that of something it needs, or nothing can load it. */
    ghost predicate Stuck(name: Name)
      reads this
    {
      || (name in outcome && !outcome[name])
      || name !in all
      || exists n :: n in Needs(all, name) && n in outcome && !outcome[n]
    }

    ghost predicate AllLoaded(names: set<Name>)
      reads this
    {
      forall n :: n in names ==> n in outcome && outcome[n]
    }

    /** The session only learns, and no stuck module appears. */
    twostate predicate Progress()
      reads this, kernel
    {
      && (forall n :: n in old(outcome) ==> n in outcome && outcome[n] == old(outcome[n]))
      && old(kernel.live) <= kernel.live && old(kernel.failed) <= kernel.failed
      && (Consistent(all) ==> forall n :: n in kernel.live && n !in old(kernel.live) ==> !old(Stuck(n)))
    }

    method IsPresent(name: Name) returns (r: bool)
      ensures r <==> name in kernel.Present()
    {
      r := name in kernel.builtin || name in kernel.live;
    }

    method Finit(name: Name) returns (ok: bool)
      modifies kernel
      ensures kernel.live == if ok then old(kernel.live) + {name} else old(kernel.live)
      ensures || kernel.calls == old(kernel.calls)
              || kernel.calls == old(kernel.calls) + [LoadCall(name, old(kernel.Present()))]
      ensures kernel.failed == old(kernel.failed) + if ok then {} else {name}
    {
      var readable := kernel.OpenFile(name);
      if !readable {
        return false;
      }
      var r := kernel.Load(name);
      ok := !r.Refused?;
    }

    method LoadOne(name: Name) returns (ok: bool)
      requires Valid()
      requires Consistent(all) ==> name in all && AllLoaded(Needs(all, name))
      requires Wanted(all, listed, name)
      modifies this, kernel
      ensures Valid() && Progress()
      ensures outcome == old(outcome)[name := ok] && kernel.live <= old(kernel.live) + {name}
    {
      if name in outcome {
        return outcome[name];
      }
      ok := IsPresent(name);
      if !ok {
        ok := Finit(name);
      }
      outcome := outcome[name := ok];
    }

    /** What the line of a listed module names, the last one first, up to one that does not load. */
    method LoadNeeds(name: Name) returns (ok: bool)
      requires Valid() && name in listed && name in deps
      requires name !in outcome && name !in kernel.Present()
      modifies this, kernel
      ensures Valid() && Progress()
      ensures ok ==> AllLoaded(Needs(all, name))
      ensures Consistent(all) ==> name !in outcome && name !in kernel.Present()
      ensures Consistent(all) && !ok ==> Stuck(name)
      ensures !ok ==> exists i :: 0 <= i < |all[name].deps| && StopsLoading(all[name].deps[i], kernel.failed)
    {
      hide NeedsWerePresent, CalledAtMostOnce, CalledForAReason, Consistent, Needs, NamesFrom, Wanted;
      NeedsAreWanted(all, listed, name);
      var entry := deps[name];
      var i := |entry.deps|;
      AllNames(all, name);
      while i > 0
        invariant 0 <= i <= |entry.deps|
        invariant Valid() && Progress()
        invariant AllLoaded(NamesFrom(entry.deps, i))
        invariant Consistent(all) ==> name !in outcome && name !in kernel.Present()
      {
        i := i - 1;
        DependencyAt(all, name, i);
        var dep := entry.deps[i];
        if dep.name.None? {
          return false;
        }
        var loaded := LoadOne(dep.name.value);
        if !loaded {
          return false;
        }
      }
      ok := true;
    }

    method LoadListed(name: Name) returns (ok: bool)
      requires Valid() && name in listed
      modifies this, kernel
      ensures Valid() && Progress()
      ensures ok ==> name in kernel.Present() && name in outcome && outcome[name]
      ensures Consistent(all) && !ok ==> name !in kernel.Present() && Stuck(name)
      ensures !ok ==> Blocked(all, kernel.failed, name)
    {
      hide NeedsWerePresent, CalledAtMostOnce, CalledForAReason, Consistent, Needs, NamesFrom, Wanted;
      NeedsAreWanted(all, listed, name);
      if name in outcome {
        return outcome[name];
      }
      var present := IsPresent(name);
      if present {
        outcome := outcome[name := true];
        return true;
      }
      if name !in deps {
        return false;
      }
      var prepared := LoadNeeds(name);
      if !prepared {
        return false;
      }
      ok := LoadOne(name);
    }
  }

  /** The listed modules that are not in `present`, in their order. */
  function Missing(listed: seq<Name>, present: set<Name>): (missing: seq<Name>)
    ensures forall n :: n in missing <==> n in listed && n !in present
  {
    if listed == [] then []
    else
      var rest := Missing(listed[..|listed| - 1], present);
      if listed[|listed| - 1] in present then rest else rest + [listed[|listed| - 1]]
  }

  lemma {:induction false} SameMissing(listed: seq<Name>, present: set<Name>, present': set<Name>)
    requires forall n :: n in listed ==> (n in present <==> n in present')
    ensures Missing(listed, present) == Missing(listed, present')
  {
    if listed != [] {
      SameMissing(listed[..|listed| - 1], present, present');
    }
  }

  lemma NoCallsYet(all: ModulesDep, listed: set<Name>)
    ensures CalledAtMostOnce([]) && CalledForAReason(all, listed, []) && NeedsWerePresent(all, [])
  {
  }

  /** The filter by what sysfs shows as loaded. */
  method NotLoaded(kernel: Kernel, entries: seq<Name>) returns (failed: seq<Name>)
    ensures failed == Missing(entries, kernel.live)
  {
    failed := [];
    for k := 0 to |entries|
      invariant failed == Missing(entries[..k], kernel.live)
    {
      assert entries[..k + 1][..k] == entries[..k];
      if entries[k] !in kernel.live {
        failed := failed + [entries[k]];
      }
    }
    assert entries[..|entries|] == entries;
  }

  /**
   The whole session. `prepared` tells that the kernel release and the module lists could be
   read and the firmware path could be written.
   */
  method LoadWith(kernel: Kernel, entries: seq<Name>, all: ModulesDep, prepared: bool) returns (failed: seq<Name>)
    requires kernel.calls == [] && kernel.failed == {}
    modifies kernel
    ensures old(kernel.Present()) <= kernel.Present()
    ensures CalledAtMostOnce(kernel.calls)
    ensures Consistent(all) ==> NeedsWerePresent(all, kernel.calls)
    ensures prepared && Consistent(all) ==> failed == Missing(entries, kernel.Present())
    ensures CalledForAReason(all, (set n | n in entries), kernel.calls)
    ensures prepared ==> forall n :: n in failed ==> Blocked(all, kernel.failed, n)
    ensures prepared && Consistent(all) && kernel.failed == {} ==> forall n :: n in failed ==> n !in all
    ensures forall n :: n in entries && n !in failed ==> n in kernel.Present()
    ensures !prepared ==> failed == Missing(entries, kernel.live) && kernel.calls == []
  {
    failed := [];
    if entries == [] {
      return;
    }
    NoCallsYet(all, (set n | n in entries));
    hide NeedsWerePresent, CalledAtMostOnce, CalledForAReason, Consistent, Needs;
    if !prepared {
      failed := NotLoaded(kernel, entries);
      return;
    }
    var listed := set n | n in entries;
    var deps := map n | n in all && n in listed :: all[n];
    var session := new Session(kernel, deps, all, listed);
    var k := 0;
    while k < |entries|
      invariant 0 <= k <= |entries|
      invariant fresh(session) && session.kernel == kernel && session.all == all && session.listed == listed
      invariant session.Valid() && old(kernel.Present()) <= kernel.Present()
      invariant forall n :: n in entries[..k] && n !in failed ==> n in kernel.Present()
      invariant Consistent(all) ==> failed == Missing(entries[..k], kernel.Present())
      invariant Consistent(all) ==> forall n :: n in failed ==> session.Stuck(n)
      invariant forall n :: n in failed ==> Blocked(all, kernel.failed, n)
    {
      ghost var before := kernel.Present();
      var ok := session.LoadListed(entries[k]);
      assert entries[..k + 1][..k] == entries[..k];
      if Consistent(all) {
        SameMissing(entries[..k], before, kernel.Present());
      }
      if !ok {
        failed := failed + [entries[k]];
      }
      k := k + 1;
    }
    assert entries[..k] == entries;
  }
}
