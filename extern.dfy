/** The vendored-package meta path importer of pkg_resources/extern: names under
    `<root_name>.` that begin with one of the vendored names are resolved first
    inside the vendor package and then as naturally installed packages, and the
    module found is aliased under the requested name in the module registry. */
module Extern {
  import opened Wrappers
  import opened Text

  /** A module object; `id` stands for its identity. */
  datatype Module = Module(id: nat)

  /** What `load_module` raises: `ImportError` when no candidate imports, or the
      `ValueError` of the host's `__import__("")`, which it does not catch. */
  datatype LoadError = ImportError(message: string) | ValueError(message: string)

  /** The outcome of `__import__(name)` followed by `sys.modules[name]`: the
      module, an `ImportError`, or the `ValueError` an empty name raises. */
  datatype Imported = Imported(m: Module) | NotFound | EmptyName

  /** The first candidate that imports, all of them failing with `ImportError`,
      or an empty candidate name reached first. */
  datatype Resolution = Found(extant: string, m: Module) | Exhausted | EmptyCandidate

  const EmptyNameMessage := "Empty module name"

  /** What `importlib.util.spec_from_loader(name, loader)` records that matters here. */
  datatype ModuleSpec = ModuleSpec(name: string, loader: VendorImporter)

  const MessageHead := "The '"
  const MessageTail := "' package is required; normally this is bundled with this package so if you get this warning, consult the packager of your distribution."

  /** The text of the exhaustion error; it names the missing target. */
  function RequiredMessage(target: string): (m: string)
    ensures OccursAt(m, target, |MessageHead|)
    ensures StartsWith(m, MessageHead)
  {
    var m := MessageHead + target + MessageTail;
    assert m[..|MessageHead|] == MessageHead;
    assert m[|MessageHead|..|MessageHead| + |target|] == target;
    m
  }

  /** `vendor_pkg or root_name.replace('extern', '_vendor')`: an absent or empty
      vendor package is derived from the root name. */
  function VendorPackage(rootName: string, given: Option<string>): string
  {
    if given.Some? && given.value != "" then given.value
    else Replace(rootName, "extern", "_vendor")
  }

  /** An explicit, non-empty vendor package is kept; otherwise the derived one has
      every "extern" of the root name replaced, and equals the root name when the
      root name has none. */
  lemma VendorPackageDerived(rootName: string, given: Option<string>)
    ensures given.Some? && given.value != "" ==> VendorPackage(rootName, given) == given.value
    ensures given.None? || given.value == "" ==>
      VendorPackage(rootName, given) == Replace(rootName, "extern", "_vendor") &&
      !Contains(VendorPackage(rootName, given), "extern")
    ensures (given.None? || given.value == "") && !Contains(rootName, "extern") ==>
      VendorPackage(rootName, given) == rootName
  {
    ReplaceExternRemovesAll(rootName);
    if !Contains(rootName, "extern") {
      ReplaceAbsent(rootName, "extern", "_vendor");
    }
  }

  /** A root name whose only "extern" is its last one derives the sibling
      package with "_vendor" in its place. */
  lemma VendorSibling(prefix: string)
    requires forall k: nat :: k < |prefix| ==> !OccursAt(prefix + "extern", "extern", k)
    ensures VendorPackage(prefix + "extern", None) == prefix + "_vendor"
  {
    var rootName := prefix + "extern";
    ReplaceSkip(rootName, "extern", "_vendor", |prefix|);
    assert rootName[..|prefix|] == prefix && rootName[|prefix|..] == "extern";
    assert Replace("extern", "extern", "_vendor") == "_vendor";
  }

  /** The module-level configuration of pkg_resources/extern: its `__name__`
      "pkg_resources.extern" derives the vendor package "pkg_resources._vendor". */
  lemma PkgResourcesVendorPackage()
    ensures VendorPackage("pkg_resources." + "extern", None) == "pkg_resources." + "_vendor"
  {
    var prefix := "pkg_resources.";
    forall k: nat | k < |prefix| ensures !OccursAt(prefix + "extern", "extern", k) {
      assert (prefix + "extern")[k] != 'e' || (prefix + "extern")[k + 1] != 'x';
      assert (prefix + "extern")[k..k + 6][0] == (prefix + "extern")[k];
      assert (prefix + "extern")[k..k + 6][1] == (prefix + "extern")[k + 1];
    }
    VendorSibling(prefix);
  }

  /** `search_path`: the vendor package first, then the top level. */
  function SearchPath(vendorPkg: string): seq<string>
  {
    [vendorPkg + ".", ""]
  }

  /** The names `load_module` tries, one per search-path prefix as the loop
      takes them: candidate `i` is prefix `i` followed by the target. */
  function Candidates(prefixes: seq<string>, target: string): (r: seq<string>)
    ensures |r| == |prefixes|
    ensures forall i :: 0 <= i < |r| ==> r[i] == prefixes[i] + target
  {
    if prefixes == [] then [] else [prefixes[0] + target] + Candidates(prefixes[1..], target)
  }

  /** For one target the candidates are the vendored copy, then the natural package. */
  lemma CandidatesOrder(vendorPkg: string, target: string)
    ensures Candidates(SearchPath(vendorPkg), target) == [vendorPkg + "." + target, target]
  {
    var c := Candidates(SearchPath(vendorPkg), target);
    assert c[1] == "" + target == target;
  }

  /** The part of `fullname` after the first `root_name + '.'`, as `partition`
      gives it: empty when the separator is absent. */
  function Target(rootName: string, fullname: string): (t: string)
    ensures StartsWith(fullname, rootName + ".") ==> t == fullname[|rootName| + 1..]
    ensures !Contains(fullname, rootName + ".") ==> t == ""
  {
    var sep := rootName + ".";
    assert StartsWith(fullname, sep) ==> OccursAt(fullname, sep, 0) && |Partition(fullname, sep).0| == 0;
    Partition(fullname, sep).2
  }

  /** A separator in the middle of the name: the target is what follows its first
      occurrence, whatever precedes it. */
  lemma TargetAfterFirstSeparator(rootName: string, fullname: string, i: nat)
    requires OccursAt(fullname, rootName + ".", i)
    requires forall j: nat :: j < i ==> !OccursAt(fullname, rootName + ".", j)
    ensures Target(rootName, fullname) == fullname[i + |rootName| + 1..]
  {
    var sep := rootName + ".";
    var p := Partition(fullname, sep);
    assert Contains(fullname, sep);
    assert OccursAt(fullname, sep, |p.0|);
    assert |p.0| == i;
    assert fullname[i + |sep|..] == (p.0 + p.1 + p.2)[|p.0| + |p.1|..];
  }

  /** `_module_matches_namespace`: nothing precedes the separator and the rest
      begins with a vendored name. */
  function Matches(rootName: string, vendoredNames: set<string>, fullname: string): bool
  {
    var p := Partition(fullname, rootName + ".");
    p.0 == "" && exists n :: n in vendoredNames && StartsWith(p.2, n)
  }

  /** A name matches exactly when it begins with `root_name + '.'` and the rest
      begins with a vendored name, or when it is empty and the empty string is a
      vendored name (the partition of "" leaves nothing before the separator). */
  lemma MatchesIff(rootName: string, vendoredNames: set<string>, fullname: string)
    ensures Matches(rootName, vendoredNames, fullname) <==>
      (StartsWith(fullname, rootName + ".") &&
       exists n :: n in vendoredNames && StartsWith(fullname[|rootName| + 1..], n)) ||
      (fullname == "" && "" in vendoredNames)
  {
    var sep := rootName + ".";
    var p := Partition(fullname, sep);
    if StartsWith(fullname, sep) {
      assert OccursAt(fullname, sep, 0);
      assert p.0 == "";
      assert p.2 == fullname[|sep|..];
    } else if Contains(fullname, sep) {
      assert p.0 != "" by {
        assert OccursAt(fullname, sep, |p.0|);
      }
      assert fullname != "";
    } else {
      assert p == (fullname, "", "");
      if fullname == "" {
        assert forall n :: StartsWith("", n) <==> n == "";
      }
    }
  }

  /** The root name itself is never claimed: without a trailing '.' the separator
      is absent and the whole name precedes it. */
  lemma RootNameDoesNotMatch(rootName: string, vendoredNames: set<string>)
    requires rootName != ""
    ensures !Matches(rootName, vendoredNames, rootName)
  {
    assert !Contains(rootName, rootName + ".") by {
      forall k: nat ensures !OccursAt(rootName, rootName + ".", k) { }
    }
  }

  /** What `__import__(name)` followed by `sys.modules[name]` yields. The host
      rejects an empty name before anything else; otherwise the registry entry
      is used if there is one, then what the rest of the import system can load. */
  function Lookup(modules: map<string, Module>, available: map<string, Module>, name: string): Imported
  {
    if name == "" then EmptyName
    else if name in modules then Imported(modules[name])
    else if name in available then Imported(available[name])
    else NotFound
  }

  /** The candidates tried in order: the first that imports wins, an `ImportError`
      moves on to the next, and a `ValueError` ends the search. */
  function Resolve(modules: map<string, Module>, available: map<string, Module>, candidates: seq<string>): (r: Resolution)
    ensures r.Found? ==> r.extant in candidates && Lookup(modules, available, r.extant) == Imported(r.m)
    ensures r.EmptyCandidate? ==> "" in candidates
  {
    if candidates == [] then Exhausted
    else match Lookup(modules, available, candidates[0])
      case Imported(m) => Found(candidates[0], m)
      case EmptyName => EmptyCandidate
      case NotFound => Resolve(modules, available, candidates[1..])
  }

  /** The search is exhausted exactly when every candidate fails with `ImportError`. */
  lemma {:induction false} ResolveExhaustedIff(modules: map<string, Module>, available: map<string, Module>, candidates: seq<string>)
    ensures Resolve(modules, available, candidates).Exhausted? <==>
      forall k :: 0 <= k < |candidates| ==> Lookup(modules, available, candidates[k]).NotFound?
    decreases |candidates|
  {
    if candidates != [] {
      var rest := candidates[1..];
      ResolveExhaustedIff(modules, available, rest);
      assert forall k :: 1 <= k < |candidates| ==> candidates[k] == rest[k - 1];
    }
  }

  /** The first candidate that imports, after only `ImportError`s, is the one picked. */
  lemma {:induction false} ResolvePicksFirst(modules: map<string, Module>, available: map<string, Module>, candidates: seq<string>, i: nat, m: Module)
    requires i < |candidates|
    requires forall j :: 0 <= j < i ==> Lookup(modules, available, candidates[j]).NotFound?
    requires Lookup(modules, available, candidates[i]) == Imported(m)
    ensures Resolve(modules, available, candidates) == Found(candidates[i], m)
    decreases i
  {
    if i > 0 {
      var rest := candidates[1..];
      assert Lookup(modules, available, candidates[0]).NotFound?;
      assert forall j :: 0 <= j < i - 1 ==> rest[j] == candidates[j + 1];
      ResolvePicksFirst(modules, available, rest, i - 1, m);
    }
  }

  /** An empty candidate reached after only `ImportError`s ends the search. */
  lemma {:induction false} ResolveStopsAtEmpty(modules: map<string, Module>, available: map<string, Module>, candidates: seq<string>, i: nat)
    requires i < |candidates| && candidates[i] == ""
    requires forall j :: 0 <= j < i ==> Lookup(modules, available, candidates[j]).NotFound?
    ensures Resolve(modules, available, candidates) == EmptyCandidate
    decreases i
  {
    if i > 0 {
      var rest := candidates[1..];
      assert Lookup(modules, available, candidates[0]).NotFound?;
      assert forall j :: 0 <= j < i - 1 ==> rest[j] == candidates[j + 1];
      ResolveStopsAtEmpty(modules, available, rest, i - 1);
    }
  }

  /** `load_module(fullname)` on a registry: its result and the registry after it.
      The winning candidate is registered by the nested import and the module is
      aliased under `fullname`; on exhaustion nothing is written. */
  function Load(rootName: string, vendorPkg: string, modules: map<string, Module>,
                available: map<string, Module>, fullname: string): (Result<Module, LoadError>, map<string, Module>)
  {
    var target := Target(rootName, fullname);
    match Resolve(modules, available, Candidates(SearchPath(vendorPkg), target))
    case Exhausted => (Failure(ImportError(RequiredMessage(target))), modules)
    case EmptyCandidate => (Failure(ValueError(EmptyNameMessage)), modules)
    case Found(extant, m) => (Success(m), modules[extant := m][fullname := m])
  }

  /** The vendored copy wins whenever it imports, even if the natural package does too. */
  lemma LoadPrefersVendored(rootName: string, vendorPkg: string, modules: map<string, Module>,
                            available: map<string, Module>, fullname: string, m: Module)
    requires Lookup(modules, available, vendorPkg + "." + Target(rootName, fullname)) == Imported(m)
    ensures Load(rootName, vendorPkg, modules, available, fullname) ==
      (Success(m), modules[vendorPkg + "." + Target(rootName, fullname) := m][fullname := m])
  {
    var target := Target(rootName, fullname);
    CandidatesOrder(vendorPkg, target);
    ResolvePicksFirst(modules, available, Candidates(SearchPath(vendorPkg), target), 0, m);
  }

  /** Without a vendored copy the natural package is used. */
  lemma LoadFallsBack(rootName: string, vendorPkg: string, modules: map<string, Module>,
                      available: map<string, Module>, fullname: string, m: Module)
    requires Lookup(modules, available, vendorPkg + "." + Target(rootName, fullname)).NotFound?
    requires Lookup(modules, available, Target(rootName, fullname)) == Imported(m)
    ensures Load(rootName, vendorPkg, modules, available, fullname) ==
      (Success(m), modules[Target(rootName, fullname) := m][fullname := m])
  {
    var target := Target(rootName, fullname);
    CandidatesOrder(vendorPkg, target);
    ResolvePicksFirst(modules, available, Candidates(SearchPath(vendorPkg), target), 1, m);
  }

  /** With neither candidate importable the load fails with a message naming the
      target, and the registry is left as it was (no alias for `fullname`). */
  lemma LoadExhausted(rootName: string, vendorPkg: string, modules: map<string, Module>,
                      available: map<string, Module>, fullname: string)
    requires Lookup(modules, available, vendorPkg + "." + Target(rootName, fullname)).NotFound?
    requires Lookup(modules, available, Target(rootName, fullname)).NotFound?
    ensures Load(rootName, vendorPkg, modules, available, fullname).0.Failure?
    ensures Load(rootName, vendorPkg, modules, available, fullname).0.error.ImportError?
    ensures Contains(Load(rootName, vendorPkg, modules, available, fullname).0.error.message,
                     Target(rootName, fullname))
    ensures Load(rootName, vendorPkg, modules, available, fullname).1 == modules
  {
    var target := Target(rootName, fullname);
    CandidatesOrder(vendorPkg, target);
    var c := Candidates(SearchPath(vendorPkg), target);
    ResolveExhaustedIff(modules, available, c);
    assert forall k :: 0 <= k < |c| ==> Lookup(modules, available, c[k]).NotFound?;
    assert OccursAt(RequiredMessage(target), target, |MessageHead|);
  }

  /** An empty target (a name without the separator, or one ending in it): once
      the vendored candidate `vendor_pkg + "."` fails with `ImportError`, the
      plain candidate is the empty name, whose `ValueError` escapes the loop;
      the registry is left as it was. */
  lemma LoadEmptyTarget(rootName: string, vendorPkg: string, modules: map<string, Module>,
                        available: map<string, Module>, fullname: string)
    requires Target(rootName, fullname) == ""
    requires Lookup(modules, available, vendorPkg + ".").NotFound?
    ensures Load(rootName, vendorPkg, modules, available, fullname) == (Failure(ValueError(EmptyNameMessage)), modules)
  {
    CandidatesOrder(vendorPkg, "");
    var c := Candidates(SearchPath(vendorPkg), "");
    assert c[0] == vendorPkg + ".";
    ResolveStopsAtEmpty(modules, available, c, 1);
  }

  /** A name without `root_name + "."` can only load the module registered as
      `vendor_pkg + "."`; otherwise it fails, and never with the message about a
      missing package, whatever is importable under the empty name. */
  lemma LoadWithoutSeparator(rootName: string, vendorPkg: string, modules: map<string, Module>,
                             available: map<string, Module>, fullname: string)
    requires !Contains(fullname, rootName + ".")
    ensures Load(rootName, vendorPkg, modules, available, fullname).0.Success? <==>
      Lookup(modules, available, vendorPkg + ".").Imported?
    ensures Lookup(modules, available, vendorPkg + ".").NotFound? ==>
      Load(rootName, vendorPkg, modules, available, fullname) == (Failure(ValueError(EmptyNameMessage)), modules)
  {
    assert Target(rootName, fullname) == "";
    CandidatesOrder(vendorPkg, "");
    var c := Candidates(SearchPath(vendorPkg), "");
    assert c[0] == vendorPkg + "." && c[1] == "";
    if Lookup(modules, available, vendorPkg + ".").NotFound? {
      LoadEmptyTarget(rootName, vendorPkg, modules, available, fullname);
    }
  }

  /** `load_module("foo")` on an importer rooted at "pkgtool.extern" raises the
      `ValueError`, even when a module is importable under the empty name. */
  lemma PkgtoolNameWithoutSeparator()
    ensures Load("pkgtool.extern", "pkgtool._vendor", map[], map["" := Module(7)], "foo").0 == Failure(ValueError(EmptyNameMessage))
  {
    var rootName, vendorPkg, fullname := "pkgtool.extern", "pkgtool._vendor", "foo";
    assert !Contains(fullname, rootName + ".") by {
      forall k: nat ensures !OccursAt(fullname, rootName + ".", k) { }
    }
    assert vendorPkg + "." !in map["" := Module(7)];
    LoadWithoutSeparator(rootName, vendorPkg, map[], map["" := Module(7)], fullname);
  }

  /** After a successful load the registry maps `fullname` and the winning
      candidate to the very module returned, and no other entry changes. */
  lemma LoadAliases(rootName: string, vendorPkg: string, modules: map<string, Module>,
                    available: map<string, Module>, fullname: string)
    requires Load(rootName, vendorPkg, modules, available, fullname).0.Success?
    ensures var (r, after) := Load(rootName, vendorPkg, modules, available, fullname);
      fullname in after && after[fullname] == r.value &&
      exists extant :: extant in Candidates(SearchPath(vendorPkg), Target(rootName, fullname)) &&
        extant in after && after[extant] == r.value &&
        after.Keys == modules.Keys + {extant, fullname} &&
        forall k :: k in modules && k != extant && k != fullname ==> after[k] == modules[k]
  {
    var target := Target(rootName, fullname);
    var c := Candidates(SearchPath(vendorPkg), target);
    var res := Resolve(modules, available, c);
    var extant, m := res.extant, res.m;
    var after := Load(rootName, vendorPkg, modules, available, fullname).1;
    assert extant in c;
    assert after == modules[extant := m][fullname := m];
  }

  /** Resolving again after the winner and an alias were registered picks a
      candidate already registered to the same module: either the winner itself
      or, when it comes earlier among the candidates, the alias. */
  lemma {:induction false} ResolveAgain(modules: map<string, Module>, available: map<string, Module>,
                                        c: seq<string>, extant: string, m: Module, fullname: string)
    requires Resolve(modules, available, c) == Found(extant, m)
    ensures var after := modules[extant := m][fullname := m];
      var again := Resolve(after, available, c);
      again.Found? && again.m == m && again.extant in after && after[again.extant] == m
    decreases |c|
  {
    if Lookup(modules, available, c[0]).NotFound? && c[0] != fullname {
      ResolveAgain(modules, available, c[1..], extant, m, fullname);
    }
  }

  /** A found candidate is returned and registered together with the alias. */
  lemma LoadFound(rootName: string, vendorPkg: string, modules: map<string, Module>,
                  available: map<string, Module>, fullname: string, extant: string, m: Module)
    requires Resolve(modules, available, Candidates(SearchPath(vendorPkg), Target(rootName, fullname))) == Found(extant, m)
    ensures Load(rootName, vendorPkg, modules, available, fullname) == (Success(m), modules[extant := m][fullname := m])
  {
  }

  /** Loading the same name again on the registry the first load left returns
      the same module and writes nothing new. */
  lemma LoadIdempotent(rootName: string, vendorPkg: string, modules: map<string, Module>,
                       available: map<string, Module>, fullname: string)
    requires Load(rootName, vendorPkg, modules, available, fullname).0.Success?
    ensures var (r, after) := Load(rootName, vendorPkg, modules, available, fullname);
      Load(rootName, vendorPkg, after, available, fullname) == (r, after)
  {
    var target := Target(rootName, fullname);
    var c := Candidates(SearchPath(vendorPkg), target);
    var res := Resolve(modules, available, c);
    assert res.Found?;
    var extant, m := res.extant, res.m;
    var after := modules[extant := m][fullname := m];
    LoadFound(rootName, vendorPkg, modules, available, fullname, extant, m);
    ResolveAgain(modules, available, c, extant, m, fullname);
    var again := Resolve(after, available, c);
    assert again == Found(again.extant, m);
    LoadFound(rootName, vendorPkg, after, available, fullname, again.extant, m);
    UpdateRegistered(after, again.extant, fullname, m);
  }

  /** Registering two names to the module they already hold changes nothing. */
  lemma UpdateRegistered(after: map<string, Module>, a: string, b: string, m: Module)
    requires a in after && after[a] == m && b in after && after[b] == m
    ensures after[a := m][b := m] == after
  {
  }

  /** A root "pkgtool.extern" vendoring "foo" into "pkgtool._vendor": the vendored
      copy wins over an installed one, the installed one is used without a
      vendored copy, and with neither the error names "foo". */
  lemma PkgtoolScenario()
    ensures Matches("pkgtool.extern", {"foo"}, "pkgtool.extern.foo")
    ensures Load("pkgtool.extern", "pkgtool._vendor", map[],
                 map["pkgtool._vendor.foo" := Module(1), "foo" := Module(2)], "pkgtool.extern.foo").0
      == Success(Module(1))
    ensures Load("pkgtool.extern", "pkgtool._vendor", map[], map["foo" := Module(2)], "pkgtool.extern.foo").0
      == Success(Module(2))
    ensures Load("pkgtool.extern", "pkgtool._vendor", map[], map[], "pkgtool.extern.foo").0.Failure?
    ensures Contains(Load("pkgtool.extern", "pkgtool._vendor", map[], map[], "pkgtool.extern.foo").0.error.message, "foo")
  {
    var rootName, vendorPkg, fullname := "pkgtool.extern", "pkgtool._vendor", "pkgtool.extern.foo";
    assert StartsWith(fullname, rootName + ".");
    assert Target(rootName, fullname) == "foo";
    assert StartsWith(fullname[|rootName| + 1..], "foo");
    MatchesIff(rootName, {"foo"}, fullname);
    assert vendorPkg + "." + "foo" == "pkgtool._vendor.foo";
    LoadPrefersVendored(rootName, vendorPkg, map[], map["pkgtool._vendor.foo" := Module(1), "foo" := Module(2)], fullname, Module(1));
    LoadFallsBack(rootName, vendorPkg, map[], map["foo" := Module(2)], fullname, Module(2));
    LoadExhausted(rootName, vendorPkg, map[], map[], fullname);
  }

  /** The sequence `install` leaves: `x` appended unless already present. */
  function InstallOn<T(==)>(path: seq<T>, x: T): (r: seq<T>)
    ensures x in r
    ensures |path| <= |r| <= |path| + 1 && r[..|path|] == path
    ensures multiset(r)[x] == if x in path then multiset(path)[x] else 1
    ensures x in path ==> r == path
    ensures x !in path ==> r == path + [x]
  {
    if x in path then path else path + [x]
  }

  /** Installing twice is installing once; from a path without the importer
      this leaves exactly one occurrence of it. */
  lemma InstallTwice<T>(path: seq<T>, x: T)
    ensures InstallOn(InstallOn(path, x), x) == InstallOn(path, x)
    ensures x !in path ==> multiset(InstallOn(InstallOn(path, x), x))[x] == 1
  {
  }

  /** The host's import state: `sys.modules`, `sys.meta_path`, and the modules
      the rest of the import system would load for a name not yet registered. */
  class ImportSystem {
    var modules: map<string, Module>
    var metaPath: seq<object>
    const available: map<string, Module>

    constructor(modules: map<string, Module>, metaPath: seq<object>, available: map<string, Module>)
      ensures this.modules == modules && this.metaPath == metaPath && this.available == available
    {
      this.modules := modules;
      this.metaPath := metaPath;
      this.available := available;
    }

    /** `__import__(name)`: an empty name raises `ValueError`; a registered module
        is returned as it is; otherwise a loadable one is registered; otherwise
        the import fails with `ImportError`. */
    method Import(name: string) returns (r: Imported)
      modifies this
      ensures r == Lookup(old(modules), available, name)
      ensures modules == if r.Imported? then old(modules)[name := r.m] else old(modules)
      ensures metaPath == old(metaPath)
    {
      if name == "" {
        r := EmptyName;
      } else if name in modules {
        r := Imported(modules[name]);
      } else if name in available {
        r := Imported(available[name]);
        modules := modules[name := r.m];
      } else {
        r := NotFound;
      }
    }
  }

  class VendorImporter {
    const rootName: string
    const vendoredNames: set<string>
    const vendorPkg: string

    /** `vendored_names` is kept as a set, so duplicates collapse. */
    constructor(rootName: string, vendoredNames: seq<string>, vendorPkg: Option<string>)
      ensures this.rootName == rootName
      ensures this.vendoredNames == set n | n in vendoredNames
      ensures this.vendorPkg == VendorPackage(rootName, vendorPkg)
    {
      this.rootName := rootName;
      this.vendoredNames := set n | n in vendoredNames;
      this.vendorPkg := VendorPackage(rootName, vendorPkg);
    }

    /** Tries each search-path prefix in order; the first candidate that imports
        is aliased under `fullname` and returned. */
    method LoadModule(sys: ImportSystem, fullname: string) returns (r: Result<Module, LoadError>)
      modifies sys
      ensures (r, sys.modules) == Load(rootName, vendorPkg, old(sys.modules), sys.available, fullname)
      ensures sys.metaPath == old(sys.metaPath)
    {
      var target := Target(rootName, fullname);
      var prefixes := SearchPath(vendorPkg);
      ghost var candidates := Candidates(prefixes, target);
      var i := 0;
      while i < |prefixes|
        invariant 0 <= i <= |prefixes|
        invariant sys.modules == old(sys.modules) && sys.metaPath == old(sys.metaPath)
        invariant forall j :: 0 <= j < i ==> Lookup(old(sys.modules), sys.available, candidates[j]).NotFound?
      {
        var extant := prefixes[i] + target;
        var found := sys.Import(extant);
        if found.EmptyName? {
          ResolveStopsAtEmpty(old(sys.modules), sys.available, candidates, i);
          return Failure(ValueError(EmptyNameMessage));
        }
        if found.Imported? {
          var mod := sys.modules[extant];
          sys.modules := sys.modules[fullname := mod];
          ResolvePicksFirst(old(sys.modules), sys.available, candidates, i, mod);
          return Success(mod);
        }
        i := i + 1;
      }
      ResolveExhaustedIff(old(sys.modules), sys.available, candidates);
      r := Failure(ImportError(RequiredMessage(target)));
    }

    /** `create_module` loads the module named by the spec. */
    method CreateModule(sys: ImportSystem, spec: ModuleSpec) returns (r: Result<Module, LoadError>)
      modifies sys
      ensures (r, sys.modules) == Load(rootName, vendorPkg, old(sys.modules), sys.available, spec.name)
      ensures sys.metaPath == old(sys.metaPath)
    {
      r := LoadModule(sys, spec.name);
    }

    /** `exec_module` does nothing: the module was fully created by the nested import. */
    method ExecModule(sys: ImportSystem, m: Module)
      ensures unchanged(sys)
    {
    }

    /** `find_spec` claims exactly the names in the vendored namespace, naming
        this importer as their loader; `path` and `target` are ignored. */
    function FindSpec(fullname: string, path: Option<seq<string>>, target: Option<Module>): (r: Option<ModuleSpec>)
      ensures r.Some? <==> Matches(rootName, vendoredNames, fullname)
      ensures r.Some? ==> r.value.name == fullname && r.value.loader == this
    {
      if Matches(rootName, vendoredNames, fullname) then Some(ModuleSpec(fullname, this)) else None
    }

    /** `install` appends this importer to the meta path unless it is already there. */
    method Install(sys: ImportSystem)
      modifies sys
      ensures sys.metaPath == InstallOn(old(sys.metaPath), this)
      ensures sys.modules == old(sys.modules)
    {
      if this !in sys.metaPath {
        sys.metaPath := sys.metaPath + [this];
      }
    }
  }
}
