# Vendored-package importer and command option validators

This project models two small pieces of setuptools in Dafny and proves properties of them.

**`VendorImporter` (pkg_resources/extern).** This is a meta path importer, found on `sys.meta_path`.
- It claims module names of the form `<root_name>.<vendored name>...`.
- It resolves each claimed name by importing `<vendor_pkg>.<target>` first. If that fails, it imports the naturally installed `<target>`.
- It aliases the module it found under the requested name in `sys.modules`.
- If neither candidate imports, it raises `ImportError`, and the message names the target.
- `install` adds the importer to the meta path only when it is not already there.

**Option validators of `setuptools.Command`.**
- `_ensure_stringlike` turns a `None` option into its default, accepts a string, and rejects anything else.
- `ensure_string_list` accepts `None` and lists of strings. It splits a string with `re.split(r',\s*|\s+', ...)` and rejects anything else.

Modules:

- `Wrappers`: `Option`, `Result` and `Outcome`.
- `Text`: the host string operations the importer relies on: `startswith`, `partition` and `replace`. `FindFrom` (`str.find`) is only the scan `partition` is defined with; the importer does not call `find` itself. The module also proves that replacing `"extern"` by `"_vendor"` leaves no `"extern"` behind.
- `Extern`: the importer and the host import state it works on.
  - `ImportSystem` holds the registry (`sys.modules`) and the meta path (`sys.meta_path`).
  - `VendorImporter` has the methods `LoadModule`, `CreateModule`, `ExecModule`, `FindSpec` and `Install`.
  - Each method is tied to a specification function (`Load`, `Matches`, `InstallOn`) that lemmas describe.
- `OptionSplit`: the regular-expression split.
  - At the leftmost comma or whitespace character, the split tries `,\s*` first and then `\s+`. Both are greedy.
  - `Stripped`, the input with its delimiters removed, is an independent reference for it.
- `Setuptools`:
  - option values as a datatype: `None`, a string, a list, or any other type;
  - the two validators as specification functions with lemmas;
  - a `Command` class whose methods change its option map as those functions say.

`__import__` is modelled by `Lookup` and `ImportSystem.Import`:
- an empty name raises `ValueError`, before anything else is looked at;
- a name already in the registry yields its entry;
- otherwise a name in the fixed map `available` (the modules the rest of the import system could load) is registered and yields that;
- otherwise the import fails with `ImportError`.

The target is computed with `str.partition`, which returns `(fullname, '', '')` when `root_name + '.'` is absent, so the target is then the empty string (`Extern.Target`). When the separator occurs later in the name, the target is the text after its first occurrence (`Extern.TargetAfterFirstSeparator`). With an empty target the plain candidate is the empty name. `__import__("")` raises `ValueError("Empty module name")`, which the `except ImportError` clause does not catch, so `load_module` raises it once the vendored candidate `vendor_pkg + "."` has failed. The model carries this as a distinct `ValueError` outcome (`Extern.LoadEmptyTarget`, `Extern.LoadWithoutSeparator`).

## Model

| member | source | states |
|---|---|---|
| Extern.VendorImporter.constructor | pkg_resources/extern/__init__.py:15-23 | the vendored names are kept as a set, so duplicates collapse; the vendor package is the given one, or derived from the root name |
| Extern.VendorPackage | pkg_resources/extern/__init__.py:23 | `vendor_pkg or root_name.replace('extern', '_vendor')`: a non-empty given package, else the root name with "extern" replaced; characterised by `VendorPackageDerived` |
| Text.Replace | pkg_resources/extern/__init__.py:23 | `str.replace`: occurrences replaced left to right without overlap; characterised by `ReplaceAbsent` and `ReplaceExternRemovesAll` |
| Extern.VendorPackageDerived | pkg_resources/extern/__init__.py:23 | a non-empty explicit vendor package is kept; an absent or empty one is the root name with every "extern" replaced by "_vendor", it contains no "extern", and it equals the root name when the root name has none |
| Text.ReplaceExternRemovesAll | pkg_resources/extern/__init__.py:23 | replacing "extern" by "_vendor" leaves no "extern" in the result, including none formed across a replacement |
| Text.ReplaceAbsent | pkg_resources/extern/__init__.py:23 | a name without "extern" is left unchanged by the replacement |
| Extern.VendorSibling | pkg_resources/extern/__init__.py:23 | a root name whose only "extern" is its final one derives the sibling package with "_vendor" in its place |
| Extern.PkgResourcesVendorPackage | pkg_resources/extern/__init__.py:23 | for the root name "pkg_resources.extern", as an instance of `VendorSibling`, the derived vendor package is "pkg_resources._vendor" |
| Extern.SearchPath | pkg_resources/extern/__init__.py:25-31 | the two prefixes `vendor_pkg + "."` and `""`, in that order; the candidates built from them are stated by `CandidatesOrder` |
| Extern.Candidates | pkg_resources/extern/__init__.py:43-45 | `extant = prefix + target` for each prefix the loop takes, defined one prefix at a time; its contract is the closed form, proved by induction: as many candidates as prefixes, candidate `i` being prefix `i` followed by the target; for the search path the candidates are stated by `CandidatesOrder` |
| Extern.CandidatesOrder | pkg_resources/extern/__init__.py:25-31 | the search path gives exactly two candidates, in order: the vendored `vendor_pkg + "." + target`, then the plain `target` |
| Text.Partition | pkg_resources/extern/__init__.py:35 | `partition` splits at the first occurrence of the separator and the three parts rebuild the input; without an occurrence the result is `(s, "", "")` |
| Extern.Target | pkg_resources/extern/__init__.py:42 | a name starting with `root_name + "."` yields the rest of the name; a name without the separator yields the empty string |
| Extern.TargetAfterFirstSeparator | pkg_resources/extern/__init__.py:42 | when the separator occurs anywhere, the target is the text after its first occurrence |
| Text.StartsWith | pkg_resources/extern/__init__.py:36 | `str.startswith`: the string begins with the given prefix |
| Extern.Matches | pkg_resources/extern/__init__.py:33-36 | `_module_matches_namespace`: nothing before the first separator and the rest starts with a vendored name; characterised by `MatchesIff` |
| Extern.MatchesIff | pkg_resources/extern/__init__.py:33-36 | a name matches exactly when it starts with `root_name + "."` and the rest starts with a vendored name, or when the name is empty and "" is a vendored name |
| Extern.RootNameDoesNotMatch | pkg_resources/extern/__init__.py:35-36 | a non-empty root name on its own never matches |
| Extern.VendorImporter.FindSpec | pkg_resources/extern/__init__.py:66-77 | a spec is returned exactly for matching names, naming the requested module and this importer as loader; `path` and `target` play no part |
| Extern.ImportSystem.Import | pkg_resources/extern/__init__.py:46-47 | the empty name raises `ValueError`; a registered name yields its entry without changes; an importable one is registered and yielded; otherwise the import fails and the registry is unchanged |
| Extern.Lookup | pkg_resources/extern/__init__.py:46-47 | `__import__(name)` then `sys.modules[name]`: `ValueError` for the empty name, then the registry entry, then an importable module, else `ImportError` |
| Extern.Resolve | pkg_resources/extern/__init__.py:43-51 | the `for`/`try`/`except ImportError: pass` loop over the candidates: the first candidate that imports is found together with a module it imports as; an `ImportError` moves on; the empty name ends the search; characterised by `ResolveExhaustedIff`, `ResolvePicksFirst` and `ResolveStopsAtEmpty` |
| Extern.ResolveExhaustedIff | pkg_resources/extern/__init__.py:43-52 | the search is exhausted exactly when every candidate fails with `ImportError` |
| Extern.ResolvePicksFirst | pkg_resources/extern/__init__.py:43-49 | the first candidate that imports, after only `ImportError`s, is the one chosen, with its module |
| Extern.ResolveStopsAtEmpty | pkg_resources/extern/__init__.py:44-51 | an empty candidate reached after only `ImportError`s ends the search with the uncaught `ValueError` |
| Extern.Load | pkg_resources/extern/__init__.py:38-58 | `load_module` on a registry: the first importable candidate is returned and aliased; exhaustion gives the `ImportError`; an empty candidate gives the `ValueError`; characterised by the `Load...` lemmas |
| Extern.LoadFound | pkg_resources/extern/__init__.py:46-49 | a found candidate is returned, and the registry gains it and the alias for `fullname` |
| Extern.VendorImporter.LoadModule | pkg_resources/extern/__init__.py:38-58 | the loop over the search path returns, and leaves in the registry, what `Load` gives for the registry before the call, including the escaping `ValueError`; the meta path is unchanged |
| Extern.LoadPrefersVendored | pkg_resources/extern/__init__.py:43-49 | when the vendored copy imports, it is returned, even if the plain package also imports |
| Extern.LoadFallsBack | pkg_resources/extern/__init__.py:43-51 | when only the plain package imports, it is returned |
| Extern.LoadExhausted | pkg_resources/extern/__init__.py:50-58 | when both candidates fail with `ImportError`, `ImportError` is raised, its message contains the target, and the registry is unchanged (no alias) |
| Extern.RequiredMessage | pkg_resources/extern/__init__.py:53-57 | the exhaustion message starts with "The '" and has the target right after it |
| Extern.LoadEmptyTarget | pkg_resources/extern/__init__.py:42-51 | with an empty target and the vendored candidate failing, `load_module` raises `ValueError("Empty module name")` and the registry is unchanged |
| Extern.LoadWithoutSeparator | pkg_resources/extern/__init__.py:42-51 | a name without the separator succeeds exactly when `vendor_pkg + "."` imports; otherwise it raises the `ValueError` |
| Extern.PkgtoolNameWithoutSeparator | pkg_resources/extern/__init__.py:42-51 | `load_module("foo")` under root "pkgtool.extern" raises the `ValueError` even with a module importable as "" |
| Extern.LoadAliases | pkg_resources/extern/__init__.py:46-49 | after a successful load, the requested name and the winning candidate both map to the returned module; the registry gains only those two keys, and no other entry changes |
| Extern.ResolveAgain | pkg_resources/extern/__init__.py:43-49 | on the registry left by a load, resolution again finds a registered candidate holding the same module |
| Extern.LoadIdempotent | pkg_resources/extern/__init__.py:38-58 | loading the same name again returns the same module and writes nothing new |
| Extern.PkgtoolScenario | pkg_resources/extern/__init__.py:33-58 | with root "pkgtool.extern", vendored name "foo" and vendor package "pkgtool._vendor": the vendored copy wins, the installed "foo" is used without it, and with neither the error names "foo" |
| Extern.VendorImporter.CreateModule | pkg_resources/extern/__init__.py:60-61 | creating a module from a spec is loading the spec's name |
| Extern.VendorImporter.ExecModule | pkg_resources/extern/__init__.py:63-64 | executing a module changes nothing |
| Extern.VendorImporter.Install | pkg_resources/extern/__init__.py:79-84 | the meta path becomes `InstallOn` of the old one; the registry is unchanged |
| Extern.InstallOn | pkg_resources/extern/__init__.py:83-84 | the importer is on the result; a meta path that has it is returned unchanged; one without it gets it appended at the end, the existing entries keeping their order |
| Extern.InstallTwice | pkg_resources/extern/__init__.py:79-84 | installing twice is installing once; from a meta path without the importer, exactly one occurrence results |
| Setuptools.Stringlike | setuptools/__init__.py:179-188 | `_ensure_stringlike` on the option map: `AttributeError` for a missing option, the default stored for `None`, the string kept, an error otherwise; characterised by `StringlikeOutcomes` |
| Setuptools.Command.EnsureStringlike | setuptools/__init__.py:179-188 | the result and the new option map are what `Stringlike` gives for the old map |
| Setuptools.StringlikeOutcomes | setuptools/__init__.py:179-188 | success exactly for `None` and strings; `None` is set to the default, which is returned; a string is returned and left in place; anything else raises naming the option, `what` and the value, and nothing changes |
| Setuptools.StringlikeIdempotent | setuptools/__init__.py:179-188 | with a `None` or string default, a second call after a successful one returns the same value and changes nothing |
| Setuptools.StringlikeDefaultUnchecked | setuptools/__init__.py:181-183 | the default is stored unchecked, so a non-string default makes the next call raise |
| Setuptools.StringList | setuptools/__init__.py:190-215 | `ensure_string_list` on the option map: `None` passes, a string is replaced by its split, a list of strings passes, anything else raises; characterised by `StringListSucceedsIff` and `StringListNormalises` |
| Setuptools.IsStringList | setuptools/__init__.py:208-211 | `isinstance(val, list)` and `all(isinstance(v, str) for v in val)`: a list whose every item is a string; the outcomes it selects are stated by `StringListSucceedsIff` |
| Setuptools.Command.EnsureStringList | setuptools/__init__.py:190-215 | the outcome and the new option map are what `StringList` gives for the old map |
| Setuptools.StringListSucceedsIff | setuptools/__init__.py:202-215 | raises nothing exactly for `None`, a string, or a list of strings; the error names the option, "list of strings" and the value; on error nothing changes |
| Setuptools.StringListNormalises | setuptools/__init__.py:202-215 | after success the option is `None` or a list of strings; no other option changes; a `None` option or a list is left as it was |
| Setuptools.StringListSplitsString | setuptools/__init__.py:205-206 | a string option becomes the list whose item k is the string of split piece k, none with a comma or whitespace; a string with neither becomes the one-element list of itself |
| Setuptools.StringListIdempotent | setuptools/__init__.py:202-215 | a second call after a successful one raises nothing and changes nothing |
| Setuptools.StringListDocumentedExample | setuptools/__init__.py:191-194 | the option "foo,   bar baz" becomes ["foo", "bar", "baz"] |
| Setuptools.StringValues | setuptools/__init__.py:206 | the split result becomes a list of exactly those strings, in order |
| OptionSplit.Split | setuptools/__init__.py:206 | `re.split(r',\s*|\s+', s)`: pieces between leftmost greedy matches; characterised by `SplitPiecesClean`, `SplitWholeIff` and `SplitKeepsText` |
| OptionSplit.SpaceRun | setuptools/__init__.py:206 | the matcher step for the greedy `\s*`: the run it measures stays inside the string; characterised by `SpaceRunMaximal` and `SpaceRunExact` |
| OptionSplit.MatchLength | setuptools/__init__.py:206 | the matcher step for the pattern at a comma or whitespace character: the match stays inside the string; characterised by `MatchLengthMaximal` |
| OptionSplit.FirstDelimiter | setuptools/__init__.py:206 | the search for the leftmost match: a found position is a comma or whitespace character at or after the start; characterised by `FirstDelimiterLeftmost` and `FirstDelimiterAt` |
| OptionSplit.SpaceRunMaximal | setuptools/__init__.py:206 | the greedy `\s*` takes only whitespace and stops before the next non-whitespace character |
| OptionSplit.SpaceRunExact | setuptools/__init__.py:206 | a whitespace run that cannot be extended is the greedy match |
| OptionSplit.MatchLengthMaximal | setuptools/__init__.py:206 | a match is a comma or whitespace character plus the whitespace after it, is never empty, and takes all of that whitespace |
| OptionSplit.FirstDelimiterLeftmost | setuptools/__init__.py:206 | the scan skips no delimiter: none lies before the one found, and none exists when nothing is found |
| OptionSplit.FirstDelimiterAt | setuptools/__init__.py:206 | a delimiter with none before it is the one found |
| OptionSplit.SplitStep | setuptools/__init__.py:206 | a clean prefix up to a delimiter is the first piece, and the split continues after the match |
| OptionSplit.SplitPiecesClean | setuptools/__init__.py:206 | no piece contains a comma or whitespace |
| OptionSplit.SplitWholeIff | setuptools/__init__.py:206 | a string is returned whole, as a one-element list, exactly when it has no comma or whitespace |
| OptionSplit.SplitNonEmpty | setuptools/__init__.py:206 | the split has at least one piece |
| OptionSplit.SplitKeepsText | setuptools/__init__.py:206 | the pieces joined end to end are the input with its commas and whitespace removed (nothing else is lost or reordered) |
| OptionSplit.SplitAfterMatch | setuptools/__init__.py:206 | a clean word followed by one whole match becomes the first piece, and the split continues after the match |
| OptionSplit.SplitThreeWords | setuptools/__init__.py:206 | three clean words separated by two whole matches split into exactly those words; with an empty last word, a trailing match leaves the empty last piece |
| OptionSplit.SplitDocumentedSpaces | setuptools/__init__.py:191-194 | "foo bar baz" splits into ["foo", "bar", "baz"] |
| OptionSplit.SplitDocumentedCommas | setuptools/__init__.py:191-194 | "foo,bar,baz" splits into ["foo", "bar", "baz"] |
| OptionSplit.SplitDocumentedMixed | setuptools/__init__.py:191-194 | "foo,   bar baz" splits into ["foo", "bar", "baz"] |

## Left out

- The host import machinery.
  - `__import__` is a lookup in the registry and then in a fixed map of importable names.
  - It models no parent-package imports, no execution of module code, and no recursion back through the meta path. The last matters because `load_module`'s nested `__import__(extant)` can reach this importer again.
  - Of the exceptions `__import__` can raise, only `ImportError` and the `ValueError` for the empty name are modelled. Others (an error inside the imported module's code, for example) would propagate out of `load_module`.
  - A `sys.modules[name] = None` entry, which makes `__import__(name)` raise `ImportError`, cannot be expressed: registry entries are always modules.
  - `sys.modules[extant]` after a successful import is assumed to exist; a module that removes or replaces its own registry entry is not modelled.
- `ModuleSpec` and `importlib.util.spec_from_loader`: the spec is a record of the name and the loader only.
- `search_path` is a generator. The model uses the two-element sequence it yields.
- `vendored_names` may be any iterable. The model takes a sequence.
- Meta path membership (`self not in sys.meta_path`) is object identity. `VendorImporter` defines no `__eq__`, but an entry of another class with its own `__eq__` could compare equal, and the model does not capture that.
- The module-level `VendorImporter(__name__, names).install()` (pkg_resources/extern/__init__.py:87-94): it is configuration plus a process-wide side effect. The vendor package it derives is stated by `Extern.PkgResourcesVendorPackage`.
- `DistutilsOptionError` messages are kept structured: the option, what was expected, and the value. Their text would need Python's `str` and `repr` of arbitrary values.
- `getattr`/`setattr` on the command are modelled as a map of option names to values. Properties, descriptors and `str` or `list` subclasses with their own behaviour are outside the model.
- `\s` is the set of characters Python's `str.isspace` accepts, with no locale or bytes pattern.
- Thread safety of `sys.modules` and `sys.meta_path`: the model is sequential, as the host's import lock makes it.
- The rest of setuptools/__init__.py: the `sys.path` handling at lines 18-20, `setup` and the egg-fetching helpers, `Command.__init__`, `reinitialize_command`, the abstract command methods, `findall`, `sic` and the monkey patching. These are distutils, filesystem and network glue.
- setuptools/config/__init__.py, setuptools/command/__init__.py and setuptools/py312compat.py: warning wrappers, a foreign class patch, and a filesystem wrapper.
