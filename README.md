# depresolve: a verified model of the dependency resolvers and scrapers

depresolve studies dependency conflicts among Python distributions. A
distribution ("dist") is named by a *distkey* `name(version)`. The
dependencies of every dist are kept in a dictionary `deps` from distkey to
a list of `[package, specifiers]` pairs. *Elaboration* turns each
dependency into an *edep* `(package, acceptable versions, specifier string)`
by filtering the package's known versions through the specifiers.

Several resolvers work on the elaborated dictionary:

- two strawmen that always take the newest acceptable version;
- a backtracking search that retries older versions when it meets a conflict;
- a converter that hands the data to the external depsolver package.

A validator, `are_fully_satisfied`, checks a proposed solution. The
scraper scripts build the data in the first place. They recover distkeys
from sdist file names, normalise version strings, and find
`install_requires` lists in `setup.py` files.

The model is written in Dafny, one module per concern:

| module | file | models |
|---|---|---|
| `Errors` | errors.dfy | the exceptions the code raises, as a `Result` datatype |
| `PyStr` | pystr.dfy | the Python string operations the code relies on: slicing with negative indices, `find`/`rfind`, `replace`, `lower`, `strip`, `split` |
| `DistKeys` | distkeys.dfy | distkeys and `deps_are_equal` (depresolve/depdata.py) |
| `Versions`, `Specifiers` | versions.dfy, specifiers.dfy | a release / legacy version order and specifier filtering, standing in for pip's `packaging` |
| `Sorting` | sorting.dfy | `sorted(..., reverse=True)` |
| `Resolvability` | resolvability.py helpers | matching, conflicts, `dist_lists_are_equal`, the validator, `combine_candidate_sets`, `sort_versions` |
| `DepTools` | deptools.dfy | the version catalogue and elaboration (resolver/deptools.py) |
| `Strawman` | strawman.dfy | `fully_satisfy_strawman1/2` and the model-2 conflict detector |
| `Backtracking` | backtracking.dfy | `backtracking_satisfy` and `_backtracking_satisfy` |
| `BacktrackingExamples` | backtrackingexamples.dfy | the backtracker on the DEPS_SIMPLE and DEPS_SIMPLE2 test graphs, names lower-cased |
| `BacktrackingLocalExamples` | backtrackinglocal.dfy | the backtracker on the DEPS_SIMPLE3 and DEPS_SIMPLE4 test graphs, names lower-cased |
| `ResolverPrototype` | prototype.dfy | the older prototype in resolver/resolvability.py |
| `DepsolverIntegrate` | depsolver.dfy | the conversion to depsolver's `PackageInfo` strings |
| `Filenames` | filenames.dfy | the sdist file-name helpers of the scraper scripts |
| `VersionRewrite`, `VersionExamples` | versionrewrite.dfy, versionexamples.dfy | the three copies of `normalize_version_string` |
| `SetupPy` | setuppy.dfy | the `setup.py` and metadata-file scanning of `_s_retrieve_package_data.py` |

resolver/deptools.py:567-592 computes the same slices and the same concatenation as `get_pack_and_version` and `distkey_format` of depresolve/depdata.py. It inlines the slices instead of calling `get_packname` and `get_version`, and its formatter is named `get_distkey`. `DistKeys` models both copies.

Each imperative routine of the source is a Dafny `method` with its loops,
including `fully_satisfy_strawman1` (`ResolverPrototype.FullySatisfyStrawman1`)
and the loop of `sort_versions` (`Resolvability.SortVersionsMethod`).
Each method is proved equal to a specification function, and the
properties are proved about those functions as lemmas.

## Model

| member | source | states |
|---|---|---|
| Errors.PrependTwice | depresolve/resolver/resolvability.py:412-415 | extending a result list in two steps is extending it once by both prefixes; an exception passes through unchanged |
| DistKeys.PacknameIsPrefix | depresolve/depdata.py:417-419 | the package name is the text before the first '(' and contains no '(' |
| DistKeys.VersionIsBracketed | depresolve/depdata.py:425-431 | the version is the text between the first '(' and the final character |
| DistKeys.PackAndVersionSplits | depresolve/depdata.py:402-411 | `get_pack_and_version` gives a package name without '(', and on a well-formed distkey `distkey_format` of the two parts gives the distkey back |
| DistKeys.SplitFormat | resolver/deptools.py:567-592 | splitting `distkey_format(p, v)` gives back `(p, v)` whenever p has no '(' |
| DistKeys.FormatSplit | depresolve/depdata.py:437-444 | formatting the parts of a well-formed distkey gives the distkey back |
| DistKeys.FormatInjective | depresolve/depdata.py:437-444 | two formatted distkeys are equal exactly when their names and their versions are |
| DistKeys.DepGeTotalOrder | depresolve/depdata.py:385-395 | the order `sorted` uses on `[package, spec]` pairs is a total order |
| DistKeys.SortedDeps | depresolve/depdata.py:385-395 | `sorted(deps)` is ascending and a permutation of deps |
| DistKeys.DepsAreEqualIffPermutation | depresolve/depdata.py:385-395 | `deps_are_equal(a, b)` holds exactly when b is a permutation of a |
| Versions.Parse | depresolve/resolver/resolvability.py:875-879 | a legacy version keeps the original text, and a release has at least one component |
| Versions.Cmp | depresolve/resolver/resolvability.py:879 | the three-way comparison returns -1, 0 or 1 |
| Versions.CmpFlip | depresolve/resolver/resolvability.py:879 | swapping the arguments negates the comparison |
| Versions.CmpTransitive | depresolve/resolver/resolvability.py:879 | the comparison is transitive, and strictly so when one step is strict |
| Versions.EquivalentIsEquivalence | depresolve/resolver/resolvability.py:129 | `versions_are_equal` is reflexive, symmetric and transitive |
| Versions.VersionLeTotalPreorder | depresolve/resolver/resolvability.py:879 | version order is a total preorder whose ties are exactly the equivalent versions |
| Versions.LegacyEquivalentOnlyToItself | depresolve/resolver/resolvability.py:129 | a legacy version is equivalent only to the identical string |
| Specifiers.ParseClause | resolver/deptools.py:472-497 | a clause that parses always has a non-empty version |
| Specifiers.Pieces | resolver/deptools.py:472-497 | no piece of a specifier string is empty |
| Specifiers.Filter | resolver/deptools.py:460-462 | `specset.filter(versions)` holds exactly the admitted versions of the input, and is no longer than the input |
| Specifiers.FilterIsSubsequence | resolver/deptools.py:460-462 | the filtered list is a subsequence of its input |
| Specifiers.FilterIdempotent | resolver/deptools.py:460-462 | filtering twice by the same specifier changes nothing |
| Specifiers.FilterCommutes | resolver/deptools.py:460-462 | filters by two specifiers commute |
| Specifiers.EmptySpecAdmitsAll | resolver/deptools.py:460-462 | the empty specifier admits every version |
| Sorting.Insert | depresolve/resolver/resolvability.py:879 | insertion into a descending list keeps it descending and adds exactly that element |
| Sorting.SortDesc | depresolve/resolver/resolvability.py:879 | `sorted(s, reverse=True)` is descending and a permutation of s |
| Sorting.SortedHeadIsMax | depresolve/resolver/resolvability.py:879 | the head of a descending list is at least every element |
| Sorting.SortedDescUnique | depresolve/resolver/resolvability.py:879 | two descending permutations of the same elements are the same list |
| Sorting.HeadIsMax | depresolve/resolver/resolvability.py:879 | after sorting, the largest element comes first |
| Resolvability.MatchingMembers | depresolve/resolver/resolvability.py:147-165 | the matches are exactly the dists of the package, in list order |
| Resolvability.FindDistsMatchingPackname | depresolve/resolver/resolvability.py:147-165 | the loop returns the list of dists whose package name equals packname |
| Resolvability.OnePerPackageMatching | depresolve/resolver/resolvability.py:147-165 | with one dist per package, every package has at most one match, and each of its packages exactly one |
| Resolvability.ConflictsWithMembers | depresolve/resolver/resolvability.py:171-205 | the conflicts of a dist are exactly the other dists of its package whose versions are not equivalent |
| Resolvability.ConflictsWithMethod | depresolve/resolver/resolvability.py:171-205 | the loop returns the conflicting dists in list order |
| Resolvability.DetectDirectConflict | depresolve/resolver/resolvability.py:211-233 | the result is true exactly when some candidate conflicts with the list |
| Resolvability.DirectConflictIffPair | depresolve/resolver/resolvability.py:211-233 | a direct conflict is exactly a pair of dists of one package with non-equivalent versions |
| Resolvability.OnePerPackageNoConflict | depresolve/resolver/resolvability.py:211-233 | a list with one dist per package has no direct conflict |
| Resolvability.Pairs | depresolve/resolver/resolvability.py:87-96 | each distkey becomes its `(package, version)` pair, position by position |
| Resolvability.VersionsOf | depresolve/resolver/resolvability.py:111 | the versions of the package in the other list, in order |
| Resolvability.EveryDistMatched | depresolve/resolver/resolvability.py:102-137 | the inner loop is true exactly when every dist of one list has an equivalent dist in the other |
| Resolvability.DistListsAreEqual | depresolve/resolver/resolvability.py:65-141 | the result is false on different lengths, and otherwise true exactly when each list's dists have equivalents in the other |
| Resolvability.DistListsEqualPermutation | depresolve/resolver/resolvability.py:65-141 | a list and any permutation of it are equal in both directions |
| Resolvability.DepSatisfied | depresolve/resolver/resolvability.py:239-281 | the only error is the failed assertion; it is raised exactly when the package is not disregarded and has more than one dist in the list |
| Resolvability.IsDepSatisfied | depresolve/resolver/resolvability.py:239-281 | the method returns what DepSatisfied specifies, including its error |
| Resolvability.LowerAll | depresolve/resolver/resolvability.py:327 | every candidate is lower-cased, position by position |
| Resolvability.AreFullySatisfied | depresolve/resolver/resolvability.py:287-341 | true exactly when every lower-cased candidate has dependency data and every edep of it is satisfied; MissingDependencyInfo only when some candidate has no data |
| Resolvability.AreFullySatisfiedMethod | depresolve/resolver/resolvability.py:287-341 | the nested loops return what AreFullySatisfied specifies |
| Resolvability.Dedup | depresolve/resolver/resolvability.py:347-362 | `list(set(s))` holds exactly the elements of s, with no duplicates |
| Resolvability.Combine | depresolve/resolver/resolvability.py:347-362 | the combined list holds exactly the members of both lists, without duplicates |
| Resolvability.DedupNoDuplicates | depresolve/resolver/resolvability.py:347-362 | deduplicating a duplicate-free list leaves it as it is |
| Resolvability.DedupKeepsPrefix | depresolve/resolver/resolvability.py:347-362 | deduplicating a + b keeps a duplicate-free a as its prefix |
| Resolvability.SortVersions | depresolve/resolver/resolvability.py:856-882 | the result is a permutation of the input, newest first, equal versions in descending text order |
| Resolvability.SortVersionsMethod | depresolve/resolver/resolvability.py:872-882 | the loop pairs each version with its parsed form, the pairs are sorted in reverse tuple order and their texts returned; the result is the one arrangement SortVersions specifies, a permutation of the input, newest first |
| Resolvability.PairLeTotalOrder | depresolve/resolver/resolvability.py:878-879 | Python's tuple order on (parse(v), v) pairs is a total order, so `sorted` has one possible result |
| Resolvability.TextsPermutation | depresolve/resolver/resolvability.py:881-882 | taking the text of each pair turns a rearrangement of the pairs into the same rearrangement of the texts |
| Resolvability.SortVersionsUnique | depresolve/resolver/resolvability.py:856-882 | the result is the only arrangement of the input in that order |
| Resolvability.SortVersionsIdempotent | depresolve/resolver/resolvability.py:856-882 | sorting a sorted list changes nothing |
| DepTools.Distkeys | resolver/deptools.py:225 | the distkeys of the dictionary, one per key, in iteration order |
| DepTools.VersionsByPackageListsAll | resolver/deptools.py:165-233 | the catalogue has a key for exactly the packages of the distkeys, and each key lists the versions of its distkeys in order |
| DepTools.VersionsByPackageStep | resolver/deptools.py:225-231 | one more distkey appends its version to its package's list, or starts a list for a new package |
| DepTools.GenerateDictVersionsByPackage | resolver/deptools.py:165-233 | the loop builds the catalogue that VersionsByPackage specifies |
| DepTools.SpectuplesToSpecstring | resolver/deptools.py:499-526 | every `op + version` is followed by a comma, and the last comma is removed |
| DepTools.Terms | resolver/deptools.py:499-526 | the terms of the specifiers, one per tuple, in order |
| DepTools.SplitSpecString | resolver/deptools.py:499-526 | splitting the specifier string at its commas gives the terms back, when there is at least one and none holds a comma |
| DepTools.ElaborateDependencyMeaning | resolver/deptools.py:376-465 | the edep keeps the package name and the specifier string; a catalogued package gets exactly the admitted versions in catalogue order; an uncatalogued one gets PACKAGE_VERSIONS_UNKNOWN |
| DepTools.ElaborateAll | resolver/deptools.py:239-371 | one edep per dep, in order |
| DepTools.MissingDists | resolver/deptools.py:239-371 | the dist is listed once for each dep that came out as the sentinel |
| DepTools.ElaborateDependencies | resolver/deptools.py:239-371 | the method returns the elaborated dictionary and the missing packages and dists that the specification functions give |
| DepTools.ElaborateDistDeps | resolver/deptools.py:239-371 | the inner loop elaborates each dep of one dist and records each dep whose package is unknown |
| DepTools.MissingStep | resolver/deptools.py:239-371 | one more dep adds its package, and the dist, exactly when its edep is the sentinel |
| DepTools.ElaboratedEntries | resolver/deptools.py:239-371 | the elaborated dictionary has exactly the keys of deps, and each dist's edeps are its deps elaborated in order |
| DepTools.MissingListsAlign | resolver/deptools.py:239-371 | the missing-package list and the missing-dist list have the same length, and every dist listed is a key of deps |
| DepTools.MissingPackagesExact | resolver/deptools.py:376-465 | if no catalogue version is the sentinel's text, a dist's missing packages are exactly those of its deps without a catalogue entry |
| Strawman.Strawman1Method | depresolve/resolver/resolvability.py:368-417 | the recursive method returns what the specification function Strawman1 gives |
| Strawman.Strawman1Loop | depresolve/resolver/resolvability.py:398-417 | the loop over edeps appends, for each edep, the chosen dist and what it needs |
| Strawman.NewestIsNewest | depresolve/resolver/resolvability.py:407 | the first version sort_versions yields is acceptable and at least as new as every acceptable version |
| Strawman.Strawman1DepsChooses | depresolve/resolver/resolvability.py:398-415 | when strawman1 succeeds, each edep contributes its newest acceptable dist; an edep with no versions raises NoSatisfyingVersion |
| Strawman.Strawman1Chooses | depresolve/resolver/resolvability.py:368-417 | strawman1's result holds, for each edep of the dist, its newest acceptable dist |
| Strawman.Strawman1FuelMonotone | depresolve/resolver/resolvability.py:368-417 | more recursion depth changes nothing once a run has finished within the limit |
| Strawman.Strawman1Unfold | depresolve/resolver/resolvability.py:394-417 | with depth left, strawman1 on a dist with dependency data is its loop over that dist's edeps |
| Strawman.Competing | depresolve/resolver/resolvability.py:49-52 | the competitors are exactly the other candidates that start with `packname + '('` |
| Strawman.DetectModel2Method | depresolve/resolver/resolvability.py:26-59 | the method returns what DetectModel2 specifies |
| Strawman.FindCompetitor | depresolve/resolver/resolvability.py:44-57 | the loop finds a candidate with a competitor exactly when one exists |
| Strawman.StartsWithPackname | depresolve/resolver/resolvability.py:49-52 | starting with `name + '('` is having that package name |
| Strawman.Model2ConflictIff | depresolve/resolver/resolvability.py:26-59 | among formatted distkeys, a model-2 conflict is exactly two different candidates of one package |
| Strawman.DetectModel2Iff | depresolve/resolver/resolvability.py:26-59 | a model-2 conflict is reported exactly when strawman1 picks two different dists of one package |
| Strawman.SingletonNoConflict | depresolve/resolver/resolvability.py:211-233 | a single dist has no direct conflict |
| Strawman.Strawman2Sound | depresolve/resolver/resolvability.py:423-519 | a strawman2 solution holds the dist asked for and has no direct conflict |
| Strawman.Strawman2Method | depresolve/resolver/resolvability.py:423-519 | the method returns what the specification function Strawman2 gives |
| Strawman.Strawman2Edeps | depresolve/resolver/resolvability.py:465-514 | the loop over edeps returns what Strawman2Deps specifies |
| Strawman.Strawman2HandleEdep | depresolve/resolver/resolvability.py:467-514 | the body of the loop over edeps returns what Strawman2Step specifies for one edep |
| Strawman.Strawman2TryVersions | depresolve/resolver/resolvability.py:482-514 | the loop over candidate versions, newest first, returns what Strawman2Try specifies |
| Backtracking.RemainingMonotone | depresolve/resolver/resolvability.py:578-751 | a longer candidate list never leaves more packages to resolve |
| Backtracking.RemainingShrinks | depresolve/resolver/resolvability.py:624 | committing a dist of a new package with dependency data leaves fewer packages to resolve |
| Backtracking.MatchingEmptyIff | depresolve/resolver/resolvability.py:663-687 | no dist of the package is in the list exactly when the package is not among the list's packages |
| Backtracking.EdepStep | depresolve/resolver/resolvability.py:645-749 | a successful pass over one edep only extends the candidate list |
| Backtracking.TryCandidates | depresolve/resolver/resolvability.py:690-749 | a successful loop over candidate versions only extends the candidate list |
| Backtracking.BacktrackingSatisfy | depresolve/resolver/resolvability.py:520-572 | ConflictingVersion never escapes the entry point; it becomes UnresolvableConflict |
| Backtracking.EdepStepOutcomes | depresolve/resolver/resolvability.py:645-749 | an edep with no versions raises NoSatisfyingVersion; a present package is accepted without recursion exactly when its present version is acceptable; a new package tries its versions |
| Backtracking.SatisfySound | depresolve/resolver/resolvability.py:578-751 | a successful search keeps the starting dists, adds the dist asked for, has one dist per package, and meets every edep of every dist it added |
| Backtracking.StepSound | depresolve/resolver/resolvability.py:645-749 | one pass of the loop over edeps meets the edep it handles |
| Backtracking.TryRetrySound | depresolve/resolver/resolvability.py:715-720 | a rejected version hands over to the later ones, whose outcome is then the loop's |
| Backtracking.CommitSound | depresolve/resolver/resolvability.py:723-732 | merging a sound child solution keeps one dist per package and closes every new dist |
| Backtracking.BacktrackingSound | depresolve/resolver/resolvability.py:520-572 | the assertion never fails; a solution contains the dist asked for, has one dist per package and so no direct conflict, and every dist in it has dependency data and its edeps met |
| Backtracking.MetIsSatisfied | depresolve/resolver/resolvability.py:239-281 | in a list with one dist per package, an edep met in the list passes `is_dep_satisfied` |
| Backtracking.ClosedListIsFullySatisfied | depresolve/resolver/resolvability.py:287-341 | a list with one dist per package whose members are all closed passes `are_fully_satisfied`, given lower-case keys |
| Backtracking.AgreesWithValidator | depresolve/resolver/resolvability.py:520-572 | every backtracking solution passes `are_fully_satisfied` when the data is keyed by lower-case distkeys |
| Backtracking.NewPackageConflictsWithNothing | depresolve/resolver/resolvability.py:715-720 | a dist of a package not yet in the list conflicts with nothing in it |
| Backtracking.TryCandidatesStep | depresolve/resolver/resolvability.py:690-749 | what the loop over candidate versions does with its first version |
| Backtracking.BacktrackingSatisfyRec | depresolve/resolver/resolvability.py:578-751 | the recursive method returns what Satisfy specifies |
| Backtracking.SatisfyEdeps | depresolve/resolver/resolvability.py:645-749 | the loop over the edeps returns what SatisfyDeps specifies |
| Backtracking.HandleEdep | depresolve/resolver/resolvability.py:645-749 | the body of the loop over edeps returns what EdepStep specifies |
| Backtracking.TryVersions | depresolve/resolver/resolvability.py:690-749 | the loop over candidate versions returns what TryCandidates specifies |
| Backtracking.BacktrackingSatisfyMethod | depresolve/resolver/resolvability.py:520-572 | the entry point returns what BacktrackingSatisfy specifies |
| BacktrackingExamples.NewPackageGivesUp | depresolve/resolver/resolvability.py:715-749 | when the only acceptable version of a new package fails with ConflictingVersion or UnresolvableConflict, the edep raises UnresolvableConflict |
| BacktrackingExamples.PresentConflict | depresolve/resolver/resolvability.py:663-687 | an edep on a present package whose present version is not acceptable raises ConflictingVersion |
| BacktrackingExamples.SimpleSolved | tests/test_resolvability.py:62-63 | on DEPS_SIMPLE with names lower-cased, `backtracking_satisfy('x(1)')` returns x(1), b(1), a(3), c(1), the test's expected solution lower-cased |
| BacktrackingExamples.Simple2Unresolvable | tests/test_resolvability.py:65-67 | on DEPS_SIMPLE2 with names lower-cased, the backtracker raises UnresolvableConflict, as the test expects |
| BacktrackingExamples.Simple2HasSolution | tests/testdata.py:29-35 | DEPS_SIMPLE2_SOLUTION, lower-cased, passes `are_fully_satisfied`, so the failure is the backtracker's and not the graph's |
| BacktrackingExamples.OnlyEdepTaken | depresolve/resolver/resolvability.py:624-751 | a dist whose one edep is met by extending the list to t is satisfied with t |
| BacktrackingExamples.OnlyEdepConflicts | depresolve/resolver/resolvability.py:663-687 | a dist whose one edep needs a package already in the list at another version fails with ConflictingVersion |
| BacktrackingLocalExamples.OnlyEdepGivesUp | depresolve/resolver/resolvability.py:645-749 | a dist whose one edep is on a new package with a single acceptable version, whose search fails, fails with UnresolvableConflict |
| BacktrackingLocalExamples.PackagesSnoc | depresolve/resolver/resolvability.py:624 | committing a dist adds exactly its package to the packages of the list |
| BacktrackingLocalExamples.OnePerPackageSnoc | depresolve/resolver/resolvability.py:624 | committing a dist of a package not yet in the list keeps one dist per package |
| BacktrackingLocalExamples.Simple3Unresolvable | tests/test_resolvability.py:69-71 | on DEPS_SIMPLE3 with names lower-cased, the backtracker raises UnresolvableConflict, as the test expects |
| BacktrackingLocalExamples.Simple3HasSolution | tests/testdata.py:38-45 | DEPS_SIMPLE3_SOLUTION, lower-cased, passes `are_fully_satisfied`, so the failure is the backtracker's and not the graph's |
| BacktrackingLocalExamples.Simple4Unresolvable | tests/test_resolvability.py:73-75 | on DEPS_SIMPLE4 with names lower-cased, the backtracker raises UnresolvableConflict, as the test expects: e(2) is taken under b(1) and never revisited when d(1) needs e(1) |
| BacktrackingLocalExamples.Simple4HasSolution | tests/testdata.py:47-55 | DEPS_SIMPLE4_SOLUTION, lower-cased, passes `are_fully_satisfied`, so the failure is the backtracker's and not the graph's |
| ResolverPrototype.FilterNarrows | resolver/resolvability.py:185-210 | filtering by one more specifier narrows the intersection by that specifier |
| ResolverPrototype.SatisfyingAllMembers | resolver/resolvability.py:185-210 | the intersection holds exactly the catalogue versions that every specifier admits, in catalogue order |
| ResolverPrototype.SelectSatisfyingVersions | resolver/resolvability.py:185-210 | an unknown package raises KeyError; otherwise the loop filters a copy of the catalogue by each specifier string in turn |
| ResolverPrototype.StubSortVersions | resolver/resolvability.py:213-227 | the placeholder sort is a descending, string-ordered permutation of the input |
| ResolverPrototype.StubSortPutsNineFirst | resolver/resolvability.py:213-227 | string order puts '9' before '10', so the placeholder ranks 9 as newer |
| ResolverPrototype.FullySatisfyStrawman1 | resolver/resolvability.py:57-96 | the method as written, with its loop, returns what Strawman1AsWritten specifies: KeyError for an unknown dist, no dists for one without edeps, NameError otherwise |
| ResolverPrototype.Strawman1AsWrittenFails | resolver/resolvability.py:57-96 | as written, any dist with a dependency fails, on the undefined name |
| ResolverPrototype.StubFirstSingle | resolver/resolvability.py:85-87 | an edep with a single version picks that version |
| ResolverPrototype.Strawman1OnSimpleGraph | resolver/tests/test_resolvability.py:161-173 | with recursion depth 3, the intended strawman gives B(1), A(3), C(1), A(3) on the small test graph, which sorted is the test's expected list; the code as written raises NameError there |
| DepsolverIntegrate.ConvertVersionInverse | resolver/depsolver_integrate.py:48-56 | the converted version is the version followed by ".0.0", so nothing is lost |
| DepsolverIntegrate.ConvertDistkeyOfFormat | resolver/depsolver_integrate.py:60-75 | `p(v)` becomes `p-v.0.0`, or `p==v.0.0` as a requirement |
| DepsolverIntegrate.ConvertDistkeyExample | resolver/depsolver_integrate.py:63 | 'X(1)' becomes 'X-1.0.0', and 'X==1.0.0' as a requirement |
| DepsolverIntegrate.SpecClauses | resolver/depsolver_integrate.py:108-113 | there is one clause per specifier |
| DepsolverIntegrate.TerminatedIsJoin | resolver/depsolver_integrate.py:118-121 | dropping the final ", " of the spooled text leaves the clauses joined by ", " |
| DepsolverIntegrate.TerminatedLength | resolver/depsolver_integrate.py:120 | the spooled text has at least two characters per clause, and at most two only for no clause or one empty clause |
| DepsolverIntegrate.ClausesShape | resolver/depsolver_integrate.py:98-115 | every dep contributes at least one clause; only an unnamed, unconstrained dep gives an empty one |
| DepsolverIntegrate.PackageInfoMeaning | resolver/depsolver_integrate.py:80-125 | a dist without deps is its converted key; otherwise its clauses follow in `; depends (...)`; the assertion fails only on a single unnamed, unconstrained dep |
| DepsolverIntegrate.PackageInfoFails | resolver/depsolver_integrate.py:120 | the only way converting one dist fails is that assertion |
| DepsolverIntegrate.LookupFinds | resolver/depsolver_integrate.py:98 | looking up a key finds its own entry; a key that is absent finds nothing (KeyError) |
| DepsolverIntegrate.SpoolDep | resolver/depsolver_integrate.py:99-113 | the inner loop spools the text of one dep |
| DepsolverIntegrate.SpoolDeps | resolver/depsolver_integrate.py:98-115 | the outer loop spools the text of all deps of a dist, in order |
| DepsolverIntegrate.ConvertDistToPackageinfo | resolver/depsolver_integrate.py:80-125 | the method returns what PackageInfoString specifies, or KeyError for an absent distkey |
| DepsolverIntegrate.CollectMeaning | resolver/depsolver_integrate.py:140-146 | collecting succeeds exactly when every result is a value, and keeps each value in its position |
| DepsolverIntegrate.PackageInfosMeaning | resolver/depsolver_integrate.py:132-146 | the conversion succeeds exactly when every entry converts, and then lists the entries' strings in order |
| DepsolverIntegrate.ConvertPacks | resolver/depsolver_integrate.py:132-146 | the loop returns what PackageInfos specifies |
| DepsolverIntegrate.FailedEntryFails | resolver/depsolver_integrate.py:140-146 | one entry whose assertion fails makes the whole conversion fail |
| DepsolverIntegrate.PackageInfoOfB | resolver/tests/testdata.py:30 | B(1), needing A >= 2 and A < 4, becomes 'B-1.0.0; depends (A >= 2.0.0, A < 4.0.0)' |
| DepsolverIntegrate.PackageInfoOfX | resolver/tests/testdata.py:29 | X(1), needing B and C, becomes 'X-1.0.0; depends (B, C)' |
| DepsolverIntegrate.PackageInfoOfA | resolver/tests/testdata.py:32 | A(1), needing nothing, becomes 'A-1.0.0' |
| Filenames.IsSdistMeaning | depresolve/scrape_deps_and_detect_conflicts.py:384-385 | a name is an sdist exactly when its last seven characters are '.tar.gz' |
| Filenames.NormalizePackageNameChars | depresolve/scrape_deps_and_detect_conflicts.py:472-483 | character by character, '_' becomes '-' and upper-case letters become lower-case |
| Filenames.NormalizePackageNameIdempotent | depresolve/scrape_deps_and_detect_conflicts.py:472-483 | the result has no '_' and no upper-case letter, and normalising it again changes nothing |
| Filenames.NormalizePackageNameParen | depresolve/scrape_deps_and_detect_conflicts.py:472-483 | normalising adds no '(', so the result is still a package name |
| Filenames.MirrorPathParts | _s_retrieve_package_data.py:603-632 | on a path dir/pkg/base.tar.gz the helpers recover pkg and base, and the file is an sdist |
| Filenames.VersionPart | depresolve/scrape_deps_and_detect_conflicts.py:391-426 | after the package name and '-', the lowered basename is the lowered version |
| Filenames.DistkeyFromMirrorPath | depresolve/scrape_deps_and_detect_conflicts.py:391-426 | dir/pkg/pkg-ver.tar.gz gives the normalised package name and the normalised lowered version, and splitting the distkey gives both back |
| Filenames.NormalizeDistkeyParts | depresolve/scrape_deps_and_detect_conflicts.py:432-442 | normalising a distkey normalises its name and its version, and is idempotent when the version normaliser is |
| VersionRewrite.GuardedAbsent | analyze_deps_via_pip.py:437-438 | a guarded rewrite whose guard and pattern are absent changes nothing |
| VersionRewrite.NoDevUnchanged | analyze_deps_via_pip.py:386-396 | a string without 'dev' passes the dev rewrites unchanged |
| VersionRewrite.NoAlphaUnchanged | analyze_deps_via_pip.py:404-417 | a string without 'alpha' passes every alpha rewrite unchanged |
| VersionRewrite.NoAlphaBetaUnchanged | analyze_deps_via_pip.py:399-434 | a string holding neither 'alpha' nor 'beta' passes the separator and spelling steps unchanged |
| VersionRewrite.NoMarkerUnchanged | analyze_deps_via_pip.py:386-434 | a string holding no 'dev', 'alpha' or 'beta' passes every step before the '.0N' rewrites unchanged |
| VersionRewrite.LeadingZerosNone | analyze_deps_via_pip.py:437-456 | a string holding none of '.00' to '.09' passes the '.0N' rewrites unchanged |
| VersionRewrite.PlainVersionUnchanged | analyze_deps_via_pip.py:382-459 | a plain version without markers is returned unchanged by the copy without '.0N' rewrites, and by the others when it holds no '.0' |
| VersionRewrite.OldNormalizeReturnsLate | depresolve/scrape_deps_and_detect_conflicts.py:608-629 | the old rewriter returns a value only when '.09' survives the first nine '.0N' rewrites |
| VersionRewrite.BetaDashKept | analyze_deps_via_pip.py:399-417 | when beta is the only marker, with no separator before it and no '.' after it, a '-' after beta survives the rewrites as written |
| VersionExamples.BetaDashExample | analyze_deps_via_pip.py:416-417 | '1beta-2' comes out as '1b-2' from both copies as written, and as '1b2' with the guard corrected |
| VersionExamples.BetaDashAsWritten | _s_retrieve_deps_via_pip.py:257-258 | as written, both copies turn '1beta-2' into '1b-2' |
| VersionExamples.BetaDashCorrected | analyze_deps_via_pip.py:416-417 | with the guard testing 'beta-', both copies turn '1beta-2' into '1b2' |
| VersionExamples.LeadingZeroExample | analyze_deps_via_pip.py:437-440 | '0.01' keeps its leading zero in the copy without '.0N' rewrites and loses it in the analyze copy |
| VersionExamples.OldNormalizeDropsResult | depresolve/scrape_deps_and_detect_conflicts.py:625-629 | the old rewriter returns None on '1.2', which the analyze copy returns unchanged |
| VersionExamples.AlphaDotExample | analyze_deps_via_pip.py:384 | '0.1.0-alpha.1' becomes '0.1.0a1' |
| VersionExamples.DotAlphaExample | analyze_deps_via_pip.py:406 | '0.12.alpha0' becomes '0.12a0' |
| VersionExamples.DashBetaExample | analyze_deps_via_pip.py:400 | '2.0-beta5' becomes '2.0b5' |
| VersionExamples.DotDevExample | analyze_deps_via_pip.py:421 | '0.10.dev' becomes '0.10.dev0' |
| VersionExamples.BareDevExample | analyze_deps_via_pip.py:395 | '0.1.5dev-20111031' becomes '0.1.5.dev20111031' |
| SetupPy.StripOutsideQuotesMeaning | _s_retrieve_package_data.py:647-655 | stripping succeeds exactly on a string that starts and ends with the same quote, and returns what lies between; an empty string raises IndexError |
| SetupPy.StripQuoted | _s_retrieve_package_data.py:647-655 | quoting a body and stripping it gives the body back |
| SetupPy.ScanList | _s_retrieve_package_data.py:496-533 | the scanner loop returns what Scan specifies |
| SetupPy.ScanSound | _s_retrieve_package_data.py:496-533 | a successful scan of an open list has read a list body, and returns the stripped literals of its tokens |
| SetupPy.ScanComplete | _s_retrieve_package_data.py:496-533 | conversely, a well-quoted list body is scanned to its stripped literals |
| SetupPy.FirstAssignmentMeaning | _s_retrieve_package_data.py:466-490 | the search finds the first assignment of a wanted name, finds none when there is none, and fails only on a name among the last two tokens |
| SetupPy.FindListOfStringLiterals | _s_retrieve_package_data.py:446-533 | the method returns what FindList specifies |
| SetupPy.FindListMeaning | _s_retrieve_package_data.py:446-533 | the result is None when there is no assigned list, and otherwise the stripped literals of the first assigned list's body |
| SetupPy.InterestingMeaning | _s_retrieve_package_data.py:264-275 | the collected indices are exactly those of the requires names, increasing |
| SetupPy.HandleRequiresLine | _s_retrieve_package_data.py:282-377 | the loop body at one requires name returns what RequiresLine specifies |
| SetupPy.FindDependenciesInSetuppy | _s_retrieve_package_data.py:249-414 | the method returns what FindDependencies specifies |
| SetupPy.NoRequiresNoDependencies | _s_retrieve_package_data.py:249-414 | a setup.py without a requires name has no dependencies |
| SetupPy.LastResort | _s_retrieve_package_data.py:392-410 | when requires names are present but none is followed by '=' or mentions requirements.txt, the result is the sdist's requirements.txt, or an exception when there is none |
| SetupPy.InlineListsAccumulate | _s_retrieve_package_data.py:301-336 | two `requires = [...]` lines feed one result: the literals of the second follow those of the first |
| SetupPy.InlineList | _s_retrieve_package_data.py:301-336 | `requires = [` appends the scanned literals and marks dependencies found |
| SetupPy.RecordMeaning | _s_retrieve_package_data.py:588-591 | after the inner loop, each filetype the name ends with maps to the name, and the others are unchanged |
| SetupPy.FindMetadataFilesInPackage | _s_retrieve_package_data.py:578-593 | the nested loop returns what MetadataFiles specifies |
| SetupPy.MetadataFilesKeepLast | _s_retrieve_package_data.py:578-593 | as written, each filetype present maps to the last member that ends with it |
| SetupPy.MetadataFilesKeepFirst | _s_retrieve_package_data.py:578-593 | the corrected dictionary maps each filetype present to the first member that ends with it |
| SetupPy.RequirementsLineExample | _s_retrieve_package_data.py:446-533 | a variable's list is found, and its two literals come back without quotes |
| SetupPy.OtherNameExample | _s_retrieve_package_data.py:466-490 | another variable name finds nothing |
| SetupPy.NestedSetuppyExample | _s_retrieve_package_data.py:578-593 | with a second setup.py deeper in the archive, the dictionary as written holds the nested one |

## Left out

- File, JSON and SQL persistence, logging, the dot-graph output, the timeout wrapper, and the calls to pip in subprocesses are I/O. They are not modelled.
- pip's `packaging` library is not part of this model. `Versions` orders dotted-decimal releases numerically and treats any other text as a legacy version. Such a version sorts below every release and is ordered by its text. Pre-releases, epochs and local versions are legacy here.
- `Specifiers`: a malformed clause admits nothing, where pip would raise InvalidSpecifier.
- `versions_are_equal` and `assume_dep_data_exists_for` are called as `depdata.` functions (depresolve/resolver/resolvability.py:129, 200, 274, 331, 392, 454, 635), but their definitions are not part of this model. Version equivalence is taken to be `Versions.Equivalent`. The data check is modelled from the `are_fully_satisfied` docstring (depresolve/resolver/resolvability.py:318-321): a distkey that is not a key of the dependency data gives MissingDependencyInfo.
- `Errors.MissingDependencyInfo` stands for `depresolve.MissingDependencyInfoError`, which callers catch and the docstring names. Its class definition is not part of this model; depresolve/__init__.py defines only the other three resolver exceptions.
- Python's `tokenize`, `tarfile` and file reading become parameters. `SetupPy` takes the token list, the archive's member names and the requirements.txt contents as inputs.
- `Strawman.Strawman1`, `Strawman.Strawman2`: the strawmen recurse without end on a dependency cycle. The model bounds the recursion by a fuel parameter that stands for Python's recursion limit. Running out is a RecursionLimit outcome.
- `PyStr.Lower` lower-cases ASCII letters only.
- `BacktrackingExamples`, `BacktrackingLocalExamples`: the example graphs are DEPS_SIMPLE to DEPS_SIMPLE4 of tests/testdata.py:15-55, and the expected solutions are theirs, with every name lower-cased ('X(1)' becomes 'x(1)', 'B' becomes 'b'). The tests ask for 'x(1)' (tests/test_resolvability.py:61-75), distkeys are meant to be lower-case (depresolve/depdata.py:36-38), and `are_fully_satisfied` lower-cases its candidates (depresolve/resolver/resolvability.py:327).
- `Backtracking.Satisfy`, `Backtracking.BacktrackingSatisfy`: `_backtracking_satisfy` recurses once per level of dependency nesting (depresolve/resolver/resolvability.py:713-715). A chain deeper than Python's recursion limit raises RecursionError there. The model has no such limit: `Satisfy` ends by its measure, the packages not yet in the list, and returns its result at any depth.
- `Backtracking.Satisfy`, `Backtracking.BacktrackingSatisfy`: both require `WellFormedEdeps`, that no package name in the dependency data contains '('. The source accepts such names, but `find_dists_matching_packname` cuts a distkey at its first '(' (depresolve/resolver/resolvability.py:147-165). On data such as 'x(1)' depending on ('a(b', ['1']) and 'a(b(1)' depending on ('a(b', ['1']), the source then recurses until Python's recursion limit. Distkeys are `packname(version)` with a name free of '(' (depresolve/depdata.py:36-38, 417-419), so the model keeps to such data.
- `Specifiers.Filter`, `Specifiers.EmptySpecAdmitsAll`: legacy versions and pre-releases pass `Filter` whenever `Sat` admits them. pip's `SpecifierSet.filter` drops legacy versions and, unless asked otherwise, pre-releases, so pip's `SpecifierSet('').filter(['1.0', 'foo'])` gives ['1.0'] where `Filter` gives both.
- `Resolvability.Combine`: `list(set(...))` has no defined order in Python. The model keeps each dist at its first occurrence, and no property depends on the order.
- `Backtracking.Satisfy`: `_conflicting_distkeys` is always empty in the source. The branch that skips conflicting dists is never taken and is left out, and so is the conflict list.
- `satisfy2`, and the commented-out `still_resolvable_so_far` and `satisfy_dependencies` in depresolve/resolver/resolvability.py, are unfinished drafts that no test or resolver uses. The same holds for `satisfy_dependencies` and `still_resolvable_so_far` in resolver/resolvability.py.
- depresolve/resolver/depsolver_integrate.py is a later copy of resolver/depsolver_integrate.py that adds calls into depsolver. Only the conversion of resolver/depsolver_integrate.py is modelled. depsolver itself is a foreign package.
- The scraper's `normalize_version_string` delegates to pip. It is a parameter of `Filenames.DistkeyFromFullFilename` and `Filenames.NormalizeDistkey`.
- The tests' other concrete examples are not restated as lemmas; the general lemmas of each operation cover them. These are the examples for `conflicts_with`, `dist_lists_are_equal`, `sort_versions` and `select_satisfying_versions`, and the package counts of DEPS_MODERATE.
- The model-2 conflict the detector finds for motorengine(0.7.4) in DEPS_MODEL2 is not worked through as an example lemma. A concrete run needs one lemma per search step, and DEPS_MODEL2 is the largest test graph. The general lemma `Strawman.DetectModel2Iff` still applies to it.

## Findings

| source | as written | input that shows it | evidently intended | confidence | as-written member | corrected member |
|---|---|---|---|---|---|---|
| resolver/resolvability.py:57-96 | the recursive call names `strawman_fully_satisfy`, which is not defined, and an empty edep raises the undefined `NoSatisfyingVersion` | any dist with a dependency, e.g. X(1) of the small test graph | a recursive call to `fully_satisfy_strawman1` | not executed | ResolverPrototype.Strawman1AsWrittenFails | ResolverPrototype.Strawman1OnSimpleGraph |
| analyze_deps_via_pip.py:416-417 | the guard before removing 'beta-' tests `'alpha-' in version`; the same holds at _s_retrieve_deps_via_pip.py:257-258 and depresolve/scrape_deps_and_detect_conflicts.py:579-580 | '1beta-2' gives '1b-2' | the guard tests `'beta-' in version`, giving '1b2' | not executed | VersionExamples.BetaDashAsWritten | VersionExamples.BetaDashCorrected |
| depresolve/scrape_deps_and_detect_conflicts.py:625-629 | `return version` sits inside `if '.09' in version:`, so the function returns None otherwise | '1.2' gives None | return the rewritten version in every case, as analyze_deps_via_pip.py:459 does | not executed | VersionExamples.OldNormalizeDropsResult | VersionRewrite.PlainVersionUnchanged |
| _s_retrieve_package_data.py:578-593 | each member whose name ends with a filetype overwrites the entry, so the last match wins | an archive holding pkg/setup.py and then pkg/tests/setup.py | the package's own, first setup.py | not executed | SetupPy.MetadataFilesKeepLast | SetupPy.MetadataFilesKeepFirst |
