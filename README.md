# simulation_workflows: file selection and CDO input expressions

`simulation_workflows` chains Prefect tasks that post-process FESOM ocean-model output with
the CDO command-line tool. Most of it delegates to CDO, pyfesom2, xarray and the Prefect
engine. This model covers the list and string logic the repository implements itself:

- `get_newest_files_for_pattern`: keeps the files whose name matches a regular expression,
  sorts them by name and returns the last `n` (`files[-n:]`);
- the `*_files` tasks: each builds a CDO input expression from a list of files (joined with
  single spaces, optionally preceded by `-selvar,<var>`) and hands it, with a fixed operator
  name, to `Command.run`;
- `finalize_pattern`: the FESOM output file-name pattern for a variable;
- `get_n_newest_files_for_pattern`: lists a directory, keeps the full paths matching a
  pattern, sorts them in place by modification time, newest first, and returns the first `n`
  (`files[:n]`).

Modules:

- `PyBuiltins` (`python_builtins.dfy`): the Python built-ins the code relies on.
  These are slicing with negative bounds, a list-comprehension filter, `str` ordering,
  `sorted`, the stable `list.sort(key=..., reverse=True)` and `" ".join`. It also defines
  `str.split(" ")`, which the code does not call, as the inverse of the join that shows what a
  joined input holds.
- `PrefectCdo` (`prefect_cdo.dfy`): how Python binds keywords to
  `Command.run(self, command, input_file, output_file=None, **kwargs)`, and what `run` forwards.
- `CommonCdoChains` (`common_cdo_chains.dfy`): the lexicographic selector and the input
  expression builders.
- `Fesom2dVariable` (`fesom_2d_variable.dfy`): the pattern and the modification-time
  selector. The selector is a method that copies the matches into an array and sorts it in
  place with a stable insertion sort.

The regular-expression engine is a parameter `search: (pattern, string) -> bool` standing for
`re.search(...) is not None`. The directory listing is a sequence of entry names. The
modification time is a function from path to integer.

Where the two selectors differ, the model follows the code. With `n == 0`, the lexicographic
selector returns every match (`files[-0:]` is the whole list), while the modification-time
selector returns none. A negative `n` is modelled with Python's slice rules in both.

## Model

| member | source | states |
|---|---|---|
| PyBuiltins.SliceFrom | simulation_workflows/tasks/common_cdo_chains.py:38 | `s[start:]` with Python's rules: a suffix of `s`; a non-negative start drops that many elements (all if it exceeds the length); a negative start keeps the last `-start` elements (all if `-start` exceeds the length) |
| PyBuiltins.SliceTo | simulation_workflows/workflows/fesom_2d_variable.py:45 | `s[:stop]` with Python's rules: a prefix of `s`; of length `min(stop, len)` for a non-negative stop, and `len + stop` (at least 0) for a negative one |
| PyBuiltins.FilterMatches | simulation_workflows/tasks/common_cdo_chains.py:35 | the comprehension `[f for f in files if re.search(pattern, f)]` is no longer than its input, and each item it keeps is an input item that matches |
| PyBuiltins.FilterMatchesMultiset | simulation_workflows/tasks/common_cdo_chains.py:35 | each string occurs in the filtered list exactly as often as in the input if it matches, and not at all otherwise: duplicates are neither dropped nor invented |
| PyBuiltins.FilterMatchesAppend | simulation_workflows/workflows/fesom_2d_variable.py:39 | filtering a concatenation is concatenating the filtered parts, so the filter keeps input order |
| PyBuiltins.StrLe | simulation_workflows/tasks/common_cdo_chains.py:35 | Python's `<=` on `str`: a prefix sorts at or before the longer string, and nothing but the empty string sorts at or before the empty string |
| PyBuiltins.StrLeReflexive | simulation_workflows/tasks/common_cdo_chains.py:35 | Python's `str` ordering (code-point lexicographic) is reflexive |
| PyBuiltins.StrLeTotal | simulation_workflows/tasks/common_cdo_chains.py:35 | any two strings are comparable |
| PyBuiltins.StrLeAntisymmetric | simulation_workflows/tasks/common_cdo_chains.py:35 | two strings each at most the other are equal |
| PyBuiltins.StrLeTransitive | simulation_workflows/tasks/common_cdo_chains.py:35 | the ordering is transitive, so `sorted` has a well-defined result |
| PyBuiltins.StrLeAtFirstDifference | simulation_workflows/tasks/common_cdo_chains.py:35 | strings that agree up to a position and differ there are ordered by the code points at that position |
| PyBuiltins.InsertByName | simulation_workflows/tasks/common_cdo_chains.py:35 | inserting a name into a list adds exactly that one name |
| PyBuiltins.InsertByNameSorted | simulation_workflows/tasks/common_cdo_chains.py:35 | inserting into an ascending list keeps it ascending |
| PyBuiltins.SortByName | simulation_workflows/tasks/common_cdo_chains.py:35 | `sorted(...)` returns a permutation of its input in ascending order |
| PyBuiltins.SortedByNameUnique | simulation_workflows/tasks/common_cdo_chains.py:35 | two ascending lists with the same elements, duplicates counted, are equal: the sorted order is unique |
| PyBuiltins.InsertByKeyPermutation | simulation_workflows/workflows/fesom_2d_variable.py:43 | one insertion step of the descending sort adds exactly the inserted element |
| PyBuiltins.SortByKeyReversed | simulation_workflows/workflows/fesom_2d_variable.py:43 | `list.sort(key=..., reverse=True)` keeps the length; its order, elements and stability are the lemmas below |
| PyBuiltins.SortByKeyReversedPermutation | simulation_workflows/workflows/fesom_2d_variable.py:43 | `list.sort(key=..., reverse=True)` rearranges the list without adding or losing elements |
| PyBuiltins.InsertByKeyNonIncreasing | simulation_workflows/workflows/fesom_2d_variable.py:43 | inserting into a list ordered newest first keeps it ordered newest first |
| PyBuiltins.SortByKeyReversedNonIncreasing | simulation_workflows/workflows/fesom_2d_variable.py:43 | after the sort, keys never increase from one element to the next |
| PyBuiltins.WithKeyInsertByKey | simulation_workflows/workflows/fesom_2d_variable.py:43 | an insertion places the new element after every element with an equal key |
| PyBuiltins.SortByKeyReversedStable | simulation_workflows/workflows/fesom_2d_variable.py:43 | stability: for every key value, the elements carrying it appear in the same relative order before and after the sort |
| PyBuiltins.WithKeyPrefix | simulation_workflows/workflows/fesom_2d_variable.py:45 | taking a prefix keeps, for every key, a prefix of the elements carrying that key |
| PyBuiltins.NonIncreasingStableUnique | simulation_workflows/workflows/fesom_2d_variable.py:43 | two lists ordered newest first that agree, key by key, on the order of their elements are equal: a stable descending sort has exactly one result |
| PyBuiltins.Join | simulation_workflows/tasks/common_cdo_chains.py:51 | `" ".join` of no items is `""`, of one item is that item |
| PyBuiltins.Split | simulation_workflows/tasks/common_cdo_chains.py:51 | `str.split(" ")` gives at least one piece, and no piece contains the separator |
| PyBuiltins.JoinSplit | simulation_workflows/tasks/common_cdo_chains.py:51 | joining the pieces of a split with the separator gives back the string |
| PyBuiltins.SplitWithoutSep | simulation_workflows/tasks/common_cdo_chains.py:51 | a string without the separator splits into itself alone |
| PyBuiltins.SplitPieceThenSep | simulation_workflows/tasks/common_cdo_chains.py:70 | a separator-free word followed by the separator splits into that word and then the split of the rest |
| PyBuiltins.SplitJoin | simulation_workflows/tasks/common_cdo_chains.py:51 | splitting the join of a non-empty list of separator-free names gives back the list, empty names included |
| PrefectCdo.MergeKeywords | simulation_workflows/tasks/common_cdo_chains.py:52 | `f(k=v, **extra)` binds when the explicit and the unpacked keywords do not overlap; then each keyword keeps its value; otherwise the call fails naming the overlap |
| PrefectCdo.Run | simulation_workflows/tasks/prefect_cdo.py:32-44 | a keyword call to `run` binds exactly when `self`, `command`, `input` and `output` are absent and `input_file` is present; then CDO receives `input=input_file`, `output=output_file` (default `None`) and the remaining keywords; without `input_file` it is a missing-argument error |
| CommonCdoChains.GetNewestFilesForPattern | simulation_workflows/tasks/common_cdo_chains.py:17-38 | every returned file is an input file that matches; the result is ascending by name; it takes no more of each file than the matches hold; its length is `min(n, matches)` for `n >= 1`, all matches for `n == 0`, and the matches less `-n` (at least 0) for `n < 0` |
| CommonCdoChains.SortedTail | simulation_workflows/tasks/common_cdo_chains.py:35-38 | the slice `[-n:]` of any ascending arrangement of the matches is ascending, holds only matches (duplicates counted), and has the length stated for the selector, including all matches for `n == 0` |
| CommonCdoChains.NewestFilesZeroKeepsAll | simulation_workflows/tasks/common_cdo_chains.py:38 | with `n == 0` the result is the whole sorted match list, with every matching input file as often as it was listed |
| CommonCdoChains.NewestFilesAreLast | simulation_workflows/tasks/common_cdo_chains.py:35-38 | the result is a suffix of the sorted matches, and every match left out sorts at or before every file returned |
| CommonCdoChains.NewestFilesAnySort | simulation_workflows/tasks/common_cdo_chains.py:35-38 | any ascending arrangement of the matches, sliced with `[-n:]`, gives the same result |
| CommonCdoChains.NewestFilesExample | simulation_workflows/tasks/common_cdo_chains.py:35-38 | for `a_2000.nc, a_1999.nc, a_2001.nc`, `n == 2` gives `a_2000.nc, a_2001.nc` and `n == 0` gives all three in name order |
| CommonCdoChains.JoinedFiles | simulation_workflows/tasks/common_cdo_chains.py:51 | no files give the empty input; a non-empty list of names without spaces is recovered by splitting on spaces |
| CommonCdoChains.SelvarInput | simulation_workflows/tasks/common_cdo_chains.py:68-70 | the input is `-selvar,<var> ` followed by the space-joined files (exactly `-selvar,<var> ` for no files); for a variable without spaces, splitting it on spaces gives `-selvar,<var>` followed by the split of the joined files, and for a non-empty list of space-free names, the names themselves |
| CommonCdoChains.MergetimeFiles | simulation_workflows/tasks/common_cdo_chains.py:41-52 | operator `mergetime`, the caller's output and options unchanged, and the input is the files joined with single spaces for every list (`""` for no files); for a non-empty list of names without spaces it splits back into the files |
| CommonCdoChains.MergetimeSelvarFiles | simulation_workflows/tasks/common_cdo_chains.py:55-71 | operator `mergetime`, output and options unchanged; the input is `-selvar,<var> ` followed by the space-joined files, so exactly `-selvar,<var> ` for no files; for a variable without spaces it splits into `-selvar,<var>` and the split of the joined files, which is the files themselves for a non-empty list of names without spaces |
| CommonCdoChains.SelvarFiles | simulation_workflows/tasks/common_cdo_chains.py:74-90 | operator `selvar`, output and options unchanged; the input is `-selvar,<var> ` followed by the space-joined files, so exactly `-selvar,<var> ` for no files; for a variable without spaces it splits into `-selvar,<var>` and the split of the joined files, which is the files themselves for a non-empty list of names without spaces |
| CommonCdoChains.TimmeanFiles | simulation_workflows/tasks/common_cdo_chains.py:93-104 | operator `timmean`, the caller's output and options unchanged, and the input is the files joined with single spaces for every list (`""` for no files); for a non-empty list of names without spaces it splits back into the files |
| CommonCdoChains.YmonmeanFiles | simulation_workflows/tasks/common_cdo_chains.py:107-118 | operator `ymonmean`, the caller's output and options unchanged, and the input is the files joined with single spaces for every list (`""` for no files); for a non-empty list of names without spaces it splits back into the files |
| CommonCdoChains.YseasmeanFiles | simulation_workflows/tasks/common_cdo_chains.py:121-132 | operator `yseasmean`, the caller's output and options unchanged, and the input is the files joined with single spaces for every list (`""` for no files); for a non-empty list of names without spaces it splits back into the files |
| CommonCdoChains.YmonmeanSelvarFiles | simulation_workflows/tasks/common_cdo_chains.py:135-151 | operator `ymonmean`, output and options unchanged; the input is `-selvar,<var> ` followed by the space-joined files, so exactly `-selvar,<var> ` for no files; for a variable without spaces it splits into `-selvar,<var>` and the split of the joined files, which is the files themselves for a non-empty list of names without spaces |
| CommonCdoChains.YseasmeanSelvarFiles | simulation_workflows/tasks/common_cdo_chains.py:154-170 | operator `yseasmean`, output and options unchanged; the input is `-selvar,<var> ` followed by the space-joined files, so exactly `-selvar,<var> ` for no files; for a variable without spaces it splits into `-selvar,<var>` and the split of the joined files, which is the files themselves for a non-empty list of names without spaces |
| CommonCdoChains.OutputValue | simulation_workflows/tasks/common_cdo_chains.py:52 | `output=` carries `None` exactly when the task was given no output file, and the path otherwise |
| CommonCdoChains.DispatchAsWritten | simulation_workflows/tasks/common_cdo_chains.py:52 | the call `cdo.run(op, input=..., output=..., **kwargs)` never binds; when the options use no reserved name, the error is the missing `input_file` |
| CommonCdoChains.Dispatch | simulation_workflows/tasks/prefect_cdo.py:32-44 | the call with `input_file=`/`output_file=` binds exactly when no option uses a reserved keyword, and then CDO receives the operator, input expression, output and options unchanged |
| Fesom2dVariable.FinalizePattern | simulation_workflows/workflows/fesom_2d_variable.py:25-29 | the pattern is the variable name followed by `.fesom.[0-9]{6}.01.nc` |
| Fesom2dVariable.FinalizePatternInjective | simulation_workflows/workflows/fesom_2d_variable.py:29 | the pattern determines the variable name, so different variables give different patterns |
| Fesom2dVariable.Candidates | simulation_workflows/workflows/fesom_2d_variable.py:38 | one candidate per listed entry, in listing order, each `path + "/" + name` |
| Fesom2dVariable.NewestByMtime | simulation_workflows/workflows/fesom_2d_variable.py:38-45 | the whole selection as one expression: `min(n, matches)` paths for `n >= 0` (none for `n == 0`), the matches less `-n` (at least 0) for `n < 0`; order, membership and stability are the lemmas below |
| Fesom2dVariable.SortByMtimeReversed | simulation_workflows/workflows/fesom_2d_variable.py:43 | the in-place sort leaves the array holding the stable newest-first ordering of its old contents |
| Fesom2dVariable.InsertNext | simulation_workflows/workflows/fesom_2d_variable.py:43 | one in-place step moves the next element behind the last element at least as new, and leaves the unsorted part untouched |
| Fesom2dVariable.InsertByKeyAt | simulation_workflows/workflows/fesom_2d_variable.py:43 | the insertion step puts the element just after the last element at least as new |
| Fesom2dVariable.GetNNewestFilesForPattern | simulation_workflows/workflows/fesom_2d_variable.py:33-45 | each result is `path/name` for a listed entry and the full path matches; the result is newest first; its length is `min(n, matches)` for `n >= 0` (none for `n == 0`) and the matches less `-n` (at least 0) for `n < 0` |
| Fesom2dVariable.NewestByMtimeMatches | simulation_workflows/workflows/fesom_2d_variable.py:38-39 | every selected path matches the pattern as a whole path and is `path/name` for a listed entry |
| Fesom2dVariable.NewestByMtimeNonIncreasing | simulation_workflows/workflows/fesom_2d_variable.py:43-45 | the selection is ordered newest first |
| Fesom2dVariable.LeftOutAreOlder | simulation_workflows/workflows/fesom_2d_variable.py:43-45 | the result is a prefix of the sorted matches, and every match left out is no newer than any path returned |
| Fesom2dVariable.EqualMtimeKeepsListingOrder | simulation_workflows/workflows/fesom_2d_variable.py:43-45 | for every modification time, the returned paths carrying it are the first matched paths carrying it, in listing order |
| Fesom2dVariable.NewestByMtimeIsPermutationPrefix | simulation_workflows/workflows/fesom_2d_variable.py:39-45 | the returned paths and the matches left out together are exactly the matched candidates, duplicates counted |
| Fesom2dVariable.NewestByMtimeAnyStableSort | simulation_workflows/workflows/fesom_2d_variable.py:43-45 | any stable newest-first arrangement of the matches, sliced with `[:n]`, gives the same result |
| Fesom2dVariable.NewestByMtimeExample | simulation_workflows/workflows/fesom_2d_variable.py:38-45 | for entries `a_2000.nc, a_1999.nc, a_2001.nc` in `out` with times 1, 3, 2, `n == 2` gives `out/a_1999.nc, out/a_2001.nc` and `n == 0` gives nothing |

## Left out

- Regular expressions: `re.search` is the parameter `search`. The regular-expression syntax, and the `re.error` an invalid pattern raises, are not modelled.
- `os.listdir` and `stat()`: the listing and the modification times are inputs. Errors from a missing directory or a vanished file are not modelled.
- `st_mtime` is a float. The model uses integer times, so ordering by time is exact and NaN cannot occur.
- `pathlib.Path`: the modification-time selector returns `Path` objects; the model returns the path strings. The normalisation `Path` applies is not modelled: it collapses repeated `/` (except a leading `//`), drops single `.` components and a trailing `/`. The model's string result can be passed on to `MergetimeFiles`, whereas `" ".join` over the `Path` objects the Python function returns raises a `TypeError` when the workflow passes them to `mergetime_files`; the workflow is not part of this model.
- File names that are not valid Unicode: `os.listdir` returns them with lone surrogate code points (the `surrogateescape` error handler), which a Dafny `string` cannot hold, so such names are outside the model.
- MergetimeSelvarFiles: for a variable name containing a space, only the decomposition of the input into `-selvar,<var> ` and the joined files is stated; the split round trip is stated for variables without spaces, because a space inside the name splits it into two pieces.
- SelvarFiles: for a variable name containing a space, only the decomposition of the input into `-selvar,<var> ` and the joined files is stated; the split round trip is stated for variables without spaces, because a space inside the name splits it into two pieces.
- YmonmeanSelvarFiles: for a variable name containing a space, only the decomposition of the input into `-selvar,<var> ` and the joined files is stated; the split round trip is stated for variables without spaces, because a space inside the name splits it into two pieces.
- YseasmeanSelvarFiles: for a variable name containing a space, only the decomposition of the input into `-selvar,<var> ` and the joined files is stated; the split round trip is stated for variables without spaces, because a space inside the name splits it into two pieces.
- Logging and the loop that only logs (simulation_workflows/tasks/common_cdo_chains.py:29-34, 37, and the logger calls in simulation_workflows/workflows/fesom_2d_variable.py) are side effects only.
- The CDO binding behind `Command.run` (`getattr(self.CDO, command)(...)`), the `cdo` subprocess and its result: the model stops at the invocation CDO would receive. `Command.__init__` is not modelled.
- Keyword values in `**kwargs` are limited to strings, booleans and `None`; the model does not interpret them.
- `depth_profile_at_point` (simulation_workflows/tasks/common_cdo_chains.py:173-193) formats floats into the command string; float formatting is not modelled.
- `np_arange` and the latitude/longitude grid (simulation_workflows/workflows/fesom_2d_variable.py:16-21) use floating-point `numpy.arange`.
- The `Flow` and its `Parameter`s (simulation_workflows/workflows/fesom_2d_variable.py:48-82) are task wiring executed by the Prefect engine.
- simulation_workflows/tasks/fesom.py (mesh loading, interpolation, MOC) calls pyfesom2, f90nml and xarray; it is not part of this model.
- simulation_workflows/tasks/cdo_flow_examples.py and setup.py are a demonstration script and packaging metadata; they are not part of this model.

## Findings

| source | as written | input that shows it | evidently intended | confidence | as-written member | corrected member |
|---|---|---|---|---|---|---|
| simulation_workflows/tasks/common_cdo_chains.py:52 (also 69-71, 88-90, 104, 118, 132, 149-151, 168-170) against simulation_workflows/tasks/prefect_cdo.py:32 | every `*_files` task calls `cdo.run(op, input=..., output=..., **kwargs)`, but `run` declares `input_file` and `output_file`; `input` and `output` fall into `**kwargs` and `input_file` stays unbound | `mergetime_files(["a.nc"])`: `input_file` is missing, a `TypeError`; with `input_file` among the extra `**kwargs`, `input` reaches the CDO binding twice | pass the expression as `input_file=` and the output as `output_file=`, so CDO receives the operator, input expression, output and options | high, not executed | CommonCdoChains.DispatchAsWritten | CommonCdoChains.Dispatch |
