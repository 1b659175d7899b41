/**
 * The CDO command chains of `common_cdo_chains.py`: the selector that keeps the
 * lexicographically last files matching a pattern, and the `*_files` tasks, which build the
 * input expression of a CDO operator from a list of files.
 *
 * A task is modelled by the call it hands to `cdo.run`: the operator name, the input
 * expression, the output file and the extra options (`**kwargs`), as a `CdoCall`.
 */
module CommonCdoChains {
  import opened PyBuiltins
  import PrefectCdo

  // ---------------------------------------------------------------------------
  // get_newest_files_for_pattern

  /**
   * `sorted([f for f in files if re.search(pattern, f)])[-n:]`.
   * Python's `-0 == 0` makes `n == 0` keep every match; a negative `n` drops the first
   * `-n` matches instead.
   */
  function GetNewestFilesForPattern(files: seq<string>, n: int, pattern: string, search: Search): (r: seq<string>)
    ensures forall f :: f in r ==> f in files && search(pattern, f)
    ensures SortedByName(r)
    ensures n >= 0 ==> |r| == if n == 0 then |FilterMatches(files, pattern, search)|
                              else Min(n, |FilterMatches(files, pattern, search)|)
    ensures n < 0 ==> |r| == Max(0, |FilterMatches(files, pattern, search)| + n)
    ensures multiset(r) <= multiset(FilterMatches(files, pattern, search))
  {
    var matches := FilterMatches(files, pattern, search);
    var sorted := SortByName(matches);
    SortedTail(matches, sorted, n);
    SliceFrom(sorted, -n)
  }

  /** The slice `[-n:]` of a sorted arrangement of `matches` and what it keeps. */
  lemma SortedTail(matches: seq<string>, sorted: seq<string>, n: int)
    requires SortedByName(sorted) && multiset(sorted) == multiset(matches)
    ensures var r := SliceFrom(sorted, -n);
            && SortedByName(r)
            && multiset(r) <= multiset(matches)
            && (forall f :: f in r ==> f in matches)
            && (n >= 0 ==> |r| == if n == 0 then |matches| else Min(n, |matches|))
            && (n < 0 ==> |r| == Max(0, |matches| + n))
  {
    assert |sorted| == |multiset(sorted)| == |matches|;
    var k := |sorted| - |SliceFrom(sorted, -n)|;
    SuffixSorted(sorted, k);
    SuffixMultiset(sorted, matches, k);
  }

  /** A suffix of an ascending list is ascending. */
  lemma SuffixSorted(sorted: seq<string>, k: nat)
    requires SortedByName(sorted) && k <= |sorted|
    ensures SortedByName(sorted[k..])
  {
    forall i, j | 0 <= i < j < |sorted| - k ensures StrLe(sorted[k..][i], sorted[k..][j]) {
      assert sorted[k..][i] == sorted[k + i] && sorted[k..][j] == sorted[k + j];
    }
  }

  /** A suffix of a rearrangement of `matches` holds only elements of `matches`, duplicates counted. */
  lemma SuffixMultiset(sorted: seq<string>, matches: seq<string>, k: nat)
    requires multiset(sorted) == multiset(matches) && k <= |sorted|
    ensures multiset(sorted[k..]) <= multiset(matches)
    ensures forall f :: f in sorted[k..] ==> f in matches
  {
    assert sorted == sorted[..k] + sorted[k..];
    assert multiset(sorted) == multiset(sorted[..k]) + multiset(sorted[k..]);
    forall f | f in sorted[k..] ensures f in matches {
      assert f in multiset(sorted);
    }
  }

  /** With `n == 0` the selector returns every match, sorted, and not an empty list. */
  lemma {:induction false} NewestFilesZeroKeepsAll(files: seq<string>, pattern: string, search: Search)
    ensures GetNewestFilesForPattern(files, 0, pattern, search) == SortByName(FilterMatches(files, pattern, search))
    ensures forall f :: multiset(GetNewestFilesForPattern(files, 0, pattern, search))[f]
                          == if search(pattern, f) then multiset(files)[f] else 0
  {
    FilterMatchesMultiset(files, pattern, search);
  }

  /**
   * The result is the tail of the sorted matches, and every match left out sorts before
   * every file returned.
   */
  lemma {:induction false} NewestFilesAreLast(files: seq<string>, n: int, pattern: string, search: Search)
    ensures var sorted := SortByName(FilterMatches(files, pattern, search));
            var r := GetNewestFilesForPattern(files, n, pattern, search);
            && r == sorted[|sorted| - |r|..]
            && forall i, j :: 0 <= i < |sorted| - |r| && 0 <= j < |r| ==> StrLe(sorted[i], r[j])
  {
    var sorted := SortByName(FilterMatches(files, pattern, search));
    var r := GetNewestFilesForPattern(files, n, pattern, search);
    assert r == SliceFrom(sorted, -n);
    SuffixSortsLast(sorted, |sorted| - |r|);
  }

  /** In an ascending list, everything before position `k` sorts at or before everything from `k` on. */
  lemma SuffixSortsLast(sorted: seq<string>, k: nat)
    requires SortedByName(sorted) && k <= |sorted|
    ensures forall i, j :: 0 <= i < k && 0 <= j < |sorted| - k ==> StrLe(sorted[i], sorted[k..][j])
  {
    forall i, j | 0 <= i < k && 0 <= j < |sorted| - k ensures StrLe(sorted[i], sorted[k..][j]) {
      assert sorted[k..][j] == sorted[k + j];
    }
  }

  /**
   * The result does not depend on the sorting algorithm: any ascending arrangement of the
   * matches, sliced the same way, gives it. Duplicated names are all kept.
   */
  lemma {:induction false} NewestFilesAnySort(files: seq<string>, n: int, pattern: string, search: Search, arranged: seq<string>)
    requires SortedByName(arranged)
    requires multiset(arranged) == multiset(FilterMatches(files, pattern, search))
    ensures GetNewestFilesForPattern(files, n, pattern, search) == SliceFrom(arranged, -n)
  {
    SortedByNameUnique(arranged, SortByName(FilterMatches(files, pattern, search)));
  }

  /** The three names of the example below, in ascending order. */
  lemma ExampleNamesAscending(arranged: seq<string>)
    requires arranged == ["a_1999.nc", "a_2000.nc", "a_2001.nc"]
    ensures SortedByName(arranged)
  {
    var a, b, c := arranged[0], arranged[1], arranged[2];
    assert a[2] == '1' && b[2] == '2' && a[..2] == b[..2];
    StrLeAtFirstDifference(a, b, 2);
    assert b[5] == '0' && c[5] == '1' && b[..5] == c[..5];
    StrLeAtFirstDifference(b, c, 5);
    StrLeTransitive(a, b, c);
  }

  lemma ExampleAllMatch(files: seq<string>, search: Search)
    requires |files| == 3 && search("a_", files[0]) && search("a_", files[1]) && search("a_", files[2])
    ensures FilterMatches(files, "a_", search) == files
  {
    assert files[1..][1..][1..] == [];
    assert FilterMatches(files[1..][1..], "a_", search) == [files[2]];
    assert FilterMatches(files[1..], "a_", search) == [files[1], files[2]];
  }

  /**
   * Three yearly files listed out of order, all matching: `n == 2` gives the two names that
   * sort last, while `n == 0` gives all three rather than none.
   */
  lemma NewestFilesExample(files: seq<string>, search: Search)
    requires files == ["a_2000.nc", "a_1999.nc", "a_2001.nc"]
    requires forall f :: f in files ==> search("a_", f)
    ensures GetNewestFilesForPattern(files, 2, "a_", search) == ["a_2000.nc", "a_2001.nc"]
    ensures GetNewestFilesForPattern(files, 0, "a_", search) == ["a_1999.nc", "a_2000.nc", "a_2001.nc"]
  {
    var arranged := ["a_1999.nc", "a_2000.nc", "a_2001.nc"];
    ExampleArrangement(files, arranged, search);
    NewestFilesAnySort(files, 2, "a_", search, arranged);
    NewestFilesAnySort(files, 0, "a_", search, arranged);
  }

  /** The example's matches, arranged by name. */
  lemma ExampleArrangement(files: seq<string>, arranged: seq<string>, search: Search)
    requires files == ["a_2000.nc", "a_1999.nc", "a_2001.nc"]
    requires arranged == ["a_1999.nc", "a_2000.nc", "a_2001.nc"]
    requires forall f :: f in files ==> search("a_", f)
    ensures SortedByName(arranged)
    ensures multiset(arranged) == multiset(FilterMatches(files, "a_", search))
  {
    ExampleNamesAscending(arranged);
    ExampleAllMatch(files, search);
    assert arranged == [files[1], files[0], files[2]];
  }

  // ---------------------------------------------------------------------------
  // The input expressions

  /** `" ".join(files)`. */
  function JoinedFiles(files: seq<string>): (joined: string)
    ensures files == [] ==> joined == ""
    ensures files != [] && (forall f :: f in files ==> ' ' !in f) ==> Split(joined, ' ') == files
  {
    if files != [] && (forall f :: f in files ==> ' ' !in f) then SplitJoin(files, ' '); Join(files, " ")
    else Join(files, " ")
  }

  /** `f"-selvar,{var} {joined_files}"`: select the variable, then read the files. */
  function SelvarInput(variable: string, files: seq<string>): (input: string)
    ensures |input| == |variable| + 9 + |JoinedFiles(files)|
    ensures input[..|variable| + 9] == "-selvar," + variable + " " && input[|variable| + 9..] == JoinedFiles(files)
    ensures files == [] ==> input == "-selvar," + variable + " "
    ensures ' ' !in variable ==> Split(input, ' ') == ["-selvar," + variable] + Split(JoinedFiles(files), ' ')
    ensures ' ' !in variable && files != [] && (forall f :: f in files ==> ' ' !in f)
            ==> Split(input, ' ') == ["-selvar," + variable] + files
  {
    var input := "-selvar," + variable + " " + JoinedFiles(files);
    assert ' ' !in "-selvar,";
    if ' ' !in variable then
      SplitPieceThenSep("-selvar," + variable, ' ', JoinedFiles(files));
      input
    else input
  }

  /** What a task passes to `cdo.run`: operator, input expression, output file, `**kwargs`. */
  datatype CdoCall = CdoCall(operator: string, input: string, output: Option<string>, options: PrefectCdo.Keywords)

  /** `mergetime_files`: concatenate the files along time. */
  function MergetimeFiles(files: seq<string>, output: Option<string>, options: PrefectCdo.Keywords): (c: CdoCall)
    ensures c.operator == "mergetime" && c.output == output && c.options == options
    ensures c.input == Join(files, " ")
    ensures files == [] ==> c.input == ""
    ensures files != [] && (forall f :: f in files ==> ' ' !in f) ==> Split(c.input, ' ') == files
  {
    CdoCall("mergetime", JoinedFiles(files), output, options)
  }

  /** `mergetime_selvar_files`: select one variable from every file, then concatenate along time. */
  function MergetimeSelvarFiles(files: seq<string>, variable: string, output: Option<string>, options: PrefectCdo.Keywords): (c: CdoCall)
    ensures c.operator == "mergetime" && c.output == output && c.options == options
    ensures |c.input| == |variable| + 9 + |JoinedFiles(files)|
    ensures c.input[..|variable| + 9] == "-selvar," + variable + " " && c.input[|variable| + 9..] == JoinedFiles(files)
    ensures files == [] ==> c.input == "-selvar," + variable + " "
    ensures ' ' !in variable ==> Split(c.input, ' ') == ["-selvar," + variable] + Split(JoinedFiles(files), ' ')
    ensures ' ' !in variable && files != [] && (forall f :: f in files ==> ' ' !in f)
            ==> Split(c.input, ' ') == ["-selvar," + variable] + files
  {
    CdoCall("mergetime", SelvarInput(variable, files), output, options)
  }

  /** `selvar_files`: the operator is `selvar` and the input chain selects the variable as well. */
  function SelvarFiles(files: seq<string>, variable: string, output: Option<string>, options: PrefectCdo.Keywords): (c: CdoCall)
    ensures c.operator == "selvar" && c.output == output && c.options == options
    ensures |c.input| == |variable| + 9 + |JoinedFiles(files)|
    ensures c.input[..|variable| + 9] == "-selvar," + variable + " " && c.input[|variable| + 9..] == JoinedFiles(files)
    ensures files == [] ==> c.input == "-selvar," + variable + " "
    ensures ' ' !in variable ==> Split(c.input, ' ') == ["-selvar," + variable] + Split(JoinedFiles(files), ' ')
    ensures ' ' !in variable && files != [] && (forall f :: f in files ==> ' ' !in f)
            ==> Split(c.input, ' ') == ["-selvar," + variable] + files
  {
    CdoCall("selvar", SelvarInput(variable, files), output, options)
  }

  /** `timmean_files`: mean over all time steps. */
  function TimmeanFiles(files: seq<string>, output: Option<string>, options: PrefectCdo.Keywords): (c: CdoCall)
    ensures c.operator == "timmean" && c.output == output && c.options == options
    ensures c.input == Join(files, " ")
    ensures files == [] ==> c.input == ""
    ensures files != [] && (forall f :: f in files ==> ' ' !in f) ==> Split(c.input, ' ') == files
  {
    CdoCall("timmean", JoinedFiles(files), output, options)
  }

  /** `ymonmean_files`: multi-year monthly mean. */
  function YmonmeanFiles(files: seq<string>, output: Option<string>, options: PrefectCdo.Keywords): (c: CdoCall)
    ensures c.operator == "ymonmean" && c.output == output && c.options == options
    ensures c.input == Join(files, " ")
    ensures files == [] ==> c.input == ""
    ensures files != [] && (forall f :: f in files ==> ' ' !in f) ==> Split(c.input, ' ') == files
  {
    CdoCall("ymonmean", JoinedFiles(files), output, options)
  }

  /** `yseasmean_files`: multi-year seasonal mean. */
  function YseasmeanFiles(files: seq<string>, output: Option<string>, options: PrefectCdo.Keywords): (c: CdoCall)
    ensures c.operator == "yseasmean" && c.output == output && c.options == options
    ensures c.input == Join(files, " ")
    ensures files == [] ==> c.input == ""
    ensures files != [] && (forall f :: f in files ==> ' ' !in f) ==> Split(c.input, ' ') == files
  {
    CdoCall("yseasmean", JoinedFiles(files), output, options)
  }

  /** `ymonmean_selvar_files`: select one variable, then the multi-year monthly mean. */
  function YmonmeanSelvarFiles(files: seq<string>, variable: string, output: Option<string>, options: PrefectCdo.Keywords): (c: CdoCall)
    ensures c.operator == "ymonmean" && c.output == output && c.options == options
    ensures |c.input| == |variable| + 9 + |JoinedFiles(files)|
    ensures c.input[..|variable| + 9] == "-selvar," + variable + " " && c.input[|variable| + 9..] == JoinedFiles(files)
    ensures files == [] ==> c.input == "-selvar," + variable + " "
    ensures ' ' !in variable ==> Split(c.input, ' ') == ["-selvar," + variable] + Split(JoinedFiles(files), ' ')
    ensures ' ' !in variable && files != [] && (forall f :: f in files ==> ' ' !in f)
            ==> Split(c.input, ' ') == ["-selvar," + variable] + files
  {
    CdoCall("ymonmean", SelvarInput(variable, files), output, options)
  }

  /** `yseasmean_selvar_files`: select one variable, then the multi-year seasonal mean. */
  function YseasmeanSelvarFiles(files: seq<string>, variable: string, output: Option<string>, options: PrefectCdo.Keywords): (c: CdoCall)
    ensures c.operator == "yseasmean" && c.output == output && c.options == options
    ensures |c.input| == |variable| + 9 + |JoinedFiles(files)|
    ensures c.input[..|variable| + 9] == "-selvar," + variable + " " && c.input[|variable| + 9..] == JoinedFiles(files)
    ensures files == [] ==> c.input == "-selvar," + variable + " "
    ensures ' ' !in variable ==> Split(c.input, ' ') == ["-selvar," + variable] + Split(JoinedFiles(files), ' ')
    ensures ' ' !in variable && files != [] && (forall f :: f in files ==> ' ' !in f)
            ==> Split(c.input, ' ') == ["-selvar," + variable] + files
  {
    CdoCall("yseasmean", SelvarInput(variable, files), output, options)
  }

  // ---------------------------------------------------------------------------
  // Handing the call to Command.run

  /** The value `output=` carries: the path, or `None` when the task was given none. */
  function OutputValue(output: Option<string>): (v: PrefectCdo.Value)
    ensures v == PrefectCdo.NoneValue <==> output == None
    ensures output.Some? ==> v == PrefectCdo.Str(output.value)
  {
    match output
    case Some(path) => PrefectCdo.Str(path)
    case None => PrefectCdo.NoneValue
  }

  /** Keyword names that `Command.run` binds itself or forwards to the CDO binding. */
  const ReservedKeywords: set<string> := {"self", "command", "input_file", "output_file", "input", "output"}

  /**
   * The call as every `*_files` task writes it: `cdo.run(op, input=..., output=..., **kwargs)`.
   * `run` names its parameters `input_file` and `output_file`, so the call never reaches CDO:
   * `input_file` is missing, or, when `**kwargs` supplies it, `input` is forwarded twice.
   */
  function DispatchAsWritten(c: CdoCall): (r: PrefectCdo.Result<PrefectCdo.CdoInvocation>)
    ensures r.Err?
    ensures ReservedKeywords !! c.options.Keys ==> r == PrefectCdo.Err(PrefectCdo.MissingArgument("input_file"))
  {
    match PrefectCdo.MergeKeywords(map["input" := PrefectCdo.Str(c.input), "output" := OutputValue(c.output)], c.options)
    case Err(e) => PrefectCdo.Err(e)
    case Ok(keywords) => PrefectCdo.Run(c.operator, keywords)
  }

  /**
   * The call with the keyword names `run` declares: `cdo.run(op, input_file=...,
   * output_file=..., **kwargs)`. Unless an option reuses a reserved name, CDO receives
   * exactly the operator, input expression, output file and options.
   */
  function Dispatch(c: CdoCall): (r: PrefectCdo.Result<PrefectCdo.CdoInvocation>)
    ensures r.Ok? <==> ReservedKeywords !! c.options.Keys
    ensures r.Ok? ==> r.value == PrefectCdo.CdoInvocation(c.operator, PrefectCdo.Str(c.input), OutputValue(c.output), c.options)
  {
    var named := map["input_file" := PrefectCdo.Str(c.input), "output_file" := OutputValue(c.output)];
    match PrefectCdo.MergeKeywords(named, c.options)
    case Err(e) => PrefectCdo.Err(e)
    case Ok(keywords) =>
      assert keywords - {"input_file", "output_file"} == c.options;
      PrefectCdo.Run(c.operator, keywords)
  }
}
