/**
 * The file selection of the FESOM 2D-variable workflow (`fesom_2d_variable.py`): the
 * filename pattern for a variable, and the selector that lists an output directory and keeps
 * the `n` most recently modified files whose path matches that pattern.
 *
 * The directory listing (`os.listdir(path)`) and the modification times
 * (`pathlib.Path(f).stat().st_mtime`) are inputs: a sequence of entry names and a function
 * from path to time. Neither the file system nor the clock changes during a call.
 */
module Fesom2dVariable {
  import opened PyBuiltins

  /** The fixed tail of a FESOM output file name: `.fesom.<YYYYMM>.01.nc`. */
  const FesomFileSuffix: string := ".fesom.[0-9]{6}.01.nc"

  /** `finalize_pattern`: the variable name followed by the fixed file-name tail. */
  function FinalizePattern(varname: string): (pattern: string)
    ensures |pattern| == |varname| + |FesomFileSuffix|
    ensures pattern[..|varname|] == varname && pattern[|varname|..] == FesomFileSuffix
  {
    varname + FesomFileSuffix
  }

  /** Different variables give different patterns, so each pattern names one variable. */
  lemma FinalizePatternInjective(v1: string, v2: string)
    requires FinalizePattern(v1) == FinalizePattern(v2)
    ensures v1 == v2
  {
    assert |v1| == |v2|;
  }

  /** `[path + f"/{f}" for f in os.listdir(path)]`. */
  function Candidates(path: string, listing: seq<string>): (r: seq<string>)
    ensures |r| == |listing|
    ensures forall i :: 0 <= i < |listing| ==> r[i] == path + "/" + listing[i]
  {
    seq(|listing|, i requires 0 <= i < |listing| => path + "/" + listing[i])
  }

  /** What `get_n_newest_files_for_pattern` returns, as one expression. */
  function NewestByMtime(pattern: string, path: string, n: int, listing: seq<string>,
                         search: Search, mtime: string -> int): (files: seq<string>)
    ensures var m := |FilterMatches(Candidates(path, listing), pattern, search)|;
            |files| == if n >= 0 then Min(n, m) else Max(0, m + n)
  {
    SliceTo(SortByKeyReversed(FilterMatches(Candidates(path, listing), pattern, search), mtime), n)
  }

  /**
   * `files.sort(key=mtime, reverse=True)` on a list held in an array: an insertion sort
   * that moves an element left only past strictly older files, so files of equal time keep
   * their order.
   */
  method SortByMtimeReversed<T>(a: array<T>, mtime: T -> int)
    modifies a
    ensures a[..] == SortByKeyReversed(old(a[..]), mtime)
  {
    ghost var orig := a[..];
    var i := 0;
    while i < a.Length
      invariant 0 <= i <= a.Length
      invariant a[..i] == SortByKeyReversed(orig[..i], mtime)
      invariant forall k :: i <= k < a.Length ==> a[k] == orig[k]
    {
      InsertNext(a, i, mtime);
      SortByKeyReversedPrefix(orig, i, mtime);
      i := i + 1;
    }
    assert a[..] == a[..a.Length] && orig == orig[..a.Length];
  }

  /** Sorting one more element of the input is inserting it into the sorted prefix. */
  lemma SortByKeyReversedPrefix<T>(s: seq<T>, i: nat, key: T -> int)
    requires i < |s|
    ensures SortByKeyReversed(s[..i + 1], key) == InsertByKey(SortByKeyReversed(s[..i], key), s[i], key)
  {
    assert s[..i + 1][..i] == s[..i];
  }

  /** One step of the insertion sort: moves `a[i]` into the sorted prefix `a[..i]`. */
  method InsertNext<T>(a: array<T>, i: nat, mtime: T -> int)
    requires i < a.Length
    modifies a
    ensures a[..i + 1] == InsertByKey(old(a[..i]), old(a[i]), mtime)
    ensures forall k :: i < k < a.Length ==> a[k] == old(a[k])
  {
    var x := a[i];
    ghost var p := a[..i];
    var j := i;
    while j > 0 && mtime(a[j - 1]) < mtime(x)
      invariant 0 <= j <= i
      invariant forall k :: 0 <= k < j ==> a[k] == p[k]
      invariant forall k :: j < k <= i ==> a[k] == p[k - 1]
      invariant forall k :: i < k < a.Length ==> a[k] == old(a[k])
      invariant forall k :: j <= k < i ==> mtime(p[k]) < mtime(x)
    {
      a[j] := a[j - 1];
      j := j - 1;
    }
    a[j] := x;
    InsertByKeyAt(p, j, x, mtime);
    assert a[..i + 1] == p[..j] + [x] + p[j..];
  }

  /**
   * `InsertByKey` puts `x` right after the last element at least as new as `x`, when all
   * elements from `j` on are strictly older.
   */
  lemma {:induction false} InsertByKeyAt<T>(p: seq<T>, j: nat, x: T, mtime: T -> int)
    requires j <= |p|
    requires forall k :: j <= k < |p| ==> mtime(p[k]) < mtime(x)
    requires j == 0 || mtime(p[j - 1]) >= mtime(x)
    ensures InsertByKey(p, x, mtime) == p[..j] + [x] + p[j..]
    decreases |p|
  {
    if j < |p| {
      var q := p[..|p| - 1];
      assert q[..j] == p[..j];
      InsertByKeyAt(q, j, x, mtime);
      assert p[j..] == q[j..] + [p[|p| - 1]];
    } else {
      assert p[..j] == p;
    }
  }

  /**
   * `get_n_newest_files_for_pattern(pattern, path, n)`: build `path/name` for every entry,
   * keep the paths `re.search(pattern, ...)` matches, sort them newest first and return the
   * first `n`.
   */
  method GetNNewestFilesForPattern(pattern: string, path: string, n: int, listing: seq<string>,
                                   search: Search, mtime: string -> int)
    returns (files: seq<string>)
    ensures files == NewestByMtime(pattern, path, n, listing, search, mtime)
    // every result is `path/name` for a listed entry, and the whole path matches
    ensures forall f :: f in files ==> search(pattern, f) && exists i :: 0 <= i < |listing| && f == path + "/" + listing[i]
    // newest first
    ensures NonIncreasingByKey(files, mtime)
    // `files[:n]`: n == 0 gives nothing, a negative n drops the last -n matches
    ensures var m := |FilterMatches(Candidates(path, listing), pattern, search)|;
            |files| == if n >= 0 then Min(n, m) else Max(0, m + n)
  {
    var matched := FilterMatches(Candidates(path, listing), pattern, search);
    var a := new string[|matched|](i requires 0 <= i < |matched| => matched[i]);
    assert a[..] == matched;
    SortByMtimeReversed(a, mtime);
    files := SliceTo(a[..], n);
    NewestByMtimeMatches(pattern, path, n, listing, search, mtime);
    NewestByMtimeNonIncreasing(pattern, path, n, listing, search, mtime);
  }

  /** The selection holds only matching `path/name` candidates. */
  lemma NewestByMtimeMatches(pattern: string, path: string, n: int, listing: seq<string>,
                             search: Search, mtime: string -> int)
    ensures forall f :: f in NewestByMtime(pattern, path, n, listing, search, mtime)
                        ==> search(pattern, f) && exists i :: 0 <= i < |listing| && f == path + "/" + listing[i]
  {
    var matched := FilterMatches(Candidates(path, listing), pattern, search);
    SortByKeyReversedPermutation(matched, mtime);
    PrefixOfArrangement(SortByKeyReversed(matched, mtime), matched, n);
    MatchedAreCandidates(pattern, path, listing, search);
  }

  /** The selection is ordered newest first. */
  lemma NewestByMtimeNonIncreasing(pattern: string, path: string, n: int, listing: seq<string>,
                                   search: Search, mtime: string -> int)
    ensures NonIncreasingByKey(NewestByMtime(pattern, path, n, listing, search, mtime), mtime)
  {
    SortByKeyReversedNonIncreasing(FilterMatches(Candidates(path, listing), pattern, search), mtime);
  }

  /** A prefix of a rearrangement of `matched` holds only elements of `matched`. */
  lemma PrefixOfArrangement(sorted: seq<string>, matched: seq<string>, n: int)
    requires multiset(sorted) == multiset(matched)
    ensures forall f :: f in SliceTo(sorted, n) ==> f in matched
  {
    forall f | f in SliceTo(sorted, n) ensures f in matched {
      assert f in sorted;
      assert f in multiset(sorted);
    }
  }

  /** Every matched candidate matches and is `path/name` for a listed entry. */
  lemma MatchedAreCandidates(pattern: string, path: string, listing: seq<string>, search: Search)
    ensures forall f :: f in FilterMatches(Candidates(path, listing), pattern, search)
                        ==> search(pattern, f) && exists i :: 0 <= i < |listing| && f == path + "/" + listing[i]
  {
    var c := Candidates(path, listing);
    forall f | f in FilterMatches(c, pattern, search)
      ensures search(pattern, f) && exists i :: 0 <= i < |listing| && f == path + "/" + listing[i]
    {
      var i :| 0 <= i < |c| && c[i] == f;
    }
  }

  /** Every matching path left out is at most as new as every path returned. */
  lemma {:induction false} LeftOutAreOlder(pattern: string, path: string, n: int, listing: seq<string>,
                                           search: Search, mtime: string -> int)
    ensures var sorted := SortByKeyReversed(FilterMatches(Candidates(path, listing), pattern, search), mtime);
            var files := NewestByMtime(pattern, path, n, listing, search, mtime);
            && files == sorted[..|files|]
            && forall i, j :: 0 <= j < |files| <= i < |sorted| ==> mtime(sorted[i]) <= mtime(files[j])
  {
    var sorted := SortByKeyReversed(FilterMatches(Candidates(path, listing), pattern, search), mtime);
    SortByKeyReversedNonIncreasing(FilterMatches(Candidates(path, listing), pattern, search), mtime);
  }

  /**
   * Stability: for every modification time, the returned paths carrying it are the first
   * ones carrying it in listing order.
   */
  lemma {:induction false} EqualMtimeKeepsListingOrder(pattern: string, path: string, n: int, listing: seq<string>,
                                                       search: Search, mtime: string -> int, t: int)
    ensures WithKey(NewestByMtime(pattern, path, n, listing, search, mtime), mtime, t)
            <= WithKey(FilterMatches(Candidates(path, listing), pattern, search), mtime, t)
  {
    var matched := FilterMatches(Candidates(path, listing), pattern, search);
    var sorted := SortByKeyReversed(matched, mtime);
    var files := NewestByMtime(pattern, path, n, listing, search, mtime);
    WithKeyPrefix(sorted, |files|, mtime, t);
    SortByKeyReversedStable(matched, mtime, t);
  }

  /**
   * Nothing is added and nothing is lost except by truncation: the returned paths and the
   * matches left out together are exactly the matched candidates, duplicates included.
   */
  lemma {:induction false} NewestByMtimeIsPermutationPrefix(pattern: string, path: string, n: int, listing: seq<string>,
                                                            search: Search, mtime: string -> int)
    ensures var matched := FilterMatches(Candidates(path, listing), pattern, search);
            var sorted := SortByKeyReversed(matched, mtime);
            var files := NewestByMtime(pattern, path, n, listing, search, mtime);
            multiset(files) + multiset(sorted[|files|..]) == multiset(matched)
  {
    var matched := FilterMatches(Candidates(path, listing), pattern, search);
    var sorted := SortByKeyReversed(matched, mtime);
    var files := NewestByMtime(pattern, path, n, listing, search, mtime);
    SortByKeyReversedPermutation(matched, mtime);
    assert sorted == files + sorted[|files|..];
  }

  /**
   * Any stable sort, newest first, gives the same selection: the model does not depend on
   * the sorting algorithm Python uses.
   */
  lemma {:induction false} NewestByMtimeAnyStableSort(pattern: string, path: string, n: int, listing: seq<string>,
                                                      search: Search, mtime: string -> int, arranged: seq<string>)
    requires NonIncreasingByKey(arranged, mtime)
    requires forall t :: WithKey(arranged, mtime, t) == WithKey(FilterMatches(Candidates(path, listing), pattern, search), mtime, t)
    ensures NewestByMtime(pattern, path, n, listing, search, mtime) == SliceTo(arranged, n)
  {
    var matched := FilterMatches(Candidates(path, listing), pattern, search);
    SortByKeyReversedNonIncreasing(matched, mtime);
    forall t ensures WithKey(SortByKeyReversed(matched, mtime), mtime, t) == WithKey(arranged, mtime, t) {
      SortByKeyReversedStable(matched, mtime, t);
    }
    NonIncreasingStableUnique(SortByKeyReversed(matched, mtime), arranged, mtime);
  }

  lemma WithKeyOfThree(s: seq<string>, key: string -> int, t: int)
    requires |s| == 3
    ensures WithKey(s, key, t) == (if key(s[0]) == t then [s[0]] else [])
                                  + (if key(s[1]) == t then [s[1]] else [])
                                  + (if key(s[2]) == t then [s[2]] else [])
  {
    var s2, s1 := s[..2], s[..1];
    assert s2[..1] == s1 && s1[..0] == [] && s2[1] == s[1] && s1[0] == s[0];
    assert WithKey(s1, key, t) == (if key(s[0]) == t then [s[0]] else []);
    assert WithKey(s2, key, t) == WithKey(s1, key, t) + (if key(s[1]) == t then [s[1]] else []);
  }

  lemma ExampleCandidates(listing: seq<string>, c: seq<string>, search: Search)
    requires listing == ["a_2000.nc", "a_1999.nc", "a_2001.nc"]
    requires c == Candidates("out", listing)
    requires forall f :: search("a_", f)
    ensures c == ["out/a_2000.nc", "out/a_1999.nc", "out/a_2001.nc"]
    ensures FilterMatches(c, "a_", search) == c
  {
    assert c[0] == "out" + "/" + "a_2000.nc" == "out/a_2000.nc";
    assert c[1] == "out" + "/" + "a_1999.nc" == "out/a_1999.nc";
    assert c[2] == "out" + "/" + "a_2001.nc" == "out/a_2001.nc";
    assert c == [c[0], c[1], c[2]];
    assert c[1..][1..][1..] == [];
    assert FilterMatches(c[1..][1..], "a_", search) == [c[2]];
    assert FilterMatches(c[1..], "a_", search) == [c[1], c[2]];
  }

  /**
   * Three yearly files whose modification times do not follow their names: `n == 2` gives
   * the two most recently modified, newest first, and `n == 0` gives none.
   */
  lemma NewestByMtimeExample(listing: seq<string>, search: Search, mtime: string -> int)
    requires listing == ["a_2000.nc", "a_1999.nc", "a_2001.nc"]
    requires forall f :: search("a_", f)
    requires mtime("out/a_2000.nc") == 1 && mtime("out/a_1999.nc") == 3 && mtime("out/a_2001.nc") == 2
    ensures NewestByMtime("a_", "out", 2, listing, search, mtime) == ["out/a_1999.nc", "out/a_2001.nc"]
    ensures NewestByMtime("a_", "out", 0, listing, search, mtime) == []
  {
    var c := Candidates("out", listing);
    ExampleCandidates(listing, c, search);
    var arranged := [c[1], c[2], c[0]];
    forall t ensures WithKey(arranged, mtime, t) == WithKey(c, mtime, t) {
      WithKeyOfThree(arranged, mtime, t);
      WithKeyOfThree(c, mtime, t);
    }
    NewestByMtimeAnyStableSort("a_", "out", 2, listing, search, mtime, arranged);
  }
}
