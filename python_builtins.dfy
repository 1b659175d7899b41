/**
 * The pieces of Python's built-in list and string behaviour that the workflow
 * tasks rely on: slicing with negative bounds, ordering of `str`, `sorted`,
 * `list.sort(key=..., reverse=True)`, `" ".join` / `str.split(" ")`, and the
 * list comprehension that keeps the items a regular expression finds a match in.
 *
 * The regular-expression engine is not modelled: `re.search(pattern, s)` is a
 * parameter `search` of type `Search`, true when a match is found.
 */
module PyBuiltins {

  /** Python's `str or None`. */
  datatype Option<T> = None | Some(value: T)

  /** `re.search(pattern, s) is not None`, supplied by the caller. */
  type Search = (string, string) -> bool

  function Min(a: int, b: int): int { if a <= b then a else b }

  function Max(a: int, b: int): int { if a >= b then a else b }

  // ---------------------------------------------------------------------------
  // Slicing

  /** `s[start:]`: a negative start counts from the end, and both kinds are clamped. */
  function SliceFrom<T>(s: seq<T>, start: int): (r: seq<T>)
    ensures |r| == if start >= 0 then Max(0, |s| - start) else Min(-start, |s|)
    ensures r == s[|s| - |r|..]
  {
    var k := if start >= 0 then Min(start, |s|) else Max(0, |s| + start);
    s[k..]
  }

  /** `s[:stop]`: a negative stop counts from the end, and both kinds are clamped. */
  function SliceTo<T>(s: seq<T>, stop: int): (r: seq<T>)
    ensures |r| == if stop >= 0 then Min(stop, |s|) else Max(0, |s| + stop)
    ensures r == s[..|r|]
  {
    var k := if stop >= 0 then Min(stop, |s|) else Max(0, |s| + stop);
    s[..k]
  }

  // ---------------------------------------------------------------------------
  // Filtering with a regular expression

  /** `[f for f in items if re.search(pattern, f)]`. */
  function FilterMatches(items: seq<string>, pattern: string, search: Search): (r: seq<string>)
    ensures |r| <= |items|
    ensures forall f :: f in r ==> f in items && search(pattern, f)
  {
    if items == [] then []
    else (if search(pattern, items[0]) then [items[0]] else []) + FilterMatches(items[1..], pattern, search)
  }

  /** Nothing is invented and nothing is de-duplicated: every matching item keeps its multiplicity. */
  lemma {:induction false} FilterMatchesMultiset(items: seq<string>, pattern: string, search: Search)
    ensures forall f :: multiset(FilterMatches(items, pattern, search))[f]
                          == if search(pattern, f) then multiset(items)[f] else 0
  {
    if items != [] {
      FilterMatchesMultiset(items[1..], pattern, search);
      assert items == [items[0]] + items[1..];
    }
  }

  /** The comprehension keeps the order of its input: filtering distributes over concatenation. */
  lemma {:induction false} FilterMatchesAppend(a: seq<string>, b: seq<string>, pattern: string, search: Search)
    ensures FilterMatches(a + b, pattern, search) == FilterMatches(a, pattern, search) + FilterMatches(b, pattern, search)
  {
    if a != [] {
      assert (a + b)[1..] == a[1..] + b;
      FilterMatchesAppend(a[1..], b, pattern, search);
    } else {
      assert a + b == b;
    }
  }

  // ---------------------------------------------------------------------------
  // Ordering of str

  /** Python's `a <= b` on `str`: code point by code point, a proper prefix first. */
  predicate StrLe(a: string, b: string)
    // a prefix sorts first, and a non-empty string never sorts before the empty one
    ensures a <= b ==> StrLe(a, b)
    ensures StrLe(a, b) && b == [] ==> a == []
    decreases |a|
  {
    a == [] || (b != [] && (a[0] < b[0] || (a[0] == b[0] && StrLe(a[1..], b[1..]))))
  }

  lemma {:induction false} StrLeReflexive(a: string)
    ensures StrLe(a, a)
  {
    if a != [] { StrLeReflexive(a[1..]); }
  }

  lemma {:induction false} StrLeTotal(a: string, b: string)
    ensures StrLe(a, b) || StrLe(b, a)
  {
    if a != [] && b != [] && a[0] == b[0] { StrLeTotal(a[1..], b[1..]); }
  }

  lemma {:induction false} StrLeAntisymmetric(a: string, b: string)
    requires StrLe(a, b) && StrLe(b, a)
    ensures a == b
  {
    if a != [] {
      StrLeAntisymmetric(a[1..], b[1..]);
      assert a == [a[0]] + a[1..] && b == [b[0]] + b[1..];
    }
  }

  lemma {:induction false} StrLeTransitive(a: string, b: string, c: string)
    requires StrLe(a, b) && StrLe(b, c)
    ensures StrLe(a, c)
  {
    if a != [] && b != [] && c != [] && a[0] == b[0] && b[0] == c[0] {
      StrLeTransitive(a[1..], b[1..], c[1..]);
    }
  }

  /** Strings that agree up to position `k` and differ there are ordered by that position. */
  lemma {:induction false} StrLeAtFirstDifference(a: string, b: string, k: nat)
    requires k < |a| && k < |b| && a[..k] == b[..k] && a[k] < b[k]
    ensures StrLe(a, b)
  {
    if k > 0 {
      assert a[0] == a[..k][0] == b[..k][0] == b[0];
      assert a[1..][..k - 1] == a[..k][1..] == b[..k][1..] == b[1..][..k - 1];
      StrLeAtFirstDifference(a[1..], b[1..], k - 1);
    }
  }

  // ---------------------------------------------------------------------------
  // sorted(list_of_str)

  predicate SortedByName(s: seq<string>)
  {
    forall i, j :: 0 <= i < j < |s| ==> StrLe(s[i], s[j])
  }

  /** Places `x` before the first element it is not greater than. */
  function InsertByName(x: string, s: seq<string>): (r: seq<string>)
    ensures multiset(r) == multiset(s) + multiset{x}
    ensures |r| == |s| + 1
  {
    if s == [] || StrLe(x, s[0]) then [x] + s
    else
      assert s == [s[0]] + s[1..];
      [s[0]] + InsertByName(x, s[1..])
  }

  lemma {:induction false} InsertByNameSorted(x: string, s: seq<string>)
    requires SortedByName(s)
    ensures SortedByName(InsertByName(x, s))
  {
    var r := InsertByName(x, s);
    if s == [] {
    } else if StrLe(x, s[0]) {
      forall i, j | 0 <= i < j < |r| ensures StrLe(r[i], r[j]) {
        if i == 0 && j > 1 { StrLeTransitive(x, s[0], s[j - 1]); }
      }
    } else {
      StrLeTotal(x, s[0]);
      var t := InsertByName(x, s[1..]);
      InsertByNameSorted(x, s[1..]);
      forall j | 0 <= j < |t| ensures StrLe(s[0], t[j]) {
        assert t[j] in multiset(t);
        if t[j] != x {
          assert t[j] in multiset(s[1..]);
          var m :| 0 <= m < |s[1..]| && s[1..][m] == t[j];
          assert s[m + 1] == t[j];
        }
      }
    }
  }

  /** Python's `sorted(s)` on a list of `str` (ascending). */
  function SortByName(s: seq<string>): (r: seq<string>)
    ensures multiset(r) == multiset(s)
    ensures SortedByName(r)
  {
    if s == [] then []
    else
      var t := SortByName(s[1..]);
      assert s == [s[0]] + s[1..];
      InsertByNameSorted(s[0], t);
      InsertByName(s[0], t)
  }

  lemma HeadIsLeast(t: seq<string>, x: string)
    requires SortedByName(t)
    requires x in multiset(t)
    ensures StrLe(t[0], x)
  {
    var i :| 0 <= i < |t| && t[i] == x;
    if i == 0 { StrLeReflexive(x); }
  }

  lemma TailMultiset(t: seq<string>)
    requires t != []
    ensures multiset(t[1..]) == multiset(t) - multiset{t[0]}
  {
    assert t == [t[0]] + t[1..];
  }

  /**
   * Two ascending lists with the same elements are equal, so `SortByName` is what
   * every sorting algorithm returns, Python's among them.
   */
  lemma {:induction false} SortedByNameUnique(t1: seq<string>, t2: seq<string>)
    requires SortedByName(t1) && SortedByName(t2)
    requires multiset(t1) == multiset(t2)
    ensures t1 == t2
  {
    if t1 == [] {
      assert |multiset(t2)| == 0;
    } else {
      assert t1[0] in multiset(t1);
      assert t2 != [];
      assert t2[0] in multiset(t2);
      HeadIsLeast(t1, t2[0]);
      HeadIsLeast(t2, t1[0]);
      StrLeAntisymmetric(t1[0], t2[0]);
      TailMultiset(t1);
      TailMultiset(t2);
      SortedByNameUnique(t1[1..], t2[1..]);
      assert t1 == [t1[0]] + t1[1..] && t2 == [t2[0]] + t2[1..];
    }
  }

  // ---------------------------------------------------------------------------
  // list.sort(key=key, reverse=True): stable, greatest key first

  predicate NonIncreasingByKey<T>(s: seq<T>, key: T -> int)
  {
    forall i, j :: 0 <= i < j < |s| ==> key(s[i]) >= key(s[j])
  }

  /** The elements of `s` whose key is `k`, in their order in `s`. */
  function WithKey<T>(s: seq<T>, key: T -> int, k: int): (r: seq<T>)
    ensures forall x :: x in r ==> x in s && key(x) == k
  {
    if s == [] then []
    else WithKey(s[..|s| - 1], key, k) + (if key(s[|s| - 1]) == k then [s[|s| - 1]] else [])
  }

  /**
   * Inserts `x` behind the tail of `p` whose keys are smaller than `x`'s, scanning from the
   * back: `x` goes after every element whose key is at least its own, which keeps equal keys
   * in their original order.
   */
  function InsertByKey<T>(p: seq<T>, x: T, key: T -> int): (r: seq<T>)
    ensures |r| == |p| + 1
  {
    if p == [] || key(p[|p| - 1]) >= key(x) then p + [x]
    else InsertByKey(p[..|p| - 1], x, key) + [p[|p| - 1]]
  }

  lemma {:induction false} InsertByKeyPermutation<T>(p: seq<T>, x: T, key: T -> int)
    ensures multiset(InsertByKey(p, x, key)) == multiset(p) + multiset{x}
  {
    if p != [] && key(p[|p| - 1]) < key(x) {
      InsertByKeyPermutation(p[..|p| - 1], x, key);
      assert p == p[..|p| - 1] + [p[|p| - 1]];
    }
  }

  /** `sorted(s, key=key, reverse=True)`, the result of `s.sort(key=key, reverse=True)`. */
  function SortByKeyReversed<T>(s: seq<T>, key: T -> int): (r: seq<T>)
    ensures |r| == |s|
  {
    if s == [] then []
    else InsertByKey(SortByKeyReversed(s[..|s| - 1], key), s[|s| - 1], key)
  }

  /** The sort only reorders: the same elements, each as often as before. */
  lemma {:induction false} SortByKeyReversedPermutation<T>(s: seq<T>, key: T -> int)
    ensures multiset(SortByKeyReversed(s, key)) == multiset(s)
  {
    if s != [] {
      SortByKeyReversedPermutation(s[..|s| - 1], key);
      InsertByKeyPermutation(SortByKeyReversed(s[..|s| - 1], key), s[|s| - 1], key);
      assert s == s[..|s| - 1] + [s[|s| - 1]];
    }
  }

  lemma {:induction false} InsertByKeyNonIncreasing<T>(p: seq<T>, x: T, key: T -> int)
    requires NonIncreasingByKey(p, key)
    ensures NonIncreasingByKey(InsertByKey(p, x, key), key)
  {
    if p != [] && key(p[|p| - 1]) < key(x) {
      var q := p[..|p| - 1];
      var l := p[|p| - 1];
      var t := InsertByKey(q, x, key);
      InsertByKeyNonIncreasing(q, x, key);
      InsertByKeyPermutation(q, x, key);
      forall i | 0 <= i < |t| ensures key(t[i]) >= key(l) {
        assert t[i] in multiset(t);
        if t[i] != x {
          assert t[i] in multiset(q);
          var m :| 0 <= m < |q| && q[m] == t[i];
          assert p[m] == t[i];
        }
      }
    }
  }

  lemma {:induction false} SortByKeyReversedNonIncreasing<T>(s: seq<T>, key: T -> int)
    ensures NonIncreasingByKey(SortByKeyReversed(s, key), key)
  {
    if s != [] {
      SortByKeyReversedNonIncreasing(s[..|s| - 1], key);
      InsertByKeyNonIncreasing(SortByKeyReversed(s[..|s| - 1], key), s[|s| - 1], key);
    }
  }

  lemma {:induction false} WithKeyInsertByKey<T>(p: seq<T>, x: T, key: T -> int, k: int)
    ensures WithKey(InsertByKey(p, x, key), key, k)
            == WithKey(p, key, k) + (if key(x) == k then [x] else [])
  {
    var r := InsertByKey(p, x, key);
    if p == [] || key(p[|p| - 1]) >= key(x) {
      assert r[..|r| - 1] == p;
    } else {
      var q := p[..|p| - 1];
      var t := InsertByKey(q, x, key);
      assert r[..|r| - 1] == t;
      WithKeyInsertByKey(q, x, key, k);
    }
  }

  /** Stability: for every key, the elements carrying it keep their relative order. */
  lemma {:induction false} SortByKeyReversedStable<T>(s: seq<T>, key: T -> int, k: int)
    ensures WithKey(SortByKeyReversed(s, key), key, k) == WithKey(s, key, k)
  {
    if s != [] {
      var q := s[..|s| - 1];
      SortByKeyReversedStable(q, key, k);
      WithKeyInsertByKey(SortByKeyReversed(q, key), s[|s| - 1], key, k);
    }
  }

  /** The elements with a given key of a prefix form a prefix of those of the whole. */
  lemma {:induction false} WithKeyPrefix<T>(s: seq<T>, m: nat, key: T -> int, k: int)
    requires m <= |s|
    ensures WithKey(s[..m], key, k) <= WithKey(s, key, k)
    decreases |s|
  {
    if m < |s| {
      var q := s[..|s| - 1];
      assert s[..m] == q[..m];
      WithKeyPrefix(q, m, key, k);
    } else {
      assert s[..m] == s;
    }
  }

  lemma {:induction false} LastWithOwnKey<T>(s: seq<T>, key: T -> int)
    requires s != []
    ensures WithKey(s, key, key(s[|s| - 1])) != []
  {
  }

  /** Two such lists end in elements with the same key: the smallest key either holds. */
  lemma LastKeyBound<T>(t1: seq<T>, t2: seq<T>, key: T -> int)
    requires t1 != [] && t2 != []
    requires NonIncreasingByKey(t2, key)
    requires forall k :: WithKey(t1, key, k) == WithKey(t2, key, k)
    ensures key(t1[|t1| - 1]) >= key(t2[|t2| - 1])
  {
    var k := key(t1[|t1| - 1]);
    LastWithOwnKey(t1, key);
    var c := WithKey(t2, key, k);
    assert c[0] in c;
    var a :| 0 <= a < |t2| && t2[a] == c[0];
    if a < |t2| - 1 { assert key(t2[a]) >= key(t2[|t2| - 1]); }
  }

  /** Lists with the same elements per key and the same last element agree once it is dropped. */
  lemma WithKeyDropLast<T>(t1: seq<T>, t2: seq<T>, q1: seq<T>, q2: seq<T>, key: T -> int)
    requires t1 != [] && t2 != [] && t1[|t1| - 1] == t2[|t2| - 1]
    requires q1 == t1[..|t1| - 1] && q2 == t2[..|t2| - 1]
    requires forall k :: WithKey(t1, key, k) == WithKey(t2, key, k)
    ensures forall k :: WithKey(q1, key, k) == WithKey(q2, key, k)
  {
    var l := t1[|t1| - 1];
    forall k ensures WithKey(q1, key, k) == WithKey(q2, key, k) {
      var tail := if key(l) == k then [l] else [];
      var w := WithKey(t1, key, k);
      assert w == WithKey(q1, key, k) + tail;
      assert w == WithKey(q2, key, k) + tail;
      assert WithKey(q1, key, k) == w[..|w| - |tail|];
    }
  }

  /** Two such lists whose last elements have the same key end in the same element. */
  lemma SameLast<T>(t1: seq<T>, t2: seq<T>, key: T -> int)
    requires t1 != [] && t2 != []
    requires forall k :: WithKey(t1, key, k) == WithKey(t2, key, k)
    requires key(t1[|t1| - 1]) == key(t2[|t2| - 1])
    ensures t1[|t1| - 1] == t2[|t2| - 1]
  {
    var k := key(t1[|t1| - 1]);
    assert WithKey(t1, key, k)[|WithKey(t1, key, k)| - 1] == t1[|t1| - 1];
    assert WithKey(t2, key, k)[|WithKey(t2, key, k)| - 1] == t2[|t2| - 1];
  }

  /** Lists with the same elements per key are empty together. */
  lemma NoneLeftIfOneEmpty<T>(t1: seq<T>, t2: seq<T>, key: T -> int)
    requires forall k :: WithKey(t1, key, k) == WithKey(t2, key, k)
    ensures t1 == [] <==> t2 == []
  {
    if t1 != [] { LastWithOwnKey(t1, key); }
    if t2 != [] { LastWithOwnKey(t2, key); }
  }

  /**
   * A list ordered by non-increasing key that keeps, for every key, the elements carrying it
   * in the same order as another such list, is that list: any stable sort with
   * `reverse=True` gives `SortByKeyReversed`.
   */
  lemma {:induction false} NonIncreasingStableUnique<T>(t1: seq<T>, t2: seq<T>, key: T -> int)
    requires NonIncreasingByKey(t1, key) && NonIncreasingByKey(t2, key)
    requires forall k :: WithKey(t1, key, k) == WithKey(t2, key, k)
    ensures t1 == t2
    decreases |t1| + |t2|
  {
    if t1 == [] || t2 == [] {
      NoneLeftIfOneEmpty(t1, t2, key);
    } else {
      LastKeyBound(t1, t2, key);
      LastKeyBound(t2, t1, key);
      SameLast(t1, t2, key);
      var q1, q2 := t1[..|t1| - 1], t2[..|t2| - 1];
      WithKeyDropLast(t1, t2, q1, q2, key);
      NonIncreasingStableUnique(q1, q2, key);
      assert t1 == q1 + [t1[|t1| - 1]] && t2 == q2 + [t2[|t2| - 1]];
    }
  }

  // ---------------------------------------------------------------------------
  // sep.join(items) and s.split(sep)

  /** `sep.join(items)`. */
  function Join(items: seq<string>, sep: string): (r: string)
    ensures items == [] ==> r == ""
    ensures |items| == 1 ==> r == items[0]
  {
    if items == [] then ""
    else if |items| == 1 then items[0]
    else items[0] + sep + Join(items[1..], sep)
  }

  /** `s.split(sep)` with an explicit one-character separator: cut at every occurrence. */
  function Split(s: string, sep: char): (r: seq<string>)
    ensures |r| >= 1
    ensures forall piece :: piece in r ==> sep !in piece
    decreases |s|
  {
    if s == [] then [""]
    else
      var rest := Split(s[1..], sep);
      if s[0] == sep then [""] + rest
      else [[s[0]] + rest[0]] + rest[1..]
  }

  /** Splitting and joining again gives back the string. */
  lemma {:induction false} JoinSplit(s: string, sep: char)
    ensures Join(Split(s, sep), [sep]) == s
    decreases |s|
  {
    if s != [] {
      var rest := Split(s[1..], sep);
      JoinSplit(s[1..], sep);
      if s[0] == sep {
        assert ([""] + rest)[1..] == rest;
      } else {
        var r := [[s[0]] + rest[0]] + rest[1..];
        assert r[1..] == rest[1..];
        if |rest| > 1 {
          assert Join(rest, [sep]) == rest[0] + [sep] + Join(rest[1..], [sep]);
        }
        assert s == [s[0]] + s[1..];
      }
    }
  }

  lemma {:induction false} SplitWithoutSep(a: string, sep: char)
    requires sep !in a
    ensures Split(a, sep) == [a]
    decreases |a|
  {
    if a != [] {
      SplitWithoutSep(a[1..], sep);
      assert a == [a[0]] + a[1..];
    }
  }

  /** A piece free of the separator, then the separator, splits off as the first piece. */
  lemma {:induction false} SplitPieceThenSep(a: string, sep: char, t: string)
    requires sep !in a
    ensures Split(a + [sep] + t, sep) == [a] + Split(t, sep)
    decreases |a|
  {
    var s := a + [sep] + t;
    if a == [] {
      assert s[1..] == t;
    } else {
      assert s[1..] == a[1..] + [sep] + t;
      SplitPieceThenSep(a[1..], sep, t);
      assert a == [a[0]] + a[1..];
    }
  }

  /**
   * Joining a non-empty list of separator-free strings and splitting the result gives back
   * the list. (For the empty list `"".split(sep)` is `[""]`.)
   */
  lemma {:induction false} SplitJoin(items: seq<string>, sep: char)
    requires items != []
    requires forall x :: x in items ==> sep !in x
    ensures Split(Join(items, [sep]), sep) == items
  {
    if |items| == 1 {
      SplitWithoutSep(items[0], sep);
    } else {
      SplitJoin(items[1..], sep);
      SplitPieceThenSep(items[0], sep, Join(items[1..], [sep]));
      assert items == [items[0]] + items[1..];
    }
  }
}
