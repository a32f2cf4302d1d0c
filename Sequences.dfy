/**
 * Sequence utilities shared by the registry: distinctness, order-keeping
 * de-duplication (Python's `list(set(xs))` up to order) and a stable sort by
 * an integer key (Django's `order_by(field)` and Python's `sorted(key=...)`).
 */
module Sequences {

  predicate Distinct<T(==)>(s: seq<T>) {
    forall i, j :: 0 <= i < j < |s| ==> s[i] != s[j]
  }

  /** `s` is ordered by `key`, smallest key first. */
  predicate SortedBy<T>(s: seq<T>, key: T -> int) {
    forall i, j :: 0 <= i < j < |s| ==> key(s[i]) <= key(s[j])
  }

  /** The elements of `s`, each once, in order of first occurrence. */
  function Dedup<T(==)>(s: seq<T>): (r: seq<T>)
    ensures Distinct(r)
    ensures forall i :: 0 <= i < |r| ==> r[i] in s
    ensures forall i :: 0 <= i < |s| ==> s[i] in r
  {
    if s == [] then []
    else
      var rest := Dedup(s[..|s| - 1]);
      if s[|s| - 1] in rest then rest else rest + [s[|s| - 1]]
  }

  /** Places `x` before the first element of `s` whose key is at least `x`'s. */
  function Insert<T>(x: T, s: seq<T>, key: T -> int): (r: seq<T>)
    requires SortedBy(s, key)
    ensures |r| == |s| + 1
    ensures r[0] == x || (s != [] && r[0] == s[0])
    ensures SortedBy(r, key)
    ensures multiset(r) == multiset(s) + multiset{x}
  {
    if s == [] || key(x) <= key(s[0]) then [x] + s
    else
      var t := Insert(x, s[1..], key);
      assert s == [s[0]] + s[1..];
      assert key(s[0]) <= key(t[0]);
      [s[0]] + t
  }

  /**
   * Stable insertion sort by `key`, ascending: the result is ordered and a
   * permutation of the input.
   */
  function SortBy<T>(s: seq<T>, key: T -> int): (r: seq<T>)
    ensures SortedBy(r, key)
    ensures multiset(r) == multiset(s)
  {
    if s == [] then []
    else
      assert s == [s[0]] + s[1..];
      Insert(s[0], SortBy(s[1..], key), key)
  }

  /** A permutation of a sequence without repetitions has none either. */
  lemma DistinctPermutation<T>(a: seq<T>, b: seq<T>)
    requires multiset(a) == multiset(b)
    requires Distinct(a)
    ensures Distinct(b)
  {
    forall x | x in multiset(a) ensures multiset(a)[x] == 1 {
      DistinctOnce(a, x);
    }
    forall i, j | 0 <= i < j < |b| ensures b[i] != b[j] {
      if b[i] == b[j] {
        RepeatedTwice(b, i, j);
      }
    }
  }

  /** In a sequence without repetitions every element occurs once. */
  lemma {:induction false} DistinctOnce<T>(s: seq<T>, x: T)
    requires Distinct(s)
    requires x in s
    ensures multiset(s)[x] == 1
  {
    assert s == [s[0]] + s[1..];
    if s[0] == x {
      assert x !in s[1..];
    } else {
      DistinctOnce(s[1..], x);
    }
  }

  /** An element at two positions occurs at least twice. */
  lemma RepeatedTwice<T>(s: seq<T>, i: nat, j: nat)
    requires i < j < |s|
    requires s[i] == s[j]
    ensures multiset(s)[s[i]] >= 2
  {
    assert s == s[..j] + s[j..];
    assert s[i] in s[..j] && s[j] in s[j..];
  }

  /** Permutations have the same elements. */
  lemma PermutationMembers<T>(a: seq<T>, b: seq<T>)
    requires multiset(a) == multiset(b)
    ensures forall k :: 0 <= k < |a| ==> a[k] in b
    ensures forall k :: 0 <= k < |b| ==> b[k] in a
  {
    forall k | 0 <= k < |a| ensures a[k] in b {
      assert a[k] in multiset(a);
    }
    forall k | 0 <= k < |b| ensures b[k] in a {
      assert b[k] in multiset(b);
    }
  }

  /** Sorting depends only on the keys of the elements being sorted. */
  lemma {:induction false} SortByAgree<T>(s: seq<T>, k1: T -> int, k2: T -> int)
    requires forall i :: 0 <= i < |s| ==> k1(s[i]) == k2(s[i])
    ensures SortBy(s, k1) == SortBy(s, k2)
  {
    if s != [] {
      SortByAgree(s[1..], k1, k2);
      var t := SortBy(s[1..], k1);
      PermutationMembers(s[1..], t);
      InsertAgree(s[0], t, k1, k2);
    }
  }

  lemma {:induction false} InsertAgree<T>(x: T, s: seq<T>, k1: T -> int, k2: T -> int)
    requires SortedBy(s, k1) && SortedBy(s, k2)
    requires k1(x) == k2(x)
    requires forall i :: 0 <= i < |s| ==> k1(s[i]) == k2(s[i])
    ensures Insert(x, s, k1) == Insert(x, s, k2)
  {
    if s != [] && k1(x) > k1(s[0]) {
      InsertAgree(x, s[1..], k1, k2);
    }
  }

  // Identities of concatenation that the proofs about strings use.

  lemma ConsAppend<T>(h: T, l: seq<T>, r: seq<T>)
    ensures [h] + (l + r) == ([h] + l) + r
  {
  }

  /** Replacing the head of `l + r` replaces the head of `l`. */
  lemma ReplaceHead<T>(h: T, l: seq<T>, r: seq<T>)
    requires l != []
    ensures [h] + (l + r)[1..] == ([h] + l[1..]) + r
  {
    assert (l + r)[1..] == l[1..] + r;
  }

  lemma HeadTail<T>(s: seq<T>)
    requires s != []
    ensures [s[0]] + s[1..] == s
  {
  }

  lemma AppendAssoc<T>(a: seq<T>, b: seq<T>, c: seq<T>)
    ensures (a + b) + c == a + (b + c)
  {
  }

  lemma Displays<T>(a: T, b: T, c: T)
    ensures [a] + [b] == [a, b] && [a] + [b, c] == [a, b, c]
  {
  }

  lemma AfterPrefix<T>(p: seq<T>, q: seq<T>)
    ensures p <= p + q && (p + q)[|p|..] == q
  {
  }

  /** A slice of a suffix is a slice of the whole. */
  lemma SliceOfSuffix<T>(s: seq<T>, n: nat, j: nat, k: nat)
    requires n <= |s| && j <= k <= |s| - n
    ensures s[n..][j..k] == s[n + j..n + k]
  {
  }

  /** An element of the tail part of a concatenation, found by its place in the whole. */
  lemma IndexThrough<T>(whole: seq<T>, front: seq<T>, later: seq<T>, j: nat, x: T)
    requires whole == front + later && j < |later| && later[j] == x
    ensures |front| + j < |whole| && whole[|front| + j] == x
  {
  }

  /**
   * The non-overlapping matches in `s`, left to right: `width(x)` is the
   * length of the match at the front of `x`, 0 when none starts there.
   * After a match the scan resumes behind it, otherwise one element on.
   */
  function Scan<T(!new)>(s: seq<T>, width: seq<T> -> nat): seq<seq<T>>
    requires forall x :: width(x) <= |x|
    decreases |s|
  {
    if s == [] then []
    else if width(s) > 0 then [s[..width(s)]] + Scan(s[width(s)..], width)
    else Scan(s[1..], width)
  }

  /** Every match the scan returns satisfies what each match at a front satisfies. */
  lemma {:induction false} ScanElements<T(!new)>(s: seq<T>, width: seq<T> -> nat, p: seq<T> -> bool)
    requires forall x :: width(x) <= |x|
    requires forall x :: width(x) > 0 ==> p(x[..width(x)])
    ensures forall k :: 0 <= k < |Scan(s, width)| ==> p(Scan(s, width)[k])
    decreases |s|
  {
    if s != [] {
      var skip := if width(s) > 0 then width(s) else 1;
      ScanElements(s[skip..], width, p);
    }
  }

  /**
   * When no match starts strictly inside another, the match starting at
   * position `i` is returned by the scan: here is its place.
   */
  lemma {:induction false} ScanFound<T(!new)>(s: seq<T>, width: seq<T> -> nat, i: nat) returns (k: nat)
    requires forall x :: width(x) <= |x|
    requires forall x, j :: 0 < j < width(x) ==> width(x[j..]) == 0
    requires i < |s| && width(s[i..]) > 0
    ensures k < |Scan(s, width)| && Scan(s, width)[k] == s[i..i + width(s[i..])]
    decreases |s|, 1
  {
    if i == 0 {
      assert s[0..] == s;
      k := 0;
    } else if width(s) > 0 {
      k := ScanFoundPastMatch(s, width, i);
    } else {
      k := ScanFoundPastMiss(s, width, i);
    }
  }

  /** `ScanFound` when a match at the front comes first: the scan resumes behind it. */
  lemma {:induction false} ScanFoundPastMatch<T(!new)>(s: seq<T>, width: seq<T> -> nat, i: nat) returns (k: nat)
    requires forall x :: width(x) <= |x|
    requires forall x, j :: 0 < j < width(x) ==> width(x[j..]) == 0
    requires 0 < i < |s| && width(s[i..]) > 0 && width(s) > 0
    ensures k < |Scan(s, width)| && Scan(s, width)[k] == s[i..i + width(s[i..])]
    decreases |s|, 0
  {
    var n := width(s);
    var m := width(s[i..]);
    var x := s[i..i + m];
    assert n <= i;
    var rest := s[n..];
    assert width(rest[i - n..]) == m && rest[i - n..i - n + m] == x by {
      assert rest[i - n..] == s[i..];
      SliceOfSuffix(s, n, i - n, i - n + m);
    }
    var j := ScanFound(rest, width, i - n);
    var later := Scan(rest, width);
    assert later[j] == x;
    IndexThrough(Scan(s, width), [s[..n]], later, j, x);
    k := 1 + j;
  }

  /** `ScanFound` when no match starts at the front: the scan moves one element on. */
  lemma {:induction false} ScanFoundPastMiss<T(!new)>(s: seq<T>, width: seq<T> -> nat, i: nat) returns (k: nat)
    requires forall x :: width(x) <= |x|
    requires forall x, j :: 0 < j < width(x) ==> width(x[j..]) == 0
    requires 0 < i < |s| && width(s[i..]) > 0 && width(s) == 0
    ensures k < |Scan(s, width)| && Scan(s, width)[k] == s[i..i + width(s[i..])]
    decreases |s|, 0
  {
    var m := width(s[i..]);
    var x := s[i..i + m];
    var rest := s[1..];
    assert width(rest[i - 1..]) == m && rest[i - 1..i - 1 + m] == x by {
      assert rest[i - 1..] == s[i..];
      SliceOfSuffix(s, 1, i - 1, i - 1 + m);
    }
    k := ScanFound(rest, width, i - 1);
    var later := Scan(rest, width);
    assert later[k] == x;
    assert Scan(s, width) == later;
  }

  /** `x` is the match that starts at some position of `s`. */
  ghost predicate MatchedAt<T>(s: seq<T>, width: seq<T> -> nat, x: seq<T>) {
    exists i :: 0 <= i < |s| && 0 < width(s[i..]) <= |s| - i && x == s[i..i + width(s[i..])]
  }

  /** A match at a position of a suffix is a match at the corresponding position of the whole. */
  lemma MatchedInSuffix<T>(s: seq<T>, width: seq<T> -> nat, skip: nat, x: seq<T>)
    requires skip <= |s| && MatchedAt(s[skip..], width, x)
    ensures MatchedAt(s, width, x)
  {
    var rest := s[skip..];
    var i :| 0 <= i < |rest| && 0 < width(rest[i..]) <= |rest| - i && x == rest[i..i + width(rest[i..])];
    assert rest[i..] == s[skip + i..];
    var m := width(s[skip + i..]);
    SliceOfSuffix(s, skip, i, i + m);
    assert x == s[skip + i..skip + i + m];
  }

  /** Every element of the scan is the whole match starting at some position of `s`. */
  lemma {:induction false} ScanAtPositions<T(!new)>(s: seq<T>, width: seq<T> -> nat)
    requires forall x :: width(x) <= |x|
    ensures forall k :: 0 <= k < |Scan(s, width)| ==> MatchedAt(s, width, Scan(s, width)[k])
    decreases |s|
  {
    if s != [] {
      var n := width(s);
      var skip := if n > 0 then n else 1;
      var rest := s[skip..];
      var later := Scan(rest, width);
      ScanAtPositions(rest, width);
      forall k | 0 <= k < |Scan(s, width)| ensures MatchedAt(s, width, Scan(s, width)[k]) {
        if n > 0 && k == 0 {
          assert s[0..] == s;
          assert Scan(s, width)[0] == s[0..0 + width(s[0..])];
        } else {
          var j := if n > 0 then k - 1 else k;
          assert Scan(s, width)[k] == later[j];
          MatchedInSuffix(s, width, skip, later[j]);
        }
      }
    }
  }
}
