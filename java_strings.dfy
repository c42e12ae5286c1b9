/**
 * The parts of java.lang.String and java.util.Collections that the
 * coordination primitives rely on: the order of String.compareTo, startsWith,
 * Collections.sort and the search for one's own entry in a list.
 * Strings are sequences of Unicode scalar values. Java compares UTF-16 code
 * units instead; the two orders agree unless a character above U+FFFF meets
 * one in U+E000..U+FFFF at the first difference.
 */
module JavaStrings {
  import opened Wrappers

  /** `a.compareTo(b) < 0`: the first differing character decides, and a
      proper prefix comes before every extension of it. */
  predicate Less(a: string, b: string)
    decreases |a|
  {
    if |a| == 0 then |b| > 0
    else if |b| == 0 then false
    else if a[0] != b[0] then a[0] < b[0]
    else Less(a[1..], b[1..])
  }

  /** The definition in the `compareTo` documentation: at the first index
      where the strings differ, the smaller character decides; when there is
      none, the shorter string comes first. */
  lemma {:induction false} LessMeaning(a: string, b: string)
    ensures Less(a, b) <==>
      || (|a| < |b| && a == b[..|a|])
      || (exists k :: 0 <= k < |a| && k < |b| && a[..k] == b[..k] && a[k] < b[k])
    decreases |a|
  {
    if |a| > 0 && |b| > 0 && a[0] == b[0] {
      var a', b' := a[1..], b[1..];
      LessMeaning(a', b');
      if |a'| < |b'| && a' == b'[..|a'|] {
        assert a == [a[0]] + a' && b[..|a|] == [b[0]] + b'[..|a'|];
      }
      if |a| < |b| && a == b[..|a|] {
        assert a' == b'[..|a'|];
      }
      forall k | 0 <= k < |a'| && k < |b'| && a'[..k] == b'[..k] && a'[k] < b'[k]
        ensures a[..k + 1] == b[..k + 1] && a[k + 1] < b[k + 1]
      {
        assert a[..k + 1] == [a[0]] + a'[..k] && b[..k + 1] == [b[0]] + b'[..k];
      }
      forall k | 0 <= k < |a| && k < |b| && a[..k] == b[..k] && a[k] < b[k]
        ensures 0 < k && a'[..k - 1] == b'[..k - 1] && a'[k - 1] < b'[k - 1]
      {
        assert a'[..k - 1] == a[1..k] && b'[..k - 1] == b[1..k];
      }
    } else if |a| > 0 && |b| > 0 {
      assert a[..0] == b[..0];
    }
  }

  lemma {:induction false} LessIrreflexive(a: string)
    ensures !Less(a, a)
    decreases |a|
  {
    if |a| > 0 {
      LessIrreflexive(a[1..]);
    }
  }

  lemma {:induction false} LessAsymmetric(a: string, b: string)
    ensures Less(a, b) ==> !Less(b, a)
    decreases |a|
  {
    if |a| > 0 && |b| > 0 && a[0] == b[0] {
      LessAsymmetric(a[1..], b[1..]);
    }
  }

  lemma {:induction false} LessTransitive(a: string, b: string, c: string)
    requires Less(a, b) && Less(b, c)
    ensures Less(a, c)
    decreases |a|
  {
    if |a| > 0 && a[0] == b[0] && b[0] == c[0] {
      LessTransitive(a[1..], b[1..], c[1..]);
    }
  }

  /** compareTo is total: of two different strings exactly one comes first. */
  lemma {:induction false} LessTotal(a: string, b: string)
    ensures a == b || Less(a, b) || Less(b, a)
    ensures !(Less(a, b) && Less(b, a))
    decreases |a|
  {
    LessAsymmetric(a, b);
    if |a| > 0 && |b| > 0 && a[0] == b[0] {
      LessTotal(a[1..], b[1..]);
      if a[1..] == b[1..] {
        assert a == [a[0]] + a[1..] && b == [b[0]] + b[1..];
      }
    }
  }

  /** A common prefix does not change the order. */
  lemma {:induction false} LessCommonPrefix(p: string, x: string, y: string)
    ensures Less(p + x, p + y) == Less(x, y)
    decreases |p|
  {
    if |p| > 0 {
      assert (p + x)[0] == p[0] == (p + y)[0];
      assert (p + x)[1..] == p[1..] + x;
      assert (p + y)[1..] == p[1..] + y;
      LessCommonPrefix(p[1..], x, y);
    } else {
      assert p + x == x && p + y == y;
    }
  }

  /** Between strings of equal length, whatever follows does not change the order. */
  lemma {:induction false} LessSameLengthAppend(x: string, y: string, u: string, v: string)
    requires |x| == |y| && Less(x, y)
    ensures Less(x + u, y + v)
    decreases |x|
  {
    if x[0] == y[0] {
      assert (x + u)[1..] == x[1..] + u;
      assert (y + v)[1..] == y[1..] + v;
      LessSameLengthAppend(x[1..], y[1..], u, v);
    }
  }

  /** `s.startsWith(p)` */
  predicate StartsWith(s: string, p: string)
  {
    |p| <= |s| && s[..|p|] == p
  }

  /** The set of elements of a list. */
  function Elements<T>(s: seq<T>): set<T>
  {
    set x | x in s
  }

  predicate Distinct<T(==)>(s: seq<T>)
  {
    forall i, j :: 0 <= i < j < |s| ==> s[i] != s[j]
  }

  /** `s` enumerates `keys` once each, in some order: what getChildren and a
      HashMap's entry set give. */
  predicate IsListing<T(==)>(s: seq<T>, keys: set<T>)
  {
    Distinct(s) && Elements(s) == keys
  }

  lemma {:induction false} DistinctCardinality<T>(s: seq<T>)
    requires Distinct(s)
    ensures |Elements(s)| == |s|
  {
    if s != [] {
      var init := s[..|s| - 1];
      DistinctCardinality(init);
      assert Elements(s) == Elements(init) + {s[|s| - 1]};
      assert s[|s| - 1] !in Elements(init);
    }
  }

  /** Every finite set can be enumerated. */
  lemma {:induction false} ListingExists<T>(keys: set<T>)
    ensures exists s :: IsListing(s, keys)
    decreases |keys|
  {
    if keys == {} {
      assert IsListing([], keys);
    } else {
      var x :| x in keys;
      ListingExists(keys - {x});
      var s :| IsListing(s, keys - {x});
      assert Elements(s + [x]) == Elements(s) + {x};
      assert IsListing(s + [x], keys);
    }
  }

  /** Non-decreasing in compareTo order. */
  predicate Sorted(s: seq<string>)
  {
    forall i, j :: 0 <= i < j < |s| ==> !Less(s[j], s[i])
  }

  predicate StrictlyIncreasing(s: seq<string>)
  {
    forall i, j :: 0 <= i < j < |s| ==> Less(s[i], s[j])
  }

  /** Puts `x` before the first element that is not less than it. */
  function Insert(x: string, s: seq<string>): (r: seq<string>)
    requires Sorted(s)
    ensures Sorted(r) && multiset(r) == multiset(s) + multiset{x}
  {
    if s == [] then [x]
    else if !Less(s[0], x) then
      InsertFrontSorted(x, s);
      [x] + s
    else
      var rest := Insert(x, s[1..]);
      assert s == [s[0]] + s[1..];
      InsertBehindSorted(x, s, rest);
      [s[0]] + rest
  }

  lemma InsertFrontSorted(x: string, s: seq<string>)
    requires Sorted(s) && s != [] && !Less(s[0], x)
    ensures Sorted([x] + s)
  {
    var r := [x] + s;
    forall i, j | 0 <= i < j < |r| ensures !Less(r[j], r[i]) {
      if i == 0 && Less(r[j], x) {
        // s[0] <= r[j] < x contradicts x <= s[0]
        LessTotal(s[0], r[j]);
        if s[0] != r[j] {
          LessTransitive(s[0], r[j], x);
        }
      }
    }
  }

  lemma InsertBehindSorted(x: string, s: seq<string>, rest: seq<string>)
    requires Sorted(s) && s != [] && Less(s[0], x)
    requires Sorted(rest) && multiset(rest) == multiset(s[1..]) + multiset{x}
    ensures Sorted([s[0]] + rest)
  {
    var r := [s[0]] + rest;
    forall i, j | 0 <= i < j < |r| ensures !Less(r[j], r[i]) {
      if i == 0 {
        var e := rest[j - 1];
        assert e in multiset(rest);
        if e == x {
          LessAsymmetric(s[0], x);
        } else {
          assert e in multiset(s[1..]);
          var k :| 0 <= k < |s[1..]| && s[1..][k] == e;
          assert s[k + 1] == e;
        }
      }
    }
  }

  /** `Collections.sort` on a list of strings (an insertion sort: for a
      list without duplicates every sorting algorithm gives the same list). */
  function Sort(s: seq<string>): (r: seq<string>)
    ensures Sorted(r) && multiset(r) == multiset(s)
  {
    if s == [] then []
    else
      assert s == s[..|s| - 1] + [s[|s| - 1]];
      Insert(s[|s| - 1], Sort(s[..|s| - 1]))
  }

  /** A strictly increasing list has no duplicates. */
  lemma IncreasingDistinct(s: seq<string>)
    requires StrictlyIncreasing(s)
    ensures Distinct(s)
  {
    forall i, j | 0 <= i < j < |s| ensures s[i] != s[j] {
      LessIrreflexive(s[i]);
    }
  }

  /** The head of a strictly increasing list is its least element. */
  lemma HeadIsLeast(s: seq<string>)
    requires StrictlyIncreasing(s) && s != []
    ensures forall c :: c in s ==> !Less(c, s[0])
  {
    forall c | c in s ensures !Less(c, s[0]) {
      var j :| 0 <= j < |s| && s[j] == c;
      if j == 0 {
        LessIrreflexive(c);
      } else {
        LessAsymmetric(s[0], c);
      }
    }
  }

  /** A sorted list without duplicates is strictly increasing. */
  lemma SortedDistinctIncreasing(s: seq<string>)
    requires Sorted(s) && Distinct(s)
    ensures StrictlyIncreasing(s)
  {
    forall i, j | 0 <= i < j < |s| ensures Less(s[i], s[j]) {
      LessTotal(s[i], s[j]);
    }
  }

  /** Sorting keeps the elements, hence the absence of duplicates. */
  lemma {:induction false} SortKeepsListing(s: seq<string>)
    requires Distinct(s)
    ensures Elements(Sort(s)) == Elements(s) && Distinct(Sort(s)) && StrictlyIncreasing(Sort(s))
  {
    var r := Sort(s);
    forall x ensures x in r <==> x in s {
      assert x in r <==> x in multiset(r);
      assert x in s <==> x in multiset(s);
    }
    forall i, j | 0 <= i < j < |r| ensures r[i] != r[j] {
      if r[i] == r[j] {
        TwiceInMultiset(r, i, j);
        DistinctOnce(s, r[i]);
      }
    }
    SortedDistinctIncreasing(r);
  }

  /** A value found at two positions occurs at least twice. */
  lemma TwiceInMultiset(r: seq<string>, i: nat, j: nat)
    requires i < j < |r| && r[i] == r[j]
    ensures multiset(r)[r[i]] >= 2
  {
    assert r == r[..j] + r[j..];
    assert r[..j][i] == r[i] && r[j..][0] == r[j];
  }

  lemma {:induction false} DistinctOnce(s: seq<string>, x: string)
    requires Distinct(s)
    ensures multiset(s)[x] <= 1
  {
    if s != [] {
      var init := s[..|s| - 1];
      assert s == init + [s[|s| - 1]];
      DistinctOnce(init, x);
      if x == s[|s| - 1] {
        assert x !in init;
      }
    }
  }

  /** The position of `x` in `s`, searched from the front (`indexOf`). */
  function IndexOf(s: seq<string>, x: string): (r: Option<nat>)
    ensures r.None? <==> x !in s
    ensures r.Some? ==> r.value < |s| && s[r.value] == x && x !in s[..r.value]
  {
    if s == [] then None
    else if s[0] == x then Some(0)
    else
      match IndexOf(s[1..], x)
      case None => None
      case Some(i) =>
        assert s[..i + 1] == [s[0]] + s[1..][..i];
        Some(i + 1)
  }
}
