/**
 * Orders on file names and sorting by them. `Lexical` is Python's own string order,
 * the one `sorted()` uses: code point by code point, a proper prefix first.
 * `LengthThenLexical` puts shorter names first and orders names of equal length
 * lexically. On `page_%04d.png` names it is page order for every page count, where the
 * lexical order is page order only up to page 9999.
 */
module NameOrder {

  datatype Ordering = Lexical | LengthThenLexical

  /** Python's `a < b` on strings. */
  predicate LexLess(a: string, b: string)
    decreases |a|
  {
    if a == [] then b != []
    else if b == [] then false
    else if a[0] != b[0] then a[0] < b[0]
    else LexLess(a[1..], b[1..])
  }

  predicate Less(o: Ordering, a: string, b: string) {
    match o
    case Lexical => LexLess(a, b)
    case LengthThenLexical => |a| < |b| || (|a| == |b| && LexLess(a, b))
  }

  predicate Le(o: Ordering, a: string, b: string) {
    a == b || Less(o, a, b)
  }

  lemma {:induction false} LexIrreflexive(a: string)
    ensures !LexLess(a, a)
  {
    if a != [] {
      LexIrreflexive(a[1..]);
    }
  }

  lemma {:induction false} LexAsymmetric(a: string, b: string)
    requires LexLess(a, b)
    ensures !LexLess(b, a)
  {
    if a != [] && b != [] && a[0] == b[0] {
      LexAsymmetric(a[1..], b[1..]);
    }
  }

  lemma {:induction false} LexTransitive(a: string, b: string, c: string)
    requires LexLess(a, b) && LexLess(b, c)
    ensures LexLess(a, c)
  {
    if a != [] && a[0] == b[0] && b[0] == c[0] {
      LexTransitive(a[1..], b[1..], c[1..]);
    }
  }

  lemma {:induction false} LexTotal(a: string, b: string)
    requires a != b
    ensures LexLess(a, b) || LexLess(b, a)
  {
    if a != [] && b != [] && a[0] == b[0] {
      assert a == [a[0]] + a[1..] && b == [b[0]] + b[1..];
      LexTotal(a[1..], b[1..]);
    }
  }

  /** Each `Ordering` is a strict total order. */
  lemma LessAsymmetric(o: Ordering, a: string, b: string)
    requires Less(o, a, b)
    ensures !Less(o, b, a)
  {
    if o.Lexical? || |a| == |b| {
      LexAsymmetric(a, b);
    }
  }

  lemma LessTransitive(o: Ordering, a: string, b: string, c: string)
    requires Less(o, a, b) && Less(o, b, c)
    ensures Less(o, a, c)
  {
    if o.Lexical? || (|a| == |b| && |b| == |c|) {
      LexTransitive(a, b, c);
    }
  }

  lemma LessTotal(o: Ordering, a: string, b: string)
    requires a != b
    ensures Less(o, a, b) || Less(o, b, a)
  {
    LexTotal(a, b);
  }

  lemma LeTransitive(o: Ordering, a: string, b: string, c: string)
    requires Le(o, a, b) && Le(o, b, c)
    ensures Le(o, a, c)
  {
    if a != b && b != c {
      LessTransitive(o, a, b, c);
    }
  }

  lemma LeAntisymmetric(o: Ordering, a: string, b: string)
    requires Le(o, a, b) && Le(o, b, a)
    ensures a == b
  {
    if a != b {
      LessAsymmetric(o, a, b);
    }
  }

  predicate Sorted(o: Ordering, s: seq<string>) {
    forall i, j :: 0 <= i < j < |s| ==> Le(o, s[i], s[j])
  }

  /** Inserts `x` into `s` before the first element it does not follow. */
  function Insert(o: Ordering, x: string, s: seq<string>): (r: seq<string>)
    ensures multiset(r) == multiset(s) + multiset{x}
    decreases |s|
  {
    if s == [] then [x]
    else if Le(o, x, s[0]) then [x] + s
    else (assert s == [s[0]] + s[1..]; [s[0]] + Insert(o, x, s[1..]))
  }

  /** Insertion sort, the model of Python's `sorted()` under the given order. */
  function Sort(o: Ordering, s: seq<string>): (r: seq<string>)
    ensures multiset(r) == multiset(s)
    decreases |s|
  {
    if s == [] then [] else (assert s == [s[0]] + s[1..]; Insert(o, s[0], Sort(o, s[1..])))
  }

  lemma {:induction false} InsertSorted(o: Ordering, x: string, s: seq<string>)
    requires Sorted(o, s)
    ensures Sorted(o, Insert(o, x, s))
    decreases |s|
  {
    if s == [] {
    } else if Le(o, x, s[0]) {
      forall j | 0 <= j < |s| ensures Le(o, x, s[j]) {
        if j > 0 {
          LeTransitive(o, x, s[0], s[j]);
        }
      }
      ConsSorted(o, x, s);
    } else {
      LessTotal(o, x, s[0]);
      InsertSorted(o, x, s[1..]);
      assert forall k :: 0 <= k < |s[1..]| ==> s[1..][k] == s[k + 1];
      InsertBounded(o, s[0], x, s[1..]);
      ConsSorted(o, s[0], Insert(o, x, s[1..]));
    }
  }

  /** A sorted sequence stays sorted with a least element in front. */
  lemma ConsSorted(o: Ordering, h: string, t: seq<string>)
    requires Sorted(o, t)
    requires forall j :: 0 <= j < |t| ==> Le(o, h, t[j])
    ensures Sorted(o, [h] + t)
  {
    var r := [h] + t;
    forall i, j | 0 <= i < j < |r| ensures Le(o, r[i], r[j]) {
      assert r[j] == t[j - 1];
      if i > 0 {
        assert r[i] == t[i - 1];
      }
    }
  }

  /** A lower bound of `x` and of every element of `s` bounds every element of the insertion. */
  lemma InsertBounded(o: Ordering, h: string, x: string, s: seq<string>)
    requires Le(o, h, x)
    requires forall k :: 0 <= k < |s| ==> Le(o, h, s[k])
    ensures forall j :: 0 <= j < |Insert(o, x, s)| ==> Le(o, h, Insert(o, x, s)[j])
  {
    var r := Insert(o, x, s);
    forall j | 0 <= j < |r| ensures Le(o, h, r[j]) {
      var y := r[j];
      assert y in multiset(r);
      if y != x {
        assert y in multiset(s);
        var k :| 0 <= k < |s| && s[k] == y;
      }
    }
  }

  /** `Sort` yields a sorted permutation of its input. */
  lemma {:induction false} SortSorted(o: Ordering, s: seq<string>)
    ensures Sorted(o, Sort(o, s))
  {
    if s != [] {
      SortSorted(o, s[1..]);
      InsertSorted(o, s[0], Sort(o, s[1..]));
    }
  }

  /** Two sorted sequences with the same elements are the same sequence. */
  lemma {:induction false} SortedUnique(o: Ordering, s: seq<string>, t: seq<string>)
    requires Sorted(o, s) && Sorted(o, t)
    requires multiset(s) == multiset(t)
    ensures s == t
    decreases |s|
  {
    assert |t| == |multiset(t)| == |multiset(s)| == |s|;
    if s != [] {
      SortedHeadsAgree(o, s, t);
      assert s == [s[0]] + s[1..] && t == [t[0]] + t[1..];
      assert multiset(s[1..]) == multiset(s) - multiset{s[0]};
      assert multiset(t[1..]) == multiset(t) - multiset{t[0]};
      SortedUnique(o, s[1..], t[1..]);
    }
  }

  /** Two non-empty sorted sequences with the same elements start with the same element. */
  lemma SortedHeadsAgree(o: Ordering, s: seq<string>, t: seq<string>)
    requires Sorted(o, s) && Sorted(o, t) && s != []
    requires multiset(s) == multiset(t)
    ensures t != [] && s[0] == t[0]
  {
    assert s[0] in multiset(t);
    var j :| 0 <= j < |t| && t[j] == s[0];
    assert t[0] in multiset(s);
    var i :| 0 <= i < |s| && s[i] == t[0];
    assert Le(o, t[0], s[0]) by {
      if j > 0 { assert Le(o, t[0], t[j]); }
    }
    assert Le(o, s[0], t[0]) by {
      if i > 0 { assert Le(o, s[0], s[i]); }
    }
    LeAntisymmetric(o, s[0], t[0]);
  }

  /** Sorting a permutation of an already sorted sequence gives that sequence back. */
  lemma SortOfPermutation(o: Ordering, listing: seq<string>, s: seq<string>)
    requires Sorted(o, s) && multiset(listing) == multiset(s)
    ensures Sort(o, listing) == s
  {
    SortSorted(o, listing);
    SortedUnique(o, Sort(o, listing), s);
  }
}
