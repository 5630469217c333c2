/**
 * The raster page files of the grayscale conversion (scripts/convert_with_ghostscript.py).
 * Ghostscript writes page k of the document to `page_%04d.png` in a fresh directory; the
 * script lists that directory, keeps the names ending in `.png` and sorts them, trusting
 * the sorted order to be page order. The side images are written back under the same
 * pattern, `page_{i:04d}.png`.
 */
module PageFiles {
  import opened DecimalText
  import opened NameOrder

  const PagePrefix: string := "page_"
  const PngSuffix: string := ".png"

  predicate EndsWithPng(f: string) {
    |f| >= 4 && f[|f| - 4..] == PngSuffix
  }

  /** The name Ghostscript's `page_%04d.png` pattern gives page `i`. */
  function PageFileName(i: nat): (name: string)
    ensures EndsWithPng(name)
    ensures |name| >= 13
  {
    var name := PagePrefix + Padded4(i) + PngSuffix;
    assert name[|name| - 4..] == PngSuffix;
    name
  }

  /** The files Ghostscript writes for an `n`-page document, in page order. */
  function PageNames(n: nat): seq<string> {
    seq(n, k requires 0 <= k < n => PageFileName(k + 1))
  }

  /** `[f for f in listing if f.endswith('.png')]`: every PNG name as often as it is listed. */
  function PngOnly(listing: seq<string>): (r: seq<string>)
    ensures forall f :: multiset(r)[f] == (if EndsWithPng(f) then multiset(listing)[f] else 0)
    ensures forall f :: f in r ==> f in listing && EndsWithPng(f)
    ensures forall f :: f in listing && EndsWithPng(f) ==> f in r
  {
    if listing == [] then []
    else
      assert listing == [listing[0]] + listing[1..];
      (if EndsWithPng(listing[0]) then [listing[0]] else []) + PngOnly(listing[1..])
  }

  /** The sorted list of PNG files in a directory listing. */
  function PngFiles(o: Ordering, listing: seq<string>): seq<string> {
    Sort(o, PngOnly(listing))
  }

  /** Of two digit strings of one length, the smaller number comes first lexically. */
  lemma {:induction false} DigitsOrderLexically(a: string, b: string)
    requires IsDigits(a) && IsDigits(b) && |a| == |b|
    requires Value(a) < Value(b)
    ensures LexLess(a, b)
  {
    var k := |a| - 1;
    var x, y := DigitValue(a[0]), DigitValue(b[0]);
    ValueBound(b[1..]);
    LeadingDigitDominates(x, y, Pow10(k), Value(a[1..]), Value(b[1..]));
    if a[0] == b[0] {
      DigitsOrderLexically(a[1..], b[1..]);
    }
  }

  lemma LeadingDigitDominates(x: nat, y: nat, p: nat, u: nat, v: nat)
    ensures x > y && v < p ==> x * p + u > y * p + v
  {
    if x > y && v < p {
      assert x * p >= (y + 1) * p == y * p + p;
    }
  }

  /** A common prefix and a common suffix keep the lexical order of equal-length middles. */
  lemma {:induction false} LexLessFrame(p: string, a: string, b: string, q: string)
    requires |a| == |b| && LexLess(a, b)
    ensures LexLess(p + a + q, p + b + q)
  {
    if p == [] {
      assert p + a + q == a + q && p + b + q == b + q;
      LexLessSuffix(a, b, q);
    } else {
      assert (p + a + q)[1..] == p[1..] + a + q;
      assert (p + b + q)[1..] == p[1..] + b + q;
      LexLessFrame(p[1..], a, b, q);
    }
  }

  lemma {:induction false} LexLessSuffix(a: string, b: string, q: string)
    requires |a| == |b| && LexLess(a, b)
    ensures LexLess(a + q, b + q)
  {
    if a[0] == b[0] {
      assert (a + q)[1..] == a[1..] + q && (b + q)[1..] == b[1..] + q;
      LexLessSuffix(a[1..], b[1..], q);
    }
  }

  /** The digits between the fixed prefix and suffix of a page file name. */
  lemma PageFileNameMiddle(i: nat)
    ensures PageFileName(i)[|PagePrefix|..|PageFileName(i)| - |PngSuffix|] == Padded4(i)
  {
  }

  /** Distinct pages get distinct file names, however many pages there are. */
  lemma PageFileNameInjective(i: nat, j: nat)
    ensures PageFileName(i) == PageFileName(j) ==> i == j
  {
    PageFileNameMiddle(i);
    PageFileNameMiddle(j);
    Padded4Facts(i);
    Padded4Facts(j);
  }

  /**
   * Page file names follow page order under `o`: lexically up to page 9999 and, by
   * length first, for every page count.
   */
  lemma PageFileNamesOrdered(o: Ordering, i: nat, j: nat)
    requires i < j
    requires o.Lexical? ==> j <= 9999
    ensures Less(o, PageFileName(i), PageFileName(j))
  {
    Padded4Facts(i);
    Padded4Facts(j);
    DecimalLengthMonotone(i, j);
    DecimalLength(j);
    if |Padded4(i)| == |Padded4(j)| {
      DigitsOrderLexically(Padded4(i), Padded4(j));
      LexLessFrame(PagePrefix, Padded4(i), Padded4(j), PngSuffix);
    }
  }

  lemma PageNamesSorted(o: Ordering, n: nat)
    requires o.Lexical? ==> n <= 9999
    ensures Sorted(o, PageNames(n))
  {
    var names := PageNames(n);
    forall i, j | 0 <= i < j < n ensures Le(o, names[i], names[j]) {
      PageFileNamesOrdered(o, i + 1, j + 1);
    }
  }

  lemma {:induction false} PngOnlyKeepsAll(listing: seq<string>)
    requires forall k :: 0 <= k < |listing| ==> EndsWithPng(listing[k])
    ensures PngOnly(listing) == listing
  {
    if listing != [] {
      PngOnlyKeepsAll(listing[1..]);
      assert listing == [listing[0]] + listing[1..];
    }
  }

  /**
   * If the directory holds exactly the files Ghostscript wrote for `n` pages, in any
   * listing order, the sorted PNG list is page 1, 2, ..., n, provided the order is
   * lexical and n <= 9999, or the order is length-then-lexical.
   */
  lemma ListingSortsIntoPageOrder(o: Ordering, listing: seq<string>, n: nat)
    requires multiset(listing) == multiset(PageNames(n))
    requires o.Lexical? ==> n <= 9999
    ensures PngFiles(o, listing) == PageNames(n)
  {
    forall k | 0 <= k < |listing| ensures EndsWithPng(listing[k]) {
      assert listing[k] in multiset(PageNames(n));
    }
    PngOnlyKeepsAll(listing);
    PageNamesSorted(o, n);
    SortOfPermutation(o, listing, PageNames(n));
  }

  lemma {:induction false} LexLessPrefix(p: string, a: string, b: string)
    requires LexLess(a, b)
    ensures LexLess(p + a, p + b)
  {
    if p == [] {
      assert p + a == a && p + b == b;
    } else {
      assert (p + a)[1..] == p[1..] + a && (p + b)[1..] == p[1..] + b;
      LexLessPrefix(p[1..], a, b);
    }
  }

  /** Lexically, the name of page 10000 sorts before the name of page 9999. */
  lemma Page10000SortsBeforePage9999()
    ensures LexLess(PageFileName(10000), PageFileName(9999))
  {
    assert Decimal(10) == "10";
    assert Decimal(100) == "100";
    assert Decimal(1000) == "1000";
    assert Decimal(10000) == "10000";
    assert Decimal(99) == "99";
    assert Decimal(999) == "999";
    assert Decimal(9999) == "9999";
    assert PageFileName(10000) == PagePrefix + "10000.png";
    assert PageFileName(9999) == PagePrefix + "9999.png";
    LexLessPrefix(PagePrefix, "10000.png", "9999.png");
  }

  /** From 10000 pages on, the page names in page order are not lexically sorted. */
  lemma PageNamesNotLexicallySorted(n: nat)
    requires n >= 10000
    ensures !Sorted(Lexical, PageNames(n))
  {
    var names := PageNames(n);
    assert names[9998] == PageFileName(9999);
    assert names[9999] == PageFileName(10000);
    Page10000SortsBeforePage9999();
    LexAsymmetric(PageFileName(10000), PageFileName(9999));
    PageFileNameInjective(9999, 10000);
    assert !Le(Lexical, names[9998], names[9999]);
  }

  /**
   * With 10000 pages or more, the lexical sort the script relies on does NOT give page
   * order, whatever the directory holds and whatever order it is listed in.
   */
  lemma LexicalSortMisordersLongDocuments(listing: seq<string>, n: nat)
    requires n >= 10000
    ensures PngFiles(Lexical, listing) != PageNames(n)
  {
    SortSorted(Lexical, PngOnly(listing));
    PageNamesNotLexicallySorted(n);
  }

  /**
   * The lexical order of the names Ghostscript writes for a 10000-page document:
   * pages 1..1000, then page 10000, then pages 1001..9999.
   */
  function LexicalOrder10000(): (r: seq<string>)
    ensures |r| == 10000
  {
    PageNames(1000) + [PageFileName(10000)] + seq(8999, k requires 0 <= k < 8999 => PageFileName(k + 1001))
  }

  /** Lexically, page 10000 falls between page 1000 and page 1001. */
  lemma Page10000BetweenPages1000And1001()
    ensures LexLess(PageFileName(1000), PageFileName(10000))
    ensures LexLess(PageFileName(10000), PageFileName(1001))
  {
    var stem := PagePrefix + "100";
    PageFileNamesNear1000(stem);
    assert LexLess("0.png", "00.png") by {
      assert "0.png"[1..] == ".png" && "00.png"[1..] == "0.png";
    }
    LexLessPrefix(stem, "0.png", "00.png");
    LexLessPrefix(stem, "00.png", "1.png");
  }

  lemma PageFileNamesNear1000(stem: string)
    requires stem == PagePrefix + "100"
    ensures PageFileName(1000) == stem + "0.png"
    ensures PageFileName(1001) == stem + "1.png"
    ensures PageFileName(10000) == stem + "00.png"
  {
    DecimalsNear1000();
    PageFileNameWithStem(1000, "1000", stem, "0.png");
    PageFileNameWithStem(1001, "1001", stem, "1.png");
    PageFileNameWithStem(10000, "10000", stem, "00.png");
  }

  lemma PageFileNameWithStem(i: nat, digits: string, stem: string, rest: string)
    requires Decimal(i) == digits && |digits| >= 4
    requires PagePrefix + digits + PngSuffix == stem + rest
    ensures PageFileName(i) == stem + rest
  {
    PageFileNameOfDigits(i, digits);
  }

  /** A page number of four digits or more is written out unpadded. */
  lemma PageFileNameOfDigits(i: nat, digits: string)
    requires Decimal(i) == digits && |digits| >= 4
    ensures PageFileName(i) == PagePrefix + digits + PngSuffix
  {
    assert Padded4(i) == digits;
  }

  lemma DecimalsNear1000()
    ensures Decimal(1000) == "1000" && Decimal(1001) == "1001" && Decimal(10000) == "10000"
  {
    assert Decimal(10) == "10";
    assert Decimal(100) == "100";
    assert Decimal(1000) == "1000";
  }

  /** Entry `i` of the lexical order, by page number. */
  lemma LexicalOrder10000Entry(i: int)
    requires 0 <= i < 10000
    ensures LexicalOrder10000()[i] ==
      if i < 1000 then PageFileName(i + 1) else if i == 1000 then PageFileName(10000) else PageFileName(i)
  {
    var a, b := PageNames(1000), seq(8999, k requires 0 <= k < 8999 => PageFileName(k + 1001));
    var x := PageFileName(10000);
    assert LexicalOrder10000() == a + [x] + b;
    if i < 1000 {
      assert (a + [x] + b)[i] == a[i];
    } else if i > 1000 {
      assert (a + [x] + b)[i] == b[i - 1001];
    }
  }

  lemma LexicalOrder10000Pair(i: int, j: int)
    requires 0 <= i < j < 10000
    ensures Le(Lexical, LexicalOrder10000()[i], LexicalOrder10000()[j])
  {
    LexicalOrder10000Entry(i);
    LexicalOrder10000Entry(j);
    var x := PageFileName(10000);
    if i != 1000 && j != 1000 {
      PageFileNamesOrdered(Lexical, if i < 1000 then i + 1 else i, if j < 1000 then j + 1 else j);
    } else if j == 1000 {
      Page10000BetweenPages1000And1001();
      if i + 1 < 1000 {
        PageFileNamesOrdered(Lexical, i + 1, 1000);
        LexTransitive(PageFileName(i + 1), PageFileName(1000), x);
      }
    } else {
      Page10000BetweenPages1000And1001();
      if j > 1001 {
        PageFileNamesOrdered(Lexical, 1001, j);
        LexTransitive(x, PageFileName(1001), PageFileName(j));
      }
    }
  }

  lemma LexicalOrder10000Sorted()
    ensures Sorted(Lexical, LexicalOrder10000())
  {
    forall i, j | 0 <= i < j < 10000 ensures Le(Lexical, LexicalOrder10000()[i], LexicalOrder10000()[j]) {
      LexicalOrder10000Pair(i, j);
    }
  }

  lemma LexicalOrder10000Permutation()
    ensures multiset(LexicalOrder10000()) == multiset(PageNames(10000))
  {
    var a, b := PageNames(1000), seq(8999, k requires 0 <= k < 8999 => PageFileName(k + 1001));
    var x := PageFileName(10000);
    assert PageNames(10000) == (a + b) + [x];
    assert LexicalOrder10000() == a + [x] + b;
  }

  /**
   * What `sorted()` makes of the listing of a 10000-page document, whatever order the
   * directory lists it in: the 1001st name is that of page 10000, the last that of page 9999.
   */
  lemma LexicalSortOf10000Pages(listing: seq<string>)
    requires multiset(listing) == multiset(PageNames(10000))
    ensures PngFiles(Lexical, listing) == LexicalOrder10000()
    ensures PngFiles(Lexical, listing)[999] == PageFileName(1000)
    ensures PngFiles(Lexical, listing)[1000] == PageFileName(10000)
    ensures PngFiles(Lexical, listing)[1001] == PageFileName(1001)
    ensures PngFiles(Lexical, listing)[9999] == PageFileName(9999)
  {
    LexicalOrder10000Entry(999);
    LexicalOrder10000Entry(1000);
    LexicalOrder10000Entry(1001);
    LexicalOrder10000Entry(9999);
    LexicalSortIs10000Order(listing);
  }

  lemma LexicalSortIs10000Order(listing: seq<string>)
    requires multiset(listing) == multiset(PageNames(10000))
    ensures PngFiles(Lexical, listing) == LexicalOrder10000()
  {
    forall k | 0 <= k < |listing| ensures EndsWithPng(listing[k]) {
      assert listing[k] in multiset(PageNames(10000));
    }
    PngOnlyKeepsAll(listing);
    LexicalOrder10000Sorted();
    LexicalOrder10000Permutation();
    SortOfPermutation(Lexical, listing, LexicalOrder10000());
  }
}
