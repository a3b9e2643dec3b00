/** The `less_filename` comparator of wxgui/app.cpp and the reordering it
    drives (the `-r` switch: "50.xy before 100.xy").  The comparator is built
    with the common prefix length n of all paths; at index n it compares two
    names by the number that starts there when both have a digit, and
    lexicographically otherwise. */
module FilenameOrder {
  import opened Text

  /** `isdigit(x[n])`.  At n == |x| the C++ string yields its terminating
      NUL, which is no digit. */
  predicate DigitAt(x: string, n: nat) { n < |x| && IsDigit(x[n]) }

  predicate AllDigits(s: string) { forall i :: 0 <= i < |s| ==> IsDigit(s[i]) }

  /** The longest run of digits that starts s. */
  function LeadingDigits(s: string): (ds: string)
    ensures HasPrefix(s, ds) && AllDigits(ds)
    ensures |ds| == |s| || !IsDigit(s[|ds|])
    decreases |s|
  {
    if s != [] && IsDigit(s[0]) then
      var ds := [s[0]] + LeadingDigits(s[1..]);
      assert s[..|ds|] == [s[0]] + s[1..][..|ds| - 1];
      ds
    else []
  }

  function DigitValue(c: char): nat
    requires IsDigit(c)
  {
    c as int - '0' as int
  }

  /** The number a string of decimal digits denotes. */
  function DecimalValue(ds: string): nat
    requires AllDigits(ds)
    decreases |ds|
  {
    if ds == [] then 0 else 10 * DecimalValue(ds[..|ds| - 1]) + DigitValue(ds[|ds| - 1])
  }

  /** What `strtod` reads from the suffix: here the value of its leading
      digit run (fractions and exponents are not modelled). */
  function NumericKey(s: string): nat
  {
    DecimalValue(LeadingDigits(s))
  }

  /** `less_filename(n)(x, y)`. */
  predicate LessFilename(n: nat, x: string, y: string)
  {
    if DigitAt(x, n) && DigitAt(y, n) then NumericKey(x[n..]) < NumericKey(y[n..])
    else LexLess(x, y)
  }

  // ---------------------------------------------------------------------
  // Decimal values: more digits (without a leading zero) mean a larger number

  function Pow10(k: nat): (r: nat)
    ensures r >= 1
  {
    if k == 0 then 1 else 10 * Pow10(k - 1)
  }

  lemma {:induction false} DecimalValueBelow(ds: string)
    requires AllDigits(ds)
    ensures DecimalValue(ds) < Pow10(|ds|)
    decreases |ds|
  {
    if ds != [] {
      DecimalValueBelow(ds[..|ds| - 1]);
    }
  }

  lemma {:induction false} DecimalValueAtLeast(ds: string)
    requires AllDigits(ds) && ds != [] && ds[0] != '0'
    ensures Pow10(|ds| - 1) <= DecimalValue(ds)
    decreases |ds|
  {
    if |ds| > 1 {
      assert ds[..|ds| - 1][0] == ds[0];
      DecimalValueAtLeast(ds[..|ds| - 1]);
    }
  }

  lemma {:induction false} Pow10Monotone(a: nat, b: nat)
    requires a <= b
    ensures Pow10(a) <= Pow10(b)
    decreases b
  {
    if a < b {
      Pow10Monotone(a, b - 1);
    }
  }

  /** The point of the -r switch: when both names have a digit at the first
      index where they may differ, the one whose number there has fewer
      digits sorts first, provided the longer number has no leading zero, so
      "50.xy" comes before "100.xy" although "1" < "5". */
  lemma ShorterNumberSortsFirst(n: nat, x: string, y: string)
    requires DigitAt(x, n) && DigitAt(y, n) && y[n] != '0'
    requires |LeadingDigits(x[n..])| < |LeadingDigits(y[n..])|
    ensures LessFilename(n, x, y)
    ensures !LessFilename(n, y, x)
  {
    var dx, dy := LeadingDigits(x[n..]), LeadingDigits(y[n..]);
    assert dy[0] == y[n..][0] == y[n];
    DecimalValueBelow(dx);
    DecimalValueAtLeast(dy);
    Pow10Monotone(|dx|, |dy| - 1);
  }

  /** "run-50.xy" sorts before "run-100.xy", the reverse of plain string
      order. */
  lemma RunFiftyBeforeRunHundred()
    ensures LessFilename(4, "run-50.xy", "run-100.xy")
    ensures LexLess("run-100.xy", "run-50.xy")
  {
    var x, y := "run-50.xy", "run-100.xy";
    assert x[4..] == "50.xy" && y[4..] == "100.xy";
    assert LeadingDigits("50.xy") == "50" by {
      assert LeadingDigits(".xy") == [];
    }
    assert LeadingDigits("100.xy") == "100" by {
      assert LeadingDigits(".xy") == [];
    }
    ShorterNumberSortsFirst(4, x, y);
    LexDropShared(y, x, 4);
  }

  // ---------------------------------------------------------------------
  // The comparator is a strict weak order on names that share the prefix

  /** x and y have the same first n characters. */
  predicate SharePrefix(n: nat, x: string, y: string)
  {
    n <= |x| && n <= |y| && x[..n] == y[..n]
  }

  /** Where a name stands at index n: 0 if it ends there or has a character
      below '0', 1 for a digit, 2 for a character above '9'. */
  function Band(n: nat, x: string): nat
  {
    if n >= |x| || x[n] < '0' then 0 else if x[n] <= '9' then 1 else 2
  }

  lemma BandOrder(n: nat, x: string, y: string)
    requires SharePrefix(n, x, y)
    ensures Band(n, x) < Band(n, y) ==> LessFilename(n, x, y)
    ensures LessFilename(n, x, y) ==> Band(n, x) <= Band(n, y)
  {
    if !(DigitAt(x, n) && DigitAt(y, n)) {
      LexDropShared(x, y, n);
    }
  }

  lemma Irreflexive(n: nat, x: string)
    ensures !LessFilename(n, x, x)
  {
    LexIrreflexive(x);
  }

  lemma Asymmetric(n: nat, x: string, y: string)
    ensures LessFilename(n, x, y) ==> !LessFilename(n, y, x)
  {
    LexAsymmetric(x, y);
  }

  lemma Transitive(n: nat, x: string, y: string, z: string)
    requires SharePrefix(n, x, y) && SharePrefix(n, y, z)
    requires LessFilename(n, x, y) && LessFilename(n, y, z)
    ensures LessFilename(n, x, z)
  {
    BandOrder(n, x, y);
    BandOrder(n, y, z);
    BandOrder(n, x, z);
    if Band(n, x) == Band(n, z) && Band(n, x) != 1 {
      LexTransitive(x, y, z);
    }
  }

  /** Two names that share the prefix are unordered either way exactly when
      they are equal or both have a digit at n with the same number there,
      so "unordered" is an equivalence and the order is a strict weak one. */
  lemma Incomparable(n: nat, x: string, y: string)
    ensures (!LessFilename(n, x, y) && !LessFilename(n, y, x)) <==>
            (x == y || (DigitAt(x, n) && DigitAt(y, n) && NumericKey(x[n..]) == NumericKey(y[n..])))
  {
    LexTotal(x, y);
    LexIrreflexive(x);
  }

  // ---------------------------------------------------------------------
  // Sorting: std::sort(p.begin(), p.end(), less_filename(n))

  /** Every name in ps starts with pre. */
  ghost predicate AllStartWith(ps: seq<string>, pre: string)
  {
    forall s :: s in ps ==> HasPrefix(s, pre)
  }

  /** No name is less than one that comes before it. */
  ghost predicate SortedBy(n: nat, ps: seq<string>)
  {
    forall i, j :: 0 <= i < j < |ps| ==> !LessFilename(n, ps[j], ps[i])
  }

  function Insert(n: nat, x: string, ps: seq<string>): (r: seq<string>)
    ensures multiset(r) == multiset(ps) + multiset{x}
    decreases |ps|
  {
    if ps == [] then [x]
    else if LessFilename(n, x, ps[0]) then [x] + ps
    else
      assert ps == [ps[0]] + ps[1..];
      [ps[0]] + Insert(n, x, ps[1..])
  }

  /** The order the source's std::sort produces (std::sort's algorithm is
      not shown; this insertion sort gives the same guarantees). */
  function SortFilenames(n: nat, ps: seq<string>): (r: seq<string>)
    ensures multiset(r) == multiset(ps)
    decreases |ps|
  {
    if ps == [] then []
    else
      assert ps == [ps[0]] + ps[1..];
      Insert(n, ps[0], SortFilenames(n, ps[1..]))
  }

  lemma {:induction false} InsertSorted(pre: string, x: string, ps: seq<string>)
    requires HasPrefix(x, pre) && AllStartWith(ps, pre) && SortedBy(|pre|, ps)
    ensures SortedBy(|pre|, Insert(|pre|, x, ps))
    decreases |ps|
  {
    var n := |pre|;
    if ps == [] {
    } else if LessFilename(n, x, ps[0]) {
      var r := Insert(n, x, ps);
      forall i, j | 0 <= i < j < |r| ensures !LessFilename(n, r[j], r[i]) {
        if i == 0 {
          assert r[j] == ps[j - 1] && ps[j - 1] in ps && ps[0] in ps;
          Asymmetric(n, x, ps[0]);
          if j > 1 && LessFilename(n, r[j], x) {
            Transitive(n, r[j], x, ps[0]);
          }
        }
      }
    } else {
      var t := Insert(n, x, ps[1..]);
      var r := [ps[0]] + t;
      InsertSorted(pre, x, ps[1..]);
      forall i, j | 0 <= i < j < |r| ensures !LessFilename(n, r[j], r[i]) {
        if i == 0 {
          assert r[j] == t[j - 1] && t[j - 1] in multiset(t);
          if r[j] != x {
            var k :| 0 <= k < |ps[1..]| && ps[1..][k] == r[j];
            assert ps[k + 1] == r[j];
          }
        } else {
          assert r[i] == t[i - 1] && r[j] == t[j - 1];
        }
      }
    }
  }

  lemma {:induction false} SortFilenamesSorted(pre: string, ps: seq<string>)
    requires AllStartWith(ps, pre)
    ensures SortedBy(|pre|, SortFilenames(|pre|, ps))
    decreases |ps|
  {
    if ps != [] {
      SortFilenamesSorted(pre, ps[1..]);
      var s := SortFilenames(|pre|, ps[1..]);
      forall t | t in s ensures HasPrefix(t, pre) {
        assert t in multiset(s);
      }
      assert ps[0] in ps;
      InsertSorted(pre, ps[0], s);
    }
  }
}
