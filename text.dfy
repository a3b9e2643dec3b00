/** The character and string operations the GUI shell relies on: `isdigit`
    and `isspace` of the C locale, `std::string`'s `operator<`, substring
    search, stripping of surrounding blanks, and ASCII lower-casing as
    `wxString::Lower` does it for ASCII text.  Strings are `seq<char>`; a
    character's order is its code (for UTF-8 bytes compared as unsigned char,
    as `std::char_traits<char>` does, this is the same order). */
module Text {

  /** `isdigit` in the C locale. */
  predicate IsDigit(c: char) { '0' <= c <= '9' }

  /** `isspace` in the C locale: space, and \t \n \v \f \r (codes 9 to 13). */
  predicate IsBlank(c: char) { c == ' ' || '\t' <= c <= '\r' }

  predicate HasPrefix(s: string, pre: string) { |pre| <= |s| && s[..|pre|] == pre }

  predicate HasSuffix(s: string, suf: string) { |suf| <= |s| && s[|s| - |suf|..] == suf }

  // ---------------------------------------------------------------------
  // Lexicographic order: std::string's operator<

  predicate LexLess(x: string, y: string)
    decreases |x|
  {
    if x == [] then y != []
    else if y == [] then false
    else if x[0] != y[0] then x[0] < y[0]
    else LexLess(x[1..], y[1..])
  }

  /** x and y agree below k, and at k either x has ended while y goes on,
      or both go on and x has the smaller character. */
  ghost predicate DecidedAt(x: string, y: string, k: nat)
  {
    k <= |x| && k <= |y| && x[..k] == y[..k] &&
    ((k == |x| && k < |y|) || (k < |x| && k < |y| && x[k] < y[k]))
  }

  lemma {:induction false} DecidedImpliesLexLess(x: string, y: string, k: nat)
    requires DecidedAt(x, y, k)
    ensures LexLess(x, y)
    decreases k
  {
    if k > 0 {
      assert x[0] == x[..k][0] == y[..k][0] == y[0];
      assert x[1..][..k - 1] == x[..k][1..];
      assert y[1..][..k - 1] == y[..k][1..];
      DecidedImpliesLexLess(x[1..], y[1..], k - 1);
    }
  }

  lemma {:induction false} LexLessImpliesDecided(x: string, y: string) returns (k: nat)
    requires LexLess(x, y)
    ensures DecidedAt(x, y, k)
    decreases |x|
  {
    if x == [] || x[0] != y[0] {
      k := 0;
    } else {
      var k' := LexLessImpliesDecided(x[1..], y[1..]);
      assert x[..k' + 1] == [x[0]] + x[1..][..k'];
      assert y[..k' + 1] == [y[0]] + y[1..][..k'];
      k := k' + 1;
    }
  }

  /** LexLess is the textbook lexicographic order: it holds exactly when
      some position decides it. */
  lemma LexLessIffDecided(x: string, y: string)
    ensures LexLess(x, y) <==> exists k: nat :: DecidedAt(x, y, k)
  {
    if LexLess(x, y) {
      var k := LexLessImpliesDecided(x, y);
    }
    if k: nat :| DecidedAt(x, y, k) {
      DecidedImpliesLexLess(x, y, k);
    }
  }

  lemma {:induction false} LexIrreflexive(x: string)
    ensures !LexLess(x, x)
    decreases |x|
  {
    if x != [] {
      LexIrreflexive(x[1..]);
    }
  }

  lemma {:induction false} LexAsymmetric(x: string, y: string)
    ensures LexLess(x, y) ==> !LexLess(y, x)
    decreases |x|
  {
    if x != [] && y != [] && x[0] == y[0] {
      LexAsymmetric(x[1..], y[1..]);
    }
  }

  lemma {:induction false} LexTransitive(x: string, y: string, z: string)
    requires LexLess(x, y) && LexLess(y, z)
    ensures LexLess(x, z)
    decreases |x|
  {
    if x != [] && x[0] == y[0] && y[0] == z[0] {
      LexTransitive(x[1..], y[1..], z[1..]);
    }
  }

  /** Two different strings are always ordered one way or the other. */
  lemma {:induction false} LexTotal(x: string, y: string)
    ensures x != y ==> LexLess(x, y) || LexLess(y, x)
    decreases |x|
  {
    if x != [] && y != [] && x[0] == y[0] {
      LexTotal(x[1..], y[1..]);
      if x != y {
        assert x == [x[0]] + x[1..] && y == [y[0]] + y[1..];
      }
    }
  }

  /** A shared prefix does not change the comparison. */
  lemma {:induction false} LexDropShared(x: string, y: string, k: nat)
    requires k <= |x| && k <= |y| && x[..k] == y[..k]
    ensures LexLess(x, y) == LexLess(x[k..], y[k..])
    decreases k
  {
    if k > 0 {
      assert x[0] == x[..k][0] == y[..k][0] == y[0];
      assert x[1..][..k - 1] == x[..k][1..];
      assert y[1..][..k - 1] == y[..k][1..];
      LexDropShared(x[1..], y[1..], k - 1);
      assert x[1..][k - 1..] == x[k..];
      assert y[1..][k - 1..] == y[k..];
    }
  }

  // ---------------------------------------------------------------------
  // Substring search: whether `str.find(sub)` finds something

  ghost predicate OccursAt(s: string, t: string, i: nat)
  {
    i + |t| <= |s| && s[i..i + |t|] == t
  }

  predicate Contains(s: string, t: string)
    decreases |s|
  {
    |t| <= |s| && (s[..|t|] == t || Contains(s[1..], t))
  }

  lemma {:induction false} OccursImpliesContains(s: string, t: string, i: nat)
    requires OccursAt(s, t, i)
    ensures Contains(s, t)
    decreases i
  {
    if i > 0 && s[..|t|] != t {
      assert s[1..][i - 1..i - 1 + |t|] == s[i..i + |t|];
      OccursImpliesContains(s[1..], t, i - 1);
    }
  }

  lemma {:induction false} ContainsImpliesOccurs(s: string, t: string) returns (i: nat)
    requires Contains(s, t)
    ensures OccursAt(s, t, i)
    decreases |s|
  {
    if s[..|t|] == t {
      i := 0;
    } else {
      var i' := ContainsImpliesOccurs(s[1..], t);
      assert s[1..][i'..i' + |t|] == s[i' + 1..i' + 1 + |t|];
      i := i' + 1;
    }
  }

  /** Contains is substring search: t occurs in s at some position. */
  lemma ContainsIffOccurs(s: string, t: string)
    ensures Contains(s, t) <==> exists i: nat :: OccursAt(s, t, i)
  {
    if Contains(s, t) {
      var i := ContainsImpliesOccurs(s, t);
    }
    if i: nat :| OccursAt(s, t, i) {
      OccursImpliesContains(s, t, i);
    }
  }

  // ---------------------------------------------------------------------
  // Stripping surrounding blanks (fityk's strip_string)

  ghost predicate AllBlank(s: string)
  {
    forall i :: 0 <= i < |s| ==> IsBlank(s[i])
  }

  /** The first index of s that is not blank, |s| if there is none. */
  function FirstNonBlank(s: string): (i: nat)
    ensures i <= |s| && AllBlank(s[..i])
    ensures i < |s| ==> !IsBlank(s[i])
    decreases |s|
  {
    if s != [] && IsBlank(s[0]) then
      var r := 1 + FirstNonBlank(s[1..]);
      assert forall j :: 1 <= j < r ==> s[..r][j] == s[1..][..r - 1][j - 1];
      r
    else 0
  }

  /** One past the last index of s that is not blank, 0 if there is none. */
  function EndNonBlank(s: string): (j: nat)
    ensures j <= |s| && AllBlank(s[j..])
    ensures 0 < j ==> !IsBlank(s[j - 1])
    decreases |s|
  {
    if s != [] && IsBlank(s[|s| - 1]) then
      var r := EndNonBlank(s[..|s| - 1]);
      assert forall k :: 0 <= k < |s| - 1 - r ==> s[r..][k] == s[..|s| - 1][r..][k];
      r
    else |s|
  }

  lemma {:induction false} EndBeyondNonBlank(s: string, k: nat)
    requires k < |s| && !IsBlank(s[k])
    ensures k < EndNonBlank(s)
    decreases |s|
  {
    if IsBlank(s[|s| - 1]) {
      EndBeyondNonBlank(s[..|s| - 1], k);
    }
  }

  function Strip(s: string): (r: string)
  {
    var i := FirstNonBlank(s);
    if i == |s| then [] else s[i..EndNonBlank(s)]
  }

  /** Strip removes exactly the blank run at each end: the result is a slice
      of s with only blanks around it, and it neither starts nor ends with a
      blank. */
  lemma StripSpec(s: string)
    ensures exists i: nat, j: nat :: i <= j <= |s| && Strip(s) == s[i..j] &&
                                     AllBlank(s[..i]) && AllBlank(s[j..])
    ensures Strip(s) == [] || (!IsBlank(Strip(s)[0]) && !IsBlank(Strip(s)[|Strip(s)| - 1]))
  {
    var i := FirstNonBlank(s);
    var j := EndNonBlank(s);
    if i == |s| {
      assert Strip(s) == s[i..i] && AllBlank(s[i..]);
    } else {
      EndBeyondNonBlank(s, i);
      assert Strip(s) == s[i..j];
    }
  }

  /** Stripping twice is stripping once. */
  lemma StripIdempotent(s: string)
    ensures Strip(Strip(s)) == Strip(s)
  {
    StripSpec(s);
    var r := Strip(s);
    if r != [] {
      assert FirstNonBlank(r) == 0;
      assert EndNonBlank(r) == |r|;
      assert r[0..|r|] == r;
    }
  }

  // ---------------------------------------------------------------------
  // ASCII lower-casing (wxString::Lower on ASCII text)

  function LowerChar(c: char): (d: char)
  {
    if 'A' <= c <= 'Z' then (c as int + 32) as char else c
  }

  function Lower(s: string): (r: string)
    ensures |r| == |s|
    ensures forall i :: 0 <= i < |s| ==> r[i] == LowerChar(s[i])
    decreases |s|
  {
    if s == [] then [] else [LowerChar(s[0])] + Lower(s[1..])
  }
}
