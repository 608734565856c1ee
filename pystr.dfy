/** The Python `str` operations the core relies on, written out so that their
    exact behaviour (left-to-right non-overlapping search, clamping slices,
    whitespace and line boundaries) is part of the model.
    Whitespace and line boundaries are restricted to their ASCII members. */
module PyStr {

  // ---------------------------------------------------------------------
  // Searching

  /** `pat` occurs in `s` starting at index `i`. */
  predicate OccursAt(s: string, pat: string, i: int) {
    0 <= i && i + |pat| <= |s| && s[i..i + |pat|] == pat
  }

  predicate StartsWith(s: string, prefix: string) {
    |prefix| <= |s| && s[..|prefix|] == prefix
  }

  predicate EndsWith(s: string, suffix: string) {
    |suffix| <= |s| && s[|s| - |suffix|..] == suffix
  }

  lemma OccursAtShift(s: string, pat: string, j: int)
    requires |s| > 0 && j >= 1
    ensures OccursAt(s, pat, j) <==> OccursAt(s[1..], pat, j - 1)
  {
    if j + |pat| <= |s| {
      assert s[1..][j - 1..j - 1 + |pat|] == s[j..j + |pat|];
    }
  }

  /** `s.find(pat)`: the lowest index at which `pat` occurs, or -1. */
  function Find(s: string, pat: string): (r: int)
    ensures r == -1 || OccursAt(s, pat, r)
    ensures forall j :: 0 <= j < r ==> !OccursAt(s, pat, j)
    ensures r == -1 ==> forall j :: !OccursAt(s, pat, j)
    decreases |s|
  {
    if |s| < |pat| then -1
    else if s[..|pat|] == pat then 0
    else
      var k := Find(s[1..], pat);
      assert forall j :: j >= 1 ==> (OccursAt(s, pat, j) <==> OccursAt(s[1..], pat, j - 1)) by {
        forall j | j >= 1 ensures OccursAt(s, pat, j) <==> OccursAt(s[1..], pat, j - 1) {
          OccursAtShift(s, pat, j);
        }
      }
      assert forall j :: j <= 0 ==> !OccursAt(s, pat, j);
      if k < 0 then -1 else k + 1
  }

  /** A string that does not contain the first character of `pat` does not
      contain `pat`. */
  lemma FindNeedsHead(s: string, pat: string)
    requires |pat| > 0
    ensures Find(s, pat) != -1 ==> pat[0] in s
  {
    var r := Find(s, pat);
    if r != -1 {
      assert s[r..r + |pat|][0] == s[r];
    }
  }

  /** A string in which `pat` does not occur has no infix in which it
      occurs. */
  lemma FindInfix(s: string, pat: string, i: nat, j: nat)
    requires i <= j <= |s|
    ensures Find(s[i..j], pat) != -1 ==> Find(s, pat) != -1
  {
    var r := Find(s[i..j], pat);
    if r != -1 {
      OccursInfix(s, pat, i, j, r);
    }
  }

  /** The same, for an infix given by its start and its value. */
  lemma AbsentFromInfix(s: string, pat: string, i: nat, r: string)
    requires i + |r| <= |s| && s[i..i + |r|] == r
    ensures Find(r, pat) != -1 ==> Find(s, pat) != -1
  {
    FindInfix(s, pat, i, i + |r|);
  }

  /** An occurrence in a prefix is an occurrence that ends inside it. */
  lemma OccursPrefix(s: string, pat: string, i: nat, j: int)
    requires i <= |s|
    ensures OccursAt(s[..i], pat, j) ==> OccursAt(s, pat, j) && j + |pat| <= i
  {
    if OccursAt(s[..i], pat, j) {
      OccursInfix(s, pat, 0, i, j);
    }
  }

  lemma OccursInfix(s: string, pat: string, i: nat, j: nat, r: int)
    requires i <= j <= |s| && OccursAt(s[i..j], pat, r)
    ensures OccursAt(s, pat, i + r)
  {
    var u := s[i..j][r..r + |pat|];
    assert forall k :: 0 <= k < |pat| ==> u[k] == s[i + r + k];
    assert u == s[i + r..i + r + |pat|];
  }

  // ---------------------------------------------------------------------
  // split / join / count

  /** `s.split(sep)` for a non-empty `sep`: cut at the leftmost occurrence,
      then continue after it, so occurrences never overlap. */
  function Split(s: string, sep: string): (pieces: seq<string>)
    requires |sep| > 0
    ensures |pieces| >= 1
    decreases |s|
  {
    var i := Find(s, sep);
    if i < 0 then [s] else [s[..i]] + Split(s[i + |sep|..], sep)
  }

  /** `sep.join(pieces)`. */
  function Join(pieces: seq<string>, sep: string): string
    decreases |pieces|
  {
    if |pieces| == 0 then ""
    else if |pieces| == 1 then pieces[0]
    else pieces[0] + sep + Join(pieces[1..], sep)
  }

  /** `s.count(sep)`: the number of non-overlapping occurrences found scanning
      left to right, one position at a time. */
  function Count(s: string, sep: string): nat
    requires |sep| > 0
    decreases |s|
  {
    if |s| < |sep| then 0
    else if StartsWith(s, sep) then 1 + Count(s[|sep|..], sep)
    else Count(s[1..], sep)
  }

  /** Joining the pieces of a split with the separator gives back the input. */
  lemma {:induction false} SplitJoin(s: string, sep: string)
    requires |sep| > 0
    ensures Join(Split(s, sep), sep) == s
    decreases |s|
  {
    var i := Find(s, sep);
    if i >= 0 {
      var rest := s[i + |sep|..];
      SplitJoin(rest, sep);
      assert Split(s, sep) == [s[..i]] + Split(rest, sep);
      JoinCons(s[..i], Split(rest, sep), sep);
      ThreeParts(s, i, i + |sep|);
    }
  }

  lemma ThreeParts(s: string, i: nat, j: nat)
    requires i <= j <= |s|
    ensures s == s[..i] + s[i..j] + s[j..]
  {
  }

  /** Skipping a prefix in which `sep` does not start leaves the count unchanged. */
  lemma {:induction false} CountSkip(s: string, sep: string, i: nat)
    requires |sep| > 0 && i <= |s|
    requires forall j :: 0 <= j < i ==> !OccursAt(s, sep, j)
    ensures Count(s, sep) == Count(s[i..], sep)
    decreases i
  {
    if i == 0 {
      assert s[i..] == s;
    } else {
      assert !OccursAt(s, sep, 0);
      if |sep| <= |s| {
        assert s[0..|sep|] == s[..|sep|];
      }
      forall j | 0 <= j < i - 1 ensures !OccursAt(s[1..], sep, j) {
        OccursAtShift(s, sep, j + 1);
      }
      CountSkip(s[1..], sep, i - 1);
      assert s[1..][i - 1..] == s[i..];
      if |s| < |sep| {
        assert Count(s[i..], sep) == 0;
      }
    }
  }

  /** A split yields one more piece than there are occurrences of the separator. */
  lemma {:induction false} SplitCount(s: string, sep: string)
    requires |sep| > 0
    ensures |Split(s, sep)| == Count(s, sep) + 1
    decreases |s|
  {
    var i := Find(s, sep);
    if i < 0 {
      CountSkip(s, sep, |s|);
      assert Count(s[|s|..], sep) == 0;
    } else {
      CountSkip(s, sep, i);
      var t := s[i..];
      assert t[..|sep|] == sep;
      assert t[|sep|..] == s[i + |sep|..];
      SplitCount(s[i + |sep|..], sep);
    }
  }

  /** No piece of a split contains the separator. */
  lemma {:induction false} SplitPiecesFree(s: string, sep: string)
    requires |sep| > 0
    ensures forall k :: 0 <= k < |Split(s, sep)| ==> Find(Split(s, sep)[k], sep) == -1
    decreases |s|
  {
    var i := Find(s, sep);
    if i >= 0 {
      var head := s[..i];
      forall j ensures !OccursAt(head, sep, j) {
        OccursPrefix(s, sep, i, j);
      }
      SplitPiecesFree(s[i + |sep|..], sep);
      var pieces := Split(s, sep);
      assert pieces == [head] + Split(s[i + |sep|..], sep);
      forall k | 0 <= k < |pieces| ensures Find(pieces[k], sep) == -1 {
        if k > 0 {
          assert pieces[k] == Split(s[i + |sep|..], sep)[k - 1];
        }
      }
    }
  }

  // ---------------------------------------------------------------------
  // Slicing with Python's index rules

  /** The index a Python slice bound `i` denotes in a string of length `n`:
      negative bounds count from the end, and the result is clamped.
      The ensures spell the cases of the body out one by one: they help the
      solver, and the meaning of slicing is stated by SliceParts. */
  function SliceIndex(i: int, n: nat): (r: nat)
    ensures r <= n
    ensures 0 <= i <= n ==> r == i
    ensures i > n ==> r == n
    ensures i < 0 && i + n >= 0 ==> r == i + n
    ensures i + n < 0 ==> r == 0
  {
    if i < 0 then (if i + n < 0 then 0 else i + n)
    else if i > n then n
    else i
  }

  /** `s[:i]` */
  function SliceTo(s: string, i: int): string {
    s[..SliceIndex(i, |s|)]
  }

  /** `s[i:]` */
  function SliceFrom(s: string, i: int): string {
    s[SliceIndex(i, |s|)..]
  }

  /** `s[:i]` and `s[i:]` cut `s` in two at the clamped bound: a negative
      bound `-k` leaves the last `k` characters to `s[i:]`, and a bound past
      the end leaves all of `s` to `s[:i]`. */
  lemma SliceParts(s: string, i: int)
    ensures SliceTo(s, i) + SliceFrom(s, i) == s
    ensures |SliceTo(s, i)| == SliceIndex(i, |s|)
    ensures -|s| <= i < 0 ==> |SliceFrom(s, i)| == -i
    ensures i >= |s| ==> SliceTo(s, i) == s && SliceFrom(s, i) == ""
  {
    assert s[..SliceIndex(i, |s|)] + s[SliceIndex(i, |s|)..] == s;
  }

  // ---------------------------------------------------------------------
  // strip

  /** The ASCII characters for which `str.isspace` holds. */
  predicate IsSpace(c: char) {
    c == ' ' || c == '\t' || c == '\n' || c == '\r' || c == '\U{0B}' || c == '\U{0C}'
    || c == '\U{1C}' || c == '\U{1D}' || c == '\U{1E}' || c == '\U{1F}'
  }

  /** `s.lstrip()`: the suffix left after dropping leading whitespace. */
  function StripLeft(s: string): (r: string)
    ensures |r| <= |s| && r == s[|s| - |r|..]
    ensures r == [] || !IsSpace(r[0])
    ensures forall k :: 0 <= k < |s| - |r| ==> IsSpace(s[k])
    decreases |s|
  {
    if |s| > 0 && IsSpace(s[0]) then StripLeft(s[1..]) else s
  }

  /** `s.rstrip()`: the prefix left after dropping trailing whitespace. */
  function StripRight(s: string): (r: string)
    ensures |r| <= |s| && r == s[..|r|]
    ensures r == [] || !IsSpace(r[|r| - 1])
    ensures forall k :: |r| <= k < |s| ==> IsSpace(s[k])
    decreases |s|
  {
    if |s| > 0 && IsSpace(s[|s| - 1]) then StripRight(s[..|s| - 1]) else s
  }

  /** `r` is the infix of `s` from `i` with neither leading nor trailing
      whitespace, everything around it being whitespace. */
  ghost predicate Stripped(s: string, i: nat, r: string) {
    && (r == [] || (!IsSpace(r[0]) && !IsSpace(r[|r| - 1])))
    && i + |r| <= |s| && s[i..i + |r|] == r
    && (forall k :: 0 <= k < i ==> IsSpace(s[k]))
    && (forall k :: i + |r| <= k < |s| ==> IsSpace(s[k]))
  }

  /** `s.strip()`: the infix of `s` with neither leading nor trailing
      whitespace, everything cut from either end being whitespace. */
  function Strip(s: string): (r: string)
    ensures Stripped(s, |s| - |StripLeft(s)|, r)
  {
    var left := StripLeft(s);
    var r := StripRight(left);
    StripParts(s, left, r);
    r
  }

  lemma StripParts(s: string, left: string, r: string)
    requires |left| <= |s| && left == s[|s| - |left|..]
    requires left == [] || !IsSpace(left[0])
    requires forall k :: 0 <= k < |s| - |left| ==> IsSpace(s[k])
    requires |r| <= |left| && r == left[..|r|]
    requires r == [] || !IsSpace(r[|r| - 1])
    requires forall k :: |r| <= k < |left| ==> IsSpace(left[k])
    ensures Stripped(s, |s| - |left|, r)
  {
    var i := |s| - |left|;
    assert r != [] ==> r[0] == left[0];
    assert s[i..i + |r|] == r;
    assert forall k :: i + |r| <= k < |s| ==> s[k] == left[k - i];
  }

  /** A string with no non-whitespace character strips to the empty string. */
  lemma StripAllSpace(s: string)
    requires forall k :: 0 <= k < |s| ==> IsSpace(s[k])
    ensures Strip(s) == ""
  {
  }

  // ---------------------------------------------------------------------
  // splitlines

  /** The ASCII characters `str.splitlines` treats as line boundaries. */
  predicate IsLineBoundary(c: char) {
    c == '\n' || c == '\r' || c == '\U{0B}' || c == '\U{0C}'
    || c == '\U{1C}' || c == '\U{1D}' || c == '\U{1E}'
  }

  predicate NoLineBoundary(s: string) {
    forall k :: 0 <= k < |s| ==> !IsLineBoundary(s[k])
  }

  /** Index of the first line boundary of `s`, or `|s|` when there is none. */
  function LineEnd(s: string): (e: nat)
    ensures e <= |s| && NoLineBoundary(s[..e])
    ensures e < |s| ==> IsLineBoundary(s[e])
    decreases |s|
  {
    if |s| == 0 then 0
    else if IsLineBoundary(s[0]) then 0
    else 1 + LineEnd(s[1..])
  }

  /** `s.splitlines()`: the lines of `s` without their boundaries; `"\r\n"`
      is one boundary, and a final boundary does not start an empty line. */
  function SplitLines(s: string): (lines: seq<string>)
    ensures forall k :: 0 <= k < |lines| ==> NoLineBoundary(lines[k])
    ensures lines == [] <==> s == []
    decreases |s|
  {
    if s == [] then []
    else
      var e := LineEnd(s);
      if e == |s| then [s]
      else
        var next := if s[e] == '\r' && e + 1 < |s| && s[e + 1] == '\n' then e + 2 else e + 1;
        [s[..e]] + SplitLines(s[next..])
  }

  /** The first line is the text up to its first line boundary. */
  lemma SplitLinesHead(s: string)
    requires s != []
    ensures SplitLines(s)[0] == s[..LineEnd(s)]
  {
  }

  /** For text whose only line boundary is `'\n'` and that does not end in
      one, joining its lines with `"\n"` gives the text back. */
  lemma {:induction false} SplitLinesJoin(s: string)
    requires forall k :: 0 <= k < |s| ==> IsLineBoundary(s[k]) ==> s[k] == '\n'
    requires s == [] || s[|s| - 1] != '\n'
    ensures Join(SplitLines(s), "\n") == s
    decreases |s|
  {
    if s != [] {
      var e := LineEnd(s);
      if e < |s| {
        var rest := s[e + 1..];
        assert s == s[..e] + "\n" + rest by {
          assert s[e] == '\n';
          ConcatAround(s, e);
        }
        NewlineLineSplit(s, e);
        SplitLinesJoin(rest);
        JoinCons(s[..e], SplitLines(rest), "\n");
      }
    }
  }

  /** Cutting at a `'\n'` boundary keeps the hypotheses of `SplitLinesJoin`
      for the rest and unfolds one line. */
  lemma NewlineLineSplit(s: string, e: nat)
    requires forall k :: 0 <= k < |s| ==> IsLineBoundary(s[k]) ==> s[k] == '\n'
    requires s != [] && s[|s| - 1] != '\n'
    requires e == LineEnd(s) && e < |s|
    ensures s[e] == '\n' && e + 1 < |s|
    ensures var rest := s[e + 1..];
      (forall k :: 0 <= k < |rest| ==> IsLineBoundary(rest[k]) ==> rest[k] == '\n')
      && rest[|rest| - 1] != '\n'
      && SplitLines(s) == [s[..e]] + SplitLines(rest)
  {
    var rest := s[e + 1..];
    assert forall k :: 0 <= k < |rest| ==> rest[k] == s[e + 1 + k];
  }

  lemma ConcatAround(s: string, e: nat)
    requires e < |s|
    ensures s == s[..e] + [s[e]] + s[e + 1..]
  {
  }

  lemma JoinCons(head: string, tail: seq<string>, sep: string)
    requires |tail| >= 1
    ensures Join([head] + tail, sep) == head + sep + Join(tail, sep)
  {
    assert ([head] + tail)[1..] == tail;
  }

  // ---------------------------------------------------------------------
  // Decimal formatting of naturals (`f"{n}"`)

  function DigitChar(d: nat): (c: char)
    requires d < 10
  {
    ('0' as int + d) as char
  }

  predicate IsDigit(c: char) {
    '0' <= c <= '9'
  }

  /** `str(n)` for a natural number. */
  function DecimalString(n: nat): (r: string)
    ensures |r| >= 1 && forall k :: 0 <= k < |r| ==> IsDigit(r[k])
    ensures r[0] == '0' ==> n == 0
    decreases n
  {
    if n < 10 then [DigitChar(n)] else DecimalString(n / 10) + [DigitChar(n % 10)]
  }

  /** The number a string of decimal digits denotes. */
  function DigitsValue(s: string): nat
    requires forall k :: 0 <= k < |s| ==> IsDigit(s[k])
    decreases |s|
  {
    if s == [] then 0
    else
      assert IsDigit(s[|s| - 1]);
      DigitsValue(s[..|s| - 1]) * 10 + (s[|s| - 1] as int - '0' as int) as nat
  }

  /** Reading back the decimal form of `n` gives `n`. */
  lemma {:induction false} DecimalRoundTrip(n: nat)
    ensures DigitsValue(DecimalString(n)) == n
    decreases n
  {
    var r := DecimalString(n);
    if n >= 10 {
      DecimalRoundTrip(n / 10);
      assert r[..|r| - 1] == DecimalString(n / 10);
    }
  }
}
