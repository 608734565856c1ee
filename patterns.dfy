/** The two fixed regular expressions of src/common.py, written as explicit
    scanners with the semantics of Python's `re.findall`:

      images  !\[(.*?)\]\((.*?)\)
      links   [^!]\[(.*?)\]\((.*?)\)

    `.` does not match a newline, `[^!]` does, and both groups are lazy: for
    a given start the shortest label is tried first, and for each label the
    shortest url closed by `)`; when no url closes, a longer label is tried.
    `findall` tries every start position left to right and resumes after the
    end of each match, so matches never overlap. */
module Patterns {
  import opened Wrappers

  datatype Pattern = ImagePattern | LinkPattern

  /** One match: `[start, end)` is the matched span, `text` the first group
      (alt text or link text) and `url` the second. */
  datatype Match = Match(start: nat, end: nat, text: string, url: string)

  // ---------------------------------------------------------------------
  // What a match is

  predicate NoNewline(s: string, i: nat, j: nat)
    requires i <= j <= |s|
  {
    forall k :: i <= k < j ==> s[k] != '\n'
  }

  /** The lazy url group that starts at `from` ends at `u`: `s[u]` is the
      first `)` from `from` on, and no newline comes before it. */
  predicate UrlClosesAt(s: string, from: nat, u: nat) {
    from <= u < |s| && s[u] == ')'
    && forall k :: from <= k < u ==> s[k] != '\n' && s[k] != ')'
  }

  /** After an opening `[` the label `s[i..a]` is followed by `](`, a url
      `s[a + 2..u]` and the closing `)` at `u`. */
  predicate BracketBody(s: string, i: nat, a: nat, u: nat) {
    i <= a && a + 1 < |s| && s[a] == ']' && s[a + 1] == '('
    && NoNewline(s, i, a) && UrlClosesAt(s, a + 2, u)
  }

  /** The characters before the label: `![` for an image, `[` preceded by
      any character but `!` for a link. */
  predicate Opens(s: string, p: nat, pat: Pattern) {
    p + 1 < |s| && s[p + 1] == '['
    && (if pat == ImagePattern then s[p] == '!' else s[p] != '!')
  }

  /** No label starting at `i` is followed by a url that closes. */
  ghost predicate NoBracketBody(s: string, i: nat) {
    forall a, u :: !BracketBody(s, i, a, u)
  }

  /** No match of `pat` starts at `p`. */
  ghost predicate NoMatchAt(s: string, p: nat, pat: Pattern) {
    !Opens(s, p, pat) || NoBracketBody(s, p + 2)
  }

  /** `m` is the match the lazy pattern produces when it starts at `m.start`:
      it is spelled out by its groups, and no shorter label admits a url. */
  ghost predicate IsLazyMatch(s: string, pat: Pattern, m: Match) {
    var i := m.start + 2;
    var a := i + |m.text|;
    var u := m.end - 1;
    Opens(s, m.start, pat) && m.end >= 1 && BracketBody(s, i, a, u)
    && m.text == s[i..a] && m.url == s[a + 2..u]
    && forall b, v :: i <= b < a ==> !BracketBody(s, i, b, v)
  }

  // ---------------------------------------------------------------------
  // Scanners

  /** End of the lazy url group starting at `k`, if it closes. */
  function CloseFrom(s: string, k: nat): (r: Option<nat>)
    requires k <= |s|
    ensures r.Some? ==> UrlClosesAt(s, k, r.value)
    ensures r.None? ==> forall u :: !UrlClosesAt(s, k, u)
    decreases |s| - k
  {
    if k == |s| then None
    else if s[k] == ')' then Some(k)
    else if s[k] == '\n' then None
    else
      var r := CloseFrom(s, k + 1);
      assert forall u :: UrlClosesAt(s, k, u) ==> u == k || UrlClosesAt(s, k + 1, u);
      r
  }

  /** Tries the labels `s[i..a]`, `s[i..a + 1]`, ... in turn and returns the
      first label end with a closing url, together with that url's end. */
  function BracketFrom(s: string, i: nat, a: nat): (r: Option<(nat, nat)>)
    requires i <= a <= |s| && NoNewline(s, i, a)
    ensures r.Some? ==> a <= r.value.0 && BracketBody(s, i, r.value.0, r.value.1)
    ensures r.Some? ==> forall b, v :: a <= b < r.value.0 ==> !BracketBody(s, i, b, v)
    ensures r.None? ==> forall b, v :: a <= b ==> !BracketBody(s, i, b, v)
    decreases |s| - a
  {
    if a + 1 >= |s| then None
    else
      var close := CloseFrom(s, a + 2);
      if s[a] == ']' && s[a + 1] == '(' && close.Some? then Some((a, close.value))
      else if s[a] == '\n' then
        assert forall b: nat :: a < b <= |s| ==> !NoNewline(s, i, b);
        None
      else
        assert NoNewline(s, i, a + 1);
        BracketFrom(s, i, a + 1)
  }

  /** The match of `pat` that starts at `p`, if any. */
  function MatchAt(s: string, p: nat, pat: Pattern): (r: Option<Match>)
    requires p <= |s|
    ensures r.Some? ==> r.value.start == p && p < r.value.end <= |s| && IsLazyMatch(s, pat, r.value)
    ensures r.None? ==> NoMatchAt(s, p, pat)
  {
    if !Opens(s, p, pat) then None
    else
      match BracketFrom(s, p + 2, p + 2)
      case None => None
      case Some((a, u)) => Some(Match(p, u + 1, s[p + 2..a], s[a + 2..u]))
  }

  /** No match of `pat` starts at any position in `[lo, hi)`. */
  ghost predicate NoMatchIn(s: string, pat: Pattern, lo: nat, hi: nat) {
    forall q :: lo <= q < hi ==> NoMatchAt(s, q, pat)
  }

  /** `ms` is the left-to-right, non-overlapping sequence of matches a scan
      from `p` finds: no match starts before the first one, between two
      consecutive ones, or after the last one. */
  ghost predicate Leftmost(s: string, pat: Pattern, p: nat, ms: seq<Match>) {
    (|ms| == 0 ==> NoMatchIn(s, pat, p, |s| + 1))
    && (|ms| > 0 ==> NoMatchIn(s, pat, p, ms[0].start)
                     && NoMatchIn(s, pat, ms[|ms| - 1].end, |s| + 1))
    && (forall i :: 0 <= i < |ms| - 1 ==>
          ms[i].end <= ms[i + 1].start && NoMatchIn(s, pat, ms[i].end, ms[i + 1].start))
  }

  /** `re.findall` from position `p`: try a match at each position in turn,
      resuming after the end of each match found. */
  function FindAll(s: string, pat: Pattern, p: nat): (ms: seq<Match>)
    requires p <= |s|
    ensures forall i :: 0 <= i < |ms| ==> p <= ms[i].start < ms[i].end <= |s|
    decreases |s| - p
  {
    if p == |s| then []
    else
      match MatchAt(s, p, pat)
      case Some(m) => [m] + FindAll(s, pat, m.end)
      case None => FindAll(s, pat, p + 1)
  }

  /** Every match `findall` reports is the lazy match at its start. */
  lemma {:induction false} FindAllLazy(s: string, pat: Pattern, p: nat)
    requires p <= |s|
    ensures forall i :: 0 <= i < |FindAll(s, pat, p)| ==> IsLazyMatch(s, pat, FindAll(s, pat, p)[i])
    decreases |s| - p
  {
    if p < |s| {
      var r := MatchAt(s, p, pat);
      if r.Some? {
        FindAllLazy(s, pat, r.value.end);
        LazyMatchStep(s, pat, p);
      } else {
        FindAllLazy(s, pat, p + 1);
        assert FindAll(s, pat, p) == FindAll(s, pat, p + 1);
      }
    }
  }

  /** A lazy match at `p` followed by lazy matches from its end. */
  lemma LazyMatchStep(s: string, pat: Pattern, p: nat)
    requires p < |s| && MatchAt(s, p, pat).Some?
    requires var e := MatchAt(s, p, pat).value.end;
      forall i :: 0 <= i < |FindAll(s, pat, e)| ==> IsLazyMatch(s, pat, FindAll(s, pat, e)[i])
    ensures forall i :: 0 <= i < |FindAll(s, pat, p)| ==> IsLazyMatch(s, pat, FindAll(s, pat, p)[i])
  {
    var m := MatchAt(s, p, pat).value;
    var rest := FindAll(s, pat, m.end);
    var ms := FindAll(s, pat, p);
    assert ms == [m] + rest;
    forall i | 0 <= i < |ms| ensures IsLazyMatch(s, pat, ms[i]) {
      if i > 0 {
        assert ms[i] == rest[i - 1];
      }
    }
  }

  lemma LeftmostCons(s: string, pat: Pattern, m: Match, rest: seq<Match>)
    requires m.start < m.end && Leftmost(s, pat, m.end, rest)
    requires |rest| > 0 ==> m.end <= rest[0].start
    ensures Leftmost(s, pat, m.start, [m] + rest)
  {
    var ms := [m] + rest;
    if |rest| > 0 {
      assert ms[|ms| - 1] == rest[|rest| - 1];
      forall i | 0 <= i < |ms| - 1
        ensures ms[i].end <= ms[i + 1].start && NoMatchIn(s, pat, ms[i].end, ms[i + 1].start)
      {
        if i > 0 { assert ms[i] == rest[i - 1]; }
      }
    }
  }

  lemma LeftmostSkip(s: string, pat: Pattern, p: nat, ms: seq<Match>)
    requires NoMatchAt(s, p, pat) && Leftmost(s, pat, p + 1, ms)
    requires |ms| > 0 ==> p < ms[0].start
    ensures Leftmost(s, pat, p, ms)
  {
  }

  /** `findall` reports matches left to right without overlap and skips no
      match: none starts at a position the scan tried before, between or
      after the matches it reports. */
  lemma {:induction false} FindAllLeftmost(s: string, pat: Pattern, p: nat)
    requires p <= |s|
    ensures Leftmost(s, pat, p, FindAll(s, pat, p))
    decreases |s| - p
  {
    var ms := FindAll(s, pat, p);
    if p == |s| {
      assert !Opens(s, p, pat);
    } else {
      var r := MatchAt(s, p, pat);
      if r.Some? {
        FindAllLeftmost(s, pat, r.value.end);
        FindAllMatchStep(s, pat, p);
      } else {
        FindAllLeftmost(s, pat, p + 1);
        FindAllSkipStep(s, pat, p);
      }
    }
  }

  /** A match at `p` extends the scan from its end. */
  lemma FindAllMatchStep(s: string, pat: Pattern, p: nat)
    requires p < |s| && MatchAt(s, p, pat).Some?
    requires Leftmost(s, pat, MatchAt(s, p, pat).value.end, FindAll(s, pat, MatchAt(s, p, pat).value.end))
    ensures Leftmost(s, pat, p, FindAll(s, pat, p))
  {
    var m := MatchAt(s, p, pat).value;
    var rest := FindAll(s, pat, m.end);
    assert FindAll(s, pat, p) == [m] + rest;
    LeftmostCons(s, pat, m, rest);
  }

  /** No match at `p`: the scan from `p` is the scan from `p + 1`. */
  lemma FindAllSkipStep(s: string, pat: Pattern, p: nat)
    requires p < |s| && MatchAt(s, p, pat).None?
    requires Leftmost(s, pat, p + 1, FindAll(s, pat, p + 1))
    ensures Leftmost(s, pat, p, FindAll(s, pat, p))
  {
    assert FindAll(s, pat, p) == FindAll(s, pat, p + 1);
    LeftmostSkip(s, pat, p, FindAll(s, pat, p));
  }

  /** Each match ends at or before the next one starts. */
  predicate Ordered(ms: seq<Match>) {
    forall i :: 0 <= i < |ms| - 1 ==> ms[i].end <= ms[i + 1].start
  }

  /** The scan reports matches in order, each ending before the next starts. */
  lemma FindAllOrdered(s: string, pat: Pattern, p: nat)
    requires p <= |s|
    ensures Ordered(FindAll(s, pat, p))
  {
    FindAllLeftmost(s, pat, p);
  }

  /** No match starts where no `[` follows. */
  lemma {:induction false} FindAllNoOpen(s: string, pat: Pattern, p: nat)
    requires p <= |s|
    requires forall k :: p < k < |s| ==> s[k] != '['
    ensures FindAll(s, pat, p) == []
    decreases |s| - p
  {
    if p < |s| {
      assert !Opens(s, p, pat);
      FindAllNoOpen(s, pat, p + 1);
    }
  }

  /** `re.findall` result: the (label, url) pairs of the matches.
      The ensures spell the body out element by element: they help the
      solver and are not properties of the source. */
  function Groups(ms: seq<Match>): (r: seq<(string, string)>)
    ensures |r| == |ms|
    ensures forall i :: 0 <= i < |ms| ==> r[i] == (ms[i].text, ms[i].url)
  {
    seq(|ms|, i requires 0 <= i < |ms| => (ms[i].text, ms[i].url))
  }

  /** `extract_markdown_images(text)` */
  function ExtractMarkdownImages(text: string): (r: seq<(string, string)>) {
    Groups(FindAll(text, ImagePattern, 0))
  }

  /** `extract_markdown_links(text)` */
  function ExtractMarkdownLinks(text: string): (r: seq<(string, string)>) {
    Groups(FindAll(text, LinkPattern, 0))
  }

  // ---------------------------------------------------------------------
  // Consequences

  /** A match spells out its groups: `[text](url)` from the opening bracket
      at `m.start + 1` to the end, preceded by `!` exactly for an image. */
  lemma MatchSpelling(s: string, pat: Pattern, m: Match)
    requires IsLazyMatch(s, pat, m)
    ensures m.start < m.end <= |s|
    ensures s[m.start + 1..m.end] == "[" + m.text + "](" + m.url + ")"
    ensures (s[m.start] == '!') <==> (pat == ImagePattern)
  {
    var i := m.start + 2;
    var a := i + |m.text|;
    var u := m.end - 1;
    assert a + 1 < u + 1 <= |s| && s[m.start + 1] == '[' && s[a] == ']' && s[a + 1] == '(' && s[u] == ')';
    ReferenceSpelling(s, m.start + 1, a, u);
  }

  /** The characters from an opening `[` at `o` to a closing `)` at `u`,
      with `](` at `a`, spell `[label](url)`. */
  lemma ReferenceSpelling(s: string, o: nat, a: nat, u: nat)
    requires o < a && a + 1 < u < |s|
    requires s[o] == '[' && s[a] == ']' && s[a + 1] == '(' && s[u] == ')'
    ensures s[o..u + 1] == "[" + s[o + 1..a] + "](" + s[a + 2..u] + ")"
  {
    SliceSplit(s, o, u, u + 1);
    SliceSplit(s, o, a + 2, u);
    SliceSplit(s, o, a, a + 2);
    SliceSplit(s, o, o + 1, a);
    assert s[o..o + 1] == "[" && s[a..a + 2] == "](" && s[u..u + 1] == ")";
  }

  lemma SliceSplit(s: string, i: nat, j: nat, k: nat)
    requires i <= j <= k <= |s|
    ensures s[i..k] == s[i..j] + s[j..k]
  {
  }

  /** Every reported image starts with `!` followed by `[`; every reported
      link has its `[` after a character that is not `!`, so never at index
      0. */
  lemma {:induction false} MatchesOpen(s: string, pat: Pattern)
    ensures forall m :: m in FindAll(s, pat, 0) ==>
      m.start + 1 < |s| && s[m.start + 1] == '['
      && (pat == ImagePattern ==> s[m.start] == '!')
      && (pat == LinkPattern ==> s[m.start] != '!')
  {
    var ms := FindAll(s, pat, 0);
    FindAllLazy(s, pat, 0);
    forall m | m in ms
      ensures m.start + 1 < |s| && s[m.start + 1] == '['
      ensures pat == ImagePattern ==> s[m.start] == '!'
      ensures pat == LinkPattern ==> s[m.start] != '!'
    {
      var i :| 0 <= i < |ms| && ms[i] == m;
      LazyOpens(s, pat, m);
    }
  }

  /** A match opens as its pattern demands. */
  lemma LazyOpens(s: string, pat: Pattern, m: Match)
    requires IsLazyMatch(s, pat, m)
    ensures Opens(s, m.start, pat)
  {
  }

  /** Text without `!` has no image references; so `[text](url)` alone is
      never reported as an image. */
  lemma {:induction false} ImagesNeedBang(s: string)
    ensures ExtractMarkdownImages(s) != [] ==> '!' in s
  {
    MatchesOpen(s, ImagePattern);
    var ms := FindAll(s, ImagePattern, 0);
    if |ms| > 0 {
      assert ms[0] in ms;
      assert s[ms[0].start] == '!';
    }
  }

  /** No position starts both an image match and a link match. (A link
      match starting elsewhere can still contain an image reference.) */
  lemma PatternsDisjoint(s: string, p: nat)
    requires p <= |s|
    ensures MatchAt(s, p, ImagePattern).Some? ==> MatchAt(s, p, LinkPattern).None?
  {
  }
}
