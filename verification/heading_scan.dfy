/**
 * The scan `content.match(/#{1,3}\s+.+/g)` written out as a left-to-right scanner.
 *
 * The pattern is not anchored: a match may start anywhere, also in the middle of a line
 * (`C# rocks` holds the match `# rocks`) or inside a longer run of `#` (`#### X` holds
 * `### X`). At each position the regular-expression engine's backtracking yields the
 * longest prefix that is a word of the pattern; the scan then resumes after the match.
 */
module HeadingScan {

  import opened Results
  import opened Js

  predicate AllHash(w: string)
  {
    forall i | 0 <= i < |w| :: w[i] == '#'
  }

  predicate NoBreak(w: string)
  {
    forall i | 0 <= i < |w| :: !IsLineTerminator(w[i])
  }

  /** `w`, as a whole, is a word of `#{1,3}\s+.+`. */
  ghost predicate IsHeadingMatch(w: string)
  {
    exists n, m | 1 <= n <= 3 && n < m < |w| :: AllHash(w[..n]) && AllSpace(w[n..m]) && NoBreak(w[m..])
  }

  lemma LineTerminatorIsSpace(c: char)
    ensures IsLineTerminator(c) ==> IsSpace(c)
    ensures !IsSpace('#')
  {
  }

  /** End of the run of `#` that starts at `i`. */
  function HashRunEnd(s: string, i: nat): (j: nat)
    requires i <= |s|
    ensures i <= j <= |s|
    ensures forall k | i <= k < j :: s[k] == '#'
    ensures j < |s| ==> s[j] != '#'
    decreases |s| - i
  {
    if i < |s| && s[i] == '#' then HashRunEnd(s, i + 1) else i
  }

  /** The first line terminator at or after `i`, or the end of the text. */
  function LineEnd(s: string, i: nat): (j: nat)
    requires i <= |s|
    ensures i <= j <= |s|
    ensures forall k | i <= k < j :: !IsLineTerminator(s[k])
    ensures j < |s| ==> IsLineTerminator(s[j])
    decreases |s| - i
  {
    if i < |s| && !IsLineTerminator(s[i]) then LineEnd(s, i + 1) else i
  }

  /** The last position in `[lo, hi)` that is not a line terminator. */
  function LastNonBreak(s: string, lo: nat, hi: nat): (r: Option<nat>)
    requires lo <= hi <= |s|
    ensures r.Some? ==> lo <= r.value < hi && !IsLineTerminator(s[r.value])
    ensures r.Some? ==> forall k | r.value < k < hi :: IsLineTerminator(s[k])
    ensures r.None? ==> forall k | lo <= k < hi :: IsLineTerminator(s[k])
    decreases hi
  {
    if hi <= lo then None
    else if !IsLineTerminator(s[hi - 1]) then Some(hi - 1)
    else LastNonBreak(s, lo, hi - 1)
  }

  /**
   * The end of the match of `#{1,3}\s+.+` that starts at `p`, if any. `#{1,3}` takes as
   * many `#` as it can (fewer would leave a `#` where `\s` is needed); `\s+` takes the
   * whole whitespace run and `.+` the rest of that line; only when the run reaches the end
   * of the text does `\s+` give characters back, so that `.+` can take the last one that
   * is not a line terminator.
   */
  function MatchEnd(s: string, p: nat): (r: Option<nat>)
    requires p <= |s|
    ensures r.Some? ==> p < r.value <= |s|
  {
    var h := HashRunEnd(s, p) - p;
    var q := p + (if h < 3 then h else 3);
    if h == 0 || q == |s| || !IsSpace(s[q]) then None
    else
      var r := SpaceRunEnd(s, q);
      if r < |s| then Some(LineEnd(s, r))
      else
        match LastNonBreak(s, q + 1, r)
        case None => None
        case Some(k) => Some(k + 1)
  }

  /** What `MatchEnd` finds is a match. */
  lemma MatchEndSound(s: string, p: nat)
    requires p <= |s| && MatchEnd(s, p).Some?
    ensures IsHeadingMatch(s[p..MatchEnd(s, p).value])
  {
    var e := MatchEnd(s, p).value;
    var h := HashRunEnd(s, p) - p;
    var n := if h < 3 then h else 3;
    var q := p + n;
    var r := SpaceRunEnd(s, q);
    var k := if r < |s| then r else LastNonBreak(s, q + 1, r).value;
    if r < |s| {
      LineTerminatorIsSpace(s[r]);
    }
    assert q < k < e;
    assert !IsLineTerminator(s[k]);
    WitnessMatch(s, p, n, k - p, e);
  }

  /** A match assembled from its three parts, given by positions in `s`. */
  lemma WitnessMatch(s: string, p: nat, n: nat, m: nat, e: nat)
    requires 1 <= n <= 3 && n < m && p + m < e <= |s|
    requires forall k | p <= k < p + n :: s[k] == '#'
    requires forall k | p + n <= k < p + m :: IsSpace(s[k])
    requires forall k | p + m <= k < e :: !IsLineTerminator(s[k])
    ensures IsHeadingMatch(s[p..e])
  {
    var w := s[p..e];
    assert forall k | 0 <= k < n :: w[..n][k] == s[p + k];
    assert forall k | 0 <= k < m - n :: w[n..m][k] == s[p + n + k];
    assert forall k | 0 <= k < |w| - m :: w[m..][k] == s[p + m + k];
    assert AllHash(w[..n]) && AllSpace(w[n..m]) && NoBreak(w[m..]);
  }

  /**
   * The parts of a match at `p`, as positions in `s`: the `#` run ends at `p + n`
   * (so `n` is the whole run), whitespace follows up to `p + m`, then no line terminator.
   */
  lemma MatchParts(s: string, p: nat, e: nat) returns (n: nat, m: nat)
    requires p <= e <= |s|
    requires IsHeadingMatch(s[p..e])
    ensures 1 <= n <= 3 && n < m && p + m < e
    ensures HashRunEnd(s, p) == p + n
    ensures forall k | p + n <= k < p + m :: IsSpace(s[k])
    ensures forall k | p + m <= k < e :: !IsLineTerminator(s[k])
  {
    var w := s[p..e];
    n, m :| 1 <= n <= 3 && n < m < |w| && AllHash(w[..n]) && AllSpace(w[n..m]) && NoBreak(w[m..]);
    assert w[n..m][0] == s[p + n];
    LineTerminatorIsSpace(s[p + n]);
    forall k | p <= k < p + n ensures s[k] == '#' {
      assert w[k - p] == s[k];
      assert w[..n][k - p] == w[k - p];
    }
    forall k | p + n <= k < p + m ensures IsSpace(s[k]) {
      assert w[k - p] == s[k];
      assert w[n..m][k - p - n] == w[k - p];
    }
    forall k | p + m <= k < e ensures !IsLineTerminator(s[k]) {
      assert w[k - p] == s[k];
      assert w[m..][k - p - m] == w[k - p];
    }
  }

  /** No match at `p` is longer than what `MatchEnd` finds, and there is none when it finds none. */
  lemma MatchEndLongest(s: string, p: nat, e': nat)
    requires p <= e' <= |s|
    requires IsHeadingMatch(s[p..e'])
    ensures MatchEnd(s, p).Some? && e' <= MatchEnd(s, p).value
  {
    var n, m := MatchParts(s, p, e');
    var q := p + n;
    var r := SpaceRunEnd(s, q);
    // the whitespace part of the match lies inside the run [q, r)
    assert p + m <= r;
    assert !IsLineTerminator(s[p + m]) && !IsLineTerminator(s[e' - 1]);
  }

  /** A match found by the scan: `content.slice(start, end)`. */
  datatype Span = Span(start: nat, end: nat)

  /** Some span contains position `x`. */
  predicate Covers(spans: seq<Span>, x: nat)
  {
    spans != [] && (spans[0].start <= x < spans[0].end || Covers(spans[1..], x))
  }

  /** The matcher `MatchEnd` as a function of the start position (no match past the end). */
  function MatcherOf(s: string): (f: nat -> Option<nat>)
    ensures forall x: nat :: f(x).Some? ==> x < f(x).value <= |s|
    ensures forall x: nat | x <= |s| :: f(x) == MatchEnd(s, x)
  {
    (x: nat) => if x <= |s| then MatchEnd(s, x) else None
  }

  /**
   * The loop of a global `match`: try the matcher at each position in turn and, after a
   * match, resume at its end. The spans are matches, in order and without overlap.
   */
  function GlobalMatch(n: nat, matchAt: nat -> Option<nat>, p: nat): (spans: seq<Span>)
    requires p <= n
    requires forall x: nat :: matchAt(x).Some? ==> x < matchAt(x).value <= n
    ensures forall i | 0 <= i < |spans| ::
      p <= spans[i].start < spans[i].end <= n && matchAt(spans[i].start) == Some(spans[i].end)
    ensures forall i | 0 < i < |spans| :: spans[i - 1].end <= spans[i].start
    decreases n - p
  {
    if p == n then []
    else
      match matchAt(p)
      case None => GlobalMatch(n, matchAt, p + 1)
      case Some(e) => [Span(p, e)] + GlobalMatch(n, matchAt, e)
  }

  /** No position outside the spans starts a match: the matches found are the leftmost ones. */
  lemma {:induction false} GlobalMatchIsLeftmost(n: nat, matchAt: nat -> Option<nat>, p: nat, x: nat)
    requires p <= x < n
    requires forall x: nat :: matchAt(x).Some? ==> x < matchAt(x).value <= n
    requires !Covers(GlobalMatch(n, matchAt, p), x)
    ensures matchAt(x).None?
    decreases n - p
  {
    match matchAt(p)
    case None =>
      if x > p {
        GlobalMatchIsLeftmost(n, matchAt, p + 1, x);
      }
    case Some(e) =>
      var rest := GlobalMatch(n, matchAt, e);
      assert GlobalMatch(n, matchAt, p) == [Span(p, e)] + rest;
      assert ([Span(p, e)] + rest)[1..] == rest;
      GlobalMatchIsLeftmost(n, matchAt, e, x);
  }

  /** `content.match(/#{1,3}\s+.+/g)`, as spans of the content. */
  function Scan(s: string): (spans: seq<Span>)
    ensures forall i | 0 <= i < |spans| ::
      spans[i].start < spans[i].end <= |s| && MatchEnd(s, spans[i].start) == Some(spans[i].end)
    ensures forall i | 0 < i < |spans| :: spans[i - 1].end <= spans[i].start
  {
    GlobalMatch(|s|, MatcherOf(s), 0)
  }

  /** Every span of the scan is a longest match, and no position outside the spans starts one. */
  lemma ScanMatches(s: string)
    ensures forall i | 0 <= i < |Scan(s)| ::
      var sp := Scan(s)[i];
      && IsHeadingMatch(s[sp.start..sp.end])
      && forall e | sp.end < e <= |s| :: !IsHeadingMatch(s[sp.start..e])
    ensures forall x, e | 0 <= x <= e <= |s| && !Covers(Scan(s), x) :: !IsHeadingMatch(s[x..e])
  {
    forall i | 0 <= i < |Scan(s)|
      ensures IsHeadingMatch(s[Scan(s)[i].start..Scan(s)[i].end])
      ensures forall e | Scan(s)[i].end < e <= |s| :: !IsHeadingMatch(s[Scan(s)[i].start..e])
    {
      var sp := Scan(s)[i];
      MatchEndSound(s, sp.start);
      forall e | sp.end < e <= |s| ensures !IsHeadingMatch(s[sp.start..e]) {
        if IsHeadingMatch(s[sp.start..e]) {
          MatchEndLongest(s, sp.start, e);
        }
      }
    }
    forall x, e | 0 <= x <= e <= |s| && !Covers(Scan(s), x) ensures !IsHeadingMatch(s[x..e]) {
      if x < |s| {
        GlobalMatchIsLeftmost(|s|, MatcherOf(s), 0, x);
      }
      if IsHeadingMatch(s[x..e]) {
        MatchEndLongest(s, x, e);
      }
    }
  }

  /** The run ends are pinned down by the run and the character that stops it. */
  lemma HashRunEndAt(s: string, i: nat, j: nat)
    requires i <= j <= |s|
    requires forall k | i <= k < j :: s[k] == '#'
    requires j == |s| || s[j] != '#'
    ensures HashRunEnd(s, i) == j
  {
  }

  lemma SpaceRunEndAt(s: string, i: nat, j: nat)
    requires i <= j <= |s|
    requires forall k | i <= k < j :: IsSpace(s[k])
    requires j == |s| || !IsSpace(s[j])
    ensures SpaceRunEnd(s, i) == j
  {
  }

  lemma LineEndAt(s: string, i: nat, j: nat)
    requires i <= j <= |s|
    requires forall k | i <= k < j :: !IsLineTerminator(s[k])
    requires j == |s| || IsLineTerminator(s[j])
    ensures LineEnd(s, i) == j
  {
  }

  /**
   * The common case of a match: `h` hashes (1 to 3), a whitespace run `[p + h, r)` that
   * does not reach the end, and the rest of the line up to `e`.
   */
  lemma MatchEndOfLine(s: string, p: nat, h: nat, r: nat, e: nat)
    requires 1 <= h <= 3 && p + h < r < |s|
    requires forall k | p <= k < p + h :: s[k] == '#'
    requires s[p + h] != '#'
    requires forall k | p + h <= k < r :: IsSpace(s[k])
    requires !IsSpace(s[r])
    requires r <= e <= |s| && (e == |s| || IsLineTerminator(s[e]))
    requires forall k | r <= k < e :: !IsLineTerminator(s[k])
    ensures MatchEnd(s, p) == Some(e)
  {
    HashRunEndAt(s, p, p + h);
    SpaceRunEndAt(s, p + h, r);
    LineEndAt(s, r, e);
  }

  /** A position that does not hold `#` starts no match. */
  lemma NoMatchWithoutHash(s: string, p: nat)
    requires p < |s| && s[p] != '#'
    ensures MatchEnd(s, p).None?
  {
  }

  /** Positions where the matcher finds nothing are skipped one by one. */
  lemma {:induction false} GlobalMatchSkips(n: nat, matchAt: nat -> Option<nat>, p: nat, q: nat)
    requires p <= q <= n
    requires forall x: nat :: matchAt(x).Some? ==> x < matchAt(x).value <= n
    requires forall x: nat | p <= x < q :: matchAt(x).None?
    ensures GlobalMatch(n, matchAt, p) == GlobalMatch(n, matchAt, q)
    decreases q - p
  {
    if p < q {
      GlobalMatchSkips(n, matchAt, p + 1, q);
    }
  }

  /** Text without `#` holds no match. */
  lemma {:induction false} NoHashNoMatch(s: string)
    requires forall i | 0 <= i < |s| :: s[i] != '#'
    ensures Scan(s) == []
  {
    if Scan(s) != [] {
      var sp := Scan(s)[0];
      MatchEndSound(s, sp.start);
    }
  }

  lemma FirstLineMatch(s: string)
    requires s == "# A\n## B"
    ensures MatchEnd(s, 0) == Some(3)
  {
    MatchEndOfLine(s, 0, 1, 2, 3);
  }

  lemma SecondLineMatch(s: string)
    requires s == "# A\n## B"
    ensures MatchEnd(s, 4) == Some(8)
  {
    MatchEndOfLine(s, 4, 2, 7, 8);
  }

  /** Two heading lines give two spans, each ending at its line end. */
  lemma ScanOfTwoHeadings(s: string)
    requires s == "# A\n## B"
    ensures Scan(s) == [Span(0, 3), Span(4, 8)]
  {
    var f, n := MatcherOf(s), |s|;
    FirstLineMatch(s);
    NoMatchWithoutHash(s, 3);
    SecondLineMatch(s);
    assert GlobalMatch(n, f, 4) == [Span(4, 8)] + GlobalMatch(n, f, 8);
    assert GlobalMatch(n, f, 0) == [Span(0, 3)] + GlobalMatch(n, f, 3);
  }

  lemma IntroLineMatch(s: string)
    requires s == "# Intro\n\nText\n\n## Details\n"
    ensures MatchEnd(s, 0) == Some(7)
  {
    MatchEndOfLine(s, 0, 1, 2, 7);
  }

  lemma DetailsLineMatch(s: string)
    requires s == "# Intro\n\nText\n\n## Details\n"
    ensures MatchEnd(s, 15) == Some(25)
  {
    MatchEndOfLine(s, 15, 2, 18, 25);
  }

  lemma IntroDetailsGaps(s: string)
    requires s == "# Intro\n\nText\n\n## Details\n"
    ensures |s| == 26
    ensures forall x | 7 <= x < 15 :: s[x] != '#'
    ensures s[25] != '#'
  {
  }

  /** Blank lines and a paragraph between two headings hold no match; the trailing newline neither. */
  lemma ScanOfIntroDetails(s: string)
    requires s == "# Intro\n\nText\n\n## Details\n"
    ensures Scan(s) == [Span(0, 7), Span(15, 25)]
  {
    var f := MatcherOf(s);
    IntroDetailsGaps(s);
    IntroLineMatch(s);
    DetailsLineMatch(s);
    forall x: nat | 7 <= x < 15 ensures f(x).None? {
      NoMatchWithoutHash(s, x);
    }
    GlobalMatchSkips(26, f, 7, 15);
    NoMatchWithoutHash(s, 25);
    assert GlobalMatch(26, f, 15) == [Span(15, 25)] + GlobalMatch(26, f, 25);
    assert GlobalMatch(26, f, 0) == [Span(0, 7)] + GlobalMatch(26, f, 7);
  }

  /** A run of four `#` matches from its second `#`. */
  lemma ScanOfFourHashes(s: string)
    requires s == "#### X"
    ensures Scan(s) == [Span(1, 6)]
  {
    HashRunEndAt(s, 0, 4);
    MatchEndOfLine(s, 1, 3, 5, 6);
  }

  /** The scan is not anchored to the start of a line. */
  lemma ScanOfMidLineHash(s: string)
    requires s == "C# A"
    ensures Scan(s) == [Span(1, 4)]
  {
    NoMatchWithoutHash(s, 0);
    MatchEndOfLine(s, 1, 1, 3, 4);
  }

}
