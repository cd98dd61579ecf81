/**
 * The JavaScript built-ins the content pipeline leans on, stated over Dafny values:
 * frontmatter values and their truthiness, `String(v)`, ASCII `toLowerCase`,
 * the `\s` character class, `trim()`, `split(/\s+/)` and decimal formatting of numbers.
 */
module Js {

  /** A frontmatter value as the YAML front-matter parser hands it over. */
  datatype Value =
    | Undefined
    | Null
    | Bool(b: bool)
    | Num(n: int)
    | Str(s: string)
    | Arr(elems: seq<Value>)
    | Date(time: int)  // a YAML timestamp (an unquoted date), as a `Date` with its time value in ms
    | Obj              // any other object: a nested mapping

  /** The parsed frontmatter block: keys to values; a missing key reads as `undefined`. */
  type Frontmatter = map<string, Value>

  function Get(data: Frontmatter, key: string): Value
  {
    if key in data then data[key] else Undefined
  }

  /** JavaScript truthiness: `!v` is true exactly for these falsy values. */
  predicate Truthy(v: Value)
    ensures !Truthy(v) <==> v in {Undefined, Null, Bool(false), Num(0), Str("")}
  {
    match v
    case Undefined => false
    case Null => false
    case Bool(b) => b
    case Num(n) => n != 0
    case Str(s) => s != ""
    case Arr(_) => true
    case Date(_) => true
    case Obj => true
  }

  // ---------------------------------------------------------------------------
  // Decimal formatting

  function DigitChar(d: nat): (c: char)
    requires d < 10
    ensures '0' <= c <= '9' && c as int - '0' as int == d
  {
    ('0' as int + d) as char
  }

  /** Decimal notation of a natural number, as template literals and `String()` print it. */
  function NatToString(n: nat): (r: string)
    ensures |r| > 0
    ensures forall i | 0 <= i < |r| :: '0' <= r[i] <= '9'
    ensures |r| > 1 ==> r[0] != '0'
  {
    if n < 10 then [DigitChar(n)] else NatToString(n / 10) + [DigitChar(n % 10)]
  }

  /** The value of a string of decimal digits (the inverse reading of `NatToString`). */
  function DigitsValue(r: string): int
  {
    if r == [] then 0 else 10 * DigitsValue(r[..|r| - 1]) + (r[|r| - 1] as int - '0' as int)
  }

  lemma {:induction false} NatToStringRoundTrip(n: nat)
    ensures DigitsValue(NatToString(n)) == n
  {
    if n >= 10 {
      var r := NatToString(n);
      assert r[..|r| - 1] == NatToString(n / 10);
      NatToStringRoundTrip(n / 10);
    }
  }

  function IntToString(n: int): (r: string)
    ensures |r| > 0
  {
    if n < 0 then "-" + NatToString(-n) else NatToString(n)
  }

  // ---------------------------------------------------------------------------
  // String(v)

  /** `String(v)`: how a frontmatter value is turned into text. */
  function ToJsString(v: Value): (r: string)
    ensures v.Str? ==> r == v.s
    ensures v.Num? ==> r != [] && (r[0] == '-' <==> v.n < 0)
    ensures v.Arr? && v.elems == [] ==> r == ""
    ensures v.Arr? && |v.elems| == 1 && (v.elems[0].Undefined? || v.elems[0].Null?) ==> r == ""
    ensures v.Arr? && |v.elems| == 1 && v.elems[0].Str? ==> r == v.elems[0].s
  {
    match v
    case Undefined => "undefined"
    case Null => "null"
    case Bool(b) => if b then "true" else "false"
    case Num(n) => IntToString(n)
    case Str(s) => s
    case Arr(elems) =>
      // Array.prototype.toString joins with "," and prints undefined and null as ""
      JoinWithComma(seq(|elems|, i requires 0 <= i < |elems| =>
        if elems[i].Undefined? || elems[i].Null? then "" else ToJsString(elems[i])))
    case Date(t) => IntToString(t)
    case Obj => "[object Object]"
  }

  function JoinWithComma(parts: seq<string>): string
  {
    if parts == [] then ""
    else if |parts| == 1 then parts[0]
    else parts[0] + "," + JoinWithComma(parts[1..])
  }

  /** Strings and non-zero numbers keep their text non-empty through `String()`. */
  lemma ToJsStringNonEmpty(v: Value)
    requires Truthy(v) && !v.Arr?
    ensures ToJsString(v) != ""
  {
  }

  // ---------------------------------------------------------------------------
  // Characters and toLowerCase

  /** The `\s` class of JavaScript regular expressions; `trim()` strips the same set. */
  predicate IsSpace(c: char)
  {
    var u := c as int;
    u == 9 || u == 10 || u == 11 || u == 12 || u == 13 || u == 32 || u == 0xA0 || u == 0x1680
    || (0x2000 <= u <= 0x200A) || u == 0x2028 || u == 0x2029 || u == 0x202F || u == 0x205F
    || u == 0x3000 || u == 0xFEFF
  }

  /** The characters `.` in a regular expression does not match. */
  predicate IsLineTerminator(c: char)
  {
    c == '\n' || c == '\r' || c as int == 0x2028 || c as int == 0x2029
  }

  predicate IsUpperAscii(c: char) { 'A' <= c <= 'Z' }

  function LowerChar(c: char): char
  {
    if IsUpperAscii(c) then (c as int + 32) as char else c
  }

  /** `toLowerCase()` restricted to ASCII letters. */
  function ToLowerAscii(s: string): (r: string)
    ensures |r| == |s|
    ensures forall i | 0 <= i < |s| :: r[i] == LowerChar(s[i])
  {
    if s == [] then [] else [LowerChar(s[0])] + ToLowerAscii(s[1..])
  }

  /** Lower-casing is determined character by character. */
  lemma ToLowerAsciiIs(s: string, t: string)
    requires |s| == |t| && forall k | 0 <= k < |s| :: LowerChar(s[k]) == t[k]
    ensures ToLowerAscii(s) == t
  {
    var r := ToLowerAscii(s);
    assert forall k | 0 <= k < |s| :: r[k] == t[k];
  }

  lemma ToLowerAsciiIdempotent(s: string)
    ensures ToLowerAscii(ToLowerAscii(s)) == ToLowerAscii(s)
    ensures forall i | 0 <= i < |s| :: !IsUpperAscii(ToLowerAscii(s)[i])
  {
  }

  // ---------------------------------------------------------------------------
  // trim() and split(/\s+/)

  predicate AllSpace(s: string)
  {
    forall i | 0 <= i < |s| :: IsSpace(s[i])
  }

  /** End of the run of whitespace that starts at `i`. */
  function SpaceRunEnd(s: string, i: nat): (j: nat)
    requires i <= |s|
    ensures i <= j <= |s|
    ensures forall k | i <= k < j :: IsSpace(s[k])
    ensures j < |s| ==> !IsSpace(s[j])
    decreases |s| - i
  {
    if i < |s| && IsSpace(s[i]) then SpaceRunEnd(s, i + 1) else i
  }

  /** End of the run of non-whitespace that starts at `i`. */
  function WordEnd(s: string, i: nat): (j: nat)
    requires i <= |s|
    ensures i <= j <= |s|
    ensures forall k | i <= k < j :: !IsSpace(s[k])
    ensures j < |s| ==> IsSpace(s[j])
    decreases |s| - i
  {
    if i < |s| && !IsSpace(s[i]) then WordEnd(s, i + 1) else i
  }

  function TrimStart(s: string): string
  {
    s[SpaceRunEnd(s, 0)..]
  }

  function TrimEnd(s: string): string
  {
    if s != [] && IsSpace(s[|s| - 1]) then TrimEnd(s[..|s| - 1]) else s
  }

  /** `trim()`: the slice of `s` left after removing leading and trailing whitespace. */
  function Trim(s: string): (r: string)
    ensures exists i, j | 0 <= i <= j <= |s| :: r == s[i..j] && AllSpace(s[..i]) && AllSpace(s[j..])
    ensures r != [] ==> !IsSpace(r[0]) && !IsSpace(r[|r| - 1])
  {
    TrimIsSlice(s);
    TrimEnd(TrimStart(s))
  }

  lemma {:induction false} TrimIsSlice(s: string)
    ensures exists i, j | 0 <= i <= j <= |s| ::
      TrimEnd(TrimStart(s)) == s[i..j] && AllSpace(s[..i]) && AllSpace(s[j..])
    ensures TrimEnd(TrimStart(s)) != [] ==>
      !IsSpace(TrimEnd(TrimStart(s))[0]) && !IsSpace(TrimEnd(TrimStart(s))[|TrimEnd(TrimStart(s))| - 1])
  {
    var i := SpaceRunEnd(s, 0);
    var t := TrimStart(s);
    assert t == s[i..];
    TrimEndShape(t);
    var j :| 0 <= j <= |t| && TrimEnd(t) == t[..j] && AllSpace(t[j..]);
    SliceOfSlice(s, i, j);
    assert TrimEnd(t) == s[i..i + j] && AllSpace(s[..i]) && AllSpace(s[i + j..]);
    if t != [] {
      assert !IsSpace(t[0]);
    }
  }

  /** Cutting a suffix of `s` at `j` is cutting `s` at `i + j`. */
  lemma SliceOfSlice(s: string, i: nat, j: nat)
    requires i <= |s| && j <= |s| - i
    ensures s[i..][..j] == s[i..i + j] && s[i..][j..] == s[i + j..]
  {
  }

  lemma {:induction false} TrimEndShape(t: string)
    ensures exists j | 0 <= j <= |t| :: TrimEnd(t) == t[..j] && AllSpace(t[j..])
    ensures TrimEnd(t) != [] ==> !IsSpace(TrimEnd(t)[|TrimEnd(t)| - 1])
    ensures t != [] && !IsSpace(t[0]) ==> TrimEnd(t) != [] && TrimEnd(t)[0] == t[0]
    decreases |t|
  {
    if t != [] && IsSpace(t[|t| - 1]) {
      var u := t[..|t| - 1];
      TrimEndShape(u);
      var j :| 0 <= j <= |u| && TrimEnd(u) == u[..j] && AllSpace(u[j..]);
      assert t[..j] == u[..j];
      forall i | 0 <= i < |t| - j
        ensures IsSpace(t[j..][i])
      {
        if j + i < |t| - 1 {
          assert t[j..][i] == u[j..][i];
        }
      }
    } else {
      assert t[..|t|] == t;
    }
  }

  /** `t.split(/\s+/)`: the pieces between maximal whitespace runs (never empty). */
  function SplitOnSpace(t: string): (parts: seq<string>)
    ensures |parts| >= 1
    decreases |t|
  {
    var i := WordEnd(t, 0);
    if i == |t| then [t] else [t[..i]] + SplitOnSpace(t[SpaceRunEnd(t, i)..])
  }

  /** Reference tokeniser: the maximal runs of non-whitespace characters, in order. */
  function Words(s: string): seq<string>
    decreases |s|
  {
    if s == [] then []
    else if IsSpace(s[0]) then Words(s[1..])
    else [s[..WordEnd(s, 0)]] + Words(s[WordEnd(s, 0)..])
  }

  lemma {:induction false} WordsAfterSpaces(u: string, v: string)
    requires AllSpace(u)
    ensures Words(u + v) == Words(v)
    decreases |u|
  {
    if u != [] {
      assert (u + v)[1..] == u[1..] + v;
      WordsAfterSpaces(u[1..], v);
    } else {
      assert u + v == v;
    }
  }

  lemma {:induction false} WordsBeforeSpaces(v: string, w: string)
    requires AllSpace(w)
    ensures Words(v + w) == Words(v)
    decreases |v|
  {
    if v == [] {
      assert v + w == w + [];
      WordsAfterSpaces(w, []);
    } else if IsSpace(v[0]) {
      assert (v + w)[1..] == v[1..] + w;
      WordsBeforeSpaces(v[1..], w);
    } else {
      var k := WordEnd(v, 0);
      var k' := WordEnd(v + w, 0);
      WordEndOfPrefix(v, w, 0);
      assert k' == k;
      assert (v + w)[..k] == v[..k];
      assert (v + w)[k..] == v[k..] + w;
      WordsBeforeSpaces(v[k..], w);
    }
  }

  lemma {:induction false} WordEndOfPrefix(v: string, w: string, i: nat)
    requires i <= |v|
    requires w == [] || IsSpace(w[0])
    ensures WordEnd(v + w, i) == WordEnd(v, i)
    decreases |v| - i
  {
    if i < |v| && !IsSpace(v[i]) {
      WordEndOfPrefix(v, w, i + 1);
    }
  }

  lemma {:induction false} TrimKeepsWords(s: string)
    ensures Words(Trim(s)) == Words(s)
  {
    var i, j :| 0 <= i <= j <= |s| && Trim(s) == s[i..j] && AllSpace(s[..i]) && AllSpace(s[j..]);
    assert s == s[..i] + (s[i..j] + s[j..]);
    WordsAfterSpaces(s[..i], s[i..j] + s[j..]);
    WordsBeforeSpaces(s[i..j], s[j..]);
  }

  /** On a trimmed non-empty string, `split(/\s+/)` yields exactly the words. */
  lemma {:induction false} SplitTrimmedIsWords(t: string)
    requires t != [] && !IsSpace(t[0]) && !IsSpace(t[|t| - 1])
    ensures SplitOnSpace(t) == Words(t)
    decreases |t|
  {
    var i := WordEnd(t, 0);
    if i == |t| {
      assert t[..i] == t;
      assert t[i..] == [];
    } else {
      var j := SpaceRunEnd(t, i);
      assert j < |t|;
      var rest := t[j..];
      SplitTrimmedIsWords(rest);
      assert t[i..] == t[i..j] + rest;
      WordsAfterSpaces(t[i..j], rest);
    }
  }

  /**
   * The length of `s.trim().split(/\s+/)`: the number of words, except that text
   * with no words at all still splits into one (empty) piece.
   */
  function WordCount(s: string): (w: nat)
    ensures w == if Words(s) == [] then 1 else |Words(s)|
    ensures w >= 1
  {
    SplitOfTrimCountsWords(s);
    |SplitOnSpace(Trim(s))|
  }

  lemma {:induction false} SplitOfTrimCountsWords(s: string)
    ensures |SplitOnSpace(Trim(s))| == if Words(s) == [] then 1 else |Words(s)|
  {
    var t := Trim(s);
    TrimKeepsWords(s);
    if t != [] {
      SplitTrimmedIsWords(t);
      assert Words(t) != [];
    }
  }

}
