/**
 * The string operations of Python that the two programs rely on, with the
 * meaning Python gives them for `str` values:
 *  - `str.isspace()` for a single character (the whitespace test used by
 *    `str.split()` and `str.strip()` when they get no argument),
 *  - `str.strip()`, `str.split()` and `" ".join(...)`,
 *  - `str(n)` for a non-negative integer.
 */
module Strings {

  /** Python's `c.isspace()`: the characters Python's `str.split()` and
      `str.strip()` treat as whitespace (tab to carriage return, the four
      information separators, space, NEL, no-break space and the Unicode
      space and line/paragraph separators). */
  predicate IsSpace(c: char) {
    var n := c as int;
    (0x09 <= n <= 0x0D) || (0x1C <= n <= 0x20) || n == 0x85 || n == 0xA0 || n == 0x1680
    || (0x2000 <= n <= 0x200A) || n == 0x2028 || n == 0x2029 || n == 0x202F || n == 0x205F
    || n == 0x3000
  }

  /** A non-empty run of non-whitespace characters: what `str.split()` returns pieces of. */
  predicate IsWord(w: string) {
    |w| > 0 && forall k :: 0 <= k < |w| ==> !IsSpace(w[k])
  }

  /** Whitespace only as single interior ASCII spaces: every whitespace character
      is ' ', is neither the first nor the last character, and is followed by a
      non-whitespace character. */
  predicate SingleSpaced(s: string) {
    forall i :: 0 <= i < |s| && IsSpace(s[i]) ==> s[i] == ' ' && 0 < i < |s| - 1 && !IsSpace(s[i + 1])
  }

  // ---------------------------------------------------------------------------
  // str.strip()

  /** The index of the first non-whitespace character of `s` at or after `i`,
      or `|s|` when there is none. */
  function SkipSpace(s: string, i: nat): (j: nat)
    requires i <= |s|
    ensures i <= j <= |s|
    ensures forall k :: i <= k < j ==> IsSpace(s[k])
    ensures j == |s| || !IsSpace(s[j])
    decreases |s| - i
  {
    if i < |s| && IsSpace(s[i]) then SkipSpace(s, i + 1) else i
  }

  /** The index just past the last non-whitespace character of `s[i..j]`, or
      `i` when there is none. */
  function SkipSpaceBack(s: string, i: nat, j: nat): (e: nat)
    requires i <= j <= |s|
    ensures i <= e <= j
    ensures forall k :: e <= k < j ==> IsSpace(s[k])
    ensures e == i || !IsSpace(s[e - 1])
    decreases j
  {
    if j > i && IsSpace(s[j - 1]) then SkipSpaceBack(s, i, j - 1) else j
  }

  /** `s.strip()`: the slice of `s` that remains when the whitespace at both
      ends is dropped. It starts and ends with a non-whitespace character, and
      it is empty exactly when `s` is all whitespace. */
  function Strip(s: string): (r: string)
    ensures var i := SkipSpace(s, 0);
            i + |r| <= |s| && r == s[i..i + |r|]
            && (forall k :: 0 <= k < i ==> IsSpace(s[k]))
            && (forall k :: i + |r| <= k < |s| ==> IsSpace(s[k]))
    ensures r == [] || (!IsSpace(r[0]) && !IsSpace(r[|r| - 1]))
    ensures r == [] <==> forall k :: 0 <= k < |s| ==> IsSpace(s[k])
  {
    var i := SkipSpace(s, 0);
    var e := SkipSpaceBack(s, i, |s|);
    s[i..e]
  }

  // ---------------------------------------------------------------------------
  // str.split() and " ".join(...)

  /** The longest prefix of `s` that holds no whitespace. */
  function LeadingWord(s: string): (w: string)
    ensures |w| <= |s| && w == s[..|w|]
    ensures forall k :: 0 <= k < |w| ==> !IsSpace(w[k])
    ensures |w| < |s| ==> IsSpace(s[|w|])
    ensures s != [] && !IsSpace(s[0]) ==> |w| > 0
  {
    if s == [] || IsSpace(s[0]) then [] else [s[0]] + LeadingWord(s[1..])
  }

  /** `s.split()`: the maximal runs of non-whitespace characters, in order. */
  function Split(s: string): (ws: seq<string>)
    ensures forall k :: 0 <= k < |ws| ==> IsWord(ws[k])
    decreases |s|
  {
    if s == [] then []
    else if IsSpace(s[0]) then Split(s[1..])
    else
      var w := LeadingWord(s);
      [w] + Split(s[|w|..])
  }

  /** `" ".join(ps)`. */
  function Join(ps: seq<string>): string {
    if ps == [] then ""
    else if |ps| == 1 then ps[0]
    else ps[0] + " " + Join(ps[1..])
  }

  /** The concatenation of the word lists of several strings. */
  function SplitEach(ps: seq<string>): seq<string> {
    if ps == [] then [] else Split(ps[0]) + SplitEach(ps[1..])
  }

  /** The characters of `s` that are not whitespace, in order. */
  function NonSpace(s: string): string {
    if s == [] then []
    else (if IsSpace(s[0]) then [] else [s[0]]) + NonSpace(s[1..])
  }

  /** The characters of the strings of `ws`, one after the other. */
  function Concat(ws: seq<string>): string {
    if ws == [] then [] else ws[0] + Concat(ws[1..])
  }

  lemma {:induction false} NonSpaceAppend(a: string, b: string)
    ensures NonSpace(a + b) == NonSpace(a) + NonSpace(b)
    decreases |a|
  {
    if a == [] {
      assert a + b == b;
    } else {
      assert (a + b)[1..] == a[1..] + b;
      NonSpaceAppend(a[1..], b);
    }
  }

  lemma {:induction false} NonSpaceOfSpaceless(w: string)
    requires forall k :: 0 <= k < |w| ==> !IsSpace(w[k])
    ensures NonSpace(w) == w
    decreases |w|
  {
    if w != [] {
      NonSpaceOfSpaceless(w[1..]);
    }
  }

  /** `s.split()` loses nothing but whitespace: its words, put back together,
      are exactly the non-whitespace characters of `s`. */
  lemma {:induction false} SplitKeepsCharacters(s: string)
    ensures Concat(Split(s)) == NonSpace(s)
    decreases |s|
  {
    if s == [] {
    } else if IsSpace(s[0]) {
      SplitKeepsCharacters(s[1..]);
    } else {
      var w := LeadingWord(s);
      var rest := s[|w|..];
      SplitKeepsCharacters(rest);
      assert s == w + rest;
      NonSpaceAppend(w, rest);
      NonSpaceOfSpaceless(w);
      assert Split(s) == [w] + Split(rest);
      assert Concat(Split(s)) == w + Concat(Split(rest));
    }
  }

  /** A whitespace character (or the end) after `a` ends the leading word of `a`. */
  lemma {:induction false} LeadingWordExtend(a: string, t: string)
    requires t == [] || IsSpace(t[0])
    ensures LeadingWord(a + t) == LeadingWord(a)
    decreases |a|
  {
    if a == [] {
      assert a + t == t;
    } else if !IsSpace(a[0]) {
      assert (a + t)[1..] == a[1..] + t;
      LeadingWordExtend(a[1..], t);
    }
  }

  lemma {:induction false} LeadingWordOfWord(w: string)
    requires forall k :: 0 <= k < |w| ==> !IsSpace(w[k])
    ensures LeadingWord(w) == w
    decreases |w|
  {
    if w != [] {
      LeadingWordOfWord(w[1..]);
    }
  }

  /** A word splits to itself. */
  lemma SplitWord(w: string)
    requires IsWord(w)
    ensures Split(w) == [w]
  {
    LeadingWordOfWord(w);
    assert w[|w|..] == [];
  }

  /** Splitting two strings glued by a space gives the words of each, in order. */
  lemma {:induction false} SplitAroundSpace(a: string, b: string)
    ensures Split(a + " " + b) == Split(a) + Split(b)
    decreases |a|
  {
    var s := a + " " + b;
    if a == [] {
      assert s[1..] == b;
    } else if IsSpace(a[0]) {
      assert s[1..] == a[1..] + " " + b;
      SplitAroundSpace(a[1..], b);
    } else {
      LeadingWordExtend(a, " " + b);
      assert s == a + (" " + b);
      var w := LeadingWord(a);
      assert s[|w|..] == a[|w|..] + " " + b;
      SplitAroundSpace(a[|w|..], b);
    }
  }

  /** Splitting `" ".join(ps)` gives the words of every part of `ps`, in order. */
  lemma {:induction false} SplitJoin(ps: seq<string>)
    ensures Split(Join(ps)) == SplitEach(ps)
    decreases |ps|
  {
    if ps == [] {
    } else if |ps| == 1 {
      assert SplitEach(ps[1..]) == [];
    } else {
      SplitJoin(ps[1..]);
      SplitAroundSpace(ps[0], Join(ps[1..]));
    }
  }

  /** Joining words with single spaces and splitting again gives back the words. */
  lemma {:induction false} SplitJoinWords(ws: seq<string>)
    requires forall k :: 0 <= k < |ws| ==> IsWord(ws[k])
    ensures Split(Join(ws)) == ws
    decreases |ws|
  {
    SplitJoin(ws);
    if ws != [] {
      SplitWord(ws[0]);
      SplitJoinWords(ws[1..]);
      SplitJoin(ws[1..]);
    }
  }

  /** Joining non-empty single-spaced strings with one space keeps the result
      single-spaced (and non-empty when there is something to join). */
  lemma {:induction false} JoinSingleSpaced(ps: seq<string>)
    requires forall k :: 0 <= k < |ps| ==> ps[k] != [] && SingleSpaced(ps[k])
    ensures SingleSpaced(Join(ps))
    ensures ps != [] ==> Join(ps) != []
    decreases |ps|
  {
    if |ps| > 1 {
      JoinSingleSpaced(ps[1..]);
      var p, q := ps[0], Join(ps[1..]);
      var s := p + " " + q;
      assert !IsSpace(q[0]);
      assert !IsSpace(p[|p| - 1]);
      forall i | 0 <= i < |s| && IsSpace(s[i])
        ensures s[i] == ' ' && 0 < i < |s| - 1 && !IsSpace(s[i + 1])
      {
        if i < |p| {
          assert s[i] == p[i];
          if i < |p| - 1 { assert s[i + 1] == p[i + 1]; }
        } else if i > |p| {
          assert s[i] == q[i - |p| - 1];
          if i < |s| - 1 { assert s[i + 1] == q[i - |p|]; }
        } else {
          assert s[i + 1] == q[0];
        }
      }
    }
  }

  /** What follows a space of a single-spaced string is single-spaced. */
  lemma SingleSpacedAfter(s: string, j: nat)
    requires SingleSpaced(s) && 0 < j < |s| && IsSpace(s[j - 1])
    ensures SingleSpaced(s[j..]) && !IsSpace(s[j])
  {
    var t := s[j..];
    forall i | 0 <= i < |t| && IsSpace(t[i])
      ensures t[i] == ' ' && 0 < i < |t| - 1 && !IsSpace(t[i + 1])
    {
      assert t[i] == s[i + j];
    }
  }

  /** A single-spaced string is `" ".join` of its own words. */
  lemma {:induction false} JoinSplitSingleSpaced(s: string)
    requires SingleSpaced(s)
    ensures Join(Split(s)) == s
    decreases |s|
  {
    if s != [] {
      var w := LeadingWord(s);
      assert IsWord(w);
      SplitWord(w);
      if |w| == |s| {
        assert w == s;
      } else {
        var t := s[|w| + 1..];
        SingleSpacedAfter(s, |w| + 1);
        assert s == w + " " + t;
        JoinSplitSingleSpaced(t);
        SplitAroundSpace(w, t);
        assert Split(s) == [w] + Split(t);
        assert Split(t) != [];
      }
    }
  }

  // ---------------------------------------------------------------------------
  // str(n)

  predicate IsDigit(c: char) {
    '0' as int <= c as int <= '9' as int
  }

  function DigitChar(d: nat): (c: char)
    requires d < 10
    ensures IsDigit(c) && c as int - '0' as int == d
  {
    ('0' as int + d) as char
  }

  /** `str(n)` for a non-negative integer: decimal digits, no leading zero. */
  function Decimal(n: nat): (s: string)
    ensures |s| > 0 && forall k :: 0 <= k < |s| ==> IsDigit(s[k])
    ensures s[0] == '0' ==> s == "0"
  {
    if n < 10 then [DigitChar(n)] else Decimal(n / 10) + [DigitChar(n % 10)]
  }

  /** The number a string of decimal digits denotes (Python's `int(s)` on digits). */
  function DigitsValue(s: string): nat
    requires forall k :: 0 <= k < |s| ==> IsDigit(s[k])
  {
    if s == [] then 0
    else
      assert IsDigit(s[|s| - 1]);
      DigitsValue(s[..|s| - 1]) * 10 + (s[|s| - 1] as int - '0' as int)
  }

  /** Reading `str(n)` back gives `n`. */
  lemma {:induction false} DecimalRoundTrip(n: nat)
    ensures DigitsValue(Decimal(n)) == n
  {
    if n >= 10 {
      DecimalRoundTrip(n / 10);
      var s := Decimal(n);
      assert s[..|s| - 1] == Decimal(n / 10);
    }
  }

  /** Distinct numbers have distinct decimal strings. */
  lemma DecimalInjective(m: nat, n: nat)
    ensures Decimal(m) == Decimal(n) <==> m == n
  {
    if Decimal(m) == Decimal(n) {
      DecimalRoundTrip(m);
      DecimalRoundTrip(n);
    }
  }
}
