/**
 * String primitives of Python that the core relies on: the whitespace and
 * digit classes, `str.lower()`, `str.split()` with no argument, `" ".join`,
 * the substring test `t in s`, and `str(n)` for a non-negative int.
 */
module Text {

  /** Python's `str.isspace()`: the characters `str.split()` and the regex
      class `\s` treat as whitespace. */
  predicate IsSpace(c: char) {
    || c == ' ' || ('\t' <= c <= '\r') || ('\U{1C}' <= c <= '\U{1F}')
    || c == '\U{85}' || c == '\U{A0}' || c == '\U{1680}'
    || ('\U{2000}' <= c <= '\U{200A}') || c == '\U{2028}' || c == '\U{2029}'
    || c == '\U{202F}' || c == '\U{205F}' || c == '\U{3000}'
  }

  /** The ASCII decimal digits (the regex class `\d`, restricted to ASCII). */
  predicate IsDigit(c: char) {
    '0' <= c <= '9'
  }

  predicate NoSpace(s: string) {
    forall i :: 0 <= i < |s| ==> !IsSpace(s[i])
  }

  predicate AllSpace(s: string) {
    forall i :: 0 <= i < |s| ==> IsSpace(s[i])
  }

  predicate AllDigits(s: string) {
    forall i :: 0 <= i < |s| ==> IsDigit(s[i])
  }

  /** A word as `str.split()` produces it: non-empty, without whitespace. */
  predicate IsWord(w: string) {
    w != [] && NoSpace(w)
  }

  predicate AreWords(ws: seq<string>) {
    forall i :: 0 <= i < |ws| ==> IsWord(ws[i])
  }

  // ---------------------------------------------------------------------
  // Lower case

  function LowerChar(c: char): (r: char)
    ensures 'A' <= c <= 'Z' ==> r as int == c as int + 32
    ensures !('A' <= c <= 'Z') ==> r == c
    ensures !('A' <= r <= 'Z')
  {
    if 'A' <= c <= 'Z' then (c as int + 32) as char else c
  }

  /** `s.lower()`, on the ASCII letters only. */
  function Lower(s: string): (r: string)
    ensures |r| == |s|
    ensures forall i :: 0 <= i < |s| ==> r[i] == LowerChar(s[i])
  {
    seq(|s|, i requires 0 <= i < |s| => LowerChar(s[i]))
  }

  lemma LowerIdempotent(s: string)
    ensures Lower(Lower(s)) == Lower(s)
  {
  }

  /** What the matcher relies on after `q.lower()`: no ASCII capital is
      left, whitespace and digits stay where they were, and a string
      without capitals comes back unchanged. */
  lemma LowerKeepsClasses(s: string)
    ensures forall i :: 0 <= i < |s| ==> !('A' <= Lower(s)[i] <= 'Z')
    ensures forall i :: 0 <= i < |s| ==>
      (IsSpace(Lower(s)[i]) <==> IsSpace(s[i])) && (IsDigit(Lower(s)[i]) <==> IsDigit(s[i]))
    ensures (forall i :: 0 <= i < |s| ==> !('A' <= s[i] <= 'Z')) ==> Lower(s) == s
  {
  }

  // ---------------------------------------------------------------------
  // str.split() and " ".join

  /** `s` with its leading whitespace removed. */
  function SkipSpaces(s: string): (r: string)
    ensures |r| <= |s|
    ensures r == [] || !IsSpace(r[0])
  {
    if s != [] && IsSpace(s[0]) then SkipSpaces(s[1..]) else s
  }

  /** Only a whitespace-only string loses everything to `SkipSpaces`. */
  lemma {:induction false} SkipSpacesEmptyIffAllSpace(s: string)
    ensures SkipSpaces(s) == [] <==> AllSpace(s)
  {
    if s != [] && IsSpace(s[0]) {
      SkipSpacesEmptyIffAllSpace(s[1..]);
      assert forall i :: 1 <= i < |s| ==> s[i] == s[1..][i - 1];
    }
  }

  /** The longest prefix of `s` that holds no whitespace. */
  function WordPrefix(s: string): (r: string)
    ensures r <= s && NoSpace(r)
    ensures |r| < |s| ==> IsSpace(s[|r|])
  {
    if s != [] && !IsSpace(s[0]) then [s[0]] + WordPrefix(s[1..]) else []
  }

  /** `s.split()`: the maximal runs of non-whitespace characters, in order. */
  function Words(s: string): (ws: seq<string>)
    ensures AreWords(ws)
    decreases |s|
  {
    var t := SkipSpaces(s);
    if t == [] then []
    else
      var w := WordPrefix(t);
      [w] + Words(t[|w|..])
  }

  /** `" ".join(ws)`. */
  function Join(ws: seq<string>): string {
    if |ws| == 0 then ""
    else if |ws| == 1 then ws[0]
    else ws[0] + " " + Join(ws[1..])
  }

  lemma {:induction false} WordsOfSpacePrefixed(s: string)
    ensures Words(" " + s) == Words(s)
  {
    assert (" " + s)[1..] == s;
  }

  lemma {:induction false} WordsOfWordThen(w: string, rest: string)
    requires IsWord(w)
    requires rest == [] || IsSpace(rest[0])
    ensures Words(w + rest) == [w] + Words(rest)
  {
    var s := w + rest;
    assert SkipSpaces(s) == s;
    WordPrefixOfWordThen(w, rest);
    assert s[|w|..] == rest;
  }

  lemma {:induction false} WordPrefixOfWordThen(w: string, rest: string)
    requires NoSpace(w)
    requires rest == [] || IsSpace(rest[0])
    ensures WordPrefix(w + rest) == w
    decreases |w|
  {
    if w != [] {
      assert (w + rest)[1..] == w[1..] + rest;
      WordPrefixOfWordThen(w[1..], rest);
    }
  }

  /** Splitting a join of words gives the words back. */
  lemma {:induction false} WordsOfJoin(ws: seq<string>)
    requires AreWords(ws)
    ensures Words(Join(ws)) == ws
  {
    if |ws| == 1 {
      WordsOfSingleWord(ws[0]);
    } else if |ws| > 1 {
      var rest := Join(ws[1..]);
      assert Join(ws) == ws[0] + (" " + rest);
      WordsOfWordThen(ws[0], " " + rest);
      WordsOfSpacePrefixed(rest);
      WordsOfJoin(ws[1..]);
      assert ws == [ws[0]] + ws[1..];
    }
  }

  lemma WordsOfSingleWord(w: string)
    requires IsWord(w)
    ensures Words(w) == [w]
  {
    WordsOfWordThen(w, "");
    assert w + "" == w;
  }

  /** A whitespace-only string has no words, and a string with no words is
      whitespace only. */
  lemma WordsEmptyIffAllSpace(s: string)
    ensures Words(s) == [] <==> AllSpace(s)
  {
    SkipSpacesEmptyIffAllSpace(s);
  }

  /** `gaps[0] + ws[0] + gaps[1] + ... + ws[n - 1] + gaps[n]`. */
  function Interleave(gaps: seq<string>, ws: seq<string>): string
    requires |gaps| == |ws| + 1
    decreases |ws|
  {
    if ws == [] then gaps[0] else gaps[0] + ws[0] + Interleave(gaps[1..], ws[1..])
  }

  /** Whitespace gaps around `n` words: possibly empty at both ends, at
      least one character between two words. */
  predicate Gaps(gaps: seq<string>, n: nat) {
    && |gaps| == n + 1
    && (forall i :: 0 <= i < |gaps| ==> AllSpace(gaps[i]))
    && (forall i :: 0 < i < n ==> gaps[i] != [])
  }

  /** `SkipSpaces` drops a whitespace prefix and keeps the rest. */
  lemma {:induction false} SkipSpacesSplit(s: string)
    ensures var t := SkipSpaces(s);
      s == s[..|s| - |t|] + t && AllSpace(s[..|s| - |t|])
  {
    if s != [] && IsSpace(s[0]) {
      SkipSpacesSplit(s[1..]);
      var t := SkipSpaces(s[1..]);
      assert s[..|s| - |t|] == [s[0]] + s[1..][..|s[1..]| - |t|];
    }
  }

  lemma {:induction false} SkipSpacesThen(sp: string, x: string)
    requires AllSpace(sp)
    ensures SkipSpaces(sp + x) == SkipSpaces(x)
    decreases |sp|
  {
    if sp == [] {
      assert sp + x == x;
    } else {
      assert (sp + x)[0] == sp[0] && (sp + x)[1..] == sp[1..] + x;
      assert AllSpace(sp[1..]);
      SkipSpacesThen(sp[1..], x);
    }
  }

  /** A whitespace prefix does not change the words. */
  lemma WordsOfSpacesThen(sp: string, x: string)
    requires AllSpace(sp)
    ensures Words(sp + x) == Words(x)
  {
    SkipSpacesThen(sp, x);
  }

  /** An interleaving whose first gap is empty starts with its first word. */
  lemma StartsWithFirstWord(gaps: seq<string>, ws: seq<string>)
    requires |gaps| == |ws| + 1 && ws != [] && AreWords(ws) && gaps[0] == []
    ensures Interleave(gaps, ws) != [] && Interleave(gaps, ws)[0] == ws[0][0]
  {
    assert Interleave(gaps, ws) == ws[0] + Interleave(gaps[1..], ws[1..]);
  }

  /** Putting a whitespace gap and a word in front of an interleaving that
      is empty or starts with whitespace gives another interleaving. */
  lemma ConsRun(lead: string, w: string, g: seq<string>, ws: seq<string>)
    requires AllSpace(lead) && IsWord(w) && AreWords(ws) && Gaps(g, |ws|)
    requires var rest := Interleave(g, ws); rest == [] || IsSpace(rest[0])
    ensures Gaps([lead] + g, |ws| + 1)
    ensures lead + w + Interleave(g, ws) == Interleave([lead] + g, [w] + ws)
  {
    if ws != [] && g[0] == [] {
      StartsWithFirstWord(g, ws);
      assert false;
    }
    var gaps := [lead] + g;
    assert gaps[1..] == g;
    assert ([w] + ws)[1..] == ws;
  }

  /** `s.split()` means: `s` is its words in order, separated by non-empty
      runs of whitespace and framed by (possibly empty) whitespace, so each
      word is a maximal run of non-whitespace characters of `s`. */
  lemma {:induction false} WordsAreRuns(s: string)
    ensures exists gaps :: Gaps(gaps, |Words(s)|) && s == Interleave(gaps, Words(s))
    decreases |s|
  {
    var t := SkipSpaces(s);
    SkipSpacesSplit(s);
    var lead := s[..|s| - |t|];
    if t == [] {
      assert lead == s;
      assert Gaps([s], |Words(s)|) && s == Interleave([s], Words(s));
    } else {
      var w := WordPrefix(t);
      var rest := t[|w|..];
      var ws := Words(rest);
      assert s == lead + w + rest && Words(s) == [w] + ws by {
        assert t == w + rest;
      }
      WordsAreRuns(rest);
      var g :| Gaps(g, |ws|) && rest == Interleave(g, ws);
      ConsRun(lead, w, g, ws);
    }
  }

  /** Conversely, the only words of such a string are the ones it was built
      from: the runs determine `s.split()`. */
  lemma {:induction false} RunsAreWords(gaps: seq<string>, ws: seq<string>)
    requires AreWords(ws) && Gaps(gaps, |ws|)
    ensures Words(Interleave(gaps, ws)) == ws
    decreases |ws|
  {
    if ws == [] {
      WordsEmptyIffAllSpace(gaps[0]);
    } else {
      var rest := Interleave(gaps[1..], ws[1..]);
      assert Gaps(gaps[1..], |ws[1..]|);
      RunsAreWords(gaps[1..], ws[1..]);
      if rest != [] {
        if ws[1..] == [] {
          assert rest == gaps[1];
        } else {
          assert gaps[1..][0] != [];
          assert rest == gaps[1] + ws[1] + Interleave(gaps[2..], ws[2..]) by {
            assert gaps[1..][1..] == gaps[2..];
            assert ws[1..][1..] == ws[2..];
          }
        }
        assert IsSpace(rest[0]);
      }
      assert Interleave(gaps, ws) == gaps[0] + (ws[0] + rest);
      WordsOfSpacesThen(gaps[0], ws[0] + rest);
      WordsOfWordThen(ws[0], rest);
      assert ws == [ws[0]] + ws[1..];
    }
  }

  /** The shape of a join of words: no whitespace at either end, the only
      whitespace characters are single ' ' separators. */
  predicate Collapsed(r: string) {
    && (r != [] ==> !IsSpace(r[0]) && !IsSpace(r[|r| - 1]))
    && (forall i :: 0 <= i < |r| && IsSpace(r[i]) ==> r[i] == ' ')
    && (forall i :: 0 <= i < |r| - 1 && IsSpace(r[i]) ==> !IsSpace(r[i + 1]))
  }

  lemma {:induction false} JoinCollapsed(ws: seq<string>)
    requires AreWords(ws)
    ensures Collapsed(Join(ws))
  {
    if |ws| == 1 {
      assert Join(ws) == ws[0];
    } else if |ws| > 1 {
      var w, rest := ws[0], Join(ws[1..]);
      JoinCollapsed(ws[1..]);
      JoinNonEmpty(ws[1..]);
      var r := w + " " + rest;
      assert Join(ws) == r;
      assert forall i :: 0 <= i < |w| ==> r[i] == w[i];
      assert r[|w|] == ' ';
      assert forall i :: |w| < i < |r| ==> r[i] == rest[i - |w| - 1];
      assert r[0] == w[0];
      assert r[|r| - 1] == rest[|rest| - 1];
    }
  }

  /** Joining two non-empty lists of words is joining each and putting one
      space between them. */
  lemma {:induction false} JoinAppend(u: seq<string>, v: seq<string>)
    requires u != [] && v != []
    ensures Join(u + v) == Join(u) + " " + Join(v)
  {
    if |u| > 1 {
      JoinAppend(u[1..], v);
      assert (u + v)[1..] == u[1..] + v;
    } else {
      assert (u + v)[1..] == v;
    }
  }

  lemma {:induction false} JoinNonEmpty(ws: seq<string>)
    requires AreWords(ws) && ws != []
    ensures Join(ws) != []
  {
    if |ws| > 1 {
      assert |Join(ws)| >= |ws[0]|;
    }
  }

  // ---------------------------------------------------------------------
  // Substring test

  /** The substring test `t in s`. */
  function Contains(s: string, t: string): (b: bool)
    ensures b <==> exists i :: 0 <= i <= |s| - |t| && t <= s[i..]
  {
    if t <= s then
      assert t <= s[0..];
      true
    else if s == [] then
      false
    else
      var b := Contains(s[1..], t);
      assert forall i :: 1 <= i <= |s| - |t| ==> s[i..] == s[1..][i - 1..];
      assert forall i :: 0 <= i <= |s[1..]| - |t| ==> s[1..][i..] == s[i + 1..];
      b
  }

  // ---------------------------------------------------------------------
  // str(n) for n >= 0

  function DigitChar(d: nat): (c: char)
    requires d < 10
    ensures IsDigit(c)
  {
    (48 + d) as char
  }

  function DigitValue(c: char): nat
    requires IsDigit(c)
  {
    c as int - 48
  }

  /** `str(n)`: the decimal form of `n`, without leading zeros. */
  function NatToString(n: nat): (r: string)
    ensures r != [] && AllDigits(r)
    ensures n > 0 ==> r[0] != '0'
  {
    if n < 10 then [DigitChar(n)] else NatToString(n / 10) + [DigitChar(n % 10)]
  }

  /** The value of a string of decimal digits. */
  function ParseDigits(s: string): nat
    requires AllDigits(s)
  {
    if s == [] then 0 else 10 * ParseDigits(s[..|s| - 1]) + DigitValue(s[|s| - 1])
  }

  lemma {:induction false} ParseNatToString(n: nat)
    ensures ParseDigits(NatToString(n)) == n
  {
    var r := NatToString(n);
    if n >= 10 {
      ParseNatToString(n / 10);
      assert r[..|r| - 1] == NatToString(n / 10);
    }
  }

  /** Different numbers have different decimal forms. */
  lemma NatToStringInjective(a: nat, b: nat)
    requires NatToString(a) == NatToString(b)
    ensures a == b
  {
    ParseNatToString(a);
    ParseNatToString(b);
  }
}
