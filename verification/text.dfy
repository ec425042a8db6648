/** Python string primitives the repository relies on, restated over
    `seq<char>`: whitespace, ASCII case mapping, substring search, `strip`,
    `split()`, `split(sep)`, `join` and decimal rendering. */
module Text {
  import opened Base

  /** Exactly the characters for which Python's `str.isspace()` holds. */
  predicate IsSpace(c: char) {
    ('\U{9}' <= c <= '\U{D}') || ('\U{1C}' <= c <= '\U{20}') || c == '\U{85}' || c == '\U{A0}'
    || c == '\U{1680}' || ('\U{2000}' <= c <= '\U{200A}') || c == '\U{2028}' || c == '\U{2029}'
    || c == '\U{202F}' || c == '\U{205F}' || c == '\U{3000}'
  }

  predicate NotSpace(c: char) { !IsSpace(c) }

  predicate IsAsciiDigit(c: char) { '0' <= c <= '9' }

  predicate IsAsciiLetter(c: char) { ('a' <= c <= 'z') || ('A' <= c <= 'Z') }

  function LowerChar(c: char): char {
    if 'A' <= c <= 'Z' then (c as int + 32) as char else c
  }

  function UpperChar(c: char): char {
    if 'a' <= c <= 'z' then (c as int - 32) as char else c
  }

  /** `s.lower()` restricted to the ASCII case mapping. */
  function Lower(s: string): (r: string)
    ensures |r| == |s|
    ensures forall i :: 0 <= i < |s| ==> r[i] == LowerChar(s[i])
  {
    seq(|s|, i requires 0 <= i < |s| => LowerChar(s[i]))
  }

  /** `s.upper()` restricted to the ASCII case mapping. */
  function Upper(s: string): (r: string)
    ensures |r| == |s|
    ensures forall i :: 0 <= i < |s| ==> r[i] == UpperChar(s[i])
  {
    seq(|s|, i requires 0 <= i < |s| => UpperChar(s[i]))
  }

  lemma LowerIdempotent(s: string)
    ensures Lower(Lower(s)) == Lower(s)
  {
  }

  lemma LowerAppend(a: string, b: string)
    ensures Lower(a + b) == Lower(a) + Lower(b)
  {
  }

  predicate StartsWith(s: string, p: string) {
    |p| <= |s| && s[..|p|] == p
  }

  predicate EndsWith(s: string, p: string) {
    |p| <= |s| && s[|s| - |p|..] == p
  }

  /** `p` occurs in `s` starting at index `i`. */
  predicate OccursAt(s: string, p: string, i: int) {
    0 <= i && i + |p| <= |s| && s[i..i + |p|] == p
  }

  /** Python's `p in s`. */
  predicate Contains(s: string, p: string) {
    exists i :: 0 <= i <= |s| && OccursAt(s, p, i)
  }

  lemma OccursShift(s: string, p: string)
    requires |s| > 0
    ensures forall i :: i >= 1 ==> (OccursAt(s, p, i) <==> OccursAt(s[1..], p, i - 1))
  {
    forall i | i >= 1
      ensures OccursAt(s, p, i) <==> OccursAt(s[1..], p, i - 1)
    {
      if i + |p| <= |s| {
        assert s[1..][i - 1..i - 1 + |p|] == s[i..i + |p|] by {
          var t, u := s[1..][i - 1..i - 1 + |p|], s[i..i + |p|];
          assert forall k :: 0 <= k < |p| ==> t[k] == u[k];
        }
      }
    }
  }

  lemma OccursInPrefix(s: string, p: string, n: nat)
    requires n <= |s|
    ensures forall i :: OccursAt(s[..n], p, i) <==> OccursAt(s, p, i) && i + |p| <= n
  {
    forall i
      ensures OccursAt(s[..n], p, i) <==> OccursAt(s, p, i) && i + |p| <= n
    {
      if 0 <= i && i + |p| <= n {
        assert s[..n][i..i + |p|] == s[i..i + |p|];
      }
    }
  }

  lemma OccursInSuffix(s: string, p: string, lo: nat)
    requires lo <= |s|
    ensures forall i :: OccursAt(s[lo..], p, i) ==> OccursAt(s, p, lo + i)
  {
    forall i | OccursAt(s[lo..], p, i)
      ensures OccursAt(s, p, lo + i)
    {
      var u, v := s[lo..][i..i + |p|], s[lo + i..lo + i + |p|];
      assert forall k :: 0 <= k < |p| ==> u[k] == v[k];
    }
  }

  /** Python's `s.find(p)`: the leftmost occurrence of `p`, if any. */
  function Find(s: string, p: string): (r: Option<nat>)
    ensures r.Some? ==> OccursAt(s, p, r.value)
    ensures r.Some? ==> forall j :: 0 <= j < r.value ==> !OccursAt(s, p, j)
    decreases |s|
  {
    if OccursAt(s, p, 0) then Some(0)
    else if |s| == 0 then None
    else
      var rest := Find(s[1..], p);
      OccursShift(s, p);
      if rest.None? then None else Some(rest.value + 1)
  }

  /** `find` answers -1 exactly when `p` does not occur in `s`. */
  lemma {:induction false} FindNoneIff(s: string, p: string)
    ensures Find(s, p).None? <==> !Contains(s, p)
    decreases |s|
  {
    var f := Find(s, p);
    if f.Some? {
      assert OccursAt(s, p, f.value);
    } else if |s| > 0 {
      FindNoneIff(s[1..], p);
      OccursShift(s, p);
      forall i | 0 <= i <= |s|
        ensures !OccursAt(s, p, i)
      {
        if i >= 1 {
          assert !OccursAt(s[1..], p, i - 1);
        }
      }
    }
  }

  /** An occurrence with none before it is what `find` answers. */
  lemma FindLeftmost(s: string, p: string, i: nat)
    requires OccursAt(s, p, i)
    requires forall j :: 0 <= j < i ==> !OccursAt(s, p, j)
    ensures Find(s, p) == Some(i)
  {
    assert Contains(s, p);
    FindNoneIff(s, p);
    var f := Find(s, p).value;
    assert OccursAt(s, p, f);
    assert f >= i;
    assert f <= i;
  }

  /** Python's `s.rfind(p)`: the rightmost occurrence of `p`, or -1. */
  function RFind(s: string, p: string): (r: int)
    ensures r == -1 || 0 <= r <= |s| - |p|
    ensures r >= 0 ==> OccursAt(s, p, r)
    ensures forall j :: r < j ==> !OccursAt(s, p, j)
    decreases |s|
  {
    if |s| < |p| then -1
    else if OccursAt(s, p, |s| - |p|) then |s| - |p|
    else
      OccursInPrefix(s, p, |s| - 1);
      RFind(s[..|s| - 1], p)
  }

  function LStrip(s: string): (r: string)
    ensures |r| <= |s| && r == s[|s| - |r|..]
    ensures |r| > 0 ==> !IsSpace(r[0])
    decreases |s|
  {
    if |s| > 0 && IsSpace(s[0]) then LStrip(s[1..]) else s
  }

  function RStrip(s: string): (r: string)
    ensures |r| <= |s| && r == s[..|r|]
    ensures |r| > 0 ==> !IsSpace(r[|r| - 1])
    decreases |s|
  {
    if |s| > 0 && IsSpace(s[|s| - 1]) then RStrip(s[..|s| - 1]) else s
  }

  /** Python's `s.strip()`. */
  function Strip(s: string): (r: string)
    ensures |r| <= |s|
    ensures |r| > 0 ==> !IsSpace(r[0]) && !IsSpace(r[|r| - 1])
  {
    RStrip(LStrip(s))
  }

  /** `not text or not text.strip()`. */
  predicate IsBlank(text: string) {
    Strip(text) == ""
  }

  lemma {:induction false} StripEmptyIffAllSpace(s: string)
    ensures Strip(s) == "" <==> forall i :: 0 <= i < |s| ==> IsSpace(s[i])
  {
    LStripEmptyIffAllSpace(s);
    var l := LStrip(s);
    if |l| > 0 {
      assert RStrip(l) != "" by { RStripKeepsNonSpace(l); }
    }
  }

  lemma {:induction false} LStripEmptyIffAllSpace(s: string)
    ensures LStrip(s) == "" <==> forall i :: 0 <= i < |s| ==> IsSpace(s[i])
    decreases |s|
  {
    if |s| > 0 && IsSpace(s[0]) {
      LStripEmptyIffAllSpace(s[1..]);
      assert forall i :: 1 <= i < |s| ==> s[i] == s[1..][i - 1];
    }
  }

  lemma RStripKeepsNonSpace(s: string)
    requires |s| > 0 && !IsSpace(s[0])
    ensures |RStrip(s)| > 0
    decreases |s|
  {
    if IsSpace(s[|s| - 1]) {
      RStripKeepsNonSpace(s[..|s| - 1]);
    }
  }

  /** Python's `sep.join(parts)`. */
  function Join(sep: string, parts: seq<string>): string
    decreases |parts|
  {
    if |parts| == 0 then ""
    else if |parts| == 1 then parts[0]
    else parts[0] + sep + Join(sep, parts[1..])
  }

  lemma JoinOne(sep: string, parts: seq<string>)
    requires |parts| == 1
    ensures Join(sep, parts) == parts[0]
  {
  }

  /** Python's `s.split(sep)` for a non-empty separator: cut at every
      leftmost non-overlapping occurrence. */
  function SplitOn(s: string, sep: string): (r: seq<string>)
    requires |sep| > 0
    ensures |r| >= 1
    decreases |s|, 1
  {
    SplitFrom(s, sep, Find(s, sep))
  }

  function SplitFrom(s: string, sep: string, f: Option<nat>): (r: seq<string>)
    requires |sep| > 0
    requires f.Some? ==> f.value + |sep| <= |s|
    ensures |r| >= 1
    decreases |s|, 0
  {
    match f
    case None => [s]
    case Some(i) => [s[..i]] + SplitOn(s[i + |sep|..], sep)
  }

  /** No piece of a split holds the separator. */
  lemma {:induction false} SplitOnFree(s: string, sep: string)
    requires |sep| > 0
    ensures forall k :: 0 <= k < |SplitOn(s, sep)| ==> !Contains(SplitOn(s, sep)[k], sep)
    decreases |s|
  {
    match Find(s, sep)
    case None =>
      FindNoneIff(s, sep);
    case Some(i) =>
      var rest := s[i + |sep|..];
      SplitOnFree(rest, sep);
      OccursInPrefix(s, sep, i);
      SplitOnStep(s, sep, i);
      var r := SplitOn(s, sep);
      forall k | 0 <= k < |r|
        ensures !Contains(r[k], sep)
      {
        if k > 0 {
          assert r[k] == SplitOn(rest, sep)[k - 1];
        }
      }
  }

  lemma JoinCons(sep: string, a: string, tail: seq<string>)
    requires |tail| >= 1
    ensures Join(sep, [a] + tail) == a + sep + Join(sep, tail)
  {
    assert ([a] + tail)[1..] == tail;
  }

  lemma SplitOnStep(s: string, sep: string, i: nat)
    requires |sep| > 0 && Find(s, sep) == Some(i)
    ensures SplitOn(s, sep) == [s[..i]] + SplitOn(s[i + |sep|..], sep)
  {
  }

  /** Splitting at a first separator occurrence that follows `a`. */
  lemma SplitAtFirst(a: string, sep: string, b: string)
    requires |sep| > 0
    requires forall j :: 0 <= j < |a| ==> !OccursAt(a + sep + b, sep, j)
    ensures SplitOn(a + sep + b, sep) == [a] + SplitOn(b, sep)
  {
    var s := a + sep + b;
    var i := |a|;
    assert s[..i] == a && s[i..i + |sep|] == sep && s[i + |sep|..] == b;
    FindLeftmost(s, sep, i);
    SplitOnStep(s, sep, i);
  }

  lemma CutAround(s: string, sep: string, i: nat)
    requires OccursAt(s, sep, i)
    ensures s == s[..i] + sep + s[i + |sep|..]
  {
    assert s == s[..i] + s[i..i + |sep|] + s[i + |sep|..];
  }

  /** Splitting and re-joining with the same separator gives back the text. */
  lemma {:induction false} JoinSplit(s: string, sep: string)
    requires |sep| > 0
    ensures Join(sep, SplitOn(s, sep)) == s
    decreases |s|
  {
    var f := Find(s, sep);
    if f.Some? {
      var i := f.value;
      var rest := s[i + |sep|..];
      JoinSplit(rest, sep);
      SplitOnStep(s, sep, i);
      JoinCons(sep, s[..i], SplitOn(rest, sep));
      CutAround(s, sep, i);
    }
  }

  lemma NoCharNoContains(s: string, c: char)
    requires c !in s
    ensures !Contains(s, [c])
  {
    forall i
      ensures !OccursAt(s, [c], i)
    {
      if 0 <= i && i + 1 <= |s| {
        assert s[i..i + 1] == [s[i]];
      }
    }
  }

  /** A pattern with a character the text lacks does not occur in it. */
  lemma MissingCharNoContains(s: string, p: string, k: nat)
    requires k < |p| && p[k] !in s
    ensures !Contains(s, p)
  {
    forall i
      ensures !OccursAt(s, p, i)
    {
      if 0 <= i && i + |p| <= |s| {
        assert s[i..i + |p|][k] == s[i + k];
      }
    }
  }

  /** The first piece of `s.split(c)` runs up to the first `c`, or is the
      whole text when there is none. */
  lemma FirstPiece(s: string, c: char)
    ensures var p := SplitOn(s, [c])[0];
      |p| <= |s| && p == s[..|p|] && c !in p && (|p| == |s| || s[|p|] == c)
  {
    match Find(s, [c])
    case None =>
      FindNoneIff(s, [c]);
      forall j | 0 <= j < |s|
        ensures s[j] != c
      {
        if s[j] == c {
          assert s[j..j + 1] == [c];
          assert OccursAt(s, [c], j);
        }
      }
    case Some(i) =>
      forall j | 0 <= j < i
        ensures s[j] != c
      {
        assert s[j..j + 1] == [s[j]];
        assert !OccursAt(s, [c], j);
      }
      assert s[i..i + 1] == [c];
  }

  /** Every character of every token comes from the text. */
  lemma {:induction false} TokensChars(s: string, inTok: char -> bool)
    ensures forall k, j :: 0 <= k < |Tokens(s, inTok)| && 0 <= j < |Tokens(s, inTok)[k]| ==>
      Tokens(s, inTok)[k][j] in s
    decreases |s|
  {
    if |s| > 0 {
      TokensChars(s[1..], inTok);
      assert forall c :: c in s[1..] ==> c in s;
    }
  }

  lemma {:induction false} FindFirstChar(a: string, b: string, c: char)
    requires c !in a
    ensures Find(a + [c] + b, [c]) == Some(|a|)
    decreases |a|
  {
    var s := a + [c] + b;
    if |a| == 0 {
      assert s[0..1] == [c];
    } else {
      assert s[0..1] == [a[0]];
      assert s[1..] == a[1..] + [c] + b;
      FindFirstChar(a[1..], b, c);
    }
  }

  /** For a one-character separator, splitting a join gives back the parts. */
  lemma {:induction false} SplitJoin(parts: seq<string>, c: char)
    requires |parts| >= 1
    requires forall k :: 0 <= k < |parts| ==> c !in parts[k]
    ensures SplitOn(Join([c], parts), [c]) == parts
    decreases |parts|
  {
    var sep := [c];
    if |parts| == 1 {
      NoCharNoContains(parts[0], c);
    } else {
      var tail := Join(sep, parts[1..]);
      var s := Join(sep, parts);
      assert s == parts[0] + sep + tail;
      FindFirstChar(parts[0], tail, c);
      assert s[..|parts[0]|] == parts[0];
      assert s[|parts[0]| + 1..] == tail;
      SplitJoin(parts[1..], c);
      assert SplitOn(s, sep) == [parts[0]] + SplitOn(tail, sep);
      assert parts == [parts[0]] + parts[1..];
    }
  }

  /** Maximal runs of characters of class `inTok`, left to right: Python's
      `s.split()` is `Tokens(s, NotSpace)` and `re.findall('[X]+', s)` is
      `Tokens(s, X)`. */
  function Tokens(s: string, inTok: char -> bool): (r: seq<string>)
    ensures |s| > 0 && inTok(s[0]) ==> |r| > 0 && |r[0]| > 0 && r[0][0] == s[0]
    decreases |s|
  {
    if |s| == 0 then []
    else
      var rest := Tokens(s[1..], inTok);
      if !inTok(s[0]) then rest
      else if |s| > 1 && inTok(s[1]) then [[s[0]] + rest[0]] + rest[1..]
      else [[s[0]]] + rest
  }

  /** Every token is non-empty and made only of characters of the class. */
  lemma {:induction false} TokensWellFormed(s: string, inTok: char -> bool)
    ensures forall k :: 0 <= k < |Tokens(s, inTok)| ==>
      |Tokens(s, inTok)[k]| > 0 && forall j :: 0 <= j < |Tokens(s, inTok)[k]| ==> inTok(Tokens(s, inTok)[k][j])
    decreases |s|
  {
    if |s| > 0 {
      TokensWellFormed(s[1..], inTok);
    }
  }

  /** Positions where a token begins: a class character not preceded by one. */
  function TokenStarts(s: string, inTok: char -> bool, prevIn: bool): nat
    decreases |s|
  {
    if |s| == 0 then 0
    else (if inTok(s[0]) && !prevIn then 1 else 0) + TokenStarts(s[1..], inTok, inTok(s[0]))
  }

  /** The number of tokens is the number of token starts. */
  lemma {:induction false} TokenCount(s: string, inTok: char -> bool)
    ensures |Tokens(s, inTok)| == TokenStarts(s, inTok, false)
    decreases |s|
  {
    if |s| > 0 {
      TokenCount(s[1..], inTok);
      TokenStartsAfterIn(s[1..], inTok);
    }
  }

  lemma {:induction false} TokenStartsAfterIn(s: string, inTok: char -> bool)
    ensures TokenStarts(s, inTok, true) == TokenStarts(s, inTok, false) - (if |s| > 0 && inTok(s[0]) then 1 else 0)
  {
  }

  /** Gluing the tokens back together gives the text with every character
      outside the class deleted. */
  lemma {:induction false} TokensFlatten(s: string, inTok: char -> bool)
    ensures Concat(Tokens(s, inTok)) == Filter(s, inTok)
    decreases |s|
  {
    if |s| > 0 {
      TokensFlatten(s[1..], inTok);
      var rest := Tokens(s[1..], inTok);
      if inTok(s[0]) && |s| > 1 && inTok(s[1]) {
        assert rest == [rest[0]] + rest[1..];
        assert Concat(rest) == rest[0] + Concat(rest[1..]);
      }
    }
  }

  function Concat(parts: seq<string>): string
    decreases |parts|
  {
    if |parts| == 0 then "" else parts[0] + Concat(parts[1..])
  }

  /** Python's `s.split()`. */
  function Words(s: string): seq<string> {
    Tokens(s, NotSpace)
  }

  function DigitChar(d: nat): char
    requires d < 10
  {
    ['0', '1', '2', '3', '4', '5', '6', '7', '8', '9'][d]
  }

  /** Python's `str(n)` for a natural number. */
  function NatToString(n: nat): (r: string)
    ensures |r| > 0
    decreases n
  {
    if n < 10 then [DigitChar(n)] else NatToString(n / 10) + [DigitChar(n % 10)]
  }

  /** Python's `str(n)` for an integer. */
  function IntToString(n: int): string {
    if n < 0 then "-" + NatToString(-n) else NatToString(n)
  }
}
