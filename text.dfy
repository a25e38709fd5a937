/**
 * String helpers shared by the models: the parts of Python's `str` and JavaScript's
 * `String` that the core relies on (substring search, `lower`, `strip`, `split`,
 * integer formatting).
 */
module Text {

  /**
   * The characters Python's `str.isspace()` accepts (and `strip()`/`split()` remove):
   * tab to carriage return, the four separators U+1C..U+1F, space, U+85, U+A0,
   * U+1680, U+2000..U+200A, U+2028, U+2029, U+202F, U+205F and U+3000.
   */
  predicate IsSpace(c: char) {
    || ('\t' <= c <= '\r') || ('\U{1C}' <= c <= ' ') || c == '\U{85}' || c == '\U{A0}' || c == '\U{1680}'
    || ('\U{2000}' <= c <= '\U{200A}') || c == '\U{2028}' || c == '\U{2029}' || c == '\U{202F}'
    || c == '\U{205F}' || c == '\U{3000}'
  }

  predicate NoSpace(s: string) {
    forall i :: 0 <= i < |s| ==> !IsSpace(s[i])
  }

  predicate IsUpperAscii(c: char) {
    'A' <= c <= 'Z'
  }

  /** Lower-casing of one character; only ASCII letters change. */
  function LowerChar(c: char): (r: char)
    ensures !IsUpperAscii(r)
    ensures !IsUpperAscii(c) ==> r == c
  {
    if IsUpperAscii(c) then (c as int + 32) as char else c
  }

  /** `s.lower()` restricted to ASCII letters. */
  function Lower(s: string): (r: string)
    ensures |r| == |s|
    ensures forall i :: 0 <= i < |s| ==> r[i] == LowerChar(s[i])
  {
    if s == [] then [] else [LowerChar(s[0])] + Lower(s[1..])
  }

  predicate OccursAt(s: string, sub: string, i: int) {
    0 <= i && i + |sub| <= |s| && s[i..i + |sub|] == sub
  }

  /** `sub in s` (Python) and `s.includes(sub)` (JavaScript). */
  predicate Contains(s: string, sub: string) {
    exists i | 0 <= i <= |s| - |sub| :: OccursAt(s, sub, i)
  }

  /** `any(kw in s for kw in kws)`. */
  predicate ContainsAny(s: string, kws: seq<string>) {
    exists k | k in kws :: Contains(s, k)
  }

  predicate StartsWith(s: string, p: string) {
    |p| <= |s| && s[..|p|] == p
  }

  predicate EndsWith(s: string, p: string) {
    |p| <= |s| && s[|s| - |p|..] == p
  }

  /** JavaScript's treatment of a `fromIndex` argument: negative means 0, past the end means the end. */
  function Clamp(from: int, n: nat): (r: nat)
    ensures r <= n
  {
    if from < 0 then 0 else if from > n then n else from
  }

  /** First occurrence of `sub` in `s` at position `i` or later, or -1. */
  function FindFrom(s: string, sub: string, i: nat): (r: int)
    requires i <= |s|
    decreases |s| - i
    ensures r == -1 || (i <= r && OccursAt(s, sub, r))
    ensures r == -1 ==> forall j :: i <= j ==> !OccursAt(s, sub, j)
    ensures r != -1 ==> forall j :: i <= j < r ==> !OccursAt(s, sub, j)
  {
    if i + |sub| > |s| then -1
    else if s[i..i + |sub|] == sub then i
    else FindFrom(s, sub, i + 1)
  }

  /** JavaScript's `s.indexOf(sub, from)`. */
  function IndexOf(s: string, sub: string, from: int): (r: int)
    ensures r == -1 || (Clamp(from, |s|) <= r && OccursAt(s, sub, r))
    ensures r == -1 <==> forall j :: Clamp(from, |s|) <= j ==> !OccursAt(s, sub, j)
    ensures r != -1 ==> forall j :: Clamp(from, |s|) <= j < r ==> !OccursAt(s, sub, j)
  {
    FindFrom(s, sub, Clamp(from, |s|))
  }

  lemma ContainsIffIndexOf(s: string, sub: string)
    ensures Contains(s, sub) <==> IndexOf(s, sub, 0) != -1
  {
    if IndexOf(s, sub, 0) != -1 {
      assert OccursAt(s, sub, IndexOf(s, sub, 0));
    }
  }

  /** `s.lstrip()`. */
  function TrimLeft(s: string): (r: string)
    ensures |r| <= |s| && r == s[|s| - |r|..]
    ensures forall i :: 0 <= i < |s| - |r| ==> IsSpace(s[i])
    ensures r == [] || !IsSpace(r[0])
  {
    if s != [] && IsSpace(s[0]) then TrimLeft(s[1..]) else s
  }

  /** `s.rstrip()`. */
  function TrimRight(s: string): (r: string)
    ensures |r| <= |s| && r == s[..|r|]
    ensures forall i :: |r| <= i < |s| ==> IsSpace(s[i])
    ensures r == [] || !IsSpace(r[|r| - 1])
  {
    if s != [] && IsSpace(s[|s| - 1]) then TrimRight(s[..|s| - 1]) else s
  }

  /** `s.strip()`: `s` without its leading and trailing white space. */
  function Strip(s: string): (r: string)
    ensures |r| <= |s|
    ensures r == [] || (!IsSpace(r[0]) && !IsSpace(r[|r| - 1]))
  {
    TrimRight(TrimLeft(s))
  }

  /**
   * What `strip` leaves is a slice of the input: everything before it and everything
   * after it is white space, and its own ends are not.
   */
  lemma StripIsSlice(s: string)
    ensures var r, a := Strip(s), |s| - |TrimLeft(s)|;
      && a + |r| <= |s| && r == s[a..a + |r|]
      && (forall i :: 0 <= i < a ==> IsSpace(s[i]))
      && (forall i :: a + |r| <= i < |s| ==> IsSpace(s[i]))
      && (r == [] || (!IsSpace(r[0]) && !IsSpace(r[|r| - 1])))
  {
    var t := TrimLeft(s);
    var a := |s| - |t|;
    var r := TrimRight(t);
    assert t == s[a..];
    assert r == t[..|r|] && |r| <= |t|;
    assert s[a..][..|r|] == s[a..a + |r|];
    forall i | a + |r| <= i < |s|
      ensures IsSpace(s[i])
    {
      assert s[i] == t[i - a];
    }
  }

  /** Stripping from position `i` is stripping from the first non-space character at or after it. */
  lemma {:induction false} StripFrom(s: string, i: nat)
    requires i <= |s|
    ensures Strip(s[i..]) == Strip(s[SkipSpace(s, i)..])
    decreases |s| - i
  {
    if i < |s| && IsSpace(s[i]) {
      assert s[i..][1..] == s[i + 1..];
      assert TrimLeft(s[i..]) == TrimLeft(s[i + 1..]);
      StripFrom(s, i + 1);
    }
  }

  /** A word has nothing to strip. */
  lemma StripWord(w: string)
    requires NoSpace(w)
    ensures Strip(w) == w
  {
    assert w == [] || !IsSpace(w[0]);
    assert TrimLeft(w) == w;
    assert w == [] || !IsSpace(w[|w| - 1]);
  }

  /** The first position at or after `i` that does not hold white space (or `|s|`). */
  function SkipSpace(s: string, i: nat): (j: nat)
    requires i <= |s|
    decreases |s| - i
    ensures i <= j <= |s| && (j == |s| || !IsSpace(s[j]))
    ensures forall k :: i <= k < j ==> IsSpace(s[k])
  {
    if i < |s| && IsSpace(s[i]) then SkipSpace(s, i + 1) else i
  }

  /** The first position at or after `i` that holds white space (or `|s|`). */
  function SkipWord(s: string, i: nat): (j: nat)
    requires i <= |s|
    decreases |s| - i
    ensures i <= j <= |s| && (j == |s| || IsSpace(s[j]))
    ensures forall k :: i <= k < j ==> !IsSpace(s[k])
  {
    if i < |s| && !IsSpace(s[i]) then SkipWord(s, i + 1) else i
  }

  /** The words of `s` from position `i` on. */
  function TokensFrom(s: string, i: nat): (ts: seq<string>)
    requires i <= |s|
    decreases |s| - i
    ensures forall k :: 0 <= k < |ts| ==> ts[k] != [] && NoSpace(ts[k])
  {
    var a := SkipSpace(s, i);
    if a == |s| then []
    else
      var b := SkipWord(s, a);
      [s[a..b]] + TokensFrom(s, b)
  }

  /** `s.split()`: the maximal runs of non-space characters, in order. */
  function Tokens(s: string): (ts: seq<string>)
    ensures forall k :: 0 <= k < |ts| ==> ts[k] != [] && NoSpace(ts[k])
  {
    TokensFrom(s, 0)
  }

  /** The parts of `s[i..].split(maxsplit=m)`. */
  function SplitMaxFrom(s: string, i: nat, m: nat): (parts: seq<string>)
    requires i <= |s|
    decreases |s| - i
  {
    var a := SkipSpace(s, i);
    if a == |s| then []
    else if m == 0 then [s[a..]]
    else
      var b := SkipWord(s, a);
      [s[a..b]] + SplitMaxFrom(s, b, m - 1)
  }

  /** `s.split(maxsplit=m)`: at most `m` cuts; the last part keeps its inner and trailing spaces. */
  function SplitMax(s: string, m: nat): seq<string> {
    SplitMaxFrom(s, 0, m)
  }

  /** Splitting with a limit cuts where an unlimited split does: at most `m + 1` parts, all but the last equal to the words. */
  lemma {:induction false} SplitMaxFromAgrees(s: string, i: nat, m: nat)
    requires i <= |s|
    ensures |SplitMaxFrom(s, i, m)| == if |TokensFrom(s, i)| <= m then |TokensFrom(s, i)| else m + 1
    ensures forall k :: 0 <= k < |SplitMaxFrom(s, i, m)| && k < m ==> SplitMaxFrom(s, i, m)[k] == TokensFrom(s, i)[k]
    decreases |s| - i
  {
    var a := SkipSpace(s, i);
    if a != |s| && m != 0 {
      var b := SkipWord(s, a);
      SplitMaxFromAgrees(s, b, m - 1);
      var x, y := SplitMaxFrom(s, b, m - 1), TokensFrom(s, b);
      assert SplitMaxFrom(s, i, m) == [s[a..b]] + x;
      assert TokensFrom(s, i) == [s[a..b]] + y;
      forall k | 1 <= k < |SplitMaxFrom(s, i, m)| && k < m
        ensures SplitMaxFrom(s, i, m)[k] == TokensFrom(s, i)[k]
      {
        assert SplitMaxFrom(s, i, m)[k] == x[k - 1];
      }
    }
  }

  lemma SplitMaxAgreesWithTokens(s: string, m: nat)
    ensures |SplitMax(s, m)| == if |Tokens(s)| <= m then |Tokens(s)| else m + 1
    ensures forall k :: 0 <= k < |SplitMax(s, m)| && k < m ==> SplitMax(s, m)[k] == Tokens(s)[k]
  {
    SplitMaxFromAgrees(s, 0, m);
  }

  function DigitChar(d: nat): char
    requires d < 10
  {
    "0123456789"[d]
  }

  /** `str(n)` for a non-negative integer. */
  function NatToString(n: nat): string
    decreases n
  {
    if n < 10 then [DigitChar(n)] else NatToString(n / 10) + [DigitChar(n % 10)]
  }

  /** `str(i)` for any integer. */
  function IntToString(i: int): string {
    if i < 0 then "-" + NatToString(-i) else NatToString(i)
  }
}
