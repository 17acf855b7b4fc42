/**
 * String primitives shared by the server (Python) and the browser script (JavaScript).
 * Strings are sequences of Unicode scalar values.  The two languages disagree on what
 * "whitespace" is, so each has its own predicate and every trim names the one it uses.
 */
module Text {

  /** Python's `str.isspace()`: exactly the characters `str.strip()` removes by default. */
  predicate IsPySpace(c: char) {
    var n := c as int;
    (0x09 <= n <= 0x0D) || (0x1C <= n <= 0x20) || n == 0x85 || n == 0xA0 || n == 0x1680
    || (0x2000 <= n <= 0x200A) || n == 0x2028 || n == 0x2029 || n == 0x202F
    || n == 0x205F || n == 0x3000
  }

  /**
   * ECMAScript WhiteSpace and LineTerminator: what `String.prototype.trim` removes and
   * what the regular-expression class `\s` matches.
   */
  predicate IsJsSpace(c: char) {
    var n := c as int;
    (0x09 <= n <= 0x0D) || n == 0x20 || n == 0xA0 || n == 0x1680
    || (0x2000 <= n <= 0x200A) || n == 0x2028 || n == 0x2029 || n == 0x202F
    || n == 0x205F || n == 0x3000 || n == 0xFEFF
  }

  /** Drops the leading characters that satisfy `sp`. */
  function TrimStart(s: string, sp: char -> bool): (r: string)
    ensures |r| <= |s| && r == s[|s| - |r|..]
    ensures forall i :: 0 <= i < |s| - |r| ==> sp(s[i])
    ensures r != [] ==> !sp(r[0])
  {
    if s != [] && sp(s[0]) then TrimStart(s[1..], sp) else s
  }

  /** Drops the trailing characters that satisfy `sp`. */
  function TrimEnd(s: string, sp: char -> bool): (r: string)
    ensures |r| <= |s| && r == s[..|r|]
    ensures forall i :: |r| <= i < |s| ==> sp(s[i])
    ensures r != [] ==> !sp(r[|r| - 1])
  {
    if s != [] && sp(s[|s| - 1]) then TrimEnd(s[..|s| - 1], sp) else s
  }

  /** Where the trimmed text starts inside the original. */
  function TrimOffset(s: string, sp: char -> bool): nat {
    |s| - |TrimStart(s, sp)|
  }

  /** Both-ends trim: the infix of `s` left after the leading and trailing `sp` characters go. */
  function Trim(s: string, sp: char -> bool): (r: string)
    ensures TrimOffset(s, sp) + |r| <= |s|
    ensures r == s[TrimOffset(s, sp)..TrimOffset(s, sp) + |r|]
  {
    var t := TrimStart(s, sp);
    var r := TrimEnd(t, sp);
    Infix(s, t, r, |s| - |t|);
    r
  }

  /** `t` is `s` from `o` on and `r` a prefix of `t`: what the two one-sided trims leave. */
  lemma Infix(s: string, t: string, r: string, o: nat)
    requires o <= |s| && t == s[o..] && |r| <= |t| && r == t[..|r|]
    ensures r == s[o..o + |r|]
    ensures forall i :: o <= i < |s| ==> s[i] == t[i - o]
  {
  }

  /**
   * What the trim removes and keeps: every removed character satisfies `sp`, the result
   * neither starts nor ends with one, and it is empty exactly when all of `s` does.
   */
  lemma TrimMeaning(s: string, sp: char -> bool)
    ensures forall i :: 0 <= i < TrimOffset(s, sp) ==> sp(s[i])
    ensures forall i :: TrimOffset(s, sp) + |Trim(s, sp)| <= i < |s| ==> sp(s[i])
    ensures Trim(s, sp) != [] ==> !sp(Trim(s, sp)[0]) && !sp(Trim(s, sp)[|Trim(s, sp)| - 1])
    ensures Trim(s, sp) == [] <==> forall i :: 0 <= i < |s| ==> sp(s[i])
  {
    var t := TrimStart(s, sp);
    TrimBothEnds(s, sp, t, TrimEnd(t, sp), |s| - |t|);
  }

  /** The trim splits `s` into removed leading characters, the result and removed trailing ones. */
  lemma TrimSplit(s: string, sp: char -> bool) returns (lead: string, trail: string)
    ensures s == lead + Trim(s, sp) + trail
    ensures forall k :: 0 <= k < |lead| ==> sp(lead[k])
    ensures forall k :: 0 <= k < |trail| ==> sp(trail[k])
  {
    var o, r := TrimOffset(s, sp), Trim(s, sp);
    TrimMeaning(s, sp);
    lead, trail := Cut(s, o, o + |r|, sp);
  }

  /** Cuts `s` at `i` and `j`; a property of the characters outside `i..j` carries to the two outer pieces. */
  lemma Cut(s: string, i: nat, j: nat, sp: char -> bool) returns (lead: string, trail: string)
    requires i <= j <= |s|
    requires forall k :: 0 <= k < i ==> sp(s[k])
    requires forall k :: j <= k < |s| ==> sp(s[k])
    ensures s == lead + s[i..j] + trail
    ensures forall k :: 0 <= k < |lead| ==> sp(lead[k])
    ensures forall k :: 0 <= k < |trail| ==> sp(trail[k])
  {
    lead, trail := s[..i], s[j..];
    assert s == s[..i] + s[i..j] + s[j..];
    forall k | 0 <= k < |trail|
      ensures sp(trail[k])
    {
      assert trail[k] == s[j + k];
    }
  }

  /** Combines the facts of the two one-sided trims into facts about `s`. */
  lemma TrimBothEnds(s: string, sp: char -> bool, t: string, r: string, o: nat)
    requires o <= |s| && t == s[o..] && |r| <= |t| && r == t[..|r|]
    requires forall i :: 0 <= i < o ==> sp(s[i])
    requires t != [] ==> !sp(t[0])
    requires forall i :: |r| <= i < |t| ==> sp(t[i])
    ensures forall i :: o + |r| <= i < |s| ==> sp(s[i])
    ensures r != [] ==> !sp(r[0])
    ensures r == [] <==> forall i :: 0 <= i < |s| ==> sp(s[i])
  {
    Infix(s, t, r, o);
    if r != [] {
      assert r[0] == t[0];
    }
  }

  /** Python `s.strip()`. */
  function PyStrip(s: string): string {
    Trim(s, IsPySpace)
  }

  /** JavaScript `s.trim()`. */
  function JsTrim(s: string): string {
    Trim(s, IsJsSpace)
  }

  /** Lower-cases the letters A-Z and leaves every other character alone. */
  function AsciiLowerChar(c: char): char {
    if 'A' <= c <= 'Z' then (c as int + 32) as char else c
  }

  function AsciiLower(s: string): (r: string)
    ensures |r| == |s|
    ensures forall i :: 0 <= i < |s| ==> r[i] == AsciiLowerChar(s[i])
  {
    seq(|s|, i requires 0 <= i < |s| => AsciiLowerChar(s[i]))
  }

  /** `needle` occurs in `s` as a contiguous piece. */
  predicate Contains(s: string, needle: string) {
    exists i :: 0 <= i <= |s| - |needle| && needle <= s[i..]
  }

  /** JavaScript `parts.join(sep)`. */
  function Join(parts: seq<string>, sep: string): string {
    if |parts| == 0 then ""
    else if |parts| == 1 then parts[0]
    else parts[0] + sep + Join(parts[1..], sep)
  }

  function DigitChar(d: nat): char
    requires d < 10
  {
    ('0' as int + d) as char
  }

  predicate IsDigitText(s: string) {
    forall i :: 0 <= i < |s| ==> '0' <= s[i] <= '9'
  }

  /** The number a string of decimal digits denotes. */
  function DecimalValue(s: string): nat
    requires IsDigitText(s)
  {
    if s == [] then 0 else DecimalValue(s[..|s| - 1]) * 10 + (s[|s| - 1] as int - '0' as int)
  }

  /**
   * The decimal numeral of `n`, as Python's `str` or an f-string renders it: digits
   * with no leading zero that denote `n`.
   */
  function NatToDecimal(n: nat): (r: string)
    ensures r != [] && IsDigitText(r)
    ensures DecimalValue(r) == n
    ensures r[0] == '0' ==> r == "0"
  {
    if n < 10 then [DigitChar(n)]
    else
      var prefix := NatToDecimal(n / 10);
      var r := prefix + [DigitChar(n % 10)];
      assert r[..|r| - 1] == prefix;
      r
  }
}
