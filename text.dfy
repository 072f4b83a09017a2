/** Character and string primitives shared by the field validators, the path
    rules and the count-up split: the white-space class that JavaScript's `\s`
    and `String.prototype.trim` share, ASCII digits, ASCII lower-casing,
    substring search and the UTF-16 length that `String.prototype.length`
    reports. */
module Text {

  /** The ECMAScript WhiteSpace and LineTerminator code points, as inclusive
      ranges: exactly the characters `\s` matches and `trim()` removes. */
  const SpaceRanges: seq<(int, int)> := [
    (0x09, 0x0D), (0x20, 0x20), (0xA0, 0xA0), (0x1680, 0x1680), (0x2000, 0x200A),
    (0x2028, 0x2029), (0x202F, 0x202F), (0x205F, 0x205F), (0x3000, 0x3000), (0xFEFF, 0xFEFF)]

  predicate InRanges(n: int, ranges: seq<(int, int)>) {
    |ranges| > 0 && (ranges[0].0 <= n <= ranges[0].1 || InRanges(n, ranges[1..]))
  }

  predicate IsSpace(c: char) {
    InRanges(c as int, SpaceRanges)
  }

  /** The table lists exactly these code points. */
  lemma IsSpaceIff(c: char)
    ensures IsSpace(c) <==>
      var n := c as int;
      n == 0x20 || 0x09 <= n <= 0x0D || n == 0xA0 || n == 0x1680
      || 0x2000 <= n <= 0x200A || n == 0x2028 || n == 0x2029
      || n == 0x202F || n == 0x205F || n == 0x3000 || n == 0xFEFF
  {
    var n, r := c as int, SpaceRanges;
    assert InRanges(n, r) <==> 0x09 <= n <= 0x0D || InRanges(n, r[1..]);
    assert InRanges(n, r[1..]) <==> n == 0x20 || InRanges(n, r[2..]);
    assert InRanges(n, r[2..]) <==> n == 0xA0 || InRanges(n, r[3..]);
    assert InRanges(n, r[3..]) <==> n == 0x1680 || InRanges(n, r[4..]);
    assert InRanges(n, r[4..]) <==> 0x2000 <= n <= 0x200A || InRanges(n, r[5..]);
    assert InRanges(n, r[5..]) <==> 0x2028 <= n <= 0x2029 || InRanges(n, r[6..]);
    assert InRanges(n, r[6..]) <==> n == 0x202F || InRanges(n, r[7..]);
    assert InRanges(n, r[7..]) <==> n == 0x205F || InRanges(n, r[8..]);
    assert InRanges(n, r[8..]) <==> n == 0x3000 || InRanges(n, r[9..]);
    assert InRanges(n, r[9..]) <==> n == 0xFEFF || InRanges(n, r[10..]);
    assert r[10..] == [];
  }

  /** Among ASCII characters only the space and the controls from tab to
      carriage return are white space. */
  lemma AsciiSpace(c: char)
    requires c as int < 0x80
    ensures IsSpace(c) <==> c == ' ' || '\t' <= c <= '\r'
  {
    IsSpaceIff(c);
  }

  /** The class `[0-9]`, which is also what `\d` matches without the `u` flag. */
  predicate IsDigit(c: char) {
    '0' <= c <= '9'
  }

  predicate AllSpace(s: string) {
    forall i :: 0 <= i < |s| ==> IsSpace(s[i])
  }

  /** `trimStart`: drops the leading white space. */
  function TrimStart(s: string): string {
    if |s| > 0 && IsSpace(s[0]) then TrimStart(s[1..]) else s
  }

  /** `trimEnd`: drops the trailing white space. */
  function TrimEnd(s: string): string {
    if |s| > 0 && IsSpace(s[|s| - 1]) then TrimEnd(s[..|s| - 1]) else s
  }

  /** `String.prototype.trim`: never longer than the value, and neither
      starts nor ends with white space. */
  function Trim(s: string): (r: string)
    ensures |r| <= |s|
    ensures r == [] || (!IsSpace(r[0]) && !IsSpace(r[|r| - 1]))
  {
    TrimStartSpec(s);
    TrimEndSpec(TrimStart(s));
    TrimEnd(TrimStart(s))
  }

  /** `trimStart` keeps a suffix, removes only white space, and stops at
      the first other character. */
  lemma {:induction false} TrimStartSpec(s: string)
    ensures |TrimStart(s)| <= |s| && TrimStart(s) == s[|s| - |TrimStart(s)|..]
    ensures AllSpace(s[..|s| - |TrimStart(s)|])
    ensures TrimStart(s) == [] || !IsSpace(TrimStart(s)[0])
    decreases |s|
  {
    if |s| > 0 && IsSpace(s[0]) {
      var t := s[1..];
      TrimStartSpec(t);
      var r := TrimStart(s);
      assert r == TrimStart(t);
      var n := |s| - |r|;
      assert s[n..] == t[|t| - |r|..];
      forall k | 0 <= k < n ensures IsSpace(s[..n][k]) {
        if k > 0 { assert s[..n][k] == t[..|t| - |r|][k - 1]; }
      }
    }
  }

  /** `trimEnd` keeps a prefix, removes only white space, and stops at the
      last other character. */
  lemma {:induction false} TrimEndSpec(s: string)
    ensures |TrimEnd(s)| <= |s| && TrimEnd(s) == s[..|TrimEnd(s)|]
    ensures AllSpace(s[|TrimEnd(s)|..])
    ensures TrimEnd(s) == [] || !IsSpace(TrimEnd(s)[|TrimEnd(s)| - 1])
    decreases |s|
  {
    if |s| > 0 && IsSpace(s[|s| - 1]) {
      var p := s[..|s| - 1];
      TrimEndSpec(p);
      var r := TrimEnd(s);
      assert r == TrimEnd(p);
      assert s[..|r|] == p[..|r|];
      forall k | 0 <= k < |s| - |r| ensures IsSpace(s[|r|..][k]) {
        if k < |s| - 1 - |r| { assert s[|r|..][k] == p[|r|..][k]; }
      }
    }
  }

  /** Trimming keeps one contiguous slice of the input, removes only white
      space on either side of it, and leaves no white space at either end. */
  lemma TrimSlice(s: string) returns (i: nat)
    ensures i + |Trim(s)| <= |s|
    ensures Trim(s) == s[i..i + |Trim(s)|]
    ensures AllSpace(s[..i]) && AllSpace(s[i + |Trim(s)|..])
    ensures Trim(s) == [] || (!IsSpace(Trim(s)[0]) && !IsSpace(Trim(s)[|Trim(s)| - 1]))
  {
    var a := TrimStart(s);
    TrimStartSpec(s);
    TrimEndSpec(a);
    var r := TrimEnd(a);
    i := |s| - |a|;
    assert s[i..][..|r|] == s[i..i + |r|];
    assert s[i + |r|..] == a[|r|..];
  }

  /** A value trims to nothing exactly when it is all white space. */
  lemma TrimEmptyIff(s: string)
    ensures Trim(s) == [] <==> AllSpace(s)
  {
    var i := TrimSlice(s);
  }

  /** Trimming twice is trimming once. */
  lemma TrimIdempotent(s: string)
    ensures Trim(Trim(s)) == Trim(s)
  {
    var t := Trim(s);
    var _ := TrimSlice(s);
    if t != [] {
      assert TrimStart(t) == t;
      assert TrimEnd(t) == t;
    }
  }

  function LowerChar(c: char): char {
    if 'A' <= c <= 'Z' then (c as int + 32) as char else c
  }

  /** `toLowerCase` restricted to ASCII letters: each capital becomes its
      small letter, every other character stays, and no capital is left. */
  function Lower(s: string): (r: string)
    ensures |r| == |s|
    ensures forall i :: 0 <= i < |s| ==> r[i] == LowerChar(s[i])
    ensures forall i :: 0 <= i < |s| && !('A' <= s[i] <= 'Z') ==> r[i] == s[i]
    ensures forall i :: 0 <= i < |s| && 'A' <= s[i] <= 'Z' ==> 'a' <= r[i] <= 'z' && r[i] as int - s[i] as int == 32
    ensures forall i :: 0 <= i < |r| ==> !('A' <= r[i] <= 'Z')
  {
    seq(|s|, i requires 0 <= i < |s| => LowerChar(s[i]))
  }

  /** `s.includes(t)`, searched left to right: the empty string is found
      in every string, and nothing longer than `s` is found in it. */
  predicate Contains(s: string, t: string): (b: bool)
    ensures t == [] ==> b
    ensures b ==> |t| <= |s|
    decreases |s|
  {
    t <= s || (|s| > 0 && Contains(s[1..], t))
  }

  predicate OccursAt(s: string, t: string, i: int) {
    0 <= i && i + |t| <= |s| && s[i..i + |t|] == t
  }

  /** The search finds `t` exactly when `t` occurs at some position of `s`. */
  lemma {:induction false} ContainsIff(s: string, t: string)
    ensures Contains(s, t) <==> exists i :: OccursAt(s, t, i)
    decreases |s|
  {
    if Contains(s, t) {
      var i := ContainsWitness(s, t);
    }
    if exists i :: OccursAt(s, t, i) {
      var i :| OccursAt(s, t, i);
      OccursContains(s, t, i);
    }
  }

  lemma {:induction false} ContainsWitness(s: string, t: string) returns (i: nat)
    requires Contains(s, t)
    ensures OccursAt(s, t, i)
    decreases |s|
  {
    if t <= s {
      i := 0;
    } else {
      var j := ContainsWitness(s[1..], t);
      assert s[j + 1..j + 1 + |t|] == s[1..][j..j + |t|];
      i := j + 1;
    }
  }

  lemma {:induction false} OccursContains(s: string, t: string, i: nat)
    requires OccursAt(s, t, i)
    ensures Contains(s, t)
    decreases i
  {
    if i > 0 {
      assert s[1..][i - 1..i - 1 + |t|] == s[i..i + |t|];
      OccursContains(s[1..], t, i - 1);
    } else {
      assert t == s[..|t|];
    }
  }

  /** `s.startsWith(t)` and `s.endsWith(t)`. */
  predicate StartsWith(s: string, t: string) {
    t <= s
  }

  predicate EndsWith(s: string, t: string) {
    |t| <= |s| && s[|s| - |t|..] == t
  }

  /** `String.prototype.length`: characters outside the Basic Multilingual
      Plane take two UTF-16 code units. */
  function Utf16Length(s: string): nat {
    if s == [] then 0
    else (if s[0] as int >= 0x10000 then 2 else 1) + Utf16Length(s[1..])
  }

  /** On a string of Basic Multilingual Plane characters the code-unit
      length is the number of characters. */
  lemma {:induction false} BmpLength(s: string)
    requires forall i :: 0 <= i < |s| ==> s[i] as int < 0x10000
    ensures Utf16Length(s) == |s|
    decreases |s|
  {
    if s != [] {
      BmpLength(s[1..]);
    }
  }
}
