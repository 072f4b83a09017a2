/** The text split of `initCountUp` (script.js:483-520): the number an
    element counts up to is `parseInt` of all its digits, the prefix is the
    leading run of non-digits and the suffix the trailing run. The element
    starts at `prefix + '0' + suffix` and ends at `prefix + number + suffix`. */
module CountUp {
  import opened Text
  import opened Wrappers

  predicate AllDigits(s: string) {
    forall i :: 0 <= i < |s| ==> IsDigit(s[i])
  }

  predicate NoDigits(s: string) {
    forall i :: 0 <= i < |s| ==> !IsDigit(s[i])
  }

  /** `text.replace(/[^0-9]/g, '')`: the digits, in order; only digits,
      and never more than the text. */
  function DigitsOf(s: string): (r: string)
    ensures AllDigits(r) && |r| <= |s|
    decreases |s|
  {
    if s == [] then []
    else (if IsDigit(s[0]) then [s[0]] else []) + DigitsOf(s[1..])
  }

  /** The first match of `^[^0-9]*`: the longest leading part of the text
      without digits. */
  function LeadingNonDigits(s: string): (r: string)
    ensures r <= s && NoDigits(r)
    ensures |r| < |s| ==> IsDigit(s[|r|])
    decreases |s|
  {
    if s == [] || IsDigit(s[0]) then []
    else
      var r := LeadingNonDigits(s[1..]);
      assert s == [s[0]] + s[1..];
      assert |r| + 1 < |s| ==> s[|r| + 1] == s[1..][|r|];
      [s[0]] + r
  }

  /** The first match of `[^0-9]*$`: the longest trailing part of the text
      without digits. */
  function TrailingNonDigits(s: string): (r: string)
    ensures |r| <= |s| && r == s[|s| - |r|..] && NoDigits(r)
    ensures |r| < |s| ==> IsDigit(s[|s| - |r| - 1])
    decreases |s|
  {
    if s == [] || IsDigit(s[|s| - 1]) then []
    else
      var r := TrailingNonDigits(s[..|s| - 1]);
      TrailingStep(s, r);
      r + [s[|s| - 1]]
  }

  /** One more non-digit at the end extends the trailing run by it. */
  lemma TrailingStep(s: string, r: string)
    requires |s| > 0 && !IsDigit(s[|s| - 1])
    requires |r| < |s| && r == s[..|s| - 1][|s| - 1 - |r|..] && NoDigits(r)
    requires |r| < |s| - 1 ==> IsDigit(s[|s| - |r| - 2])
    ensures s[|s| - |r| - 1..] == r + [s[|s| - 1]] && NoDigits(r + [s[|s| - 1]])
  {
    var p := s[..|s| - 1];
    assert s == p + [s[|s| - 1]];
    assert s[|s| - |r| - 1..] == p[|p| - |r|..] + [s[|s| - 1]];
  }

  function DigitValue(c: char): nat
    requires IsDigit(c)
  {
    c as int - '0' as int
  }

  function DigitChar(d: nat): char
    requires d < 10
  {
    ('0' as int + d) as char
  }

  /** `parseInt` of a non-empty string of decimal digits. */
  function Value(ds: string): nat
    requires AllDigits(ds)
  {
    if ds == [] then 0 else Value(ds[..|ds| - 1]) * 10 + DigitValue(ds[|ds| - 1])
  }

  /** The decimal text of a whole number, as string concatenation writes it. */
  function Decimal(n: nat): string {
    if n < 10 then [DigitChar(n)] else Decimal(n / 10) + [DigitChar(n % 10)]
  }

  /** Digits as `Decimal` writes them: no leading zero unless the number is 0. */
  predicate Canonical(ds: string) {
    |ds| > 0 && AllDigits(ds) && (ds[0] != '0' || |ds| == 1)
  }

  /** What the observer callback derives from an element's text. */
  datatype Counter = Counter(prefix: string, number: nat, suffix: string)

  /** The callback's set-up: None exactly when the text has no digit
      (`parseInt('')` is NaN and the callback returns); otherwise the number
      is `parseInt` of all the digits, after a digit-free prefix and before
      a digit-free suffix of the text. */
  function Setup(text: string): (r: Option<Counter>)
    ensures r.None? <==> NoDigits(text)
    ensures r.Some? ==> r.value.number == Value(DigitsOf(text))
    ensures r.Some? ==> r.value.prefix <= text && NoDigits(r.value.prefix)
    ensures r.Some? ==> EndsWith(text, r.value.suffix) && NoDigits(r.value.suffix)
  {
    var ds := DigitsOf(text);
    DigitsOfCases(text);
    if ds == [] then None
    else Some(Counter(LeadingNonDigits(text), Value(ds), TrailingNonDigits(text)))
  }

  /** The text shown when the count starts: around a digit-free prefix and
      suffix its only digit is the single `0`. */
  function StartText(c: Counter): (r: string)
    ensures NoDigits(c.prefix) && NoDigits(c.suffix) ==> DigitsOf(r) == "0"
  {
    DigitsOfAppend(c.prefix + "0", c.suffix);
    DigitsOfAppend(c.prefix, "0");
    DigitsOfCases(c.prefix);
    DigitsOfCases(c.suffix);
    assert DigitsOf("0") == "0";
    c.prefix + "0" + c.suffix
  }

  /** The text the count ends on; around a digit-free prefix and suffix its
      only digits are the decimal digits of the number. */
  function FinalText(c: Counter): (r: string)
    ensures NoDigits(c.prefix) && NoDigits(c.suffix) ==> DigitsOf(r) == Decimal(c.number)
  {
    DecimalCanonical(c.number);
    DigitsOfAppend(c.prefix + Decimal(c.number), c.suffix);
    DigitsOfAppend(c.prefix, Decimal(c.number));
    DigitsOfCases(c.prefix);
    DigitsOfCases(c.suffix);
    DigitsOfCases(Decimal(c.number));
    c.prefix + Decimal(c.number) + c.suffix
  }

  // ---------------------------------------------------------------------
  // The digit filter

  lemma {:induction false} DigitsOfAppend(a: string, b: string)
    ensures DigitsOf(a + b) == DigitsOf(a) + DigitsOf(b)
    decreases |a|
  {
    if a != [] {
      assert (a + b)[0] == a[0] && (a + b)[1..] == a[1..] + b;
      DigitsOfAppend(a[1..], b);
    } else {
      assert a + b == b;
    }
  }

  /** The filter finds nothing exactly in a text without digits, and keeps a
      text of digits whole. */
  lemma {:induction false} DigitsOfCases(s: string)
    ensures DigitsOf(s) == [] <==> NoDigits(s)
    ensures AllDigits(s) ==> DigitsOf(s) == s
    decreases |s|
  {
    if s != [] {
      DigitsOfCases(s[1..]);
      if NoDigits(s[1..]) && !IsDigit(s[0]) {
        forall i | 0 <= i < |s| ensures !IsDigit(s[i]) {
          if i > 0 { assert s[i] == s[1..][i - 1]; }
        }
      }
      if AllDigits(s) {
        assert AllDigits(s[1..]) by {
          forall i | 0 <= i < |s| - 1 ensures IsDigit(s[1..][i]) { assert s[1..][i] == s[i + 1]; }
        }
        assert s == [s[0]] + s[1..];
      }
    }
  }

  // ---------------------------------------------------------------------
  // The two runs

  /** No digit comes before the prefix ends. */
  lemma {:induction false} LeadingBefore(s: string, i: int)
    requires 0 <= i < |s| && IsDigit(s[i])
    ensures |LeadingNonDigits(s)| <= i
    decreases |s|
  {
    if !IsDigit(s[0]) {
      assert i > 0;
      assert s[1..][i - 1] == s[i];
      LeadingBefore(s[1..], i - 1);
    }
  }

  /** No digit comes after the suffix begins. */
  lemma {:induction false} TrailingAfter(s: string, i: int)
    requires 0 <= i < |s| && IsDigit(s[i])
    ensures i < |s| - |TrailingNonDigits(s)|
    decreases |s|
  {
    if !IsDigit(s[|s| - 1]) {
      var p := s[..|s| - 1];
      assert i < |p|;
      assert p[i] == s[i];
      TrailingAfter(p, i);
    }
  }

  /** When the text has a digit, it is the prefix, a middle part that
      begins and ends with a digit, and the suffix, and all its digits lie in
      the middle part. */
  lemma Split(text: string) returns (middle: string)
    requires !NoDigits(text)
    ensures text == LeadingNonDigits(text) + middle + TrailingNonDigits(text)
    ensures |middle| > 0 && IsDigit(middle[0]) && IsDigit(middle[|middle| - 1])
    ensures DigitsOf(middle) == DigitsOf(text)
  {
    var i :| 0 <= i < |text| && IsDigit(text[i]);
    Around(text, i);
    MiddleDigits(text, i);
    middle := Cut(text, |LeadingNonDigits(text)|, |text| - |TrailingNonDigits(text)|);
  }

  /** A slice that begins and ends with a digit, and what lies around it. */
  lemma Cut(s: string, a: int, b: int) returns (m: string)
    requires 0 <= a < b <= |s| && IsDigit(s[a]) && IsDigit(s[b - 1])
    ensures m == s[a..b] && s == s[..a] + m + s[b..]
    ensures |m| > 0 && IsDigit(m[0]) && IsDigit(m[|m| - 1])
  {
    m := s[a..b];
    assert s == s[..a] + m + s[b..];
    assert m[0] == s[a] && m[|m| - 1] == s[b - 1];
  }

  /** The prefix and the suffix around a digit at `i`. */
  lemma Around(text: string, i: int)
    requires 0 <= i < |text| && IsDigit(text[i])
    ensures |LeadingNonDigits(text)| <= i < |text| - |TrailingNonDigits(text)|
    ensures IsDigit(text[|LeadingNonDigits(text)|])
    ensures IsDigit(text[|text| - |TrailingNonDigits(text)| - 1])
    ensures text[..|LeadingNonDigits(text)|] == LeadingNonDigits(text)
    ensures text[|text| - |TrailingNonDigits(text)|..] == TrailingNonDigits(text)
  {
    LeadingBefore(text, i);
    TrailingAfter(text, i);
  }

  /** All the digits of a text lie between its prefix and its suffix. */
  lemma MiddleDigits(text: string, i: int)
    requires 0 <= i < |text| && IsDigit(text[i])
    ensures |LeadingNonDigits(text)| <= |text| - |TrailingNonDigits(text)|
    ensures DigitsOf(text[|LeadingNonDigits(text)|..|text| - |TrailingNonDigits(text)|]) == DigitsOf(text)
  {
    Around(text, i);
    var a, b := |LeadingNonDigits(text)|, |text| - |TrailingNonDigits(text)|;
    assert NoDigits(text[..a]) && NoDigits(text[b..]);
    SplitDigits(text, a, b);
  }

  /** Cutting digit-free ends off a text keeps its digits. */
  lemma SplitDigits(text: string, a: int, b: int)
    requires 0 <= a <= b <= |text| && NoDigits(text[..a]) && NoDigits(text[b..])
    ensures DigitsOf(text[a..b]) == DigitsOf(text)
  {
    var pre, mid, suf := text[..a], text[a..b], text[b..];
    assert text == pre + mid + suf;
    Surrounded(pre, mid, suf);
  }

  /** Digit-free text around a middle adds no digits. */
  lemma Surrounded(pre: string, mid: string, suf: string)
    requires NoDigits(pre) && NoDigits(suf)
    ensures DigitsOf(pre + mid + suf) == DigitsOf(mid)
  {
    NoDigitsNone(pre);
    NoDigitsNone(suf);
    DigitsOfAppend(pre + mid, suf);
    DigitsOfAppend(pre, mid);
  }

  lemma NoDigitsNone(s: string)
    requires NoDigits(s)
    ensures DigitsOf(s) == []
  {
    DigitsOfCases(s);
  }

  // ---------------------------------------------------------------------
  // parseInt and the decimal text

  lemma ValueSnoc(ds: string, c: char)
    requires AllDigits(ds) && IsDigit(c)
    ensures AllDigits(ds + [c])
    ensures Value(ds + [c]) == Value(ds) * 10 + DigitValue(c)
  {
    assert (ds + [c])[..|ds|] == ds;
  }

  /** `Decimal` writes canonical digits. */
  lemma {:induction false} DecimalCanonical(n: nat)
    ensures Canonical(Decimal(n))
    ensures Decimal(n)[0] == '0' ==> n == 0
    decreases n
  {
    if n >= 10 {
      var p := Decimal(n / 10);
      DecimalCanonical(n / 10);
      assert Decimal(n) == p + [DigitChar(n % 10)];
      assert Decimal(n)[0] == p[0];
    }
  }

  /** Reading back what `Decimal` wrote gives the number. */
  lemma {:induction false} ValueOfDecimal(n: nat)
    ensures AllDigits(Decimal(n)) && Value(Decimal(n)) == n
    decreases n
  {
    DecimalCanonical(n);
    if n >= 10 {
      ValueOfDecimal(n / 10);
      ValueSnoc(Decimal(n / 10), DigitChar(n % 10));
    }
  }

  lemma {:induction false} ValuePositive(ds: string)
    requires Canonical(ds) && ds[0] != '0'
    ensures Value(ds) > 0
    decreases |ds|
  {
    if |ds| > 1 {
      var p := ds[..|ds| - 1];
      assert p[0] == ds[0];
      ValuePositive(p);
    }
  }

  /** Writing out what `parseInt` read from canonical digits gives those digits. */
  lemma {:induction false} DecimalOfValue(ds: string)
    requires Canonical(ds)
    ensures Decimal(Value(ds)) == ds
    decreases |ds|
  {
    if |ds| > 1 {
      var p, c := ds[..|ds| - 1], ds[|ds| - 1];
      assert p[0] == ds[0];
      ValuePositive(p);
      DecimalOfValue(p);
      var v := Value(ds);
      assert v == Value(p) * 10 + DigitValue(c);
      assert v / 10 == Value(p) && v % 10 == DigitValue(c);
      assert ds == p + [c];
    }
  }

  // ---------------------------------------------------------------------
  // What the animation shows

  /** The final text is the original text exactly when the part between the
      prefix and the suffix is the number written canonically: separators
      inside the number ("1.250") and leading zeros ("007") are lost. */
  lemma FinalTextIff(text: string, middle: string)
    requires Setup(text).Some?
    requires text == Setup(text).value.prefix + middle + Setup(text).value.suffix
    ensures FinalText(Setup(text).value) == text <==> Canonical(middle)
  {
    var c := Setup(text).value;
    Surrounded(c.prefix, middle, c.suffix);
    if Canonical(middle) {
      DigitsOfCases(middle);
      DecimalOfValue(middle);
    }
    if FinalText(c) == text {
      SameMiddle(c.prefix, Decimal(c.number), middle, c.suffix);
      DecimalCanonical(c.number);
    }
  }

  /** Two texts with the same ends have the same middles. */
  lemma SameMiddle(p: string, x: string, y: string, s: string)
    requires p + x + s == p + y + s
    ensures x == y
  {
    assert |x| == |y|;
    assert x == (p + x + s)[|p|..|p| + |x|];
    assert y == (p + y + s)[|p|..|p| + |y|];
  }

  /** A price: "€ 49,-" counts up to 49 and ends in its own text. */
  lemma Examples()
    ensures Setup("€ 49,-") == Some(Counter("€ ", 49, ",-"))
    ensures FinalText(Setup("€ 49,-").value) == "€ 49,-"
  {
    PriceParts();
    assert "€ 49,-" == "€ " + "49" + ",-";
    FinalTextIff("€ 49,-", "49");
  }

  lemma PriceParts()
    ensures DigitsOf("€ 49,-") == "49" && Value("49") == 49
    ensures LeadingNonDigits("€ 49,-") == "€ " && TrailingNonDigits("€ 49,-") == ",-"
  {
    assert DigitsOf("€ 49,-") == "49";
    assert LeadingNonDigits("€ 49,-") == "€ ";
    assert TrailingNonDigits("€ 49,-") == ",-";
    assert "49"[..1] == "4";
  }

  /** A text without digits is left alone. */
  lemma NoNumberExample()
    ensures Setup("n.v.t.").None?
  {
    assert DigitsOf("n.v.t.") == [];
  }

  /** "1.250+" counts to 1250 and ends on "1250+", not on the original:
      the separator is lost. */
  lemma SeparatorLost()
    ensures Setup("1.250+") == Some(Counter("", 1250, "+"))
    ensures FinalText(Setup("1.250+").value) == "1250+"
    ensures FinalText(Setup("1.250+").value) != "1.250+"
  {
    var ds := DigitsOf("1.250+");
    assert DigitsOf("+") == "";
    assert DigitsOf("0+") == "0";
    assert DigitsOf("50+") == "50";
    assert DigitsOf("250+") == "250";
    assert DigitsOf(".250+") == "250";
    assert ds == "1250";
    ValueOf1250();
    assert LeadingNonDigits("1.250+") == "";
    assert TrailingNonDigits("1.250+") == "+";
    assert "1.250+" == "" + "1.250" + "+";
    assert !IsDigit("1.250"[1]);
    FinalTextIff("1.250+", "1.250");
    ValueOfDecimal(1250);
    DecimalOfValue("1250");
  }

  lemma ValueOf1250()
    ensures AllDigits("1250") && Value("1250") == 1250
  {
    assert "1250"[..3] == "125";
    assert "125"[..2] == "12";
    assert "12"[..1] == "1";
  }
}
