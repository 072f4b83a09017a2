/** The per-field rule chain of `validateField` (script.js:301-328): the
    required check first, then one check chosen by the field's kind, each
    applied to the trimmed value. The chain finds a `Problem` or none; the
    message `validateField` sets is that problem's (never empty) text, and no
    message means the field is valid. */
module Validation {
  import opened Text
  import opened Wrappers

  /** What `validateField` reads from an input, textarea or select element. */
  datatype FieldInput = FieldInput(
    name: string,      // the `name` property ("" when the attribute is absent)
    typ: string,       // the `type` property ("textarea" for a textarea, "select-one" for a select)
    tagName: string,   // upper-case tag name
    required: bool,    // has the `required` attribute
    value: string)     // the current value, untrimmed

  /** The check that applies to a field, chosen by the first matching rule. */
  datatype Kind = Email | Tel | PersonName | TextArea | Other

  /** The reason a field is rejected, one per message of the rule chain. */
  datatype Problem = Missing | BadEmail | BadTel | BadName | TooShort

  /** The Dutch message shown for each problem. */
  function Message(p: Problem): string {
    match p
    case Missing => "Dit veld is verplicht"
    case BadEmail => "Voer een geldig e-mailadres in"
    case BadTel => "Voer een geldig telefoonnummer in (10-20 tekens)"
    case BadName => "Naam mag alleen letters, spaties en koppeltekens bevatten (2-50 tekens)"
    case TooShort => "Bericht moet minimaal 10 tekens bevatten"
  }

  predicate IsEmailField(f: FieldInput) {
    var n := Lower(f.name);
    f.typ == "email" || Contains(n, "email") || Contains(n, "e-mail")
  }

  predicate IsTelField(f: FieldInput) {
    var n := Lower(f.name);
    f.typ == "tel" || Contains(n, "phone") || Contains(n, "tel")
  }

  predicate IsNameField(f: FieldInput) {
    var n := Lower(f.name);
    Contains(n, "name") || Contains(n, "naam")
  }

  predicate IsTextAreaField(f: FieldInput) {
    f.typ == "textarea" || f.tagName == "TEXTAREA"
  }

  /** The kind, by the fixed precedence email, telephone, name, textarea. */
  function KindOf(f: FieldInput): (k: Kind)
    ensures k == Email <==> IsEmailField(f)
    ensures k == Tel <==> !IsEmailField(f) && IsTelField(f)
    ensures k == PersonName <==> !IsEmailField(f) && !IsTelField(f) && IsNameField(f)
    ensures k == TextArea <==> !IsEmailField(f) && !IsTelField(f) && !IsNameField(f) && IsTextAreaField(f)
  {
    if IsEmailField(f) then Email
    else if IsTelField(f) then Tel
    else if IsNameField(f) then PersonName
    else if IsTextAreaField(f) then TextArea
    else Other
  }

  // ---------------------------------------------------------------------
  // The e-mail pattern /^[^\s@]+@[^\s@]+\.[^\s@]+$/

  /** `[^\s@]*`: no white space and no `@`. */
  predicate Plain(s: string) {
    forall i :: 0 <= i < |s| ==> !IsSpace(s[i]) && s[i] != '@'
  }

  /** What the pattern means: `v` is `local@d1.d2` with all three parts
      non-empty and plain (`d1` may itself contain dots). */
  predicate EmailSplit(v: string, at: int, dot: int) {
    0 < at && at + 1 < dot && dot + 1 < |v| && v[at] == '@' && v[dot] == '.'
    && Plain(v[..at]) && Plain(v[at + 1..dot]) && Plain(v[dot + 1..])
  }

  ghost predicate EmailShape(v: string) {
    exists at, dot :: EmailSplit(v, at, dot)
  }

  /** The states of a left-to-right matcher for the pattern. */
  datatype EmailState =
    | Start       // nothing read
    | InLocal     // at least one local character read
    | AfterAt     // `@` read, no domain character yet
    | InDomain    // at least one domain character read, no usable dot yet
    | AfterDot    // a dot read after at least one domain character
    | InTld       // at least one character read after that dot: accepting

  function EmailStep(q: EmailState, c: char): Option<EmailState> {
    if c == '@' then (if q == InLocal then Some(AfterAt) else None)
    else if IsSpace(c) then None
    else match q
      case Start => Some(InLocal)
      case InLocal => Some(InLocal)
      case AfterAt => Some(InDomain)
      case InDomain => Some(if c == '.' then AfterDot else InDomain)
      case AfterDot => Some(InTld)
      case InTld => Some(InTld)
  }

  predicate EmailRun(q: EmailState, s: string)
    decreases |s|
  {
    if s == [] then q == InTld
    else match EmailStep(q, s[0])
      case None => false
      case Some(q') => EmailRun(q', s[1..])
  }

  /** `emailPattern.test(v)`: the matcher accepts exactly the values of the
      form `local@d1.d2`. */
  predicate EmailMatches(v: string): (b: bool)
    ensures b <==> EmailShape(v)
  {
    StartShape(v);
    EmailRun(Start, v)
  }

  /** A dot at `j` with at least one character after it. */
  predicate DotAt(s: string, j: int) {
    0 <= j && j + 1 < |s| && s[j] == '.'
  }

  /** The part after `@`: `[^\s@]+\.[^\s@]+`. */
  ghost predicate DomainOk(d: string) {
    Plain(d) && exists j :: 1 <= j && DotAt(d, j)
  }

  /** An `@` at `at` with a plain local part before it and a well-formed domain after. */
  ghost predicate AtSplit(s: string, at: int) {
    0 <= at < |s| && s[at] == '@' && Plain(s[..at]) && DomainOk(s[at + 1..])
  }

  lemma PlainCons(s: string)
    requires |s| > 0
    ensures Plain(s) <==> !IsSpace(s[0]) && s[0] != '@' && Plain(s[1..])
  {
    if !IsSpace(s[0]) && s[0] != '@' && Plain(s[1..]) {
      forall i | 0 <= i < |s| ensures !IsSpace(s[i]) && s[i] != '@' {
        if i > 0 { assert s[i] == s[1..][i - 1]; }
      }
    }
  }

  lemma PlainSplit(s: string, k: nat)
    requires k <= |s|
    ensures Plain(s) <==> Plain(s[..k]) && Plain(s[k..])
  {
    if Plain(s[..k]) && Plain(s[k..]) {
      forall i | 0 <= i < |s| ensures !IsSpace(s[i]) && s[i] != '@' {
        if i < k { assert s[i] == s[..k][i]; } else { assert s[i] == s[k..][i - k]; }
      }
    }
  }

  lemma {:induction false} RunInTld(s: string)
    ensures EmailRun(InTld, s) <==> Plain(s)
    decreases |s|
  {
    if s != [] {
      PlainCons(s);
      RunInTld(s[1..]);
    }
  }

  lemma RunAfterDot(s: string)
    ensures EmailRun(AfterDot, s) <==> |s| >= 1 && Plain(s)
  {
    if s != [] {
      PlainCons(s);
      RunInTld(s[1..]);
    }
  }

  lemma {:induction false} RunInDomain(s: string)
    ensures EmailRun(InDomain, s) <==> Plain(s) && exists j :: DotAt(s, j)
    decreases |s|
  {
    if s != [] {
      PlainCons(s);
      var t := s[1..];
      RunInDomain(t);
      if s[0] == '.' {
        RunAfterDot(t);
        if |t| >= 1 { assert DotAt(s, 0); }
      } else {
        if exists j :: DotAt(t, j) {
          var j :| DotAt(t, j);
          assert DotAt(s, j + 1);
        }
        if exists j :: DotAt(s, j) {
          var j :| DotAt(s, j);
          assert j > 0 && DotAt(t, j - 1);
        }
      }
    }
  }

  lemma RunAfterAt(s: string)
    ensures EmailRun(AfterAt, s) <==> DomainOk(s)
  {
    if s != [] {
      PlainCons(s);
      var t := s[1..];
      RunInDomain(t);
      if exists j :: DotAt(t, j) {
        var j :| DotAt(t, j);
        assert DotAt(s, j + 1);
      }
      if exists j :: 1 <= j && DotAt(s, j) {
        var j :| 1 <= j && DotAt(s, j);
        assert DotAt(t, j - 1);
      }
    }
  }

  /** Prepending one plain character moves the `@` one place right. */
  lemma AtSplitShift(s: string, at: int)
    requires |s| > 0 && !IsSpace(s[0]) && s[0] != '@' && 0 <= at
    ensures AtSplit(s[1..], at) <==> AtSplit(s, at + 1)
  {
    if at + 1 < |s| {
      var t := s[1..];
      PlainCons(s[..at + 1]);
      assert s[..at + 1][1..] == t[..at];
      assert s[at + 2..] == t[at + 1..];
    }
  }

  lemma {:induction false} RunInLocal(s: string)
    ensures EmailRun(InLocal, s) <==> exists at :: AtSplit(s, at)
    decreases |s|
  {
    if s != [] {
      var t := s[1..];
      if s[0] == '@' {
        RunAfterAt(t);
        assert AtSplit(s, 0) <==> DomainOk(t);
      } else if !IsSpace(s[0]) {
        RunInLocal(t);
        if exists at :: AtSplit(t, at) {
          var at :| AtSplit(t, at);
          AtSplitShift(s, at);
        }
        if exists at :: AtSplit(s, at) {
          var at :| AtSplit(s, at);
          AtSplitShift(s, at - 1);
        }
      }
    }
  }

  lemma RunStart(s: string)
    ensures EmailRun(Start, s) <==> exists at :: 1 <= at && AtSplit(s, at)
  {
    if s != [] {
      var t := s[1..];
      if IsSpace(s[0]) || s[0] == '@' {
        if exists at :: 1 <= at && AtSplit(s, at) {
          var at :| 1 <= at && AtSplit(s, at);
          assert s[..at][0] == s[0];
        }
      } else {
        RunInLocal(t);
        if exists at :: AtSplit(t, at) {
          var at :| AtSplit(t, at);
          AtSplitShift(s, at);
        }
        if exists at :: 1 <= at && AtSplit(s, at) {
          var at :| 1 <= at && AtSplit(s, at);
          AtSplitShift(s, at - 1);
        }
      }
    }
  }

  /** A run from the start state succeeds exactly on the values of the form
      `local@d1.d2`. */
  lemma StartShape(v: string)
    ensures EmailRun(Start, v) <==> EmailShape(v)
  {
    RunStart(v);
    if exists at :: 1 <= at && AtSplit(v, at) {
      var at :| 1 <= at && AtSplit(v, at);
      var j := ShapeFromAt(v, at);
    }
    if EmailShape(v) {
      var at, dot :| EmailSplit(v, at, dot);
      AtFromShape(v, at, dot);
    }
  }

  /** An `@` split with a well-formed domain names the dot of the shape. */
  lemma ShapeFromAt(v: string, at: int) returns (dot: int)
    requires 1 <= at && AtSplit(v, at)
    ensures EmailSplit(v, at, dot)
  {
    var d := v[at + 1..];
    var j :| 1 <= j && DotAt(d, j);
    PlainSplit(d, j);
    PlainCons(d[j..]);
    assert d[..j] == v[at + 1..at + 1 + j];
    assert d[j..][1..] == v[at + 1 + j + 1..];
    dot := at + 1 + j;
  }

  /** The `@` of the shape splits the value with a well-formed domain. */
  lemma AtFromShape(v: string, at: int, dot: int)
    requires EmailSplit(v, at, dot)
    ensures AtSplit(v, at)
  {
    var d := v[at + 1..];
    var j := dot - at - 1;
    AsciiSpace('.');
    assert DotAt(d, j);
    assert d[..j] == v[at + 1..dot];
    assert d[j..][1..] == v[dot + 1..];
    PlainCons(d[j..]);
    PlainSplit(d, j);
  }

  // ---------------------------------------------------------------------
  // The telephone pattern /^[\+\d\s\(\)\-]{10,20}$/ and the name pattern
  // /^[a-zA-ZÀ-ÿ\s\-']{2,50}$/. Every character these classes admit lies in
  // the Basic Multilingual Plane, so on a value they accept the UTF-16 length
  // the quantifier counts equals the number of characters, and a value with
  // any other character is rejected either way.

  predicate TelChar(c: char) {
    IsDigit(c) || c == '+' || IsSpace(c) || c == '(' || c == ')' || c == '-'
  }

  /** `telPattern.test(v)`: 10 to 20 code units, all from the class. */
  predicate TelMatches(v: string): (b: bool)
    ensures b <==> 10 <= Utf16Length(v) <= 20 && forall i :: 0 <= i < |v| ==> TelChar(v[i])
  {
    (forall i :: 0 <= i < |v| ==> TelChar(v[i])) && (TelBmp(v); 10 <= |v| <= 20)
  }

  lemma TelBmp(v: string)
    requires forall i :: 0 <= i < |v| ==> TelChar(v[i])
    ensures Utf16Length(v) == |v|
  {
    forall i | 0 <= i < |v| ensures v[i] as int < 0x10000 {
      IsSpaceIff(v[i]);
    }
    BmpLength(v);
  }

  /** `À-ÿ` is U+00C0..U+00FF, which includes `×` and `÷`. */
  predicate NameChar(c: char) {
    ('a' <= c <= 'z') || ('A' <= c <= 'Z') || (0xC0 <= c as int <= 0xFF)
    || IsSpace(c) || c == '-' || c == '\''
  }

  /** `namePattern.test(v)`: 2 to 50 code units, all from the class. */
  predicate NameMatches(v: string): (b: bool)
    ensures b <==> 2 <= Utf16Length(v) <= 50 && forall i :: 0 <= i < |v| ==> NameChar(v[i])
  {
    (forall i :: 0 <= i < |v| ==> NameChar(v[i])) && (NameBmp(v); 2 <= |v| <= 50)
  }

  lemma NameBmp(v: string)
    requires forall i :: 0 <= i < |v| ==> NameChar(v[i])
    ensures Utf16Length(v) == |v|
  {
    forall i | 0 <= i < |v| ensures v[i] as int < 0x10000 {
      IsSpaceIff(v[i]);
    }
    BmpLength(v);
  }

  // ---------------------------------------------------------------------
  // The rule chain

  /** The problem the rule chain finds; None when the field is valid. Only
      a required field can miss its value, and any other problem is the one
      of the check the field's kind selects. */
  function Check(f: FieldInput): (r: Option<Problem>)
    ensures r == Some(Missing) ==> f.required
    ensures r.Some? ==> r == Some(Missing) || r == KindProblem(KindOf(f))
  {
    var v := Trim(f.value);
    if f.required && v == "" then Some(Missing)
    else match KindOf(f)
      case Email => if v != "" && !EmailMatches(v) then Some(BadEmail) else None
      case Tel => if v != "" && !TelMatches(v) then Some(BadTel) else None
      case PersonName => if v != "" && !NameMatches(v) then Some(BadName) else None
      case TextArea => if v != "" && Utf16Length(v) < 10 then Some(TooShort) else None
      case Other => None
  }

  /** The boolean `validateField` returns: true exactly when no message was
      set, that is, when the chain finds no problem. */
  predicate Accepted(f: FieldInput) {
    Check(f) == None
  }

  /** What each kind's check accepts, stated by the patterns' meaning. */
  ghost predicate KindAccepts(k: Kind, v: string) {
    match k
    case Email => EmailShape(v)
    case Tel => TelMatches(v)
    case PersonName => NameMatches(v)
    case TextArea => Utf16Length(v) >= 10
    case Other => true
  }

  /** The problem each kind's check reports. */
  ghost function KindProblem(k: Kind): Option<Problem> {
    match k
    case Email => Some(BadEmail)
    case Tel => Some(BadTel)
    case PersonName => Some(BadName)
    case TextArea => Some(TooShort)
    case Other => None
  }

  /** A required field whose value is blank gets the required message,
      whatever its kind. */
  lemma RequiredBlankRejected(f: FieldInput)
    requires f.required && AllSpace(f.value)
    ensures Check(f) == Some(Missing)
  {
    TrimEmptyIff(f.value);
  }

  /** A blank optional field is always valid. */
  lemma BlankOptionalAccepted(f: FieldInput)
    requires !f.required && AllSpace(f.value)
    ensures Check(f) == None
  {
    TrimEmptyIff(f.value);
  }

  /** A field with a non-blank value is valid exactly when its trimmed value
      passes the one check its kind selects, and otherwise carries that
      check's message. */
  lemma NonBlankVerdict(f: FieldInput)
    requires !AllSpace(f.value)
    ensures Accepted(f) <==> KindAccepts(KindOf(f), Trim(f.value))
    ensures !Accepted(f) ==> Check(f) == KindProblem(KindOf(f))
  {
    TrimEmptyIff(f.value);
  }

  /** A textarea's value is rejected by the length rule exactly when its
      trimmed UTF-16 length is between 1 and 9. */
  lemma TextAreaRule(f: FieldInput)
    requires KindOf(f) == TextArea
    ensures Check(f) == Some(TooShort) <==> 1 <= Utf16Length(Trim(f.value)) <= 9
  {
  }

  /** The precedence in action: a field named "hotel_name" is checked only as
      a telephone number ("tel" occurs in it), never as a name. */
  lemma HotelNameIsTel(typ: string, tagName: string, required: bool, value: string)
    requires typ != "email"
    ensures KindOf(FieldInput("hotel_name", typ, tagName, required, value)) == Tel
  {
    var n := Lower("hotel_name");
    assert n == "hotel_name";
    assert OccursAt(n, "tel", 2);
    OccursContains(n, "tel", 2);
    NotContains(n, "email");
    NotContains(n, "e-mail");
  }

  /** No occurrence of `t` whose first character is followed by the wrong
      character: used to rule out "email" and "e-mail" in "hotel_name". */
  lemma NotContains(n: string, t: string)
    requires n == "hotel_name" && (t == "email" || t == "e-mail")
    ensures !Contains(n, t)
  {
    forall i | 0 <= i && i + |t| <= |n| ensures !OccursAt(n, t, i) {
      assert n[i..i + |t|][0] == n[i] && n[i..i + |t|][1] == n[i + 1];
    }
    ContainsIff(n, t);
  }

  /** The e-mail examples: "a@b.co" passes, "a@b" and "a b@c.d" do not. */
  lemma EmailExamples()
    ensures EmailMatches("a@b.co")
    ensures !EmailMatches("a@b")
    ensures !EmailMatches("a b@c.d")
  {
    AsciiSpace('a'); AsciiSpace('b'); AsciiSpace('c'); AsciiSpace('o'); AsciiSpace('.'); AsciiSpace(' ');
    assert EmailRun(InLocal, "@b.co") && !EmailRun(InLocal, "@b") && !EmailRun(InLocal, " b@c.d");
  }

  /** The telephone examples: "+31 6 1234 5678" (15 characters) passes,
      "123" is too short. */
  lemma TelExamples()
    ensures TelMatches("+31 6 1234 5678")
    ensures !TelMatches("123")
  {
    var v := "+31 6 1234 5678";
    AsciiSpace(' ');
    assert forall i :: 0 <= i < |v| ==> TelChar(v[i]);
    TelBmp(v);
  }

  /** The name examples: "Jean-Luc" passes, "X7" holds a digit. */
  lemma NameExamples()
    ensures NameMatches("Jean-Luc")
    ensures !NameMatches("X7")
  {
    var v := "Jean-Luc";
    forall i | 0 <= i < |v| ensures NameChar(v[i]) {
      AsciiSpace(v[i]);
    }
    NameBmp(v);
    AsciiSpace('7');
    assert !NameChar("X7"[1]);
  }
}
