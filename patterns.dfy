/**
 * The two regular expressions of the contact form's rule table, each given
 * twice: as a decision procedure the validator runs (IsEmail, IsPhone), and as
 * a reference definition that follows the shape of the regex itself
 * (EmailRegex, PhoneRegex). The lemmas prove the two agree on every string.
 */
module Patterns {
  import opened Text

  // ---------------------------------------------------------------------
  // E-mail: /^[^\s@]+@[^\s@]+\.[^\s@]+$/
  // ---------------------------------------------------------------------

  /** The regex class `[^\s@]`. */
  predicate EmailChar(c: char) {
    !IsWhitespace(c) && c != '@'
  }

  /** `s` splits as local part, `@` at `at`, a domain label, `.` at `dot`, and a
      last label, each part one or more characters of `[^\s@]`. */
  predicate EmailSplit(s: string, at: int, dot: int) {
    && 0 < at && at + 1 < dot && dot + 1 < |s|
    && s[at] == '@' && s[dot] == '.'
    && forall k :: 0 <= k < |s| && k != at ==> EmailChar(s[k])
  }

  /** The e-mail regex: some way of splitting `s` matches every part. */
  ghost predicate EmailRegex(s: string) {
    exists at, dot :: EmailSplit(s, at, dot)
  }

  /** A `.` with at least one character on either side of it in `d`. */
  predicate HasInnerDot(d: string) {
    3 <= |d| && IndexOf(d[1..|d| - 1], '.') < |d| - 2
  }

  lemma HasInnerDotIff(d: string)
    ensures HasInnerDot(d) <==> exists k :: 0 < k < |d| - 1 && d[k] == '.'
  {
    if 3 <= |d| {
      var inner := d[1..|d| - 1];
      if HasInnerDot(d) {
        var j := IndexOf(inner, '.');
        assert d[j + 1] == inner[j];
      }
      if exists k :: 0 < k < |d| - 1 && d[k] == '.' {
        var k :| 0 < k < |d| - 1 && d[k] == '.';
        assert inner[k - 1] == '.';
      }
    }
  }

  /** The e-mail check as a decision: no whitespace, exactly one `@`, a
      non-empty local part, and a `.` strictly inside the domain. */
  predicate IsEmail(s: string) {
    && NoWhitespace(s)
    && Count(s, '@') == 1
    && 0 < IndexOf(s, '@') < |s|
    && HasInnerDot(s[IndexOf(s, '@') + 1..])
  }

  /** The decision accepts exactly the strings the regex matches. */
  lemma IsEmailIffRegex(s: string)
    ensures IsEmail(s) <==> EmailRegex(s)
  {
    var at := IndexOf(s, '@');
    CountOne(s, '@');
    NoWhitespaceIff(s);
    if at < |s| {
      HasInnerDotIff(s[at + 1..]);
    }
    if IsEmail(s) {
      var d := s[at + 1..];
      var k :| 0 < k < |d| - 1 && d[k] == '.';
      assert EmailSplit(s, at, at + 1 + k);
    }
    if EmailRegex(s) {
      var a, dot :| EmailSplit(s, a, dot);
      assert a == at;
      assert s[at + 1..][dot - at - 1] == '.';
    }
  }

  /** Sample addresses the e-mail check accepts and rejects. */
  lemma EmailExamples()
    ensures EmailRegex("a@b.co")
    ensures !EmailRegex("a@b") && !EmailRegex("a.com")
  {
    assert EmailSplit("a@b.co", 1, 3);
    IsEmailIffRegex("a@b");
    IsEmailIffRegex("a.com");
  }

  // ---------------------------------------------------------------------
  // Phone: /^(\+420)?[ ]?[0-9]{3}[ ]?[0-9]{3}[ ]?[0-9]{3}$/
  // ---------------------------------------------------------------------

  const CountryCode: string := "+420"

  /** `s` is `n` groups, each an optional single space and three digits. */
  predicate DigitGroups(s: string, n: nat)
    decreases n
  {
    if n == 0 then s == []
    else
      var t := if s != [] && s[0] == ' ' then s[1..] else s;
      3 <= |t| && IsDigit(t[0]) && IsDigit(t[1]) && IsDigit(t[2]) && DigitGroups(t[3..], n - 1)
  }

  /** The phone check as a decision: an optional `+420`, then three groups. A
      `+` can start neither a group nor a space, so taking the prefix whenever
      it is there loses no match. */
  predicate IsPhone(s: string) {
    DigitGroups(if |s| >= 4 && s[..4] == CountryCode then s[4..] else s, 3)
  }

  /** One position of the regex once its optional parts are decided. */
  datatype Slot = AnyDigit | Exactly(c: char)

  predicate Admits(slot: Slot, c: char) {
    match slot
    case AnyDigit => IsDigit(c)
    case Exactly(d) => c == d
  }

  predicate Fits(s: string, shape: seq<Slot>) {
    |s| == |shape| && forall k :: 0 <= k < |s| ==> Admits(shape[k], s[k])
  }

  /** `[ ]?[0-9]{3}` with the space taken or not. */
  function Group(space: bool): seq<Slot> {
    (if space then [Exactly(' ')] else []) + [AnyDigit, AnyDigit, AnyDigit]
  }

  function Groups(spaces: seq<bool>): seq<Slot> {
    if spaces == [] then [] else Group(spaces[0]) + Groups(spaces[1..])
  }

  function PhoneShape(countryCode: bool, spaces: seq<bool>): seq<Slot> {
    (if countryCode then [Exactly('+'), Exactly('4'), Exactly('2'), Exactly('0')] else [])
    + Groups(spaces)
  }

  /** The phone regex: some choice of its four optional parts fits `s`. */
  ghost predicate PhoneRegex(s: string) {
    exists countryCode: bool, spaces: seq<bool> ::
      |spaces| == 3 && Fits(s, PhoneShape(countryCode, spaces))
  }

  lemma FitsAppend(s: string, a: seq<Slot>, b: seq<Slot>)
    ensures Fits(s, a + b) <==>
      (|a| <= |s| && Fits(s[..|a|], a) && Fits(s[|a|..], b))
  {
    if |a| <= |s| && Fits(s[..|a|], a) && Fits(s[|a|..], b) {
      forall k | 0 <= k < |s| ensures Admits((a + b)[k], s[k]) {
        if k < |a| { assert s[..|a|][k] == s[k]; } else { assert s[|a|..][k - |a|] == s[k]; }
      }
    }
  }

  lemma {:induction false} GroupsLength(spaces: seq<bool>)
    ensures 3 * |spaces| <= |Groups(spaces)| <= 4 * |spaces|
  {
    if spaces != [] {
      GroupsLength(spaces[1..]);
    }
  }

  /** A string that fits the groups' shape passes the decision. */
  lemma {:induction false} FitsGroups(s: string, spaces: seq<bool>)
    requires Fits(s, Groups(spaces))
    ensures DigitGroups(s, |spaces|)
  {
    if spaces != [] {
      var g := Group(spaces[0]);
      FitsAppend(s, g, Groups(spaces[1..]));
      var t := if s != [] && s[0] == ' ' then s[1..] else s;
      assert s[..|g|][0] == s[0];
      assert t[..3] == s[..|g|][|g| - 3..];
      assert t[3..] == s[|g|..];
      FitsGroups(s[|g|..], spaces[1..]);
    }
  }

  /** One group: an optional space, then three digits. */
  lemma GroupFits(x: string, space: bool)
    requires |x| == |Group(space)|
    requires space ==> x[0] == ' '
    requires IsDigit(x[|x| - 3]) && IsDigit(x[|x| - 2]) && IsDigit(x[|x| - 1])
    ensures Fits(x, Group(space))
  {
  }

  /** A string that passes the decision fits the shape given by its spaces. */
  lemma {:induction false} GroupsFit(s: string, n: nat) returns (spaces: seq<bool>)
    requires DigitGroups(s, n)
    ensures |spaces| == n && Fits(s, Groups(spaces))
    decreases n
  {
    if n == 0 {
      spaces := [];
    } else {
      var space := s != [] && s[0] == ' ';
      var t := if space then s[1..] else s;
      var rest := GroupsFit(t[3..], n - 1);
      spaces := [space] + rest;
      var g := Group(space);
      assert Groups(spaces) == g + Groups(rest) by {
        assert spaces[0] == space && spaces[1..] == rest;
      }
      var head := s[..|g|];
      assert head[|g| - 3..] == t[..3];
      GroupFits(head, space);
      assert s[|g|..] == t[3..];
      FitsAppend(s, g, Groups(rest));
    }
  }

  const CountryCodeShape: seq<Slot> := [Exactly('+'), Exactly('4'), Exactly('2'), Exactly('0')]

  /** Every string the decision accepts matches the regex. */
  lemma IsPhoneMatchesRegex(s: string)
    requires IsPhone(s)
    ensures PhoneRegex(s)
  {
    var cc := |s| >= 4 && s[..4] == CountryCode;
    var rest := if cc then s[4..] else s;
    var spaces := GroupsFit(rest, 3);
    if cc {
      FitsAppend(s, CountryCodeShape, Groups(spaces));
    }
    assert Fits(s, PhoneShape(cc, spaces));
  }

  /** Every string the regex matches passes the decision. */
  lemma RegexMatchesIsPhone(s: string)
    requires PhoneRegex(s)
    ensures IsPhone(s)
  {
    var cc: bool, spaces: seq<bool> :| |spaces| == 3 && Fits(s, PhoneShape(cc, spaces));
    var groups := Groups(spaces);
    if cc {
      FitsAppend(s, CountryCodeShape, groups);
      var prefix := s[..4];
      assert prefix[0] == '+' && prefix[1] == '4' && prefix[2] == '2' && prefix[3] == '0';
      assert prefix == CountryCode;
      FitsGroups(s[4..], spaces);
    } else {
      assert PhoneShape(cc, spaces) == groups;
      FitsGroups(s, spaces);
      assert groups[0] == Group(spaces[0])[0];
      assert s[0] == ' ' || IsDigit(s[0]);
    }
  }

  /** The decision accepts exactly the strings the regex matches. */
  lemma IsPhoneIffRegex(s: string)
    ensures IsPhone(s) <==> PhoneRegex(s)
  {
    if IsPhone(s) {
      IsPhoneMatchesRegex(s);
    }
    if PhoneRegex(s) {
      RegexMatchesIsPhone(s);
    }
  }

  /** Every accepted phone number has between 9 and 16 characters. */
  lemma PhoneLength(s: string)
    requires PhoneRegex(s)
    ensures 9 <= |s| <= 16
  {
    var cc: bool, spaces: seq<bool> :| |spaces| == 3 && Fits(s, PhoneShape(cc, spaces));
    GroupsLength(spaces);
  }

  /** Sample numbers the phone check accepts (with and without the country
      code and the spaces) and a too-short one it rejects. */
  lemma PhoneExamples()
    ensures PhoneRegex("+420 123 456 789") && PhoneRegex("123456789")
    ensures PhoneRegex("123 456 789") && PhoneRegex("+420123456789")
    ensures !PhoneRegex("12345")
  {
    assert Fits("+420 123 456 789", PhoneShape(true, [true, true, true]));
    assert Fits("123456789", PhoneShape(false, [false, false, false]));
    assert Fits("123 456 789", PhoneShape(false, [false, true, true]));
    assert Fits("+420123456789", PhoneShape(true, [false, false, false]));
    if PhoneRegex("12345") {
      PhoneLength("12345");
    }
  }
}
