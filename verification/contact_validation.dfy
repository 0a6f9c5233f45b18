/**
 * The rules of the contact form (class `ContactForm`, js/contact.js): the e-mail
 * and phone checks, the ordered chain of field rules of `validateField`, and the
 * checks its real-time `input` listeners apply while the visitor types.
 */
module ContactValidation {
  import opened Wrappers
  import opened JsString

  // ---------------------------------------------------------------- e-mail

  /** A character of the runs `[^\s@]+` of the e-mail pattern. */
  predicate EmailChar(c: char) {
    !IsWhitespace(c) && c != '@'
  }

  /** The position of the first `c` in `s`, if there is one. */
  function IndexOf(s: string, c: char): (r: Option<nat>)
    ensures r.None? ==> forall k :: 0 <= k < |s| ==> s[k] != c
    ensures r.Some? ==> r.value < |s| && s[r.value] == c
                        && forall k :: 0 <= k < r.value ==> s[k] != c
  {
    if s == [] then None
    else if s[0] == c then Some(0)
    else match IndexOf(s[1..], c)
      case None => None
      case Some(i) => Some(i + 1)
  }

  /** `d` holds a '.' with at least one character on each side. */
  predicate HasInnerDot(d: string) {
    exists k :: 0 < k < |d| - 1 && d[k] == '.'
  }

  /** `isValidEmail`: no white space anywhere, a first '@' with text before it,
      no second '@', and a domain with a '.' that has text on both sides. */
  function IsValidEmail(email: string): bool {
    NoWhitespace(email) &&
    match IndexOf(email, '@')
    case None => false
    case Some(at) =>
      var domain := email[at + 1..];
      at > 0 && IndexOf(domain, '@').None? && HasInnerDot(domain)
  }

  /** A way for `s` to match `/^[^\s@]+@[^\s@]+\.[^\s@]+$/`: the '@' at `at`
      and the literal '.' at `dot` split `s` into three non-empty runs, and every
      character but the '@' is neither white space nor '@'. */
  ghost predicate EmailSplit(s: string, at: int, dot: int) {
    && 0 < at && at + 1 < dot && dot + 1 < |s|
    && s[at] == '@' && s[dot] == '.'
    && forall k :: 0 <= k < |s| && k != at ==> EmailChar(s[k])
  }

  ghost predicate MatchesEmailPattern(s: string) {
    exists at, dot :: EmailSplit(s, at, dot)
  }

  /** `isValidEmail` accepts exactly the strings its regular expression matches. */
  lemma IsValidEmailMatchesPattern(s: string)
    ensures IsValidEmail(s) <==> MatchesEmailPattern(s)
  {
    if IsValidEmail(s) {
      var at := IndexOf(s, '@').value;
      var domain := s[at + 1..];
      var k :| 0 < k < |domain| - 1 && domain[k] == '.';
      assert forall j :: at < j < |s| ==> s[j] == domain[j - at - 1];
      assert EmailSplit(s, at, at + 1 + k);
    }
    if MatchesEmailPattern(s) {
      var at, dot :| EmailSplit(s, at, dot);
      var first := IndexOf(s, '@');
      assert first == Some(at);
      var domain := s[at + 1..];
      assert domain[dot - at - 1] == '.';
      var second := IndexOf(domain, '@');
      assert second.None?;
      assert NoWhitespace(s) by {
        forall k | 0 <= k < |s| ensures !IsWhitespace(s[k]) {
          if k != at { assert EmailChar(s[k]); }
        }
      }
    }
  }

  // ---------------------------------------------------------------- phone

  /** The characters of the class `[\s.-]` that `isValidPhone` deletes. */
  predicate IsPhoneSeparator(c: char) {
    IsWhitespace(c) || c == '.' || c == '-'
  }

  /** The phone value with every white space character, '.' and '-' deleted,
      the other characters kept in order. */
  function StripSeparators(s: string): (r: string)
    ensures |r| <= |s|
  {
    if s == [] then []
    else (if IsPhoneSeparator(s[0]) then [] else [s[0]]) + StripSeparators(s[1..])
  }

  /** What is left has no separator, and is as long as `s` exactly when `s` had none. */
  lemma {:induction false} StripSeparatorsLeavesNone(s: string)
    ensures forall k :: 0 <= k < |StripSeparators(s)| ==> !IsPhoneSeparator(StripSeparators(s)[k])
    ensures |StripSeparators(s)| == |s| <==> forall k :: 0 <= k < |s| ==> !IsPhoneSeparator(s[k])
  {
    if s != [] {
      StripSeparatorsLeavesNone(s[1..]);
      if !IsPhoneSeparator(s[0]) && forall k :: 0 <= k < |s| - 1 ==> !IsPhoneSeparator(s[1..][k]) {
        assert forall k :: 0 <= k < |s| ==> !IsPhoneSeparator(s[k]) by {
          forall k | 0 <= k < |s| ensures !IsPhoneSeparator(s[k]) {
            if k > 0 { assert s[k] == s[1..][k - 1]; }
          }
        }
      }
    }
  }

  /** Deleting separators works piece by piece. */
  lemma {:induction false} StripSeparatorsAppend(a: string, b: string)
    ensures StripSeparators(a + b) == StripSeparators(a) + StripSeparators(b)
  {
    if a == [] {
      assert a + b == b;
    } else {
      assert (a + b)[1..] == a[1..] + b;
      StripSeparatorsAppend(a[1..], b);
    }
  }

  /** A string without separators is left as it is, and so stripping twice is stripping once. */
  lemma {:induction false} StripSeparatorsOfClean(s: string)
    requires forall k :: 0 <= k < |s| ==> !IsPhoneSeparator(s[k])
    ensures StripSeparators(s) == s
  {
    if s != [] {
      StripSeparatorsOfClean(s[1..]);
    }
  }

  /** White space alone strips to nothing. */
  lemma {:induction false} StripSeparatorsOfWhitespace(s: string)
    requires AllWhitespace(s)
    ensures StripSeparators(s) == []
  {
    if s != [] {
      StripSeparatorsOfWhitespace(s[1..]);
    }
  }

  predicate IsDigit(c: char) {
    '0' <= c <= '9'
  }

  /** The part after the trunk prefix: `[1-9][0-9]{8}`. */
  predicate IsSubscriberNumber(d: string) {
    |d| == 9 && '1' <= d[0] <= '9' && forall k :: 1 <= k < 9 ==> IsDigit(d[k])
  }

  /** The shape the phone check demands of the stripped value: the prefix '0'
      or '+33' followed by a subscriber number. */
  predicate MatchesFrenchNumber(c: string) {
    || (|c| >= 1 && c[0] == '0' && IsSubscriberNumber(c[1..]))
    || (|c| >= 3 && c[0] == '+' && c[1] == '3' && c[2] == '3' && IsSubscriberNumber(c[3..]))
  }

  /** `isValidPhone`: the number, once its separators are deleted, is a French number. */
  function IsValidPhone(phone: string): bool {
    MatchesFrenchNumber(StripSeparators(phone))
  }

  /** Inserting or deleting a separator anywhere never changes the verdict. */
  lemma SeparatorsAreIgnored(a: string, c: char, b: string)
    requires IsPhoneSeparator(c)
    ensures IsValidPhone(a + [c] + b) == IsValidPhone(a + b)
  {
    StripSeparatorsAppend(a + [c], b);
    StripSeparatorsAppend(a, [c]);
    StripSeparatorsAppend(a, b);
    assert [c][1..] == [];
    assert StripSeparators([c]) == [];
    assert StripSeparators(a + [c] + b) == StripSeparators(a + b);
  }

  /** The national form '0…' and the international form '+33…' of the same
      subscriber number are accepted together, exactly when that number is a
      subscriber number once stripped. */
  lemma NationalAndInternationalForms(d: string)
    ensures IsValidPhone("0" + d) <==> IsSubscriberNumber(StripSeparators(d))
    ensures IsValidPhone("+33" + d) <==> IsSubscriberNumber(StripSeparators(d))
  {
    PrefixKept("0", d);
    PrefixKept("+33", d);
    var x := StripSeparators(d);
    assert ("0" + x)[1..] == x;
    assert ("+33" + x)[3..] == x;
  }

  /** A prefix without separators is kept in front of the stripped rest. */
  lemma PrefixKept(prefix: string, d: string)
    requires prefix == "0" || prefix == "+33"
    ensures StripSeparators(prefix + d) == prefix + StripSeparators(d)
  {
    StripSeparatorsAppend(prefix, d);
    StripSeparatorsOfClean(prefix);
  }

  /** Deleting separators after `trimStart` gives what deleting them gives on
      the whole value: the characters trimmed are separators. */
  lemma {:induction false} StripSeparatorsOfTrimStart(s: string)
    ensures StripSeparators(TrimStart(s)) == StripSeparators(s)
  {
    if s != [] && IsWhitespace(s[0]) {
      StripSeparatorsOfTrimStart(s[1..]);
    }
  }

  /** The same for `trimEnd`. */
  lemma {:induction false} StripSeparatorsOfTrimEnd(s: string)
    ensures StripSeparators(TrimEnd(s)) == StripSeparators(s)
  {
    if s != [] && IsWhitespace(s[|s| - 1]) {
      var init := s[..|s| - 1];
      StripSeparatorsOfTrimEnd(init);
      assert s == init + [s[|s| - 1]];
      StripSeparatorsAppend(init, [s[|s| - 1]]);
      assert [s[|s| - 1]][1..] == [];
    }
  }

  /** Trimming never changes the phone verdict: trim removes only characters
      that `isValidPhone` deletes anyway. */
  lemma PhoneCheckIgnoresTrim(raw: string)
    ensures IsValidPhone(Trim(raw)) == IsValidPhone(raw)
  {
    StripSeparatorsOfTrimStart(raw);
    StripSeparatorsOfTrimEnd(TrimStart(raw));
  }

  /** Two digits, as in each group of the number the phone message quotes. */
  predicate IsDigitPair(p: string) {
    |p| == 2 && IsDigit(p[0]) && IsDigit(p[1])
  }

  /** Two digits and a space strip to the two digits. */
  lemma DigitPairThenSpace(pair: string, rest: string)
    requires IsDigitPair(pair)
    ensures StripSeparators(pair + " " + rest) == pair + StripSeparators(rest)
  {
    DigitIsNotSeparator(pair[0]);
    DigitIsNotSeparator(pair[1]);
    StripSeparatorsOfClean(pair);
    SpaceStripsToNothing();
    StripSeparatorsAppend(pair, " ");
    StripSeparatorsAppend(pair + " ", rest);
  }

  lemma DigitIsNotSeparator(c: char)
    requires IsDigit(c)
    ensures !IsPhoneSeparator(c)
  {
  }

  lemma SpaceStripsToNothing()
    ensures StripSeparators(" ") == []
  {
    assert IsPhoneSeparator(" "[0]);
    assert " "[1..] == [];
  }

  /** A number written as five pairs of digits separated by spaces, the way
      the phone message writes its example "06 12 34 56 78", strips to its
      ten digits. */
  lemma GroupedNumberStripped(a: string, b: string, c: string, d: string, e: string)
    requires IsDigitPair(a) && IsDigitPair(b) && IsDigitPair(c) && IsDigitPair(d) && IsDigitPair(e)
    ensures StripSeparators(a + " " + (b + " " + (c + " " + (d + " " + e)))) == a + (b + (c + (d + e)))
  {
    StripSeparatorsOfClean(e);
    DigitPairThenSpace(d, e);
    DigitPairThenSpace(c, d + " " + e);
    DigitPairThenSpace(b, c + " " + (d + " " + e));
    DigitPairThenSpace(a, b + " " + (c + " " + (d + " " + e)));
  }

  /** The ten digits of five pairs. */
  lemma DigitsOfPairs(a: string, b: string, c: string, d: string, e: string)
    requires IsDigitPair(a) && IsDigitPair(b) && IsDigitPair(c) && IsDigitPair(d) && IsDigitPair(e)
    ensures |a + (b + (c + (d + e)))| == 10
    ensures forall k :: 0 <= k < 10 ==> IsDigit((a + (b + (c + (d + e))))[k])
  {
    var n := a + (b + (c + (d + e)));
    forall k | 0 <= k < 10
      ensures IsDigit(n[k])
    {
      if k < 2 { assert n[k] == a[k]; }
      else if k < 4 { assert n[k] == b[k - 2]; }
      else if k < 6 { assert n[k] == c[k - 4]; }
      else if k < 8 { assert n[k] == d[k - 6]; }
      else { assert n[k] == e[k - 8]; }
    }
  }

  /** Such a number is accepted when it starts with the trunk prefix '0'
      followed by a non-zero digit: the number the phone message quotes is
      itself valid. */
  lemma GroupedNumberIsValid(a: string, b: string, c: string, d: string, e: string)
    requires IsDigitPair(a) && IsDigitPair(b) && IsDigitPair(c) && IsDigitPair(d) && IsDigitPair(e)
    requires a[0] == '0' && a[1] != '0'
    ensures IsValidPhone(a + " " + (b + " " + (c + " " + (d + " " + e))))
  {
    GroupedNumberStripped(a, b, c, d, e);
    DigitsOfPairs(a, b, c, d, e);
    var n := a + (b + (c + (d + e)));
    assert n[0] == a[0] && n[1] == a[1];
    var sub := n[1..];
    assert forall k :: 1 <= k < 9 ==> sub[k] == n[k + 1];
    assert IsSubscriberNumber(sub);
  }

  /** An accepted number has ten characters once stripped in the national
      form, twelve in the international one: any other count is refused. */
  lemma AcceptedLengths(phone: string)
    ensures IsValidPhone(phone) ==> |StripSeparators(phone)| == 10 || |StripSeparators(phone)| == 12
  {
  }

  // ---------------------------------------------------------------- e-mail shapes

  /** An address made of a local part, '@', a host, '.' and a last label, each
      non-empty and free of white space and '@', is accepted. */
  lemma AddressAccepted(local: string, host: string, tld: string)
    requires local != [] && host != [] && tld != []
    requires forall k :: 0 <= k < |local| ==> EmailChar(local[k])
    requires forall k :: 0 <= k < |host| ==> EmailChar(host[k])
    requires forall k :: 0 <= k < |tld| ==> EmailChar(tld[k])
    ensures IsValidEmail(local + "@" + host + "." + tld)
  {
    var s := local + "@" + host + "." + tld;
    var at := |local|;
    var dot := |local| + 1 + |host|;
    forall k | 0 <= k < |s| && k != at
      ensures EmailChar(s[k])
    {
      if k < at { assert s[k] == local[k]; }
      else if k < dot { assert s[k] == host[k - at - 1]; }
      else if k == dot { assert s[k] == '.'; }
      else { assert s[k] == tld[k - dot - 1]; }
    }
    assert s[at] == '@' && s[dot] == '.';
    assert EmailSplit(s, at, dot);
    IsValidEmailMatchesPattern(s);
  }

  /** A value without '@', or with white space anywhere, is refused. */
  lemma AddressWithoutAtOrWithSpaceRejected(s: string)
    requires (forall k :: 0 <= k < |s| ==> s[k] != '@') || (exists k :: 0 <= k < |s| && IsWhitespace(s[k]))
    ensures !IsValidEmail(s)
  {
  }

  /** A value with two '@' is refused. */
  lemma SecondAtRejected(s: string, i: nat, j: nat)
    requires i < j < |s| && s[i] == '@' && s[j] == '@'
    ensures !IsValidEmail(s)
  {
  }

  // ---------------------------------------------------------------- validateField

  const RequiredMessage := "Ce champ est obligatoire"
  const EmailMessage := "Format d'email invalide"
  const PhoneMessage := "Format de téléphone invalide (ex: 06 12 34 56 78)"
  const NameMessage := "Minimum 2 caractères"
  const LocationMessage := "Veuillez préciser l'adresse complète"

  datatype Verdict = Valid | Invalid(message: string)

  /** The verdict of `validateField` on a field of name `name`, carrying the
      `required` attribute or not, whose value is `raw`: the rules are checked
      on the trimmed value. */
  function FieldVerdict(name: string, required: bool, raw: string): Verdict {
    TrimmedVerdict(name, required, Trim(raw))
  }

  /** The if-else chain of `validateField` on the trimmed value `v`. */
  function TrimmedVerdict(name: string, required: bool, v: string): Verdict {
    if required && v == "" then Invalid(RequiredMessage)
    else if name == "email" && v != "" && !IsValidEmail(v) then Invalid(EmailMessage)
    else if name == "phone" && v != "" && !IsValidPhone(v) then Invalid(PhoneMessage)
    else if (name == "firstName" || name == "lastName") && v != "" && |v| < 2 then Invalid(NameMessage)
    else if name == "location" && v != "" && |v| < 10 then Invalid(LocationMessage)
    else Valid
  }

  /** The names the rules look at are different strings. */
  lemma RoleNamesDistinct()
    ensures "email" != "phone" && "email" != "firstName" && "email" != "lastName" && "email" != "location"
    ensures "phone" != "firstName" && "phone" != "lastName" && "phone" != "location"
    ensures "firstName" != "lastName" && "firstName" != "location" && "lastName" != "location"
  {
    assert "lastName"[1] != "location"[1];
  }

  /** The field rules, each with the condition under which it fires on the trimmed value `v`. */
  datatype Rule = Required | EmailFormat | PhoneFormat | NameLength | LocationLength

  predicate Fires(rule: Rule, name: string, required: bool, v: string) {
    match rule
    case Required => required && v == ""
    case EmailFormat => name == "email" && v != "" && !IsValidEmail(v)
    case PhoneFormat => name == "phone" && v != "" && !IsValidPhone(v)
    case NameLength => (name == "firstName" || name == "lastName") && v != "" && |v| < 2
    case LocationLength => name == "location" && v != "" && |v| < 10
  }

  function RuleMessage(rule: Rule): string {
    match rule
    case Required => RequiredMessage
    case EmailFormat => EmailMessage
    case PhoneFormat => PhoneMessage
    case NameLength => NameMessage
    case LocationLength => LocationMessage
  }

  /** The order in which the rules are tried. */
  const RuleOrder: seq<Rule> := [Required, EmailFormat, PhoneFormat, NameLength, LocationLength]

  /** The first rule of `rules` that fires, if any. */
  function FirstFired(rules: seq<Rule>, name: string, required: bool, v: string): (r: Option<Rule>)
    ensures r.None? <==> forall k :: 0 <= k < |rules| ==> !Fires(rules[k], name, required, v)
    ensures r.Some? ==> r.value in rules && Fires(r.value, name, required, v)
    ensures r.Some? ==> exists k :: 0 <= k < |rules| && rules[k] == r.value
                                  && forall j :: 0 <= j < k ==> !Fires(rules[j], name, required, v)
  {
    if rules == [] then None
    else if Fires(rules[0], name, required, v) then Some(rules[0])
    else FirstFired(rules[1..], name, required, v)
  }

  /** The message of the first rule that fires, valid when none does. */
  function RuleVerdict(fired: Option<Rule>): Verdict {
    match fired
    case None => Valid
    case Some(rule) => Invalid(RuleMessage(rule))
  }

  /** `validateField` tries the rules in the order required, e-mail, phone,
      name, location: its verdict is the message of the first rule that fires,
      and valid when none does. In particular at most one message results. */
  lemma VerdictIsFirstFiredRule(name: string, required: bool, v: string)
    ensures TrimmedVerdict(name, required, v) == RuleVerdict(FirstFired(RuleOrder, name, required, v))
  {
    var r1 := [EmailFormat, PhoneFormat, NameLength, LocationLength];
    var r2 := [PhoneFormat, NameLength, LocationLength];
    var r3 := [NameLength, LocationLength];
    var r4 := [LocationLength];
    assert RuleOrder[1..] == r1 && r1[1..] == r2 && r2[1..] == r3 && r3[1..] == r4 && r4[1..] == [];
    if Fires(Required, name, required, v) {
      assert FirstFired(RuleOrder, name, required, v) == Some(Required);
    } else if Fires(EmailFormat, name, required, v) {
      assert FirstFired(r1, name, required, v) == Some(EmailFormat);
    } else if Fires(PhoneFormat, name, required, v) {
      assert FirstFired(r2, name, required, v) == Some(PhoneFormat);
    } else if Fires(NameLength, name, required, v) {
      assert FirstFired(r3, name, required, v) == Some(NameLength);
    } else if Fires(LocationLength, name, required, v) {
      assert FirstFired(r4, name, required, v) == Some(LocationLength);
    } else {
      assert FirstFired(r4, name, required, v) == None;
    }
  }

  /** The field is valid exactly when no rule fires on its trimmed value. */
  lemma ValidIffNoRuleFires(name: string, required: bool, v: string)
    ensures TrimmedVerdict(name, required, v).Valid? <==> forall rule :: !Fires(rule, name, required, v)
  {
    if TrimmedVerdict(name, required, v).Valid? {
      forall rule ensures !Fires(rule, name, required, v) {
        match rule
        case Required =>
        case EmailFormat =>
        case PhoneFormat =>
        case NameLength =>
        case LocationLength =>
      }
    } else {
      var rule :=
        if required && v == "" then Required
        else if name == "email" && v != "" && !IsValidEmail(v) then EmailFormat
        else if name == "phone" && v != "" && !IsValidPhone(v) then PhoneFormat
        else if (name == "firstName" || name == "lastName") && v != "" && |v| < 2 then NameLength
        else LocationLength;
      assert Fires(rule, name, required, v);
    }
  }

  /** A required field whose value is blank is invalid with the required
      message, whatever its role: that rule takes precedence. */
  lemma RequiredTakesPrecedence(name: string, raw: string)
    requires AllWhitespace(raw)
    ensures FieldVerdict(name, true, raw) == Invalid(RequiredMessage)
  {
  }

  /** A field without the `required` attribute whose value is blank is valid,
      whatever its role: every role rule is guarded by a non-empty value. */
  lemma BlankOptionalFieldIsValid(name: string, raw: string)
    requires AllWhitespace(raw)
    ensures FieldVerdict(name, false, raw) == Valid
  {
  }

  /** An e-mail field with a non-blank value is valid exactly when the trimmed
      value passes `isValidEmail`. */
  lemma EmailFieldVerdict(required: bool, raw: string)
    requires !AllWhitespace(raw)
    ensures FieldVerdict("email", required, raw) ==
            if IsValidEmail(Trim(raw)) then Valid else Invalid(EmailMessage)
  {
  }

  /** A phone field with a non-blank value is valid exactly when the value passes `isValidPhone`. */
  lemma PhoneFieldVerdict(required: bool, raw: string)
    requires !AllWhitespace(raw)
    ensures FieldVerdict("phone", required, raw) ==
            if IsValidPhone(raw) then Valid else Invalid(PhoneMessage)
  {
    PhoneCheckIgnoresTrim(raw);
    RoleNamesDistinct();
  }

  /** A first or last name is invalid exactly when it is blank and required, or
      non-blank and shorter than two characters once trimmed. */
  lemma NameFieldVerdict(name: string, required: bool, v: string)
    requires name == "firstName" || name == "lastName"
    ensures TrimmedVerdict(name, required, v).Invalid? <==> (required && v == "") || (v != "" && |v| < 2)
  {
    RoleNamesDistinct();
  }

  /** The location is invalid exactly when it is blank and required, or
      non-blank and shorter than ten characters once trimmed. */
  lemma LocationFieldVerdict(required: bool, v: string)
    ensures TrimmedVerdict("location", required, v).Invalid? <==> (required && v == "") || (v != "" && |v| < 10)
  {
    RoleNamesDistinct();
  }

  /** A well-formed address is a valid e-mail field, required or not. */
  lemma AddressFieldIsValid(local: string, host: string, tld: string, required: bool)
    requires local != [] && host != [] && tld != []
    requires forall k :: 0 <= k < |local| ==> EmailChar(local[k])
    requires forall k :: 0 <= k < |host| ==> EmailChar(host[k])
    requires forall k :: 0 <= k < |tld| ==> EmailChar(tld[k])
    ensures FieldVerdict("email", required, local + "@" + host + "." + tld) == Valid
  {
    var s := local + "@" + host + "." + tld;
    AddressAccepted(local, host, tld);
    assert s[0] == local[0] && s[|s| - 1] == tld[|tld| - 1];
    assert EmailChar(s[0]) && EmailChar(s[|s| - 1]);
    TrimOfTrimmed(s);
  }

  /** A number grouped as in the phone message is a valid phone field, required or not. */
  lemma GroupedNumberFieldIsValid(a: string, b: string, c: string, d: string, e: string, required: bool)
    requires IsDigitPair(a) && IsDigitPair(b) && IsDigitPair(c) && IsDigitPair(d) && IsDigitPair(e)
    requires a[0] == '0' && a[1] != '0'
    ensures FieldVerdict("phone", required, a + " " + (b + " " + (c + " " + (d + " " + e)))) == Valid
  {
    var s := a + " " + (b + " " + (c + " " + (d + " " + e)));
    GroupedNumberIsValid(a, b, c, d, e);
    assert s[0] == a[0];
    PhoneFieldVerdict(required, s);
  }

  // ---------------------------------------------------------------- real-time checks

  const PhoneInputMessage := "Format de téléphone invalide"

  /** The listeners `setupRealTimeValidation` adds for `input` events: the
      message to show, or None to clear the error. The e-mail and phone checks
      look at the raw value; the name check at the trimmed value; other fields
      only have their error cleared. */
  function InputCheck(name: string, raw: string): Option<string> {
    if name == "email" then
      (if raw != "" && !IsValidEmail(raw) then Some(EmailMessage) else None)
    else if name == "phone" then
      (if raw != "" && !IsValidPhone(raw) then Some(PhoneInputMessage) else None)
    else if name == "firstName" || name == "lastName" then
      var v := Trim(raw);
      (if v != "" && |v| < 2 then Some(NameMessage) else None)
    else None
  }

  /** On a value without white space around it, an optional field's typing
      check and its `blur` check agree on whether an error is shown. */
  lemma InputCheckAgreesWithBlur(name: string, raw: string)
    requires raw == [] || (!IsWhitespace(raw[0]) && !IsWhitespace(raw[|raw| - 1]))
    requires name in {"email", "phone", "firstName", "lastName"}
    ensures InputCheck(name, raw).Some? <==> FieldVerdict(name, false, raw).Invalid?
  {
    TrimOfTrimmed(raw);
  }

  /** They do not agree on padded values: while typing, a valid address with
      a leading space is flagged as malformed, yet `validateField` trims it and
      accepts it. */
  lemma InputCheckFlagsPaddedEmail(email: string)
    requires IsValidEmail(email)
    ensures InputCheck("email", " " + email) == Some(EmailMessage)
    ensures FieldVerdict("email", true, " " + email) == Valid
  {
    var padded := " " + email;
    assert IsWhitespace(padded[0]);
    TrimSkipsLeadingWhitespace(padded);
    assert padded[1..] == email;
    TrimOfTrimmed(email);
  }

  /** Likewise a phone value made of spaces is flagged while typing, yet is
      blank, and so valid, for `validateField` on the optional phone field. */
  lemma InputCheckFlagsBlankPhone(blank: string)
    requires blank != [] && AllWhitespace(blank)
    ensures InputCheck("phone", blank) == Some(PhoneInputMessage)
    ensures FieldVerdict("phone", false, blank) == Valid
  {
    StripSeparatorsOfWhitespace(blank);
  }
}
