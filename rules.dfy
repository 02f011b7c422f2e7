/**
 * The contact form's rule table and the pure half of `validateField`: look up
 * the rule for a field name, trim the value, and run the rule's checks in the
 * order required, minimum length, pattern, the first failure deciding.
 */
module Rules {
  import opened Text
  import opened Patterns

  datatype Option<T> = None | Some(value: T)

  datatype Pattern = EmailAddress | PhoneNumber

  datatype Rule = Rule(required: bool, minLength: Option<nat>, pattern: Option<Pattern>, message: string)

  /** Pass, or fail with the message the field's error slot then shows. */
  datatype Verdict = Pass | Fail(message: string)

  const NameMessage: string := "Prosím, vyplňte vaše jméno (min. 2 znaky)"
  const EmailMessage: string := "Prosím, zadejte platnou e-mailovou adresu"
  const PhoneMessage: string := "Prosím, zadejte platné telefonní číslo"
  const ServiceMessage: string := "Prosím, vyberte službu"
  const MessageMessage: string := "Prosím, napište zprávu (min. 10 znaků)"

  /** The fixed table from field name to rule; other names have no rule. */
  function RuleFor(fieldName: string): Option<Rule> {
    if fieldName == "name" then Some(Rule(true, Some(2), None, NameMessage))
    else if fieldName == "email" then Some(Rule(true, None, Some(EmailAddress), EmailMessage))
    else if fieldName == "phone" then Some(Rule(true, None, Some(PhoneNumber), PhoneMessage))
    else if fieldName == "service" then Some(Rule(true, None, None, ServiceMessage))
    else if fieldName == "message" then Some(Rule(true, Some(10), None, MessageMessage))
    else None
  }

  /** `pattern.test(value)`. */
  predicate Matches(pattern: Pattern, value: string) {
    match pattern
    case EmailAddress => IsEmail(value)
    case PhoneNumber => IsPhone(value)
  }

  /** Every part of the rule holds of `value`, in no particular order. */
  predicate Satisfies(rule: Rule, value: string) {
    && (rule.required ==> value != [])
    && (rule.minLength.Some? ==> Utf16Length(value) >= rule.minLength.value)
    && (rule.pattern.Some? ==> Matches(rule.pattern.value, value))
  }

  /** The rule's checks in source order; the first to fail reports the
      rule's message. */
  function Check(rule: Rule, value: string): (r: Verdict)
    ensures r.Pass? <==> Satisfies(rule, value)
    ensures r.Fail? ==> r.message == rule.message
  {
    if rule.required && value == [] then Fail(rule.message)
    else if rule.minLength.Some? && Utf16Length(value) < rule.minLength.value then Fail(rule.message)
    else if rule.pattern.Some? && !Matches(rule.pattern.value, value) then Fail(rule.message)
    else Pass
  }

  /** The decision `validateField` makes for a field with an error slot: no
      rule passes; otherwise the rule is checked against the trimmed value. */
  function ValidateValue(fieldName: string, raw: string): (r: Verdict)
    ensures RuleFor(fieldName).None? ==> r == Pass
    ensures r.Fail? ==> RuleFor(fieldName).Some? && r.message == RuleFor(fieldName).value.message
  {
    match RuleFor(fieldName)
    case None => Pass
    case Some(rule) => Check(rule, Trim(raw))
  }

  /** Every rule in the table is a required one. */
  lemma AllRulesRequired(fieldName: string)
    ensures RuleFor(fieldName).Some? ==> RuleFor(fieldName).value.required
  {
  }

  /** Only the trimmed value matters: surrounding whitespace never changes
      the verdict. */
  lemma TrimmedValueDecides(fieldName: string, raw: string)
    ensures ValidateValue(fieldName, raw) == ValidateValue(fieldName, Trim(raw))
  {
    TrimIdempotent(raw);
  }

  /** A whitespace-only value fails every field that has a rule, with that
      field's own message. */
  lemma WhitespaceOnlyFails(fieldName: string, raw: string)
    requires RuleFor(fieldName).Some?
    requires AllWhitespace(raw)
    ensures ValidateValue(fieldName, raw) == Fail(RuleFor(fieldName).value.message)
  {
    TrimEmptyIffWhitespace(raw);
    var rule := RuleFor(fieldName).value;
    assert rule.required;
    assert Check(rule, Trim(raw)) == Fail(rule.message);
  }

  lemma NameField(raw: string)
    ensures ValidateValue("name", raw) == if Utf16Length(Trim(raw)) >= 2 then Pass else Fail(NameMessage)
  {
    assert RuleFor("name") == Some(Rule(true, Some(2), None, NameMessage));
  }

  lemma EmailField(raw: string)
    ensures ValidateValue("email", raw) == if EmailRegex(Trim(raw)) then Pass else Fail(EmailMessage)
  {
    IsEmailIffRegex(Trim(raw));
  }

  lemma PhoneField(raw: string)
    ensures ValidateValue("phone", raw) == if PhoneRegex(Trim(raw)) then Pass else Fail(PhoneMessage)
  {
    IsPhoneIffRegex(Trim(raw));
  }

  lemma ServiceField(raw: string)
    ensures ValidateValue("service", raw) == if AllWhitespace(raw) then Fail(ServiceMessage) else Pass
  {
    TrimEmptyIffWhitespace(raw);
  }

  lemma MessageField(raw: string)
    ensures ValidateValue("message", raw) == if Utf16Length(Trim(raw)) >= 10 then Pass else Fail(MessageMessage)
  {
    assert RuleFor("message") == Some(Rule(true, Some(10), None, MessageMessage));
  }

  /** Lengths count UTF-16 code units: one character outside the Basic
      Multilingual Plane is long enough for a name, one inside it is not. */
  lemma NameLengthInCodeUnits()
    ensures ValidateValue("name", "\U{1F600}") == Pass
    ensures ValidateValue("name", "\U{00E9}") == Fail(NameMessage)
  {
    NameField("\U{1F600}");
    NameField("\U{00E9}");
  }

  /** A minimum length is a sharp threshold: one character short of it fails,
      exactly at it passes. */
  lemma MinLengthThreshold(fieldName: string, raw: string)
    requires RuleFor(fieldName).Some? && RuleFor(fieldName).value.minLength.Some?
    ensures Utf16Length(Trim(raw)) == RuleFor(fieldName).value.minLength.value ==> ValidateValue(fieldName, raw).Pass?
    ensures Utf16Length(Trim(raw)) < RuleFor(fieldName).value.minLength.value ==> ValidateValue(fieldName, raw).Fail?
  {
  }
}
