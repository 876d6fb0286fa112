/** The server's request validation for create and update (the three
    `studentValidators` chains of server.js) and the normalisation the handlers
    apply before writing a row. */
module Validation {
  import opened JsText

  /** A request body as the handlers read it: six properties, each possibly missing. */
  datatype Payload = Payload(
    name: MaybeString, address: MaybeString, city: MaybeString,
    state: MaybeString, email: MaybeString, phone: MaybeString)

  /** The six mutable columns of a student row. */
  datatype Fields = Fields(
    name: string, address: string, city: string,
    state: string, email: string, phone: string)

  /** The three validated properties (an error's `path`: "name", "email",
      "phone"), in the order their chains run. */
  datatype Checked = NameField | EmailField | PhoneField

  /** One entry of the 422 response's `errors` array: the failing property and its message. */
  datatype FieldError = FieldError(field: Checked, msg: string)

  datatype Verdict = Accepted(fields: Fields) | Rejected(errors: seq<FieldError>)

  const NameMinLength := 3
  const PhoneMinDigits := 7
  const PhoneMaxDigits := 15

  const NameError := FieldError(NameField, "Name mínimo 3 caracteres")
  const EmailError := FieldError(EmailField, "Email inválido")
  const PhoneError := FieldError(PhoneField, "Teléfono: 7-15 dígitos")

  /** Position of a property's chain in `studentValidators`. */
  function Rank(c: Checked): nat {
    match c
    case NameField => 0
    case EmailField => 1
    case PhoneField => 2
  }

  /** The `name` after the `trim()` sanitizer: a missing value reads as "". */
  function SanitizedName(p: Payload): string {
    Trim(if p.name.Str? then p.name.value else "")
  }

  /** `body('name').trim().isLength({ min: 3 })` */
  predicate NameOk(p: Payload) {
    |SanitizedName(p)| >= NameMinLength
  }

  /** `body('email').optional({ checkFalsy: true }).isEmail()`; the email
      syntax check belongs to a library outside this model and is a parameter. */
  predicate EmailOk(p: Payload, isEmail: string -> bool) {
    !Truthy(p.email) || isEmail(p.email.value)
  }

  /** `body('phone').optional({ checkFalsy: true }).matches(/^[0-9]{7,15}$/)` */
  predicate PhoneOk(p: Payload) {
    !Truthy(p.phone) || MatchesPhone(p.phone.value)
  }

  predicate IsAsciiDigit(c: char) {
    '0' <= c <= '9'
  }

  /** The language of `^[0-9]{7,15}$`: 7 to 15 ASCII digits and nothing else. */
  ghost predicate PhonePattern(s: string) {
    && PhoneMinDigits <= |s| <= PhoneMaxDigits
    && forall i :: 0 <= i < |s| ==> IsAsciiDigit(s[i])
  }

  /** Length of the longest prefix of ASCII digits. */
  function DigitRun(s: string): (n: nat)
    ensures n <= |s|
  {
    if s != [] && IsAsciiDigit(s[0]) then 1 + DigitRun(s[1..]) else 0
  }

  /** The run is all digits and stops at the end or at a non-digit. */
  lemma {:induction false} DigitRunSpec(s: string)
    ensures forall i :: 0 <= i < DigitRun(s) ==> IsAsciiDigit(s[i])
    ensures DigitRun(s) == |s| || !IsAsciiDigit(s[DigitRun(s)])
  {
    if s != [] && IsAsciiDigit(s[0]) {
      DigitRunSpec(s[1..]);
      forall i | 0 < i < DigitRun(s) ensures IsAsciiDigit(s[i]) {
        assert s[i] == s[1..][i - 1];
      }
    }
  }

  /** The anchored match: the digit run spans the whole input and its length is in range. */
  function MatchesPhone(s: string): bool {
    var n := DigitRun(s);
    n == |s| && PhoneMinDigits <= n <= PhoneMaxDigits
  }

  /** The scan accepts exactly the language of the pattern. */
  lemma MatchesPhoneSpec(s: string)
    ensures MatchesPhone(s) <==> PhonePattern(s)
  {
    DigitRunSpec(s);
  }

  /** The columns a handler writes once validation passed: the trimmed name,
      and every other property or '' when it is falsy (`address || ''`, ...). */
  function Normalize(p: Payload): Fields {
    Fields(SanitizedName(p), Or(p.address, ""), Or(p.city, ""), Or(p.state, ""),
           Or(p.email, ""), Or(p.phone, ""))
  }

  /** `validationResult(req).array()`: one error per failing chain, in chain order. */
  function CollectErrors(nameOk: bool, emailOk: bool, phoneOk: bool): seq<FieldError> {
    (if nameOk then [] else [NameError]) +
    (if emailOk then [] else [EmailError]) +
    (if phoneOk then [] else [PhoneError])
  }

  /** No error exactly when every chain passes; each chain's error is
      reported exactly when it fails, nothing else is, and the errors come
      in chain order. */
  lemma CollectErrorsSpec(nameOk: bool, emailOk: bool, phoneOk: bool)
    ensures var errors := CollectErrors(nameOk, emailOk, phoneOk);
      && (errors == [] <==> nameOk && emailOk && phoneOk)
      && (NameError in errors <==> !nameOk)
      && (EmailError in errors <==> !emailOk)
      && (PhoneError in errors <==> !phoneOk)
      && (forall e :: e in errors ==> e == NameError || e == EmailError || e == PhoneError)
      && (forall i, j :: 0 <= i < j < |errors| ==> Rank(errors[i].field) < Rank(errors[j].field))
  {
  }

  /** The three chains run independently and every failure is reported; no
      failure means the payload is accepted and normalised. */
  function Validate(p: Payload, isEmail: string -> bool): Verdict {
    var errors := CollectErrors(NameOk(p), EmailOk(p, isEmail), PhoneOk(p));
    if errors == [] then Accepted(Normalize(p)) else Rejected(errors)
  }

  /** A payload is accepted exactly when all three rules pass, and is then
      stored normalised; otherwise every failing rule is reported. */
  lemma ValidateSpec(p: Payload, isEmail: string -> bool)
    ensures Validate(p, isEmail).Accepted? <==> NameOk(p) && EmailOk(p, isEmail) && PhoneOk(p)
    ensures Validate(p, isEmail).Accepted? ==> Validate(p, isEmail).fields == Normalize(p)
    ensures Validate(p, isEmail).Rejected? ==>
      Validate(p, isEmail).errors == CollectErrors(NameOk(p), EmailOk(p, isEmail), PhoneOk(p))
  {
    CollectErrorsSpec(NameOk(p), EmailOk(p, isEmail), PhoneOk(p));
  }

  /** What every stored row satisfies: a trimmed name of at least three
      characters, and an email and a phone that are empty or pass their rule. */
  ghost predicate WellFormedFields(f: Fields, isEmail: string -> bool) {
    && Trim(f.name) == f.name
    && |f.name| >= NameMinLength
    && (f.email == "" || isEmail(f.email))
    && (f.phone == "" || PhonePattern(f.phone))
  }

  /** The columns a row would be re-submitted with. */
  function AsPayload(f: Fields): Payload {
    Payload(Str(f.name), Str(f.address), Str(f.city), Str(f.state), Str(f.email), Str(f.phone))
  }

  /** Accepted payloads yield well-formed columns. */
  lemma AcceptedIsWellFormed(p: Payload, isEmail: string -> bool)
    requires Validate(p, isEmail).Accepted?
    ensures WellFormedFields(Validate(p, isEmail).fields, isEmail)
  {
    ValidateSpec(p, isEmail);
    TrimIdempotent(if p.name.Str? then p.name.value else "");
    if Truthy(p.phone) {
      MatchesPhoneSpec(p.phone.value);
    }
  }

  /** Well-formed columns pass validation unchanged: the validator's output is
      a fixed point of the validator. */
  lemma WellFormedIsAccepted(f: Fields, isEmail: string -> bool)
    requires WellFormedFields(f, isEmail)
    ensures Validate(AsPayload(f), isEmail) == Accepted(f)
  {
    var p := AsPayload(f);
    assert SanitizedName(p) == f.name;
    assert NameOk(p);
    assert EmailOk(p, isEmail);
    if f.phone != "" {
      MatchesPhoneSpec(f.phone);
    }
    assert PhoneOk(p);
    assert Normalize(p) == f;
  }

  /** With both optional properties falsy, only the trimmed name decides. */
  lemma NameAloneDecides(p: Payload, isEmail: string -> bool)
    requires !Truthy(p.email) && !Truthy(p.phone)
    ensures Validate(p, isEmail).Accepted? <==> |SanitizedName(p)| >= NameMinLength
    ensures Validate(p, isEmail).Rejected? ==> Validate(p, isEmail).errors == [NameError]
  {
  }

  /** The boundaries of the phone rule: six digits fail, seven and fifteen
      pass, sixteen fail, and a separator is not a digit. */
  lemma PhoneBoundaries()
    ensures !PhonePattern("123456")
    ensures PhonePattern("1234567")
    ensures PhonePattern("999999999999999")
    ensures !PhonePattern("9999999999999999")
    ensures !PhonePattern("555-1234567")
  {
    assert !IsAsciiDigit("555-1234567"[3]);
  }
}
