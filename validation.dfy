/** Field predicates and the rule-driven form validator shared by the
    sections: phone, tax number (NIF), postal code and e-mail formats, time
    overlap, numeric ranges, display formatting and the accent-insensitive
    normalisation used for comparisons. */
module Validation {
  import opened PyValues

  // ===== phone =====

  /** `phone.replace(" ", "")`: only the plain space is removed. */
  function RemoveSpaces(s: string): (r: string)
    ensures |r| <= |s|
    ensures forall i :: 0 <= i < |r| ==> r[i] != ' '
  {
    if s == [] then [] else (if s[0] == ' ' then [] else [s[0]]) + RemoveSpaces(s[1..])
  }

  /** `s.isdigit()`: non-empty and every character a digit. */
  predicate IsDigitString(s: string) {
    s != [] && forall i :: 0 <= i < |s| ==> IsDigitChar(s[i])
  }

  /** `is_valid_phone`: empty, or nine digits once the spaces are removed. */
  predicate IsValidPhone(phone: string) {
    phone == "" || (var c := RemoveSpaces(phone); IsDigitString(c) && |c| == 9)
  }

  /** Number of characters other than the plain space. */
  function NonSpaceCount(s: string): nat {
    if s == [] then 0 else (if s[0] == ' ' then 0 else 1) + NonSpaceCount(s[1..])
  }

  lemma {:induction false} RemoveSpacesContents(s: string)
    ensures |RemoveSpaces(s)| == NonSpaceCount(s)
    ensures forall c :: c in RemoveSpaces(s) <==> c in s && c != ' '
  {
    if s != [] {
      RemoveSpacesContents(s[1..]);
      assert s == [s[0]] + s[1..];
    }
  }

  lemma {:induction false} RemoveSpacesConcat(a: string, b: string)
    ensures RemoveSpaces(a + b) == RemoveSpaces(a) + RemoveSpaces(b)
  {
    if a == [] {
      assert a + b == b;
    } else {
      assert (a + b)[1..] == a[1..] + b;
      RemoveSpacesConcat(a[1..], b);
    }
  }

  /** Reference reading of the phone rule: a non-empty phone is valid exactly
      when it consists of spaces and digits and holds nine digits. */
  lemma PhoneValidIff(phone: string)
    ensures IsValidPhone(phone) <==>
      phone == "" || ((forall i :: 0 <= i < |phone| ==> phone[i] == ' ' || IsDigitChar(phone[i])) && NonSpaceCount(phone) == 9)
  {
    RemoveSpacesContents(phone);
    var c := RemoveSpaces(phone);
    if phone != "" && IsValidPhone(phone) {
      forall i | 0 <= i < |phone| ensures phone[i] == ' ' || IsDigitChar(phone[i]) {
        if phone[i] != ' ' {
          assert phone[i] in c;
          var k :| 0 <= k < |c| && c[k] == phone[i];
        }
      }
    }
    if phone != "" && (forall i :: 0 <= i < |phone| ==> phone[i] == ' ' || IsDigitChar(phone[i])) && NonSpaceCount(phone) == 9 {
      forall k | 0 <= k < |c| ensures IsDigitChar(c[k]) {
        assert c[k] in phone;
      }
    }
  }

  /** Spaces anywhere in a non-empty phone do not change the verdict. */
  lemma PhoneIgnoresSpaces(a: string, b: string)
    requires a + b != ""
    ensures IsValidPhone(a + " " + b) == IsValidPhone(a + b)
  {
    RemoveSpacesConcat(a, " " + b);
    RemoveSpacesConcat(" ", b);
    RemoveSpacesConcat(a, b);
    assert RemoveSpaces(" ") == [];
    assert a + " " + b == a + (" " + b);
    assert RemoveSpaces(a + " " + b) == RemoveSpaces(a + b);
  }

  // ===== NIF =====

  /** `is_valid_nif`: empty, or nine digits once surrounding whitespace is
      stripped. */
  predicate IsValidNif(nif: string) {
    nif == "" || (var t := Strip(nif); IsDigitString(t) && |t| == 9)
  }

  /** Every nine-digit number, with any whitespace around it, is a valid NIF. */
  lemma NifOfPaddedDigits(pre: string, d: string, post: string)
    requires AllSpace(pre) && AllSpace(post) && IsDigitString(d) && |d| == 9
    ensures IsValidNif(pre + d + post)
  {
    StripOfPadded(pre, d, post);
  }

  /** Conversely, a non-empty valid NIF is nine digits with whitespace around. */
  lemma NifShape(nif: string) returns (i: nat, j: nat)
    requires nif != "" && IsValidNif(nif)
    ensures i + 9 == j <= |nif| && IsDigitString(nif[i..j])
    ensures AllSpace(nif[..i]) && AllSpace(nif[j..])
  {
    i, j := StripShape(nif);
  }

  // ===== postal code =====

  /** The pattern `^\d{4}-\d{3}$` (`\d` is an ASCII digit below code point 256). */
  predicate PostalShape(t: string) {
    && |t| == 8
    && (forall i :: 0 <= i < 4 ==> IsAsciiDigit(t[i]))
    && t[4] == '-'
    && (forall i :: 5 <= i < 8 ==> IsAsciiDigit(t[i]))
  }

  /** `is_valid_postal_code`: empty, or `DDDD-DDD` once stripped. */
  predicate IsValidPostalCode(pc: string) {
    pc == "" || PostalShape(Strip(pc))
  }

  function Pow10(k: nat): (r: nat)
    ensures r >= 1
  {
    if k == 0 then 1 else 10 * Pow10(k - 1)
  }

  lemma {:induction false} NatToStringLength(n: nat, k: nat)
    requires 1 <= k && n < Pow10(k)
    ensures |NatToString(n)| <= k
  {
    assert Pow10(1) == 10;
    if n >= 10 {
      assert k >= 2;
      assert n / 10 < Pow10(k - 1);
      NatToStringLength(n / 10, k - 1);
    }
  }

  /** The postal code of a four-digit and a three-digit number. */
  function FormatPostal(a: nat, b: nat): string
    requires a < 10000 && b < 1000
  {
    ZeroPad(NatToString(a), 4) + "-" + ZeroPad(NatToString(b), 3)
  }

  /** A number below `10^k` zero-padded to `k` places takes exactly `k`
      digits and reads back as itself. */
  lemma PaddedExactWidth(n: nat, k: nat)
    requires 1 <= k && n < Pow10(k)
    ensures var p := ZeroPad(NatToString(n), k);
      |p| == k && (forall i :: 0 <= i < k ==> IsAsciiDigit(p[i])) && DigitsValue(p) == n
  {
    NatToStringLength(n, k);
    ZeroPadDigits(n, k);
  }

  /** Every code built from a four-digit and a three-digit number is valid,
      and its two digit groups read back as those numbers. */
  lemma PostalRoundTrip(a: nat, b: nat)
    requires a < 10000 && b < 1000
    ensures var pc := FormatPostal(a, b);
      && IsValidPostalCode(pc)
      && DigitsValue(pc[..4]) == a && DigitsValue(pc[5..]) == b
  {
    assert Pow10(4) == 10000 by { assert Pow10(2) == 100; }
    assert Pow10(3) == 1000;
    PaddedExactWidth(a, 4);
    PaddedExactWidth(b, 3);
    var x, y := ZeroPad(NatToString(a), 4), ZeroPad(NatToString(b), 3);
    var pc := FormatPostal(a, b);
    assert pc == x + "-" + y;
    assert pc[..4] == x && pc[5..] == y;
    assert PostalShape(pc);
    StripOfPadded([], pc, []);
    assert [] + pc + [] == pc;
  }

  // ===== e-mail =====

  predicate IsLocalChar(c: char) {
    IsAsciiLetter(c) || IsAsciiDigit(c) || c == '.' || c == '_' || c == '%' || c == '+' || c == '-'
  }

  predicate IsDomainChar(c: char) {
    IsAsciiLetter(c) || IsAsciiDigit(c) || c == '.' || c == '-'
  }

  /** `s` splits as `local@domain.tld` with the `@` at `a` and the dot before
      the top-level domain at `d`. */
  predicate EmailSplit(s: string, a: int, d: int) {
    && 0 < a && a + 1 < d && d + 2 < |s|
    && s[a] == '@' && s[d] == '.'
    && (forall i :: 0 <= i < a ==> IsLocalChar(s[i]))
    && (forall i :: a < i < d ==> IsDomainChar(s[i]))
    && (forall i :: d < i < |s| ==> IsAsciiLetter(s[i]))
  }

  /** `re.match(r'^[a-zA-Z0-9._%+-]+@[a-zA-Z0-9.-]+\.[a-zA-Z]{2,}$', s)`: some
      split of `s` fits the pattern. */
  ghost predicate MatchesEmailPattern(s: string) {
    exists a, d :: EmailSplit(s, a, d)
  }

  function IndexOf(s: string, c: char): (r: Option<nat>)
    ensures r.Some? ==> r.value < |s| && s[r.value] == c && forall j :: 0 <= j < r.value ==> s[j] != c
    ensures r.None? ==> forall j :: 0 <= j < |s| ==> s[j] != c
  {
    if s == [] then None
    else if s[0] == c then Some(0)
    else match IndexOf(s[1..], c)
      case None => None
      case Some(k) => Some(k + 1)
  }

  function LastIndexOf(s: string, c: char): (r: Option<nat>)
    ensures r.Some? ==> r.value < |s| && s[r.value] == c && forall j :: r.value < j < |s| ==> s[j] != c
    ensures r.None? ==> forall j :: 0 <= j < |s| ==> s[j] != c
  {
    if s == [] then None
    else if s[|s| - 1] == c then Some(|s| - 1)
    else LastIndexOf(s[..|s| - 1], c)
  }

  /** The pattern decided without search: the first `@` and the last dot are
      the only candidates for the split. */
  predicate EmailCheck(s: string) {
    match IndexOf(s, '@')
    case None => false
    case Some(a) =>
      match LastIndexOf(s, '.')
      case None => false
      case Some(d) => EmailSplit(s, a, d)
  }

  /** `is_valid_email`: empty, or the stripped value fits the pattern. */
  predicate IsValidEmail(email: string) {
    email == "" || EmailCheck(Strip(email))
  }

  /** The deterministic check accepts exactly the strings the regular
      expression matches. */
  lemma EmailCheckIffPattern(s: string)
    ensures EmailCheck(s) <==> MatchesEmailPattern(s)
  {
    if MatchesEmailPattern(s) {
      var a, d :| EmailSplit(s, a, d);
      var fa, ld := IndexOf(s, '@'), LastIndexOf(s, '.');
      assert fa == Some(a) by {
        assert s[a] == '@';
        assert forall j :: 0 <= j < a ==> IsLocalChar(s[j]) && s[j] != '@';
      }
      assert ld == Some(d) by {
        assert s[d] == '.';
        assert forall j :: d < j < |s| ==> IsAsciiLetter(s[j]) && s[j] != '.';
      }
    }
  }

  /** `is_valid_email` in the terms of its regular expression. */
  lemma EmailValidIff(email: string)
    ensures IsValidEmail(email) <==> email == "" || MatchesEmailPattern(Strip(email))
  {
    EmailCheckIffPattern(Strip(email));
  }

  // ===== times, dates and ranges =====

  /** A value with `hour` and `minute` attributes, or anything else. */
  datatype TimeValue = Clock(hour: int, minute: int) | NoClock

  /** `to_minutes`: hour * 60 + minute, and 0 for a value without them. */
  function Minutes(t: TimeValue): int {
    match t
    case Clock(h, m) => h * 60 + m
    case NoClock => 0
  }

  /** `check_time_overlap`: the half-open intervals [s1, e1) and [s2, e2). */
  predicate CheckTimeOverlap(s1: TimeValue, e1: TimeValue, s2: TimeValue, e2: TimeValue) {
    Minutes(s1) < Minutes(e2) && Minutes(s2) < Minutes(e1)
  }

  /** Minute `t` lies in [start, end). */
  predicate During(t: int, start: TimeValue, end: TimeValue) {
    Minutes(start) <= t < Minutes(end)
  }

  /** Two non-empty intervals overlap exactly when some minute lies in both. */
  lemma OverlapIffCommonMinute(s1: TimeValue, e1: TimeValue, s2: TimeValue, e2: TimeValue)
    requires Minutes(s1) < Minutes(e1) && Minutes(s2) < Minutes(e2)
    ensures CheckTimeOverlap(s1, e1, s2, e2) <==> exists t :: During(t, s1, e1) && During(t, s2, e2)
  {
    if CheckTimeOverlap(s1, e1, s2, e2) {
      var t := if Minutes(s1) < Minutes(s2) then Minutes(s2) else Minutes(s1);
      assert During(t, s1, e1) && During(t, s2, e2);
    }
  }

  /** Overlap is symmetric, back-to-back intervals do not overlap, and a
      non-empty interval overlaps itself. */
  lemma OverlapProperties(s1: TimeValue, e1: TimeValue, s2: TimeValue, e2: TimeValue)
    ensures CheckTimeOverlap(s1, e1, s2, e2) == CheckTimeOverlap(s2, e2, s1, e1)
    ensures Minutes(e1) == Minutes(s2) ==> !CheckTimeOverlap(s1, e1, s2, e2)
    ensures CheckTimeOverlap(s1, e1, s1, e1) <==> Minutes(s1) < Minutes(e1)
  {
  }

  /** `is_valid_time`: an hour in 0..23 and a minute in 0..59. */
  predicate IsValidTime(t: TimeValue) {
    t.Clock? && 0 <= t.hour <= 23 && 0 <= t.minute <= 59
  }

  /** `validate_range`: not below a given minimum and not above a given maximum. */
  predicate ValidateRange(value: real, minVal: Option<real>, maxVal: Option<real>) {
    !(minVal.Some? && value < minVal.value) && !(maxVal.Some? && value > maxVal.value)
  }

  /** Without bounds every value passes; tighter bounds accept fewer values. */
  lemma RangeProperties(value: real, lo: real, hi: real, lo': real, hi': real)
    ensures ValidateRange(value, None, None)
    ensures ValidateRange(value, Some(lo), Some(hi)) <==> lo <= value <= hi
    ensures lo <= lo' && hi' <= hi && ValidateRange(value, Some(lo'), Some(hi')) ==> ValidateRange(value, Some(lo), Some(hi))
  {
  }

  // ===== validate_form_data =====

  /** The `'type'` of a rule. A rule without a type, or with a type the
      validator does not know, is `TextField` and gets no format check. */
  datatype FieldType = TextField | PhoneField | EmailField | NifField | PostalCodeField

  /** One entry of the validation rules: `required`, `fieldLabel` and `type`. */
  datatype Rule = Rule(required: bool, fieldLabel: Option<string>, fieldType: FieldType)

  function Label(field: string, rule: Rule): string {
    if rule.fieldLabel.Some? then rule.fieldLabel.value else field
  }

  function RequiredFieldMessage(fieldLabel: string): string {
    "Campo '" + fieldLabel + "' é obrigatório"
  }

  function TypeMessage(fieldType: FieldType, fieldLabel: string): string {
    match fieldType
    case PhoneField => "'" + fieldLabel + "' deve ter 9 dígitos"
    case EmailField => "'" + fieldLabel + "' tem formato inválido"
    case NifField => "'" + fieldLabel + "' deve ter 9 dígitos"
    case PostalCodeField => "'" + fieldLabel + "' deve estar no formato XXXX-XXX"
    case TextField => ""
  }

  /** The missing-value test of `validate_form_data`: `None`, or a string of
      length zero (whitespace is not stripped here). */
  predicate IsBlank(v: Value) {
    v == Null || (v.Str? && v.s == "")
  }

  /** The type predicate applied to a present value. An int other than 0 has
      no `replace`/`strip`, so the phone, e-mail and postal-code checks raise;
      0 is falsy and passes; the NIF check first converts with `str()`. */
  function TypeCheck(fieldType: FieldType, v: Value): Checked<bool> {
    match fieldType
    case TextField => Done(true)
    case PhoneField =>
      (match v case Str(s) => Done(IsValidPhone(s)) case Int(n) => if n == 0 then Done(true) else Raised case Null => Done(true))
    case EmailField =>
      (match v case Str(s) => Done(IsValidEmail(s)) case Int(n) => if n == 0 then Done(true) else Raised case Null => Done(true))
    case NifField =>
      (match v case Str(s) => Done(IsValidNif(s)) case Int(n) => Done(n == 0 || IsValidNif(IntToString(n))) case Null => Done(true))
    case PostalCodeField =>
      (match v case Str(s) => Done(IsValidPostalCode(s)) case Int(n) => if n == 0 then Done(true) else Raised case Null => Done(true))
  }

  /** The messages one rule contributes. */
  function RuleErrors(form: map<string, Value>, field: string, rule: Rule): Checked<seq<string>> {
    var fieldLabel := Label(field, rule);
    var v := if field in form then form[field] else Null;
    if field !in form && rule.required then Done([RequiredFieldMessage(fieldLabel)])
    else if IsBlank(v) then Done(if rule.required then [RequiredFieldMessage(fieldLabel)] else [])
    else match TypeCheck(rule.fieldType, v)
      case Raised => Raised
      case Done(ok) => Done(if ok then [] else [TypeMessage(rule.fieldType, fieldLabel)])
  }

  /** `validate_form_data`: the rules' messages in rule order; raised as soon
      as one type check raises. */
  function FormErrors(form: map<string, Value>, rules: seq<(string, Rule)>): Checked<seq<string>> {
    if rules == [] then Done([])
    else
      var last := rules[|rules| - 1];
      match FormErrors(form, rules[..|rules| - 1])
      case Raised => Raised
      case Done(init) =>
        match RuleErrors(form, last.0, last.1)
        case Raised => Raised
        case Done(more) => Done(init + more)
  }

  method ValidateFormData(form: map<string, Value>, rules: seq<(string, Rule)>) returns (r: Checked<seq<string>>)
    ensures r == FormErrors(form, rules)
  {
    var errors: seq<string> := [];
    for i := 0 to |rules|
      invariant FormErrors(form, rules[..i]) == Done(errors)
    {
      FormErrorsStep(form, rules, i);
      assert errors + [] == errors;
      var (field, rule) := rules[i];
      var fieldLabel := Label(field, rule);
      if field !in form && rule.required {
        assert RuleErrors(form, field, rule) == Done([RequiredFieldMessage(fieldLabel)]);
        errors := errors + [RequiredFieldMessage(fieldLabel)];
        continue;
      }
      var value := if field in form then form[field] else Null;
      if value == Null || (value.Str? && |value.s| == 0) {
        assert IsBlank(value);
        if rule.required {
          errors := errors + [RequiredFieldMessage(fieldLabel)];
        }
        continue;
      }
      var check := TypeCheck(rule.fieldType, value);
      if check.Raised? {
        assert FormErrors(form, rules[..i + 1]) == Raised;
        PrefixRaised(form, rules, i + 1);
        assert rules[..|rules|] == rules;
        return Raised;
      }
      assert !IsBlank(value);
      assert RuleErrors(form, field, rule) == Done(if check.value then [] else [TypeMessage(rule.fieldType, fieldLabel)]);
      if !check.value {
        errors := errors + [TypeMessage(rule.fieldType, fieldLabel)];
      }
    }
    assert rules[..|rules|] == rules;
    r := Done(errors);
  }

  lemma FormErrorsStep(form: map<string, Value>, rules: seq<(string, Rule)>, i: nat)
    requires i < |rules|
    ensures FormErrors(form, rules[..i + 1]) ==
      match FormErrors(form, rules[..i])
      case Raised => Raised
      case Done(init) =>
        match RuleErrors(form, rules[i].0, rules[i].1)
        case Raised => Raised
        case Done(more) => Done(init + more)
  {
    assert rules[..i + 1][..i] == rules[..i];
  }

  /** Once a prefix of the rules raises, so do all longer prefixes. */
  lemma {:induction false} PrefixRaised(form: map<string, Value>, rules: seq<(string, Rule)>, k: nat)
    requires k <= |rules| && FormErrors(form, rules[..k]) == Raised
    ensures FormErrors(form, rules) == Raised
    decreases |rules| - k
  {
    if k < |rules| {
      assert rules[..k + 1][..k] == rules[..k];
      PrefixRaised(form, rules, k + 1);
    } else {
      assert rules[..k] == rules;
    }
  }

  /** Each rule contributes at most one message. */
  lemma {:induction false} FormErrorsAtMostOnePerRule(form: map<string, Value>, rules: seq<(string, Rule)>)
    ensures FormErrors(form, rules).Done? ==> |FormErrors(form, rules).value| <= |rules|
  {
    if rules != [] {
      FormErrorsAtMostOnePerRule(form, rules[..|rules| - 1]);
    }
  }

  /** A form whose values are all strings or `None` never makes the
      validator raise. */
  lemma {:induction false} FormErrorsOnStringsDone(form: map<string, Value>, rules: seq<(string, Rule)>)
    requires forall k :: k in form ==> form[k].Str? || form[k] == Null
    ensures FormErrors(form, rules).Done?
  {
    if rules != [] {
      FormErrorsOnStringsDone(form, rules[..|rules| - 1]);
    }
  }

  /** A missing value gets the "required" message exactly when the rule is
      required and nothing else; a present string gets the rule's format
      message exactly when the format check fails. */
  lemma RuleErrorsCases(form: map<string, Value>, field: string, rule: Rule)
    ensures (field !in form || IsBlank(form[field])) ==>
      RuleErrors(form, field, rule) == Done(if rule.required then [RequiredFieldMessage(Label(field, rule))] else [])
    ensures field in form && form[field].Str? && form[field].s != "" ==>
      var ok := match rule.fieldType
        case TextField => true
        case PhoneField => IsValidPhone(form[field].s)
        case EmailField => IsValidEmail(form[field].s)
        case NifField => IsValidNif(form[field].s)
        case PostalCodeField => IsValidPostalCode(form[field].s);
      RuleErrors(form, field, rule) == Done(if ok then [] else [TypeMessage(rule.fieldType, Label(field, rule))])
  {
  }

  // ===== compile_validation_errors =====

  /** A value in the `validation_results` dictionary: a bool, a pair
      `(is_valid, message)`, a list of messages, a string, or anything else. */
  datatype CheckResult =
    | BoolResult(ok: bool)
    | PairResult(valid: bool, message: string)
    | ListResult(messages: seq<string>)
    | TextResult(text: string)
    | OtherResult

  function NonEmpty(msgs: seq<string>): (r: seq<string>)
    ensures forall i :: 0 <= i < |r| ==> r[i] != "" && r[i] in msgs
    ensures (forall i :: 0 <= i < |msgs| ==> msgs[i] == "") ==> r == []
  {
    if msgs == [] then []
    else NonEmpty(msgs[..|msgs| - 1]) + (if msgs[|msgs| - 1] != "" then [msgs[|msgs| - 1]] else [])
  }

  function ResultMessages(field: string, result: CheckResult): seq<string> {
    match result
    case BoolResult(ok) => if ok then [] else ["Campo '" + field + "' tem valor inválido"]
    case PairResult(valid, message) => if !valid && message != "" then [message] else []
    case ListResult(messages) => NonEmpty(messages)
    case TextResult(text) => if text != "" then [field + ": " + text] else []
    case OtherResult => []
  }

  /** Whether a result reports no problem. */
  predicate Passes(result: CheckResult) {
    match result
    case BoolResult(ok) => ok
    case PairResult(valid, message) => valid || message == ""
    case ListResult(messages) => forall i :: 0 <= i < |messages| ==> messages[i] == ""
    case TextResult(text) => text == ""
    case OtherResult => true
  }

  function CompiledErrors(results: seq<(string, CheckResult)>): seq<string> {
    if results == [] then []
    else
      var last := results[|results| - 1];
      CompiledErrors(results[..|results| - 1]) + ResultMessages(last.0, last.1)
  }

  method CompileValidationErrors(results: seq<(string, CheckResult)>) returns (errors: seq<string>)
    ensures errors == CompiledErrors(results)
  {
    errors := [];
    for i := 0 to |results|
      invariant errors == CompiledErrors(results[..i])
    {
      assert results[..i + 1][..i] == results[..i];
      var (field, result) := results[i];
      match result {
        case BoolResult(ok) =>
          if !ok { errors := errors + ["Campo '" + field + "' tem valor inválido"]; }
        case PairResult(valid, message) =>
          if !valid && message != "" { errors := errors + [message]; }
        case ListResult(messages) =>
          errors := errors + NonEmpty(messages);
        case TextResult(text) =>
          if text != "" { errors := errors + [field + ": " + text]; }
        case OtherResult =>
      }
    }
    assert results[..|results|] == results;
  }

  /** No compiled message is empty, and there is none exactly when every
      result passes. */
  lemma {:induction false} CompiledErrorsProperties(results: seq<(string, CheckResult)>)
    ensures forall i :: 0 <= i < |CompiledErrors(results)| ==> CompiledErrors(results)[i] != ""
    ensures CompiledErrors(results) == [] <==> forall i :: 0 <= i < |results| ==> Passes(results[i].1)
  {
    CompiledErrorsNonEmpty(results);
    CompiledErrorsEmptyIff(results);
  }

  lemma {:induction false} CompiledErrorsNonEmpty(results: seq<(string, CheckResult)>)
    ensures forall i :: 0 <= i < |CompiledErrors(results)| ==> CompiledErrors(results)[i] != ""
  {
    if results != [] {
      CompiledErrorsNonEmpty(results[..|results| - 1]);
    }
  }

  lemma {:induction false} CompiledErrorsEmptyIff(results: seq<(string, CheckResult)>)
    ensures CompiledErrors(results) == [] <==> forall i :: 0 <= i < |results| ==> Passes(results[i].1)
  {
    if results != [] {
      var init := results[..|results| - 1];
      CompiledErrorsEmptyIff(init);
      var last := results[|results| - 1];
      if !Passes(last.1) && last.1.ListResult? {
        var k :| 0 <= k < |last.1.messages| && last.1.messages[k] != "";
        NonEmptyKeeps(last.1.messages, k);
      }
      assert forall i :: 0 <= i < |init| ==> init[i] == results[i];
    }
  }

  lemma {:induction false} NonEmptyKeeps(msgs: seq<string>, k: nat)
    requires k < |msgs| && msgs[k] != ""
    ensures NonEmpty(msgs) != []
  {
    if k < |msgs| - 1 {
      NonEmptyKeeps(msgs[..|msgs| - 1], k);
    }
  }

  // ===== formatting =====

  /** `format_display_name`. */
  function FormatDisplayName(name: string, maxLength: int): (r: string)
    ensures name == "" ==> r == "N/A"
    ensures name != "" && |name| <= maxLength ==> r == name
    ensures name != "" && |name| > maxLength && maxLength >= 3 ==>
      |r| == maxLength && r == name[..maxLength - 3] + "..."
  {
    if name == "" then "N/A"
    else if |name| > maxLength then PySlice(name, 0, maxLength - 3) + "..."
    else name
  }

  // ===== normalize_string =====

  /** Canonical decomposition of a lower-case Latin-1 letter: base letter
      followed by its combining mark; other characters are their own
      decomposition. */
  function DecomposeLower(c: char): (r: seq<char>)
    ensures |r| > 0
  {
    match c
    case 'à' => ['a', '\U{300}']  case 'á' => ['a', '\U{301}']  case 'â' => ['a', '\U{302}']
    case 'ã' => ['a', '\U{303}']  case 'ä' => ['a', '\U{308}']  case 'å' => ['a', '\U{30A}']
    case 'ç' => ['c', '\U{327}']
    case 'è' => ['e', '\U{300}']  case 'é' => ['e', '\U{301}']  case 'ê' => ['e', '\U{302}']  case 'ë' => ['e', '\U{308}']
    case 'ì' => ['i', '\U{300}']  case 'í' => ['i', '\U{301}']  case 'î' => ['i', '\U{302}']  case 'ï' => ['i', '\U{308}']
    case 'ñ' => ['n', '\U{303}']
    case 'ò' => ['o', '\U{300}']  case 'ó' => ['o', '\U{301}']  case 'ô' => ['o', '\U{302}']
    case 'õ' => ['o', '\U{303}']  case 'ö' => ['o', '\U{308}']
    case 'ù' => ['u', '\U{300}']  case 'ú' => ['u', '\U{301}']  case 'û' => ['u', '\U{302}']  case 'ü' => ['u', '\U{308}']
    case 'ý' => ['y', '\U{301}']  case 'ÿ' => ['y', '\U{308}']
    case _ => [c]
  }

  /** `unicodedata.normalize('NFD', s)` on a lower-cased string. */
  function Nfd(s: string): string {
    if s == [] then [] else DecomposeLower(s[0]) + Nfd(s[1..])
  }

  predicate IsAscii(c: char) { c as int < 128 }

  /** `s.encode('ascii', 'ignore').decode()`: drops every non-ASCII character. */
  function AsciiOnly(s: string): (r: string)
    ensures forall i :: 0 <= i < |r| ==> IsAscii(r[i])
  {
    if s == [] then [] else (if IsAscii(s[0]) then [s[0]] else []) + AsciiOnly(s[1..])
  }

  /** `normalize_string`: "" for a non-string or empty value; otherwise
      lower-cased, decomposed, and stripped of every non-ASCII character. */
  function NormalizeString(v: Value): (r: string)
    ensures forall i :: 0 <= i < |r| ==> IsAscii(r[i])
    ensures !v.Str? || v.s == "" ==> r == ""
  {
    if !v.Str? || v.s == "" then "" else AsciiOnly(Nfd(Lower(v.s)))
  }

  lemma {:induction false} NfdNoUpper(s: string)
    requires forall i :: 0 <= i < |s| ==> !IsUpperLatin(s[i])
    ensures forall i :: 0 <= i < |Nfd(s)| ==> !IsUpperLatin(Nfd(s)[i])
  {
    if s != [] {
      NfdNoUpper(s[1..]);
    }
  }

  lemma {:induction false} AsciiOnlyNoUpper(s: string)
    requires forall i :: 0 <= i < |s| ==> !IsUpperLatin(s[i])
    ensures forall i :: 0 <= i < |AsciiOnly(s)| ==> !IsUpperLatin(AsciiOnly(s)[i])
  {
    if s != [] {
      AsciiOnlyNoUpper(s[1..]);
    }
  }

  lemma {:induction false} NfdOfAscii(s: string)
    requires forall i :: 0 <= i < |s| ==> IsAscii(s[i])
    ensures Nfd(s) == s
  {
    if s != [] {
      NfdOfAscii(s[1..]);
      assert s == [s[0]] + s[1..];
    }
  }

  lemma {:induction false} AsciiOnlyOfAscii(s: string)
    requires forall i :: 0 <= i < |s| ==> IsAscii(s[i])
    ensures AsciiOnly(s) == s
  {
    if s != [] {
      AsciiOnlyOfAscii(s[1..]);
      assert s == [s[0]] + s[1..];
    }
  }

  /** Normalising twice gives what normalising once gives. */
  lemma NormalizeIdempotent(v: Value)
    ensures NormalizeString(Str(NormalizeString(v))) == NormalizeString(v)
  {
    var r := NormalizeString(v);
    if r != "" {
      var low := Lower(v.s);
      assert forall i :: 0 <= i < |low| ==> !IsUpperLatin(low[i]);
      NfdNoUpper(low);
      AsciiOnlyNoUpper(Nfd(low));
      assert forall i :: 0 <= i < |r| ==> !IsUpperLatin(r[i]);
      assert Lower(r) == r;
      NfdOfAscii(r);
      AsciiOnlyOfAscii(r);
    }
  }

  /** Accents do not matter: "José" normalises to "jose". */
  lemma NormalizeAccented()
    ensures NormalizeString(Str("José")) == "jose"
  {
    assert Lower("José") == "josé";
    NfdJose();
    AsciiOnlyJose();
  }

  lemma NfdJose()
    ensures Nfd("josé") == "jose" + "\U{301}"
  {
    assert Nfd("é") == "e\U{301}";
    assert Nfd("josé") == "jos" + Nfd("é");
  }

  lemma AsciiOnlyJose()
    ensures AsciiOnly("jose" + "\U{301}") == "jose"
  {
    AsciiOnlyConcat("jose", "\U{301}");
    AsciiOnlyOfAscii("jose");
    assert AsciiOnly("\U{301}") == "";
  }

  /** Case does not matter: "JOÃO" normalises to "joao". */
  lemma NormalizeUpperAccented()
    ensures NormalizeString(Str("JOÃO")) == "joao"
  {
    assert Lower("JOÃO") == "joão";
    NfdJoao();
    AsciiOnlyJoao();
  }

  lemma NfdJoao()
    ensures Nfd("joão") == "joa" + "\U{303}" + "o"
  {
    assert Nfd("o") == "o";
    assert Nfd("ão") == "a\U{303}o";
    assert Nfd("joão") == "jo" + Nfd("ão");
  }

  lemma AsciiOnlyJoao()
    ensures AsciiOnly("joa" + "\U{303}" + "o") == "joao"
  {
    AsciiOnlyDropsMark("joa", '\U{303}', "o");
  }

  /** A non-ASCII mark between two ASCII strings is all that is dropped. */
  lemma AsciiOnlyDropsMark(a: string, c: char, b: string)
    requires forall i :: 0 <= i < |a| ==> IsAscii(a[i])
    requires forall i :: 0 <= i < |b| ==> IsAscii(b[i])
    requires !IsAscii(c)
    ensures AsciiOnly(a + [c] + b) == a + b
  {
    assert AsciiOnly(a + [c]) == a by {
      AsciiOnlyConcat(a, [c]);
      AsciiOnlyOfAscii(a);
      assert AsciiOnly([c]) == [];
      assert a + [] == a;
    }
    AsciiOnlyConcat(a + [c], b);
    AsciiOnlyOfAscii(b);
  }

  lemma {:induction false} AsciiOnlyConcat(a: string, b: string)
    ensures AsciiOnly(a + b) == AsciiOnly(a) + AsciiOnly(b)
  {
    if a == [] {
      assert a + b == b;
    } else {
      assert (a + b)[1..] == a[1..] + b;
      AsciiOnlyConcat(a[1..], b);
    }
  }
}
