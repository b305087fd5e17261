/**
 Form validation: the three pure validators (required, e-mail shape, phone
 shape), the per-field dispatch and the whole-form pass.

 The two regular expressions of the source are stated twice: once
 declaratively (`EmailShape`, `PhoneShape`, in terms of how the string
 splits) and once as the scanning checkers the validator runs
 (`MatchEmail`, `MatchPhone`); lemmas prove each pair equivalent.
 Errors are kept as tags; their text is the translation of `ErrorKey`.
 */
module Validation {
  import opened Wrappers
  import opened Text
  import opened Seqs
  import I18n

  datatype FieldError = Required(field: string) | Invalid(field: string)

  /** Fields whose only rule is that they are filled in. */
  const RequiredFields: set<string> := {"firstName", "lastName", "startDate", "birthDate", "department", "position"}

  /** Every field the validator has a rule for; any other name always validates. */
  const KnownFields: set<string> := RequiredFields + {"phone", "email"}

  /** `validateRequired`: something other than whitespace is left after trimming. */
  function ValidateRequired(value: string): (ok: bool)
    ensures ok <==> !AllSpace(value)
    ensures ok <==> exists i :: 0 <= i < |value| && !IsSpace(value[i])
    ensures value == "" ==> !ok
  {
    |Trim(value)| > 0
  }

  // ---------------------------------------------------------------- e-mail

  /** A character of the class `[^\s@]`. */
  predicate EmailChar(c: char) {
    !IsSpace(c) && c != '@'
  }

  /** A non-empty run of `[^\s@]`. */
  ghost predicate EmailPart(s: string) {
    |s| > 0 && forall i :: 0 <= i < |s| ==> EmailChar(s[i])
  }

  /** `s` is `a + "@" + b + "." + c` with the `@` at `at` and the `.` at `dot`, each part an email part. */
  ghost predicate EmailSplitAt(s: string, at: int, dot: int) {
    && 0 <= at < dot < |s| && s[at] == '@' && s[dot] == '.'
    && EmailPart(s[..at]) && EmailPart(s[at + 1..dot]) && EmailPart(s[dot + 1..])
  }

  /** The language of `^[^\s@]+@[^\s@]+\.[^\s@]+$`. */
  ghost predicate EmailShape(s: string) {
    exists at, dot :: EmailSplitAt(s, at, dot)
  }

  /** Any three email parts joined as `a@b.c` have the e-mail shape. */
  lemma EmailShapeOfParts(a: string, b: string, c: string)
    requires EmailPart(a) && EmailPart(b) && EmailPart(c)
    ensures EmailShape(a + "@" + b + "." + c)
  {
    var s := a + "@" + b + "." + c;
    var at, dot := |a|, |a| + 1 + |b|;
    assert s[..at] == a && s[at + 1..dot] == b && s[dot + 1..] == c;
    assert EmailSplitAt(s, at, dot);
  }

  /** Every character belongs to `[^\s@]` (the scan). */
  predicate PartChars(s: string) {
    |s| == 0 || (EmailChar(s[0]) && PartChars(s[1..]))
  }

  /** A `.` at an index strictly between the first and the last (the scan). */
  predicate InnerDot(d: string) {
    |d| >= 3 && (d[1] == '.' || InnerDot(d[1..]))
  }

  /** The checker the validator runs: split at the first `@`, then scan both sides. */
  function MatchEmail(s: string): bool {
    var at := IndexOf(s, '@');
    0 < at < |s| && PartChars(s[..at]) && PartChars(s[at + 1..]) && InnerDot(s[at + 1..])
  }

  lemma {:induction false} PartCharsAll(s: string)
    ensures PartChars(s) <==> forall i :: 0 <= i < |s| ==> EmailChar(s[i])
  {
    if |s| > 0 {
      PartCharsAll(s[1..]);
      assert forall i :: 1 <= i < |s| ==> s[i] == s[1..][i - 1];
    }
  }

  lemma {:induction false} InnerDotAt(d: string)
    ensures InnerDot(d) <==> exists k :: 1 <= k < |d| - 1 && d[k] == '.'
  {
    if |d| >= 3 {
      InnerDotAt(d[1..]);
      if InnerDot(d) && d[1] != '.' {
        var k :| 1 <= k < |d[1..]| - 1 && d[1..][k] == '.';
        assert d[k + 1] == '.';
      }
      if exists k :: 1 <= k < |d| - 1 && d[k] == '.' {
        var k :| 1 <= k < |d| - 1 && d[k] == '.';
        if k > 1 {
          assert d[1..][k - 1] == '.';
        }
      }
    }
  }

  /** The checker accepts exactly the strings of the e-mail shape. */
  lemma MatchEmailIsShape(s: string)
    ensures MatchEmail(s) <==> EmailShape(s)
  {
    if MatchEmail(s) {
      MatchedEmailHasShape(s);
    }
    if EmailShape(s) {
      var at, dot :| EmailSplitAt(s, at, dot);
      ShapedEmailMatches(s, at, dot);
    }
  }

  lemma MatchedEmailHasShape(s: string)
    requires MatchEmail(s)
    ensures EmailShape(s)
  {
    var at := IndexOf(s, '@');
    var d := s[at + 1..];
    PartCharsAll(s[..at]);
    PartCharsAll(d);
    InnerDotAt(d);
    var k :| 1 <= k < |d| - 1 && d[k] == '.';
    var dot := at + 1 + k;
    assert s[at + 1..dot] == d[..k] && s[dot + 1..] == d[k + 1..];
    assert EmailSplitAt(s, at, dot);
  }

  lemma ShapedEmailMatches(s: string, at: int, dot: int)
    requires EmailSplitAt(s, at, dot)
    ensures MatchEmail(s)
  {
    forall j | 0 <= j < at ensures s[j] != '@' {
      assert s[..at][j] == s[j];
    }
    assert IndexOf(s, '@') == at;
    var d := s[at + 1..];
    forall j | 0 <= j < |d| ensures EmailChar(d[j]) {
      if at + 1 + j < dot {
        assert d[j] == s[at + 1..dot][j];
      } else if at + 1 + j > dot {
        assert d[j] == s[dot + 1..][j - (dot - at)];
      }
    }
    PartCharsAll(s[..at]);
    PartCharsAll(d);
    InnerDotAt(d);
    assert d[dot - at - 1] == '.';
  }

  // ---------------------------------------------------------------- phone

  /** A character of the class `[\d\s\-()]`. */
  predicate PhoneChar(c: char) {
    ('0' <= c <= '9') || IsSpace(c) || c == '-' || c == '(' || c == ')'
  }

  /** `[\d\s\-()]{10,}`. */
  ghost predicate PhoneBody(r: string) {
    |r| >= 10 && forall i :: 0 <= i < |r| ==> PhoneChar(r[i])
  }

  /** The language of `^[+]?[\d\s\-()]{10,}$`. */
  ghost predicate PhoneShape(s: string) {
    PhoneBody(s) || (|s| > 0 && s[0] == '+' && PhoneBody(s[1..]))
  }

  predicate AllPhoneChars(s: string) {
    |s| == 0 || (PhoneChar(s[0]) && AllPhoneChars(s[1..]))
  }

  /** The checker the validator runs: skip one leading `+`, then count class characters. */
  function MatchPhone(s: string): bool {
    var body := if |s| > 0 && s[0] == '+' then s[1..] else s;
    |body| >= 10 && AllPhoneChars(body)
  }

  lemma {:induction false} AllPhoneCharsAll(s: string)
    ensures AllPhoneChars(s) <==> forall i :: 0 <= i < |s| ==> PhoneChar(s[i])
  {
    if |s| > 0 {
      AllPhoneCharsAll(s[1..]);
      assert forall i :: 1 <= i < |s| ==> s[i] == s[1..][i - 1];
    }
  }

  /** The checker accepts exactly the strings of the phone shape. */
  lemma MatchPhoneIsShape(s: string)
    ensures MatchPhone(s) <==> PhoneShape(s)
  {
    AllPhoneCharsAll(s);
    if |s| > 0 {
      AllPhoneCharsAll(s[1..]);
      if s[0] == '+' {
        assert !PhoneChar(s[0]);
      }
    }
  }

  // ---------------------------------------------------------------- dispatch

  /** The shared tail of the phone and e-mail rules: required first, then the format check `wellFormed`. */
  function CheckFormat(field: string, value: string, wellFormed: bool): (r: Option<FieldError>)
    ensures r == Some(Required(field)) <==> AllSpace(value)
    ensures r == Some(Invalid(field)) <==> !AllSpace(value) && !wellFormed
    ensures r == None <==> !AllSpace(value) && wellFormed
  {
    if !ValidateRequired(value) then Some(Required(field))
    else if wellFormed then None
    else Some(Invalid(field))
  }

  /** `validateField`: the error for one field, or None. */
  function ValidateField(field: string, value: string): (r: Option<FieldError>)
    ensures field !in KnownFields ==> r == None
    ensures r.Some? ==> r.value.field == field
    ensures r == Some(Required(field)) <==> field in KnownFields && AllSpace(value)
    ensures r == Some(Invalid(field)) <==>
      !AllSpace(value) && ((field == "email" && !EmailShape(value)) || (field == "phone" && !PhoneShape(value)))
  {
    if field == "phone" then
      MatchPhoneIsShape(value);
      CheckFormat(field, value, MatchPhone(value))
    else if field == "email" then
      MatchEmailIsShape(value);
      CheckFormat(field, value, MatchEmail(value))
    else if field in RequiredFields then
      if ValidateRequired(value) then None else Some(Required(field))
    else None
  }

  /** `validateForm`: the failing fields of the form, each with its error. */
  function ValidateForm(data: map<string, string>): (errors: map<string, FieldError>)
    ensures errors.Keys <= data.Keys && errors.Keys <= KnownFields
    ensures forall f {:trigger errors[f]} :: f in errors ==> f in data && ValidateField(f, data[f]) == Some(errors[f])
    ensures forall f {:trigger ValidateField(f, data[f])} :: f in data && ValidateField(f, data[f]).Some? ==> f in errors
  {
    Failing(ValidateField, data)
  }

  /** The fields of `data` that `check` rejects, each with its error. */
  function Failing<E>(check: (string, string) -> Option<E>, data: map<string, string>): map<string, E> {
    map f | f in data && check(f, data[f]).Some? :: check(f, data[f]).value
  }

  /**
   The `forEach` of the source over one enumeration `keys` of the form's
   fields, for a per-field check `check` (the validator passes `ValidateField`).
   */
  function CollectErrors<E>(check: (string, string) -> Option<E>, data: map<string, string>, keys: seq<string>, acc: map<string, E>): map<string, E>
    requires forall i :: 0 <= i < |keys| ==> keys[i] in data
  {
    if |keys| == 0 then acc
    else
      var f := keys[0];
      var e := check(f, data[f]);
      CollectErrors(check, data, keys[1..], if e.Some? then acc[f := e.value] else acc)
  }

  /** The failing fields among those listed in `keys`. */
  function ErrorsOn<E>(check: (string, string) -> Option<E>, data: map<string, string>, keys: seq<string>): map<string, E> {
    map f | f in keys && f in data && check(f, data[f]).Some? :: check(f, data[f]).value
  }

  lemma {:induction false} CollectErrorsFold<E>(check: (string, string) -> Option<E>, data: map<string, string>, keys: seq<string>, acc: map<string, E>)
    requires forall i :: 0 <= i < |keys| ==> keys[i] in data
    requires NoDup(keys)
    requires forall i :: 0 <= i < |keys| ==> keys[i] !in acc
    ensures CollectErrors(check, data, keys, acc) == acc + ErrorsOn(check, data, keys)
  {
    if |keys| == 0 {
      assert ErrorsOn(check, data, keys) == map[];
    } else {
      var f := keys[0];
      var rest := keys[1..];
      var e := check(f, data[f]);
      var acc1 := if e.Some? then acc[f := e.value] else acc;
      NoDupTail(keys);
      assert forall i :: 0 <= i < |rest| ==> rest[i] in data && rest[i] !in acc1 by {
        forall i | 0 <= i < |rest| ensures rest[i] in data && rest[i] !in acc1 {
          assert rest[i] == keys[i + 1];
        }
      }
      assert CollectErrors(check, data, keys, acc) == CollectErrors(check, data, rest, acc1);
      CollectErrorsFold(check, data, rest, acc1);
      ErrorsOnCons(check, data, keys);
      if e.Some? {
        UpdateThenUnion(acc, ErrorsOn(check, data, rest), f, e.value);
      }
    }
  }

  /** Adding a key the right operand lacks commutes with the union. */
  lemma UpdateThenUnion<K, V>(acc: map<K, V>, later: map<K, V>, k: K, v: V)
    requires k !in later
    ensures acc[k := v] + later == acc + later[k := v]
  {
  }

  /** The failing fields among `keys` are those among its tail plus, when it fails, its head. */
  lemma ErrorsOnCons<E>(check: (string, string) -> Option<E>, data: map<string, string>, keys: seq<string>)
    requires |keys| > 0 && keys[0] in data
    ensures var e := check(keys[0], data[keys[0]]);
      var later := ErrorsOn(check, data, keys[1..]);
      ErrorsOn(check, data, keys) == if e.Some? then later[keys[0] := e.value] else later
  {
    assert forall g :: g in keys <==> g == keys[0] || g in keys[1..];
  }

  /** Whatever order the keys are enumerated in, the `forEach` builds `validateForm`'s result. */
  lemma ValidateFormOrderIndependent(data: map<string, string>, keys: seq<string>)
    requires NoDup(keys)
    requires forall f :: f in data <==> f in keys
    ensures forall i :: 0 <= i < |keys| ==> keys[i] in data
    ensures CollectErrors(ValidateField, data, keys, map[]) == ValidateForm(data)
  {
    CollectErrorsFold(ValidateField, data, keys, map[]);
    ErrorsOnEveryKey(ValidateField, data, keys);
  }

  lemma ErrorsOnEveryKey<E>(check: (string, string) -> Option<E>, data: map<string, string>, keys: seq<string>)
    requires forall f :: f in data <==> f in keys
    ensures map[] + ErrorsOn(check, data, keys) == Failing(check, data)
  {
    assert ErrorsOn(check, data, keys) == Failing(check, data);
  }

  // ---------------------------------------------------------------- messages

  /** The translation key the source passes to `t` for an error. */
  function ErrorKey(e: FieldError): string {
    match e
    case Required(f) => f + "Required"
    case Invalid(f) => f + "Invalid"
  }

  /** The text shown for an error: never empty, and the key itself when no table has it. */
  function ErrorMessage(cat: I18n.Catalog, lang: string, e: FieldError): (m: string)
    ensures m != ""
    ensures I18n.Entry(cat, lang, ErrorKey(e)).None? && I18n.Entry(cat, "en", ErrorKey(e)).None? ==> m == ErrorKey(e)
  {
    I18n.TranslationTruthy(cat, lang, ErrorKey(e));
    I18n.T(cat, lang, ErrorKey(e), [])
  }
}
