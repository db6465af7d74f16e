/** `CardValidator` of `Bend/utils/validators.py`: a request map is checked
    field by field and every failing field gets one message in the error map.
    The clock reading `datetime.now()` is the parameter `now`. */
module Validators {
  import opened Wrappers
  import opened Text

  const HolderNameField: string := "card_holder_name"
  const CardNumberField: string := "card_number"
  const ExpiryDateField: string := "expiry_date"
  const CvvField: string := "cvv"
  const CardTypeField: string := "card_type"
  const EncryptionTypeField: string := "encryption_type"

  /** The six fields a card request carries. */
  const Fields: set<string> :=
    {HolderNameField, CardNumberField, ExpiryDateField, CvvField, CardTypeField, EncryptionTypeField}

  /** The accepted values of `card_type` and `encryption_type`. */
  const CardTypes: set<string> := {"credit", "debit"}
  const EncryptionTypes: set<string> := {"sync", "async"}

  const HolderNameRequired: string := "Numele deținătorului cardului este obligatoriu"
  const HolderNameTooShort: string := "Numele deținătorului trebuie să aibă cel puțin 3 caractere"
  const HolderNameTooLong: string := "Numele deținătorului nu poate depăși 100 caractere"
  const CardNumberRequired: string := "Numărul cardului este obligatoriu"
  const CardNumberInvalid: string := "Numărul cardului este invalid (trebuie să conțină 16 cifre)"
  const ExpiryDateRequired: string := "Data expirării este obligatorie"
  const ExpiryDateInvalid: string := "Data expirării trebuie să fie în formatul MM/YYYY și să fie în viitor"
  const CvvRequired: string := "CVV este obligatoriu"
  const CvvInvalid: string := "CVV trebuie să conțină 3 sau 4 cifre"
  const CardTypeRequired: string := "Tipul cardului este obligatoriu"
  const CardTypeInvalid: string := "Tipul cardului trebuie să fie credit sau debit"
  const EncryptionTypeRequired: string := "Tipul criptării este obligatoriu"
  const EncryptionTypeInvalid: string := "Tipul criptării trebuie să fie sync sau async"

  /** A `datetime`: year, month, day, hour, minute, second, microsecond. */
  datatype DateTime = DateTime(year: int, month: int, day: int, hour: int, minute: int, second: int, microsecond: int)

  /** The ranges `datetime` enforces on its fields. */
  predicate ValidDateTime(d: DateTime) {
    && 1 <= d.year <= 9999 && 1 <= d.month <= 12 && 1 <= d.day <= 31
    && 0 <= d.hour < 24 && 0 <= d.minute < 60 && 0 <= d.second < 60 && 0 <= d.microsecond < 1000000
  }

  /** `a > b` on datetimes: field by field from the year down. */
  predicate Later(a: DateTime, b: DateTime) {
    if a.year != b.year then a.year > b.year
    else if a.month != b.month then a.month > b.month
    else if a.day != b.day then a.day > b.day
    else if a.hour != b.hour then a.hour > b.hour
    else if a.minute != b.minute then a.minute > b.minute
    else if a.second != b.second then a.second > b.second
    else a.microsecond > b.microsecond
  }

  /** `data.get(field)` is truthy: the field is there and not empty. */
  predicate Present(data: map<string, string>, field: string) {
    field in data && data[field] != ""
  }

  /** `is_valid_card_number`: after removing the spaces, 16 digits. */
  predicate IsValidCardNumber(cardNumber: string) {
    var digits := RemoveSpaces(cardNumber);
    IsDigits(digits) && |digits| == 16
  }

  /** `is_valid_cvv`: 3 or 4 digits, nothing else (no trimming). */
  predicate IsValidCvv(cvv: string) {
    IsDigits(cvv) && (|cvv| == 3 || |cvv| == 4)
  }

  /** `re.match(r'^(0[1-9]|1[0-2])/20[2-9]\d$', s)`: seven characters MM/20YD
      with the month 01..12 and the decade digit 2..9; `$` also matches
      before one final newline, so an eighth character `\n` is allowed. */
  predicate ExpiryFormat(s: string) {
    && (|s| == 7 || (|s| == 8 && s[7] == '\n'))
    && ((s[0] == '0' && '1' <= s[1] <= '9') || (s[0] == '1' && '0' <= s[1] <= '2'))
    && s[2] == '/' && s[3] == '2' && s[4] == '0' && '2' <= s[5] <= '9' && IsDigit(s[6])
  }

  function DigitValue(c: char): int {
    c as int - '0' as int
  }

  /** `int(month)` of the matched expiry. */
  function ExpiryMonth(s: string): (m: int)
    requires ExpiryFormat(s)
    ensures 1 <= m <= 12
  {
    10 * DigitValue(s[0]) + DigitValue(s[1])
  }

  /** `int(year)` of the matched expiry (`int` ignores the final newline). */
  function ExpiryYear(s: string): (y: int)
    requires ExpiryFormat(s)
    ensures 2020 <= y <= 2099
  {
    2000 + 10 * DigitValue(s[5]) + DigitValue(s[6])
  }

  /** `is_valid_expiry_date`: the format matches and midnight on the first of
      the expiry month is strictly later than `now`. */
  predicate IsValidExpiryDate(expiryDate: string, now: DateTime) {
    ExpiryFormat(expiryDate)
    && Later(DateTime(ExpiryYear(expiryDate), ExpiryMonth(expiryDate), 1, 0, 0, 0, 0), now)
  }

  /** The message for the holder name: missing, under 3 or over 100
      characters, checked in that order. */
  function HolderNameError(data: map<string, string>): Option<string> {
    if !Present(data, HolderNameField) then Some(HolderNameRequired)
    else if |data[HolderNameField]| < 3 then Some(HolderNameTooShort)
    else if |data[HolderNameField]| > 100 then Some(HolderNameTooLong)
    else None
  }

  function CardNumberError(data: map<string, string>): Option<string> {
    if !Present(data, CardNumberField) then Some(CardNumberRequired)
    else if !IsValidCardNumber(data[CardNumberField]) then Some(CardNumberInvalid)
    else None
  }

  function ExpiryDateError(data: map<string, string>, now: DateTime): Option<string> {
    if !Present(data, ExpiryDateField) then Some(ExpiryDateRequired)
    else if !IsValidExpiryDate(data[ExpiryDateField], now) then Some(ExpiryDateInvalid)
    else None
  }

  function CvvError(data: map<string, string>): Option<string> {
    if !Present(data, CvvField) then Some(CvvRequired)
    else if !IsValidCvv(data[CvvField]) then Some(CvvInvalid)
    else None
  }

  function CardTypeError(data: map<string, string>): Option<string> {
    if !Present(data, CardTypeField) then Some(CardTypeRequired)
    else if data[CardTypeField] !in CardTypes then Some(CardTypeInvalid)
    else None
  }

  function EncryptionTypeError(data: map<string, string>): Option<string> {
    if !Present(data, EncryptionTypeField) then Some(EncryptionTypeRequired)
    else if data[EncryptionTypeField] !in EncryptionTypes then Some(EncryptionTypeInvalid)
    else None
  }

  /** The message `validate_card_data` records for `field`, if any. */
  function FieldError(data: map<string, string>, now: DateTime, field: string): Option<string> {
    if field == HolderNameField then HolderNameError(data)
    else if field == CardNumberField then CardNumberError(data)
    else if field == ExpiryDateField then ExpiryDateError(data, now)
    else if field == CvvField then CvvError(data)
    else if field == CardTypeField then CardTypeError(data)
    else if field == EncryptionTypeField then EncryptionTypeError(data)
    else None
  }

  /** `errors` with `field` set to `message`, when there is one. */
  function Record(errors: map<string, string>, field: string, message: Option<string>): map<string, string> {
    if message.Some? then errors[field := message.value] else errors
  }

  /** The error map of `validate_card_data`: each field of the six that fails
      mapped to its message. */
  function ValidationErrors(data: map<string, string>, now: DateTime): (errors: map<string, string>)
    ensures errors.Keys <= Fields
  {
    map field | field in Fields && FieldError(data, now, field).Some? :: FieldError(data, now, field).value
  }

  /** Every field passes, stated field by field. */
  predicate AllFieldsValid(data: map<string, string>, now: DateTime) {
    && Present(data, HolderNameField) && 3 <= |data[HolderNameField]| <= 100
    && Present(data, CardNumberField) && IsValidCardNumber(data[CardNumberField])
    && Present(data, ExpiryDateField) && IsValidExpiryDate(data[ExpiryDateField], now)
    && Present(data, CvvField) && IsValidCvv(data[CvvField])
    && Present(data, CardTypeField) && data[CardTypeField] in CardTypes
    && Present(data, EncryptionTypeField) && data[EncryptionTypeField] in EncryptionTypes
  }

  /** `validate_card_data(data)`: fills the error map check by check, in the
      order of the source. The input map is a value and is not changed. */
  method ValidateCardData(data: map<string, string>, now: DateTime) returns (errors: map<string, string>)
    ensures errors == ValidationErrors(data, now)
  {
    errors := map[];

    ghost var e0 := errors;
    if !Present(data, HolderNameField) {
      errors := errors[HolderNameField := HolderNameRequired];
    } else if |data[HolderNameField]| < 3 {
      errors := errors[HolderNameField := HolderNameTooShort];
    } else if |data[HolderNameField]| > 100 {
      errors := errors[HolderNameField := HolderNameTooLong];
    }
    assert errors == Record(e0, HolderNameField, HolderNameError(data));

    ghost var e1 := errors;
    if !Present(data, CardNumberField) {
      errors := errors[CardNumberField := CardNumberRequired];
    } else if !IsValidCardNumber(data[CardNumberField]) {
      errors := errors[CardNumberField := CardNumberInvalid];
    }
    assert errors == Record(e1, CardNumberField, CardNumberError(data));

    ghost var e2 := errors;
    if !Present(data, ExpiryDateField) {
      errors := errors[ExpiryDateField := ExpiryDateRequired];
    } else if !IsValidExpiryDate(data[ExpiryDateField], now) {
      errors := errors[ExpiryDateField := ExpiryDateInvalid];
    }
    assert errors == Record(e2, ExpiryDateField, ExpiryDateError(data, now));

    ghost var e3 := errors;
    if !Present(data, CvvField) {
      errors := errors[CvvField := CvvRequired];
    } else if !IsValidCvv(data[CvvField]) {
      errors := errors[CvvField := CvvInvalid];
    }
    assert errors == Record(e3, CvvField, CvvError(data));

    ghost var e4 := errors;
    if !Present(data, CardTypeField) {
      errors := errors[CardTypeField := CardTypeRequired];
    } else if data[CardTypeField] !in CardTypes {
      errors := errors[CardTypeField := CardTypeInvalid];
    }
    assert errors == Record(e4, CardTypeField, CardTypeError(data));

    ghost var e5 := errors;
    if !Present(data, EncryptionTypeField) {
      errors := errors[EncryptionTypeField := EncryptionTypeRequired];
    } else if data[EncryptionTypeField] !in EncryptionTypes {
      errors := errors[EncryptionTypeField := EncryptionTypeInvalid];
    }
    assert errors == Record(e5, EncryptionTypeField, EncryptionTypeError(data));
    assert errors == RecordedInOrder(data, now);
    ErrorsInOrder(data, now);
  }

  /** The error map built by recording the six checks in source order. */
  function RecordedInOrder(data: map<string, string>, now: DateTime): map<string, string> {
    Record(Record(Record(Record(Record(Record(map[],
      HolderNameField, HolderNameError(data)),
      CardNumberField, CardNumberError(data)),
      ExpiryDateField, ExpiryDateError(data, now)),
      CvvField, CvvError(data)),
      CardTypeField, CardTypeError(data)),
      EncryptionTypeField, EncryptionTypeError(data))
  }

  /** Recording the six checks in order gives the error map. */
  lemma ErrorsInOrder(data: map<string, string>, now: DateTime)
    ensures ValidationErrors(data, now) == RecordedInOrder(data, now)
  {
    var r := RecordedInOrder(data, now);
    var v := ValidationErrors(data, now);
    forall f
      ensures (f in r <==> f in v) && (f in v ==> r[f] == v[f])
    {
      RecordedAt(data, now, f);
    }
    assert r.Keys == v.Keys;
  }

  /** Field by field, the recorded map and the error map agree. */
  lemma RecordedAt(data: map<string, string>, now: DateTime, f: string)
    ensures f in RecordedInOrder(data, now) <==> f in ValidationErrors(data, now)
    ensures f in ValidationErrors(data, now) ==> RecordedInOrder(data, now)[f] == ValidationErrors(data, now)[f]
  {
    var r := RecordedInOrder(data, now);
    var v := ValidationErrors(data, now);
    FieldsDistinct();
    assert f in v <==> f in Fields && FieldError(data, now, f).Some?;
    assert f in v ==> v[f] == FieldError(data, now, f).value;
    if f == HolderNameField {
      assert f in r <==> HolderNameError(data).Some?;
    } else if f == CardNumberField {
      assert f in r <==> CardNumberError(data).Some?;
    } else if f == ExpiryDateField {
      assert f in r <==> ExpiryDateError(data, now).Some?;
    } else if f == CvvField {
      assert f in r <==> CvvError(data).Some?;
    } else if f == CardTypeField {
      assert f in r <==> CardTypeError(data).Some?;
    } else if f == EncryptionTypeField {
      assert f in r <==> EncryptionTypeError(data).Some?;
    } else {
      assert f !in Fields;
      assert f !in r;
    }
  }

  /** The six field names are pairwise different. */
  lemma FieldsDistinct()
    ensures HolderNameField != CardNumberField && HolderNameField != ExpiryDateField
    ensures HolderNameField != CvvField && HolderNameField != CardTypeField
    ensures HolderNameField != EncryptionTypeField
    ensures CardNumberField != ExpiryDateField && CardNumberField != CvvField
    ensures CardNumberField != CardTypeField && CardNumberField != EncryptionTypeField
    ensures ExpiryDateField != CvvField && ExpiryDateField != CardTypeField
    ensures ExpiryDateField != EncryptionTypeField
    ensures CvvField != CardTypeField && CvvField != EncryptionTypeField
    ensures CardTypeField != EncryptionTypeField
  {
    assert CardNumberField[0] != ExpiryDateField[0];
    assert CardNumberField[5] != CardTypeField[5];
  }

  /** The error map is empty exactly when every field passes. */
  lemma NoErrorsIffAllValid(data: map<string, string>, now: DateTime)
    ensures ValidationErrors(data, now) == map[] <==> AllFieldsValid(data, now)
  {
    var errors := ValidationErrors(data, now);
    if errors == map[] {
      assert HolderNameField !in errors && CardNumberField !in errors && ExpiryDateField !in errors;
      assert CvvField !in errors && CardTypeField !in errors && EncryptionTypeField !in errors;
    } else {
      var f :| f in errors;
      assert FieldError(data, now, f).Some?;
    }
  }

  /** The holder name passes exactly when it is present with 3 to 100
      characters; otherwise the first failing check picks the message. */
  lemma HolderNameRule(data: map<string, string>, now: DateTime)
    ensures HolderNameField !in ValidationErrors(data, now) <==>
      Present(data, HolderNameField) && 3 <= |data[HolderNameField]| <= 100
    ensures !Present(data, HolderNameField) ==>
      ValidationErrors(data, now)[HolderNameField] == HolderNameRequired
    ensures Present(data, HolderNameField) && |data[HolderNameField]| < 3 ==>
      ValidationErrors(data, now)[HolderNameField] == HolderNameTooShort
    ensures Present(data, HolderNameField) && |data[HolderNameField]| > 100 ==>
      ValidationErrors(data, now)[HolderNameField] == HolderNameTooLong
  {
    assert HolderNameField in Fields;
  }

  /** `card_type` and `encryption_type` are compared exactly (case-sensitive)
      against their closed sets. */
  lemma ClosedSetRules(data: map<string, string>, now: DateTime)
    ensures CardTypeField !in ValidationErrors(data, now) <==>
      CardTypeField in data && (data[CardTypeField] == "credit" || data[CardTypeField] == "debit")
    ensures EncryptionTypeField !in ValidationErrors(data, now) <==>
      EncryptionTypeField in data && (data[EncryptionTypeField] == "sync" || data[EncryptionTypeField] == "async")
  {
    assert CardTypeField in Fields && EncryptionTypeField in Fields;
  }

  /** A valid card number holds 16 digits and nothing but spaces besides;
      without spaces it is exactly 16 digits. */
  lemma CardNumberCharacters(s: string)
    ensures IsValidCardNumber(s) ==> |s| >= 16
    ensures IsValidCardNumber(s) ==> forall i :: 0 <= i < |s| ==> s[i] == ' ' || IsDigit(s[i])
    ensures NoSpaces(s) ==> (IsValidCardNumber(s) <==> IsDigits(s) && |s| == 16)
  {
    RemoveSpacesKeeps(s);
    if NoSpaces(s) {
      RemoveSpacesNoSpaces(s);
    }
    if IsValidCardNumber(s) {
      var d := RemoveSpaces(s);
      forall i | 0 <= i < |s| && s[i] != ' '
        ensures IsDigit(s[i])
      {
        var j :| 0 <= j < |d| && d[j] == s[i];
      }
    }
  }

  /** `is_valid_card_number` holds exactly when the string minus its spaces
      is 16 digits; spaces anywhere are tolerated. */
  lemma CardNumberSpacesTolerated(s: string, t: string)
    ensures IsValidCardNumber(s + " " + t) == IsValidCardNumber(s + t)
  {
    RemoveSpacesJoin(s, t);
    RemoveSpacesAppend(s, t);
  }

  /** Midnight on the first of a month is later than `now` exactly when that
      month comes after the month of `now`. */
  lemma FirstOfMonthLater(year: int, month: int, now: DateTime)
    requires ValidDateTime(now)
    ensures Later(DateTime(year, month, 1, 0, 0, 0, 0), now) <==>
      year > now.year || (year == now.year && month > now.month)
  {
  }

  /** An expiry is valid exactly when it matches the format and its month is
      after the current month. */
  lemma ExpiryRule(s: string, now: DateTime)
    requires ValidDateTime(now)
    ensures IsValidExpiryDate(s, now) <==>
      ExpiryFormat(s) && (ExpiryYear(s) > now.year || (ExpiryYear(s) == now.year && ExpiryMonth(s) > now.month))
  {
    if ExpiryFormat(s) {
      FirstOfMonthLater(ExpiryYear(s), ExpiryMonth(s), now);
    }
  }

  /** A card expiring in the current month, or any earlier month, is
      rejected: `now` is at least midnight on the first of its month. */
  lemma CurrentMonthRejected(s: string, now: DateTime)
    requires ValidDateTime(now) && ExpiryFormat(s)
    requires ExpiryYear(s) < now.year || (ExpiryYear(s) == now.year && ExpiryMonth(s) <= now.month)
    ensures !IsValidExpiryDate(s, now)
  {
    ExpiryRule(s, now);
  }
}
