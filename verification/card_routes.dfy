/** The data shaping of `Bend/routes/card_routes.py`, without HTTP or the
    database: how a validated request becomes the row that is stored, how a
    stored row becomes the response, the display grouping of card numbers,
    and the `get_cards` loop that decrypts the stored rows and keeps those
    that decrypt. */
module CardRoutes {
  import opened Wrappers
  import opened Text
  import opened Validators
  import Utf8
  import ES = EncryptionService

  // ---------------------------------------------------------------------
  // Grouping the card number for display
  // ---------------------------------------------------------------------

  /** `[s[i:i+4] for i in range(0, len(s), 4)]`: consecutive pieces of four
      characters from the start; only the last may be shorter. */
  function Chunks(s: string): (r: seq<string>)
    ensures |s| == 0 <==> |r| == 0
    ensures forall i :: 0 <= i < |r| ==> 1 <= |r[i]| <= 4
    ensures forall i :: 0 <= i < |r| - 1 ==> |r[i]| == 4
    decreases |s|
  {
    if |s| == 0 then []
    else if |s| <= 4 then [s]
    else [s[..4]] + Chunks(s[4..])
  }

  /** The pieces one after the other, with nothing between them. */
  function Concat(parts: seq<string>): string {
    if |parts| == 0 then "" else parts[0] + Concat(parts[1..])
  }

  /** `' '.join(parts)`. */
  function JoinSpaces(parts: seq<string>): string {
    if |parts| == 0 then ""
    else if |parts| == 1 then parts[0]
    else parts[0] + " " + JoinSpaces(parts[1..])
  }

  /** The display form of a card number: pieces of four joined by spaces. */
  function GroupDigits(s: string): (r: string)
    ensures r == "" <==> s == ""
  {
    JoinSpaces(Chunks(s))
  }

  /** The pieces put back together are the original string. */
  lemma {:induction false} ChunksConcat(s: string)
    ensures Concat(Chunks(s)) == s
    decreases |s|
  {
    if |s| == 0 {
    } else if |s| <= 4 {
      assert Chunks(s) == [s];
      assert Concat([s]) == s + Concat([]);
    } else {
      ChunksConcat(s[4..]);
      var c := Chunks(s);
      assert c[0] == s[..4] && c[1..] == Chunks(s[4..]);
      assert s == s[..4] + s[4..];
    }
  }

  /** Removing the spaces of the display form gives back a number that had
      none. */
  lemma {:induction false} UngroupDigits(s: string)
    requires NoSpaces(s)
    ensures RemoveSpaces(GroupDigits(s)) == s
    decreases |s|
  {
    if |s| == 0 {
    } else if |s| <= 4 {
      assert Chunks(s) == [s];
      RemoveSpacesNoSpaces(s);
    } else {
      var head, tail := s[..4], s[4..];
      assert s == head + tail;
      assert NoSpaces(head) && NoSpaces(tail);
      GroupStep(s);
      UngroupDigits(tail);
      RemoveSpacesNoSpaces(head);
      RemoveSpacesJoin(head, GroupDigits(tail));
    }
  }

  /** The display form of more than four characters: the first four, a
      space, and the display form of the rest. */
  lemma GroupStep(s: string)
    requires |s| > 4
    ensures GroupDigits(s) == s[..4] + " " + GroupDigits(s[4..])
  {
    var c := Chunks(s);
    assert c == [s[..4]] + Chunks(s[4..]);
    assert |Chunks(s[4..])| > 0;
    assert c[1..] == Chunks(s[4..]);
  }

  /** One space between consecutive pieces: n characters are displayed as
      n + (n - 1) / 4 characters. */
  lemma {:induction false} GroupedLength(s: string)
    requires |s| > 0
    ensures |GroupDigits(s)| == |s| + (|s| - 1) / 4
    decreases |s|
  {
    if |s| <= 4 {
      assert Chunks(s) == [s];
    } else {
      GroupStep(s);
      GroupedLength(s[4..]);
    }
  }

  /** A 16-digit number is displayed as four groups of four: 19 characters,
      with the spaces at indices 4, 9 and 14. */
  lemma GroupSixteen(s: string)
    requires |s| == 16
    ensures GroupDigits(s) == s[..4] + " " + s[4..8] + " " + s[8..12] + " " + s[12..]
    ensures |GroupDigits(s)| == 19
    ensures GroupDigits(s)[4] == ' ' && GroupDigits(s)[9] == ' ' && GroupDigits(s)[14] == ' '
  {
    GroupStep(s);
    GroupStep(s[4..]);
    GroupStep(s[8..]);
    assert s[4..][..4] == s[4..8] && s[4..][4..] == s[8..];
    assert s[8..][..4] == s[8..12] && s[8..][4..] == s[12..];
    assert Chunks(s[12..]) == [s[12..]];
  }

  /** What the routes display is accepted again by the validator. */
  lemma GroupedNumberValid(s: string)
    requires IsDigits(s) && |s| == 16
    ensures IsValidCardNumber(GroupDigits(s))
  {
    assert NoSpaces(s);
    UngroupDigits(s);
  }

  // ---------------------------------------------------------------------
  // Records
  // ---------------------------------------------------------------------

  /** The six fields of a card as the routes handle them: the request after
      cleaning, the stored row, or the response. */
  datatype Card = Card(
    holderName: string,
    cardNumber: string,
    expiryDate: string,
    cvv: string,
    cardType: string,
    encryptionType: string)

  /** A row of the `cards` table: the card and its database columns; the
      timestamps are already text. */
  datatype CardRow = CardRow(id: int, card: Card, createdAt: string, updatedAt: string)

  /** The random draws one `encrypt` call makes: an IV for AES, a seed for
      OAEP; the call uses the one its mode needs. */
  datatype Draw = Draw(iv: ES.Iv, seed: seq<byte>)

  /** Why a route answers with an error instead of the card. */
  datatype RouteError =
    | NoData                                    // 400, empty request body
    | ValidationFailed(errors: map<string, string>)   // 400, the error map
    | EncryptionFailed(error: ES.CryptoError)   // 500, from `encrypt`
    | ResponseFailed(error: ES.CryptoError)     // 500, from `decrypt` of the stored row
    | NullCardNumber                            // 500, the stored number decrypts to None

  /** A `None` from `encrypt` or `decrypt` is stored and answered as the
      empty string. */
  function OrEmpty(o: Option<string>): string {
    if o.Some? then o.value else ""
  }

  // ---------------------------------------------------------------------
  // create_card and update_card
  // ---------------------------------------------------------------------

  /** The `card_data` cleaning of `create_card`: every space removed from the
      number; the name, expiry and CVV stripped, each a part of what was sent
      with only whitespace cut off either side and none left at its ends; the
      two tags lower-cased and then stripped the same way. */
  function Clean(data: map<string, string>): (c: Card)
    requires Fields <= data.Keys
    ensures c.cardNumber == RemoveSpaces(data[CardNumberField]) && NoSpaces(c.cardNumber)
    ensures exists lo, hi :: TrimmedPart(data[HolderNameField], c.holderName, lo, hi)
    ensures exists lo, hi :: TrimmedPart(data[ExpiryDateField], c.expiryDate, lo, hi)
    ensures exists lo, hi :: TrimmedPart(data[CvvField], c.cvv, lo, hi)
    ensures exists lo, hi :: TrimmedPart(AsciiLower(data[CardTypeField]), c.cardType, lo, hi)
    ensures exists lo, hi :: TrimmedPart(AsciiLower(data[EncryptionTypeField]), c.encryptionType, lo, hi)
    ensures NoEdgeWhitespace(c.holderName) && NoEdgeWhitespace(c.expiryDate) && NoEdgeWhitespace(c.cvv)
    ensures NoEdgeWhitespace(c.cardType) && NoEdgeWhitespace(c.encryptionType)
    ensures NoCapitals(c.cardType) && NoCapitals(c.encryptionType)
  {
    LowerStripNoCapitals(data[CardTypeField]);
    LowerStripNoCapitals(data[EncryptionTypeField]);
    Card(
      Strip(data[HolderNameField]),
      RemoveSpaces(data[CardNumberField]),
      Strip(data[ExpiryDateField]),
      Strip(data[CvvField]),
      Strip(AsciiLower(data[CardTypeField])),
      Strip(AsciiLower(data[EncryptionTypeField])))
  }

  /** `s.lower().strip()` contains no capital letter. */
  lemma LowerStripNoCapitals(s: string)
    ensures NoCapitals(Strip(AsciiLower(s)))
  {
    var t := AsciiLower(s);
    LowerHasNoCapitals(s);
    var lo, hi :| TrimmedPart(t, Strip(t), lo, hi);
    PartNoCapitals(t, Strip(t), lo, hi);
  }

  /** The `card_data` of `update_card`: only the spaces of the number are
      removed; the other fields are taken as sent. */
  function UpdateFields(data: map<string, string>): (c: Card)
    requires Fields <= data.Keys
    ensures c.cardNumber == RemoveSpaces(data[CardNumberField]) && NoSpaces(c.cardNumber)
    ensures |c.cardNumber| <= |data[CardNumberField]|
    ensures c.holderName == data[HolderNameField] && c.expiryDate == data[ExpiryDateField]
    ensures c.cvv == data[CvvField] && c.cardType == data[CardTypeField]
    ensures c.encryptionType == data[EncryptionTypeField]
  {
    Card(
      data[HolderNameField],
      RemoveSpaces(data[CardNumberField]),
      data[ExpiryDateField],
      data[CvvField],
      data[CardTypeField],
      data[EncryptionTypeField])
  }

  /** The row handed to the database: both sensitive fields encrypted with
      the record's own `encryption_type`, the number first; the first error
      stops. */
  function EncryptCard(svc: ES.Service, c: Card, numberDraw: Draw, cvvDraw: Draw): (r: Result<Card, ES.CryptoError>)
    ensures r.Ok? ==> r.value.holderName == c.holderName && r.value.expiryDate == c.expiryDate
    ensures r.Ok? ==> r.value.cardType == c.cardType && r.value.encryptionType == c.encryptionType
    ensures r == Err(ES.UnknownEncryptionType) <==> c.encryptionType !in {ES.SyncTag, ES.AsyncTag}
  {
    ES.UnknownTagIffNotAMode(svc, c.cardNumber, c.encryptionType, numberDraw.iv, numberDraw.seed);
    ES.UnknownTagIffNotAMode(svc, c.cvv, c.encryptionType, cvvDraw.iv, cvvDraw.seed);
    match ES.Encrypt(svc, c.cardNumber, c.encryptionType, numberDraw.iv, numberDraw.seed)
    case Err(e) => Err(e)
    case Ok(number) =>
      match ES.Encrypt(svc, c.cvv, c.encryptionType, cvvDraw.iv, cvvDraw.seed)
      case Err(e) => Err(e)
      case Ok(cvv) => Ok(c.(cardNumber := OrEmpty(number), cvv := OrEmpty(cvv)))
  }

  /** Both sensitive fields of a row decrypted with the tag stored on that
      same row; the number's result comes first. */
  function DecryptCard(svc: ES.Service, row: Card): (r: Result<(Option<string>, Option<string>), ES.CryptoError>)
    ensures r.Ok? ==> (r.value.0.None? <==> row.cardNumber == "") && (r.value.1.None? <==> row.cvv == "")
    ensures r == Err(ES.UnknownEncryptionType) <==> row.encryptionType !in {ES.SyncTag, ES.AsyncTag}
  {
    ES.UnknownTagIffNotAMode(svc, row.cardNumber, row.encryptionType, Repeat(0, ES.IvSize), []);
    ES.UnknownTagIffNotAMode(svc, row.cvv, row.encryptionType, Repeat(0, ES.IvSize), []);
    match ES.Decrypt(svc, row.cardNumber, row.encryptionType)
    case Err(e) => Err(e)
    case Ok(number) =>
      match ES.Decrypt(svc, row.cvv, row.encryptionType)
      case Err(e) => Err(e)
      case Ok(cvv) => Ok((number, cvv))
  }

  /** `create_card` up to the database: an empty body, then the validator,
      then cleaning and encryption. The result is the row to store. */
  function CreateCardRow(svc: ES.Service, data: map<string, string>, now: DateTime,
                         numberDraw: Draw, cvvDraw: Draw): (r: Result<Card, RouteError>)
    ensures r == Err(NoData) <==> data == map[]
    ensures r.Err? && r.error.ValidationFailed? <==> data != map[] && ValidationErrors(data, now) != map[]
    ensures r.Err? && r.error.ValidationFailed? ==> r.error.errors == ValidationErrors(data, now)
  {
    if data == map[] then Err(NoData)
    else
      var errors := ValidationErrors(data, now);
      if errors != map[] then Err(ValidationFailed(errors))
      else
        ValidRequestHasFields(data, now);
        match EncryptCard(svc, Clean(data), numberDraw, cvvDraw)
        case Err(e) => Err(EncryptionFailed(e))
        case Ok(row) => Ok(row)
  }

  /** `create_card` after the database: the stored row decrypted and its
      number grouped for display. A number that decrypts to None cannot be
      grouped. */
  function CreateCardResponse(svc: ES.Service, row: Card): (r: Result<Card, RouteError>)
    ensures r == Err(NullCardNumber) <==> DecryptCard(svc, row).Ok? && row.cardNumber == ""
    ensures r.Ok? ==> r.value.holderName == row.holderName && r.value.expiryDate == row.expiryDate
    ensures r.Ok? ==> r.value.cardType == row.cardType && r.value.encryptionType == row.encryptionType
  {
    match DecryptCard(svc, row)
    case Err(e) => Err(ResponseFailed(e))
    case Ok((number, cvv)) =>
      if number.None? then Err(NullCardNumber)
      else Ok(row.(cardNumber := GroupDigits(number.value), cvv := OrEmpty(cvv)))
  }

  /** `update_card` up to the database (the card is known to exist): the
      validator, then the update fields encrypted. */
  function UpdateCardRow(svc: ES.Service, data: map<string, string>, now: DateTime,
                         numberDraw: Draw, cvvDraw: Draw): (r: Result<Card, RouteError>)
    ensures r.Err? && r.error.ValidationFailed? <==> ValidationErrors(data, now) != map[]
    ensures r.Err? && r.error.ValidationFailed? ==> r.error.errors == ValidationErrors(data, now)
  {
    var errors := ValidationErrors(data, now);
    if errors != map[] then Err(ValidationFailed(errors))
    else
      ValidRequestHasFields(data, now);
      match EncryptCard(svc, UpdateFields(data), numberDraw, cvvDraw)
      case Err(e) => Err(EncryptionFailed(e))
      case Ok(row) => Ok(row)
  }

  /** `update_card` after the database: the stored row decrypted, the number
      not regrouped. */
  function UpdateCardResponse(svc: ES.Service, row: Card): (r: Result<Card, RouteError>)
    ensures r.Ok? ==> r.value.holderName == row.holderName && r.value.expiryDate == row.expiryDate
    ensures r.Ok? ==> r.value.cardType == row.cardType && r.value.encryptionType == row.encryptionType
    ensures r.Err? <==> DecryptCard(svc, row).Err?
  {
    match DecryptCard(svc, row)
    case Err(e) => Err(ResponseFailed(e))
    case Ok((number, cvv)) => Ok(row.(cardNumber := OrEmpty(number), cvv := OrEmpty(cvv)))
  }

  /** A request the validator accepts has all six fields. */
  lemma ValidRequestHasFields(data: map<string, string>, now: DateTime)
    requires ValidationErrors(data, now) == map[]
    ensures Fields <= data.Keys
    ensures AllFieldsValid(data, now)
  {
    NoErrorsIffAllValid(data, now);
  }

  // ---------------------------------------------------------------------
  // What cleaning does to a request the validator accepted
  // ---------------------------------------------------------------------

  /** Lower-casing leaves text without capitals as it is. */
  lemma LowerNoCapitals(s: string)
    requires NoCapitals(s)
    ensures AsciiLower(s) == s
  {
  }

  /** The accepted tags survive `lower().strip()` unchanged. */
  lemma AcceptedTagsClean(t: string)
    requires t in CardTypes || t in EncryptionTypes
    ensures Strip(AsciiLower(t)) == t
  {
    LowerNoCapitals(t);
    StripUnchanged(t);
  }

  /** A well-formed expiry strips to its seven characters MM/YYYY: the
      newline the format lets through is removed. */
  lemma StripExpiry(s: string)
    requires ExpiryFormat(s)
    ensures Strip(s) == s[..7]
  {
    assert !IsWhitespace(s[0]) && !IsWhitespace(s[6]);
    if |s| == 8 {
      assert s == s[..7] + "\n";
      StripNewline(s[..7]);
    } else {
      assert s[..7] == s;
      StripUnchanged(s);
    }
  }

  /** One trailing newline is stripped off text that is otherwise its own
      strip. */
  lemma StripNewline(t: string)
    requires |t| > 0 && !IsWhitespace(t[0]) && !IsWhitespace(t[|t| - 1])
    ensures Strip(t + "\n") == t
  {
    var s := t + "\n";
    assert TrimStart(s) == s;
    assert s[..|s| - 1] == t;
    assert TrimEnd(s) == TrimEnd(t);
    assert TrimEnd(t) == t;
  }

  /** Dropping the newline keeps an expiry valid. */
  lemma ExpiryPrefixValid(s: string, now: DateTime)
    requires IsValidExpiryDate(s, now)
    ensures IsValidExpiryDate(s[..7], now)
  {
    var t := s[..7];
    assert ExpiryFormat(t);
    assert ExpiryMonth(t) == ExpiryMonth(s) && ExpiryYear(t) == ExpiryYear(s);
  }

  /** After validation succeeds, the cleaned number is exactly 16 digits, the
      cleaned tags and CVV are the accepted values as sent, and the cleaned
      expiry is the valid MM/YYYY the request carried. */
  lemma CleanValidated(data: map<string, string>, now: DateTime)
    requires ValidationErrors(data, now) == map[]
    ensures Fields <= data.Keys
    ensures IsDigits(Clean(data).cardNumber) && |Clean(data).cardNumber| == 16
    ensures Clean(data).encryptionType == data[EncryptionTypeField]
    ensures Clean(data).encryptionType in {ES.SyncTag, ES.AsyncTag}
    ensures Clean(data).cardType == data[CardTypeField] && Clean(data).cardType in CardTypes
    ensures Clean(data).cvv == data[CvvField] && IsValidCvv(Clean(data).cvv)
    ensures ExpiryFormat(data[ExpiryDateField])
    ensures Clean(data).expiryDate == data[ExpiryDateField][..7]
    ensures IsValidExpiryDate(Clean(data).expiryDate, now)
  {
    ValidRequestHasFields(data, now);
    CleanValidatedNumber(data, now);
    CleanValidatedTags(data, now);
    CleanValidatedExpiry(data, now);
  }

  lemma CleanValidatedNumber(data: map<string, string>, now: DateTime)
    requires Fields <= data.Keys && AllFieldsValid(data, now)
    ensures IsDigits(Clean(data).cardNumber) && |Clean(data).cardNumber| == 16
  {
  }

  lemma CleanValidatedTags(data: map<string, string>, now: DateTime)
    requires Fields <= data.Keys && AllFieldsValid(data, now)
    ensures Clean(data).encryptionType == data[EncryptionTypeField]
    ensures Clean(data).encryptionType in {ES.SyncTag, ES.AsyncTag}
    ensures Clean(data).cardType == data[CardTypeField] && Clean(data).cardType in CardTypes
    ensures Clean(data).cvv == data[CvvField] && IsValidCvv(Clean(data).cvv)
  {
    var c := Clean(data);
    assert c.encryptionType == Strip(AsciiLower(data[EncryptionTypeField]));
    assert c.cardType == Strip(AsciiLower(data[CardTypeField]));
    assert c.cvv == Strip(data[CvvField]);
    AcceptedTagsClean(data[EncryptionTypeField]);
    AcceptedTagsClean(data[CardTypeField]);
    StripDigits(data[CvvField]);
  }

  lemma CleanValidatedExpiry(data: map<string, string>, now: DateTime)
    requires Fields <= data.Keys && AllFieldsValid(data, now)
    ensures ExpiryFormat(data[ExpiryDateField])
    ensures Clean(data).expiryDate == data[ExpiryDateField][..7]
    ensures IsValidExpiryDate(Clean(data).expiryDate, now)
  {
    assert Clean(data).expiryDate == Strip(data[ExpiryDateField]);
    StripExpiry(data[ExpiryDateField]);
    ExpiryPrefixValid(data[ExpiryDateField], now);
  }

  /** The holder name is checked before it is stripped: three spaces pass
      the length check and are stored as the empty name. */
  lemma BlankNameAccepted(data: map<string, string>, now: DateTime)
    requires Fields <= data.Keys && data[HolderNameField] == "   "
    ensures HolderNameField !in ValidationErrors(data, now)
    ensures Clean(data).holderName == ""
  {
    HolderNameRule(data, now);
    StripWhitespace(data[HolderNameField]);
  }



  // ---------------------------------------------------------------------
  // Round trips through the stored row
  // ---------------------------------------------------------------------

  /** An ASCII digit string has one UTF-8 byte per digit. */
  lemma DigitBytes(s: string)
    requires IsDigits(s)
    ensures |Utf8.Encode(s)| == |s|
  {
    assert Utf8.IsAscii(s);
    Utf8.EncodeAscii(s);
  }

  /** The OAEP limit of the service's key admits m bytes. */
  predicate FitsOaep(svc: ES.Service, m: nat) {
    m <= ES.MaxMessageLength(ES.ByteLength(svc.publicKey.modulus))
  }

  /** A record with both sensitive fields set, encrypted with its own tag,
      decrypts with the tag stored on the row back to both fields. */
  lemma RecordRoundTrip(svc: ES.Service, c: Card, numberDraw: Draw, cvvDraw: Draw)
    requires ES.Sound(svc)
    requires c.cardNumber != "" && c.cvv != "" && c.encryptionType in {ES.SyncTag, ES.AsyncTag}
    requires c.encryptionType == ES.AsyncTag ==>
      FitsOaep(svc, |Utf8.Encode(c.cardNumber)|) && FitsOaep(svc, |Utf8.Encode(c.cvv)|)
    ensures EncryptCard(svc, c, numberDraw, cvvDraw).Ok?
    ensures DecryptCard(svc, EncryptCard(svc, c, numberDraw, cvvDraw).value) == Ok((Some(c.cardNumber), Some(c.cvv)))
  {
    ES.RoundTrip(svc, c.cardNumber, c.encryptionType, numberDraw.iv, numberDraw.seed);
    ES.RoundTrip(svc, c.cvv, c.encryptionType, cvvDraw.iv, cvvDraw.seed);
    var number := ES.Encrypt(svc, c.cardNumber, c.encryptionType, numberDraw.iv, numberDraw.seed).value;
    var cvv := ES.Encrypt(svc, c.cvv, c.encryptionType, cvvDraw.iv, cvvDraw.seed).value;
    var row := c.(cardNumber := OrEmpty(number), cvv := OrEmpty(cvv));
    assert EncryptCard(svc, c, numberDraw, cvvDraw) == Ok(row);
    assert row.cardNumber == number.value && row.cvv == cvv.value;
  }

  /** The bytes a validated card number and CVV take. */
  lemma ValidatedFieldBytes(data: map<string, string>, now: DateTime)
    requires ValidationErrors(data, now) == map[]
    ensures Fields <= data.Keys
    ensures |Utf8.Encode(Clean(data).cardNumber)| == 16 && |Utf8.Encode(Clean(data).cvv)| <= 4
    ensures |Utf8.Encode(UpdateFields(data).cardNumber)| == 16 && |Utf8.Encode(UpdateFields(data).cvv)| <= 4
  {
    CleanValidated(data, now);
    DigitBytes(Clean(data).cardNumber);
    DigitBytes(Clean(data).cvv);
  }

  /** A card both of whose sensitive fields can be encrypted with its tag:
      set, a mode tag, and within the OAEP limit in async mode. */
  predicate Storable(svc: ES.Service, c: Card) {
    && c.cardNumber != "" && c.cvv != "" && c.encryptionType in {ES.SyncTag, ES.AsyncTag}
    && (c.encryptionType == ES.AsyncTag ==>
          FitsOaep(svc, |Utf8.Encode(c.cardNumber)|) && FitsOaep(svc, |Utf8.Encode(c.cvv)|))
  }

  /** A validated request gives storable cards in both routes, provided the
      RSA key admits 16 bytes when the tag is async. */
  lemma ValidatedStorable(svc: ES.Service, data: map<string, string>, now: DateTime)
    requires ValidationErrors(data, now) == map[]
    requires EncryptionTypeField in data && data[EncryptionTypeField] == ES.AsyncTag ==> FitsOaep(svc, 16)
    ensures Fields <= data.Keys
    ensures Storable(svc, Clean(data)) && Storable(svc, UpdateFields(data))
  {
    CleanValidated(data, now);
    ValidatedFieldBytes(data, now);
  }

  /** The create response to the row of a storable card: the card, its
      number grouped. */
  lemma CreateResponseOfRow(svc: ES.Service, c: Card, numberDraw: Draw, cvvDraw: Draw)
    requires ES.Sound(svc) && Storable(svc, c)
    ensures EncryptCard(svc, c, numberDraw, cvvDraw).Ok?
    ensures CreateCardResponse(svc, EncryptCard(svc, c, numberDraw, cvvDraw).value)
            == Ok(c.(cardNumber := GroupDigits(c.cardNumber)))
  {
    RecordRoundTrip(svc, c, numberDraw, cvvDraw);
  }

  /** The update response to the row of a storable card: the card itself. */
  lemma UpdateResponseOfRow(svc: ES.Service, c: Card, numberDraw: Draw, cvvDraw: Draw)
    requires ES.Sound(svc) && Storable(svc, c)
    ensures EncryptCard(svc, c, numberDraw, cvvDraw).Ok?
    ensures UpdateCardResponse(svc, EncryptCard(svc, c, numberDraw, cvvDraw).value) == Ok(c)
  {
    RecordRoundTrip(svc, c, numberDraw, cvvDraw);
  }

  /** `create_card` end to end, with the 2048-bit keys the configuration
      generates and the database returning the row it was given: a valid
      request is answered with the cleaned card, its number
      in groups of four and its CVV as sent. */
  lemma CreateCardAnswer(svc: ES.Service, data: map<string, string>, now: DateTime,
                         numberDraw: Draw, cvvDraw: Draw)
    requires ES.Sound(svc)
    requires data != map[] && ValidationErrors(data, now) == map[]
    requires ES.HasBits(svc.publicKey, ES.RsaModulusBits)
    ensures Fields <= data.Keys
    ensures CreateCardRow(svc, data, now, numberDraw, cvvDraw).Ok?
    ensures CreateCardResponse(svc, CreateCardRow(svc, data, now, numberDraw, cvvDraw).value)
            == Ok(Clean(data).(cardNumber := GroupDigits(Clean(data).cardNumber)))
  {
    ES.KeyOf2048Bits(svc.publicKey);
    ValidatedStorable(svc, data, now);
    CreateResponseOfRow(svc, Clean(data), numberDraw, cvvDraw);
  }

  /** `update_card` end to end, with the 2048-bit keys the configuration
      generates and the database returning the row it was given: a valid
      request is answered with the fields as sent, the number
      without its spaces and not regrouped. */
  lemma UpdateCardAnswer(svc: ES.Service, data: map<string, string>, now: DateTime,
                         numberDraw: Draw, cvvDraw: Draw)
    requires ES.Sound(svc)
    requires ValidationErrors(data, now) == map[]
    requires ES.HasBits(svc.publicKey, ES.RsaModulusBits)
    ensures Fields <= data.Keys
    ensures UpdateCardRow(svc, data, now, numberDraw, cvvDraw).Ok?
    ensures UpdateCardResponse(svc, UpdateCardRow(svc, data, now, numberDraw, cvvDraw).value) == Ok(UpdateFields(data))
  {
    ES.KeyOf2048Bits(svc.publicKey);
    ValidatedStorable(svc, data, now);
    UpdateResponseOfRow(svc, UpdateFields(data), numberDraw, cvvDraw);
  }

  // ---------------------------------------------------------------------
  // get_cards
  // ---------------------------------------------------------------------

  /** A stored field decrypted when it is set; an empty field is left as it
      is and the cipher is not called. */
  function DecryptPresent(svc: ES.Service, value: string, encryptionType: string): (r: Result<string, ES.CryptoError>)
    ensures value == "" ==> r == Ok("")
    ensures value != "" ==> (r.Ok? <==> ES.Decrypt(svc, value, encryptionType).Ok?)
    ensures value != "" && r.Ok? ==> ES.Decrypt(svc, value, encryptionType) == Ok(Some(r.value))
  {
    if value == "" then Ok(value)
    else
      match ES.Decrypt(svc, value, encryptionType)
      case Err(e) => Err(e)
      case Ok(v) => Ok(v.value)
  }

  /** The body of the `get_cards` loop for one row: the number decrypted and
      grouped, the CVV decrypted, both with the row's own tag; an error
      skips the row. Every other column is copied. */
  function ProcessRow(svc: ES.Service, row: CardRow): (r: Result<CardRow, ES.CryptoError>)
    ensures r.Ok? ==> r.value.id == row.id && r.value.createdAt == row.createdAt && r.value.updatedAt == row.updatedAt
    ensures r.Ok? ==> r.value.card.holderName == row.card.holderName && r.value.card.expiryDate == row.card.expiryDate
    ensures r.Ok? ==> r.value.card.cardType == row.card.cardType && r.value.card.encryptionType == row.card.encryptionType
    ensures r.Ok? && row.card.cardNumber == "" ==> r.value.card.cardNumber == ""
    ensures r.Ok? && row.card.cvv == "" ==> r.value.card.cvv == ""
    ensures row.card.cardNumber == "" && row.card.cvv == "" ==> r == Ok(row)
    ensures r.Err? <==>
      || (row.card.cardNumber != "" && ES.Decrypt(svc, row.card.cardNumber, row.card.encryptionType).Err?)
      || (row.card.cvv != "" && ES.Decrypt(svc, row.card.cvv, row.card.encryptionType).Err?)
    ensures r.Ok? && row.card.cardNumber != "" ==>
      var d := ES.Decrypt(svc, row.card.cardNumber, row.card.encryptionType);
      d.Ok? && d.value.Some? && r.value.card.cardNumber == GroupDigits(d.value.value)
    ensures r.Ok? && row.card.cvv != "" ==>
      var d := ES.Decrypt(svc, row.card.cvv, row.card.encryptionType);
      d.Ok? && d.value.Some? && r.value.card.cvv == d.value.value
  {
    var c := row.card;
    match DecryptPresent(svc, c.cardNumber, c.encryptionType)
    case Err(e) => Err(e)
    case Ok(number) =>
      match DecryptPresent(svc, c.cvv, c.encryptionType)
      case Err(e) => Err(e)
      case Ok(cvv) =>
        var shown := if c.cardNumber == "" then number else GroupDigits(number);
        Ok(row.(card := c.(cardNumber := shown, cvv := cvv)))
  }

  /** The values of the outcomes of `f` over `xs` that succeed, in the order
      of `xs`; the failures are dropped. */
  function Successes<T, U, E>(f: T -> Result<U, E>, xs: seq<T>): (r: seq<U>)
    ensures |r| <= |xs|
  {
    if |xs| == 0 then []
    else
      var kept := Successes(f, xs[..|xs| - 1]);
      match f(xs[|xs| - 1])
      case Ok(y) => kept + [y]
      case Err(_) => kept
  }

  /** What `get_cards` answers: the processed rows that did not raise, in the
      order of the table. */
  function DecryptedRows(svc: ES.Service, rows: seq<CardRow>): (r: seq<CardRow>)
    ensures |r| <= |rows|
  {
    Successes(row => ProcessRow(svc, row), rows)
  }

  /** `get_cards`: copies, decrypts and collects row by row, skipping the
      rows whose processing raises. */
  method GetCards(svc: ES.Service, rows: seq<CardRow>) returns (cards: seq<CardRow>)
    ensures cards == DecryptedRows(svc, rows)
  {
    if |rows| == 0 {
      return [];
    }
    cards := [];
    var i := 0;
    while i < |rows|
      invariant 0 <= i <= |rows|
      invariant cards == DecryptedRows(svc, rows[..i])
    {
      DecryptedRowsStep(svc, rows, i);
      match ProcessRow(svc, rows[i]) {
        case Ok(shown) =>
          cards := cards + [shown];
        case Err(_) =>
      }
      i := i + 1;
    }
    assert rows[..i] == rows;
  }

  /** One more row of the table: it is appended to the answer when its
      processing succeeds. */
  lemma DecryptedRowsStep(svc: ES.Service, rows: seq<CardRow>, i: nat)
    requires i < |rows|
    ensures ProcessRow(svc, rows[i]).Ok? ==>
      DecryptedRows(svc, rows[..i + 1]) == DecryptedRows(svc, rows[..i]) + [ProcessRow(svc, rows[i]).value]
    ensures ProcessRow(svc, rows[i]).Err? ==>
      DecryptedRows(svc, rows[..i + 1]) == DecryptedRows(svc, rows[..i])
  {
    assert rows[..i + 1][..i] == rows[..i];
    assert rows[..i + 1][i] == rows[i];
  }

  /** Processing is element by element: the successes over two sequences one
      after the other are the two lists of successes one after the other. */
  lemma {:induction false} SuccessesAppend<T, U, E>(f: T -> Result<U, E>, a: seq<T>, b: seq<T>)
    ensures Successes(f, a + b) == Successes(f, a) + Successes(f, b)
    decreases |b|
  {
    if |b| == 0 {
      assert a + b == a;
    } else {
      var b' := b[..|b| - 1];
      assert (a + b)[..|a + b| - 1] == a + b';
      assert (a + b)[|a + b| - 1] == b[|b| - 1];
      SuccessesAppend(f, a, b');
    }
  }

  /** The successes are exactly the outcomes that succeed, in order: `idx`
      lists their positions, increasing, and every position whose outcome
      succeeds is listed. */
  lemma {:induction false} SuccessPositions<T, U, E>(f: T -> Result<U, E>, xs: seq<T>) returns (idx: seq<nat>)
    ensures |idx| == |Successes(f, xs)|
    ensures forall j :: 0 <= j < |idx| ==> idx[j] < |xs| && f(xs[idx[j]]) == Ok(Successes(f, xs)[j])
    ensures forall j, k :: 0 <= j < k < |idx| ==> idx[j] < idx[k]
    ensures forall i :: 0 <= i < |xs| && f(xs[i]).Ok? ==> i in idx
  {
    if |xs| == 0 {
      idx := [];
    } else {
      var init := xs[..|xs| - 1];
      var last := |xs| - 1;
      var before := SuccessPositions(f, init);
      var kept := Successes(f, init);
      InitPositions(f, xs, before, kept);
      match f(xs[last]) {
        case Ok(y) =>
          assert Successes(f, xs) == kept + [y];
          idx := before + [last];
          ExtendPositions(f, xs, before, kept, y);
        case Err(_) =>
          assert Successes(f, xs) == kept;
          idx := before;
      }
    }
  }

  /** Positions among all but the last input are positions among all. */
  lemma InitPositions<T, U, E>(f: T -> Result<U, E>, xs: seq<T>, before: seq<nat>, kept: seq<U>)
    requires |xs| > 0 && |before| == |kept|
    requires forall j :: 0 <= j < |before| ==> before[j] < |xs[..|xs| - 1]| && f(xs[..|xs| - 1][before[j]]) == Ok(kept[j])
    requires forall i :: 0 <= i < |xs[..|xs| - 1]| && f(xs[..|xs| - 1][i]).Ok? ==> i in before
    ensures forall j :: 0 <= j < |before| ==> before[j] < |xs| - 1 && f(xs[before[j]]) == Ok(kept[j])
    ensures forall i :: 0 <= i < |xs| - 1 && f(xs[i]).Ok? ==> i in before
  {
    var init := xs[..|xs| - 1];
    assert forall i :: 0 <= i < |init| ==> init[i] == xs[i];
  }

  /** The positions of the successes among all but the last input, followed
      by the last one when it succeeds, are the positions of all successes. */
  lemma ExtendPositions<T, U, E>(f: T -> Result<U, E>, xs: seq<T>, before: seq<nat>, kept: seq<U>, y: U)
    requires |xs| > 0 && |before| == |kept| && f(xs[|xs| - 1]) == Ok(y)
    requires forall j :: 0 <= j < |before| ==> before[j] < |xs| - 1 && f(xs[before[j]]) == Ok(kept[j])
    requires forall j, k :: 0 <= j < k < |before| ==> before[j] < before[k]
    requires forall i :: 0 <= i < |xs| - 1 && f(xs[i]).Ok? ==> i in before
    ensures var idx, r := before + [|xs| - 1], kept + [y];
      && (forall j :: 0 <= j < |idx| ==> idx[j] < |xs| && f(xs[idx[j]]) == Ok(r[j]))
      && (forall j, k :: 0 <= j < k < |idx| ==> idx[j] < idx[k])
      && (forall i :: 0 <= i < |xs| && f(xs[i]).Ok? ==> i in idx)
  {
    var idx, r := before + [|xs| - 1], kept + [y];
    assert idx[|before|] == |xs| - 1 && r[|kept|] == y;
    assert forall j :: 0 <= j < |before| ==> idx[j] == before[j] && r[j] == kept[j];
  }


  /** When every outcome succeeds, every element is kept, in order. */
  lemma {:induction false} AllSucceed<T, U, E>(f: T -> Result<U, E>, xs: seq<T>)
    requires forall i :: 0 <= i < |xs| ==> f(xs[i]).Ok?
    ensures |Successes(f, xs)| == |xs|
    ensures forall i :: 0 <= i < |xs| ==> Successes(f, xs)[i] == f(xs[i]).value
  {
    if |xs| > 0 {
      var init := xs[..|xs| - 1];
      assert forall i :: 0 <= i < |init| ==> init[i] == xs[i];
      AllSucceed(f, init);
    }
  }

  /** The rows `get_cards` answers are exactly the rows whose processing
      succeeds, processed, in table order. */
  lemma KeptInOrder(svc: ES.Service, rows: seq<CardRow>) returns (idx: seq<nat>)
    ensures |idx| == |DecryptedRows(svc, rows)|
    ensures forall j :: 0 <= j < |idx| ==> idx[j] < |rows| && ProcessRow(svc, rows[idx[j]]) == Ok(DecryptedRows(svc, rows)[j])
    ensures forall j, k :: 0 <= j < k < |idx| ==> idx[j] < idx[k]
    ensures forall i :: 0 <= i < |rows| && ProcessRow(svc, rows[i]).Ok? ==> i in idx
  {
    idx := SuccessPositions(row => ProcessRow(svc, row), rows);
  }

  /** When every row decrypts, every row is answered, in order. */
  lemma AllRowsKept(svc: ES.Service, rows: seq<CardRow>)
    requires forall i :: 0 <= i < |rows| ==> ProcessRow(svc, rows[i]).Ok?
    ensures |DecryptedRows(svc, rows)| == |rows|
    ensures forall i :: 0 <= i < |rows| ==> DecryptedRows(svc, rows)[i] == ProcessRow(svc, rows[i]).value
  {
    AllSucceed(row => ProcessRow(svc, row), rows);
  }

  /** The answer for two tables one after the other is the two answers one
      after the other. */
  lemma DecryptedRowsAppend(svc: ES.Service, a: seq<CardRow>, b: seq<CardRow>)
    ensures DecryptedRows(svc, a + b) == DecryptedRows(svc, a) + DecryptedRows(svc, b)
  {
    SuccessesAppend(row => ProcessRow(svc, row), a, b);
  }

  /** A row stored by `create_card` is shown by `get_cards` as
      `create_card` answered it: decrypted, number grouped. */
  lemma StoredRowShown(svc: ES.Service, c: Card, numberDraw: Draw, cvvDraw: Draw,
                       id: int, createdAt: string, updatedAt: string)
    requires ES.Sound(svc)
    requires c.cardNumber != "" && c.cvv != "" && c.encryptionType in {ES.SyncTag, ES.AsyncTag}
    requires c.encryptionType == ES.AsyncTag ==>
      FitsOaep(svc, |Utf8.Encode(c.cardNumber)|) && FitsOaep(svc, |Utf8.Encode(c.cvv)|)
    ensures EncryptCard(svc, c, numberDraw, cvvDraw).Ok?
    ensures ProcessRow(svc, CardRow(id, EncryptCard(svc, c, numberDraw, cvvDraw).value, createdAt, updatedAt))
            == Ok(CardRow(id, c.(cardNumber := GroupDigits(c.cardNumber)), createdAt, updatedAt))
  {
    RecordRoundTrip(svc, c, numberDraw, cvvDraw);
    var row := EncryptCard(svc, c, numberDraw, cvvDraw).value;
    assert row.cardNumber != "" && row.cvv != "";
    assert ES.Decrypt(svc, row.cardNumber, row.encryptionType) == Ok(Some(c.cardNumber));
    assert ES.Decrypt(svc, row.cvv, row.encryptionType) == Ok(Some(c.cvv));
  }
}
