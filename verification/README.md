# BCard backend: card encryption, validation and card routes

A Dafny model of the core of the BCard Flask backend, which stores payment
cards with their card number and CVV encrypted. The model covers three parts.

- **The encryption service.** It normalises the symmetric key to 32 bytes.
  In `sync` mode it encrypts with AES-256-CBC: a fresh IV, PKCS#7 padding,
  and Base64 text of `iv ‖ ciphertext`. In `async` mode it encrypts with
  RSA-OAEP: Base64 text of the ciphertext. It also dispatches on the
  `encryption_type` tag. AES-CBC and RSA-OAEP are opaque primitives, carried
  as function fields of the `Service` value. `Sound` states that each
  decryption inverts its encryption. Every round trip is proved from that
  assumption, and PKCS#7 and UTF-8 are modelled and proved in full, and Base64 for the layout that `b64encode` writes.
- **The card validator.** `validate_card_data` is an imperative method that
  fills an error map field by field, in the source's order and with its
  exact Romanian messages. It is proved equal to a declarative definition of
  which fields are wrong. Alongside it are the card number, expiry date and
  CVV rules. The current time is a parameter.
- **The card routes, without HTTP.** This covers the cleaning of the request
  data in `create_card` and `update_card`, and the encryption of the two
  secret fields. It covers the decryption and 4-character grouping of the
  card number in the responses. It also covers the `get_cards` loop, which
  decrypts every stored row and skips those that fail.

Modules:
- `Wrappers` has `Option`, `Result` and bytes.
- `Utf8` models `str.encode`/`bytes.decode`.
- `Base64` models RFC 4648.
- `Pkcs7` models padding to 16-byte blocks.
- `Text` models `isdigit`, `replace`, `strip` and `lower`.
- `EncryptionService` models `Bend/services/encryption_service.py`.
- `Validators` models `Bend/utils/validators.py`.
- `CardRoutes` models `Bend/routes/card_routes.py`.

## Model

| member | source | states |
|---|---|---|
| Utf8.EncodeChar | Bend/services/encryption_service.py:42 | a character encodes to 1 to 4 bytes, and to one byte exactly when it is ASCII |
| Utf8.Encode | Bend/services/encryption_service.py:42 | the encoding is never shorter than the text, and empty exactly for empty text |
| Utf8.DecodeChar | Bend/services/encryption_service.py:81 | a decoded character never consumes more than the bytes available, and at most 4 |
| Utf8.DecodeEncodeChar | Bend/services/encryption_service.py:42 | decoding the encoding of any character, followed by anything, gives that character and its encoded length |
| Utf8.Decode | Bend/services/encryption_service.py:81 | the decoded text has no more characters than there were bytes |
| Utf8.DecodeEncode | Bend/services/encryption_service.py:81 | `bytes.decode('utf-8')` inverts `str.encode('utf-8')` on every string |
| Utf8.EncodeDecodeChar | Bend/services/encryption_service.py:81 | every byte sequence the decoder accepts as one character is exactly that character's encoding, so no overlong form gets through |
| Utf8.EncodeDecode | Bend/services/encryption_service.py:81 | whatever `bytes.decode('utf-8')` accepts is the encoding of the string it returns (the converse of DecodeEncode) |
| Utf8.EncodeAppend | Bend/services/encryption_service.py:42 | encoding distributes over concatenation |
| Utf8.EncodeAscii | Bend/services/encryption_service.py:13 | ASCII text encodes byte for byte, one byte per character |
| Utf8.DecodeAscii | Bend/services/encryption_service.py:81 | ASCII bytes always decode, character for byte |
| Base64.ValueChar | Bend/services/encryption_service.py:57 | every alphabet character reads back as the digit written, and none is the pad |
| Base64.Encode | Bend/services/encryption_service.py:57 | the encoding of n bytes has 4·⌈n/3⌉ characters |
| Base64.Decode | Bend/services/encryption_service.py:66 | strict `b64decode`: groups of four digits, padding only in the last group; empty text decodes to no bytes |
| Base64.DecodeLength | Bend/services/encryption_service.py:66 | accepted text has a length that is a multiple of 4, exactly the length of the encoding of the bytes it decodes to |
| Base64.DecodeEncode | Bend/services/encryption_service.py:66 | `b64decode(b64encode(b)) == b` for every byte string |
| Base64.EncodeInjective | Bend/services/encryption_service.py:57 | different byte strings give different Base64 text |
| Base64.EncodeIsText | Bend/services/encryption_service.py:58 | the encoding contains only alphabet characters and `=` |
| Pkcs7.PadLength | Bend/services/encryption_service.py:48 | padding adds 1 to 16 bytes and reaches a multiple of 16 |
| Pkcs7.Pad | Bend/services/encryption_service.py:48 | the padded data is the data followed by k bytes of value k, with a length that is a multiple of 16 |
| Pkcs7.Unpad | Bend/services/encryption_service.py:79 | an accepted input loses 1 to 16 bytes from its end, each removed byte equal to the number removed |
| Pkcs7.UnpadPad | Bend/services/encryption_service.py:79 | unpadding inverts padding |
| Pkcs7.PadUnpad | Bend/services/encryption_service.py:79 | whatever unpadding accepts is exactly the padding of what it returns |
| Pkcs7.UnpadRejects | Bend/services/encryption_service.py:79 | unpadding fails exactly on empty input, a length that is not a multiple of 16, a last byte of 0 or above 16, or a tail of bytes that are not all equal |
| Pkcs7.PadLengthFormula | Bend/services/encryption_service.py:48 | the padded length is 16·(⌊n/16⌋+1) |
| EncryptionService.ByteLength | Bend/services/encryption_service.py:92-95 | the byte length k of a modulus n is the k with 256^(k−1) ≤ n < 256^k, and 0 only for 0 |
| EncryptionService.ByteLengthOfBits | Bend/services/encryption_service.py:92-95 | a modulus of 8·m bits with its top bit set takes exactly m bytes |
| EncryptionService.KeyOf2048Bits | Bend/config.py:42 | under the 2048-bit keys the configuration generates, k is 256 and OAEP takes messages of up to 214 bytes |
| EncryptionService.LeftJustify | Bend/services/encryption_service.py:15 | `ljust` keeps the bytes and fills with spaces up to the width |
| EncryptionService.ConfiguredSecret | Bend/services/encryption_service.py:13 | the secret is the configured `SYMMETRIC_KEY`, or the default secret when none is set (see DefaultKey) |
| EncryptionService.NormaliseKey | Bend/services/encryption_service.py:13-15 | the key is the first 32 bytes of the UTF-8 secret, or the secret padded with spaces to 32 bytes |
| EncryptionService.NewService | Bend/services/encryption_service.py:11-26 | the service's key is the normalised configured secret, and it holds the given RSA keys |
| EncryptionService.DefaultKey | Bend/services/encryption_service.py:13-15 | with no `SYMMETRIC_KEY`, the key is the 21 bytes of the default secret followed by 11 spaces |
| EncryptionService.PaddedKey | Bend/services/encryption_service.py:15 | a secret 32 − m bytes long is padded with exactly m spaces |
| EncryptionService.DefaultSecretBytes | Bend/services/encryption_service.py:13 | the default secret encodes to 21 bytes |
| EncryptionService.EncryptSync | Bend/services/encryption_service.py:37-58 | empty input gives None; otherwise the result is the Base64 text of the IV followed by the AES-CBC encryption of the padded UTF-8 bytes |
| EncryptionService.DecryptSync | Bend/services/encryption_service.py:61-81 | it succeeds with None exactly on empty input. Text that is not Base64 fails as malformed. A short IV, an unaligned ciphertext and bad padding each fail with their own error. A text it returns is one whose padded UTF-8 is the CBC decryption of the envelope |
| EncryptionService.OpenSyncEnvelope | Bend/services/encryption_service.py:69-79 | an envelope is accepted only with a 16-byte IV and whole blocks after it, and the plaintext returned is the one whose padding is the CBC decryption of those blocks |
| EncryptionService.OpenSyncEnvelopeSeals | Bend/services/encryption_service.py:69-79 | splitting the IV off, decrypting and unpadding recovers the plaintext |
| EncryptionService.SyncRoundTrip | Bend/services/encryption_service.py:37-81 | `decrypt_sync(encrypt_sync(s)) == s` for every non-empty string |
| EncryptionService.SyncEnvelopeLayout | Bend/services/encryption_service.py:45-57 | the envelope decodes to 16·(⌊n/16⌋+2) bytes, begins with the IV, and has a Base64 length to match |
| EncryptionService.DistinctIvsDistinctEnvelopes | Bend/services/encryption_service.py:45 | the same text encrypted under two different IVs gives two different ciphertexts |
| EncryptionService.OaepEncrypt | Bend/services/encryption_service.py:92-95 | OAEP encryption fails, with a too-long error, exactly when the message exceeds k − 42 bytes |
| EncryptionService.OaepDecrypt | Bend/services/encryption_service.py:109-112 | a ciphertext whose length is not the modulus length is rejected |
| EncryptionService.EncryptAsync | Bend/services/encryption_service.py:84-98 | empty input gives None; a failure happens exactly when the UTF-8 message is too long for OAEP |
| EncryptionService.DecryptAsync | Bend/services/encryption_service.py:101-114 | it succeeds with None exactly on empty input. Text that is not Base64 fails as malformed, and a ciphertext that is not the modulus length fails with its length error. A text it returns is one whose UTF-8 is the OAEP decryption of the Base64 bytes |
| EncryptionService.AsyncRoundTrip | Bend/services/encryption_service.py:84-114 | for a message that fits OAEP, encryption succeeds and `decrypt_async` returns the original string |
| EncryptionService.SyncEnvelopeRejectedByAsync | Bend/services/encryption_service.py:101-112 | a sync ciphertext given to async decryption is rejected for its length, unless that length happens to equal the modulus length |
| EncryptionService.SyncEnvelopeRejectedUnder2048 | Bend/services/encryption_service.py:101-112 | under a 2048-bit key, async decryption rejects the sync ciphertext of any text shorter than 224 bytes or at least 240 bytes long |
| EncryptionService.Decrypt | Bend/services/encryption_service.py:126-132 | the dispatcher gives None exactly for empty data under a known mode |
| EncryptionService.UnknownTagIffNotAMode | Bend/services/encryption_service.py:117-132 | both dispatchers raise the unknown-type error exactly when the tag is neither `sync` nor `async` |
| EncryptionService.EmptyInputIsNone | Bend/services/encryption_service.py:117-132 | in either mode, empty input encrypts and decrypts to None |
| EncryptionService.RoundTrip | Bend/services/encryption_service.py:117-132 | `decrypt(encrypt(s, t), t) == s` for every non-empty string and either mode, when it fits OAEP in async mode |
| Text.RemoveSpaces | Bend/utils/validators.py:54 | the result contains no space and is no longer than the input |
| Text.RemoveSpacesAppend | Bend/utils/validators.py:54 | removing spaces distributes over concatenation |
| Text.RemoveSpacesJoin | Bend/routes/card_routes.py:42 | removing spaces from two strings joined by a space joins their space-free forms |
| Text.RemoveSpacesKeeps | Bend/utils/validators.py:54 | every character other than a space survives the removal |
| Text.RemoveSpacesNoSpaces | Bend/routes/card_routes.py:132 | a string without spaces is unchanged |
| Text.TrimStart | Bend/routes/card_routes.py:131 | a suffix of the input that starts with no whitespace, after a cut-off part that is all whitespace |
| Text.TrimEnd | Bend/routes/card_routes.py:131 | a prefix of the input that ends with no whitespace, before a cut-off part that is all whitespace |
| Text.Strip | Bend/routes/card_routes.py:131 | `strip()` returns a slice of the input with only whitespace outside it, neither starting nor ending with whitespace |
| Text.StripWhitespace | Bend/routes/card_routes.py:131 | text made only of whitespace strips to the empty string |
| Text.StripUnchanged | Bend/routes/card_routes.py:133 | text with no whitespace at either end strips to itself |
| Text.StripDigits | Bend/routes/card_routes.py:134 | a digit string strips to itself |
| Text.AsciiLower | Bend/routes/card_routes.py:135 | `lower()` lowers each capital letter and keeps every other character, at the same length |
| Text.LowerHasNoCapitals | Bend/routes/card_routes.py:135 | lower-cased text has no capital letter left |
| Text.PartNoCapitals | Bend/routes/card_routes.py:135 | stripping text without capitals leaves none |
| Validators.IsValidCardNumber | Bend/utils/validators.py:51-55 | a card number is valid when, with its spaces removed, it is exactly 16 digits |
| Validators.CardNumberCharacters | Bend/utils/validators.py:51-55 | a valid number has at least 16 characters, all of them digits or spaces; a number without spaces is valid exactly when it is 16 digits |
| Validators.IsValidCvv | Bend/utils/validators.py:72-75 | a CVV is valid when it is 3 or 4 digits |
| Validators.ExpiryFormat | Bend/utils/validators.py:61 | the MM/20YY pattern: month 01 to 12, year 2020 to 2099, with the one trailing newline that `$` allows |
| Validators.IsValidExpiryDate | Bend/utils/validators.py:58-69 | a date is valid when it matches the format and the first of its month is later than now |
| Validators.ExpiryMonth | Bend/utils/validators.py:65-66 | the month of a well-formed date is between 1 and 12 |
| Validators.ExpiryYear | Bend/utils/validators.py:61-67 | the year of a well-formed date is between 2020 and 2099 |
| Validators.ValidationErrors | Bend/utils/validators.py:6-48 | errors are only ever recorded under the six card fields |
| Validators.ValidateCardData | Bend/utils/validators.py:6-48 | the error map filled field by field equals the declarative map of each invalid field to its message |
| Validators.ErrorsInOrder | Bend/utils/validators.py:8-48 | the six checks recorded in the source's order give the declarative error map |
| Validators.NoErrorsIffAllValid | Bend/utils/validators.py:6-48 | no errors exactly when every field is present and meets its rule |
| Validators.HolderNameRule | Bend/utils/validators.py:11-16 | the name is accepted exactly at 3 to 100 characters, and each failure has its own message |
| Validators.ClosedSetRules | Bend/utils/validators.py:37-46 | the card type must be exactly `credit`/`debit` and the encryption type exactly `sync`/`async` |
| Validators.CardNumberSpacesTolerated | Bend/utils/validators.py:51-55 | inserting a space anywhere in a card number does not change whether it is valid |
| Validators.FirstOfMonthLater | Bend/utils/validators.py:67-69 | the first of a month is later than now exactly when that month is after the current one |
| Validators.ExpiryRule | Bend/utils/validators.py:58-69 | an expiry is valid exactly when it is MM/20YY and its month is after the current month |
| Validators.CurrentMonthRejected | Bend/utils/validators.py:65-69 | the current month and every earlier month are rejected |
| CardRoutes.Chunks | Bend/routes/card_routes.py:42-45 | there are no chunks only for empty input; every chunk has 1 to 4 characters, and all but the last have 4 |
| CardRoutes.JoinSpaces | Bend/routes/card_routes.py:179 | `' '.join(parts)`: the parts with one space between each two |
| CardRoutes.GroupDigits | Bend/routes/card_routes.py:179-182 | grouping gives empty output exactly for empty input |
| CardRoutes.ChunksConcat | Bend/routes/card_routes.py:42-45 | the chunks concatenate back to the input |
| CardRoutes.UngroupDigits | Bend/routes/card_routes.py:179-182 | removing the spaces of a grouped space-free number gives the number back |
| CardRoutes.GroupedLength | Bend/routes/card_routes.py:42-45 | grouping n characters adds ⌊(n−1)/4⌋ spaces |
| CardRoutes.GroupSixteen | Bend/routes/card_routes.py:179-182 | a 16-digit number is shown as `XXXX XXXX XXXX XXXX`: 19 characters with spaces at 4, 9 and 14 |
| CardRoutes.GroupedNumberValid | Bend/routes/card_routes.py:179-182 | a grouped 16-digit number passes the card-number validator again |
| CardRoutes.Clean | Bend/routes/card_routes.py:130-137 | the number is the sent number with its spaces removed. The name, expiry and CVV are each a part of what was sent, with only whitespace cut off on either side and none left at their ends. The two tags are the same kind of part of their lower-cased text, and contain no capitals |
| CardRoutes.LowerStripNoCapitals | Bend/routes/card_routes.py:135-136 | `lower().strip()` leaves no capital letter |
| CardRoutes.UpdateFields | Bend/routes/card_routes.py:230-239 | the number is the sent number with its spaces removed, and every other field is passed unchanged |
| CardRoutes.EncryptCard | Bend/routes/card_routes.py:140-147 | only the number and CVV change, and the unknown-type error happens exactly for an unknown tag |
| CardRoutes.DecryptCard | Bend/routes/card_routes.py:168-176 | a decrypted field is None exactly when it is stored empty, and the unknown-type error happens exactly for an unknown tag |
| CardRoutes.CreateCardRow | Bend/routes/card_routes.py:111-147 | no data exactly for an empty body; a validation failure, carrying the validator's errors, exactly when those errors are not empty |
| CardRoutes.CreateCardResponse | Bend/routes/card_routes.py:167-182 | a number stored empty decrypts to None, and grouping it fails as `len(None)` raises; otherwise the non-secret fields are echoed |
| CardRoutes.UpdateCardRow | Bend/routes/card_routes.py:225-239 | a validation failure, carrying the validator's errors, exactly when those errors are not empty |
| CardRoutes.UpdateCardResponse | Bend/routes/card_routes.py:247-254 | the response fails exactly when decryption fails, and echoes the non-secret fields |
| CardRoutes.ValidRequestHasFields | Bend/routes/card_routes.py:119-131 | a request that passes validation has every field the cleaning step reads |
| CardRoutes.LowerNoCapitals | Bend/routes/card_routes.py:135 | lower-casing text without capitals changes nothing |
| CardRoutes.AcceptedTagsClean | Bend/routes/card_routes.py:135-136 | an accepted card type or encryption type is unchanged by `lower().strip()` |
| CardRoutes.StripExpiry | Bend/routes/card_routes.py:133 | stripping an accepted expiry gives its first 7 characters and drops a trailing newline |
| CardRoutes.StripNewline | Bend/routes/card_routes.py:133 | stripping removes a single trailing newline from text with no edge whitespace |
| CardRoutes.ExpiryPrefixValid | Bend/routes/card_routes.py:133 | the stripped form of a valid expiry is still valid |
| CardRoutes.CleanValidated | Bend/routes/card_routes.py:119-137 | after validation, cleaning gives 16 digits, the tags and CVV as sent, and a valid MM/YYYY expiry |
| CardRoutes.BlankNameAccepted | Bend/routes/card_routes.py:119-131 | a name of three spaces passes validation and is stored as the empty string |
| CardRoutes.DigitBytes | Bend/routes/card_routes.py:140-147 | a digit string encodes to one byte per digit |
| CardRoutes.RecordRoundTrip | Bend/routes/card_routes.py:140-176 | encrypting a card and decrypting the stored row gives back its number and CVV |
| CardRoutes.ValidatedFieldBytes | Bend/routes/card_routes.py:140-147 | after validation, the number is 16 bytes and the CVV at most 4 |
| CardRoutes.ValidatedStorable | Bend/routes/card_routes.py:119-147 | a validated request can be encrypted in the mode it names, provided 16 bytes fit OAEP in async mode |
| CardRoutes.CreateResponseOfRow | Bend/routes/card_routes.py:140-182 | the create response for a stored card is the card with its number grouped |
| CardRoutes.UpdateResponseOfRow | Bend/routes/card_routes.py:230-254 | the update response for a stored card is the card itself |
| CardRoutes.CreateCardAnswer | Bend/routes/card_routes.py:104-196 | under the 2048-bit keys the configuration generates, a valid non-empty request is stored and answered with the cleaned card, its number grouped |
| CardRoutes.UpdateCardAnswer | Bend/routes/card_routes.py:213-260 | under the 2048-bit keys the configuration generates, a valid request is stored and answered with the request's fields, the number's spaces removed |
| CardRoutes.DecryptPresent | Bend/routes/card_routes.py:37-50 | an empty column is kept as it is; a non-empty one succeeds exactly when it decrypts, to the decrypted text |
| CardRoutes.ProcessRow | Bend/routes/card_routes.py:35-63 | only the number and CVV change. Empty ones stay empty, and a row with neither is passed through. The row fails exactly when a non-empty number or CVV fails to decrypt. Otherwise a non-empty number is shown as its decryption grouped by four, and a non-empty CVV as its decryption |
| CardRoutes.Successes | Bend/routes/card_routes.py:33-66 | the kept results are never more than the inputs |
| CardRoutes.DecryptedRows | Bend/routes/card_routes.py:33-66 | `get_cards` never returns more cards than are stored |
| CardRoutes.GetCards | Bend/routes/card_routes.py:27-69 | the loop returns exactly the successfully decrypted rows, in order |
| CardRoutes.DecryptedRowsStep | Bend/routes/card_routes.py:63-66 | one loop step appends the decrypted row, or skips a row that fails |
| CardRoutes.SuccessesAppend | Bend/routes/card_routes.py:33-66 | keeping successes distributes over concatenation of the inputs |
| CardRoutes.SuccessPositions | Bend/routes/card_routes.py:33-66 | the kept results come from increasing input positions, and every success is kept |
| CardRoutes.AllSucceed | Bend/routes/card_routes.py:33-66 | when every input succeeds, the results correspond to the inputs one for one |
| CardRoutes.KeptInOrder | Bend/routes/card_routes.py:33-66 | each card shown is a stored row decrypted, in storage order, and every row that decrypts is shown |
| CardRoutes.AllRowsKept | Bend/routes/card_routes.py:33-66 | when every row decrypts, there is one card per row, each the decryption of its row |
| CardRoutes.DecryptedRowsAppend | Bend/routes/card_routes.py:33-66 | processing two batches of rows concatenates their results |
| CardRoutes.StoredRowShown | Bend/routes/card_routes.py:37-63 | a card that was encrypted and stored is listed with its own number, grouped, and its own CVV |

## Left out

- The RSA keys are PEM files loaded at start-up (`_load_public_key`/`_load_private_key`, `Config.generate_rsa_keys`, the key paths). They are not part of this model. The keys are plain parameters of `EncryptionService.NewService`.
- The key derivation is deliberately not strengthened. `NormaliseKey` pads or truncates the secret's bytes to 32, with no KDF and no salt. That is weak, and two secrets that share their first 32 bytes give the same key.
- AES-256-CBC, RSA-OAEP with SHA-1 and MGF1 are not modelled inside. Each is a pair of function fields, and `EncryptionService.Sound` states only that decryption inverts encryption. Properties such as secrecy, OAEP's randomisation and padding-oracle resistance are out of scope.
- The random IV and OAEP seed (`get_random_bytes`) are parameters, so the model cannot say they are fresh. `EncryptionService.DistinctIvsDistinctEnvelopes` states what a fresh IV buys.
- The sync envelope carries no MAC, so a tampered ciphertext that still unpads decrypts to other text. No integrity property is claimed.
- `EncryptionService.OaepEncrypt` limits the message to k − 2·20 − 2 bytes, as PKCS1_OAEP does with its default SHA-1. For a 2048-bit key that is 214 bytes (`KeyOf2048Bits`), not the 190 bytes a SHA-256 OAEP would allow. The model follows the code.
- `EncryptionService.Encrypt` has no contract of its own. It is described by `UnknownTagIffNotAMode`, `EmptyInputIsNone` and `RoundTrip`.
- Base64.Decode: it accepts only the canonical layout that `b64encode` writes, and it ignores the unused low bits of the last digit, as CPython does. Python's non-strict `b64decode` also accepts other text. It discards ASCII non-alphabet characters, ignores excess `=` after a complete group, and stops at the first complete padded group. A `str` holding a non-ASCII character raises `ValueError` there, which the model's MalformedBase64 matches. Missing padding is still an `Incorrect padding` error there, as it is in the model. The round trips need only the inputs that the service's own encryption produces.
- Dafny strings hold only Unicode scalar values, but a JSON string can carry a lone surrogate. `str.encode('utf-8')` (encryption_service.py lines 42 and 89) then raises `UnicodeEncodeError`, and the model has no such error path.
- Text.IsDigit: `str.isdigit()` and the regular expression `\d` also accept non-ASCII digits. The model accepts ASCII digits only.
- Text.AsciiLower: it lowers ASCII letters only, whereas Python's `str.lower()` uses full Unicode case mapping.
- Async-to-sync confusion is not characterised. `SyncEnvelopeRejectedByAsync` covers only the other direction.
- HTTP concerns are not modelled: routing, `request.get_json`, `jsonify`, status codes, logging and the `except` wrappers. Each failure becomes a `RouteError` value.
- The JSON values are strings. Non-string values such as a numeric `cvv`, which `str(...)` would convert, are not modelled, and a stored `None` is read as the empty string (`CardRoutes.OrEmpty`).
- The database service (`db_service`) is not part of this model.
  - `get_cards` takes the stored rows as input.
  - `CreateCardAnswer`, `UpdateCardAnswer` and `StoredRowShown` assume that the database returns the row it was given.
  - The "database returned None" branches of `create_card` and `update_card` are left out.
- The `update_card` existence check (the 404 for an unknown id) is not modelled, nor its crash on a missing request body, which Python raises inside `validate_card_data`.
- The `get_card` handler is not modelled. It reads one row through the database service and decrypts its number and CVV with the row's tag. Unlike `get_cards`, it has no guard for empty fields and does no grouping.
- The `delete_card` handler is not modelled: it only deletes a row through the database service.
- The `created_at`/`updated_at` timestamps are text passed through unchanged. The `isoformat()` conversion of `datetime` values is left out.
- The outer `get_cards` error path (500 when the database fails) is left out with the database.
- The clock is not modelled: `datetime.now()` is the parameter `now` of the expiry check.
- CardRoutes.BlankNameAccepted: the name is validated before it is stripped, so a name of three spaces is accepted and stored empty. This is the source's behaviour, recorded as a lemma and not corrected.
