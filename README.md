# Behaviour trace demo: biometric sign-in helpers and small decision functions

This project is a Dafny model of the parts of the behaviour-trace demo that
carry logic of their own. Each part is listed with the Dafny file that models it.

- **The client-side WebAuthn helpers** (`webauthn.dfy`).
  - The capability gate.
  - The registration and authentication ceremonies, with the options records
    they build. The field names follow W3C Web Authentication Level 2,
    sections 5.4 and 5.5.
  - The device label derived from the user agent.
  - The codec that turns credential ids and public keys into text. It maps each
    byte to one character of a "binary string" and then applies the browser's
    `btoa` / `atob`.
- **The browser builtins the helpers rely on:**
  - base 64 as in section 4 of RFC 4648, with `atob`'s forgiving decode
    (`base64.dfy`);
  - UTF-8 as in RFC 3629, for `TextEncoder` (`utf8.dfy`);
  - substring search and ASCII lowercasing (`text.dfy`);
  - byte/number conversions (`bytes.dfy`).
- **The purchase list kept in the browser's local storage**
  (`purchase_storage.dfy`). A class holds the storage slot, and its methods
  read, overwrite, prepend to and filter the stored list.
- **The three HTTP handlers for a user's registered credentials**
  (`credential_routes.dfy`). A class holds the credential table, and `GET`,
  `POST` and `DELETE` are methods over it.
- **The keyword spam check of the spam-detection demo** and its result element
  (`spam_check.dfy`).
- **The message the sign-in error page shows for an error code**
  (`auth_error_page.dfy`).

The platform ceremonies (`navigator.credentials.create` / `get`) are oracle
functions from the options record to the ceremony's result.
`crypto.getRandomValues` becomes the sequence of bytes it yields. The browser
is an `Environment` record, and the session user, request body, query
parameter, generated row key and clock are handler parameters.

Main results:

- Base 64 decoding inverts encoding for every byte sequence, and `atob` rejects
  every text with a character outside the alphabet, `=` and ASCII whitespace.
- UTF-8 decoding inverts `TextEncoder` for every string.
- `getDeviceName` is a first-match-wins classifier, and "Unknown Device" is
  returned exactly when no token matches.
- Every field of both options records is fixed.
- The allow-list has one entry per id, holding its decoding.
- Deleting a purchase removes exactly the entries with that id and keeps the
  order.
- Every handler answers 401 without touching the table when there is no
  session user.
- A delete removes only a row of the session user, and a row that does not
  match gives a 500.
- The spam verdict is case-insensitive and is preserved by adding text.

Two properties a caller of the helpers could expect do not hold for the code
as written, and the model follows the code:

- **Registration completeness.** A caller could expect a registration result
  to either have both fields present or be null. The code applies a non-null assertion to
  `getPublicKey()` (lib/webauthn.ts:91), and `new Uint8Array(null)` is empty.
  So a ceremony that yields no public key gives a record whose `publicKey` is
  the empty string. `MissingPublicKeyGivesEmptyKey` shows this, and
  `RegistrationFieldsNonEmpty` states exactly when both fields are non-empty.
- **Allow-list integrity.** A caller could expect the returned id to always be
  one of the given ids. Two things break that:
  - `atob` accepts unpadded and non-canonical text, but the returned id is
    always re-encoded in canonical form. This holds when the ids are encodings,
    as registration produces them (`AuthenticatedIdIsAllowed`), and fails for
    an id such as "AB" (`AuthenticatedIdMayDifferFromGivenId`).
  - Membership is never re-checked locally.

## Model

| member | source | states |
|---|---|---|
| WebAuthn.SupportNeedsAllThree | lib/webauthn.ts:13-19 | isWebAuthnSupported is false when any one of window, PublicKeyCredential and navigator.credentials is missing, and true when all three exist, whatever the platform, host name and user agent |
| WebAuthn.IsPlatformAuthenticatorAvailable | lib/webauthn.ts:25-37 | true only when WebAuthn is supported; false when the platform query throws; otherwise the platform's own answer |
| WebAuthn.UnsupportedIgnoresPlatform | lib/webauthn.ts:14-28 | without window, PublicKeyCredential or navigator.credentials the answer is false whatever the platform would say |
| WebAuthn.GetDeviceName | lib/webauthn.ts:175-186 | the label is "Unknown Device" or one of the six labels, and never empty |
| WebAuthn.DeviceNamePriority | lib/webauthn.ts:175-186 | the label of token k is returned exactly when token k occurs and none of the tokens tested before it does |
| WebAuthn.DeviceNameUnknown | lib/webauthn.ts:175-186 | "Unknown Device" exactly when none of iPhone, iPad, Mac, Windows, Android, Linux occurs; otherwise one of the six labels (Windows gives "Windows PC") |
| WebAuthn.IPhoneBeforeMac | lib/webauthn.ts:178-180 | a user agent naming both iPhone and Mac is labelled "iPhone" |
| WebAuthn.BinaryStringOf | lib/webauthn.ts:152-156 | the binary string has one character per byte and character i has code bytes[i] |
| WebAuthn.ArrayBufferToBase64 | lib/webauthn.ts:151-158 | the result is the RFC 4648 encoding of the bytes and decodes back to exactly those bytes |
| WebAuthn.Base64ToArrayBuffer | lib/webauthn.ts:163-170 | the filled buffer holds the forgiving-base64 decoding of the text; None exactly when atob rejects the text |
| WebAuthn.NewChallenge | lib/webauthn.ts:52-53 | the challenge is 32 bytes, exactly those the random source supplies |
| WebAuthn.GetRandomValues | lib/webauthn.ts:53 | the buffer is overwritten in place with the random bytes |
| WebAuthn.RegistrationResult | lib/webauthn.ts:83-100 | null exactly when the ceremony yields null or throws; otherwise credentialId and publicKey decode to the raw id and the key (no bytes when the key is missing), with the derived device label |
| WebAuthn.RegisterWebAuthnCredential | lib/webauthn.ts:42-105 | throws "WebAuthn is not supported in this browser" without building options when unsupported; otherwise hands the ceremony the fixed creation options (challenge, rp name and hostname, UTF-8 user id, name = displayName, algorithms [-7, -257] in order, platform attachment, required verification, no resident key, 60000 ms, attestation "none") and returns the registration result |
| WebAuthn.MissingPublicKeyGivesEmptyKey | lib/webauthn.ts:91 | a ceremony with no public key still yields a record, whose publicKey is empty |
| WebAuthn.RegistrationFieldsNonEmpty | lib/webauthn.ts:90-100 | both fields of a record are non-empty exactly when the raw id and the public key are non-empty |
| WebAuthn.AllowList | lib/webauthn.ts:121-124 | one "public-key" descriptor per id, in order, holding that id's decoding; None exactly when some id is not valid base 64 |
| WebAuthn.AllowListRejects | lib/webauthn.ts:121-124 | an id atob rejects makes the whole allow-list fail: ["A"] and ["AA==", "AA*A"] give None, the case in which authentication returns null without a ceremony |
| WebAuthn.AssertionResultId | lib/webauthn.ts:137-141 | an id exactly when the ceremony asserts a credential, and it decodes to the asserted raw id |
| WebAuthn.AuthenticateWebAuthn | lib/webauthn.ts:110-146 | throws when unsupported; null without a ceremony when an id does not decode; otherwise the ceremony gets the challenge, the allow-list, 60000 ms and required verification, and the result is the encoded asserted id or null |
| WebAuthn.AllowListOfEncodedIds | lib/webauthn.ts:121-124 | ids that are encodings all decode, each allow-list entry holding exactly the encoded bytes |
| WebAuthn.AuthenticatedIdIsAllowed | lib/webauthn.ts:121-141 | with encoded ids and a platform asserting an allow-listed credential, the returned id is one of the given ids |
| WebAuthn.AuthenticatedIdMayDifferFromGivenId | lib/webauthn.ts:121-141 | the id "AB" is allow-listed as the byte 0, and asserting that credential returns "AA==", which is not among the ids |
| Base64.Encode | lib/webauthn.ts:157 | an encoding always has a multiple of four characters |
| Base64.Decode | lib/webauthn.ts:164 | accepted text never decodes to more bytes than it has characters |
| Base64.Btoa | lib/webauthn.ts:157 | btoa's result has a multiple of four characters, and btoa of the empty string is the empty string |
| Base64.Atob | lib/webauthn.ts:164 | atob's result is a binary string (every code below 256) no longer than its input |
| Base64.RoundTrip | lib/webauthn.ts:151-170 | decoding the encoding of any byte sequence gives back the same bytes |
| Base64.EncodeLength | lib/webauthn.ts:157 | the encoding has 4 * ceil(n / 3) characters, and it is empty exactly for no bytes |
| Base64.EncodeAlphabet | lib/webauthn.ts:157 | every character of an encoding is in the alphabet, except the trailing padding "=" |
| Base64.SextetValueInvertsChar | lib/webauthn.ts:157 | the alphabet character of a 6-bit value maps back to that value and is never "=" |
| Base64.SextetCharInvertsValue | lib/webauthn.ts:164 | every alphabet character is the character of its own value |
| Base64.SextetsRoundTrip | lib/webauthn.ts:151-170 | reassembling the 6-bit groups of any byte sequence gives back the bytes |
| Base64.StripPaddingOfEncode | lib/webauthn.ts:164 | atob's padding rule removes exactly the padding btoa adds |
| Base64.DecodeIsLenient | lib/webauthn.ts:164 | atob accepts the unpadded "AB" and the canonical "AA==" as the same single zero byte, whose encoding is "AA==" |
| Base64.SextetsPadBitsZero | lib/webauthn.ts:157 | the bits of the last sextet that carry no data (four after one leftover byte, two after two) are zero, as section 3.5 of RFC 4648 requires |
| Base64.EncodePadBitsZero | lib/webauthn.ts:157 | the character before the padding stands for a sextet whose unused low bits are zero, so btoa never emits a text such as "AB==" |
| Base64.ValuesAlphabet | lib/webauthn.ts:164 | the sextet conversion succeeds only on alphabet characters |
| Base64.DecodeAlphabet | lib/webauthn.ts:164 | text that atob accepts holds only alphabet characters, "=" and ASCII whitespace; any other character makes it throw |
| Base64.DecodeRejects | lib/webauthn.ts:164 | atob throws on "A" (a lone leftover character), on "AA*A" (a character outside the alphabet) and on "A===" (padding that does not close the text) |
| Base64.BinaryStringRoundTrip | lib/webauthn.ts:153-156 | the binary string of any bytes has only codes below 256, and its character codes are the bytes |
| Base64.BtoaOfBinaryString | lib/webauthn.ts:157 | btoa never throws on a binary string and yields the encoding of its bytes |
| Utf8.EncodeChar | lib/webauthn.ts:62 | each character encodes to one to four byte values |
| Utf8.EncodeValues | lib/webauthn.ts:62 | a string encodes to byte values, at least as many as it has characters and at most four times as many |
| Utf8.Encode | lib/webauthn.ts:62 | TextEncoder yields at least one byte per character and at most four times as many bytes as characters |
| Utf8.Decode | lib/webauthn.ts:62 | accepted bytes never decode to more characters than there are bytes |
| Utf8.RoundTrip | lib/webauthn.ts:62 | decoding the TextEncoder bytes of any string gives back the string |
| Utf8.AsciiEncoding | lib/webauthn.ts:62 | an ASCII user id encodes to its own character codes |
| Utf8.EncodeConcat | lib/webauthn.ts:62 | the encoding of a concatenation is the concatenation of the encodings |
| Text.Contains | spam-detection-demo-2/src/script.js:8 | a word that is found is no longer than the text |
| Text.ContainsIff | spam-detection-demo-2/src/script.js:8 | includes holds exactly when the word occurs at some position |
| Text.ContainsInContext | spam-detection-demo-2/src/script.js:8 | a word found in a text is found in any text around it |
| Text.ContainsInEmpty | spam-detection-demo-2/src/script.js:8 | only the empty word occurs in the empty text |
| Text.ToLower | spam-detection-demo-2/src/script.js:7 | lowercasing keeps the length |
| Text.ToLowerProperties | spam-detection-demo-2/src/script.js:7 | lowercasing keeps the length, turns each letter A-Z into the letter 32 code points up (a-z), leaves no upper-case letter and changes no other character |
| Text.ToLowerIdempotent | spam-detection-demo-2/src/script.js:7 | lowercasing twice is lowercasing once |
| Text.ToLowerConcat | spam-detection-demo-2/src/script.js:7 | lowercasing distributes over concatenation |
| PurchaseStorage.RemoveId | lib/localStorage.ts:36 | the kept entries are exactly the entries whose id differs, and the list never grows |
| PurchaseStorage.PurchaseStore.Stored | lib/localStorage.ts:5-15 | what a read of the slot yields: the serialised list in a browser whose slot is readable and holds one, empty in every other case |
| PurchaseStorage.PurchaseStore.GetPurchases | lib/localStorage.ts:5-15 | the stored list; empty outside a browser, when nothing is stored, when the text is empty or does not parse, and when reading throws |
| PurchaseStorage.PurchaseStore.SavePurchases | lib/localStorage.ts:17-25 | the slot holds the list when writing succeeds and is unchanged otherwise, never throwing; a readable slot then reads back the list |
| PurchaseStorage.PurchaseStore.AddPurchase | lib/localStorage.ts:27-32 | returns the purchase followed by the previous list, one entry longer, and stores it; a readable slot then reads back the returned list |
| PurchaseStorage.PurchaseStore.DeletePurchase | lib/localStorage.ts:34-39 | returns the previous list without the entries of that id and stores it; a readable slot then reads back the returned list |
| PurchaseStorage.RemoveIdConcat | lib/localStorage.ts:36 | filtering distributes over concatenation, so the kept entries keep their order |
| PurchaseStorage.RemoveAbsentId | lib/localStorage.ts:36 | deleting an id no entry carries leaves the list unchanged |
| PurchaseStorage.RemoveIdIdempotent | lib/localStorage.ts:36 | deleting an id twice is deleting it once |
| PurchaseStorage.RemoveIdChanges | lib/localStorage.ts:36 | deleting changes the list exactly when some entry carries the id |
| PurchaseStorage.AddThenDelete | lib/localStorage.ts:27-39 | adding a purchase with a new id and deleting that id restores the previous list |
| CredentialRoutes.ListFor | app/api/auth/webauthn/route.ts:14-22 | the listed summaries (id, deviceName, createdAt, lastUsedAt) are exactly those of the user's rows, and the list is never longer than the table |
| CredentialRoutes.ListForConcat | app/api/auth/webauthn/route.ts:14-22 | listing distributes over concatenation of tables, so the list keeps table order and gives each of the user's rows exactly one summary |
| CredentialRoutes.ListForOne | app/api/auth/webauthn/route.ts:14-22 | a one-row table lists that row's summary when it belongs to the user and nothing otherwise |
| CredentialRoutes.ListForIgnoresOthers | app/api/auth/webauthn/route.ts:14-22 | another user's row added at either end of the table does not change the user's list |
| CredentialRoutes.StoredDeviceName | app/api/auth/webauthn/route.ts:58 | the given device name when present and non-empty, "Unknown Device" otherwise; never empty |
| CredentialRoutes.RemoveById | app/api/auth/webauthn/route.ts:97-102 | the rows left are exactly the rows with another key |
| CredentialRoutes.RemoveAbsentKey | app/api/auth/webauthn/route.ts:97-102 | removing a key no row carries changes nothing |
| CredentialRoutes.RemoveUniqueKey | app/api/auth/webauthn/route.ts:97-102 | with unique keys, removing a present key removes exactly one row |
| CredentialRoutes.RemovePreservesUnique | app/api/auth/webauthn/route.ts:97-102 | removal keeps the row keys unique |
| CredentialRoutes.CredentialTable.Get | app/api/auth/webauthn/route.ts:6-32 | 401 "Unauthorized" without a session user; otherwise 200 with that user's summaries only |
| CredentialRoutes.CredentialTable.Post | app/api/auth/webauthn/route.ts:35-76 | 401 without a session user, 500 on a body that is not JSON or is JSON null, 400 "Credential data required" when credentialId or publicKey is missing or empty, each leaving the table unchanged; otherwise exactly one row is appended, owned by the session user with the given id and key and the defaulted device name, and the reply names its key and device |
| CredentialRoutes.CredentialTable.Delete | app/api/auth/webauthn/route.ts:79-112 | 401 without a session user and 400 "Credential ID required" without an id, table unchanged; 500 "Failed to delete credential" and no change when no row has both that key and the session user; otherwise exactly that row is removed; other users' rows always remain |
| SpamCheck.SomeContained | spam-detection-demo-2/src/script.js:8 | true exactly when one of the words occurs in the text |
| SpamCheck.IsSpam | spam-detection-demo-2/src/script.js:1-8 | a message shorter than four characters, the length of the shortest keywords "spam" and "free", is never spam |
| SpamCheck.IsSpamIff | spam-detection-demo-2/src/script.js:1-8 | spam exactly when one of "spam", "buy now", "click here", "free", "limited time offer" occurs in the lowercased input |
| SpamCheck.CaseInsensitive | spam-detection-demo-2/src/script.js:7 | an input and its lowercasing get the same verdict |
| SpamCheck.EmptyIsNotSpam | spam-detection-demo-2/src/script.js:1-8 | the empty message is not spam |
| SpamCheck.SpamInContext | spam-detection-demo-2/src/script.js:8 | adding text before or after a spam message keeps it spam |
| SpamCheck.ResultView.OnCheckClick | spam-detection-demo-2/src/script.js:6-16 | the element shows "This message is likely spam." exactly for spam and "This message is not spam." otherwise, in red resp. green |
| AuthErrorPage.MessagesNonEmpty | app/auth/error/page.tsx:11-23 | the table has a Default entry and no empty message |
| AuthErrorPage.SelectMessage | app/auth/error/page.tsx:11-25 | a code of the table gives its entry; an absent, empty or unknown code gives the Default message; the message is always a table value and never empty |
| AuthErrorPage.KnownCodes | app/auth/error/page.tsx:11-25 | "AccessDenied" gives its own message; "Default" and the empty code give the same message as no code |
| AuthErrorPage.PropertyOf | app/auth/error/page.tsx:11-25 | a property read on the table yields a string exactly for the table's keys, and undefined exactly outside the keys and the inherited names |
| AuthErrorPage.MessageAsWritten | app/auth/error/page.tsx:25 | the expression as written yields a string unless the code names a member inherited from Object.prototype |
| AuthErrorPage.InheritedNameSelectsNoMessage | app/auth/error/page.tsx:25 | "toString" selects the inherited method and "__proto__" the prototype object, not a message |
| AuthErrorPage.AsWrittenAgreesOffPrototype | app/auth/error/page.tsx:11-25 | for every code that is not an inherited name, the expression as written gives the message of the own-key lookup |

## Left out

- Asynchrony: `await` and the suspension of the ceremonies. The ceremonies are
  oracle functions, and the ceremony timeout is a constant passed to them.
- The `console.error` logging in every catch block.
- The real browser APIs. `navigator.credentials.create` / `get` and
  `isUserVerifyingPlatformAuthenticatorAvailable` are oracle values.
  `crypto.getRandomValues` is the sequence of bytes it yields.
- Exceptions other than the ceremony's and `atob`'s: reading `credential.response`
  and a getter that throws are not modelled.
- `TextEncoder` on a string with a lone surrogate. A Dafny `char` is a Unicode
  scalar value, so such strings cannot be represented; the encoder would write
  U+FFFD for them.
- The `/iPhone/.test(ua)` regular expressions. Each pattern is a literal word,
  so each is modelled as a substring test.
- JSON text in local storage. The slot holds either a serialised purchase list
  or text that is empty or does not parse (both read as the empty list).
- JSON that parses to something other than a purchase array, for example
  `null`, a number or an object, which `getPurchases` would return as is. On
  such a value `addPurchase` (the spread at lib/localStorage.ts:29) and
  `deletePurchase` (the `filter` call at lib/localStorage.ts:36) throw a
  `TypeError` that nothing catches; the model does not represent these throws.
- A `price` stored as a floating-point number. It is a `real` and no arithmetic
  is done on it.
- The database client behind the handlers: connection failures, the ordering
  of `findMany` (the model keeps table order) and the key and timestamps it
  generates. These are parameters (`freshId`, `now`), and `lastUsedAt` starts
  as None. `CredentialTable.Post` requires that `freshId` names no existing row:
  this stands for the database generating an unused key, not for a check the
  handler makes. The database schema is not part of this model.
- Uniqueness of `credentialId`, which would be a schema constraint. So a
  second registration of the same credential id is not rejected.
- Body fields that are JSON values other than strings or null (numbers,
  objects). The handler passes a truthy non-string to the database, and its
  validation error becomes a 500.
- The session lookup (`auth()`): it is the optional user id passed in.
- `toLowerCase` beyond ASCII. Lowercasing covers A-Z only.
- The DOM lookups and event registration of the spam demo.
- The React rendering of the error page and of every other component; the
  prompt that offers biometric enrolment after sign-in lives in those
  components.
- The rest of the repository: NextAuth configuration, the purchase API routes
  and ORM helpers, statistics and currency formatting, and the OpenAI demo.

## Findings

| source | as written | input that shows it | evidently intended | confidence | as-written member | corrected member |
|---|---|---|---|---|---|---|
| app/auth/error/page.tsx:25 | `errorMessages[error] \|\| errorMessages.Default` reads a property of a plain object literal, which also answers the names inherited from `Object.prototype` | `?error=toString` (a function is selected) or `?error=__proto__` (the prototype object is selected) | the table's own message for a known code and the Default message for every other code | not executed | AuthErrorPage.MessageAsWritten, with AuthErrorPage.InheritedNameSelectsNoMessage | AuthErrorPage.SelectMessage, with AuthErrorPage.AsWrittenAgreesOffPrototype |
