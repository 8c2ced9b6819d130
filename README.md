# Join-signature server: a verified model of the signature route

The server (`index.js`) gives a browser a short-lived *signature* that lets
it join a video meeting, so that the API secret never leaves the backend.
`POST /signatures` takes `{ meetingNumber, role }` and answers
`{ signature }`, where

- `timestamp` is the clock reading in milliseconds minus 30000;
- `msg` is the base 64 of `apiKey + meetingNumber + timestamp + role`, with no separators;
- `hash` is the base 64 of HMAC-SHA256 over `msg`, keyed by the API secret;
- `signature` is the base 64 of `apiKey.meetingNumber.timestamp.role.hash`.

Before that, a presence check answers 400 `Missing body data: <name>` for each
of `meetingNumber` and `role` that the body lacks. A role that is not
strictly the number 0 (participant) or 1 (manager) gets a 400 that quotes it.

Making text of a value can throw, and Express then answers 500. A JSON
object can carry its own `toString` property, which is never callable, so
`String` of such an object throws, and so does `String` of an array that
holds one. Such a role throws while its 400 message is being built; such a
meeting number throws while `msg` is being built. A body with its own
`hasOwnProperty` property makes the presence check itself throw.

The model, one module per file:

- `utf8.dfy` (`Utf8`): UTF-8 as `Buffer.from(string)` applies it (RFC 3629), with a strict decoder.
- `base64.dfy` (`Base64`): base 64 with the standard alphabet and `=` padding (section 4 of RFC 4648). It has a strict decoder, and the two are proved inverse in both directions. Both go through a sequence of six-bit values, with a mark for pads: bytes and six-bit values are related by arithmetic, and six-bit values and characters position by position.
- `js_text.dfy` (`JsText`): the JavaScript values a JSON body can carry. It defines `String(value)`, which template literals and `+` apply, as a partial function that is undefined exactly where `String` throws, and integer rendering with a parser for it. It also holds `join` and `split` with one separator.
- `presence.dfy` (`Presence`): `bodyDataPresenceChecker` as a method with a loop, plus the corrected single-decision check `Gate`.
- `signature.dfy` (`Signature`): the role check and the signature computation as pure functions. A client-side `Verify` is the partner of `Sign`.
- `route.dfy` (`Route`): the route from request body to HTTP status and JSON body.
- `wrappers.dfy`: `Option` and `Result`; `bytes.dfy` (`Bytes`): the byte type.

HMAC-SHA256 is a parameter `hmac` of type `Hmac`. It can be any function from a key and a message to 32 bytes, so every property holds whatever HMAC is used. The clock reading `now` is a parameter too.

The code differs from its comments in two places, and the model follows the code:

- The comments promise status 201, but `res.json` sends 200.
- The comments show `role: 'manager'` as an example request, but the code rejects that role.

## Model

| member | source | states |
|---|---|---|
| `Presence.CheckPresence` | index.js:43-50 | one outcome per required name, in order; the outcome is `next()` exactly when the body has the name, else a 400 whose message is `Missing body data: <name>` |
| `Presence.CheckSignatureFields` | index.js:74 | for the route's fields (`meetingNumber`, `role`), the outcome sequence for each of the four presence cases, two `next()` calls when both are present |
| `Presence.MissingMessageNames` | index.js:41-42 | the missing-data message ends with the missing field's name |
| `Presence.Gate` | index.js:43-50 | corrected check: passes on exactly when every required name is present, otherwise one 400 naming the first missing name in order |
| `Signature.SignOutcomes` | index.js:77-97 | the handler signs exactly when the role is strictly 0 or 1 and the meeting number's text does not throw; it rejects exactly the bad roles whose text does not throw; it throws exactly when the value it makes text of throws |
| `Signature.BadRoleRejectedFirst` | index.js:77-86 | a bad role's answer is independent of credentials, HMAC, meeting number and clock, so nothing is computed for it; it is the role message ending with the role's text, or a throw when that text throws |
| `Signature.OwnToStringRoleThrows` | index.js:77-86 | a role object with its own `toString` makes the handler throw instead of answering 400 |
| `Signature.OwnToStringMeetingNumberThrows` | index.js:87-90 | a meeting number that is an object with its own `toString`, or an array holding one, makes the handler throw instead of signing |
| `Signature.RoleText` | index.js:89-96 | a good role's text is "0" or "1" |
| `Signature.StringRolesRejected` | index.js:68-86 | the strings `"0"` and `"manager"` are rejected, with messages ending `Got: 0` and `Got: manager` |
| `Signature.MessageDecodes` | index.js:88-90 | `msg` base-64-decodes to the UTF-8 bytes of `apiKey ++ meetingNumber ++ timestamp ++ role`, in that order, without separators |
| `Signature.JoinFive` | index.js:95-97 | joining the five fields with '.' is the template string `${k}.${m}.${t}.${r}.${h}` |
| `Signature.SignatureDecodes` | index.js:87-97 | a signature base-64-decodes to the bytes of `apiKey.meetingNumber.(now-30000).role.hash`; these bytes decode back to that text, and re-encoding them gives the signature |
| `Signature.SignatureSplits` | index.js:87-97 | with no '.' in the key and the meeting number, the text splits into exactly the five fields; the timestamp reads back as `now - 30000` and the role field is "0" or "1" |
| `Signature.SignatureVerifies` | index.js:87-97 | a client holding the same secret and HMAC accepts every signature the route issues: five fields, and the last is the hash of the first four |
| `Signature.SecretOnlyThroughHmac` | index.js:91-97 | two secrets or HMACs that agree on `Hmac(secret, msg)` give the same signature; the output is a function of its inputs |
| `Signature.MessageHashShape` | index.js:88-94 | `msg` and `hash` use only the alphabet and '='; the hash is 44 characters |
| `Signature.SignatureShape` | index.js:95-97 | the signature uses only the alphabet and '=' and has length `4 * ceil(n/3)` for its n payload bytes |
| `Base64.Encode` | index.js:88-97 | an encoding of n bytes has length `4 * ceil(n/3)` |
| `Base64.EncodeAlphabet` | index.js:88-97 | every character of an encoding is in the alphabet or '=', and '=' only in the last two positions |
| `Base64.NoDotInEncode` | index.js:91-97 | an encoding never contains '.', so the hash cannot add a field |
| `Base64.DecodeEncode` | index.js:88-97 | decoding an encoding gives back the bytes |
| `Base64.EncodeDecode` | index.js:88-97 | whatever the decoder accepts re-encodes to the same text |
| `Base64.DecodeIffEncode` | index.js:88-97 | `s` decodes to `b` exactly when `s` is the encoding of `b` |
| `Base64.Symbol` | index.js:88-97 | the symbol for a six-bit value is one of the 64 alphabet characters |
| `Base64.UnsextetsSextets` | index.js:88-97 | cutting bytes into six-bit values (three bytes to four values, the last group padded) and joining them again gives back the bytes |
| `Base64.SextetsUnsextets` | index.js:88-97 | any six-bit sequence the joiner accepts is exactly the cutting of the bytes it yields |
| `Base64.UnrenderRender` | index.js:88-97 | reading back the characters written for six-bit values and pads gives the same values |
| `Base64.RenderUnrender` | index.js:88-97 | any text made of alphabet characters and pads is the rendering of the values read from it |
| `Base64.SextetsPadAtEnd` | index.js:88-97 | pad marks occur only in the last two places of the six-bit sequence |
| `Utf8.EncodeChar` | index.js:88-89 | a character takes 1 to 4 bytes; an ASCII character is its own code, and a non-ASCII one uses only bytes of 0x80 and above |
| `Utf8.DecodeHeadEncodeChar` | index.js:88-89 | the decoder reads back one encoded character and its length |
| `Utf8.DecodeEncode` | index.js:88-89 | decoding a string's UTF-8 bytes gives the string back |
| `JsText.Digits` | index.js:89 | the decimal rendering is non-empty, digits only, and has no leading zero |
| `JsText.ParseDecimalOfDecimal` | index.js:87-89 | reading a rendered integer gives it back, so the timestamp field determines the timestamp |
| `JsText.DecimalChars` | index.js:95-96 | a rendered integer is an optional minus sign and digits, with no '.' |
| `JsText.ToTextThrows` | index.js:83-96 | making text of a value fails exactly when it is an object with its own `toString` property or an array holding such a value |
| `JsText.SplitJoin` | index.js:95-96 | splitting a '.'-join gives the parts back when no part contains '.' |
| `JsText.SplitAtFirst` | index.js:95-96 | splitting at the first separator peels off the part before it |
| `JsText.SplitWithoutSep` | index.js:95-96 | a part without the separator is not cut |
| `Route.Respond` | index.js:43-102 | the route answers 200, 400 or 500; 200 exactly when the body has no own `hasOwnProperty`, both fields are present, the role is 0 or 1 and the meeting number's text does not throw; 500 exactly when the body has its own `hasOwnProperty` or the role (if bad) or the meeting number (if the role is good) throws on conversion |
| `Route.RespondErrors` | index.js:41-86 | a body with its own `hasOwnProperty` gets 500; otherwise every 400 names the problem: the first missing field in order, or the bad role with its text |
| `Route.RespondSigns` | index.js:87-101 | a well-formed request whose meeting number's text does not throw gets 200 with `{ signature }` over that text, `now - 30000` and the role |
| `Route.ErrorBody` | index.js:81-85 | corrected 400 body: the client reads back exactly the message |
| `Route.ErrorBodyAsWritten` | index.js:41-42 | the body as sent, `{"error":{}}`, from which the client can read no message |
| `Route.ErrorBodyAsWrittenDropsMessage` | index.js:41-42 | a missing role and the role `"manager"` have different messages but reach the client as the same body |

## Findings

| source | as written | input that shows it | evidently intended | confidence | as-written member | corrected member |
|---|---|---|---|---|---|---|
| index.js:43-50 | `forEach` calls `next()` once per present field and writes a 400 per missing field | body `{meetingNumber, role}` gives two `next()` calls; body `{role}` gives a 400 and then a `next()` | pass on once when every field is present, otherwise one 400 for the first missing field | not executed; high, read from the loop | `Presence.CheckSignatureFields` | `Presence.Gate` |
| index.js:41-42, 81-85 | `res.json({ error: new Error(m) })` sends `{"error":{}}`, because an Error's message is not an enumerable property | a body without `role` and a body with role `"manager"` get the same 400 body | the 400 body carries the message | not executed; high | `Route.ErrorBodyAsWrittenDropsMessage` | `Route.ErrorBody` |

`Route.Respond` uses the corrected members. With the code as written, a body
that has `meetingNumber` but no `role` runs the handler from the first
`next()`, so the client gets the role check's 400, whose body is
`{"error":{}}`, rather than a 400 for the missing role.

## Left out

- The Express application, body parsing, CORS and `OPTIONS` handling, and what Express does after the first answer. A second answer throws `ERR_HTTP_HEADERS_SENT`, so the route never answers twice; for an empty body that throw ends the `forEach` before its second step. The model records each field's attempted outcome and the corrected single decision.
- `POST /meetings`: one HTTPS call to the provider, relaying its answer or the raw error object. It is I/O with no logic of its own.
- Environment loading, the port default, the startup warnings and `listen`. The credentials are a `Config` of two strings, so a missing key or secret is not modelled: the key would render as `undefined`, and HMAC would throw on a missing secret.
- The inside of HMAC-SHA256. It is any function to 32 bytes, passed as a parameter.
- The wall clock. `now` is a parameter.
- Decimal: agrees with `String(n)` only for integers of magnitude at most 2^53. Above that, `String` prints the shortest digits that read back as the same double and pads with zeros (`String(2**60)` is `1152921504606847000`), and JSON parsing already rounds such integers to doubles. A meeting number or bad role that large is rendered differently in the model.
- ToText: renders numbers with `Decimal`, so it shares that limit; non-integer numbers are not modelled either. A fractional role is rejected in the source all the same; only the digits its error message would show are not modelled.
- Lone UTF-16 surrogates in request strings. Dafny's `char` is a Unicode scalar value, so `Buffer.from`'s replacement of them is not modelled.
- CheckPresence, CheckSignatureFields and Gate take a body whose `hasOwnProperty` can be called. A body with its own `hasOwnProperty` property throws on the first field; that is modelled in `Route.Respond` only.
- Respond: the 500 body is Express's error page, whose text is not modelled (`ServerError` carries `null`).
