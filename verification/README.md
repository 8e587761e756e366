# PDF text matcher backend, modelled in Dafny

The backend of the PDF text matcher has two HTTP endpoints and one piece of
state. `POST /api/upload` takes one PDF and extracts its text. The text goes
into a single in-memory slot (`currentPdfContent`), and the server answers with
the file name, the text's length and a 200-code-unit preview.
`POST /api/match` takes a piece of text and asks a language model how well it
matches the stored document. It reads the leading integer of the reply with
JavaScript `parseInt` and clamps it to [0, 100]. It then labels the score
with one of five quality bands.

The model has six modules:

- `Wrappers`: `Option` and `Result`.
- `Js`: the JavaScript built-ins the handlers use.
  - Strings are sequences of UTF-16 code units, so `length` and `substring` count the way JavaScript does.
  - `trim` with the WhiteSpace and LineTerminator set of ECMA-262 (sections 12.2 and 12.3).
  - `substring` with its clamping and argument swap.
  - `Math.min` and `Math.max`.
- `ParseInt`: `parseInt` without a radix, as section 19.2.5 of ECMA-262 defines it.
  - Skip leading whitespace.
  - Take one optional sign.
  - A `0x`/`0X` prefix switches to hexadecimal.
  - Read the longest run of digits. An empty run gives NaN.
  - The module has a functional definition (`ParseLeadingInt`), a loop implementation proved equal to it (`ScanLeadingInt`), and lemmas that characterise it.
- `Confidence`: the score computed from a reply (`ConfidenceFromReply`): the reply is trimmed, parsed, NaN becomes 0, and the result is clamped. A call that threw also gives 0.
- `Quality`: the if/else-if ladder that turns a score into a label, with the exact label strings.
- `MatchServer`: the endpoints as a state machine over the one-slot store.
  - The multipart stage: field name, MIME filter and 10 MiB limit, plus the error middleware's mapping to responses.
  - The upload and match handlers.
  - Sequential traces of requests.

The external collaborators become inputs:

- The PDF text extractor's outcome is a `Result`: the text, or the message of the error it threw.
- The language model is a function from the query (document and user text) to an `Option` reply. `None` means the call threw.
- The API key is an `Option` for the environment variable.
- The clock is the elapsed time between the handler's two `Date.now()` readings.

Some behaviours of the handlers are easy to miss:

- The language model receives the untrimmed user text, and the response's `inputText` echoes the untrimmed text. Only the emptiness check trims.
- A `text` that is truthy but not a string makes `text.trim()` throw. The match answers 500 with the details `text.trim is not a function`. This happens before the document check, so such a body gets 500 even when no document is stored.
- An upload whose extracted text is the empty string succeeds and empties the slot. A later match then reports that no PDF has been uploaded.
- The bottom label is `" No Match"` and the middle one `" Moderate Match"`, each with a leading space.
- The `mode` field is always `"OpenAI GPT-4o"`. The `"Demo Mode"` alternative sits behind the same condition the handler has just required, so it cannot be reached (`MatchServer.Match`).

## Model

| member | source | states |
|---|---|---|
| Js.Trim | backend/index.js:193 | `trim` gives the slice of the string between a whitespace prefix and a whitespace suffix. The result is empty exactly when the whole string is whitespace, and a non-empty result neither starts nor ends with whitespace |
| Js.Substring | backend/index.js:59 | `substring(start, end)` is the slice between the two indices clamped to the length, with the indices swapped when `end < start`. A negative index counts as 0, so a negative start reads from the beginning and two negative indices give the empty string |
| Js.Min | backend/index.js:194 | `Math.min` is one of its arguments and no larger than either |
| Js.Max | backend/index.js:194 | `Math.max` is one of its arguments and no smaller than either |
| ParseInt.ParseLeadingInt | backend/index.js:193 | `parseInt` of an empty or all-whitespace string is NaN |
| ParseInt.ParseNaNIff | backend/index.js:193-194 | `parseInt` yields NaN exactly when, after leading whitespace and one sign, the text has no decimal digit, or is `0x`/`0X` with no hexadecimal digit after it |
| ParseInt.ParseDecimalPrefix | backend/index.js:193 | whitespace, an optional sign, decimal digits, then anything that does not continue the number parse to the signed value of those digits; parsing stops at the first non-digit |
| ParseInt.ParseHexPrefix | backend/index.js:193 | whitespace, an optional sign, `0x` or `0X`, hexadecimal digits, then anything that is not a hexadecimal digit parse to the signed hexadecimal value of those digits |
| ParseInt.ParseIgnoresLeadingWhitespace | backend/index.js:193 | whitespace before the text does not change what `parseInt` reads |
| ParseInt.ParseIgnoresTrailingWhitespace | backend/index.js:193 | whitespace after the text does not change what `parseInt` reads |
| ParseInt.ParseAfterTrim | backend/index.js:193 | `parseInt(reply.trim())` equals `parseInt(reply)`, so the `trim()` is redundant |
| ParseInt.DecimalString | backend/index.js:193 | every natural number has a decimal spelling without leading zeros whose digit value is that number |
| ParseInt.ParseDecimalString | backend/index.js:193 | the decimal spelling of n, followed by anything that does not continue the number, parses back to n |
| ParseInt.ScanLeadingInt | backend/index.js:193 | a left-to-right scan (skip whitespace, sign, hex prefix, accumulate digits) computes exactly the `parseInt` result |
| Confidence.Clamp | backend/index.js:194 | `Math.min(100, Math.max(0, x))` lies in [0, 100], is the identity there, and sends negatives to 0 and values above 100 to 100 |
| Confidence.ClampIdempotent | backend/index.js:194 | clamping twice is clamping once |
| Confidence.ClampMonotone | backend/index.js:194 | clamping preserves order |
| Confidence.ConfidenceFromReply | backend/index.js:193-197 | the confidence for every outcome of the call is in [0, 100], and a call that threw gives 0 |
| Confidence.ConfidenceOfRawReply | backend/index.js:193-194 | the confidence is the clamped leading integer of the untrimmed reply, or 0 when there is none |
| Confidence.ConfidenceWithoutDigits | backend/index.js:194 | a reply with no leading integer after whitespace and a sign (for example empty or prose) scores 0 |
| Confidence.ConfidenceOfDigits | backend/index.js:193-194 | a reply that starts with optional whitespace, a sign and decimal digits scores the clamped signed value of those digits |
| Confidence.ConfidenceOfScore | backend/index.js:193-194 | a reply that spells a score from 0 to 100 in decimal, padded or followed by non-digits, is reported unchanged |
| Confidence.ConfidenceOfPaddedScore | backend/index.js:193-194 | the reply `" 85 "` scores 85 |
| Confidence.ConfidenceOfPercentScore | backend/index.js:193-194 | the reply `"72%"` scores 72 |
| Confidence.ConfidenceOfHexScore | backend/index.js:193-194 | the reply `"0x50"` scores 80, because `parseInt` reads it as hexadecimal |
| Confidence.ConfidenceOfLargeScore | backend/index.js:193-194 | the reply `"150"` scores 100 |
| Confidence.ConfidenceOfNegativeScore | backend/index.js:193-194 | the reply `"-5"` scores 0 |
| Confidence.ConfidenceOfWords | backend/index.js:193-194 | the reply `"high"` scores 0 |
| Quality.BandOf | backend/index.js:104-109 | the ladder puts every score in the band whose interval contains it: 90 and up, 70-89, 50-69, 30-49, below 30 |
| Quality.Label | backend/index.js:105-109 | each of the five labels ends in `" Match"` |
| Quality.QualityLabel | backend/index.js:104-109 | the `quality` of a score is the label of the band whose interval contains the score |
| Quality.BandOfIff | backend/index.js:104-109 | a score gets a band exactly when it lies in that band's interval, so the intervals do not overlap |
| Quality.BandOfMonotone | backend/index.js:104-109 | a higher score never gets a lower band |
| Quality.EveryBandReachable | backend/index.js:104-109 | each of the five bands is reached by a score in [0, 100] |
| Quality.LabelLeadingSpace | backend/index.js:104-109 | exactly the " Moderate Match" and " No Match" labels start with a space |
| Quality.LabelsDistinct | backend/index.js:104-109 | the five labels are pairwise different |
| Quality.QualityLabelSame | backend/index.js:104-109 | two scores get the same label exactly when they fall in the same band |
| Quality.QualityBoundaries | backend/index.js:104-109 | 100 and 90 give "Excellent Match", 89 and 70 "Good Match", 69 and 50 " Moderate Match", 49 and 30 "Weak Match", 29 and 0 " No Match" |
| MatchServer.Text | backend/index.js:46-215 | each fixed message is sent with the length of its wording (`MessageLength`), and the ten lengths are all different |
| MatchServer.MessagesDistinct | backend/index.js:46-215 | two fixed messages have the same wording only when they are the same message, so every failure is told apart by its `error` text |
| MatchServer.UploadRejection | backend/index.js:22-34 | a file part reaches the handler exactly when it is in field `pdf`, declared `application/pdf` and smaller than 10 MiB. Otherwise, checked in this order: a wrong field gives 500 "Internal server error", a wrong type gives 400 "Only PDF files are allowed!", a file of 10 MiB or more gives 400 "File too large. Maximum size is 10MB." |
| MatchServer.Preview | backend/index.js:59 | the preview is the first min(length, 200) code units of the text followed by `...`, whatever the text's length |
| MatchServer.PreviewOfShortText | backend/index.js:59 | a text of at most 200 code units is previewed whole, still followed by `...` |
| MatchServer.PreviewSameIff | backend/index.js:59 | two texts have the same preview exactly when their first 200 code units (or all of shorter texts) agree |
| MatchServer.Upload | backend/index.js:42-68 | the upload answers 200 exactly when an admitted file's text was extracted. It then stores the text and reports the file name, the text's length and its preview. A missing file gives 400, a rejected part gives the multipart stage's error, and an extraction failure gives 500 with the error's message. In every failure the slot is unchanged, and the language model is never asked |
| MatchServer.Match | backend/index.js:71-126 | the match never writes the slot. Its checks come in order: no or blank text gives 400, non-string text gives 500, an empty slot gives 400, an unset key gives 400. The model is asked about (document, untrimmed text) exactly when all checks pass, and then the answer is 200 with the clamped confidence, its label, the elapsed time, the untrimmed text and mode "OpenAI GPT-4o" |
| MatchServer.MatchedScoreInRange | backend/index.js:104-117 | a successful match reports a confidence in [0, 100] and the label of that confidence's band |
| MatchServer.Handle | backend/index.js:37-126 | a request changes the slot only when it is an upload of an admitted PDF whose text was extracted, and then it holds that text |
| MatchServer.Run | backend/index.js:37-126 | handling a sequence of requests one after another gives exactly one response per request |
| MatchServer.RunStoresLastUpload | backend/index.js:37-52 | after any sequence of requests the slot holds the text of the last successful upload, or its earlier content when there was none |
| MatchServer.RunWithoutStoresKeepsDocument | backend/index.js:71-126 | a sequence of requests none of which is a successful upload, such as any sequence of matches, leaves the slot unchanged |
| MatchServer.RunExtends | backend/index.js:37-126 | handling further requests does not change the responses already given |
| MatchServer.RunResponseAt | backend/index.js:37-126 | each request's response is what its handler gives in the state left by the requests before it |
| MatchServer.MatchSuccessNeedsDocument | backend/index.js:81-85 | a match request is answered with 200 only when the slot is non-empty, and the answer echoes the request's text |
| MatchServer.MatchNeedsEarlierUpload | backend/index.js:81-93 | starting from the empty slot, a successful match needs an earlier upload of non-empty text, and the last such upload is the document in the slot when the match is handled |
| MatchServer.UploadThenMatch | backend/index.js:42-117 | uploading a PDF with non-empty text, then matching non-blank text with the key set, stores the text, and the match answers with the score and label of the model's reply about that text |

## Left out

- Express, cors and the JSON body parser are not modelled, and neither are `app.listen`, the `PORT` setting or console logging. Requests reach the handlers as already-decoded values. A malformed JSON body, which the body parser rejects before the handler runs, is not modelled.
- Multer's streaming is not modelled. A file part is its field name, file name, declared MIME type and byte count. Only one file part per request is modelled; a second `pdf` part (also rejected as an unexpected field) is not. Neither is a part without a file name, which multer skips (modelled as no file).
- The PDF text extractor's internals are not modelled, because it is a foreign library. Its outcome is an input.
- The OpenAI client, the prompt text and the model's scoring are not modelled, because they are an external service. Only the query (document and user text) and the reply or failure are modelled. A reply with no content string makes `trim` throw inside the same `try`, which is the `None` case.
- Concurrency between overlapping requests on the shared slot is not modelled. Traces are sequential.
- `Date.now()` is not modelled. `processingTime` is the elapsed time, taken as an arbitrary integer.
- The frontend is not modelled, because it is a view over the two endpoints.
- ParseInt.ScanLeadingInt: returns the exact integer where JavaScript's `parseInt` returns the nearest double. Rounding to a double keeps the sign and order, so it cannot move a value across 0 or 100, and the clamped confidence is the same.
- MatchServer.UploadRejection: a file of exactly 10 MiB is rejected as too large. This follows the multipart parser that current multer releases use (busboy 1.x), which reports the limit as soon as the byte count reaches it. Older multer releases let a file of exactly the limit through. The package versions are not part of the model.
- Js.Lit: string literals are taken one code unit per character. Characters above U+FFFF, which JavaScript stores as surrogate pairs, do not occur in the server's literals and are not modelled.
