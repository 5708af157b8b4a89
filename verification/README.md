# FakeyNews prediction endpoint — Dafny model

FakeyNews is a small web API that classifies a piece of news as "fake" or
"real". A request carries an optional `text` form field and an optional
uploaded image `file`. When there is no text, the image is decoded and its text
extracted by OCR. The resulting text goes to a placeholder classifier,
`predict_text`. That classifier answers "fake" with confidence 0.95 when the
lower-cased text contains the substring "fake", and "real" with confidence 0.90
otherwise. The handler `predict` returns either
`{prediction, confidence, text_extracted}` or `{error}`.

The model is functional and stateless:

- `wrappers.dfy` — `Option` (Python's `None`) and `Result` (a call that returns
  or raises, the error being the exception's message).
- `pystr.dfy` — the Python `str` operations the handler relies on. `IsSpace` is
  the exact `str.isspace()` character set, and `Strip` is `str.strip()`.
  `Lower` is `str.lower()` restricted to the characters whose lower case is an
  ASCII letter (see Left out). `Contains` is the substring test `pat in s`.
- `classifier.dfy` — `PredictText`, the model of `predict_text`. It comes with
  an independent, case-explicit reference predicate `MentionsFake` and a proof
  that the two agree.
- `endpoint.dfy` — `Request`, `Response`, the three error messages,
  `ExtractText` (the image branch), `ResolveInput` (which text gets classified)
  and `Predict` (the handler). Image decoding (`Image.open`) and OCR
  (`pytesseract.image_to_string`) are foreign calls. They are the parameters
  `decode: Bytes -> Result<Image, string>` and
  `extract: Image -> Result<string, string>`, where `Image` is a type
  parameter. A `Failure` stands for any `Exception` either call raises.

Two behaviours of the handler are easy to miss:

- Decode failures and OCR failures are both reported as
  `"OCR processing failed: " + str(e)`, so the caller cannot tell them apart
  (`Endpoint.DecodeAndOcrFailuresAlike`).
- Only the empty string counts as missing text. A whitespace-only `text` such
  as `" "` is classified and echoed back. Only OCR output is checked for
  blankness.

## Model

| member | source | states |
|---|---|---|
| `PyStr.StripLeading` | backend/main.py:81 | the result is a suffix of the input, everything dropped is whitespace, and it does not start with whitespace |
| `PyStr.StripTrailing` | backend/main.py:81 | the result is a prefix of the input, everything dropped is whitespace, and it does not end with whitespace |
| `PyStr.Strip` | backend/main.py:81 | `s.strip()` is a slice of `s` with only whitespace before and after it, it neither starts nor ends with whitespace, and it is empty exactly when every character of `s` is whitespace (the `not input_text.strip()` test) |
| `PyStr.Lower` | backend/main.py:39 | `text.lower()` has the same length as the text and lower-cases it character by character |
| `PyStr.ContainsIffOccurs` | backend/main.py:40 | the substring test `pat in s` holds exactly when `pat` occurs at some index of `s`; the empty pattern is in every string |
| `Classifier.LowerCharSpells` | backend/main.py:39 | a character lower-cases to a given letter exactly when it is that letter, its upper-case form, or (for `k`) the Kelvin sign |
| `Classifier.FakeAtLowersToFake` | backend/main.py:39-40 | at a given index, the lower-cased text reads "fake" exactly when the original spells "fake" there in some case |
| `Classifier.LowerSearchMatchesMention` | backend/main.py:39-40 | searching the lower-cased text for "fake" succeeds exactly when the original text mentions "fake" in any mixture of cases |
| `Classifier.PredictText` | backend/main.py:34-43 | total; a text mentioning "fake" in any case gets exactly ("fake", 0.95), and any other text gets exactly ("real", 0.90) |
| `Classifier.PredictTextIgnoresCase` | backend/main.py:39-40 | changing the case of any ASCII letters of the text, or swapping the Kelvin sign U+212A with `k` or `K`, leaves the classification unchanged |
| `Classifier.EmptyTextIsReal` | backend/main.py:42-43 | the empty string is classified ("real", 0.90) |
| `Classifier.FakeSamples` | backend/main.py:39-41 | "Fake News Alert", "FAKE" and "this is fakeness" are all classified ("fake", 0.95) |
| `Classifier.RealSample` | backend/main.py:42-43 | "Breaking news" is classified ("real", 0.90) |
| `Endpoint.ExtractText` | backend/main.py:77-84 | the image branch yields a text that is not blank, or else the blank-OCR message or a message starting with "OCR processing failed: " |
| `Endpoint.ResolveInput` | backend/main.py:68-84 | a resolved text is never empty; with non-empty `text` it is that text and resolution cannot fail; with neither text nor file it fails with the missing-input message; without text a resolved text is the non-blank output of a successful decode and extraction of the uploaded file |
| `Endpoint.Predict` | backend/main.py:57-94 | one of four outcomes; on success the text reported as extracted is non-empty, and the prediction and confidence are those of `PredictText` on it ("fake" exactly when it mentions "fake", confidence 0.95 exactly for "fake"); every error is the missing-input message, the blank-OCR message, or an OCR failure message |
| `Endpoint.MissingInputIff` | backend/main.py:69-70 | the missing-input error is returned exactly when there is no non-empty text and no file |
| `Endpoint.EmptyTextIsAbsent` | backend/main.py:69-77 | an empty `text` field gives the same response as an absent one, with or without a file |
| `Endpoint.TextTakesPrecedence` | backend/main.py:73-93 | a non-empty text is classified and echoed verbatim; the response is the same for any file and any decoder or OCR engine, so neither is consulted |
| `Endpoint.OcrFailureReported` | backend/main.py:77-84 | without text, a decoding failure or an extraction failure with message `m` yields the error "OCR processing failed: " + `m` |
| `Endpoint.DecodeAndOcrFailuresAlike` | backend/main.py:78-84 | a decoding failure and an extraction failure with the same message produce the same response |
| `Endpoint.BlankOcrIff` | backend/main.py:80-82 | without text, the blank-OCR error is returned exactly when decoding and extraction succeed and the extracted text is all whitespace |
| `Endpoint.ImageSuccessKeepsRawText` | backend/main.py:80-94 | without text, a non-blank OCR output is classified and reported as extracted untrimmed, surrounding whitespace included |
| `Endpoint.FakeTextSample` | backend/main.py:73-94 | posting the text "this news is fake" returns ("fake", 0.95) with that text as extracted |
| `Endpoint.EmptyRequestSample` | backend/main.py:69-70 | posting neither field returns the missing-input error |

## Left out

- The FastAPI application object, route decorators and the `GET /` health check
  (backend/main.py:9-13, 48-51) are framework plumbing with no logic.
- The CORS middleware configuration (backend/main.py:18-29) is static framework
  configuration.
- Image decoding and OCR internals (backend/main.py:79-80) are foreign library
  calls. They appear only as the `decode` and `extract` parameters, and their
  exceptions only as the `Failure` message `str(e)`.
- The handler is `async`, but it touches no shared state, so it is modelled as
  a pure function. Request parsing and validation by the framework (a
  non-file `file` field, form decoding) happen before the handler and are not
  modelled.
- `PyStr.Lower`: it models Python's Unicode `str.lower()` only for `A`-`Z` and
  the Kelvin sign U+212A, which lowers to `k`; every other character is left
  unchanged. The only characters whose Python lower case contains `f`, `a`,
  `k` or `e` are those letters, their upper-case forms and U+212A. Every other
  character that Python changes lowers to characters that are none of these;
  U+0130, for example, becomes `i` plus U+0307. So the search for "fake", and
  with it every verdict, is the same as in Python, but the lower-cased string
  itself differs from Python's for other non-ASCII letters. The handler never
  returns that string.
- Confidence values are the exact rationals 0.95 and 0.90. Python holds them
  as the nearest binary floats and prints them as `0.95` and `0.9`.
- frontend/src/App.jsx is UI state and a network call; it is not part of this
  model.
