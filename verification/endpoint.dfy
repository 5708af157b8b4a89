/** The `POST /predict` handler: it resolves the text to classify from the
    optional `text` form field and the optional uploaded `file`, running image
    decoding and OCR on the file when no text is given, and assembles either a
    success record or an error record.

    Image decoding (`Image.open`) and text extraction
    (`pytesseract.image_to_string`) are foreign calls; they are the parameters
    `decode` and `extract`, each either returning a value or raising an
    exception whose message is the `Failure` value. `Image` is whatever the
    decoder produces. */
module Endpoint {
  import opened Wrappers
  import opened PyStr
  import opened Classifier

  newtype byte = x: int | 0 <= x < 256
  type Bytes = seq<byte>

  /** The two optional form fields of a request. */
  datatype Request = Request(text: Option<string>, file: Option<Bytes>)

  /** The JSON body returned: `{prediction, confidence, text_extracted}` on
      success, `{error}` otherwise. */
  datatype Response =
    | Ok(prediction: string, confidence: real, textExtracted: string)
    | Err(error: string)

  const MissingInputMessage := "Please provide either 'text' or 'file'."
  // Written as two literals so that the solver can read its individual
  // characters; the value is the single message of the source.
  const EmptyOcrMessage := "OCR did not extract any text." + " Try a clearer image."
  const OcrFailurePrefix := "OCR processing failed: "

  /** Python truthiness of the text field: neither `None` nor `""`. */
  predicate HasText(req: Request) {
    req.text.Some? && req.text.value != ""
  }

  /** An uploaded file object is always truthy. */
  predicate HasFile(req: Request) {
    req.file.Some?
  }

  /** The image branch: decode the upload, extract its text, and reject a
      blank extraction. Either failing call is reported with the same prefix,
      followed by the exception's message. */
  function ExtractText<Image>(
    bytes: Bytes,
    decode: Bytes -> Result<Image, string>,
    extract: Image -> Result<string, string>
  ): (r: Result<string, string>)
    ensures r.Success? ==> !IsBlank(r.value)
    ensures r.Failure? ==> r.error == EmptyOcrMessage || StartsWith(r.error, OcrFailurePrefix)
  {
    match decode(bytes)
    case Failure(e) => Failure(OcrFailurePrefix + e)
    case Success(image) =>
      match extract(image)
      case Failure(e) => Failure(OcrFailurePrefix + e)
      case Success(t) => if Strip(t) == "" then Failure(EmptyOcrMessage) else Success(t)
  }

  /** The text to classify, or the error message to return instead. Text, when
      given and non-empty, wins over the file; an empty text counts as none. */
  function ResolveInput<Image>(
    req: Request,
    decode: Bytes -> Result<Image, string>,
    extract: Image -> Result<string, string>
  ): (r: Result<string, string>)
    ensures r.Success? ==> r.value != ""
    ensures r.Success? && HasText(req) ==> r.value == req.text.value
    ensures r.Success? && !HasText(req) ==> !IsBlank(r.value)
    ensures r.Success? && !HasText(req) ==>
      && req.file.Some?
      && decode(req.file.value).Success?
      && extract(decode(req.file.value).value) == Success(r.value)
    ensures r.Failure? ==> !HasText(req)
    ensures !HasText(req) && !HasFile(req) ==> r == Failure(MissingInputMessage)
  {
    if !HasText(req) && !HasFile(req) then Failure(MissingInputMessage)
    else if HasText(req) then Success(req.text.value)
    else ExtractText(req.file.value, decode, extract)
  }

  /** The handler `predict`. Exactly one of four outcomes: the missing-input
      error, an OCR failure, the blank-OCR error, or a classification whose
      verdict and confidence are those of `PredictText` on the text it
      reports as extracted, which is never empty. */
  function Predict<Image>(
    req: Request,
    decode: Bytes -> Result<Image, string>,
    extract: Image -> Result<string, string>
  ): (r: Response)
    ensures r.Ok? ==> r.textExtracted != ""
    ensures r.Ok? ==> Prediction(r.prediction, r.confidence) == PredictText(r.textExtracted)
    ensures r.Ok? ==> (r.prediction == "fake" <==> MentionsFake(r.textExtracted))
    ensures r.Ok? ==> (r.confidence == 0.95 <==> r.prediction == "fake")
    ensures r.Err? ==>
      || r.error == MissingInputMessage
      || r.error == EmptyOcrMessage
      || StartsWith(r.error, OcrFailurePrefix)
  {
    match ResolveInput(req, decode, extract)
    case Failure(e) => Err(e)
    case Success(t) =>
      var p := PredictText(t);
      Ok(p.verdict, p.confidence, t)
  }

  /** The missing-input error is returned exactly when there is neither a
      non-empty text nor a file. */
  lemma MissingInputIff<Image>(
    req: Request,
    decode: Bytes -> Result<Image, string>,
    extract: Image -> Result<string, string>
  )
    ensures Predict(req, decode, extract) == Err(MissingInputMessage)
        <==> !HasText(req) && req.file.None?
  {
    if HasFile(req) && !HasText(req) {
      var r := ExtractText(req.file.value, decode, extract);
      if r.Failure? && r.error != EmptyOcrMessage {
        assert r.error[0] == 'O';
      }
    }
  }

  /** An empty text field behaves exactly like an absent one. */
  lemma EmptyTextIsAbsent<Image>(
    file: Option<Bytes>,
    decode: Bytes -> Result<Image, string>,
    extract: Image -> Result<string, string>
  )
    ensures Predict(Request(Some(""), file), decode, extract)
         == Predict(Request(None, file), decode, extract)
  {
  }

  /** A non-empty text is classified as given: the file is ignored and neither
      decoding nor OCR is consulted, so any other file and any other oracles
      give the same response. */
  lemma TextTakesPrecedence<Image>(
    text: string,
    file: Option<Bytes>,
    file': Option<Bytes>,
    decode: Bytes -> Result<Image, string>,
    extract: Image -> Result<string, string>,
    decode': Bytes -> Result<Image, string>,
    extract': Image -> Result<string, string>
  )
    requires text != ""
    ensures Predict(Request(Some(text), file), decode, extract)
         == Ok(PredictText(text).verdict, PredictText(text).confidence, text)
    ensures Predict(Request(Some(text), file), decode, extract)
         == Predict(Request(Some(text), file'), decode', extract')
  {
  }

  /** Without text, a file whose decoding or text extraction fails yields the
      OCR failure error carrying the exception's message. */
  lemma OcrFailureReported<Image>(
    req: Request,
    decode: Bytes -> Result<Image, string>,
    extract: Image -> Result<string, string>
  )
    requires !HasText(req) && HasFile(req)
    ensures decode(req.file.value).Failure? ==>
      Predict(req, decode, extract) == Err(OcrFailurePrefix + decode(req.file.value).error)
    ensures decode(req.file.value).Success? && extract(decode(req.file.value).value).Failure? ==>
      Predict(req, decode, extract)
        == Err(OcrFailurePrefix + extract(decode(req.file.value).value).error)
  {
  }

  /** A decoding failure and an extraction failure with the same message give
      the same response: the two cannot be told apart by the caller. */
  lemma DecodeAndOcrFailuresAlike<Image>(
    bytes: Bytes,
    message: string,
    decode: Bytes -> Result<Image, string>,
    extract: Image -> Result<string, string>,
    decode': Bytes -> Result<Image, string>,
    extract': Image -> Result<string, string>
  )
    requires decode(bytes) == Failure(message)
    requires decode'(bytes).Success? && extract'(decode'(bytes).value) == Failure(message)
    ensures Predict(Request(None, Some(bytes)), decode, extract)
         == Predict(Request(None, Some(bytes)), decode', extract')
  {
  }

  /** Without text, the blank-OCR error is returned exactly when decoding and
      extraction both succeed and the extracted text is all whitespace; no
      classification happens then. */
  lemma BlankOcrIff<Image>(
    req: Request,
    decode: Bytes -> Result<Image, string>,
    extract: Image -> Result<string, string>
  )
    requires !HasText(req) && HasFile(req)
    ensures Predict(req, decode, extract) == Err(EmptyOcrMessage)
        <==> && decode(req.file.value).Success?
             && extract(decode(req.file.value).value).Success?
             && IsBlank(extract(decode(req.file.value).value).value)
  {
    assert OcrFailurePrefix[4] == 'p' && EmptyOcrMessage[4] == 'd';
    var d := decode(req.file.value);
    if d.Failure? {
      assert (OcrFailurePrefix + d.error)[4] != EmptyOcrMessage[4];
    } else {
      var x := extract(d.value);
      if x.Failure? {
        assert (OcrFailurePrefix + x.error)[4] != EmptyOcrMessage[4];
      }
    }
  }

  /** Without text, a successful non-blank extraction is classified, and the
      text reported as extracted is the OCR output as returned, surrounding
      whitespace included. */
  lemma ImageSuccessKeepsRawText<Image>(
    req: Request,
    decode: Bytes -> Result<Image, string>,
    extract: Image -> Result<string, string>
  )
    requires !HasText(req) && HasFile(req)
    requires decode(req.file.value).Success?
    requires extract(decode(req.file.value).value).Success?
    requires !IsBlank(extract(decode(req.file.value).value).value)
    ensures var t := extract(decode(req.file.value).value).value;
      Predict(req, decode, extract) == Ok(PredictText(t).verdict, PredictText(t).confidence, t)
  {
  }

  /** End-to-end sample: a text mentioning "fake" is classified as fake and
      echoed back. */
  lemma FakeTextSample<Image>(
    text: string,
    decode: Bytes -> Result<Image, string>,
    extract: Image -> Result<string, string>
  )
    // The sample arrives as a parameter so that the solver does not unfold
    // the recursive search over a literal argument.
    requires text == "this news is fake"
    ensures Predict(Request(Some(text), None), decode, extract) == Ok("fake", 0.95, text)
  {
    assert text == "this news is " + "fake";
    assert FakeAt(text, 13);
  }

  /** End-to-end sample: a request with neither field gets the missing-input
      error. */
  lemma EmptyRequestSample<Image>(
    decode: Bytes -> Result<Image, string>,
    extract: Image -> Result<string, string>
  )
    ensures Predict(Request(None, None), decode, extract) == Err(MissingInputMessage)
  {
  }
}
