/** The two HTTP endpoints of the matcher backend as a state machine over
    its single document slot. `POST /api/upload` replaces the slot with the
    text extracted from an accepted PDF; `POST /api/match` scores a piece of
    text against the slot with a language model and never writes it.

    The PDF text extractor and the language model are not modelled: their
    outcomes arrive as inputs, the extractor's as a `Result` (the text, or
    the message of the error it threw) and the model's as a function from
    the query it is asked to an `Option` reply (`None` when the call threw).
    The clock arrives as the elapsed time between the two `Date.now()`
    readings, and the `OPENAI_API_KEY` environment variable as an `Option`. */
module MatchServer {
  import opened Wrappers
  import opened Js
  import opened Confidence
  import opened Quality

  /** The upload size limit handed to the multipart parser, in bytes. */
  const MaxFileSize: nat := 10 * 1024 * 1024

  /** The only multipart field the upload route reads a file from. */
  const UploadField := Lit("pdf")
  const PdfMimeType := Lit("application/pdf")

  /** Number of code units of the document shown in an upload's preview. */
  const PreviewLength: nat := 200
  const Ellipsis := Lit("...")

  /** The fixed messages the endpoints send, in the `message` field of a
      successful upload and the `error` field of a failure. */
  datatype Message =
    | UploadedOk | NotPdf | TooLarge | Internal | NoFile | ParseFailed
    | NoText | NoDocument | NoKey | MatchFailed

  /** The exact wording of each message. */
  function Wording(m: Message): string {
    match m
    case UploadedOk => "PDF uploaded and processed successfully!"
    case NotPdf => "Only PDF files are allowed!"
    case TooLarge => "File too large. Maximum size is 10MB."
    case Internal => "Internal server error"
    case NoFile => "No PDF file uploaded"
    case ParseFailed => "Failed to process PDF file"
    case NoText => "No text provided for matching"
    case NoDocument => "No PDF uploaded yet. Please upload a PDF first."
    case NoKey => "OpenAI API key is not set. Please set the OPENAI_API_KEY environment variable."
    case MatchFailed => "Failed to process text matching"
  }

  /** The message as the JavaScript string the endpoint sends. */
  function Text(m: Message): (r: JsString)
    ensures |r| == MessageLength(m)
  {
    Lit(Wording(m))
  }

  /** The length of each message, which no two messages share. */
  function MessageLength(m: Message): (n: nat)
    ensures |Wording(m)| == n
  {
    match m
    case UploadedOk => 40
    case NotPdf => 27
    case TooLarge => 37
    case Internal => 21
    case NoFile => 20
    case ParseFailed => 26
    case NoText => 29
    case NoDocument => 47
    case NoKey => 78
    case MatchFailed => 31
  }

  /** Different messages have different wordings, so a client can tell
      every failure apart by its `error` text. */
  lemma MessagesDistinct(m1: Message, m2: Message)
    ensures Text(m1) == Text(m2) <==> m1 == m2
  {
    var n1 := MessageLength(m1);
    var n2 := MessageLength(m2);
    assert m1 != m2 ==> n1 != n2;
  }

  /** The message of the `TypeError` thrown by `text.trim()` when the
      request's `text` is neither a string nor falsy. */
  const TrimNotFunction := Lit("text.trim is not a function")

  /** The `mode` field of a successful match. */
  datatype Mode = OpenAiMode | DemoMode

  function ModeText(m: Mode): JsString {
    match m
    case OpenAiMode => Lit("OpenAI GPT-4o")
    case DemoMode => Lit("Demo Mode")
  }

  /** The server's whole state: the text of the last accepted PDF, the empty
      string before any. */
  datatype Server = Server(pdfContent: JsString)

  const Initial := Server([])

  /** The file part of a multipart upload, as the multipart parser reports
      it before reading the bytes (field name, client file name, declared
      MIME type) together with the number of bytes it carries. */
  datatype FilePart = FilePart(fieldname: JsString, originalname: JsString, mimetype: JsString, size: nat)

  /** The JSON bodies the endpoints send. `Uploaded` and `Matched` are the
      bodies with `success: true`. */
  datatype Body =
    | Uploaded(message: Message, filename: JsString, contentLength: nat, preview: JsString)
    | Matched(confidence: int, quality: JsString, processingTime: int, inputText: JsString, mode: Mode)
    | Error(error: Message)
    | ErrorWithDetails(error: Message, details: JsString)

  datatype Response = Response(status: int, body: Body)

  /** What the language model is asked: the stored document and the user's
      text, the two values the prompt is built from. */
  datatype Query = Query(document: JsString, userInput: JsString)

  /** One request's effect: the new state, the response, and the query put
      to the language model, if any. */
  datatype Outcome = Outcome(server: Server, response: Response, asked: Option<Query>)

  /** The `text` property of a match request's JSON body: a string, a falsy
      value other than a string (absent, `null`, `false`, `0`), or any other
      value (a non-zero number, `true`, an object or an array). */
  datatype TextField = Str(s: JsString) | FalsyValue | OtherValue

  /** A file part the multipart stage lets through to the upload handler.
      The multipart parser reports the size limit as soon as the byte count
      reaches it, so a file of exactly `MaxFileSize` bytes is rejected. */
  predicate Admitted(f: FilePart) {
    f.fieldname == UploadField && f.mimetype == PdfMimeType && f.size < MaxFileSize
  }

  /** The multipart stage together with the error middleware: an unexpected
      field fails first, then the MIME filter, then the size limit, and each
      failure becomes the error response the middleware maps it to. */
  function UploadRejection(f: FilePart): (r: Option<Response>)
    ensures r.None? <==> Admitted(f)
    ensures f.fieldname == UploadField && f.mimetype != PdfMimeType
        ==> r == Some(Response(400, Error(NotPdf)))
    ensures f.fieldname == UploadField && f.mimetype == PdfMimeType && f.size >= MaxFileSize
        ==> r == Some(Response(400, Error(TooLarge)))
    ensures f.fieldname != UploadField ==> r == Some(Response(500, Error(Internal)))
  {
    if f.fieldname != UploadField then Some(Response(500, Error(Internal)))
    else if f.mimetype != PdfMimeType then Some(Response(400, Error(NotPdf)))
    else if f.size >= MaxFileSize then Some(Response(400, Error(TooLarge)))
    else None
  }

  /** The preview of an uploaded document: its first 200 code units (all of
      it when shorter), followed by an ellipsis in every case. */
  function Preview(text: JsString): (p: JsString)
    ensures |p| == Min(|text|, PreviewLength) + |Ellipsis|
    ensures p[..|p| - |Ellipsis|] == text[..Min(|text|, PreviewLength)]
    ensures p[|p| - |Ellipsis|..] == Ellipsis
  {
    var head := Substring(text, 0, PreviewLength);
    assert head == text[..Min(|text|, PreviewLength)];
    var p := head + Ellipsis;
    assert p[..|head|] == head;
    p
  }

  /** A document no longer than the preview is shown whole, still followed
      by the ellipsis. */
  lemma PreviewOfShortText(text: JsString)
    requires |text| <= PreviewLength
    ensures Preview(text) == text + Ellipsis
  {
    var p := Preview(text);
    assert p == p[..|text|] + p[|text|..];
  }

  /** Two documents have the same preview exactly when their first 200 code
      units (or the whole of the shorter ones) agree. */
  lemma PreviewSameIff(t1: JsString, t2: JsString)
    ensures Preview(t1) == Preview(t2)
        <==> t1[..Min(|t1|, PreviewLength)] == t2[..Min(|t2|, PreviewLength)]
  {
    var p1, p2 := Preview(t1), Preview(t2);
    if t1[..Min(|t1|, PreviewLength)] == t2[..Min(|t2|, PreviewLength)] {
      assert p1 == p1[..|p1| - |Ellipsis|] + p1[|p1| - |Ellipsis|..];
      assert p2 == p2[..|p2| - |Ellipsis|] + p2[|p2| - |Ellipsis|..];
    }
  }

  /** `POST /api/upload`: `file` is the file part of the request, if any,
      and `parsed` what the PDF text extractor makes of its bytes. */
  function Upload(s: Server, file: Option<FilePart>, parsed: Result<JsString, JsString>): (o: Outcome)
    ensures o.asked == None
    ensures o.response.status == 200 <==> file.Some? && Admitted(file.value) && parsed.Success?
    ensures o.server == (if o.response.status == 200 then Server(parsed.value) else s)
    ensures o.response.status == 200 ==>
      o.response.body == Uploaded(UploadedOk, file.value.originalname, |parsed.value|, Preview(parsed.value))
    ensures file.None? ==> o.response == Response(400, Error(NoFile))
    ensures file.Some? && !Admitted(file.value) ==> Some(o.response) == UploadRejection(file.value)
    ensures file.Some? && Admitted(file.value) && parsed.Failure?
        ==> o.response == Response(500, ErrorWithDetails(ParseFailed, parsed.error))
  {
    match file
    case None => Outcome(s, Response(400, Error(NoFile)), None)
    case Some(f) =>
      match UploadRejection(f)
      case Some(rejected) => Outcome(s, rejected, None)
      case None =>
        match parsed
        case Failure(message) =>
          Outcome(s, Response(500, ErrorWithDetails(ParseFailed, message)), None)
        case Success(text) =>
          var body := Uploaded(UploadedOk, f.originalname, |text|, Preview(text));
          Outcome(Server(text), Response(200, body), None)
  }

  /** True when `text` gives no text to match: falsy, or a string of
      whitespace only (which includes the empty string). */
  predicate Blank(text: TextField) {
    text.FalsyValue? || (text.Str? && AllWhitespace(text.s))
  }

  /** True of an environment variable JavaScript treats as set: present and
      not the empty string. */
  predicate KeySet(key: Option<JsString>) {
    key.Some? && key.value != []
  }

  /** `POST /api/match`: `text` is the body's `text` property, `key` the
      API key in the environment, `oracle` the language model's reply to
      each query and `elapsed` the clock's advance during the call. */
  function Match(s: Server, text: TextField, key: Option<JsString>,
                 oracle: Query -> Option<JsString>, elapsed: int): (o: Outcome)
    ensures o.server == s
    ensures Blank(text) ==> o.response == Response(400, Error(NoText))
    ensures text.OtherValue?
        ==> o.response == Response(500, ErrorWithDetails(MatchFailed, TrimNotFunction))
    ensures text.Str? && !Blank(text) && s.pdfContent == []
        ==> o.response == Response(400, Error(NoDocument))
    ensures text.Str? && !Blank(text) && s.pdfContent != [] && !KeySet(key)
        ==> o.response == Response(400, Error(NoKey))
    ensures o.asked.Some? <==> text.Str? && !Blank(text) && s.pdfContent != [] && KeySet(key)
    ensures o.response.status == 200 <==> o.asked.Some?
    ensures o.asked.Some? ==>
      var c := ConfidenceFromReply(oracle(Query(s.pdfContent, text.s)));
      && o.asked == Some(Query(s.pdfContent, text.s))
      && o.response.body == Matched(c, QualityLabel(c), elapsed, text.s, OpenAiMode)
  {
    if text.FalsyValue? || (text.Str? && text.s == []) then
      Outcome(s, Response(400, Error(NoText)), None)
    else if text.OtherValue? then
      Outcome(s, Response(500, ErrorWithDetails(MatchFailed, TrimNotFunction)), None)
    else if Trim(text.s) == [] then
      Outcome(s, Response(400, Error(NoText)), None)
    else if s.pdfContent == [] then
      Outcome(s, Response(400, Error(NoDocument)), None)
    else if !KeySet(key) then
      Outcome(s, Response(400, Error(NoKey)), None)
    else
      var query := Query(s.pdfContent, text.s);
      var confidence := ConfidenceFromReply(oracle(query));
      var mode := if KeySet(key) then OpenAiMode else DemoMode;
      Outcome(s, Response(200, Matched(confidence, QualityLabel(confidence), elapsed, text.s, mode)), Some(query))
  }

  /** The confidence and label of a successful match are always in range and
      agree with each other. */
  lemma MatchedScoreInRange(s: Server, text: TextField, key: Option<JsString>,
                            oracle: Query -> Option<JsString>, elapsed: int)
    requires Match(s, text, key, oracle, elapsed).response.status == 200
    ensures var b := Match(s, text, key, oracle, elapsed).response.body;
      && b.Matched?
      && 0 <= b.confidence <= 100
      && b.quality == Label(BandOf(b.confidence))
      && InBand(b.confidence, BandOf(b.confidence))
  {
  }

  /** One request to either endpoint. */
  datatype Request =
    | UploadRequest(file: Option<FilePart>, parsed: Result<JsString, JsString>)
    | MatchRequest(text: TextField, key: Option<JsString>, oracle: Query -> Option<JsString>, elapsed: int)

  function Handle(s: Server, r: Request): (o: Outcome)
    ensures o.server == (if Stores(r) then Server(r.parsed.value) else s)
  {
    match r
    case UploadRequest(file, parsed) => Upload(s, file, parsed)
    case MatchRequest(text, key, oracle, elapsed) => Match(s, text, key, oracle, elapsed)
  }

  /** True of the requests that write the document slot: uploads of an
      admitted PDF whose text could be extracted. */
  predicate Stores(r: Request) {
    r.UploadRequest? && r.file.Some? && Admitted(r.file.value) && r.parsed.Success?
  }

  /** A sequence of requests handled one after another from state `s`: the
      final state and the responses in order. */
  function Run(s: Server, reqs: seq<Request>): (result: (Server, seq<Response>))
    ensures |result.1| == |reqs|
    decreases |reqs|
  {
    if reqs == [] then (s, [])
    else
      var before := Run(s, reqs[..|reqs| - 1]);
      var o := Handle(before.0, reqs[|reqs| - 1]);
      (o.server, before.1 + [o.response])
  }

  /** The index of the last request that writes the slot, or -1 when none
      does. */
  function LastStore(reqs: seq<Request>): (k: int)
    ensures -1 <= k < |reqs|
    ensures k >= 0 ==> Stores(reqs[k])
    ensures forall j :: k < j < |reqs| ==> !Stores(reqs[j])
    decreases |reqs|
  {
    if reqs == [] then -1
    else if Stores(reqs[|reqs| - 1]) then |reqs| - 1
    else LastStore(reqs[..|reqs| - 1])
  }

  /** After any sequence of requests the slot holds the text of the last
      successful upload, or what it held before when there was none. */
  lemma {:induction false} RunStoresLastUpload(s: Server, reqs: seq<Request>)
    ensures var k := LastStore(reqs);
      Run(s, reqs).0 == if k < 0 then s else Server(reqs[k].parsed.value)
    decreases |reqs|
  {
    if reqs != [] {
      var prefix := reqs[..|reqs| - 1];
      RunStoresLastUpload(s, prefix);
      if !Stores(reqs[|reqs| - 1]) {
        var k := LastStore(prefix);
        assert LastStore(reqs) == k;
        if k >= 0 {
          assert reqs[k] == prefix[k];
        }
      }
    }
  }

  /** Requests that do not store leave the slot as it was; in particular a
      sequence of match requests never changes it. */
  lemma RunWithoutStoresKeepsDocument(s: Server, reqs: seq<Request>)
    requires forall j :: 0 <= j < |reqs| ==> !Stores(reqs[j])
    ensures Run(s, reqs).0 == s
  {
    RunStoresLastUpload(s, reqs);
  }

  /** Handling more requests does not change the responses already sent. */
  lemma {:induction false} RunExtends(s: Server, reqs: seq<Request>, more: seq<Request>)
    ensures Run(s, reqs + more).1[..|reqs|] == Run(s, reqs).1
    decreases |more|
  {
    if more != [] {
      var all := reqs + more;
      var init := more[..|more| - 1];
      assert all[..|all| - 1] == reqs + init;
      RunExtends(s, reqs, init);
      var before := Run(s, reqs + init);
      var o := Handle(before.0, all[|all| - 1]);
      assert Run(s, all).1 == before.1 + [o.response];
      assert (before.1 + [o.response])[..|reqs|] == before.1[..|reqs|];
    } else {
      assert reqs + more == reqs;
    }
  }

  /** The response to the i-th request is what the handler gives it in the
      state the earlier requests left behind. */
  lemma RunResponseAt(s: Server, reqs: seq<Request>, i: nat)
    requires i < |reqs|
    ensures Run(s, reqs).1[i] == Handle(Run(s, reqs[..i]).0, reqs[i]).response
  {
    var upto := reqs[..i + 1];
    assert upto[..i] == reqs[..i];
    assert reqs == upto + reqs[i + 1..];
    RunExtends(s, upto, reqs[i + 1..]);
  }

  /** A match request is answered with 200 only when the slot holds a
      document, and the answer echoes the request's text. */
  lemma MatchSuccessNeedsDocument(s: Server, r: Request)
    requires r.MatchRequest? && Handle(s, r).response.status == 200
    ensures s.pdfContent != []
    ensures r.text.Str? && Handle(s, r).response.body.Matched?
    ensures Handle(s, r).response.body.inputText == r.text.s
  {
  }

  /** A match request succeeds only against a document stored by an earlier
      upload: from the initial state, a 200 response to a match request
      means that some earlier upload stored non-empty text, and the last such
      upload before it is what the slot held when the request came. */
  lemma MatchNeedsEarlierUpload(reqs: seq<Request>, i: nat)
    requires i < |reqs| && reqs[i].MatchRequest?
    requires Run(Initial, reqs).1[i].status == 200
    ensures var k := LastStore(reqs[..i]);
      && 0 <= k < i
      && reqs[k].parsed.value != []
      && Run(Initial, reqs[..i]).0 == Server(reqs[k].parsed.value)
  {
    var prefix := reqs[..i];
    var before := Run(Initial, prefix).0;
    RunResponseAt(Initial, reqs, i);
    MatchSuccessNeedsDocument(before, reqs[i]);
    RunStoresLastUpload(Initial, prefix);
    var k := LastStore(prefix);
    if k < 0 {
      assert false;
    }
    assert prefix[k] == reqs[k];
    assert before == Server(reqs[k].parsed.value);
  }

  /** A complete session: upload a PDF, then match non-blank text with the
      key set. The match is answered from the uploaded text. */
  lemma UploadThenMatch(f: FilePart, doc: JsString, text: JsString, key: JsString,
                        oracle: Query -> Option<JsString>, elapsed: int)
    requires Admitted(f) && doc != []
    requires !AllWhitespace(text) && key != []
    ensures var reqs := [UploadRequest(Some(f), Success(doc)),
                         MatchRequest(Str(text), Some(key), oracle, elapsed)];
      var c := ConfidenceFromReply(oracle(Query(doc, text)));
      && Run(Initial, reqs).0 == Server(doc)
      && Run(Initial, reqs).1[0].status == 200
      && Run(Initial, reqs).1[1] == Response(200, Matched(c, QualityLabel(c), elapsed, text, OpenAiMode))
  {
    var reqs := [UploadRequest(Some(f), Success(doc)),
                 MatchRequest(Str(text), Some(key), oracle, elapsed)];
    assert reqs[..1] == [reqs[0]];
    assert reqs[..1][..0] == [];
  }
}
