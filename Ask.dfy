/** The decisions of the `/ask` handler (app.py:510-574) for one request:
    upload validation, dispatch on the file extension, the choice between the
    composed prompt and the bare query, and the classification of errors
    from the completion API. The API call is a parameter that returns the
    reply text or raises with a message. */
module Ask {
  import opened Text
  import opened Extraction
  import opened Prompt

  /** 10 MiB, the cap on an upload's declared length. */
  const MaxUploadBytes := 10 * 1024 * 1024
  /** The extracted text must be longer than this to go into the prompt. */
  const DocumentThreshold := 100

  const TooLargeMessage := "File too large. Please upload files smaller than 10MB."
  const EmptyFileMessage := "Empty file uploaded."
  const UnsupportedMessage := "Unsupported file format. Please upload PDF or image files."
  /** The two fixed API replies, each written as the words that name the
      failure and the advice that follows them. */
  const QuotaMessage := "API quota" + " exceeded. Please try again later."
  const AuthMessage := "API authentication" + " failed. Please check your API key."
  const ApiErrorPrefix := "API error: "
  /** The prefix call_mistral_api puts on every failure it re-raises. */
  const MistralErrorPrefix := "Mistral API error: "
  const QueryHeader := "\n\nUser Query: "

  /** An uploaded file: its name, the length its part declares (0 when it
      declares none) and the bytes read from it. */
  datatype Upload = Upload(filename: string, contentLength: int, bytes: Bytes)

  /** The form fields of a request: `query`, `type` and the `document` file. */
  datatype Request = Request(query: string, queryType: string, document: Option<Upload>)

  /** The two JSON shapes the handler returns. */
  datatype Reply = Response(text: string) | Error(message: string)

  /** How an upload is handled, from its file name. */
  datatype Kind = Pdf | Picture | Unsupported

  /** What validating and extracting the upload ends in: an error reply, or
      the document text (None when no file was uploaded). */
  datatype Intake = Reject(message: string) | Accept(document: Option<string>)

  /** The extension dispatch of app.py:540-544, on the lower-cased name. */
  function KindOf(filename: string): Kind {
    var name := Lower(filename);
    if EndsWith(name, ".pdf") then Pdf
    else if EndsWith(name, ".jpg") || EndsWith(name, ".jpeg") || EndsWith(name, ".png") then Picture
    else Unsupported
  }

  /** The upload branch of ask (app.py:524-544). */
  function ReadUpload(libs: Libraries, upload: Option<Upload>): Intake {
    if upload.None? || upload.value.filename == "" then Accept(None)
    else
      var file := upload.value;
      if file.contentLength != 0 && file.contentLength > MaxUploadBytes then Reject(TooLargeMessage)
      else if |file.bytes| == 0 then Reject(EmptyFileMessage)
      else
        match KindOf(file.filename)
        case Pdf => Accept(Some(PdfPolicy(libs, file.bytes)))
        case Picture => Accept(Some(ImageText(libs, file.bytes)))
        case Unsupported => Reject(UnsupportedMessage)
  }

  /** What goes to the API (app.py:546-559): the persona prompt, the query
      header and the query when the document text is longer than the
      threshold, and the bare query otherwise. */
  function PromptToSend(queryType: string, document: Option<string>, query: string): string {
    var finalPrompt := PromptFor(queryType, document) + QueryHeader + query;
    if HasText(document) && |document.value| > DocumentThreshold then finalPrompt else query
  }

  /** The error reply for an API failure message (app.py:562-570): "quota"
      is looked for first, then "unauthorized", both ignoring case; any other
      message is passed on after a fixed prefix. */
  function ApiFailureMessage(message: string): (r: string)
    ensures r == QuotaMessage <==> Contains(Lower(message), "quota")
    ensures r == AuthMessage <==>
      !Contains(Lower(message), "quota") && Contains(Lower(message), "unauthorized")
    ensures r == ApiErrorPrefix + message <==>
      !Contains(Lower(message), "quota") && !Contains(Lower(message), "unauthorized")
  {
    var lowered := Lower(message);
    if Contains(lowered, "quota") then
      assert (ApiErrorPrefix + message)[4] == 'e' && QuotaMessage[4] == 'q';
      QuotaMessage
    else if Contains(lowered, "unauthorized") then
      assert AuthMessage[4] == 'a' && (ApiErrorPrefix + message)[4] == 'e';
      AuthMessage
    else
      assert (ApiErrorPrefix + message)[4] == 'e';
      assert QuotaMessage[4] == 'q' && AuthMessage[4] == 'a';
      ApiErrorPrefix + message
  }

  /** Calling the API with `prompt` and turning its outcome into a reply; a
      failure reaches the classification wrapped by call_mistral_api. */
  function Relay(api: string -> Outcome<string>, prompt: string): Reply {
    match api(prompt)
    case Done(text) => Response(text)
    case Raised(m) => Error(ApiFailureMessage(MistralErrorPrefix + m))
  }

  /** ask (app.py:510-574) for one request. */
  function Handle(libs: Libraries, api: string -> Outcome<string>, request: Request): Reply {
    match ReadUpload(libs, request.document)
    case Reject(message) => Error(message)
    case Accept(document) => Relay(api, PromptToSend(request.queryType, document, request.query))
  }

  /** The extension test ignores case: two names that lower-case alike are
      dispatched alike, and lower-casing a name first changes nothing. */
  lemma KindIgnoresCase(filename: string, other: string)
    requires Lower(filename) == Lower(other)
    ensures KindOf(filename) == KindOf(other)
    ensures KindOf(Lower(filename)) == KindOf(filename)
  {
    LowerIdempotent(filename);
  }

  /** Upper- and mixed-case extensions are recognised; ".docx" is not. */
  lemma DispatchExamples()
    ensures KindOf("Scan.PDF") == Pdf
    ensures KindOf("photo.JPeG") == Picture
    ensures KindOf("notes.docx") == Unsupported
  {
    assert Lower("Scan.PDF") == "scan.pdf";
    assert Lower("photo.JPeG") == "photo.jpeg";
    assert Lower("notes.docx") == "notes.docx";
  }

  /** An upload whose declared length is over 10 MiB, or that is empty, or
      whose name has no supported extension, is answered with its error: no
      extraction library and no API call has any bearing on the reply. */
  lemma RejectedUploads(libs: Libraries, other: Libraries, api: string -> Outcome<string>,
                        otherApi: string -> Outcome<string>, request: Request)
    requires request.document.Some? && request.document.value.filename != ""
    ensures var file := request.document.value;
      Handle(libs, api, request) ==
        if file.contentLength > MaxUploadBytes then Error(TooLargeMessage)
        else if |file.bytes| == 0 then Error(EmptyFileMessage)
        else if KindOf(file.filename) == Unsupported then Error(UnsupportedMessage)
        else Handle(libs, api, request)
    ensures ReadUpload(libs, request.document).Reject? ==>
      Handle(other, otherApi, request) == Handle(libs, api, request)
  {
  }

  /** A PDF goes through the extraction policy and a picture through image
      OCR; the text they give is what the prompt is built from. */
  lemma AcceptedUploads(libs: Libraries, upload: Upload)
    requires upload.filename != "" && upload.contentLength <= MaxUploadBytes && |upload.bytes| > 0
    ensures KindOf(upload.filename) == Pdf ==>
      ReadUpload(libs, Some(upload)) == Accept(Some(PdfPolicy(libs, upload.bytes)))
    ensures KindOf(upload.filename) == Picture ==>
      ReadUpload(libs, Some(upload)) == Accept(Some(ImageText(libs, upload.bytes)))
  {
  }

  /** The user's query always ends what is sent, and the document text is
      part of it exactly when it is longer than the threshold and the query
      type has a persona: then the prompt is persona, analysis clause,
      document, query header and query. */
  lemma PromptChoice(queryType: string, document: Option<string>, query: string)
    ensures EndsWith(PromptToSend(queryType, document, query), query)
    ensures document.Some? && |document.value| > DocumentThreshold && IsDomain(queryType) ==>
      PromptToSend(queryType, document, query) ==
        Preamble(queryType) + AnalysisClause(queryType) + document.value + QueryHeader + query
    ensures document.Some? && |document.value| > DocumentThreshold && !IsDomain(queryType) ==>
      PromptToSend(queryType, document, query) == GeneralPreamble + QueryHeader + query
    ensures document.None? || |document.value| <= DocumentThreshold ==>
      PromptToSend(queryType, document, query) == query
  {
    var sent := PromptToSend(queryType, document, query);
    assert sent[|sent| - |query|..] == query;
  }

  /** Whether a wrapped API failure counts as a quota or an authentication
      failure depends only on the library's own message: the prefix
      call_mistral_api adds neither contains nor completes either word. */
  lemma WrappedFailureClassified(message: string)
    ensures ApiFailureMessage(MistralErrorPrefix + message) ==
      if Contains(Lower(message), "quota") then QuotaMessage
      else if Contains(Lower(message), "unauthorized") then AuthMessage
      else ApiErrorPrefix + MistralErrorPrefix + message
  {
    var p := MistralErrorPrefix;
    LowerAppend(p, message);
    assert Lower(p)[|p| - 1] == ' ';
    LowerMissing(p, 'q');
    MissingCharNotContained(Lower(p), "quota", 'q');
    ContainsAfterSeparator(Lower(p), Lower(message), "quota");
    LowerMissing(p, 'z');
    MissingCharNotContained(Lower(p), "unauthorized", 'z');
    ContainsAfterSeparator(Lower(p), Lower(message), "unauthorized");
  }

  /** The two thresholds disagree: a native text of exactly 100 characters
      with no whitespace at its ends is long enough to skip OCR, yet too
      short to be put in the prompt, so only the query is sent. */
  lemma ThresholdGap(text: string, queryType: string, query: string)
    requires |text| == 100 && !IsSpace(text[0]) && !IsSpace(text[99])
    ensures !NeedsOcr(text)
    ensures PromptToSend(queryType, Some(text), query) == query
  {
    StripNoSpaceEnds(text);
  }

  /** An image the image library cannot decode yields a failure string, and
      if that string is long enough it is sent to the API as if it were the
      document, for a domain query type. */
  lemma ImageFailureSentAsDocument(libs: Libraries, api: string -> Outcome<string>, request: Request)
    requires request.document.Some?
    requires var file := request.document.value;
      file.filename != "" && file.contentLength <= MaxUploadBytes && |file.bytes| > 0 &&
      KindOf(file.filename) == Picture && libs.openImage(file.bytes).Raised? &&
      |ImageFailurePrefix + libs.openImage(file.bytes).message| > DocumentThreshold
    requires IsDomain(request.queryType)
    ensures var failure := ImageFailurePrefix + libs.openImage(request.document.value.bytes).message;
      Handle(libs, api, request) ==
        Relay(api, Preamble(request.queryType) + AnalysisClause(request.queryType) + failure
                   + QueryHeader + request.query)
  {
  }

  /** A request without a file, or whose text is not longer than the
      threshold, sends the bare query; an API reply is returned as it is. */
  lemma QueryOnlyRequests(libs: Libraries, api: string -> Outcome<string>, request: Request)
    requires ReadUpload(libs, request.document).Accept?
    requires var document := ReadUpload(libs, request.document).document;
      document.None? || |document.value| <= DocumentThreshold
    ensures Handle(libs, api, request) == Relay(api, request.query)
    ensures api(request.query).Done? ==> Handle(libs, api, request) == Response(api(request.query).value)
  {
    PromptChoice(request.queryType, ReadUpload(libs, request.document).document, request.query);
  }
}
