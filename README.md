# LexiMed request core in Dafny

LexiMed is a small Flask service. A user sends a question. They may also upload a
PDF or an image. The service pulls text out of the document, builds a medical,
legal or generic prompt around it, sends that prompt to the Mistral
chat-completion API and returns the reply or an error message as JSON.

This project models the decision logic under that glue, in `app.py`:

- `Text.dfy` (module `Text`): the Python string operations the handler uses.
  These are `str.strip()` with Python's whitespace set, `str.lower()`,
  `startswith`, `endswith` and the `in` substring test.
- `Extraction.dfy` (module `Extraction`): `extract_text_from_pdf`
  (`Extraction.ExtractTextFromPdf`), `extract_text_from_image`
  (`Extraction.ImageText`) and the native-text-then-OCR fallback of
  `process_pdf_with_ocr` (`Extraction.ProcessPdfWithOcr`).
  - The two loops that build text with `+=` are methods with loop invariants.
  - Each method is proved equal to a specification function (`NativeText`,
    `PdfPolicy`), and the lemmas are stated about those functions.
  - PyMuPDF, pdf2image, pytesseract and PIL are the fields of a `Libraries`
    value.
  - Each library call either returns a value (`Done`) or raises an exception.
    A raised exception is modelled as `Raised(message)`, where the message is
    the `str(e)` of the exception.
- `Prompt.dfy` (module `Prompt`): `get_prompt_for_query_type`, modelled by
  `Prompt.PromptFor`. The persona
  texts are the exact triple-quoted literals, with their line breaks and
  indentation. `DocumentOf` is an inverse that reads the document text back
  out of a composed prompt.
- `Ask.dfy` (module `Ask`): the `/ask` handler as `Ask.Handle`, a function of
  the request, the libraries and the API. It covers:
  - upload validation and dispatch, `Ask.ReadUpload` (app.py:524-544);
  - case-insensitive extension dispatch, `Ask.KindOf` (app.py:539-544);
  - the choice between the composed prompt and the bare query,
    `Ask.PromptToSend` (app.py:546-559);
  - the API call and the case-insensitive classification of its failures,
    `Ask.Relay` and `Ask.ApiFailureMessage` (app.py:553-570). The failure
    message that is classified is the one `call_mistral_api` re-raises with
    the `"Mistral API error: "` prefix (app.py:38-39).

These quirks of the code are modelled as written, not repaired:

- Extraction failure is signalled only by a leading `"Error"`, so a real
  document whose text starts with "Error" never goes to OCR
  (`Extraction.NativeTextKept`).
- The OCR test uses the stripped length (`< 100`). The prompt test uses the
  unstripped length (`> 100`). So a 100-character text with no whitespace at
  either end skips OCR and is then dropped from the prompt
  (`Ask.ThresholdGap`).
- For a "medical" or "legal" query, an extraction failure string longer than
  100 characters is sent to the API as if it were the document
  (`Ask.ImageFailureSentAsDocument`). For any other query type the generic
  preamble drops it, as it drops any document.
- A "general" query ignores the document text even when it is long
  (`Prompt.OtherTypesGeneric`, `Ask.PromptChoice`).
- Extraction failures never raise. They come back as strings with fixed
  prefixes.

Every query type other than "medical" and "legal", including the form's
default "general" when the field is missing, gets the generic preamble.

## Model

| member | source | states |
|---|---|---|
| Text.Strip | app.py:73 | the stripped text has no whitespace (Python `isspace`) at either end and is no longer than the input |
| Text.StripIsInfix | app.py:73 | `strip()` keeps one contiguous block of the text and removes only whitespace before and after it |
| Text.StripBlank | app.py:83 | `ocr_text.strip()` is falsy exactly when every character of the OCR text is whitespace |
| Text.Contains | app.py:565-567 | Python's `in` on strings holds exactly when some position starts an occurrence of the word |
| Text.ContainsAfterSeparator | app.py:39 | putting a prefix in front of a message neither creates nor hides an occurrence of a word, provided the prefix holds none and ends in a character the word lacks |
| Text.LowerMissing | app.py:565-567 | after `lower()`, a letter occurs only where the original had it in either case |
| Extraction.ExtractTextFromPdf | app.py:41-56 | the page texts are appended in page order to give exactly `NativeText`; a library failure gives `"Error extracting text from PDF: "` followed by its message |
| Extraction.PageInConcat | app.py:49-51 | every page's text appears whole in the joined text, right after the pages before it |
| Extraction.ConcatAppend | app.py:49-51 | joining the pages of two runs of pages gives the two joined texts one after the other |
| Extraction.ImageText | app.py:58-65 | an image gives its OCR text; a decode or OCR failure gives `"Error extracting text from image: "` followed by the message |
| Extraction.ProcessPdfWithOcr | app.py:67-87 | the result is exactly `PdfPolicy`; the raster and OCR libraries are called, on the only path that reaches them, exactly when the stripped native text is shorter than 100 and does not start with "Error" |
| Extraction.NativeTextKept | app.py:73 | native text that starts with "Error", or whose stripped length is at least 100, is returned unchanged, and the raster and OCR libraries have no effect on the result |
| Extraction.UnreadablePdf | app.py:55-56 | an unreadable PDF gives the PDF failure string, and OCR is not attempted on it |
| Extraction.OcrPagesAllDone | app.py:77-81 | when every page's OCR succeeds, the OCR text is the per-page texts joined in page order |
| Extraction.OcrPagesFirstFailure | app.py:80-85 | the first page whose OCR raises ends the loop with that page's message |
| Extraction.OcrPagesPrefixRaised | app.py:80-81 | once an earlier page has raised, later pages do not change the outcome |
| Extraction.ShortTextUsesOcr | app.py:73-83 | for short, non-"Error" native text, the result is the joined OCR text if that is not blank after stripping, and otherwise the original short native text |
| Extraction.RasterFailureSurfaced | app.py:76-85 | a rasterisation failure gives `"Error processing PDF with OCR: "` followed by its message |
| Extraction.OcrFailureSurfaced | app.py:79-85 | an OCR failure on a page gives `"Error processing PDF with OCR: "` followed by that page's message |
| Prompt.DomainPrompt | app.py:91-105 | "medical" and "legal" with non-empty document text give the persona, then `"\n\nAnalyze the following <domain> document and provide insights: "`, then the text; a missing or empty document gives the persona alone |
| Prompt.OtherTypesGeneric | app.py:107 | every other query type gives the generic preamble, whatever the document |
| Prompt.DocumentRecovered | app.py:95-105 | the document text can be read back verbatim from a domain prompt; a missing or empty document leaves no analysis clause |
| Prompt.DisclaimersPresent | app.py:92-94 | the medical and legal prompts contain their consult-a-professional disclaimers, with or without a document |
| Ask.KindIgnoresCase | app.py:539-541 | extension dispatch ignores case: names that lower-case alike are dispatched alike |
| Ask.DispatchExamples | app.py:539-544 | "Scan.PDF" is a PDF, "photo.JPeG" is an image and "notes.docx" is unsupported |
| Ask.RejectedUploads | app.py:526-544 | a declared size over 10·1024·1024 bytes, then an empty file, then an unknown extension are rejected with their fixed messages; the libraries and the API then have no effect on the reply |
| Ask.AcceptedUploads | app.py:539-542 | ".pdf" goes through the PDF fallback policy and ".jpg"/".jpeg"/".png" through image OCR |
| Ask.PromptChoice | app.py:546-559 | the query always ends what is sent; document text longer than 100 yields persona, analysis clause, text, `"\n\nUser Query: "` and query (generic preamble, header and query for other types); otherwise the bare query is sent |
| Ask.ApiFailureMessage | app.py:562-570 | the reply is the quota message iff the lower-cased message contains "quota"; it is the authentication message iff it contains "unauthorized" but not "quota"; it is `"API error: "` plus the original message iff it contains neither |
| Ask.WrappedFailureClassified | app.py:38-39 | the `"Mistral API error: "` prefix does not affect classification: only the library's own message decides quota or authentication |
| Ask.ThresholdGap | app.py:73 | a 100-character native text with no whitespace at its ends skips OCR, but is too short to be sent, so only the query goes to the API |
| Ask.ImageFailureSentAsDocument | app.py:554-556 | for a "medical" or "legal" query, an image decode failure string longer than 100 characters is sent to the API inside the prompt as the document text |
| Ask.QueryOnlyRequests | app.py:557-561 | with no document, or document text of at most 100 characters, the API receives the bare query and its reply is returned unchanged |

## Left out

- Flask routing, `render_template`, `jsonify` serialisation, `request.timeout` and the logger are not modelled. They are web-framework plumbing, and replies are the `Reply` datatype.
- The outer `except` of `ask` (app.py:572-574) is not modelled. In this model nothing outside the API call can raise. Reading the form and the file are I/O.
- `create_templates_directory` and the HTML/CSS/JS page are not modelled. They are file output and browser code.
- The HTTP request and JSON parsing of `call_mistral_api` are not modelled. The API is a function from the prompt to a reply or a failure message. Its re-raise with `"Mistral API error: "` is modelled.
- The model name, the 0.7 temperature and the 1024-token limit are left out. They are request parameters of that foreign call, and one of them is a floating-point constant.
- PyMuPDF, pdf2image, PIL and pytesseract are uninterpreted functions. A failure part-way through a document is modelled as a whole failure, which is all the code can observe.
- `document.close()` is left out. It releases a resource and has no effect on the result.
- Server startup and `MAX_CONTENT_LENGTH` (app.py:576-584) are left out. The cap is set only when the script is run directly.
- Text.Lower: lower-cases ASCII letters only, while Python's `str.lower()` covers all of Unicode. The words the code looks for (".pdf", ".jpg", ".jpeg", ".png", "quota", "unauthorized") are ASCII. Only two non-ASCII characters lower-case to something with an ASCII letter in it. U+212A KELVIN SIGN becomes "k", which none of these words contains. U+0130 becomes "i" followed by a combining dot, and the dot would break the only "i" in these words ("unauthorized"). So the two lower-casings give the same decisions.
