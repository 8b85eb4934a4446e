/** The resume upload route (app/api/parse-resume/route.ts): the file checks,
    the content the model is sent (DOCX text or base64 inline data), the
    clean-up of its reply and the single 500 catch. The services the route
    calls are inputs: the DOCX extractor's text (`None` when it throws), the
    base64 encoding of the upload, the model's reply text (`None` when the
    call throws) and `JSON.parse` (a function answering `None` on a syntax
    error). */
module ParseResume {
  import opened Wrappers
  import opened Text
  import opened Api

  const NoFileMessage: string := "No file provided"
  const UnsupportedMessage: string :=
    "File type not supported. Please upload PDF, Word, Image or Text files."
  const FailureMessage: string := "Failed to process resume"

  /** The MIME types the route accepts. */
  const SupportedTypes: seq<string> := [
    "application/pdf",
    "application/msword",
    DocxMime,
    "image/jpeg",
    "image/png",
    "text/plain"
  ]

  /** `supportedTypes.includes(file.type)`. */
  predicate IsSupported(mimeType: string) {
    mimeType in SupportedTypes
  }

  /** The request body: `request.formData()` throws, or yields the `file`
      field. */
  datatype Form = Unreadable | Fields(file: FileField)

  /** A part of the model request: `{ text }` or `{ inlineData }`. */
  datatype Part = TextPart(text: string) | InlineDataPart(mimeType: string, data: string)

  /** The results of the calls the route makes, each given in advance. */
  datatype World = World(docxText: Option<string>, base64: string, reply: Option<string>)

  /** The response together with what the route did on the way: whether it
      read the file's bytes, the parts it sent the model, and the text it
      handed to `JSON.parse`. */
  datatype Outcome<J> = Outcome(
    response: Response<J>,
    bytesRead: bool,
    sent: Option<seq<Part>>,
    parsedText: Option<string>)

  /** `file.type` for an accepted file; a string field has no `type`, which
      is not in the list. */
  predicate Accepted(f: FileField) {
    f.Upload? && IsSupported(f.mimeType)
  }

  /** `fileContent` (lines 48-54): the extracted text for DOCX, the base64
      encoding of the bytes for every other type. */
  function FileContent(mimeType: string, w: World): string {
    if mimeType == DocxMime then ExtractTextFromDocx(w.docxText) else w.base64
  }

  /** `parts` (lines 98-111): DOCX content is appended to the prompt as one
      text part; any other content follows the prompt as inline data tagged
      with the file's type. */
  function Parts(mimeType: string, prompt: string, content: string): seq<Part> {
    if mimeType == DocxMime then [TextPart(prompt + content)]
    else [TextPart(prompt), InlineDataPart(mimeType, content)]
  }

  /** What the route does, as one value. */
  function ParseOutcome<J>(form: Form, w: World, prompt: string, parse: string -> Option<J>): Outcome<J> {
    if form.Unreadable? then Outcome(Error(500, FailureMessage), false, None, None)
    else if NoFile(form.file) then Outcome(Error(400, NoFileMessage), false, None, None)
    else if !Accepted(form.file) then Outcome(Error(400, UnsupportedMessage), false, None, None)
    else
      var parts := Parts(form.file.mimeType, prompt, FileContent(form.file.mimeType, w));
      if w.reply.None? then Outcome(Error(500, FailureMessage), true, Some(parts), None)
      else
        var cleaned := CleanResponse(w.reply.value);
        match parse(cleaned)
        case None => Outcome(Error(500, FailureMessage), true, Some(parts), Some(cleaned))
        case Some(data) => Outcome(Ok(data), true, Some(parts), Some(cleaned))
  }

  /** The handler, one assignment at a time as the route makes them. */
  method HandleParse<J>(form: Form, w: World, prompt: string, parse: string -> Option<J>)
    returns (o: Outcome<J>)
    ensures o == ParseOutcome(form, w, prompt, parse)
  {
    if form.Unreadable? {
      return Outcome(Error(500, FailureMessage), false, None, None);
    }
    var file := form.file;
    if file.Absent? || file == TextValue("") {
      return Outcome(Error(400, NoFileMessage), false, None, None);
    }
    if !file.Upload? || !IsSupported(file.mimeType) {
      return Outcome(Error(400, UnsupportedMessage), false, None, None);
    }
    var fileContent := "";
    if file.mimeType == DocxMime {
      fileContent := ExtractTextFromDocx(w.docxText);
    } else {
      fileContent := w.base64;
    }
    var parts: seq<Part>;
    if file.mimeType == DocxMime {
      parts := [TextPart(prompt + fileContent)];
    } else {
      parts := [TextPart(prompt), InlineDataPart(file.mimeType, fileContent)];
    }
    if w.reply.None? {
      return Outcome(Error(500, FailureMessage), true, Some(parts), None);
    }
    var responseText := w.reply.value;
    responseText := ReplaceFirst(responseText, JsonFence, "");
    responseText := RemoveAll(responseText, '`');
    var parsedData := parse(responseText);
    if parsedData.None? {
      return Outcome(Error(500, FailureMessage), true, Some(parts), Some(responseText));
    }
    return Outcome(Ok(parsedData.value), true, Some(parts), Some(responseText));
  }

  // =====================================================================
  // The file checks

  /** No file, or an empty string in its place, is the 400 "No file
      provided", and nothing is read or sent. */
  lemma MissingFile<J>(f: FileField, w: World, prompt: string, parse: string -> Option<J>)
    requires NoFile(f)
    ensures ParseOutcome(Fields(f), w, prompt, parse)
      == Outcome(Error(400, NoFileMessage), false, None, None)
  {
  }

  /** A file of a type outside the six, or a non-empty string field, is the
      400 unsupported-type error, before the bytes are read or the model is
      called. */
  lemma UnsupportedFile<J>(f: FileField, w: World, prompt: string, parse: string -> Option<J>)
    requires !NoFile(f) && !Accepted(f)
    ensures ParseOutcome(Fields(f), w, prompt, parse)
      == Outcome(Error(400, UnsupportedMessage), false, None, None)
  {
  }

  /** The bytes are read, and the model is called, exactly for an accepted
      file in a readable form. */
  lemma ReadOnlyAccepted<J>(form: Form, w: World, prompt: string, parse: string -> Option<J>)
    ensures ParseOutcome(form, w, prompt, parse).bytesRead <==> form.Fields? && Accepted(form.file)
    ensures ParseOutcome(form, w, prompt, parse).sent.Some? <==> form.Fields? && Accepted(form.file)
  {
  }

  /** The accepted types are the six listed, and a type string is accepted
      exactly when it is one of them. */
  lemma SupportedSpec(mimeType: string)
    ensures |SupportedTypes| == 6
    ensures IsSupported(mimeType) <==>
      mimeType == "application/pdf" || mimeType == "application/msword" || mimeType == DocxMime
      || mimeType == "image/jpeg" || mimeType == "image/png" || mimeType == "text/plain"
  {
  }

  // =====================================================================
  // What the model is sent

  /** A DOCX upload is sent as one text part, the prompt followed by the
      extracted text; when extraction fails the prompt goes alone, and the
      request goes on. */
  lemma DocxRequest<J>(w: World, prompt: string, parse: string -> Option<J>)
    ensures ParseOutcome(Fields(Upload(DocxMime)), w, prompt, parse).sent
      == Some([TextPart(prompt + ExtractTextFromDocx(w.docxText))])
    ensures w.docxText.None? ==>
      ParseOutcome(Fields(Upload(DocxMime)), w, prompt, parse).sent == Some([TextPart(prompt)])
  {
    assert prompt + "" == prompt;
  }

  /** Every other accepted type is sent as the prompt and then the base64
      bytes tagged with the file's own type; the DOCX extractor plays no
      part. */
  lemma InlineRequest<J>(mimeType: string, w: World, prompt: string, parse: string -> Option<J>)
    requires IsSupported(mimeType) && mimeType != DocxMime
    ensures ParseOutcome(Fields(Upload(mimeType)), w, prompt, parse).sent
      == Some([TextPart(prompt), InlineDataPart(mimeType, w.base64)])
    ensures ParseOutcome(Fields(Upload(mimeType)), w, prompt, parse)
      == ParseOutcome(Fields(Upload(mimeType)), w.(docxText := None), prompt, parse)
  {
  }

  // =====================================================================
  // The reply

  /** The text handed to `JSON.parse` is the cleaned reply and has no
      backtick; a parsed reply is the response body as it parsed. */
  lemma ReplyHandling<J>(mimeType: string, w: World, prompt: string, parse: string -> Option<J>)
    requires IsSupported(mimeType) && w.reply.Some?
    ensures var o := ParseOutcome(Fields(Upload(mimeType)), w, prompt, parse);
      && o.parsedText == Some(CleanResponse(w.reply.value))
      && '`' !in o.parsedText.value
      && (o.response.Ok? <==> parse(CleanResponse(w.reply.value)).Some?)
      && (o.response.Ok? ==> o.response.body == parse(CleanResponse(w.reply.value)).value)
  {
  }

  /** The catch: every failure past the two file checks, whether reading the
      form, calling the model or parsing its reply, is the one 500 error. */
  lemma FailuresAre500<J>(form: Form, w: World, prompt: string, parse: string -> Option<J>)
    ensures var o := ParseOutcome(form, w, prompt, parse);
      o.response.Error? && o.response.status != 400 ==> o.response == Error(500, FailureMessage)
    ensures var o := ParseOutcome(form, w, prompt, parse);
      o.response.Error? && o.response.status == 500 <==>
        form.Unreadable?
        || (Accepted(form.file) && (w.reply.None? || parse(CleanResponse(w.reply.value)).None?))
  {
  }
}
