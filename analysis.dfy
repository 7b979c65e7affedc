/**
 * The multi-file analysis handler of pdfstorage/main.py (POST
 * /api/analyze-multiple): request validation, reading each named PDF in
 * request order, stopping at the first one that is missing or unreadable,
 * and assembling the prompt sent to the language model. PDF text extraction
 * (`extract`, None when PyPDF2 raises) and the model call (`summarize`) are
 * arbitrary functions passed in; the upload folder is a set of names.
 */
module Analysis {
  import opened Wrappers
  import opened FileNames
  import opened Api

  /** The JSON "filenames" member: absent or null, some other JSON value, or a list of names. */
  datatype FilenamesField = Absent | NotAList | Names(names: seq<string>)

  datatype AnalyzeRequest = AnalyzeRequest(filenames: FilenamesField, prompt: Option<string>)

  const TooFewFiles := "Please select at least two files for analysis."
  const NoInstruction := "An analysis instruction is required."

  /** "filenames" is a list of at least two names: the handler's first rule. */
  predicate EnoughFiles(field: FilenamesField) {
    field.Names? && |field.names| >= 2
  }

  /**
   * The two checks made before any file is looked at: first the file list,
   * then a non-empty prompt.
   */
  function AnalyzeRejection(req: AnalyzeRequest): (r: Option<Response>)
    ensures r.None? <==> EnoughFiles(req.filenames) && req.prompt.Some? && req.prompt.value != ""
    ensures !EnoughFiles(req.filenames) ==> r == Some(BadRequest(TooFewFiles))
    ensures EnoughFiles(req.filenames) && r.Some? ==> r == Some(BadRequest(NoInstruction))
  {
    if !EnoughFiles(req.filenames) then Some(BadRequest(TooFewFiles))
    else if req.prompt.None? || req.prompt.value == "" then Some(BadRequest(NoInstruction))
    else None
  }

  /** A document's name as given in the request and its extracted text. */
  datatype Document = Document(name: string, text: string)

  /**
   * The text read from a stored name. An empty name denotes the upload folder
   * itself, which exists but cannot be opened as a PDF.
   */
  function ReadText(extract: string -> Option<string>, path: string): Option<string> {
    if path == "" then None else extract(path)
  }

  /** Reading one requested file: 404 if it is missing, 500 if it cannot be read or parsed. */
  function ReadDocument(files: set<string>, secure: string -> string, extract: string -> Option<string>,
                        name: string): Result<Document, Response>
  {
    var path := secure(name);
    if !PathExists(files, path) then Failure(NotFound("File not found: " + name))
    else match ReadText(extract, path)
      case None => Failure(ServerError("Failed to read or parse " + name))
      case Some(text) => Success(Document(name, text))
  }

  /**
   * Reading all requested files in order. The outcome is the first failing
   * file's error response if there is one, and otherwise one document per
   * name, in request order.
   */
  function Collect(files: set<string>, secure: string -> string, extract: string -> Option<string>,
                   names: seq<string>): (r: Result<seq<Document>, Response>)
    ensures r.Success? ==>
      |r.value| == |names| &&
      forall k :: 0 <= k < |names| ==> ReadDocument(files, secure, extract, names[k]) == Success(r.value[k])
    ensures r.Failure? ==>
      exists k :: 0 <= k < |names| && ReadDocument(files, secure, extract, names[k]) == Failure(r.error) &&
        forall j :: 0 <= j < k ==> ReadDocument(files, secure, extract, names[j]).Success?
  {
    if names == [] then Success([])
    else
      var init := names[..|names| - 1];
      match Collect(files, secure, extract, init)
      case Failure(e) => Failure(e)
      case Success(docs) =>
        match ReadDocument(files, secure, extract, names[|names| - 1])
        case Failure(e) => Failure(e)
        case Success(d) => Success(docs + [d])
  }

  /** Once a prefix of the names fails, the whole list fails with the same response. */
  lemma {:induction false} CollectFailureExtends(files: set<string>, secure: string -> string,
                                                 extract: string -> Option<string>, names: seq<string>, i: nat)
    requires i <= |names|
    requires Collect(files, secure, extract, names[..i]).Failure?
    ensures Collect(files, secure, extract, names) == Collect(files, secure, extract, names[..i])
    decreases |names| - i
  {
    if i < |names| {
      var init := names[..|names| - 1];
      assert init[..i] == names[..i];
      CollectFailureExtends(files, secure, extract, init, i);
    } else {
      assert names[..i] == names;
    }
  }

  const StartMarker := "--- START OF DOCUMENT: "
  const EndMarker := "--- END OF DOCUMENT: "
  const MarkerClose := " ---\n\n"
  const TextClose := "\n\n"

  /** The block that delimits one document in the combined text. */
  function Block(d: Document): string {
    StartMarker + d.name + MarkerClose + d.text + TextClose + EndMarker + d.name + MarkerClose
  }

  /** The concatenation of each document's rendering, in order. */
  function Render(docs: seq<Document>, render: Document -> string): string {
    if docs == [] then "" else Render(docs[..|docs| - 1], render) + render(docs[|docs| - 1])
  }

  /** combined_text: the documents' blocks, one after another. */
  function CombinedText(docs: seq<Document>): string {
    Render(docs, Block)
  }

  /** Rendering two runs of documents is rendering each and concatenating. */
  lemma {:induction false} RenderAppend(a: seq<Document>, b: seq<Document>, render: Document -> string)
    ensures Render(a + b, render) == Render(a, render) + Render(b, render)
    decreases |b|
  {
    if b != [] {
      var b' := b[..|b| - 1];
      assert (a + b)[..|a + b| - 1] == a + b';
      RenderAppend(a, b', render);
    } else {
      assert a + b == a;
    }
  }

  /**
   * Document k's rendering sits right after those of documents 0..k-1 and
   * right before those of the later ones.
   */
  lemma RenderAt(docs: seq<Document>, k: nat, render: Document -> string)
    requires k < |docs|
    ensures Render(docs, render) == Render(docs[..k], render) + render(docs[k]) + Render(docs[k + 1..], render)
  {
    var before, after := docs[..k + 1], docs[k + 1..];
    assert docs == before + after;
    assert before[..|before| - 1] == docs[..k];
    RenderAppend(before, after, render);
  }

  /**
   * In the combined text, document k's block sits right after the blocks of
   * documents 0..k-1 and right before those of the later ones: the documents
   * appear once each, in request order.
   */
  lemma BlockInOrder(docs: seq<Document>, k: nat)
    requires k < |docs|
    ensures CombinedText(docs) == CombinedText(docs[..k]) + Block(docs[k]) + CombinedText(docs[k + 1..])
  {
    RenderAt(docs, k, Block);
  }

  /** Appending a document appends its block: the step of the handler's loop. */
  lemma CombinedTextSnoc(docs: seq<Document>, d: Document)
    ensures CombinedText(docs + [d]) == CombinedText(docs) + Block(d)
  {
    assert (docs + [d])[..|docs|] == docs;
  }

  const Intro := "You are an expert academic assistant. Your task is to perform a detailed comparative analysis of the following university question papers.\n\n"
  const InstructionLead := "USER'S INSTRUCTION: \""
  const InstructionTail := "\"\n\n"
  const Guidance := "Based on the user's instruction, analyze the content of the documents provided below. When comparing questions, consider both direct textual matches and semantic similarities (i.e., questions asking the same thing with different wording). Present your findings in a clear, well-structured, and easy-to-read format. Use markdown for formatting if appropriate.\n\n"

  /**
   * A text made of a head, an embedded instruction, a tail and a body, in
   * that order: the instruction sits right after the head and the body ends
   * the text.
   */
  function Embed(head: string, instruction: string, tail: string, body: string): (r: string)
    ensures |r| == |head| + |instruction| + |tail| + |body|
    ensures r[..|head|] == head
    ensures r[|head|..|head| + |instruction|] == instruction
    ensures r[|r| - |body|..] == body
  {
    var r := head + instruction + tail + body;
    assert r == head + (instruction + (tail + body));
    assert r[|head|..] == instruction + (tail + body);
    r
  }

  /**
   * final_prompt: a fixed introduction and the start of the quoted
   * instruction, the user's instruction, the closing quote and fixed
   * guidance, then the combined text.
   */
  function FinalPrompt(prompt: string, combined: string): (r: string)
    ensures |r| == |Intro + InstructionLead| + |prompt| + |InstructionTail + Guidance| + |combined|
    ensures r[..|Intro + InstructionLead|] == Intro + InstructionLead
    ensures r[|Intro + InstructionLead|..|Intro + InstructionLead| + |prompt|] == prompt
    ensures r[|r| - |combined|..] == combined
  {
    Embed(Intro + InstructionLead, prompt, InstructionTail + Guidance, combined)
  }

  /**
   * analyze_multiple_pdfs. After the two request checks, the files are read
   * in request order; the first missing or unreadable one ends the request
   * with its error, and otherwise the model is asked about the prompt built
   * from all of them.
   */
  method AnalyzeMultiple(files: set<string>, req: AnalyzeRequest, secure: string -> string,
                         extract: string -> Option<string>, summarize: string -> string)
    returns (resp: Response)
    ensures AnalyzeRejection(req).Some? ==> resp == AnalyzeRejection(req).value
    ensures AnalyzeRejection(req).None? ==>
      resp == match Collect(files, secure, extract, req.filenames.names)
              case Failure(e) => e
              case Success(docs) =>
                Response(200, Analyzed(summarize(FinalPrompt(req.prompt.value, CombinedText(docs)))))
  {
    var rejection := AnalyzeRejection(req);
    if rejection.Some? {
      return rejection.value;
    }
    var names := req.filenames.names;
    var combined := "";
    ghost var docs: seq<Document> := [];
    var i := 0;
    while i < |names|
      invariant 0 <= i <= |names|
      invariant Collect(files, secure, extract, names[..i]) == Success(docs)
      invariant combined == CombinedText(docs)
    {
      assert names[..i + 1][..i] == names[..i];
      var path := secure(names[i]);
      if !PathExists(files, path) {
        CollectFailureExtends(files, secure, extract, names, i + 1);
        return NotFound("File not found: " + names[i]);
      }
      var text := ReadText(extract, path);
      if text.None? {
        CollectFailureExtends(files, secure, extract, names, i + 1);
        return ServerError("Failed to read or parse " + names[i]);
      }
      var d := Document(names[i], text.value);
      combined := combined + Block(d);
      CombinedTextSnoc(docs, d);
      assert (docs + [d])[..|docs|] == docs;
      docs := docs + [d];
      i := i + 1;
    }
    assert names[..i] == names;
    resp := Response(200, Analyzed(summarize(FinalPrompt(req.prompt.value, combined))));
  }
}
