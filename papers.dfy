/**
 * The upload and delete handlers of pdfstorage/main.py acting on the service's
 * state: the names of the files in the upload folder and the rows of the
 * papers table. werkzeug's secure_filename is an arbitrary function passed
 * in, and whether the database statement succeeds is a parameter.
 */
module Papers {
  import opened Wrappers
  import opened Seqs
  import opened FileNames
  import opened Api

  /** The multipart upload request: the file part's client name, if any, and the form fields. */
  datatype UploadRequest = UploadRequest(
    file: Option<string>,
    subject: Option<string>,
    branch: Option<string>,
    regulation: Option<string>)

  /** The checks upload_paper makes before touching the disk, in the order it makes them. */
  datatype UploadCheck = HasFilePart | HasFileName | HasMetadata | HasAllowedType

  const UploadChecks: seq<UploadCheck> := [HasFilePart, HasFileName, HasMetadata, HasAllowedType]

  /** A form field is present and not empty (Python truthiness of a string or None). */
  predicate Given(field: Option<string>) {
    field.Some? && field.value != ""
  }

  predicate Passes(req: UploadRequest, check: UploadCheck) {
    match check
    case HasFilePart => req.file.Some?
    case HasFileName => req.file.Some? && req.file.value != ""
    case HasMetadata => Given(req.subject) && Given(req.branch) && Given(req.regulation)
    case HasAllowedType => req.file.Some? && AllowedFile(req.file.value)
  }

  function RejectionMessage(check: UploadCheck): string {
    match check
    case HasFilePart => "No file part"
    case HasFileName => "No selected file"
    case HasMetadata => "Missing subject, branch, or regulation"
    case HasAllowedType => "File type not allowed"
  }

  /** The first check in `checks` that the request fails. */
  function FirstFailing(req: UploadRequest, checks: seq<UploadCheck>): (r: Option<UploadCheck>)
    ensures r.None? <==> forall c :: c in checks ==> Passes(req, c)
    ensures r.Some? ==> r.value in checks && !Passes(req, r.value)
    ensures r.Some? ==>
      exists k :: 0 <= k < |checks| && checks[k] == r.value && forall j :: 0 <= j < k ==> Passes(req, checks[j])
  {
    if checks == [] then None
    else if !Passes(req, checks[0]) then Some(checks[0])
    else
      var rest := FirstFailing(req, checks[1..]);
      assert rest.Some? ==>
        exists k :: 0 <= k < |checks| && checks[k] == rest.value && forall j :: 0 <= j < k ==> Passes(req, checks[j])
      by {
        if rest.Some? {
          var k :| 0 <= k < |checks[1..]| && checks[1..][k] == rest.value &&
            forall j :: 0 <= j < k ==> Passes(req, checks[1..][j]);
          assert checks[k + 1] == rest.value;
          forall j | 0 <= j < k + 1 ensures Passes(req, checks[j]) {
            if j > 0 { assert checks[j] == checks[1..][j - 1]; }
          }
        }
      }
      rest
  }

  /** The validation ladder of upload_paper: None when the upload may proceed. */
  function UploadRejection(req: UploadRequest): Option<Response> {
    if req.file.None? then Some(BadRequest("No file part"))
    else if req.file.value == "" then Some(BadRequest("No selected file"))
    else if !(Given(req.subject) && Given(req.branch) && Given(req.regulation)) then
      Some(BadRequest("Missing subject, branch, or regulation"))
    else if !AllowedFile(req.file.value) then Some(BadRequest("File type not allowed"))
    else None
  }

  /**
   * The ladder reports the first failed check in the fixed order file part,
   * file name, metadata, file type, with status 400; it lets a request through
   * exactly when all four checks pass.
   */
  lemma UploadRejectionIsFirstFailing(req: UploadRequest)
    ensures UploadRejection(req) ==
      match FirstFailing(req, UploadChecks)
      case None => None
      case Some(c) => Some(BadRequest(RejectionMessage(c)))
    ensures UploadRejection(req).None? <==> forall c :: c in UploadChecks ==> Passes(req, c)
  {
    var rest1, rest2, rest3 := UploadChecks[1..], UploadChecks[2..], UploadChecks[3..];
    assert rest1 == [HasFileName, HasMetadata, HasAllowedType] && rest1[1..] == rest2;
    assert rest2 == [HasMetadata, HasAllowedType] && rest2[1..] == rest3;
    assert rest3 == [HasAllowedType] && rest3[1..] == [];
    assert FirstFailing(req, UploadChecks) ==
      if !Passes(req, HasFilePart) then Some(HasFilePart) else FirstFailing(req, rest1);
    assert FirstFailing(req, rest1) ==
      if !Passes(req, HasFileName) then Some(HasFileName) else FirstFailing(req, rest2);
    assert FirstFailing(req, rest2) ==
      if !Passes(req, HasMetadata) then Some(HasMetadata) else FirstFailing(req, rest3);
    assert FirstFailing(req, rest3) ==
      if !Passes(req, HasAllowedType) then Some(HasAllowedType) else None;
  }

  /** The rows that remain after DELETE FROM papers WHERE filename = name. */
  function WithoutFile(papers: seq<Paper>, name: string): seq<Paper> {
    Filter(papers, (p: Paper) => p.filename != name)
  }

  /**
   * Deleting by file name removes every row with that name, keeps every other
   * row as often as it occurred, and keeps the survivors in their order.
   */
  lemma WithoutFileSpec(papers: seq<Paper>, name: string)
    ensures forall p :: p in WithoutFile(papers, name) <==> p in papers && p.filename != name
    ensures forall p :: multiset(WithoutFile(papers, name))[p] == if p.filename != name then multiset(papers)[p] else 0
    ensures IsSubsequence(WithoutFile(papers, name), papers)
    ensures (forall p :: p in papers ==> p.filename != name) ==> WithoutFile(papers, name) == papers
  {
    FilterIsSubsequence(papers, (p: Paper) => p.filename != name);
    forall p ensures multiset(WithoutFile(papers, name))[p] == if p.filename != name then multiset(papers)[p] else 0 {
      FilterCount(papers, (p: Paper) => p.filename != name, p);
    }
    if forall p :: p in papers ==> p.filename != name {
      FilterAll(papers, (p: Paper) => p.filename != name);
    }
  }

  const UploadDbError := "Failed to save paper details"
  const DeleteError := "An internal error occurred. Could not delete the paper."

  /** The upload folder and the papers table. */
  class PaperStore {
    var files: set<string>
    var papers: seq<Paper>

    /** Every row of the table names a file in the upload folder. */
    ghost predicate Consistent()
      reads this
    {
      forall p :: p in papers ==> p.filename in files
    }

    constructor (files: set<string>, papers: seq<Paper>)
      ensures this.files == files && this.papers == papers
    {
      this.files := files;
      this.papers := papers;
    }

    /**
     * upload_paper. `secure` is secure_filename; `insertOk` says whether
     * add_paper succeeds. A rejected request changes nothing. An accepted one
     * saves the file under the first free name; if the insert then fails the
     * saved file is removed again, so the folder is as it was.
     */
    method Upload(req: UploadRequest, secure: string -> string, insertOk: bool) returns (resp: Response)
      modifies this
      ensures UploadRejection(req).Some? ==>
        resp == UploadRejection(req).value && files == old(files) && papers == old(papers)
      ensures UploadRejection(req).None? && !insertOk ==>
        resp == ServerError(UploadDbError) && files == old(files) && papers == old(papers)
      ensures UploadRejection(req).None? && insertOk ==>
        exists chosen ::
          IsFreeName(old(files), secure(req.file.value), chosen) &&
          chosen !in old(files) &&
          resp == Response(201, Uploaded(chosen)) &&
          files == old(files) + {chosen} &&
          papers == old(papers) + [Paper(req.subject.value, req.branch.value, req.regulation.value, chosen)]
      ensures old(Consistent()) ==> Consistent()
    {
      var rejection := UploadRejection(req);
      if rejection.Some? {
        return rejection.value;
      }
      var filename := secure(req.file.value);
      var chosen, _ := ResolveName(files, filename);
      files := files + {chosen};  // file.save
      if insertOk {
        papers := papers + [Paper(req.subject.value, req.branch.value, req.regulation.value, chosen)];
        resp := Response(201, Uploaded(chosen));
      } else {
        files := files - {chosen};  // os.remove after the database error
        resp := ServerError(UploadDbError);
      }
    }

    /**
     * delete_paper_file. `dbOk` says whether delete_paper succeeds. The row is
     * deleted first, then the file if it exists; a missing file still counts
     * as success. An empty sanitized name points at the upload folder itself,
     * which exists but cannot be removed as a file, so that request ends in
     * the internal-error response after the rows are gone.
     */
    method Delete(filename: string, secure: string -> string, dbOk: bool) returns (resp: Response)
      modifies this
      ensures filename == "" ==>
        resp == BadRequest("Invalid filename provided") && files == old(files) && papers == old(papers)
      ensures filename != "" && !dbOk ==>
        resp == ServerError(DeleteError) && files == old(files) && papers == old(papers)
      ensures filename != "" && dbOk ==> papers == WithoutFile(old(papers), secure(filename))
      ensures filename != "" && dbOk && secure(filename) != "" ==>
        resp == Response(200, Deleted(secure(filename))) && files == old(files) - {secure(filename)}
      ensures filename != "" && dbOk && secure(filename) == "" ==>
        resp == ServerError(DeleteError) && files == old(files)
      ensures old(Consistent()) ==> Consistent()
    {
      if filename == "" {
        return BadRequest("Invalid filename provided");
      }
      var safe := secure(filename);
      if !dbOk {
        return ServerError(DeleteError);
      }
      papers := WithoutFile(papers, safe);
      if PathExists(files, safe) {
        if safe == "" {
          return ServerError(DeleteError);  // os.remove on a directory raises
        }
        files := files - {safe};
      }
      resp := Response(200, Deleted(safe));
    }
  }
}
