/**
 * The POST branch of the `/` route: the request is checked in a fixed
 * order, and either rejected with a fixed 400 message or converted, after
 * which the client is redirected to the download route for the PDF name.
 */
module Upload {
  import opened Wrappers
  import opened Filenames
  import opened Conversion

  /** The multipart field `file`: the name the client gave and the decoded text it carries. */
  datatype FilePart = FilePart(filename: string, content: string)

  /** A form submission; `file` is absent when the request has no `file` field. */
  datatype Request = Request(file: Option<FilePart>)

  /** What the handler returns. */
  datatype Response =
    | Rejected(message: string, status: int)
      /** The PDF with these cells is written under `pdfName`; the response redirects to its download. */
    | Converted(pdfName: string, cells: seq<string>)

  const BadRequest: int := 400
  const NoFileUploaded: string := "No file uploaded"
  const NoFileSelected: string := "No file selected"
  const InvalidFormat: string := "Invalid file format. Only .txt files are allowed."

  /** Python truth value of the uploaded file object: true when its name is not empty. */
  predicate FileTruthy(f: FilePart) {
    f.filename != ""
  }

  /** The handler for a POST to `/`. */
  function HandleUpload(req: Request): (resp: Response)
    ensures resp.Rejected? ==> resp.status == 400 && resp.message in {NoFileUploaded, NoFileSelected, InvalidFormat}
    ensures resp.Converted? ==> req.file.Some? && AllowedFile(req.file.value.filename)
  {
    if req.file.None? then Rejected(NoFileUploaded, BadRequest)
    else
      var f := req.file.value;
      if f.filename == "" then Rejected(NoFileSelected, BadRequest)
      else if FileTruthy(f) && AllowedFile(f.filename) then
        Converted(PdfName(f.filename), Cells(f.content))
      else Rejected(InvalidFormat, BadRequest)
  }

  /** A request without a `file` field is refused first, whatever else it carries. */
  lemma MissingFileRejected(req: Request)
    requires req.file.None?
    ensures HandleUpload(req) == Rejected(NoFileUploaded, 400)
  {
  }

  /** An empty file name is refused before the extension is looked at. */
  lemma EmptyNameRejected(content: string)
    ensures HandleUpload(Request(Some(FilePart("", content)))) == Rejected(NoFileSelected, 400)
  {
  }

  /** A non-empty name that fails the extension check is refused with the format message. */
  lemma BadExtensionRejected(f: FilePart)
    requires f.filename != "" && !AllowedFile(f.filename)
    ensures HandleUpload(Request(Some(f))) == Rejected(InvalidFormat, 400)
  {
  }

  /**
   * The handler converts exactly the uploads whose name passes the
   * extension check, i.e. ends in `.txt` in any letter case; the PDF
   * name is the derived one and the cells are those of the uploaded text.
   * Every other request gets a 400.
   */
  lemma ConvertedIff(req: Request)
    ensures HandleUpload(req).Converted? <==>
              req.file.Some? && AllowedFile(req.file.value.filename)
    ensures HandleUpload(req).Converted? <==>
              req.file.Some? && HasTxtExtension(req.file.value.filename)
    ensures HandleUpload(req).Converted? ==>
              HandleUpload(req).pdfName == PdfName(req.file.value.filename) &&
              |HandleUpload(req).pdfName| == |req.file.value.filename| &&
              HandleUpload(req).cells == Cells(req.file.value.content)
    ensures HandleUpload(req).Rejected? ==> HandleUpload(req).status == 400
  {
    if req.file.Some? {
      AllowedFileIff(req.file.value.filename);
    }
  }

  /** An upload whose name ends in `.txt` is converted to a PDF whose name ends in `.pdf`. */
  lemma LowerTxtUploadRenamed(f: FilePart)
    requires |f.filename| >= 4 && f.filename[|f.filename| - 4..] == ".txt"
    ensures HandleUpload(Request(Some(f))).Converted?
    ensures HandleUpload(Request(Some(f))).pdfName[|f.filename| - 4..] == ".pdf"
  {
    ConvertedIff(Request(Some(f)));
    PdfNameOfTxtSuffix(f.filename);
  }

  /**
   * An upload whose name ends in `.TXT` is accepted and converted, but the
   * PDF is stored under a name that still ends in `.TXT`.
   */
  lemma UpperTxtUploadNotRenamed(f: FilePart)
    requires |f.filename| >= 4 && f.filename[|f.filename| - 4..] == ".TXT"
    ensures HandleUpload(Request(Some(f))).Converted?
    ensures HandleUpload(Request(Some(f))).pdfName[|f.filename| - 4..] == ".TXT"
  {
    ConvertedIff(Request(Some(f)));
    PdfNameOfUpperTxtSuffix(f.filename);
  }

  /** An empty upload with an accepted name is converted to a PDF holding only the placeholder cell. */
  lemma EmptyUploadGivesPlaceholder(name: string)
    requires AllowedFile(name)
    ensures HandleUpload(Request(Some(FilePart(name, "")))) == Converted(PdfName(name), [EmptyMessage])
  {
    AllowedFileHasDot(name);
  }
}
