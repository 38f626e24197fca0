# Text-to-PDF converter: a Dafny model of its upload and conversion rules

The application is a small Flask web service: a user uploads a `.txt` file,
the server turns each line of it into one text cell of a PDF document, stores
the PDF under a name derived from the upload's name, and redirects the user
to a download route. All of its own logic is in `app.py`. This project models
that logic and proves what it does:

- **`allowed_file`** (module `Filenames`): a name is accepted when it contains
  a dot and the text after the last dot (`rsplit('.', 1)`), lower-cased, is in
  the allowed set `{"txt"}`. It is proved to accept exactly the names that end
  in `.txt` with the three letters in any case. The check is also proved
  insensitive to re-casing the final extension.
- **PDF name derivation** (module `Filenames`): `filename.replace('.txt', '.pdf')`
  is Python's replace-all. It scans left to right, replaces non-overlapping
  occurrences and is case-sensitive. It is modelled as `ReplaceAll` and proved
  equal, position by position, to an independent reference `RenamedAt`.
  `RenamedAt` maps every character inside an occurrence of `.txt` to the matching
  character of `.pdf` and keeps every other character. Consequences proved:
  - the length is kept;
  - a name with no `.txt` comes back unchanged;
  - `a.txt.txt` becomes `a.pdf.pdf`;
  - a name ending in `.txt` ends in `.pdf` afterwards;
  - a name ending in `.TXT` is accepted, but its PDF keeps the `.TXT` ending.
- **The upload decision** (module `Upload`): the POST branch of `index` checks
  the request in a fixed order. A missing `file` field gives
  `"No file uploaded"`, an empty name gives `"No file selected"`, a rejected
  extension gives `"Invalid file format. Only .txt files are allowed."`, each
  with status 400. Any other request converts the file and redirects to the
  derived name. Conversion is proved to happen exactly when `allowed_file` holds.
- **The conversion content** (module `Conversion`): `readlines()` is modelled as
  `ReadLines`. The lines keep their `\n` terminators. Their concatenation is the
  text. They are proved to be the only well-formed cutting of the text into
  lines. `convert_to_pdf` is modelled as `ConvertToPdf`, a method over a mutable
  `Document` whose `MultiCell` appends one cell. With no lines it writes the
  single placeholder cell `"The file is empty."`. Otherwise its loop writes
  `line.strip()` for each line, in order. Its result is proved equal to the
  specification function `Cells`. The properties of `Cells` are proved as
  lemmas: the cell count, that no cell has a newline or white space at either
  end, and textual fidelity for trimmed lines.

Module `Text` holds the string primitives:
- `IsSpace` is the character set of CPython's `str.isspace` (U+0009..U+000D,
  U+001C..U+0020, U+0085, U+00A0, U+1680, U+2000..U+200A, U+2028, U+2029,
  U+202F, U+205F, U+3000). That is the set `str.strip()` removes.
- `Strip` models `str.strip()` as two scans, one forward from the start and one back from the end, each over white space.
- `Lower` lower-cases ASCII letters.

Module `Wrappers` holds `Option`.

The uploaded file's content is taken as already decoded text whose line
terminator is `\n`. The `Request` datatype carries that text with the file
name. A successful response, `Converted(pdfName, cells)`, stands for two things
together: the written PDF, given by its name and its cells, and the redirect
to its download.

Three points of `app.py` matter for what the model promises:
- `line.strip()` removes white space at both ends of a line, not only at the end.
- `replace('.txt', '.pdf')` rewrites every lower-case `.txt` anywhere in the
  name, and never `.TXT`.
- The text is always decoded as UTF-8, and an empty file always gets the
  placeholder cell.

## Model

| member | source | states |
|---|---|---|
| `Text.IsSpace` | app.py:42 | stands for `str.isspace`; its contract is its definition, the CPython white-space set, plus the facts that ASCII space, tab, newline and carriage return are white space and letters, digits and `.` are not; `Text.StripIsTrim` characterises the `strip()` built on it |
| `Text.Lower` | app.py:21 | stands for `str.lower` on ASCII; its contract is its definition: same length, no capital left, every other character kept; `Filenames.LowerIsTxt` characterises the one comparison the source makes with it |
| `Text.ScanForward` | app.py:42 | the forward scan of `strip()` passes only white space and stops at the first non-space character or at the end |
| `Text.ScanBackward` | app.py:42 | the backward scan of `strip()` passes only white space, never goes below its lower bound, and stops after the last non-space character |
| `Text.Strip` | app.py:42 | the stripped line is no longer than the line and has no white space at either end |
| `Text.StripRemovesOnlySpace` | app.py:42 | the input is an all-space prefix, then the stripped result, then an all-space suffix |
| `Text.StripIsTrim` | app.py:42 | for any cut of a string into all-space prefix, trimmed middle and all-space suffix, strip returns exactly that middle |
| `Text.AllSpaceStripsToEmpty` | app.py:42 | a line made only of white space (such as `"\n"`) strips to the empty string |
| `Text.StripIdempotent` | app.py:42 | stripping twice is the same as stripping once |
| `Text.StripTrimmed` | app.py:42 | a string with no white space at either end is left unchanged |
| `Filenames.LastIndexOf` | app.py:21 | finds the position of the last occurrence of the character, and finds none exactly when the character does not occur |
| `Filenames.RSplitOnce` | app.py:21 | `rsplit(sep, 1)` gives the whole string when `sep` is absent, else the parts before and after the last `sep`, which rejoin to the string, with no `sep` after the split |
| `Filenames.LowerIsTxt` | app.py:21 | an extension lower-cases to `txt` exactly when it is three letters t/T, x/X, t/T |
| `Filenames.AllowedFile` | app.py:19-21 | `allowed_file` itself; its contract is its definition (a dot, and the lower-cased text after the last dot is in `{"txt"}`) plus "an accepted name is non-empty and has a dot"; `Filenames.AllowedFileIff` characterises it |
| `Filenames.AllowedFileIff` | app.py:19-21 | `allowed_file` accepts a name if and only if it ends in `.txt` with the letters in any case; names without a dot and other final extensions are rejected |
| `Filenames.AllowedFileRejectsExamples` | app.py:21 | `x`, `file.` and `notes.txt.exe` are rejected |
| `Filenames.AllowedFileAcceptsExamples` | app.py:21 | `archive.exe.txt`, `A.TXT` and `.txt` are accepted |
| `Filenames.AllowedFileHasDot` | app.py:21 | every accepted name is non-empty and contains a dot |
| `Filenames.AllowedFileRecased` | app.py:21 | re-casing the text after the last dot in any way leaves the verdict unchanged |
| `Filenames.ReplaceAll` | app.py:67 | left-to-right replace-all; a replacement of the same length as the pattern keeps the length |
| `Filenames.PdfName` | app.py:67 | the derived PDF name `filename.replace('.txt', '.pdf')`; its contract is its definition plus "the length is kept"; `Filenames.PdfNameAt` characterises it |
| `Filenames.PdfNameAt` | app.py:67 | at every position, the derived name equals the reference: characters inside an occurrence of `.txt` become those of `.pdf`, all others are kept |
| `Filenames.PdfNameIsRenamed` | app.py:67 | the derived name as a whole equals the reference renaming applied at each position |
| `Filenames.PdfNameUnchanged` | app.py:67 | a name containing no `.txt` is returned unchanged |
| `Filenames.PdfNameOfTxtSuffix` | app.py:67 | a name ending in `.txt` yields a name of the same length ending in `.pdf` |
| `Filenames.PdfNameOfUpperTxtSuffix` | app.py:67 | a name ending in `.TXT` is accepted by the extension check, yet its derived name still ends in `.TXT` |
| `Filenames.PdfNameAppend` | app.py:67 | renaming `stem + ".txt"` renames the stem and turns the extension into `.pdf`; renaming `stem + ".TXT"` renames the stem and keeps `.TXT` |
| `Filenames.PdfNameOfNotes` | app.py:67 | `notes.txt` becomes `notes.pdf` |
| `Filenames.PdfNameReplacesEveryOccurrence` | app.py:67 | `a.txt.txt` becomes `a.pdf.pdf`: every occurrence is replaced, not only the suffix |
| `Filenames.PdfNameKeepsUpperCase` | app.py:67 | `A.TXT` is accepted and its derived name is `A.TXT` itself |
| `Conversion.NewlineIndex` | app.py:34 | position of the first newline, or the length if there is none; no newline occurs before it |
| `Conversion.ReadLines` | app.py:34 | `readlines()` gives no line exactly when the text is empty |
| `Conversion.ReadLinesConcat` | app.py:34 | concatenating the lines reproduces the text exactly |
| `Conversion.ReadLinesWellFormed` | app.py:34 | every line is non-empty, has no newline except possibly as its last character, and every line but the last ends in a newline |
| `Conversion.ReadLinesUnique` | app.py:34 | any well-formed sequence of lines that concatenates to the text is the result of `readlines()` |
| `Conversion.LastLineTerminated` | app.py:34 | the last line ends in a newline exactly when the text does |
| `Conversion.Cells` | app.py:37-42 | the cells written for the decoded text; its contract is its definition plus "at least one cell, and one per line for non-empty text"; `Conversion.CellsShape` characterises it |
| `Conversion.CellsShape` | app.py:37-42 | empty text gives exactly the placeholder cell; other text gives one cell per line, the stripped line, in order, with no newline and no white space at either end |
| `Conversion.StripHasNoNewline` | app.py:42 | a stripped line contains no newline at all |
| `Conversion.CellsOfJoinedLines` | app.py:34-42 | trimmed lines without newlines, each written followed by a newline, come back as the cells unchanged and in order; no line at all gives the placeholder |
| `Conversion.CellsExample` | app.py:37-42 | `Hello\nWorld\n` gives cells `Hello`, `World`; the empty text gives the placeholder; a single blank line `\n` gives one empty cell and no placeholder |
| `Conversion.Document.constructor` | app.py:25-26 | a new document has no cells |
| `Conversion.Document.MultiCell` | app.py:38-42 | writing a cell appends it after the cells already written |
| `Conversion.ConvertToPdf` | app.py:33-42 | a newly created document; the document built by the loop holds exactly the cells `Cells(text)`: the placeholder for no lines, else each line stripped, in order |
| `Upload.HandleUpload` | app.py:50-74 | the POST branch of `index`; its contract is its definition plus "every rejection is one of the three messages with status 400, and a conversion happens only for a present file that passes `allowed_file`"; `Upload.ConvertedIff` characterises it |
| `Upload.MissingFileRejected` | app.py:52-53 | a request without a `file` field gets `"No file uploaded"` with status 400, whatever else it carries |
| `Upload.EmptyNameRejected` | app.py:58-59 | an empty file name gets `"No file selected"` with status 400 |
| `Upload.BadExtensionRejected` | app.py:61-74 | a non-empty name that `allowed_file` rejects gets the invalid-format message with status 400 |
| `Upload.ConvertedIff` | app.py:50-74 | the upload is converted exactly when the file field is present and `allowed_file` holds (equivalently, the name ends in `.txt` in any case); the PDF name is the derived name, of the same length, and the cells are those of the uploaded text; every rejection has status 400 |
| `Upload.LowerTxtUploadRenamed` | app.py:61-67 | an upload whose name ends in `.txt` is converted to a PDF whose name ends in `.pdf` |
| `Upload.UpperTxtUploadNotRenamed` | app.py:61-67 | an upload whose name ends in `.TXT` is converted, but its PDF name still ends in `.TXT` |
| `Upload.EmptyUploadGivesPlaceholder` | app.py:61-72 | an empty upload with an accepted name is converted to its derived PDF name holding only the placeholder cell |

## Left out

- Flask routing, the GET form page (`render_template`), `redirect` and the URL built by `url_for`, and the download route with `send_file` (app.py:47-48, 72, 76-82): HTTP plumbing. The model's `Converted` response carries the PDF name the redirect points to.
- Filesystem effects: `os.makedirs`, `file.save`, `os.path.join`, opening the input and writing the PDF (app.py:16-17, 33, 45, 63-64, 68). Path traversal through the file name, and two uploads of the same name overwriting each other, are left out as well: they are OS behaviour and concurrency.
- UTF-8 decoding and universal-newline translation by `open(..., encoding='utf-8')` (app.py:33), and the server error a decoding failure causes: the model takes the already-decoded text with `\n` line terminators.
- Everything FPDF does: the DejaVuSans font, the font size, the cell width, the line height, wrapping inside `multi_cell`, page breaks, page counts and PDF serialisation (app.py:25-30, 38, 42, 45). It is a foreign library whose source is not part of this model. Page counts cannot be derived, because long lines wrap. The `Document` keeps only the sequence of cell texts.
- `app.run(debug=True)` and the folder configuration (app.py:7-13, 84-85). Only the allowed-extension set `{"txt"}` is modelled.
- Text.Lower: lower-cases ASCII letters only, while Python's `str.lower` covers all of Unicode. For the one use, testing membership in `{"txt"}`, the verdict is the same: `str.lower` gives `t` only from `t` or `T`, and `x` only from `x` or `X`.
- Filenames.ReplaceAll: requires a non-empty pattern. Python's `replace` with an empty pattern inserts the replacement before every character and after the last one (`"ab".replace("", "-") == "-a-b-"`), but the application only ever replaces `.txt`.
- Conversion.ConvertToPdf: returns the document after the cells are written. Adding a page, setting the font and writing the file are not part of it.
