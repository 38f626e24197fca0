/**
 * The two rules the upload handler applies to the name of the uploaded
 * file: the extension check `allowed_file` and the derivation of the PDF
 * name by `str.replace('.txt', '.pdf')`.
 */
module Filenames {
  import opened Wrappers
  import opened Text

  /** The configured set of accepted extensions. */
  const AllowedExtensions: set<string> := {"txt"}

  /** Position of the last occurrence of `c` in `s`, if any. */
  function LastIndexOf(s: string, c: char): (r: Option<nat>)
    ensures r.None? <==> c !in s
    ensures r.Some? ==> r.value < |s| && s[r.value] == c && c !in s[r.value + 1..]
    decreases |s|
  {
    if s == [] then None
    else if s[|s| - 1] == c then Some(|s| - 1)
    else
      var r := LastIndexOf(s[..|s| - 1], c);
      assert forall k :: 0 <= k < |s| - 1 ==> s[..|s| - 1][k] == s[k];
      r
  }

  /**
   * `s.rsplit(sep, 1)`: the whole string when `sep` does not occur,
   * otherwise the text before and after the last `sep`.
   */
  function RSplitOnce(s: string, sep: char): (parts: seq<string>)
    ensures sep !in s ==> parts == [s]
    ensures sep in s ==> |parts| == 2 && s == parts[0] + [sep] + parts[1] && sep !in parts[1]
  {
    match LastIndexOf(s, sep)
    case None => [s]
    case Some(k) =>
      assert s == s[..k] + [sep] + s[k + 1..];
      [s[..k], s[k + 1..]]
  }

  /** `allowed_file`: a dot, and the text after the last dot lower-cases to an allowed extension. */
  predicate AllowedFile(filename: string)
    ensures AllowedFile(filename) ==> filename != [] && '.' in filename
  {
    '.' in filename && Lower(RSplitOnce(filename, '.')[1]) in AllowedExtensions
  }

  /** The name ends in `.txt`, with the three letters in any case. */
  predicate HasTxtExtension(s: string) {
    |s| >= 4 && s[|s| - 4] == '.' &&
    s[|s| - 3] in "tT" && s[|s| - 2] in "xX" && s[|s| - 1] in "tT"
  }

  /** Lower-casing yields "txt" exactly for the case variants of "txt". */
  lemma LowerIsTxt(e: string)
    ensures Lower(e) == "txt" <==> |e| == 3 && e[0] in "tT" && e[1] in "xX" && e[2] in "tT"
  {
    if Lower(e) == "txt" {
      assert |e| == 3;
      assert Lower(e)[0] == LowerChar(e[0]) == 't';
      assert Lower(e)[1] == LowerChar(e[1]) == 'x';
      assert Lower(e)[2] == LowerChar(e[2]) == 't';
    }
    if |e| == 3 && e[0] in "tT" && e[1] in "xX" && e[2] in "tT" {
      assert Lower(e) == [LowerChar(e[0]), LowerChar(e[1]), LowerChar(e[2])];
    }
  }

  /** The extension check accepts exactly the names that end in `.txt`, in any letter case. */
  lemma AllowedFileIff(s: string)
    ensures AllowedFile(s) <==> HasTxtExtension(s)
  {
    if '.' in s {
      var k := LastIndexOf(s, '.').value;
      var ext := s[k + 1..];
      assert RSplitOnce(s, '.')[1] == ext;
      LowerIsTxt(ext);
      if HasTxtExtension(s) {
        assert s[|s| - 4] == '.';
        assert k == |s| - 4;
      }
    }
  }

  /** Names the extension check rejects: no dot, nothing after the last dot, another extension. */
  lemma AllowedFileRejectsExamples(a: string, b: string, c: string)
    requires a == "x" && b == "file." && c == "notes.txt.exe"
    ensures !AllowedFile(a) && !AllowedFile(b) && !AllowedFile(c)
  {
    AllowedFileIff(a);
    AllowedFileIff(b);
    AllowedFileIff(c);
  }

  /** Names the extension check accepts: only the last extension counts, in any case. */
  lemma AllowedFileAcceptsExamples(a: string, b: string, c: string)
    requires a == "archive.exe.txt" && b == "A.TXT" && c == ".txt"
    ensures AllowedFile(a) && AllowedFile(b) && AllowedFile(c)
  {
    AllowedFileIff(a);
    AllowedFileIff(b);
    AllowedFileIff(c);
  }

  /** Every accepted name is non-empty and contains a dot. */
  lemma AllowedFileHasDot(s: string)
    requires AllowedFile(s)
    ensures s != [] && '.' in s
  {
  }

  /**
   * The check is case-insensitive: re-casing the text after the last dot, in
   * any way, does not change the verdict.
   */
  lemma AllowedFileRecased(s: string, k: nat, e: string)
    requires k < |s| && s[k] == '.' && '.' !in s[k + 1..]
    requires Lower(e) == Lower(s[k + 1..])
    ensures AllowedFile(s[..k + 1] + e) == AllowedFile(s)
  {
    var t := s[..k + 1] + e;
    var ext := s[k + 1..];
    LowerKeepsDots(e, ext);
    assert t[k] == '.';
    assert t[k + 1..] == e;
    assert LastIndexOf(t, '.') == Some(k);
    assert RSplitOnce(t, '.')[1] == e;
    assert RSplitOnce(s, '.')[1] == ext;
  }

  /** Lower-casing maps `.` only from `.`: two strings with the same lower-casing agree on where their dots are. */
  lemma LowerKeepsDots(e: string, ext: string)
    requires Lower(e) == Lower(ext) && '.' !in ext
    ensures '.' !in e
  {
    forall m | 0 <= m < |e| ensures e[m] != '.' {
      assert Lower(e)[m] == LowerChar(e[m]);
      assert Lower(ext)[m] == LowerChar(ext[m]);
    }
  }

  /** `s.replace(pat, rep)`: every non-overlapping occurrence, scanned from the left. */
  function ReplaceAll(s: string, pat: string, rep: string): (r: string)
    requires pat != []
    ensures |pat| == |rep| ==> |r| == |s|
    decreases |s|
  {
    if s == [] then []
    else if pat <= s then rep + ReplaceAll(s[|pat|..], pat, rep)
    else [s[0]] + ReplaceAll(s[1..], pat, rep)
  }

  /** The name the converted PDF is stored and offered under. */
  function PdfName(filename: string): (r: string)
    ensures |r| == |filename|
  {
    ReplaceAll(filename, ".txt", ".pdf")
  }

  /** An occurrence of `.txt` starts at position `p` of `s`. */
  predicate TxtAt(s: string, p: int) {
    0 <= p && p + 4 <= |s| && s[p] == '.' && s[p + 1] == 't' && s[p + 2] == 'x' && s[p + 3] == 't'
  }

  /**
   * Reference definition of the renaming, position by position: a character
   * inside an occurrence of `.txt` becomes the matching character of `.pdf`,
   * every other character is kept. (Occurrences of `.txt` cannot overlap.)
   */
  function RenamedAt(s: string, i: nat): char
    requires i < |s|
  {
    if TxtAt(s, i) then '.'
    else if TxtAt(s, i - 1) then 'p'
    else if TxtAt(s, i - 2) then 'd'
    else if TxtAt(s, i - 3) then 'f'
    else s[i]
  }

  lemma TxtAtShift(s: string, n: nat, p: int)
    requires n <= |s| && p >= 0
    ensures TxtAt(s[n..], p) <==> TxtAt(s, p + n)
  {
  }

  lemma TxtPrefix(s: string)
    ensures ".txt" <= s <==> TxtAt(s, 0)
  {
    if TxtAt(s, 0) { assert s[..4] == ".txt"; }
  }

  /** The case where `.txt` starts the name: it is replaced, the rest is renamed on its own. */
  lemma {:induction false} PdfNameAtMatch(s: string, i: nat)
    requires i < |s| && TxtAt(s, 0)
    requires i >= 4 ==> |PdfName(s[4..])| == |s| - 4 && PdfName(s[4..])[i - 4] == RenamedAt(s[4..], i - 4)
    ensures |PdfName(s)| == |s| && PdfName(s)[i] == RenamedAt(s, i)
  {
    TxtPrefix(s);
    assert PdfName(s) == ".pdf" + PdfName(s[4..]);
    if i >= 4 {
      TxtAtShift(s, 4, i - 4);
      if i >= 5 { TxtAtShift(s, 4, i - 5); }
      if i >= 6 { TxtAtShift(s, 4, i - 6); }
      if i >= 7 { TxtAtShift(s, 4, i - 7); }
    }
  }

  /** The case where the name does not start with `.txt`: its first character is kept. */
  lemma {:induction false} PdfNameAtSkip(s: string, i: nat)
    requires i < |s| && !TxtAt(s, 0)
    requires i >= 1 ==> |PdfName(s[1..])| == |s| - 1 && PdfName(s[1..])[i - 1] == RenamedAt(s[1..], i - 1)
    ensures |PdfName(s)| == |s| && PdfName(s)[i] == RenamedAt(s, i)
  {
    TxtPrefix(s);
    assert PdfName(s) == [s[0]] + PdfName(s[1..]);
    if i >= 1 {
      TxtAtShift(s, 1, i - 1);
      if i >= 2 { TxtAtShift(s, 1, i - 2); }
      if i >= 3 { TxtAtShift(s, 1, i - 3); }
      if i >= 4 { TxtAtShift(s, 1, i - 4); }
    }
  }

  /** The left-to-right replacement agrees with the reference definition at every position. */
  lemma {:induction false} PdfNameAt(s: string, i: nat)
    requires i < |s|
    ensures |PdfName(s)| == |s| && PdfName(s)[i] == RenamedAt(s, i)
    decreases |s|
  {
    if TxtAt(s, 0) {
      if i >= 4 { PdfNameAt(s[4..], i - 4); }
      PdfNameAtMatch(s, i);
    } else {
      if i >= 1 { PdfNameAt(s[1..], i - 1); }
      PdfNameAtSkip(s, i);
    }
  }

  /** The renaming is, as a whole, the reference definition applied at every position. */
  lemma PdfNameIsRenamed(s: string)
    ensures PdfName(s) == seq(|s|, i requires 0 <= i < |s| => RenamedAt(s, i))
  {
    forall i | 0 <= i < |s| ensures PdfName(s)[i] == RenamedAt(s, i) { PdfNameAt(s, i); }
    if s != [] { PdfNameAt(s, 0); }
  }

  /** A name without any `.txt` in it is returned unchanged. */
  lemma PdfNameUnchanged(s: string)
    requires forall p :: 0 <= p < |s| ==> !TxtAt(s, p)
    ensures PdfName(s) == s
  {
    PdfNameIsRenamed(s);
  }

  /** A name ending in `.txt` gives a name ending in `.pdf`; the length is kept. */
  lemma PdfNameOfTxtSuffix(s: string)
    requires |s| >= 4 && s[|s| - 4..] == ".txt"
    ensures |PdfName(s)| == |s| && PdfName(s)[|s| - 4..] == ".pdf"
  {
    var n := |s|;
    assert TxtAt(s, n - 4);
    PdfNameAt(s, n - 4);
    PdfNameAt(s, n - 3);
    PdfNameAt(s, n - 2);
    PdfNameAt(s, n - 1);
  }

  /**
   * The renaming is case-sensitive: a name ending in `.TXT` keeps that
   * ending, even though the extension check accepts it.
   */
  lemma PdfNameOfUpperTxtSuffix(s: string)
    requires |s| >= 4 && s[|s| - 4..] == ".TXT"
    ensures AllowedFile(s)
    ensures |PdfName(s)| == |s| && PdfName(s)[|s| - 4..] == ".TXT"
  {
    var n := |s|;
    AllowedFileIff(s);
    assert s[n - 4] == '.' && s[n - 3] == 'T' && s[n - 2] == 'X' && s[n - 1] == 'T';
    PdfNameAt(s, n - 4);
    PdfNameAt(s, n - 3);
    PdfNameAt(s, n - 2);
    PdfNameAt(s, n - 1);
  }

  /** Appending `.txt` or `.TXT` cannot create an occurrence of `.txt` across the join. */
  lemma TxtAtAppend(stem: string, ext: string, p: int)
    requires ext == ".txt" || ext == ".TXT"
    requires 0 <= p < |stem|
    ensures TxtAt(stem + ext, p) <==> TxtAt(stem, p)
  {
    var s := stem + ext;
    if p + 4 > |stem| && p + 4 <= |s| {
      assert s[|stem|] == '.';
    }
  }

  /** Before the join, the reference renaming of `stem + ext` is that of `stem`. */
  lemma RenamedAtStem(stem: string, ext: string, i: nat)
    requires ext == ".txt" || ext == ".TXT"
    requires i < |stem|
    ensures RenamedAt(stem + ext, i) == RenamedAt(stem, i)
  {
    TxtAtAppend(stem, ext, i);
    if i >= 1 { TxtAtAppend(stem, ext, i - 1); }
    if i >= 2 { TxtAtAppend(stem, ext, i - 2); }
    if i >= 3 { TxtAtAppend(stem, ext, i - 3); }
  }

  /** After the join, the reference renaming turns `.txt` into `.pdf` and keeps `.TXT`. */
  lemma RenamedAtExt(stem: string, ext: string, m: nat)
    requires ext == ".txt" || ext == ".TXT"
    requires m < 4
    ensures RenamedAt(stem + ext, |stem| + m) == (if ext == ".txt" then ".pdf" else ".TXT")[m]
  {
    var n := |stem|;
    var s := stem + ext;
    assert s[n + m] == ext[m];
    assert ext == ".txt" ==> TxtAt(s, n);
    if n >= 1 { TxtAtAppend(stem, ext, n - 1); }
    if n >= 2 { TxtAtAppend(stem, ext, n - 2); }
    if n >= 3 { TxtAtAppend(stem, ext, n - 3); }
  }

  /**
   * Renaming a name that ends in an extension renames the stem on its own:
   * `.txt` becomes `.pdf`, `.TXT` stays as it is.
   */
  lemma PdfNameAppend(stem: string, ext: string)
    requires ext == ".txt" || ext == ".TXT"
    ensures PdfName(stem + ext) == PdfName(stem) + (if ext == ".txt" then ".pdf" else ".TXT")
  {
    var s := stem + ext;
    var n := |stem|;
    var tail := if ext == ".txt" then ".pdf" else ".TXT";
    var r := PdfName(s);
    var expected := PdfName(stem) + tail;
    assert |r| == |expected|;
    forall i | 0 <= i < |s| ensures r[i] == expected[i] {
      PdfNameAt(s, i);
      if i < n {
        PdfNameAt(stem, i);
        RenamedAtStem(stem, ext, i);
      } else {
        RenamedAtExt(stem, ext, i - n);
      }
    }
  }

  /** The renaming of the example file `notes.txt`. */
  lemma PdfNameOfNotes(stem: string)
    requires stem == "notes"
    ensures PdfName(stem + ".txt") == "notes.pdf"
  {
    PdfNameUnchanged(stem);
    PdfNameAppend(stem, ".txt");
  }

  /** Every occurrence is replaced, not only the final extension: `a.txt.txt` becomes `a.pdf.pdf`. */
  lemma PdfNameReplacesEveryOccurrence(stem: string)
    requires stem == "a"
    ensures PdfName(stem + ".txt" + ".txt") == "a.pdf.pdf"
  {
    PdfNameUnchanged(stem);
    PdfNameAppend(stem, ".txt");
    PdfNameAppend(stem + ".txt", ".txt");
  }

  /** An accepted upper-case name is not renamed at all: `A.TXT` stays `A.TXT`. */
  lemma PdfNameKeepsUpperCase(stem: string)
    requires stem == "A"
    ensures AllowedFile(stem + ".TXT") && PdfName(stem + ".TXT") == "A.TXT"
  {
    AllowedFileIff(stem + ".TXT");
    PdfNameUnchanged(stem);
    PdfNameAppend(stem, ".TXT");
  }
}
