/**
 * The content part of `convert_to_pdf`: the decoded text is split into
 * lines the way `readlines()` does, and each line becomes one text cell of
 * the PDF document, stripped of surrounding white space; text with no line
 * at all becomes the single placeholder cell.
 */
module Conversion {
  import opened Text

  /** The cell written for a file that has no lines. */
  const EmptyMessage: string := "The file is empty."

  /** Index of the first newline of `s`, or `|s|` if there is none. */
  function NewlineIndex(s: string): (k: nat)
    ensures k <= |s|
    ensures k < |s| ==> s[k] == '\n'
    ensures '\n' !in s[..k]
    decreases |s|
  {
    if s == [] || s[0] == '\n' then 0
    else
      var k := 1 + NewlineIndex(s[1..]);
      assert s[..k] == [s[0]] + s[1..][..k - 1];
      k
  }

  /** The lines concatenated: what `''.join(lines)` gives. */
  function Concat(lines: seq<string>): string {
    if lines == [] then [] else lines[0] + Concat(lines[1..])
  }

  /** A line as `readlines()` returns it: non-empty, with no newline except possibly as its last character. */
  predicate IsLine(line: string) {
    line != [] && '\n' !in line[..|line| - 1]
  }

  /** Every line is a line, and every line but the last ends with its newline. */
  predicate WellFormed(lines: seq<string>) {
    (forall i :: 0 <= i < |lines| ==> IsLine(lines[i])) &&
    (forall i :: 0 <= i < |lines| - 1 ==> lines[i][|lines[i]| - 1] == '\n')
  }

  /**
   * `readlines()` on text whose line terminator is `\n`: each line keeps its
   * terminator; a last line without one is kept as it is.
   */
  function ReadLines(text: string): (lines: seq<string>)
    ensures lines == [] <==> text == []
    decreases |text|
  {
    if text == [] then []
    else
      var k := NewlineIndex(text);
      if k < |text| then [text[..k + 1]] + ReadLines(text[k + 1..]) else [text]
  }

  /** Concatenating the lines gives back the text exactly. */
  lemma {:induction false} ReadLinesConcat(text: string)
    ensures Concat(ReadLines(text)) == text
    decreases |text|
  {
    if text != [] {
      var k := NewlineIndex(text);
      var lines := ReadLines(text);
      if k < |text| {
        ReadLinesConcat(text[k + 1..]);
        assert lines[1..] == ReadLines(text[k + 1..]);
        assert text == text[..k + 1] + text[k + 1..];
      } else {
        assert lines[1..] == [];
      }
    }
  }

  /** The lines are well formed: no empty line, no inner newline, each but the last terminated. */
  lemma {:induction false} ReadLinesWellFormed(text: string)
    ensures WellFormed(ReadLines(text))
    decreases |text|
  {
    if text != [] {
      var k := NewlineIndex(text);
      var lines := ReadLines(text);
      if k < |text| {
        var line := text[..k + 1];
        var rest := ReadLines(text[k + 1..]);
        ReadLinesWellFormed(text[k + 1..]);
        assert line[..|line| - 1] == text[..k];
        assert lines == [line] + rest;
        forall i | 0 <= i < |lines| ensures IsLine(lines[i]) {
          if i > 0 { assert lines[i] == rest[i - 1]; }
        }
        forall i | 0 <= i < |lines| - 1 ensures lines[i][|lines[i]| - 1] == '\n' {
          if i > 0 { assert lines[i] == rest[i - 1]; }
        }
      } else {
        assert text[..|text| - 1] == text[..k][..|text| - 1];
        assert lines == [text];
      }
    }
  }

  /**
   * `readlines()` is the only way to cut text into well-formed lines: any
   * well-formed sequence of lines whose concatenation is `text` is
   * `ReadLines(text)`.
   */
  lemma {:induction false} ReadLinesUnique(text: string, lines: seq<string>)
    requires Concat(lines) == text && WellFormed(lines)
    ensures lines == ReadLines(text)
    decreases |text|
  {
    if lines != [] {
      var line := lines[0];
      var rest := lines[1..];
      assert text == line + Concat(rest);
      var k := NewlineIndex(text);
      assert WellFormed(rest) by {
        forall i | 0 <= i < |rest| ensures IsLine(rest[i]) { assert rest[i] == lines[i + 1]; }
        forall i | 0 <= i < |rest| - 1 ensures rest[i][|rest[i]| - 1] == '\n' { assert rest[i] == lines[i + 1]; }
      }
      assert text[..|line| - 1] == line[..|line| - 1];
      if rest == [] {
        assert Concat(rest) == [];
        assert text == line;
        if k == |text| - 1 { assert ReadLines(text) == [text[..k + 1]] + ReadLines(text[k + 1..]); }
      } else {
        assert line[|line| - 1] == '\n';
        assert text[..|line|][..|line| - 1] == text[..|line| - 1];
        assert k == |line| - 1;
        assert text[k + 1..] == Concat(rest);
        ReadLinesUnique(text[k + 1..], rest);
      }
    }
  }

  /** The last line ends with a newline exactly when the text does. */
  lemma LastLineTerminated(text: string)
    requires text != []
    ensures var lines := ReadLines(text);
            var last := lines[|lines| - 1];
            last != [] && (last[|last| - 1] == '\n' <==> text[|text| - 1] == '\n')
  {
    var lines := ReadLines(text);
    ReadLinesConcat(text);
    ReadLinesWellFormed(text);
    ConcatLast(lines);
  }

  /** The last character of a concatenation of lines is the last character of the last line. */
  lemma {:induction false} ConcatLast(lines: seq<string>)
    requires lines != [] && lines[|lines| - 1] != []
    ensures var last := lines[|lines| - 1];
            var c := Concat(lines);
            |c| >= |last| && c[|c| - 1] == last[|last| - 1]
  {
    if |lines| > 1 {
      assert lines[1..][|lines| - 2] == lines[|lines| - 1];
      ConcatLast(lines[1..]);
    }
  }

  /** Each line stripped of surrounding white space, in order. */
  function StripAll(lines: seq<string>): seq<string> {
    seq(|lines|, i requires 0 <= i < |lines| => Strip(lines[i]))
  }

  /** The cells `convert_to_pdf` writes, in order, for the decoded file text. */
  function Cells(text: string): (cells: seq<string>)
    ensures |cells| >= 1
    ensures text != [] ==> |cells| == |ReadLines(text)|
  {
    var lines := ReadLines(text);
    if lines == [] then [EmptyMessage] else StripAll(lines)
  }

  /**
   * Empty text gives exactly the placeholder; any other text gives one cell
   * per line, the line stripped, in the order of the lines, and no cell
   * has a newline or white space at either end.
   */
  lemma CellsShape(text: string)
    ensures text == [] ==> Cells(text) == [EmptyMessage]
    ensures text != [] ==> |Cells(text)| == |ReadLines(text)| >= 1
    ensures text != [] ==> forall i :: 0 <= i < |Cells(text)| ==>
              Cells(text)[i] == Strip(ReadLines(text)[i]) && Trimmed(Cells(text)[i]) && '\n' !in Cells(text)[i]
  {
    var lines := ReadLines(text);
    ReadLinesWellFormed(text);
    if text != [] {
      forall i | 0 <= i < |lines| ensures '\n' !in Strip(lines[i]) {
        StripHasNoNewline(lines[i]);
      }
    }
  }

  /** A stripped line contains no newline at all. */
  lemma StripHasNoNewline(line: string)
    requires IsLine(line)
    ensures '\n' !in Strip(line)
  {
    var i := ScanForward(line, 0);
    var j := ScanBackward(line, i, |line|);
    var r := line[i..j];
    // Only the last character of line may be the newline, and a newline is
    // white space, which Strip does not keep at the end.
    forall m | 0 <= m < |r| ensures r[m] != '\n' {
      if i + m < |line| - 1 {
        assert line[..|line| - 1][i + m] == line[i + m];
      } else {
        assert m == |r| - 1 && !IsSpace(r[m]);
      }
    }
  }

  /** The text a sequence of lines is read from when each is written followed by a newline. */
  function JoinLines(ls: seq<string>): string {
    if ls == [] then [] else ls[0] + "\n" + JoinLines(ls[1..])
  }

  /**
   * Textual fidelity: lines that carry no newline and no white space at
   * either end, written with a newline after each, come back as the cells,
   * unchanged and in order; writing no line at all gives the placeholder.
   */
  lemma {:induction false} CellsOfJoinedLines(ls: seq<string>)
    requires forall i :: 0 <= i < |ls| ==> '\n' !in ls[i] && Trimmed(ls[i])
    ensures Cells(JoinLines(ls)) == if ls == [] then [EmptyMessage] else ls
  {
    var lines := seq(|ls|, i requires 0 <= i < |ls| => ls[i] + "\n");
    JoinIsConcat(ls);
    assert WellFormed(lines) by {
      forall i | 0 <= i < |lines| ensures IsLine(lines[i]) && lines[i][|lines[i]| - 1] == '\n' {
        assert lines[i][..|lines[i]| - 1] == ls[i];
      }
    }
    ReadLinesUnique(JoinLines(ls), lines);
    forall i | 0 <= i < |ls| ensures Strip(lines[i]) == ls[i] {
      StripLineAndNewline(ls[i]);
    }
  }

  /** JoinLines puts a newline after every line. */
  lemma {:induction false} JoinIsConcat(ls: seq<string>)
    ensures JoinLines(ls) == Concat(seq(|ls|, i requires 0 <= i < |ls| => ls[i] + "\n"))
  {
    var lines := seq(|ls|, i requires 0 <= i < |ls| => ls[i] + "\n");
    if ls != [] {
      JoinIsConcat(ls[1..]);
      assert lines[1..] == seq(|ls[1..]|, i requires 0 <= i < |ls[1..]| => ls[1..][i] + "\n");
    }
  }

  /** A trimmed line followed by its newline strips back to the line. */
  lemma StripLineAndNewline(l: string)
    requires '\n' !in l && Trimmed(l)
    ensures Strip(l + "\n") == l
  {
    var t := l + "\n";
    assert t[0..|l|] == l;
    assert IsSpace(t[|l|]);
    StripIsTrim(t, 0, |l|);
  }

  /**
   * The cells of the example file with lines `Hello`, `World`; the empty
   * text gives the placeholder; a single blank line gives one empty cell.
   */
  lemma CellsExample(hello: string, world: string)
    requires hello == "Hello" && world == "World"
    ensures Cells(hello + "\n" + world + "\n") == ["Hello", "World"]
    ensures Cells("") == [EmptyMessage]
    ensures Cells("\n") == [""]
  {
    assert JoinLines([hello, world]) == hello + "\n" + world + "\n" by {
      assert JoinLines([hello, world][1..]) == world + "\n" + JoinLines([]);
    }
    CellsOfJoinedLines([hello, world]);
    assert JoinLines([""]) == "\n";
    CellsOfJoinedLines([""]);
  }

  /** The PDF document being built: the text cells written so far, in order. */
  class Document {
    var cells: seq<string>

    /** A new document has no cells. */
    constructor ()
      ensures cells == []
    {
      cells := [];
    }

    /** `multi_cell`: writes one more text cell after the ones already there. */
    method MultiCell(txt: string)
      modifies this
      ensures cells == old(cells) + [txt]
    {
      cells := cells + [txt];
    }
  }

  /**
   * `convert_to_pdf` on the decoded file text: a new document, with the
   * placeholder cell if there are no lines, else one stripped cell per line.
   */
  method ConvertToPdf(text: string) returns (doc: Document)
    ensures fresh(doc)
    ensures doc.cells == Cells(text)
  {
    doc := new Document();
    var lines := ReadLines(text);
    if lines == [] {
      doc.MultiCell(EmptyMessage);
    } else {
      var i := 0;
      while i < |lines|
        invariant 0 <= i <= |lines|
        invariant doc.cells == StripAll(lines[..i])
      {
        var cell := Strip(lines[i]);
        assert StripAll(lines[..i + 1]) == StripAll(lines[..i]) + [cell];
        doc.MultiCell(cell);
        i := i + 1;
      }
      assert lines[..i] == lines;
    }
  }
}
