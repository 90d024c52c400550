/** The export components `src/components/ExportModal.tsx` and
    `src/components/ExportMenu.tsx`. Both turn Markdown into Word paragraphs
    with the same line-prefix classifier (written out twice in the source,
    defined once here), and both save files named after the document with a
    format extension. Blob construction, the Word packer, `saveAs` and the
    PDF renderer are outside the model: a saved file is recorded as a
    `Download` in the component's `downloads` field. */
module Export {
  import opened Wrappers
  import opened Text

  datatype Format = Txt | Md | Pdf | Docx

  /** One Word paragraph as `exportAsDocx` builds it. */
  datatype Paragraph =
    | Heading(level: nat, text: string)
    | Bullet(text: string)
    | Bold(text: string)
    | Empty
    | Plain(text: string)

  datatype Payload = TextFile(body: string) | MarkdownFile(body: string) | PdfFile | WordFile(paragraphs: seq<Paragraph>)

  datatype Download = Download(name: string, payload: Payload)

  function Hashes(level: nat): (r: string)
    ensures |r| == level && forall i | 0 <= i < level :: r[i] == '#'
  {
    seq(level, _ => '#')
  }

  /** `line.slice(2, -2)`: empty when the line is shorter than four. */
  function Inner(line: string): (r: string)
    ensures |line| >= 4 ==> line == line[..2] + r + line[|line| - 2..]
    ensures |line| < 4 ==> r == ""
  {
    if |line| >= 4 then line[2..|line| - 2] else ""
  }

  /** The per-line branch chain of `exportAsDocx`. Every paragraph, put back
      behind the marker it was recognised by, is the line it came from;
      only an empty paragraph forgets its (white-space) text. */
  function ClassifyLine(line: string): (p: Paragraph)
    ensures p.Heading? ==> 1 <= p.level <= 3 && line == Hashes(p.level) + " " + p.text
    ensures p.Bullet? ==> line == "- " + p.text || line == "* " + p.text
    ensures p.Bold? ==> StartsWith(line, "**") && EndsWith(line, "**")
    ensures p.Bold? && |line| >= 4 ==> line == "**" + p.text + "**"
    ensures p.Bold? && |line| < 4 ==> p.text == ""
    ensures p.Empty? ==> AllSpace(line)
    ensures p.Plain? ==> p.text == line && !AllSpace(line)
  {
    if StartsWith(line, "# ") then Heading(1, line[2..])
    else if StartsWith(line, "## ") then Heading(2, line[3..])
    else if StartsWith(line, "### ") then Heading(3, line[4..])
    else if StartsWith(line, "- ") || StartsWith(line, "* ") then Bullet(line[2..])
    else if StartsWith(line, "**") && EndsWith(line, "**") then Bold(Inner(line))
    else
      TrimEmptyIffAllSpace(line);
      if Trim(line) == "" then Empty else Plain(line)
  }

  /** A heading line of any depth is read back at that depth: no shallower
      heading prefix catches a deeper one. */
  lemma HeadingRoundTrip(level: nat, t: string)
    requires 1 <= level <= 3
    ensures ClassifyLine(Hashes(level) + " " + t) == Heading(level, t)
  {
    var line := Hashes(level) + " " + t;
    assert line[level] == ' ';
    assert line[level + 1..] == t;
    if level >= 2 {
      assert line[1] == '#';
    }
    if level == 3 {
      assert line[2] == '#';
    }
  }

  lemma BulletRoundTrip(marker: char, t: string)
    requires marker == '-' || marker == '*'
    ensures ClassifyLine([marker, ' '] + t) == Bullet(t)
  {
    var line := [marker, ' '] + t;
    assert line[..2] == [marker, ' '];
    assert line[2..] == t;
  }

  /** Text between two "**" markers is a bold run of exactly that text. */
  lemma BoldRoundTrip(t: string)
    ensures ClassifyLine("**" + t + "**") == Bold(t)
  {
    var line := "**" + t + "**";
    assert line[0] == '*' && line[1] == '*';
    assert !StartsWith(line, "# ") && !StartsWith(line, "## ") && !StartsWith(line, "### ");
    assert !StartsWith(line, "- ") && !StartsWith(line, "* ");
    assert line[..2] == "**";
    assert line[|line| - 2..] == "**";
    assert line[2..|line| - 2] == t;
  }

  /** A line none of whose prefixes is recognised keeps its text: it is
      either a plain run of the whole line or, when blank, empty. */
  lemma UnmarkedLine(line: string)
    requires !StartsWith(line, "#") && !StartsWith(line, "-") && !StartsWith(line, "*")
    ensures AllSpace(line) ==> ClassifyLine(line) == Empty
    ensures !AllSpace(line) ==> ClassifyLine(line) == Plain(line)
  {
    if |line| >= 2 {
      assert line[..1] == line[..2][..1];
    }
  }

  /** The paragraphs for a list of lines, in order. */
  function Classified(lines: seq<string>): (r: seq<Paragraph>)
    ensures |r| == |lines|
    ensures forall k | 0 <= k < |lines| :: r[k] == ClassifyLine(lines[k])
  {
    if lines == [] then [] else Classified(lines[..|lines| - 1]) + [ClassifyLine(lines[|lines| - 1])]
  }

  /** What `exportAsDocx` puts in the document for `content`. */
  function DocxParagraphs(content: string): seq<Paragraph> {
    Classified(Split(content, '\n'))
  }

  /** One paragraph per element of `content.split("\n")`, in order, so one
      more paragraph than there are line breaks; the lines are exactly the
      content cut at its line breaks. */
  lemma OneParagraphPerLine(content: string)
    ensures |DocxParagraphs(content)| == Count(content, '\n') + 1
    ensures Join(Split(content, '\n'), '\n') == content
    ensures forall k | 0 <= k < |Split(content, '\n')| ::
      DocxParagraphs(content)[k] == ClassifyLine(Split(content, '\n')[k])
  {
    SplitJoin(content, '\n');
  }

  /** The `for (const line of lines)` loop of `exportAsDocx`, which pushes
      one paragraph per line. Both components run it. */
  method BuildParagraphs(content: string) returns (children: seq<Paragraph>)
    ensures children == DocxParagraphs(content)
  {
    var lines := Split(content, '\n');
    children := [];
    for i := 0 to |lines|
      invariant children == Classified(lines[..i])
    {
      assert lines[..i + 1][..i] == lines[..i];
      children := children + [ClassifyLine(lines[i])];
    }
    assert lines[..|lines|] == lines;
  }

  function Extension(f: Format): string {
    match f
    case Txt => ".txt"
    case Md => ".md"
    case Pdf => ".pdf"
    case Docx => ".docx"
  }

  /** `${filename}.txt` and its siblings. */
  function FileName(filename: string, f: Format): (r: string)
    ensures StartsWith(r, filename) && EndsWith(r, Extension(f))
    ensures |r| == |filename| + |Extension(f)|
  {
    filename + Extension(f)
  }

  /** The four formats save under four different names. */
  lemma FileNamesDistinct(filename: string, f: Format, g: Format)
    requires f != g
    ensures FileName(filename, f) != FileName(filename, g)
  {
    assert FileName(filename, f)[|filename|..] == Extension(f);
    assert FileName(filename, g)[|filename|..] == Extension(g);
  }

  /** The export dialog: a selected format, the `isExporting` and
      `exportComplete` flags, and the files it has saved. */
  class ExportModal {
    const content: string
    const filename: string
    var selectedFormat: Option<Format>
    var isExporting: bool
    var exportComplete: bool
    var downloads: seq<Download>

    constructor (content: string, filename: string)
      ensures this.content == content && this.filename == filename
      ensures selectedFormat == None && !isExporting && !exportComplete && downloads == []
    {
      this.content := content;
      this.filename := filename;
      selectedFormat, isExporting, exportComplete, downloads := None, false, false, [];
    }

    method Select(f: Format)
      modifies this`selectedFormat
      ensures selectedFormat == Some(f)
    {
      selectedFormat := Some(f);
    }

    /** `handleExport`. Nothing happens without a selected format. The PDF
        branch saves nothing when the page has no preview, yet the export is
        still reported complete; a throwing PDF or Word step (`fails`) saves
        nothing and leaves `exportComplete` as it was. `isExporting` is
        cleared in every case. */
    method HandleExport(hasPreview: bool, fails: bool)
      modifies this`isExporting, this`exportComplete, this`downloads
      ensures selectedFormat.None? ==>
        isExporting == old(isExporting) && exportComplete == old(exportComplete) && downloads == old(downloads)
      ensures selectedFormat.Some? ==> !isExporting
      ensures selectedFormat == Some(Txt) ==>
        exportComplete && downloads == old(downloads) + [Download(FileName(filename, Txt), TextFile(content))]
      ensures selectedFormat == Some(Md) ==>
        exportComplete && downloads == old(downloads) + [Download(FileName(filename, Md), MarkdownFile(content))]
      ensures selectedFormat == Some(Pdf) && !hasPreview ==> exportComplete && downloads == old(downloads)
      ensures selectedFormat == Some(Pdf) && hasPreview && !fails ==>
        exportComplete && downloads == old(downloads) + [Download(FileName(filename, Pdf), PdfFile)]
      ensures selectedFormat == Some(Docx) && !fails ==>
        exportComplete && downloads == old(downloads) + [Download(FileName(filename, Docx), WordFile(DocxParagraphs(content)))]
      ensures (selectedFormat == Some(Docx) || (selectedFormat == Some(Pdf) && hasPreview)) && fails ==>
        exportComplete == old(exportComplete) && downloads == old(downloads)
    {
      if selectedFormat.None? {
        return;
      }
      isExporting := true;
      var completed := true;
      match selectedFormat.value {
        case Txt =>
          downloads := downloads + [Download(FileName(filename, Txt), TextFile(content))];
        case Md =>
          downloads := downloads + [Download(FileName(filename, Md), MarkdownFile(content))];
        case Pdf =>
          if hasPreview {
            if fails {
              completed := false;
            } else {
              downloads := downloads + [Download(FileName(filename, Pdf), PdfFile)];
            }
          }
        case Docx =>
          var children := BuildParagraphs(content);
          if fails {
            completed := false;
          } else {
            downloads := downloads + [Download(FileName(filename, Docx), WordFile(children))];
          }
      }
      if completed {
        exportComplete := true;
      }
      isExporting := false;
    }
  }

  /** The drop-down export menu: its open flag and the files it has saved. */
  class ExportMenu {
    const content: string
    const filename: string
    var isOpen: bool
    var downloads: seq<Download>

    /** An absent `filename` prop defaults to "document". */
    constructor (content: string, filename: Option<string>)
      ensures this.content == content && this.filename == filename.GetOr("document")
      ensures !isOpen && downloads == []
    {
      this.content := content;
      this.filename := filename.GetOr("document");
      isOpen, downloads := false, [];
    }

    /** The header button. */
    method Toggle()
      modifies this`isOpen
      ensures isOpen == !old(isOpen)
    {
      isOpen := !isOpen;
    }

    /** `handleExport(format)`. Text, Markdown and Word exports save their
        file and close the menu. The PDF export returns with the menu still
        open when the page has no preview; otherwise it closes the menu
        whether or not generation throws. A throwing Word step is not
        caught, so it saves nothing and leaves the menu as it was. */
    method HandleExport(f: Format, hasPreview: bool, fails: bool)
      modifies this`isOpen, this`downloads
      ensures f == Txt ==> !isOpen && downloads == old(downloads) + [Download(FileName(filename, Txt), TextFile(content))]
      ensures f == Md ==> !isOpen && downloads == old(downloads) + [Download(FileName(filename, Md), MarkdownFile(content))]
      ensures f == Pdf && !hasPreview ==> isOpen == old(isOpen) && downloads == old(downloads)
      ensures f == Pdf && hasPreview ==> !isOpen
      ensures f == Pdf && hasPreview && !fails ==> downloads == old(downloads) + [Download(FileName(filename, Pdf), PdfFile)]
      ensures f == Pdf && fails ==> downloads == old(downloads)
      ensures f == Docx && !fails ==>
        !isOpen && downloads == old(downloads) + [Download(FileName(filename, Docx), WordFile(DocxParagraphs(content)))]
      ensures f == Docx && fails ==> isOpen == old(isOpen) && downloads == old(downloads)
    {
      match f {
        case Txt =>
          downloads := downloads + [Download(FileName(filename, Txt), TextFile(content))];
          isOpen := false;
        case Md =>
          downloads := downloads + [Download(FileName(filename, Md), MarkdownFile(content))];
          isOpen := false;
        case Pdf =>
          if !hasPreview {
            return;
          }
          if !fails {
            downloads := downloads + [Download(FileName(filename, Pdf), PdfFile)];
          }
          isOpen := false;
        case Docx =>
          var children := BuildParagraphs(content);
          if !fails {
            downloads := downloads + [Download(FileName(filename, Docx), WordFile(children))];
            isOpen := false;
          }
      }
    }
  }
}
