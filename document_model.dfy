/**
 * An abstract Word document and the pure meaning of the editing operations on it.
 *
 * The document body is a sequence of paragraphs and a sequence of tables. A
 * paragraph has a style name, a paragraph-format record and a sequence of runs;
 * a run has a text and a character-format record; its text is the concatenation
 * of its runs' texts. A table is a grid of cell texts with a column count.
 * Every format attribute is optional: `None` means "not set directly, inherited".
 *
 * The `WordEditor` class performs these edits step by step; the functions here
 * say what each edit yields, and the lemmas here say what those results mean.
 */
module DocumentModel {
  import opened Wrappers
  import opened Strings

  /** A run's underline: on, off, or one of the other underline kinds (by enum code). */
  datatype Underline = UnderlineOn | UnderlineOff | UnderlineKind(code: nat)

  /** Direct character formatting of a run; sizes are in EMU, colours as 24-bit RGB. */
  datatype RunFormat = RunFormat(
    bold: Option<bool>,
    italic: Option<bool>,
    underline: Option<Underline>,
    fontName: Option<string>,
    size: Option<nat>,
    colorRgb: Option<nat>,
    highlight: Option<nat>,
    strike: Option<bool>,
    subscript: Option<bool>,
    superscript: Option<bool>,
    allCaps: Option<bool>,
    smallCaps: Option<bool>,
    styleName: Option<string>)

  /** A run with no direct formatting, as a freshly added run has. */
  const NoRunFormat := RunFormat(None, None, None, None, None, None, None, None, None, None, None, None, None)

  /** Direct paragraph formatting; lengths in EMU, enums by code. */
  datatype ParagraphFormat = ParagraphFormat(
    alignment: Option<nat>,
    leftIndent: Option<int>,
    rightIndent: Option<int>,
    firstLineIndent: Option<int>,
    spaceBefore: Option<nat>,
    spaceAfter: Option<nat>,
    lineSpacing: Option<int>,
    lineSpacingRule: Option<nat>,
    keepTogether: Option<bool>,
    keepWithNext: Option<bool>,
    pageBreakBefore: Option<bool>,
    widowControl: Option<bool>)

  const NoParagraphFormat := ParagraphFormat(None, None, None, None, None, None, None, None, None, None, None, None)

  datatype Run = Run(text: string, format: RunFormat)

  datatype Paragraph = Paragraph(style: string, format: ParagraphFormat, runs: seq<Run>)

  /** A table: its column count and, per row, the texts of the row's cells. */
  datatype Table = Table(columnCount: nat, rows: seq<seq<string>>)

  datatype Document = Document(paragraphs: seq<Paragraph>, tables: seq<Table>)

  /** The style a paragraph gets when none is named. */
  const DefaultParagraphStyle := "Normal"

  /** The text of a paragraph: its runs' texts, concatenated. */
  function ParagraphText(p: Paragraph): string {
    RunsText(p.runs)
  }

  function RunsText(runs: seq<Run>): (r: string)
    ensures |runs| == 1 ==> r == runs[0].text
    ensures runs == [] ==> r == ""
  {
    if runs == [] then "" else RunsText(runs[..|runs| - 1]) + runs[|runs| - 1].text
  }

  /**
   * A paragraph created by `add_paragraph(text, style)` or
   * `insert_paragraph_before(text, style)`: the given style or the default one,
   * no direct format, and one unformatted run holding the text (none for "").
   */
  function NewParagraph(text: string, style: Option<string>): (p: Paragraph)
    ensures ParagraphText(p) == text
    ensures p.style == if style.Some? then style.value else DefaultParagraphStyle
    ensures p.format == NoParagraphFormat
    ensures forall r :: r in p.runs ==> r.format == NoRunFormat
  {
    Paragraph(style.GetOr(DefaultParagraphStyle), NoParagraphFormat,
              if text == "" then [] else [Run(text, NoRunFormat)])
  }

  /** The paragraphs a list of texts becomes, each with the default style. */
  function NewParagraphs(texts: seq<string>): (ps: seq<Paragraph>)
    ensures |ps| == |texts|
    ensures forall j :: 0 <= j < |texts| ==> ps[j] == NewParagraph(texts[j], None)
  {
    seq(|texts|, j requires 0 <= j < |texts| => NewParagraph(texts[j], None))
  }

  /** `get_paragraph_text(i)`: the text of paragraph `i`, or "" when `i` is out of range. */
  function GetParagraphText(d: Document, i: int): (r: string)
    ensures 0 <= i < |d.paragraphs| ==> r == ParagraphText(d.paragraphs[i])
    ensures !(0 <= i < |d.paragraphs|) ==> r == ""
  {
    if 0 <= i < |d.paragraphs| then ParagraphText(d.paragraphs[i]) else ""
  }

  /** `get_list_item_text(i)`: a list item is read as a paragraph. */
  function GetListItemText(d: Document, i: int): (r: string)
    ensures r == GetParagraphText(d, i)
  {
    GetParagraphText(d, i)
  }

  // ---------------------------------------------------------------------------
  // Paragraph deletion and insertion

  /** `paragraphs` without the one at `i`. */
  function RemoveAt(ps: seq<Paragraph>, i: nat): (r: seq<Paragraph>)
    requires i < |ps|
    ensures |r| == |ps| - 1
    ensures forall j :: 0 <= j < i ==> r[j] == ps[j]
    ensures forall j :: i <= j < |r| ==> r[j] == ps[j + 1]
  {
    ps[..i] + ps[i + 1..]
  }

  /** `paragraphs` with `p` placed at position `k`, everything from `k` on moving down one. */
  function InsertAt(ps: seq<Paragraph>, k: nat, p: Paragraph): (r: seq<Paragraph>)
    requires k <= |ps|
    ensures |r| == |ps| + 1 && r[k] == p
    ensures forall j :: 0 <= j < k ==> r[j] == ps[j]
    ensures forall j :: k < j < |r| ==> r[j] == ps[j - 1]
  {
    ps[..k] + [p] + ps[k..]
  }

  /**
   * The document after `delete_paragraph(i)`: without paragraph `i` when `i` is
   * in range, and unchanged otherwise.
   */
  function DeleteParagraph(d: Document, i: int): (r: Document)
    ensures r.tables == d.tables
    ensures 0 <= i < |d.paragraphs| ==> r.paragraphs == RemoveAt(d.paragraphs, i)
    ensures !(0 <= i < |d.paragraphs|) ==> r == d
  {
    if 0 <= i < |d.paragraphs| then d.(paragraphs := RemoveAt(d.paragraphs, i)) else d
  }

  /**
   * The document after `insert_paragraph_after(i, text, style)`: a new paragraph
   * right after paragraph `i` when `i` is in range, and unchanged otherwise.
   */
  function InsertParagraphAfter(d: Document, i: int, text: string, style: Option<string>): (r: Document)
    ensures r.tables == d.tables
    ensures 0 <= i < |d.paragraphs| ==> r.paragraphs == InsertAt(d.paragraphs, i + 1, NewParagraph(text, style))
    ensures !(0 <= i < |d.paragraphs|) ==> r == d
  {
    if 0 <= i < |d.paragraphs| then d.(paragraphs := InsertAt(d.paragraphs, i + 1, NewParagraph(text, style)))
    else d
  }

  // ---------------------------------------------------------------------------
  // Sections: a heading and the paragraphs under it

  /** The heading level a style name announces in its last word ("Heading 2" is level 2). */
  function ParseLevel(style: string): (r: Option<nat>)
    ensures r.Some? ==> IsDigits(LastField(style))
  {
    var w := LastField(style);
    if IsDigits(w) then Some(DecimalValue(w)) else None
  }

  /** A style name was given: Python treats `None` and `""` alike as absent. */
  predicate StyleGiven(styleName: Option<string>) {
    styleName.Some? && styleName.value != ""
  }

  /**
   * Whether paragraph `p` is the heading searched for: with a style name, its style
   * starts with that name and its text contains `headingText`; without one, its
   * text with surrounding whitespace stripped equals `headingText`.
   */
  predicate HeadingMatches(p: Paragraph, headingText: string, styleName: Option<string>) {
    if StyleGiven(styleName) then
      StartsWith(p.style, styleName.value) && Contains(ParagraphText(p), headingText)
    else
      headingText == Strip(ParagraphText(p))
  }

  /** The first paragraph at or after `from` that matches the heading, if any. */
  function FindHeading(ps: seq<Paragraph>, headingText: string, styleName: Option<string>, from: nat): (r: Option<nat>)
    requires from <= |ps|
    ensures r.Some? ==> from <= r.value < |ps| && HeadingMatches(ps[r.value], headingText, styleName)
    ensures r.Some? ==> forall j :: from <= j < r.value ==> !HeadingMatches(ps[j], headingText, styleName)
    ensures r.None? ==> forall j :: from <= j < |ps| ==> !HeadingMatches(ps[j], headingText, styleName)
    decreases |ps| - from
  {
    if from == |ps| then None
    else if HeadingMatches(ps[from], headingText, styleName) then Some(from)
    else
      var r := FindHeading(ps, headingText, styleName, from + 1);
      assert forall j :: from < j < |ps| && (r.None? || j < r.value) ==> !HeadingMatches(ps[j], headingText, styleName);
      r
  }

  /**
   * The level the section's own heading has, for the end test: only a heading
   * found through a given style name has one, and only when its style's last word
   * is a number.
   */
  function SectionLevel(heading: Paragraph, styleName: Option<string>): Option<nat> {
    if StyleGiven(styleName) then ParseLevel(heading.style) else None
  }

  /**
   * Whether paragraph `p` closes a section whose heading has level `level`: its
   * style starts with "Heading", and, when both levels are known, its level is at
   * most the section's (a heading of the same or a higher rank).
   */
  predicate EndsSection(p: Paragraph, level: Option<nat>) {
    StartsWith(p.style, "Heading")
    && (level.Some? && ParseLevel(p.style).Some? ==> ParseLevel(p.style).value <= level.value)
  }

  /** The first paragraph at or after `from` that ends the section, or the document length. */
  function SectionEnd(ps: seq<Paragraph>, level: Option<nat>, from: nat): (e: nat)
    requires from <= |ps|
    ensures from <= e <= |ps|
    ensures forall j :: from <= j < e ==> !EndsSection(ps[j], level)
    ensures e < |ps| ==> EndsSection(ps[e], level)
    decreases |ps| - from
  {
    if from == |ps| then |ps|
    else if EndsSection(ps[from], level) then from
    else SectionEnd(ps, level, from + 1)
  }

  /** A section: the heading's position and the position just past the section's last paragraph. */
  datatype Section = Section(start: nat, end: nat)

  /**
   * The section `replace_text_after_heading` works on: the first matching heading,
   * and its end as the end search finds it; none when no heading matches.
   */
  function LocateSection(ps: seq<Paragraph>, headingText: string, styleName: Option<string>): (r: Option<Section>)
    ensures r.Some? ==> r.value.start < r.value.end <= |ps|
  {
    match FindHeading(ps, headingText, styleName, 0)
    case None => None
    case Some(s) => Some(Section(s, SectionEnd(ps, SectionLevel(ps[s], styleName), s + 1)))
  }

  /**
   * The section found is the first matching heading and runs up to the first later
   * paragraph that ends it, or to the end of the document; there is no section
   * exactly when no paragraph matches.
   */
  lemma LocateSectionMeaning(ps: seq<Paragraph>, headingText: string, styleName: Option<string>)
    ensures var r := LocateSection(ps, headingText, styleName);
            && (r.None? <==> forall j :: 0 <= j < |ps| ==> !HeadingMatches(ps[j], headingText, styleName))
            && (r.Some? ==> HeadingMatches(ps[r.value.start], headingText, styleName))
            && (r.Some? ==> forall j :: 0 <= j < r.value.start ==> !HeadingMatches(ps[j], headingText, styleName))
            && (r.Some? ==> var lvl := SectionLevel(ps[r.value.start], styleName);
                  (forall j :: r.value.start < j < r.value.end ==> !EndsSection(ps[j], lvl))
                  && (r.value.end < |ps| ==> EndsSection(ps[r.value.end], lvl)))
  {
  }

  /**
   * The paragraphs with the body of section `sec` (everything strictly between the
   * heading and the end) replaced by `body`; the heading itself stays.
   */
  function SpliceSection(ps: seq<Paragraph>, sec: Section, body: seq<Paragraph>): (r: seq<Paragraph>)
    requires sec.start < sec.end <= |ps|
    ensures |r| == |ps| - (sec.end - sec.start - 1) + |body|
    ensures r[..sec.start + 1] == ps[..sec.start + 1]
    ensures r[sec.start] == ps[sec.start]
    ensures r[sec.start + 1..sec.start + 1 + |body|] == body
    ensures r[sec.start + 1 + |body|..] == ps[sec.end..]
  {
    ps[..sec.start + 1] + body + ps[sec.end..]
  }

  /**
   * The document after `replace_text_after_heading(headingText, texts, styleName)`:
   * unchanged when no heading matches; otherwise the section body is replaced by
   * one new paragraph per text, in order.
   */
  function ReplaceTextAfterHeading(d: Document, headingText: string, texts: seq<string>, styleName: Option<string>): (r: Document)
    ensures r.tables == d.tables
    ensures LocateSection(d.paragraphs, headingText, styleName).None? ==> r == d
  {
    match LocateSection(d.paragraphs, headingText, styleName)
    case None => d
    case Some(sec) => d.(paragraphs := SpliceSection(d.paragraphs, sec, NewParagraphs(texts)))
  }

  // ---------------------------------------------------------------------------
  // Paragraph text update

  /** `x` when set and truthy (for a name: non-empty), else unset. */
  function IfNonEmpty(x: Option<string>): Option<string> {
    if x.Some? && x.value != "" then x else None
  }

  /**
   * The format `update_paragraph_text` gives the new run, captured from the
   * paragraph's first run: bold, italic and underline only when exactly on or off;
   * font name and size only when truthy (non-empty, non-zero); every other
   * attribute whenever it is set; the character style only when it has a name.
   */
  function CarriedFormat(f: RunFormat): (r: RunFormat)
    ensures r.bold == f.bold && r.italic == f.italic
    ensures r.underline.Some? <==> f.underline in {Some(UnderlineOn), Some(UnderlineOff)}
    ensures r.underline.Some? ==> r.underline == f.underline
    ensures r.fontName == IfNonEmpty(f.fontName) && r.styleName == IfNonEmpty(f.styleName)
    ensures r.size.Some? <==> f.size.Some? && f.size.value != 0
    ensures r.size.Some? ==> r.size == f.size
    ensures r.colorRgb == f.colorRgb && r.highlight == f.highlight && r.strike == f.strike
    ensures r.subscript == f.subscript && r.superscript == f.superscript
    ensures r.allCaps == f.allCaps && r.smallCaps == f.smallCaps
  {
    RunFormat(
      bold := f.bold,
      italic := f.italic,
      underline := if f.underline == Some(UnderlineOn) || f.underline == Some(UnderlineOff) then f.underline else None,
      fontName := IfNonEmpty(f.fontName),
      size := if f.size.Some? && f.size.value != 0 then f.size else None,
      colorRgb := f.colorRgb,
      highlight := f.highlight,
      strike := f.strike,
      subscript := f.subscript,
      superscript := f.superscript,
      allCaps := f.allCaps,
      smallCaps := f.smallCaps,
      styleName := IfNonEmpty(f.styleName))
  }

  /** The single run a paragraph holds after its text is replaced by `text`. */
  function ReplacementRun(p: Paragraph, text: string, preserveStyle: bool): Run {
    if preserveStyle && p.runs != [] then Run(text, CarriedFormat(p.runs[0].format))
    else Run(text, NoRunFormat)
  }

  /**
   * The document after `update_paragraph_text(i, text, preserveStyle)`: paragraph
   * `i` holds exactly one run with the new text (formatted from its old first run
   * when style is preserved), keeping its style and paragraph format; an
   * out-of-range index changes nothing.
   */
  function UpdateParagraphText(d: Document, i: int, text: string, preserveStyle: bool): (r: Document)
    ensures r.tables == d.tables && |r.paragraphs| == |d.paragraphs|
    ensures forall j :: 0 <= j < |d.paragraphs| && j != i ==> r.paragraphs[j] == d.paragraphs[j]
    ensures 0 <= i < |d.paragraphs| ==>
              && ParagraphText(r.paragraphs[i]) == text
              && |r.paragraphs[i].runs| == 1
              && r.paragraphs[i].style == d.paragraphs[i].style
              && r.paragraphs[i].format == d.paragraphs[i].format
    ensures 0 <= i < |d.paragraphs| && preserveStyle && d.paragraphs[i].runs != [] ==>
              r.paragraphs[i].runs[0].format == CarriedFormat(d.paragraphs[i].runs[0].format)
    ensures 0 <= i < |d.paragraphs| && (!preserveStyle || d.paragraphs[i].runs == []) ==>
              r.paragraphs[i].runs[0].format == NoRunFormat
    ensures !(0 <= i < |d.paragraphs|) ==> r == d
  {
    if 0 <= i < |d.paragraphs| then
      var p := d.paragraphs[i];
      d.(paragraphs := d.paragraphs[i := p.(runs := [ReplacementRun(p, text, preserveStyle)])])
    else d
  }

  /** Paragraph `i` exists and has a run `r`. */
  predicate RunExists(d: Document, i: int, r: int) {
    0 <= i < |d.paragraphs| && 0 <= r < |d.paragraphs[i].runs|
  }

  /**
   * The run-level text update the workflow applier relies on: run `r` of paragraph
   * `i` takes the text `text` and keeps its formatting; everything else stays. A
   * missing run changes nothing.
   */
  function UpdateRunText(d: Document, i: int, r: int, text: string): (res: Document)
    ensures res.tables == d.tables && |res.paragraphs| == |d.paragraphs|
    ensures forall j :: 0 <= j < |d.paragraphs| && j != i ==> res.paragraphs[j] == d.paragraphs[j]
    ensures !RunExists(d, i, r) ==> res == d
    ensures RunExists(d, i, r) ==>
              var p, q := d.paragraphs[i], res.paragraphs[i];
              && q.style == p.style && q.format == p.format && |q.runs| == |p.runs|
              && q.runs[r] == Run(text, p.runs[r].format)
              && (forall x :: 0 <= x < |p.runs| && x != r ==> q.runs[x] == p.runs[x])
  {
    if RunExists(d, i, r) then
      var p := d.paragraphs[i];
      d.(paragraphs := d.paragraphs[i := p.(runs := p.runs[r := p.runs[r].(text := text)])])
    else d
  }

  /**
   * With style preserved, the new run keeps every attribute the old first run set
   * explicitly, except a falsy font name or size and an underline kind other than
   * plain on/off; it sets nothing the old first run left unset.
   */
  lemma PreservedFormat(d: Document, i: int, text: string)
    requires 0 <= i < |d.paragraphs| && d.paragraphs[i].runs != []
    ensures var f := d.paragraphs[i].runs[0].format;
            var g := UpdateParagraphText(d, i, text, true).paragraphs[i].runs[0].format;
            && (f.bold.Some? ==> g.bold == f.bold)
            && (f.italic.Some? ==> g.italic == f.italic)
            && (f.underline in {Some(UnderlineOn), Some(UnderlineOff)} ==> g.underline == f.underline)
            && (f.fontName.Some? && f.fontName.value != "" ==> g.fontName == f.fontName)
            && (f.size.Some? && f.size.value != 0 ==> g.size == f.size)
            && (f.colorRgb.Some? ==> g.colorRgb == f.colorRgb)
            && (f.highlight.Some? ==> g.highlight == f.highlight)
            && (f.strike.Some? ==> g.strike == f.strike)
            && (f.subscript.Some? ==> g.subscript == f.subscript)
            && (f.superscript.Some? ==> g.superscript == f.superscript)
            && (f.allCaps.Some? ==> g.allCaps == f.allCaps)
            && (f.smallCaps.Some? ==> g.smallCaps == f.smallCaps)
            && (f.styleName.Some? && f.styleName.value != "" ==> g.styleName == f.styleName)
            && (f == NoRunFormat ==> g == NoRunFormat)
  {
  }

  // ---------------------------------------------------------------------------
  // Tables

  /**
   * The text of cell (`row`, `col`) of table `t`, or "" when the table, the row or
   * the column is out of range, or the row is shorter than the column count.
   */
  function GetTableCellText(d: Document, t: int, row: int, col: int): (r: string)
    ensures !(0 <= t < |d.tables| && 0 <= row < |d.tables[t].rows| && 0 <= col < d.tables[t].columnCount) ==> r == ""
    ensures (0 <= t < |d.tables| && 0 <= row < |d.tables[t].rows| && 0 <= col < |d.tables[t].rows[row]|
             && col < d.tables[t].columnCount) ==> r == d.tables[t].rows[row][col]
  {
    if 0 <= t < |d.tables| && 0 <= row < |d.tables[t].rows| && 0 <= col < d.tables[t].columnCount then
      var cells := d.tables[t].rows[row];
      if col < |cells| then cells[col] else ""
    else ""
  }

  /** Whether `update_table_cell_text(t, row, col, _)` finds the cell. */
  predicate CellExists(d: Document, t: int, row: int, col: int) {
    0 <= t < |d.tables| && 0 <= row < |d.tables[t].rows| && 0 <= col < d.tables[t].columnCount
    && col < |d.tables[t].rows[row]|
  }

  /**
   * The document after `update_table_cell_text(t, row, col, text)`: exactly that
   * cell holds `text` when it exists; otherwise nothing changes.
   */
  function UpdateTableCellText(d: Document, t: int, row: int, col: int, text: string): (r: Document)
    ensures r.paragraphs == d.paragraphs && |r.tables| == |d.tables|
    ensures !CellExists(d, t, row, col) ==> r == d
    ensures CellExists(d, t, row, col) ==>
              && GetTableCellText(r, t, row, col) == text
              && (forall u :: 0 <= u < |d.tables| && u != t ==> r.tables[u] == d.tables[u])
              && r.tables[t].columnCount == d.tables[t].columnCount
              && |r.tables[t].rows| == |d.tables[t].rows|
              && (forall y :: 0 <= y < |d.tables[t].rows| && y != row ==> r.tables[t].rows[y] == d.tables[t].rows[y])
              && |r.tables[t].rows[row]| == |d.tables[t].rows[row]|
              && (forall x :: 0 <= x < |d.tables[t].rows[row]| && x != col ==>
                    r.tables[t].rows[row][x] == d.tables[t].rows[row][x])
  {
    if CellExists(d, t, row, col) then
      var tb := d.tables[t];
      var newRow := tb.rows[row][col := text];
      d.(tables := d.tables[t := tb.(rows := tb.rows[row := newRow])])
    else d
  }

  /**
   * The document after `add_row_to_table(t)`: table `t` gains one row of empty
   * cells, one per column, at its end; an out-of-range table changes nothing.
   */
  function AddRowToTable(d: Document, t: int): (r: Document)
    ensures r.paragraphs == d.paragraphs && |r.tables| == |d.tables|
    ensures !(0 <= t < |d.tables|) ==> r == d
    ensures 0 <= t < |d.tables| ==>
              && (forall u :: 0 <= u < |d.tables| && u != t ==> r.tables[u] == d.tables[u])
              && r.tables[t].columnCount == d.tables[t].columnCount
              && |r.tables[t].rows| == |d.tables[t].rows| + 1
              && r.tables[t].rows[..|d.tables[t].rows|] == d.tables[t].rows
              && var last := r.tables[t].rows[|d.tables[t].rows|];
                 |last| == d.tables[t].columnCount && forall x :: 0 <= x < |last| ==> last[x] == ""
  {
    if 0 <= t < |d.tables| then
      var tb := d.tables[t];
      var blank := seq(tb.columnCount, _ => "");
      d.(tables := d.tables[t := tb.(rows := tb.rows + [blank])])
    else d
  }

  // ---------------------------------------------------------------------------
  // Formatting copies

  /** `a` when set, else `b`: "copy only if not None". */
  function Overlay<T>(a: Option<T>, b: Option<T>): (r: Option<T>)
    ensures a.Some? ==> r == a
    ensures a.None? ==> r == b
  {
    if a.Some? then a else b
  }

  /**
   * `copy_run_formatting(src, tgt)`: bold, italic, underline, font name, strike,
   * sub/superscript and caps are copied outright (an unset source value clears the
   * target's); size, colour and highlight only when the source sets them. A run
   * without a character style reports the document's default one, whose name is
   * set, and assigning the default style removes the target's; so the target
   * takes the source's style, or none, unless the source's style has an empty name.
   */
  function CopyRunFormatting(src: RunFormat, tgt: RunFormat): (r: RunFormat)
    ensures r.bold == src.bold && r.italic == src.italic && r.underline == src.underline
    ensures r.fontName == src.fontName && r.strike == src.strike
    ensures r.subscript == src.subscript && r.superscript == src.superscript
    ensures r.allCaps == src.allCaps && r.smallCaps == src.smallCaps
    ensures r.size == (if src.size.Some? then src.size else tgt.size)
    ensures r.colorRgb == (if src.colorRgb.Some? then src.colorRgb else tgt.colorRgb)
    ensures r.highlight == (if src.highlight.Some? then src.highlight else tgt.highlight)
    ensures src.styleName != Some("") ==> r.styleName == src.styleName
    ensures src.styleName == Some("") ==> r.styleName == tgt.styleName
  {
    tgt.(
      bold := src.bold,
      italic := src.italic,
      underline := src.underline,
      fontName := src.fontName,
      size := Overlay(src.size, tgt.size),
      colorRgb := Overlay(src.colorRgb, tgt.colorRgb),
      highlight := Overlay(src.highlight, tgt.highlight),
      strike := src.strike,
      subscript := src.subscript,
      superscript := src.superscript,
      allCaps := src.allCaps,
      smallCaps := src.smallCaps,
      styleName := if src.styleName == Some("") then tgt.styleName else src.styleName)
  }

  /** Copying a run's formatting twice is the same as copying it once. */
  lemma CopyRunFormattingIdempotent(src: RunFormat, tgt: RunFormat)
    ensures CopyRunFormatting(src, CopyRunFormatting(src, tgt)) == CopyRunFormatting(src, tgt)
  {
  }

  /** Copying a run's formatting onto a run that already has it changes nothing. */
  lemma CopyRunFormattingOntoItself(f: RunFormat)
    ensures CopyRunFormatting(f, f) == f
  {
  }

  /**
   * The format `update_paragraph_text` carries onto its new run is the one
   * `copy_run_formatting` would give a fresh run, provided the first run has no
   * empty font or style name, no zero size and no underline kind beyond on/off.
   */
  lemma CarriedFormatIsCopy(f: RunFormat)
    requires f.fontName != Some("") && f.styleName != Some("") && f.size != Some(0)
    requires f.underline.None? || f.underline == Some(UnderlineOn) || f.underline == Some(UnderlineOff)
    ensures CarriedFormat(f) == CopyRunFormatting(f, NoRunFormat)
  {
  }

  /** The paragraph format after copying `src`'s set attributes onto `tgt`'s. */
  function OverlayParagraphFormat(src: ParagraphFormat, tgt: ParagraphFormat): (r: ParagraphFormat)
    ensures r.alignment == (if src.alignment.Some? then src.alignment else tgt.alignment)
    ensures r.leftIndent == (if src.leftIndent.Some? then src.leftIndent else tgt.leftIndent)
    ensures r.rightIndent == (if src.rightIndent.Some? then src.rightIndent else tgt.rightIndent)
    ensures r.firstLineIndent == (if src.firstLineIndent.Some? then src.firstLineIndent else tgt.firstLineIndent)
    ensures r.spaceBefore == (if src.spaceBefore.Some? then src.spaceBefore else tgt.spaceBefore)
    ensures r.spaceAfter == (if src.spaceAfter.Some? then src.spaceAfter else tgt.spaceAfter)
    ensures r.lineSpacing == (if src.lineSpacing.Some? then src.lineSpacing else tgt.lineSpacing)
    ensures r.lineSpacingRule == (if src.lineSpacingRule.Some? then src.lineSpacingRule else tgt.lineSpacingRule)
    ensures r.keepTogether == (if src.keepTogether.Some? then src.keepTogether else tgt.keepTogether)
    ensures r.keepWithNext == (if src.keepWithNext.Some? then src.keepWithNext else tgt.keepWithNext)
    ensures r.pageBreakBefore == (if src.pageBreakBefore.Some? then src.pageBreakBefore else tgt.pageBreakBefore)
    ensures r.widowControl == (if src.widowControl.Some? then src.widowControl else tgt.widowControl)
  {
    ParagraphFormat(
      Overlay(src.alignment, tgt.alignment),
      Overlay(src.leftIndent, tgt.leftIndent),
      Overlay(src.rightIndent, tgt.rightIndent),
      Overlay(src.firstLineIndent, tgt.firstLineIndent),
      Overlay(src.spaceBefore, tgt.spaceBefore),
      Overlay(src.spaceAfter, tgt.spaceAfter),
      Overlay(src.lineSpacing, tgt.lineSpacing),
      Overlay(src.lineSpacingRule, tgt.lineSpacingRule),
      Overlay(src.keepTogether, tgt.keepTogether),
      Overlay(src.keepWithNext, tgt.keepWithNext),
      Overlay(src.pageBreakBefore, tgt.pageBreakBefore),
      Overlay(src.widowControl, tgt.widowControl))
  }

  /**
   * `copy_paragraph_formatting(src, tgt)`: the style when the source's has a name,
   * and each alignment and paragraph-format attribute the source sets; the
   * target's runs and every attribute the source leaves unset stay as they were.
   */
  function CopyParagraphFormatting(src: Paragraph, tgt: Paragraph): (r: Paragraph)
    ensures r.runs == tgt.runs
    ensures r.style == if src.style != "" then src.style else tgt.style
    ensures r.format.alignment == (if src.format.alignment.Some? then src.format.alignment else tgt.format.alignment)
    ensures r.format.leftIndent == (if src.format.leftIndent.Some? then src.format.leftIndent else tgt.format.leftIndent)
    ensures r.format.rightIndent == (if src.format.rightIndent.Some? then src.format.rightIndent else tgt.format.rightIndent)
    ensures r.format.firstLineIndent == (if src.format.firstLineIndent.Some? then src.format.firstLineIndent else tgt.format.firstLineIndent)
    ensures r.format.spaceBefore == (if src.format.spaceBefore.Some? then src.format.spaceBefore else tgt.format.spaceBefore)
    ensures r.format.spaceAfter == (if src.format.spaceAfter.Some? then src.format.spaceAfter else tgt.format.spaceAfter)
    ensures r.format.lineSpacing == (if src.format.lineSpacing.Some? then src.format.lineSpacing else tgt.format.lineSpacing)
    ensures r.format.lineSpacingRule == (if src.format.lineSpacingRule.Some? then src.format.lineSpacingRule else tgt.format.lineSpacingRule)
    ensures r.format.keepTogether == (if src.format.keepTogether.Some? then src.format.keepTogether else tgt.format.keepTogether)
    ensures r.format.keepWithNext == (if src.format.keepWithNext.Some? then src.format.keepWithNext else tgt.format.keepWithNext)
    ensures r.format.pageBreakBefore == (if src.format.pageBreakBefore.Some? then src.format.pageBreakBefore else tgt.format.pageBreakBefore)
    ensures r.format.widowControl == (if src.format.widowControl.Some? then src.format.widowControl else tgt.format.widowControl)
    ensures src.format == NoParagraphFormat ==> r.format == tgt.format
    ensures tgt.format == NoParagraphFormat ==> r.format == src.format
  {
    Paragraph(if src.style != "" then src.style else tgt.style,
              OverlayParagraphFormat(src.format, tgt.format),
              tgt.runs)
  }

  /** Copying a paragraph's formatting twice is the same as copying it once. */
  lemma CopyParagraphFormattingIdempotent(src: Paragraph, tgt: Paragraph)
    ensures CopyParagraphFormatting(src, CopyParagraphFormatting(src, tgt)) == CopyParagraphFormatting(src, tgt)
  {
  }

  /** Copying a paragraph's formatting onto itself changes nothing. */
  lemma CopyParagraphFormattingOntoItself(p: Paragraph)
    ensures CopyParagraphFormatting(p, p) == p
  {
  }

  // ---------------------------------------------------------------------------
  // Edits read back through the getters

  /** After `delete_paragraph(i)`, the paragraph read at `i` is the one that followed it. */
  lemma ReadAfterDelete(d: Document, i: int)
    requires 0 <= i < |d.paragraphs|
    ensures GetParagraphText(DeleteParagraph(d, i), i) == GetParagraphText(d, i + 1)
  {
  }

  /** After `insert_paragraph_after(i, text)`, the paragraph read at `i + 1` has that text. */
  lemma ReadAfterInsert(d: Document, i: int, text: string, style: Option<string>)
    requires 0 <= i < |d.paragraphs|
    ensures GetParagraphText(InsertParagraphAfter(d, i, text, style), i + 1) == text
    ensures GetParagraphText(InsertParagraphAfter(d, i, text, style), i) == GetParagraphText(d, i)
  {
  }

  /** After an in-range `update_paragraph_text(i, text)`, reading paragraph `i` gives `text`. */
  lemma ReadAfterUpdate(d: Document, i: int, text: string, preserveStyle: bool)
    requires 0 <= i < |d.paragraphs|
    ensures GetParagraphText(UpdateParagraphText(d, i, text, preserveStyle), i) == text
  {
  }

  /** After a successful `update_table_cell_text`, reading the cell gives the new text. */
  lemma ReadAfterCellUpdate(d: Document, t: int, row: int, col: int, text: string)
    requires CellExists(d, t, row, col)
    ensures GetTableCellText(UpdateTableCellText(d, t, row, col, text), t, row, col) == text
  {
  }

  /** A row added to a table reads back as empty cells. */
  lemma ReadAfterAddRow(d: Document, t: int, col: int)
    requires 0 <= t < |d.tables| && 0 <= col < d.tables[t].columnCount
    ensures GetTableCellText(AddRowToTable(d, t), t, |d.tables[t].rows|, col) == ""
  {
  }

  /** Each new paragraph of a list of texts follows the previous ones. */
  lemma NewParagraphsSnoc(texts: seq<string>, t: nat)
    requires t < |texts|
    ensures NewParagraphs(texts[..t + 1]) == NewParagraphs(texts[..t]) + [NewParagraph(texts[t], None)]
  {
  }

  // ---------------------------------------------------------------------------
  // Heading levels

  /** The last word of `prefix + " " + w` is `w` when `w` has no space. */
  lemma {:induction false} LastFieldAfterSpace(prefix: string, w: string)
    requires ' ' !in w
    ensures LastField(prefix + " " + w) == w
  {
    if w != [] {
      var s := prefix + " " + w;
      assert s[..|s| - 1] == prefix + " " + w[..|w| - 1];
      assert w == w[..|w| - 1] + [w[|w| - 1]];
      LastFieldAfterSpace(prefix, w[..|w| - 1]);
      assert w == w[..|w| - 1] + [w[|w| - 1]];
    } else {
      assert prefix + " " + w == prefix + " ";
    }
  }

  /** The style "Heading n" announces level n. */
  lemma HeadingStyleLevel(n: nat)
    ensures ParseLevel("Heading " + NatToString(n)) == Some(n)
  {
    var w := NatToString(n);
    assert ' ' !in w by {
      forall c | c in w ensures c != ' ' {
        var k :| 0 <= k < |w| && w[k] == c;
        assert IsDigit(w[k]);
      }
    }
    LastFieldAfterSpace("Heading", w);
    assert "Heading " + w == "Heading" + " " + w;
    NatToStringRoundTrip(n);
  }
}
