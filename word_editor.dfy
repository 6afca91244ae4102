/**
 * The Word editor: an object holding one document and changing it in place.
 *
 * Each method performs its edit the way the editor does, step by step (searches,
 * a backward deletion loop, a forward insertion loop, run clearing), and promises
 * that the document it leaves is exactly the one the matching function of
 * `DocumentModel` describes. Removing a paragraph or run element and python-docx's
 * `add_paragraph` / `insert_paragraph_before` become sequence splices.
 */
module WordEditing {
  import opened Wrappers
  import opened Strings
  import opened DocumentModel

  class WordEditor {
    var document: Document

    /** An editor on a loaded document, or on a new empty one when none is given. */
    constructor (loaded: Option<Document> := None)
      ensures document == loaded.GetOr(Document([], []))
    {
      document := loaded.GetOr(Document([], []));
    }

    /** python-docx `add_paragraph(text, style)`: a new paragraph after all others. */
    method AddParagraph(text: string, style: Option<string>) returns (p: Paragraph)
      modifies this
      ensures p == NewParagraph(text, style)
      ensures document == old(document).(paragraphs := old(document.paragraphs) + [p])
    {
      p := NewParagraph(text, style);
      document := document.(paragraphs := document.paragraphs + [p]);
    }

    /** python-docx `paragraphs[k].insert_paragraph_before(text, style)`. */
    method InsertParagraphBefore(k: nat, text: string, style: Option<string>) returns (p: Paragraph)
      requires k < |document.paragraphs|
      modifies this
      ensures p == NewParagraph(text, style)
      ensures document == old(document).(paragraphs := InsertAt(old(document.paragraphs), k, p))
    {
      p := NewParagraph(text, style);
      document := document.(paragraphs := InsertAt(document.paragraphs, k, p));
    }

    /**
     * `delete_paragraph(i)`: removes paragraph `i` and reports success, or reports
     * failure and changes nothing when `i` is out of range.
     */
    method DeleteParagraph(i: int) returns (ok: bool)
      modifies this
      ensures ok <==> 0 <= i < |old(document.paragraphs)|
      ensures document == DocumentModel.DeleteParagraph(old(document), i)
    {
      if !(0 <= i < |document.paragraphs|) {
        return false;
      }
      document := document.(paragraphs := RemoveAt(document.paragraphs, i));
      return true;
    }

    /**
     * `insert_paragraph_after(i, text, style)`: appends when `i` is the last
     * paragraph, inserts before paragraph `i + 1` otherwise, and returns the new
     * paragraph; returns none and changes nothing when `i` is out of range.
     */
    method InsertParagraphAfter(i: int, text: string, style: Option<string> := None) returns (r: Option<Paragraph>)
      modifies this
      ensures r.Some? <==> 0 <= i < |old(document.paragraphs)|
      ensures r.Some? ==> r.value == NewParagraph(text, style)
      ensures document == DocumentModel.InsertParagraphAfter(old(document), i, text, style)
    {
      if !(0 <= i < |document.paragraphs|) {
        return None;
      }
      var p;
      if i == |document.paragraphs| - 1 {
        p := AddParagraph(text, style);
        assert document.paragraphs == InsertAt(old(document.paragraphs), i + 1, p);
      } else {
        p := InsertParagraphBefore(i + 1, text, style);
      }
      return Some(p);
    }

    /** The heading search: the first paragraph that matches the heading, if any. */
    method FindHeadingIndex(headingText: string, styleName: Option<string>) returns (r: Option<nat>)
      ensures r == FindHeading(document.paragraphs, headingText, styleName, 0)
      ensures r.Some? ==> r.value < |document.paragraphs| && HeadingMatches(document.paragraphs[r.value], headingText, styleName)
    {
      var ps := document.paragraphs;
      var i := 0;
      while i < |ps|
        invariant 0 <= i <= |ps|
        invariant FindHeading(ps, headingText, styleName, 0) == FindHeading(ps, headingText, styleName, i)
      {
        if HeadingMatches(ps[i], headingText, styleName) {
          return Some(i);
        }
        i := i + 1;
      }
      return None;
    }

    /**
     * The boundary search after the heading at `start`: the first later paragraph
     * whose style starts with "Heading" and, when a style name was given and both
     * levels are known, whose level is at most `level`; the document length when
     * there is none.
     */
    method FindSectionEnd(start: nat, level: Option<nat>, styleName: Option<string>) returns (end: nat)
      requires start < |document.paragraphs|
      requires level.Some? ==> StyleGiven(styleName)
      ensures end == SectionEnd(document.paragraphs, level, start + 1)
      ensures start < end <= |document.paragraphs|
    {
      var ps := document.paragraphs;
      var k := start + 1;
      while k < |ps|
        invariant start + 1 <= k <= |ps|
        invariant SectionEnd(ps, level, start + 1) == SectionEnd(ps, level, k)
      {
        var style := ps[k].style;
        if style != "" && StartsWith(style, "Heading") {
          var current := ParseLevel(style);
          if StyleGiven(styleName) && level.Some? && current.Some? {
            if current.value <= level.value {
              return k;
            }
          } else {
            return k;
          }
        }
        k := k + 1;
      }
      return |ps|;
    }

    /** Removes the paragraphs strictly between `start` and `end`, last one first. */
    method RemoveSectionBody(start: nat, end: nat)
      requires start < end <= |document.paragraphs|
      modifies this
      ensures document == old(document).(paragraphs := old(document.paragraphs)[..start + 1] + old(document.paragraphs)[end..])
    {
      ghost var ps := document.paragraphs;
      var j := end - 1;
      assert ps[..j + 1] + ps[end..] == ps;
      while j > start
        invariant start <= j < end
        invariant document == old(document).(paragraphs := ps[..j + 1] + ps[end..])
      {
        var cur := document.paragraphs;
        assert cur[..j] == ps[..j] && cur[j + 1..] == ps[end..];
        document := document.(paragraphs := RemoveAt(cur, j));
        j := j - 1;
      }
    }

    /**
     * Inserts one new paragraph per text, in order, at position `at`: before the
     * paragraph found there (the anchor, which moves down one place per insertion),
     * or by appending when the document ends there.
     */
    method InsertParagraphsAt(at: nat, texts: seq<string>)
      requires at <= |document.paragraphs|
      modifies this
      ensures document == old(document).(paragraphs := old(document.paragraphs)[..at] + NewParagraphs(texts) + old(document.paragraphs)[at..])
    {
      ghost var ps := document.paragraphs;
      assert texts[..0] == [] && ps[..at] + [] + ps[at..] == ps;
      if at < |document.paragraphs| {
        var t := 0;
        while t < |texts|
          invariant 0 <= t <= |texts|
          invariant document == old(document).(paragraphs := ps[..at] + NewParagraphs(texts[..t]) + ps[at..])
        {
          ghost var before := NewParagraphs(texts[..t]);
          var p := InsertParagraphBefore(at + t, texts[t], None);
          NewParagraphsSnoc(texts, t);
          assert document.paragraphs == ps[..at] + (before + [p]) + ps[at..];
          t := t + 1;
        }
      } else {
        var t := 0;
        while t < |texts|
          invariant 0 <= t <= |texts|
          invariant document == old(document).(paragraphs := ps + NewParagraphs(texts[..t]))
        {
          var p := AddParagraph(texts[t], None);
          NewParagraphsSnoc(texts, t);
          t := t + 1;
        }
        assert ps[..at] == ps && ps[at..] == [];
      }
      assert texts[..|texts|] == texts;
    }

    /**
     * `replace_text_after_heading(headingText, texts, styleName)`: finds the first
     * matching heading, finds where its section ends, deletes the section body from
     * the back, then inserts one paragraph per text in order right after the
     * heading. Reports whether a heading was found; without one the document is
     * unchanged.
     */
    method ReplaceTextAfterHeading(headingText: string, texts: seq<string>, styleName: Option<string> := None) returns (ok: bool)
      modifies this
      ensures ok <==> LocateSection(old(document.paragraphs), headingText, styleName).Some?
      ensures document == DocumentModel.ReplaceTextAfterHeading(old(document), headingText, texts, styleName)
    {
      var found := FindHeadingIndex(headingText, styleName);
      if found.None? {
        return false;
      }
      var start := found.value;

      // The heading's level, when found through a style name whose last word is a number.
      var level: Option<nat> := None;
      if StyleGiven(styleName) {
        var levelWord := LastField(document.paragraphs[start].style);
        if IsDigits(levelWord) {
          level := Some(DecimalValue(levelWord));
        }
      }
      assert level == SectionLevel(document.paragraphs[start], styleName);

      var end := FindSectionEnd(start, level, styleName);
      RemoveSectionBody(start, end);
      if texts != [] {
        InsertParagraphsAt(start + 1, texts);
      }
      return true;
    }

    /**
     * `update_paragraph_text(i, text, preserveStyle)`: with style preserved, captures
     * the first run's format, removes every run from the last to the first, and adds
     * one run with the new text carrying the captured format; otherwise sets the
     * paragraph's text, which leaves one unformatted run. An out-of-range index
     * changes nothing.
     */
    method UpdateParagraphText(i: int, text: string, preserveStyle: bool := true)
      modifies this
      ensures document == DocumentModel.UpdateParagraphText(old(document), i, text, preserveStyle)
    {
      if !(0 <= i < |document.paragraphs|) {
        return;
      }
      var p := document.paragraphs[i];
      if preserveStyle {
        var carried: Option<RunFormat> := None;
        if p.runs != [] {
          carried := Some(CarriedFormat(p.runs[0].format));
        }
        var k := |p.runs|;
        assert p.runs[..k] == p.runs && old(document.paragraphs)[i := p] == old(document.paragraphs);
        while k > 0
          invariant 0 <= k <= |p.runs|
          invariant document == old(document).(paragraphs := old(document.paragraphs)[i := p.(runs := p.runs[..k])])
        {
          k := k - 1;
          var q := document.paragraphs[i];
          assert q.runs[..k] + q.runs[k + 1..] == p.runs[..k];
          document := document.(paragraphs := document.paragraphs[i := q.(runs := q.runs[..k] + q.runs[k + 1..])]);
        }
        var q := document.paragraphs[i];
        assert q.runs + [Run(text, carried.GetOr(NoRunFormat))] == [ReplacementRun(p, text, true)];
        document := document.(paragraphs := document.paragraphs[i := q.(runs := q.runs + [Run(text, carried.GetOr(NoRunFormat))])]);
      } else {
        document := document.(paragraphs := document.paragraphs[i := p.(runs := [Run(text, NoRunFormat)])]);
      }
    }

    /**
     * The run-level text update the workflow applier calls for a change located at a
     * run (the editor does not define it): sets the text of run `r` of paragraph `i`,
     * keeping that run's formatting, and reports whether the run exists; a missing
     * run changes nothing.
     */
    method UpdateRunText(i: int, r: int, text: string) returns (ok: bool)
      modifies this
      ensures ok <==> RunExists(old(document), i, r)
      ensures document == DocumentModel.UpdateRunText(old(document), i, r, text)
    {
      if !(0 <= i < |document.paragraphs|) {
        return false;
      }
      var p := document.paragraphs[i];
      if !(0 <= r < |p.runs|) {
        return false;
      }
      var run := p.runs[r].(text := text);
      document := document.(paragraphs := document.paragraphs[i := p.(runs := p.runs[r := run])]);
      return true;
    }

    /** `update_list_item_text`: a list item is updated as a paragraph. */
    method UpdateListItemText(i: int, text: string, preserveStyle: bool := true)
      modifies this
      ensures document == DocumentModel.UpdateParagraphText(old(document), i, text, preserveStyle)
    {
      UpdateParagraphText(i, text, preserveStyle);
    }

    /**
     * `update_table_cell_text(t, row, col, text)`: checks the table, the row, the
     * column count and the cell in turn, and sets the cell's text when all hold.
     */
    method UpdateTableCellText(t: int, row: int, col: int, text: string) returns (ok: bool)
      modifies this
      ensures ok <==> CellExists(old(document), t, row, col)
      ensures document == DocumentModel.UpdateTableCellText(old(document), t, row, col, text)
    {
      if !(0 <= t < |document.tables|) {
        return false;
      }
      var table := document.tables[t];
      if !(0 <= row < |table.rows|) {
        return false;
      }
      if !(0 <= col < table.columnCount) {
        return false;
      }
      if col >= |table.rows[row]| {
        return false;
      }
      var cells := table.rows[row][col := text];
      document := document.(tables := document.tables[t := table.(rows := table.rows[row := cells])]);
      return true;
    }

    /** `add_row_to_table(t)`: appends a row of empty cells and returns it; none when `t` is out of range. */
    method AddRowToTable(t: int) returns (r: Option<seq<string>>)
      modifies this
      ensures r.Some? <==> 0 <= t < |old(document.tables)|
      ensures r.Some? ==> |r.value| == old(document.tables)[t].columnCount && forall x :: 0 <= x < |r.value| ==> r.value[x] == ""
      ensures document == DocumentModel.AddRowToTable(old(document), t)
    {
      if 0 <= t < |document.tables| {
        var table := document.tables[t];
        var blank := seq(table.columnCount, _ => "");
        document := document.(tables := document.tables[t := table.(rows := table.rows + [blank])]);
        return Some(blank);
      }
      return None;
    }
  }
}
