/**
 * The change record of the editing workflow: what kind of edit it is, where in the
 * document it applies, the old and new values, and its review status.
 *
 * Change ids are abstract: a `ChangeId` is a serial number handed out by a
 * `ChangeIdSource`, which stands in for `uuid4` and guarantees that ids it issues
 * are pairwise distinct. Timestamps are ticks of a logical clock.
 */
module ChangeModel {
  import opened Wrappers
  import Strings

  /** The seven kinds of change. */
  datatype ChangeType =
    | TextUpdate
    | FormatChange
    | ParagraphInsert
    | ParagraphDelete
    | SectionReplace
    | TableCellUpdate
    | TableRowAdd

  /** The review status of a change. */
  datatype ChangeStatus = Proposed | Accepted | Rejected | Applied | Failed

  /** The string value each change type is stored as. */
  function ChangeTypeValue(t: ChangeType): string {
    match t
    case TextUpdate => "text_update"
    case FormatChange => "format_change"
    case ParagraphInsert => "paragraph_insert"
    case ParagraphDelete => "paragraph_delete"
    case SectionReplace => "section_replace"
    case TableCellUpdate => "table_cell_update"
    case TableRowAdd => "table_row_add"
  }

  /**
   * Validation of a stored change type: exactly the seven values are accepted,
   * anything else is rejected.
   */
  function ParseChangeType(s: string): (r: Option<ChangeType>)
    ensures r.Some? ==> ChangeTypeValue(r.value) == s
    ensures r.None? ==> forall t: ChangeType :: ChangeTypeValue(t) != s
  {
    if s == "text_update" then Some(TextUpdate)
    else if s == "format_change" then Some(FormatChange)
    else if s == "paragraph_insert" then Some(ParagraphInsert)
    else if s == "paragraph_delete" then Some(ParagraphDelete)
    else if s == "section_replace" then Some(SectionReplace)
    else if s == "table_cell_update" then Some(TableCellUpdate)
    else if s == "table_row_add" then Some(TableRowAdd)
    else None
  }

  /** Every change type survives being stored as its value and read back. */
  lemma ChangeTypeRoundTrip(t: ChangeType)
    ensures ParseChangeType(ChangeTypeValue(t)) == Some(t)
  {
  }

  /** The string value each status is stored as. */
  function StatusValue(st: ChangeStatus): string {
    match st
    case Proposed => "proposed"
    case Accepted => "accepted"
    case Rejected => "rejected"
    case Applied => "applied"
    case Failed => "failed"
  }

  /** Validation of a stored status: exactly the five values are accepted. */
  function ParseChangeStatus(s: string): (r: Option<ChangeStatus>)
    ensures r.Some? ==> StatusValue(r.value) == s
    ensures r.None? ==> forall st: ChangeStatus :: StatusValue(st) != s
  {
    if s == "proposed" then Some(Proposed)
    else if s == "accepted" then Some(Accepted)
    else if s == "rejected" then Some(Rejected)
    else if s == "applied" then Some(Applied)
    else if s == "failed" then Some(Failed)
    else None
  }

  /** Every status survives being stored as its value and read back. */
  lemma StatusRoundTrip(st: ChangeStatus)
    ensures ParseChangeStatus(StatusValue(st)) == Some(st)
  {
  }

  /**
   * Where a change applies: a paragraph (optionally one run of it), a table cell,
   * a section identified by its heading, or one of the degenerate locators a
   * change may also carry (a bare integer, a bare string, or nothing).
   * Locators compare structurally, field by field.
   */
  datatype Location =
    | ParagraphLoc(paragraphIndex: int, runIndex: Option<int> := None)
    | TableLoc(tableIndex: int, rowIndex: int, columnIndex: int)
    | SectionLoc(headingText: string, headingStyleName: Option<string> := None)
    | IndexLoc(index: int)
    | KeyLoc(key: string)
    | NoLoc

  /**
   * The old or new value of a change: a text, a list of paragraph texts (the
   * payload of a section replace), or any other value, kept as the text Python's
   * `str()` renders it to.
   */
  datatype Value =
    | Text(text: string)
    | TextList(items: seq<string>)
    | Other(rendered: string)

  /** `'item'`: one list element as Python's `repr` renders a plain string. */
  function Quoted(item: string): string {
    "'" + item + "'"
  }

  /** Python's `str(value)`; a list renders as `['a', 'b']` (quote escaping is not modelled). */
  function Render(v: Value): (r: string)
    ensures v.Text? ==> r == v.text
    ensures v.Other? ==> r == v.rendered
    ensures v.TextList? ==> |r| >= 2 && r[0] == '[' && r[|r| - 1] == ']'
    ensures v.TextList? && v.items == [] ==> r == "[]"
  {
    match v
    case Text(t) => t
    case Other(s) => s
    case TextList(items) =>
      "[" + Strings.Join(", ", seq(|items|, i requires 0 <= i < |items| => Quoted(items[i]))) + "]"
  }

  /** An abstract change id. */
  datatype ChangeId = ChangeId(serial: nat)

  /**
   * A single proposed or applied change. The optional fields default to absent
   * and the status to `Proposed`.
   */
  datatype DocumentChange = DocumentChange(
    id: ChangeId,
    documentId: string,
    changeType: ChangeType,
    location: Location,
    timestamp: nat,
    oldValue: Option<Value> := None,
    newValue: Option<Value> := None,
    description: Option<string> := None,
    status: ChangeStatus := Proposed,
    source: Option<string> := None)

  /** A change created without a status is proposed, and its optional fields are absent. */
  lemma DefaultsOfNewChange(id: ChangeId, documentId: string, t: ChangeType, loc: Location, now: nat)
    ensures DocumentChange(id, documentId, t, loc, now).status == Proposed
    ensures DocumentChange(id, documentId, t, loc, now).oldValue.None?
    ensures DocumentChange(id, documentId, t, loc, now).newValue.None?
    ensures ParagraphLoc(0).runIndex.None? && SectionLoc(documentId).headingStyleName.None?
  {
  }

  /**
   * The source of fresh change ids. `issued` records every id handed out so far;
   * all of them lie below `next`, so the next one is new.
   */
  class ChangeIdSource {
    var next: nat
    ghost var issued: set<ChangeId>

    ghost predicate Valid()
      reads this
    {
      forall id :: id in issued ==> id.serial < next
    }

    constructor ()
      ensures Valid() && issued == {}
    {
      next := 0;
      issued := {};
    }

    /** Hands out an id distinct from every id issued before. */
    method Fresh() returns (id: ChangeId)
      requires Valid()
      modifies this
      ensures Valid()
      ensures id !in old(issued)
      ensures issued == old(issued) + {id}
    {
      id := ChangeId(next);
      issued := issued + {id};
      next := next + 1;
    }
  }
}
