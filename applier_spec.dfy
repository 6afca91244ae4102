/**
 * What applying a workflow does, as functions on values: the document, the
 * workflow's change list and its update clock evolve change by change, phase by
 * phase, in the order the applier uses (deletions by descending paragraph index,
 * insertions by ascending index, then paragraph text, run text, section and table
 * cell updates in list order).
 *
 * Every status write goes through `update_change_status`, so it lands on the first
 * change carrying the id and moves the clock on by one tick.
 */
module ApplierSpec {
  import opened Wrappers
  import opened ChangeModel
  import opened WorkflowModel
  import opened DocumentModel
  import opened ApplierOrder

  /** What the applier works on: the editor's document and the workflow's changes and clock. */
  datatype State = State(doc: Document, changes: seq<DocumentChange>, clock: nat)

  /** `update_change_status(id, status)` on the workflow part of the state. */
  function Mark(st: State, id: ChangeId, status: ChangeStatus): (r: State)
    ensures r.doc == st.doc
    ensures SameIds(r.changes, st.changes)
    ensures forall j :: 0 <= j < |st.changes| ==> r.changes[j] == st.changes[j].(status := r.changes[j].status)
    ensures FirstIndexOfId(st.changes, id).None? ==> r == st
    ensures FirstIndexOfId(st.changes, id).Some? ==> StatusOf(r.changes, id) == Some(status) && r.clock == st.clock + 1
    ensures forall other :: other != id ==> StatusOf(r.changes, other) == StatusOf(st.changes, other)
  {
    FirstIndexDependsOnIds(SetStatusById(st.changes, id, status), st.changes, id);
    StatusAfterSetOthers(st.changes, id, status);
    State(st.doc, SetStatusById(st.changes, id, status),
          if FirstIndexOfId(st.changes, id).Some? then st.clock + 1 else st.clock)
  }

  /** A deletion: the paragraph goes when its index is in range (applied), otherwise failed. */
  function DeleteStep(st: State, c: DocumentChange): (r: State)
    ensures r.doc.tables == st.doc.tables && SameIds(r.changes, st.changes)
    ensures c.location.ParagraphLoc? && 0 <= c.location.paragraphIndex < |st.doc.paragraphs| ==>
              r.doc.paragraphs == RemoveAt(st.doc.paragraphs, c.location.paragraphIndex)
              && (FirstIndexOfId(st.changes, c.id).Some? ==> StatusOf(r.changes, c.id) == Some(Applied))
    ensures !(c.location.ParagraphLoc? && 0 <= c.location.paragraphIndex < |st.doc.paragraphs|) ==>
              r.doc == st.doc && (FirstIndexOfId(st.changes, c.id).Some? ==> StatusOf(r.changes, c.id) == Some(Failed))
  {
    if c.location.ParagraphLoc? then
      var k := c.location.paragraphIndex;
      var ok := 0 <= k < |st.doc.paragraphs|;
      Mark(st.(doc := DeleteParagraph(st.doc, k)), c.id, if ok then Applied else Failed)
    else Mark(st, c.id, Failed)
  }

  /**
   * The document after inserting `text` so that it becomes paragraph `k`: before
   * the first paragraph (or as the only one) when `k` is 0, otherwise right after
   * paragraph `k - 1`. New paragraphs take the default style.
   */
  function InsertedDoc(d: Document, k: int, text: string): (r: Document)
    requires 0 <= k <= |d.paragraphs|
    ensures r == d.(paragraphs := InsertAt(d.paragraphs, k, NewParagraph(text, None)))
  {
    if k == 0 then
      if |d.paragraphs| > 0 then d.(paragraphs := InsertAt(d.paragraphs, 0, NewParagraph(text, None)))
      else d.(paragraphs := d.paragraphs + [NewParagraph(text, None)])
    else InsertParagraphAfter(d, k - 1, text, None)
  }

  /**
   * An insertion with a paragraph locator and a value: applied when the index is
   * between 0 and the current paragraph count, failed otherwise. Without a
   * paragraph locator or a value it is skipped and keeps its status.
   */
  function InsertStep(st: State, c: DocumentChange): (r: State)
    ensures SameIds(r.changes, st.changes)
    ensures !(c.location.ParagraphLoc? && c.newValue.Some?) ==> r == st
    ensures c.location.ParagraphLoc? && c.newValue.Some? && 0 <= c.location.paragraphIndex <= |st.doc.paragraphs| ==>
              r.doc == st.doc.(paragraphs := InsertAt(st.doc.paragraphs, c.location.paragraphIndex, NewParagraph(Render(c.newValue.value), None)))
              && (FirstIndexOfId(st.changes, c.id).Some? ==> StatusOf(r.changes, c.id) == Some(Applied))
    ensures c.location.ParagraphLoc? && c.newValue.Some? && !(0 <= c.location.paragraphIndex <= |st.doc.paragraphs|) ==>
              r.doc == st.doc && (FirstIndexOfId(st.changes, c.id).Some? ==> StatusOf(r.changes, c.id) == Some(Failed))
  {
    if c.location.ParagraphLoc? && c.newValue.Some? then
      var k := c.location.paragraphIndex;
      if 0 <= k <= |st.doc.paragraphs| then
        Mark(st.(doc := InsertedDoc(st.doc, k, Render(c.newValue.value))), c.id, Applied)
      else Mark(st, c.id, Failed)
    else st
  }

  /**
   * A paragraph text update: with a value it rewrites the paragraph (keeping the
   * formatting of its first run) and is marked applied whether or not the index
   * was in range; without one it fails.
   */
  function ParagraphTextStep(st: State, c: DocumentChange): (r: State)
    ensures SameIds(r.changes, st.changes)
    ensures c.location.ParagraphLoc? && c.newValue.Some? ==>
              r.doc == UpdateParagraphText(st.doc, c.location.paragraphIndex, Render(c.newValue.value), true)
              && (FirstIndexOfId(st.changes, c.id).Some? ==> StatusOf(r.changes, c.id) == Some(Applied))
    ensures !(c.location.ParagraphLoc? && c.newValue.Some?) ==>
              r.doc == st.doc && (FirstIndexOfId(st.changes, c.id).Some? ==> StatusOf(r.changes, c.id) == Some(Failed))
  {
    if c.location.ParagraphLoc? && c.newValue.Some? then
      var d := UpdateParagraphText(st.doc, c.location.paragraphIndex, Render(c.newValue.value), true);
      Mark(st.(doc := d), c.id, Applied)
    else Mark(st, c.id, Failed)
  }

  /**
   * A run text update through the run-level primitive: applied when the paragraph
   * and the run exist, failed otherwise.
   */
  function RunTextStep(st: State, c: DocumentChange): (r: State)
    ensures SameIds(r.changes, st.changes)
    ensures var ok := c.location.ParagraphLoc? && c.newValue.Some? && c.location.runIndex.Some?
                      && RunExists(st.doc, c.location.paragraphIndex, c.location.runIndex.value);
            && (ok ==> r.doc == UpdateRunText(st.doc, c.location.paragraphIndex, c.location.runIndex.value, Render(c.newValue.value)))
            && (!ok ==> r.doc == st.doc)
            && (FirstIndexOfId(st.changes, c.id).Some? ==> StatusOf(r.changes, c.id) == Some(if ok then Applied else Failed))
  {
    if c.location.ParagraphLoc? && c.newValue.Some? && c.location.runIndex.Some? then
      var k, run := c.location.paragraphIndex, c.location.runIndex.value;
      if 0 <= k < |st.doc.paragraphs| then
        if RunExists(st.doc, k, run) then
          Mark(st.(doc := UpdateRunText(st.doc, k, run, Render(c.newValue.value))), c.id, Applied)
        else Mark(st, c.id, Failed)
      else Mark(st, c.id, Failed)
    else Mark(st, c.id, Failed)
  }

  /**
   * The same step as the applier's code is written: the run-level primitive it
   * calls does not exist on the editor, the call raises, and the handler marks the
   * change failed without touching the document.
   */
  function RunTextStepAsWritten(st: State, c: DocumentChange): (r: State)
    ensures r.doc == st.doc && SameIds(r.changes, st.changes)
    ensures FirstIndexOfId(st.changes, c.id).Some? ==> StatusOf(r.changes, c.id) == Some(Failed)
  {
    if c.location.ParagraphLoc? && c.newValue.Some? && c.location.runIndex.Some? then
      var k := c.location.paragraphIndex;
      if 0 <= k < |st.doc.paragraphs| then Mark(st, c.id, Failed)
      else Mark(st, c.id, Failed)
    else Mark(st, c.id, Failed)
  }

  /**
   * A section replacement: needs a section locator and a list of paragraph texts;
   * applied when the heading is found, failed otherwise.
   */
  function SectionStep(st: State, c: DocumentChange): (r: State)
    ensures SameIds(r.changes, st.changes)
    ensures var ok := c.location.SectionLoc? && c.newValue.Some? && c.newValue.value.TextList?
                      && LocateSection(st.doc.paragraphs, c.location.headingText, c.location.headingStyleName).Some?;
            && (ok ==> r.doc == ReplaceTextAfterHeading(st.doc, c.location.headingText, c.newValue.value.items, c.location.headingStyleName))
            && (!ok ==> r.doc == st.doc)
            && (FirstIndexOfId(st.changes, c.id).Some? ==> StatusOf(r.changes, c.id) == Some(if ok then Applied else Failed))
  {
    if c.location.SectionLoc? && c.newValue.Some? && c.newValue.value.TextList? then
      var h, sn := c.location.headingText, c.location.headingStyleName;
      var ok := LocateSection(st.doc.paragraphs, h, sn).Some?;
      Mark(st.(doc := ReplaceTextAfterHeading(st.doc, h, c.newValue.value.items, sn)), c.id,
           if ok then Applied else Failed)
    else Mark(st, c.id, Failed)
  }

  /** A table cell update: applied when the cell exists, failed otherwise. */
  function TableCellStep(st: State, c: DocumentChange): (r: State)
    ensures SameIds(r.changes, st.changes)
    ensures var ok := c.location.TableLoc? && c.newValue.Some?
                      && CellExists(st.doc, c.location.tableIndex, c.location.rowIndex, c.location.columnIndex);
            && (ok ==> r.doc == UpdateTableCellText(st.doc, c.location.tableIndex, c.location.rowIndex, c.location.columnIndex, Render(c.newValue.value)))
            && (!ok ==> r.doc == st.doc)
            && (FirstIndexOfId(st.changes, c.id).Some? ==> StatusOf(r.changes, c.id) == Some(if ok then Applied else Failed))
  {
    if c.location.TableLoc? && c.newValue.Some? then
      var t, row, col := c.location.tableIndex, c.location.rowIndex, c.location.columnIndex;
      var ok := CellExists(st.doc, t, row, col);
      Mark(st.(doc := UpdateTableCellText(st.doc, t, row, col, Render(c.newValue.value))), c.id,
           if ok then Applied else Failed)
    else Mark(st, c.id, Failed)
  }

  /** One change of bucket `b`, applied. */
  function Step(b: Bucket, st: State, c: DocumentChange): State {
    match b
    case Deletes => DeleteStep(st, c)
    case Inserts => InsertStep(st, c)
    case ParagraphTexts => ParagraphTextStep(st, c)
    case RunTexts => RunTextStep(st, c)
    case Sections => SectionStep(st, c)
    case TableCells => TableCellStep(st, c)
  }

  /** The changes of one bucket, applied front to back. */
  function RunPhase(b: Bucket, st: State, cs: seq<DocumentChange>): State
    decreases |cs|
  {
    if cs == [] then st else RunPhase(b, Step(b, st, cs[0]), cs[1..])
  }

  /**
   * The end of an application: the final state, the workflow's status, and
   * whether a sort key was missing, which raises and leaves the state as it was
   * at that point.
   */
  datatype Outcome = Outcome(state: State, status: WorkflowStatus, crashed: bool)

  /** The accepted changes of `changes` that go to bucket `b`, in list order. */
  function AcceptedIn(changes: seq<DocumentChange>, b: Bucket): seq<DocumentChange> {
    InBucket(WithStatus(changes, Accepted), b)
  }

  /**
   * The list a phase walks through: deletions sorted by descending paragraph
   * index, insertions by ascending index, every other bucket in list order.
   */
  function PhaseList(changes: seq<DocumentChange>, b: Bucket): seq<DocumentChange> {
    if b == Deletes then SortBy(AcceptedIn(changes, Deletes), true)
    else if b == Inserts then SortBy(AcceptedIn(changes, Inserts), false)
    else AcceptedIn(changes, b)
  }

  /** The state after the deletion phase. */
  function AfterDeletes(d: Document, changes: seq<DocumentChange>, clock: nat): State {
    RunPhase(Deletes, State(d, changes, clock), PhaseList(changes, Deletes))
  }

  /** The four update phases, run after the structural ones. */
  function Updates(st: State, changes: seq<DocumentChange>): State {
    var st3 := RunPhase(ParagraphTexts, st, PhaseList(changes, ParagraphTexts));
    var st4 := RunPhase(RunTexts, st3, PhaseList(changes, RunTexts));
    var st5 := RunPhase(Sections, st4, PhaseList(changes, Sections));
    RunPhase(TableCells, st5, PhaseList(changes, TableCells))
  }

  /** The end of a run that did not stop early: completed when no change is still proposed. */
  function Finish(st: State, status: WorkflowStatus): Outcome {
    Outcome(st, if AllReviewed(st.changes) then Completed else status, false)
  }

  /**
   * What follows the deletion phase: the insertions (unless one has no paragraph
   * locator to sort by, which stops the run), the four update phases and the
   * completion test.
   */
  function AfterDeletesOutcome(st1: State, changes: seq<DocumentChange>, status: WorkflowStatus): Outcome {
    if !AllLocated(AcceptedIn(changes, Inserts)) then Outcome(st1, status, true)
    else Finish(Updates(RunPhase(Inserts, st1, PhaseList(changes, Inserts)), changes), status)
  }

  /**
   * `apply_workflow` from a document and the workflow's changes, clock and status:
   * the six phases in order, then the completion test. A deletion without a
   * paragraph locator stops the run before anything changes.
   */
  function Apply(d: Document, changes: seq<DocumentChange>, clock: nat, status: WorkflowStatus): Outcome {
    if !AllLocated(AcceptedIn(changes, Deletes)) then Outcome(State(d, changes, clock), status, true)
    else AfterDeletesOutcome(AfterDeletes(d, changes, clock), changes, status)
  }
}
