/**
 * The workflow applier: takes the accepted changes of a workflow, sorts them into
 * buckets, applies each bucket through the word editor and records every outcome
 * in the workflow, step by step. `ApplyWorkflow` is proved to leave exactly the
 * document, change list, clock and workflow status that `ApplierSpec.Apply`
 * describes.
 */
module WorkflowApplier {
  import opened Wrappers
  import opened ChangeModel
  import opened WorkflowModel
  import opened DocumentModel
  import opened WordEditing
  import opened ApplierOrder
  import opened ApplierSpec

  /** The workflow parts the applier never writes. */
  ghost predicate Untouched(w: ChangeWorkflow, workflowId: string, documentId: string, createdAt: nat, metadata: map<string, string>)
    reads w
  {
    w.workflowId == workflowId && w.documentId == documentId && w.createdAt == createdAt && w.metadata == metadata
  }

  class WorkflowApplier {
    const editor: WordEditor

    constructor (editor: WordEditor)
      ensures this.editor == editor
    {
      this.editor := editor;
    }

    /** The state the applier works on, read off the editor and the workflow. */
    function Current(workflow: ChangeWorkflow): State
      reads editor, workflow
    {
      State(editor.document, workflow.changes, workflow.updatedAt)
    }

    /** `update_change_status`, with its success flag dropped as the applier drops it. */
    method SetStatus(workflow: ChangeWorkflow, id: ChangeId, status: ChangeStatus)
      requires workflow.Valid()
      modifies workflow
      ensures workflow.Valid()
      ensures Current(workflow) == Mark(old(Current(workflow)), id, status)
      ensures Untouched(workflow, old(workflow.workflowId), old(workflow.documentId), old(workflow.createdAt), old(workflow.metadata))
      ensures workflow.status == old(workflow.status)
    {
      var _ := workflow.UpdateChangeStatus(id, status);
    }

    /** One paragraph deletion. */
    method ApplyDelete(workflow: ChangeWorkflow, c: DocumentChange)
      requires workflow.Valid()
      modifies editor, workflow
      ensures workflow.Valid()
      ensures Current(workflow) == DeleteStep(old(Current(workflow)), c)
      ensures Untouched(workflow, old(workflow.workflowId), old(workflow.documentId), old(workflow.createdAt), old(workflow.metadata))
      ensures workflow.status == old(workflow.status)
    {
      if c.location.ParagraphLoc? {
        var ok := editor.DeleteParagraph(c.location.paragraphIndex);
        if ok {
          SetStatus(workflow, c.id, Applied);
        } else {
          SetStatus(workflow, c.id, Failed);
        }
      } else {
        SetStatus(workflow, c.id, Failed);
      }
    }

    /** One paragraph insertion. */
    method ApplyInsert(workflow: ChangeWorkflow, c: DocumentChange)
      requires workflow.Valid()
      modifies editor, workflow
      ensures workflow.Valid()
      ensures Current(workflow) == InsertStep(old(Current(workflow)), c)
      ensures Untouched(workflow, old(workflow.workflowId), old(workflow.documentId), old(workflow.createdAt), old(workflow.metadata))
      ensures workflow.status == old(workflow.status)
    {
      if c.location.ParagraphLoc? && c.newValue.Some? {
        var target := c.location.paragraphIndex;
        if 0 <= target <= |editor.document.paragraphs| {
          var text := Render(c.newValue.value);
          if target == 0 {
            if |editor.document.paragraphs| > 0 {
              var _ := editor.InsertParagraphBefore(0, text, None);
            } else {
              var _ := editor.AddParagraph(text, None);
            }
          } else if 0 < target <= |editor.document.paragraphs| {
            var _ := editor.InsertParagraphAfter(target - 1, text, None);
          } else {
            // the outer bounds check already rules this branch out
            assert false;
          }
          SetStatus(workflow, c.id, Applied);
        } else {
          SetStatus(workflow, c.id, Failed);
        }
      }
    }

    /** One paragraph text update. */
    method ApplyParagraphText(workflow: ChangeWorkflow, c: DocumentChange)
      requires workflow.Valid()
      modifies editor, workflow
      ensures workflow.Valid()
      ensures Current(workflow) == ParagraphTextStep(old(Current(workflow)), c)
      ensures Untouched(workflow, old(workflow.workflowId), old(workflow.documentId), old(workflow.createdAt), old(workflow.metadata))
      ensures workflow.status == old(workflow.status)
    {
      if c.location.ParagraphLoc? && c.newValue.Some? {
        editor.UpdateParagraphText(c.location.paragraphIndex, Render(c.newValue.value), true);
        SetStatus(workflow, c.id, Applied);
      } else {
        SetStatus(workflow, c.id, Failed);
      }
    }

    /** One run text update. */
    method ApplyRunText(workflow: ChangeWorkflow, c: DocumentChange)
      requires workflow.Valid()
      modifies editor, workflow
      ensures workflow.Valid()
      ensures Current(workflow) == RunTextStep(old(Current(workflow)), c)
      ensures Untouched(workflow, old(workflow.workflowId), old(workflow.documentId), old(workflow.createdAt), old(workflow.metadata))
      ensures workflow.status == old(workflow.status)
    {
      if c.location.ParagraphLoc? && c.newValue.Some? && c.location.runIndex.Some? {
        var k := c.location.paragraphIndex;
        if 0 <= k < |editor.document.paragraphs| {
          var ok := editor.UpdateRunText(k, c.location.runIndex.value, Render(c.newValue.value));
          if ok {
            SetStatus(workflow, c.id, Applied);
          } else {
            SetStatus(workflow, c.id, Failed);
          }
        } else {
          SetStatus(workflow, c.id, Failed);
        }
      } else {
        SetStatus(workflow, c.id, Failed);
      }
    }

    /** One section replacement. */
    method ApplySection(workflow: ChangeWorkflow, c: DocumentChange)
      requires workflow.Valid()
      modifies editor, workflow
      ensures workflow.Valid()
      ensures Current(workflow) == SectionStep(old(Current(workflow)), c)
      ensures Untouched(workflow, old(workflow.workflowId), old(workflow.documentId), old(workflow.createdAt), old(workflow.metadata))
      ensures workflow.status == old(workflow.status)
    {
      if c.location.SectionLoc? && c.newValue.Some? && c.newValue.value.TextList? {
        var ok := editor.ReplaceTextAfterHeading(c.location.headingText, c.newValue.value.items, c.location.headingStyleName);
        if ok {
          SetStatus(workflow, c.id, Applied);
        } else {
          SetStatus(workflow, c.id, Failed);
        }
      } else {
        SetStatus(workflow, c.id, Failed);
      }
    }

    /** One table cell update. */
    method ApplyTableCell(workflow: ChangeWorkflow, c: DocumentChange)
      requires workflow.Valid()
      modifies editor, workflow
      ensures workflow.Valid()
      ensures Current(workflow) == TableCellStep(old(Current(workflow)), c)
      ensures Untouched(workflow, old(workflow.workflowId), old(workflow.documentId), old(workflow.createdAt), old(workflow.metadata))
      ensures workflow.status == old(workflow.status)
    {
      if c.location.TableLoc? && c.newValue.Some? {
        var loc := c.location;
        var ok := editor.UpdateTableCellText(loc.tableIndex, loc.rowIndex, loc.columnIndex, Render(c.newValue.value));
        if ok {
          SetStatus(workflow, c.id, Applied);
        } else {
          SetStatus(workflow, c.id, Failed);
        }
      } else {
        SetStatus(workflow, c.id, Failed);
      }
    }

    /** The changes of one bucket, in the order given. */
    method ApplyPhase(workflow: ChangeWorkflow, b: Bucket, cs: seq<DocumentChange>)
      requires workflow.Valid()
      modifies editor, workflow
      ensures workflow.Valid()
      ensures Current(workflow) == RunPhase(b, old(Current(workflow)), cs)
      ensures Untouched(workflow, old(workflow.workflowId), old(workflow.documentId), old(workflow.createdAt), old(workflow.metadata))
      ensures workflow.status == old(workflow.status)
    {
      var k := 0;
      while k < |cs|
        invariant 0 <= k <= |cs|
        invariant workflow.Valid()
        invariant RunPhase(b, Current(workflow), cs[k..]) == RunPhase(b, old(Current(workflow)), cs)
        invariant Untouched(workflow, old(workflow.workflowId), old(workflow.documentId), old(workflow.createdAt), old(workflow.metadata))
        invariant workflow.status == old(workflow.status)
      {
        var c := cs[k];
        match b {
          case Deletes => ApplyDelete(workflow, c);
          case Inserts => ApplyInsert(workflow, c);
          case ParagraphTexts => ApplyParagraphText(workflow, c);
          case RunTexts => ApplyRunText(workflow, c);
          case Sections => ApplySection(workflow, c);
          case TableCells => ApplyTableCell(workflow, c);
        }
        assert cs[k..][1..] == cs[k + 1..];
        k := k + 1;
      }
    }

    /**
     * The bucketing loop over the accepted changes: each list receives, in order,
     * the changes that belong to it.
     */
    static method Separate(accepted: seq<DocumentChange>)
      returns (paragraphTexts: seq<DocumentChange>, runTexts: seq<DocumentChange>, inserts: seq<DocumentChange>,
               deletes: seq<DocumentChange>, sections: seq<DocumentChange>, tableCells: seq<DocumentChange>)
      ensures paragraphTexts == InBucket(accepted, ParagraphTexts) && runTexts == InBucket(accepted, RunTexts)
      ensures inserts == InBucket(accepted, Inserts) && deletes == InBucket(accepted, Deletes)
      ensures sections == InBucket(accepted, Sections) && tableCells == InBucket(accepted, TableCells)
    {
      paragraphTexts, runTexts, inserts, deletes, sections, tableCells := [], [], [], [], [], [];
      var i := 0;
      while i < |accepted|
        invariant 0 <= i <= |accepted|
        invariant paragraphTexts == InBucket(accepted[..i], ParagraphTexts) && runTexts == InBucket(accepted[..i], RunTexts)
        invariant inserts == InBucket(accepted[..i], Inserts) && deletes == InBucket(accepted[..i], Deletes)
        invariant sections == InBucket(accepted[..i], Sections) && tableCells == InBucket(accepted[..i], TableCells)
      {
        var change := accepted[i];
        assert accepted[..i + 1][..i] == accepted[..i] && accepted[..i + 1][i] == change;
        if change.changeType == TextUpdate {
          if change.location.ParagraphLoc? {
            if change.location.runIndex.Some? {
              runTexts := runTexts + [change];
            } else {
              paragraphTexts := paragraphTexts + [change];
            }
          }
        } else if change.changeType == ParagraphInsert {
          inserts := inserts + [change];
        } else if change.changeType == ParagraphDelete {
          deletes := deletes + [change];
        } else if change.changeType == SectionReplace {
          sections := sections + [change];
        } else if change.changeType == TableCellUpdate {
          tableCells := tableCells + [change];
        }
        i := i + 1;
      }
      assert accepted[..|accepted|] == accepted;
    }

    /** The four update phases, after the structural ones, in the applier's order. */
    method ApplyUpdates(workflow: ChangeWorkflow, ghost changes: seq<DocumentChange>,
                        paragraphTexts: seq<DocumentChange>, runTexts: seq<DocumentChange>,
                        sections: seq<DocumentChange>, tableCells: seq<DocumentChange>)
      requires workflow.Valid()
      requires paragraphTexts == PhaseList(changes, ParagraphTexts) && runTexts == PhaseList(changes, RunTexts)
      requires sections == PhaseList(changes, Sections) && tableCells == PhaseList(changes, TableCells)
      modifies editor, workflow
      ensures workflow.Valid()
      ensures Current(workflow) == Updates(old(Current(workflow)), changes)
      ensures Untouched(workflow, old(workflow.workflowId), old(workflow.documentId), old(workflow.createdAt), old(workflow.metadata))
      ensures workflow.status == old(workflow.status)
    {
      ApplyPhase(workflow, ParagraphTexts, paragraphTexts);
      ApplyPhase(workflow, RunTexts, runTexts);
      ApplyPhase(workflow, Sections, sections);
      ApplyPhase(workflow, TableCells, tableCells);
    }

    /** Everything after the deletion phase, from the insertion lists on. */
    method ApplyAfterDeletes(workflow: ChangeWorkflow, ghost changes: seq<DocumentChange>, inserts: seq<DocumentChange>,
                             paragraphTexts: seq<DocumentChange>, runTexts: seq<DocumentChange>,
                             sections: seq<DocumentChange>, tableCells: seq<DocumentChange>)
      returns (crashed: bool)
      requires workflow.Valid()
      requires inserts == AcceptedIn(changes, Inserts)
      requires paragraphTexts == PhaseList(changes, ParagraphTexts) && runTexts == PhaseList(changes, RunTexts)
      requires sections == PhaseList(changes, Sections) && tableCells == PhaseList(changes, TableCells)
      modifies editor, workflow
      ensures workflow.Valid()
      ensures var o := AfterDeletesOutcome(old(Current(workflow)), changes, old(workflow.status));
              && crashed == o.crashed
              && Current(workflow) == o.state
              && workflow.status == o.status
      ensures Untouched(workflow, old(workflow.workflowId), old(workflow.documentId), old(workflow.createdAt), old(workflow.metadata))
    {
      if !AllLocated(inserts) {
        return true;
      }
      var sorted := SortBy(inserts, false);
      ApplyPhase(workflow, Inserts, sorted);
      ApplyUpdates(workflow, changes, paragraphTexts, runTexts, sections, tableCells);
      if workflow.AllChangesReviewed() {
        workflow.status := Completed;
      }
      return false;
    }

    /**
     * `apply_workflow`: the document, the change list, the clock and the workflow
     * status end as `Apply` says, including the early stop when a deletion or an
     * insertion has no paragraph locator to sort by.
     */
    method ApplyWorkflow(workflow: ChangeWorkflow) returns (crashed: bool)
      requires workflow.Valid()
      modifies editor, workflow
      ensures workflow.Valid()
      ensures var o := Apply(old(editor.document), old(workflow.changes), old(workflow.updatedAt), old(workflow.status));
              && crashed == o.crashed
              && Current(workflow) == o.state
              && workflow.status == o.status
      ensures Untouched(workflow, old(workflow.workflowId), old(workflow.documentId), old(workflow.createdAt), old(workflow.metadata))
    {
      ghost var changes := workflow.changes;
      var accepted := workflow.AcceptedChanges();
      var paragraphTexts, runTexts, inserts, deletes, sections, tableCells := Separate(accepted);
      assert accepted == WithStatus(changes, Accepted);
      assert paragraphTexts == PhaseList(changes, ParagraphTexts) && runTexts == PhaseList(changes, RunTexts);
      assert sections == PhaseList(changes, Sections) && tableCells == PhaseList(changes, TableCells);

      if !AllLocated(deletes) {
        return true;
      }
      var sorted := SortBy(deletes, true);
      ApplyPhase(workflow, Deletes, sorted);
      crashed := ApplyAfterDeletes(workflow, changes, inserts, paragraphTexts, runTexts, sections, tableCells);
    }
  }
}
