/**
 * Concrete runs of the applier: a run-level text update (the case where the
 * applier as written and the intended applier part ways) and a batch of
 * deletions given in ascending order.
 */
module ApplierExamples {
  import opened Wrappers
  import opened ChangeModel
  import opened WorkflowModel
  import opened DocumentModel
  import opened ApplierOrder
  import opened ApplierSpec
  import opened ApplierProperties

  const BoldFormat := NoRunFormat.(bold := Some(true))

  /** Paragraph 1 reads "This is bold", with "bold" as a separate, bold run. */
  function SampleDocument(): Document {
    Document([Paragraph(DefaultParagraphStyle, NoParagraphFormat, [Run("Paragraph 0", NoRunFormat)]),
              Paragraph(DefaultParagraphStyle, NoParagraphFormat, [Run("This is ", NoRunFormat), Run("bold", BoldFormat)])],
             [])
  }

  /** An accepted text update of run 1 of paragraph 1. */
  function RunUpdate(): DocumentChange {
    DocumentChange(ChangeId(0), "sample.docx", TextUpdate, ParagraphLoc(1, Some(1)), 0,
                   Some(Text("bold")), Some(Text("**strong**")), None, Accepted, None)
  }

  /**
   * As written, the run update cannot succeed: the document keeps "bold" and the
   * change is marked failed, although paragraph 1 does have a run 1.
   */
  lemma RunUpdateAsWritten()
    ensures RunExists(SampleDocument(), 1, 1)
    ensures var r := RunTextStepAsWritten(State(SampleDocument(), [RunUpdate()], 1), RunUpdate());
            && r.doc.paragraphs[1].runs[1].text == "bold"
            && r.changes[0].status == Failed
  {
    var st := State(SampleDocument(), [RunUpdate()], 1);
    assert FirstIndexOfId(st.changes, ChangeId(0)) == Some(0);
  }

  /** The document the intended run update produces. */
  function UpdatedSample(): Document {
    Document([Paragraph(DefaultParagraphStyle, NoParagraphFormat, [Run("Paragraph 0", NoRunFormat)]),
              Paragraph(DefaultParagraphStyle, NoParagraphFormat, [Run("This is ", NoRunFormat), Run("**strong**", BoldFormat)])],
             [])
  }

  lemma SampleRunStep()
    ensures RunTextStep(State(SampleDocument(), [RunUpdate()], 1), RunUpdate())
         == State(UpdatedSample(), [RunUpdate().(status := Applied)], 2)
  {
    assert RunExists(SampleDocument(), 1, 1);
    var u := UpdateRunText(SampleDocument(), 1, 1, "**strong**");
    assert u.paragraphs[1].runs == UpdatedSample().paragraphs[1].runs;
    assert u == UpdatedSample();
    assert FirstIndexOfId([RunUpdate()], ChangeId(0)) == Some(0);
  }

  /**
   * With the run-level update the applier means to call, the same change
   * rewrites the run's text, keeps it bold, leaves its neighbour alone and is
   * marked applied.
   */
  lemma RunUpdateIntended()
    ensures var r := RunTextStep(State(SampleDocument(), [RunUpdate()], 1), RunUpdate());
            && r.doc.paragraphs[1].runs == [Run("This is ", NoRunFormat), Run("**strong**", BoldFormat)]
            && r.changes[0].status == Applied
  {
    SampleRunStep();
  }

  /**
   * A workflow whose only change is an accepted run-level text update: the run
   * does not stop early, the run's text is replaced when the paragraph and the run
   * exist (the change is applied) and nothing changes otherwise (it fails), and
   * the workflow completes.
   */
  lemma SingleRunUpdate(d: Document, c: DocumentChange, clock: nat, status: WorkflowStatus)
    requires c.status == Accepted && BucketOf(c) == Some(RunTexts) && c.newValue.Some?
    ensures var o := Apply(d, [c], clock, status);
            var i, r := c.location.paragraphIndex, c.location.runIndex.value;
            var ok := RunExists(d, i, r);
            && !o.crashed
            && o.state.doc == (if ok then UpdateRunText(d, i, r, Render(c.newValue.value)) else d)
            && o.state.changes == [c.(status := if ok then Applied else Failed)]
            && o.status == Completed
  {
    var after := RunTextStep(State(d, [c], clock), c);
    SingleApply(d, c, clock, status);
    SingleRunStep(d, c, clock);
    assert Apply(d, [c], clock, status) == Finish(after, status);
    assert AllReviewed(after.changes);
  }

  /** Applying a workflow whose only change is an accepted run-level text update is that one step. */
  lemma SingleApply(d: Document, c: DocumentChange, clock: nat, status: WorkflowStatus)
    requires c.status == Accepted && BucketOf(c) == Some(RunTexts)
    ensures Apply(d, [c], clock, status) == Finish(RunTextStep(State(d, [c], clock), c), status)
  {
    var cs := [c];
    SinglePhases(c, RunTexts);
    var st := State(d, cs, clock);
    var after := RunTextStep(st, c);
    assert AfterDeletes(d, cs, clock) == st;
    assert RunPhase(RunTexts, st, cs) == after;
    assert Updates(st, cs) == after;
    assert AfterDeletesOutcome(st, cs, status) == Finish(after, status) by {
      assert RunPhase(Inserts, st, []) == st;
    }
  }

  /** The run-level step on a workflow holding only that change: the run is rewritten, or the change fails. */
  lemma SingleRunStep(d: Document, c: DocumentChange, clock: nat)
    requires c.status == Accepted && BucketOf(c) == Some(RunTexts) && c.newValue.Some?
    ensures var after := RunTextStep(State(d, [c], clock), c);
            var i, r := c.location.paragraphIndex, c.location.runIndex.value;
            var ok := RunExists(d, i, r);
            && after.doc == (if ok then UpdateRunText(d, i, r, Render(c.newValue.value)) else d)
            && after.changes == [c.(status := if ok then Applied else Failed)]
  {
    var after := RunTextStep(State(d, [c], clock), c);
    assert FirstIndexOfId([c], c.id) == Some(0);
    assert after.changes == [c.(status := after.changes[0].status)];
  }

  /** A single accepted change of bucket `b` is the only work, and it is in phase `b`. */
  lemma SinglePhases(c: DocumentChange, b: Bucket)
    requires c.status == Accepted && BucketOf(c) == Some(b)
    ensures forall x :: PhaseList([c], x) == if x == b then [c] else []
  {
    var cs := [c];
    assert WithStatus(cs, Accepted) == cs by {
      assert WithStatus(cs, Accepted) == [c] + WithStatus([], Accepted);
    }
    forall x
      ensures InBucket(cs, x) == if x == b then cs else []
    {
      assert cs[..0] == [];
    }
  }

  function Letter(t: string): Paragraph {
    Paragraph(DefaultParagraphStyle, NoParagraphFormat, [Run(t, NoRunFormat)])
  }

  /** An accepted deletion of paragraph `index`. */
  predicate AcceptedDeletion(x: DocumentChange, index: int) {
    x.status == Accepted && x.changeType == ParagraphDelete && x.location.ParagraphLoc? && x.location.paragraphIndex == index
  }

  /** Both deletions are accepted and go to the deletion bucket, in list order. */
  lemma TwoDeletions(x: DocumentChange, y: DocumentChange)
    requires AcceptedDeletion(x, 1) && AcceptedDeletion(y, 3)
    ensures AcceptedIn([x, y], Deletes) == [x, y]
  {
    var cs := [x, y];
    assert WithStatus(cs, Accepted) == cs by {
      assert WithStatus(cs[1..], Accepted) == cs[1..] by {
        assert WithStatus(cs[1..], Accepted) == cs[1..] + WithStatus([], Accepted);
      }
    }
    assert cs[..1] == [x];
    assert cs[..1][..0] == [];
  }

  /** Keeping all but positions 1 and 3 of four paragraphs leaves the first and the third. */
  lemma KeepSample(p0: Paragraph, p1: Paragraph, p2: Paragraph, p3: Paragraph)
    ensures Keep([p0, p1, p2, p3], {1, 3}) == [p0, p2]
  {
    var gone := {1, 3};
    assert Keep([], gone) == [];
    assert Keep([p0], gone) == [p0] by {
      assert [p0][..0] == [];
    }
    assert Keep([p0, p1], gone) == [p0] by {
      assert [p0, p1][..1] == [p0];
    }
    assert Keep([p0, p1, p2], gone) == [p0, p2] by {
      assert [p0, p1, p2][..2] == [p0, p1];
    }
    assert [p0, p1, p2, p3][..3] == [p0, p1, p2];
  }

  /**
   * Deleting paragraphs 1 and 3 of four, listed in ascending order, leaves the
   * first and the third: the deletions run from the highest index down, so the
   * first one does not shift the second.
   */
  lemma DeletionsByOriginalIndex(p0: Paragraph, p1: Paragraph, p2: Paragraph, p3: Paragraph, tables: seq<Table>,
                                 x: DocumentChange, y: DocumentChange)
    requires AcceptedDeletion(x, 1) && AcceptedDeletion(y, 3)
    ensures AfterDeletes(Document([p0, p1, p2, p3], tables), [x, y], 0).doc.paragraphs == [p0, p2]
  {
    var d := Document([p0, p1, p2, p3], tables);
    TwoDeletions(x, y);
    TwoDeletionKeys(x, y);
    DeletionsRemoveExactly(d, [x, y], 0);
    KeepSample(p0, p1, p2, p3);
  }

  /** The two deletions have the distinct keys 1 and 3. */
  lemma TwoDeletionKeys(x: DocumentChange, y: DocumentChange)
    requires AcceptedDeletion(x, 1) && AcceptedDeletion(y, 3)
    ensures DistinctKeys([x, y]) && KeySet([x, y]) == {1, 3}
  {
    var cs := [x, y];
    assert Key(cs[0]) == 1 && Key(cs[1]) == 3;
    assert cs[0] in cs && cs[1] in cs;
    assert forall e :: e in cs ==> e == cs[0] || e == cs[1];
  }
}
