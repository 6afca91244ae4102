# Document editing workflow and element chunker, in Dafny

This project models the editing core of a document assistant.
- A **change record** is a proposed edit to a Word document: its type, where it applies, the old and new values, and its review status.
- A **change workflow** holds a document's change records in order while they are reviewed.
- The **Word editor** edits one document in place.
- The **workflow applier** takes the accepted changes of a workflow and applies them to the document. Deletions go first, by descending paragraph index. Insertions follow, by ascending index. Then come paragraph text, run text, section and table cell updates, in list order. Each change it handles is marked applied or failed, and at the end the workflow is completed when nothing is still proposed.
- The **change detector** compares two documents paragraph by paragraph and proposes text updates, plus insertions or deletions at the tail.
- The **element chunker** packs parsed elements into chunks of bounded size that overlap, with merged metadata.

Modules, one per concern:
- `Wrappers` holds the optional value.
- `Strings` holds Python's string operations as used by the core: `in`, `lstrip`, `strip`, `split(" ")[-1]`, `isdigit`, `int`, `str`.
- `ChangeModel` holds change records and the source of change ids.
- `WorkflowModel` holds the workflow's pure part and the `ChangeWorkflow` class.
- `DocumentModel` holds the document as a value, with the pure meaning of every editor operation.
- `WordEditing` holds the `WordEditor` class. Its methods do the editor's loops and are proved to produce what `DocumentModel` says.
- `ApplierOrder` holds the bucketing and the stable sort by paragraph index.
- `ApplierSpec` holds what applying a workflow does, as functions on values.
- `WorkflowApplier` holds the `WorkflowApplier` class. Its methods update the editor's document and the workflow in place, phase by phase, and are proved equal to `ApplierSpec`.
- `ApplierProperties` holds what an application guarantees: statuses, early stops, which changes the document depends on, and deletions by original index.
- `ApplierExamples` holds worked cases, including both sides of the finding below.
- `ChangeDetection` holds the positional detector.
- `Chunking` holds the element chunker.

Conventions:
- Change ids are serial numbers from a `ChangeIdSource`, which stands in for `uuid4` and hands out pairwise distinct ids.
- Timestamps and `updated_at` are ticks of a logical clock. Each status write or append moves the clock on by one tick.
- The detector is given the paragraph texts of the two documents rather than file paths.

Points where the code's behaviour is easy to misread:
- Not every accepted change ends applied or failed. The bucketing at `workflow_applier.py:44-58` has no bucket for format changes, row additions, or text updates not located at a paragraph, and the test at line 92 has no `else`, so an insertion without a paragraph locator or a value is skipped. These stay accepted, as `ApplierProperties.ApplySettles` states.
- `all_changes_reviewed` (`workflow_model.py:72-78`) counts accepted changes as reviewed, so the completion test at `workflow_applier.py:232` passes as soon as no change is still *proposed*, including when accepted changes were never applied.
- A paragraph text update with an out-of-range index is marked applied: `update_paragraph_text` (`word_editor.py:288-291`) only warns and returns, and `workflow_applier.py:162` then writes applied (`ApplierSpec.ParagraphTextStep`).
- An insertion with an out-of-range index is marked failed by the `else` at `workflow_applier.py:142`, which pairs with the range test at line 100. Inside that test, line 124 or the range test at line 133 always holds, so lines 136-139 can never run.
- A deletion or insertion without a paragraph locator raises in the sort key, outside any `try`. That ends the whole run (`ApplierProperties.ApplyStopsEarly`).
- The chunker test `tests/test_processing_pipeline.py:215-223` expects two elements of 16 characters each to give two chunks at size 50. The code puts both into one chunk, "Chunk 1 content.Chunk 2 content.". The newline it puts in front of each content is removed again by `lstrip`. See `Chunking.FittingElementsOneChunk`.

## Model

| member | source | states |
|---|---|---|
| ChangeModel.ParseChangeType | src/editing/change_model.py:8-16 | exactly the seven stored change-type values are accepted, each giving the type it names; anything else is rejected |
| ChangeModel.ChangeTypeRoundTrip | src/editing/change_model.py:8-16 | every change type read back from its stored value is itself |
| ChangeModel.ParseChangeStatus | src/editing/change_model.py:19-25 | exactly the five stored status values are accepted, each giving the status it names |
| ChangeModel.StatusRoundTrip | src/editing/change_model.py:19-25 | every status read back from its stored value is itself |
| ChangeModel.Render | src/editing/workflow_applier.py:129 | `str(new_value)`: a text renders as itself, another value as its rendering, and a list as bracketed text (`[]` when empty) |
| ChangeModel.DefaultsOfNewChange | src/editing/change_model.py:48-69 | a change created without them is proposed, with no old or new value; a paragraph locator has no run index and a section locator no style name |
| ChangeModel.ChangeIdSource.constructor | src/editing/change_model.py:52 | a new id source has issued nothing |
| ChangeModel.ChangeIdSource.Fresh | src/editing/change_model.py:52 | the id handed out differs from every id issued before, and is recorded as issued |
| WorkflowModel.WithStatus | src/editing/workflow_model.py:61-70 | the filter holds exactly the changes with that status, and is no longer than the list |
| WorkflowModel.WithStatusAppend | src/editing/workflow_model.py:61-70 | filtering keeps list order: the filter of a concatenation is the concatenation of the filters |
| WorkflowModel.StatusPartition | src/editing/workflow_model.py:61-70 | the five status filters partition the list: their sizes add up to its length |
| WorkflowModel.AllReviewed | src/editing/workflow_model.py:72-78 | all changes are reviewed iff none is proposed; true for an empty list |
| WorkflowModel.AllReviewedIffNoneProposed | src/editing/workflow_model.py:72-102 | all changes are reviewed iff the proposed filter is empty |
| WorkflowModel.FirstIndexOfId | src/editing/workflow_model.py:30-42 | the lookup finds the first position holding the id, and finds none iff no change has it |
| WorkflowModel.FirstIndexDependsOnIds | src/editing/workflow_model.py:30-42 | lookup depends on the ids alone: lists with the same ids position by position look up alike |
| WorkflowModel.SetStatusById | src/editing/workflow_model.py:44-59 | a status overwrite keeps every id and every other field of every change, and changes nothing when the id is absent |
| WorkflowModel.StatusAfterSet | src/editing/workflow_model.py:44-59 | after an overwrite the id looks up the new status (if it was present), and every other id looks up its old status |
| WorkflowModel.StatusAfterSetOthers | src/editing/workflow_model.py:44-59 | an overwrite leaves the looked-up status of every other id as it was |
| WorkflowModel.StatusAfterAppend | src/editing/workflow_model.py:21-42 | appending a change leaves every lookup that succeeded as it was; only an id not yet present can find the new change |
| WorkflowModel.ChangeWorkflow.constructor | src/editing/workflow_model.py:9-19 | a new workflow is active, has no changes and no metadata, and was created and updated at the given time |
| WorkflowModel.ChangeWorkflow.AddChange | src/editing/workflow_model.py:21-28 | the change is appended, the update time moves on, nothing else changes, and the update time stays at or after the creation time |
| WorkflowModel.ChangeWorkflow.IndexOfChange | src/editing/workflow_model.py:39-42 | the front-to-back search returns the first position holding the id |
| WorkflowModel.ChangeWorkflow.GetChangeById | src/editing/workflow_model.py:30-42 | returns the first change with the id, and none iff no change has it |
| WorkflowModel.ChangeWorkflow.UpdateChangeStatus | src/editing/workflow_model.py:44-59 | succeeds iff some change has the id; that first change takes the new status (any status: there is no transition check) and the update time moves on; failure changes nothing |
| WorkflowModel.ChangeWorkflow.ChangesByStatus | src/editing/workflow_model.py:61-70 | exactly the workflow's changes with that status |
| WorkflowModel.ChangeWorkflow.AllChangesReviewed | src/editing/workflow_model.py:72-78 | true iff no change is still proposed |
| WorkflowModel.ChangeWorkflow.AcceptedChanges | src/editing/workflow_model.py:80-86 | exactly the accepted changes |
| WorkflowModel.ChangeWorkflow.RejectedChanges | src/editing/workflow_model.py:88-94 | exactly the rejected changes |
| WorkflowModel.ChangeWorkflow.ProposedChanges | src/editing/workflow_model.py:96-102 | exactly the proposed changes |
| Strings.Contains | src/editing/word_editor.py:55 | `sub in s` is true iff some window of `s` equals `sub` |
| Strings.LStrip | src/processors/chunking.py:31 | `lstrip` gives a suffix that does not start with whitespace, and the whole string when it starts with none |
| Strings.LStripDropsOnlySpace | src/processors/chunking.py:31 | `lstrip` drops only whitespace |
| Strings.RStrip | src/editing/word_editor.py:65 | `rstrip` gives a prefix that does not end with whitespace |
| Strings.RStripDropsOnlySpace | src/editing/word_editor.py:65 | `rstrip` drops only whitespace |
| Strings.StripIsBothStrips | src/editing/word_editor.py:65 | `strip` is `rstrip` after `lstrip` |
| Strings.LastField | src/editing/word_editor.py:59 | `split(" ")[-1]` is the space-free suffix after the last space, or the whole string when it has none |
| Strings.NatToString | src/editing/change_detector.py:72 | `str(i)` of an index is a string of decimal digits |
| Strings.NatToStringRoundTrip | src/editing/word_editor.py:60-61 | `int(str(n)) == n` |
| DocumentModel.RunsText | src/editing/word_editor.py:275 | a paragraph's text joins its runs' texts: empty without runs, the run's text with one |
| DocumentModel.NewParagraph | src/editing/word_editor.py:149-153 | a new paragraph reads back its text, has the given style or the default one, and has no direct formatting |
| DocumentModel.NewParagraphs | src/editing/word_editor.py:113-121 | one new default-style paragraph per text, in order |
| DocumentModel.GetParagraphText | src/editing/word_editor.py:268-276 | the text of the paragraph when the index is in range, "" otherwise |
| DocumentModel.GetListItemText | src/editing/word_editor.py:246-254 | a list item reads as a paragraph |
| DocumentModel.RemoveAt | src/editing/word_editor.py:169-171 | removing paragraph `i` keeps those before it and moves those after it up one place |
| DocumentModel.InsertAt | src/editing/word_editor.py:152-153 | inserting at `k` places the paragraph at `k`, keeps those before it and moves the rest down one place |
| DocumentModel.DeleteParagraph | src/editing/word_editor.py:156-172 | an in-range deletion removes exactly that paragraph; out of range nothing changes; tables never change |
| DocumentModel.InsertParagraphAfter | src/editing/word_editor.py:126-154 | an in-range insertion puts the new paragraph right after paragraph `i`; out of range nothing changes |
| DocumentModel.ParseLevel | src/editing/word_editor.py:58-61 | a heading level is found only when the style's last word is all digits |
| DocumentModel.FindHeading | src/editing/word_editor.py:52-70 | the heading search finds the first matching paragraph (by style prefix and text containment, or by stripped text when no style is given), or none when none matches |
| DocumentModel.SectionEnd | src/editing/word_editor.py:76-95 | the section ends at the first later paragraph that is a heading of the same or a higher rank (any heading when a level is unknown), or at the end of the document |
| DocumentModel.LocateSection | src/editing/word_editor.py:49-95 | a located section's heading precedes its end, which is within the document |
| DocumentModel.LocateSectionMeaning | src/editing/word_editor.py:52-95 | there is a section iff some paragraph matches; the section starts at the first match and runs up to the first paragraph that ends it |
| DocumentModel.SpliceSection | src/editing/word_editor.py:97-121 | replacing a section body keeps the heading and everything before it, puts the new paragraphs right after it, and keeps everything from the section end on |
| DocumentModel.ReplaceTextAfterHeading | src/editing/word_editor.py:34-124 | without a matching heading the document is unchanged; tables never change |
| DocumentModel.CarriedFormat | src/editing/word_editor.py:304-385 | the new run takes bold and italic as they were, underline only when plainly on or off, font name and size only when truthy, colour, highlight, strike, sub/superscript and caps as they were, and the character style only when named |
| DocumentModel.UpdateParagraphText | src/editing/word_editor.py:278-393 | an in-range update leaves the paragraph one run reading the new text, with its style and paragraph format kept and every other paragraph untouched; the run is formatted from the old first run when style is preserved and that run exists, and has no direct format otherwise; out of range nothing changes |
| DocumentModel.UpdateRunText | src/editing/workflow_applier.py:177 | the run-level update gives run `r` the new text and keeps its format, its siblings and every other paragraph; a missing run changes nothing |
| DocumentModel.PreservedFormat | src/editing/word_editor.py:337-385 | with style preserved, every attribute the old first run set explicitly survives (bold, italic, underline, font name, size, colour, highlight, strike, sub/superscript, caps, character style), except a falsy font name, size or style name and an underline kind beyond on/off; a run with no direct format gives one with none |
| DocumentModel.GetTableCellText | src/editing/word_editor.py:175-203 | "" when the table, row or column is out of range; otherwise the cell's text |
| DocumentModel.UpdateTableCellText | src/editing/word_editor.py:205-232 | when the cell exists exactly that cell reads the new text and every other cell, row and table stays; otherwise nothing changes |
| DocumentModel.AddRowToTable | src/editing/word_editor.py:234-243 | an in-range table gains one row of empty cells at its end, one per column; out of range nothing changes |
| DocumentModel.Overlay | src/editing/word_editor.py:409-414 | a set source value wins, an unset one keeps the target's |
| DocumentModel.CopyRunFormatting | src/editing/word_editor.py:396-425 | bold, italic, underline, font name, strike, sub/superscript and caps are copied outright; size, colour and highlight only when set; the character style is the source's, or none when the source has none, and stays the target's only when the source's style name is empty |
| DocumentModel.CopyRunFormattingIdempotent | src/editing/word_editor.py:396-425 | copying a run's formatting twice is the same as once |
| DocumentModel.CopyRunFormattingOntoItself | src/editing/word_editor.py:396-425 | copying a run's formatting onto itself changes nothing |
| DocumentModel.CarriedFormatIsCopy | src/editing/word_editor.py:304-425 | the format a text update carries onto its new run is the run-format copy onto a fresh run, when the first run has no empty names, no zero size and no special underline |
| DocumentModel.CopyParagraphFormatting | src/editing/word_editor.py:428-473 | the style is copied when named and the runs stay; each of alignment, the indents, spacing, line spacing and its rule, keep-together, keep-with-next, page-break-before and widow control takes the source's value when set and keeps the target's otherwise; so an unformatted source leaves the target's format, and an unformatted target takes the source's format whole |
| DocumentModel.OverlayParagraphFormat | src/editing/word_editor.py:443-473 | every paragraph-format attribute is the source's when set, else the target's |
| DocumentModel.CopyParagraphFormattingIdempotent | src/editing/word_editor.py:428-473 | copying paragraph formatting twice is the same as once |
| DocumentModel.CopyParagraphFormattingOntoItself | src/editing/word_editor.py:428-473 | copying a paragraph's formatting onto itself changes nothing |
| DocumentModel.ReadAfterDelete | src/editing/word_editor.py:156-172 | after deleting paragraph `i`, reading `i` gives the text of the paragraph that followed |
| DocumentModel.ReadAfterInsert | src/editing/word_editor.py:126-154 | after inserting after `i`, reading `i + 1` gives the new text and reading `i` the old one |
| DocumentModel.ReadAfterUpdate | src/editing/word_editor.py:278-293 | after an in-range text update, reading the paragraph gives the new text |
| DocumentModel.ReadAfterCellUpdate | src/editing/word_editor.py:205-232 | after a successful cell update, reading the cell gives the new text |
| DocumentModel.ReadAfterAddRow | src/editing/word_editor.py:234-243 | a new row's cells read back as "" |
| DocumentModel.HeadingStyleLevel | src/editing/word_editor.py:58-61 | the style "Heading n" announces level n |
| WordEditing.WordEditor.constructor | src/editing/word_editor.py:11-22 | the editor holds the loaded document, or an empty one; with no argument, as by default, an empty one |
| WordEditing.WordEditor.AddParagraph | src/editing/word_editor.py:149 | the new paragraph is appended after all others |
| WordEditing.WordEditor.InsertParagraphBefore | src/editing/word_editor.py:153 | the new paragraph takes position `k`, the rest move down |
| WordEditing.WordEditor.DeleteParagraph | src/editing/word_editor.py:156-172 | succeeds iff the index is in range, leaving the document `DocumentModel.DeleteParagraph` describes |
| WordEditing.WordEditor.InsertParagraphAfter | src/editing/word_editor.py:126-154 | returns the new paragraph iff the index is in range; the document is `DocumentModel.InsertParagraphAfter`'s |
| WordEditing.WordEditor.FindHeadingIndex | src/editing/word_editor.py:52-70 | the search loop returns the first matching heading |
| WordEditing.WordEditor.FindSectionEnd | src/editing/word_editor.py:76-95 | the boundary loop returns the section end, which lies after the heading |
| WordEditing.WordEditor.RemoveSectionBody | src/editing/word_editor.py:97-101 | the backward deletion loop removes exactly the paragraphs strictly between heading and end |
| WordEditing.WordEditor.InsertParagraphsAt | src/editing/word_editor.py:103-121 | the forward insertion loop puts one paragraph per text, in order, at the anchor position, or at the end |
| WordEditing.WordEditor.ReplaceTextAfterHeading | src/editing/word_editor.py:34-124 | succeeds iff a heading matches, leaving the document `DocumentModel.ReplaceTextAfterHeading` describes |
| WordEditing.WordEditor.UpdateParagraphText | src/editing/word_editor.py:278-393 | clearing the runs from the back and adding one run gives `DocumentModel.UpdateParagraphText`'s document |
| WordEditing.WordEditor.UpdateRunText | src/editing/workflow_applier.py:177 | succeeds iff the run exists, leaving `DocumentModel.UpdateRunText`'s document |
| WordEditing.WordEditor.UpdateListItemText | src/editing/word_editor.py:256-263 | a list item is updated as a paragraph |
| WordEditing.WordEditor.UpdateTableCellText | src/editing/word_editor.py:205-232 | succeeds iff the cell exists, leaving `DocumentModel.UpdateTableCellText`'s document |
| WordEditing.WordEditor.AddRowToTable | src/editing/word_editor.py:234-243 | returns a row of empty cells, one per column, iff the table exists; the document is `DocumentModel.AddRowToTable`'s |
| ApplierOrder.BucketOf | src/editing/workflow_applier.py:44-59 | each bucket receives exactly its kind of change; text updates only when located at a paragraph (at a run when a run index is given); format changes, row additions and other text updates go nowhere |
| ApplierOrder.InBucket | src/editing/workflow_applier.py:44-59 | a bucket holds exactly the changes that belong to it |
| ApplierOrder.InBucketUniqueIds | src/editing/workflow_applier.py:44-59 | bucketing keeps ids distinct |
| ApplierOrder.InsertSortedPermutes | src/editing/workflow_applier.py:62 | placing one change adds exactly that change |
| ApplierOrder.InsertSortedSorted | src/editing/workflow_applier.py:62 | placing a change into a sorted list keeps it sorted |
| ApplierOrder.SortBySorted | src/editing/workflow_applier.py:62 | deletions come out by descending index, insertions (line 83) by ascending index |
| ApplierOrder.SortByPermutation | src/editing/workflow_applier.py:62 | the sort is a permutation: the same changes, as many times each |
| ApplierOrder.SortByPermutes | src/editing/workflow_applier.py:62 | sorting keeps exactly the changes present, and their ids |
| ApplierOrder.InsertSortedStable | src/editing/workflow_applier.py:62 | a change placed into a sorted list goes after every change with the same key |
| ApplierOrder.SortByStable | src/editing/workflow_applier.py:62 | the sort is stable in both directions: changes sharing a key keep their order |
| ApplierOrder.SortByUniqueIds | src/editing/workflow_applier.py:62 | sorting keeps ids distinct |
| ApplierOrder.SortByDistinctKeys | src/editing/workflow_applier.py:62 | sorting keeps keys distinct |
| ApplierSpec.Mark | src/editing/workflow_model.py:44-59 | a status write changes only statuses; the id then looks up the new status and the clock moves on; other ids keep theirs; an absent id changes nothing |
| ApplierSpec.DeleteStep | src/editing/workflow_applier.py:63-76 | a deletion removes the paragraph and is applied when its index is in range; otherwise the document stays and it fails |
| ApplierSpec.InsertedDoc | src/editing/workflow_applier.py:122-135 | each of the three insertion routes puts the new paragraph at position `k` |
| ApplierSpec.InsertStep | src/editing/workflow_applier.py:90-147 | an insertion with locator and value is placed at its index and applied when it is in range, else fails; without locator or value nothing changes |
| ApplierSpec.ParagraphTextStep | src/editing/workflow_applier.py:157-168 | with locator and value the paragraph is rewritten and the change applied, even out of range; otherwise it fails |
| ApplierSpec.RunTextStep | src/editing/workflow_applier.py:170-187 | the run is rewritten and the change applied iff the paragraph and the run exist; otherwise the document stays and it fails |
| ApplierSpec.RunTextStepAsWritten | src/editing/workflow_applier.py:170-187 | as written, a run update never changes the document and always fails |
| ApplierSpec.SectionStep | src/editing/workflow_applier.py:190-208 | with a section locator and a list, the section is replaced and applied iff the heading is found; otherwise the document stays and it fails |
| ApplierSpec.TableCellStep | src/editing/workflow_applier.py:210-229 | the cell is rewritten and applied iff it exists; otherwise the document stays and it fails |
| WorkflowApplier.WorkflowApplier.constructor | src/editing/workflow_applier.py:12-19 | the applier works through the given editor |
| WorkflowApplier.WorkflowApplier.SetStatus | src/editing/workflow_applier.py:68 | a status write through the workflow is `ApplierSpec.Mark` |
| WorkflowApplier.WorkflowApplier.ApplyDelete | src/editing/workflow_applier.py:63-76 | the editor and the workflow end as `ApplierSpec.DeleteStep` says |
| WorkflowApplier.WorkflowApplier.ApplyInsert | src/editing/workflow_applier.py:90-147 | the editor and the workflow end as `ApplierSpec.InsertStep` says |
| WorkflowApplier.WorkflowApplier.ApplyParagraphText | src/editing/workflow_applier.py:157-168 | the editor and the workflow end as `ApplierSpec.ParagraphTextStep` says |
| WorkflowApplier.WorkflowApplier.ApplyRunText | src/editing/workflow_applier.py:170-187 | the editor and the workflow end as `ApplierSpec.RunTextStep` says |
| WorkflowApplier.WorkflowApplier.ApplySection | src/editing/workflow_applier.py:190-208 | the editor and the workflow end as `ApplierSpec.SectionStep` says |
| WorkflowApplier.WorkflowApplier.ApplyTableCell | src/editing/workflow_applier.py:210-229 | the editor and the workflow end as `ApplierSpec.TableCellStep` says |
| WorkflowApplier.WorkflowApplier.ApplyPhase | src/editing/workflow_applier.py:157-168 | a phase loop applies its list front to back, as `ApplierSpec.RunPhase` says |
| WorkflowApplier.WorkflowApplier.Separate | src/editing/workflow_applier.py:44-59 | the bucketing loop fills each list with exactly its bucket's changes, in order |
| WorkflowApplier.WorkflowApplier.ApplyUpdates | src/editing/workflow_applier.py:150-229 | the four update phases run in the applier's order |
| WorkflowApplier.WorkflowApplier.ApplyAfterDeletes | src/editing/workflow_applier.py:83-233 | the insertion sort (which stops the run on a missing locator), the insertions, the updates and the completion test |
| WorkflowApplier.WorkflowApplier.ApplyWorkflow | src/editing/workflow_applier.py:21-233 | the document, the changes, the clock and the workflow status end as `ApplierSpec.Apply` says, including the early stop |
| ApplierProperties.StepEffect | src/editing/workflow_applier.py:63-229 | a step changes only statuses; it leaves other ids alone; it ends its own change applied or failed, except an insertion it skips |
| ApplierProperties.PhaseStatus | src/editing/workflow_applier.py:63-229 | across a phase, a change it processes ends applied or failed and every other change keeps its status |
| ApplierProperties.PhaseListFacts | src/editing/workflow_applier.py:33-62 | a phase list holds exactly the accepted changes of its bucket, without repeated ids |
| ApplierProperties.TrackPhase | src/editing/workflow_applier.py:63-229 | a workflow change ends its phase applied or failed iff it is accepted, belongs there and is not skipped |
| ApplierProperties.TrackUpdates | src/editing/workflow_applier.py:157-229 | a change followed through the four update phases ends applied or failed iff it is an accepted update |
| ApplierProperties.ApplySettles | src/editing/workflow_applier.py:33-229 | after a run that does not stop early: only statuses change; unaccepted changes keep theirs; unbucketed and skipped accepted ones stay accepted; every other accepted change ends applied or failed |
| ApplierProperties.SettledAt | src/editing/workflow_applier.py:33-229 | one change followed through all six phases: only statuses change, and its own status settles as its acceptance and bucket say |
| ApplierProperties.ApplyCompletion | src/editing/workflow_applier.py:231-233 | the workflow completes iff no change was proposed to begin with (or it was already completed) |
| ApplierProperties.ApplyStopsEarly | src/editing/workflow_applier.py:62-83 | the run stops early iff an accepted deletion or insertion has no paragraph locator: with nothing changed for a deletion, after the deletions for an insertion |
| ApplierProperties.AllLocatedIn | src/editing/workflow_applier.py:62-83 | the deletion (insertion) list is all located iff every accepted deletion (insertion) has a paragraph locator |
| ApplierProperties.PhaseDoc | src/editing/workflow_applier.py:63-229 | a phase's document depends on the starting document and the phase list only |
| ApplierProperties.UpdatesDoc | src/editing/workflow_applier.py:157-229 | the update phases' document depends on the document and the accepted changes only |
| ApplierProperties.AfterDeletesDoc | src/editing/workflow_applier.py:83-229 | everything after the deletions depends on the document and the accepted changes only |
| ApplierProperties.DocumentFromAcceptedOnly | src/editing/workflow_applier.py:33-229 | the resulting document, and whether the run stops early, depend only on the document and the accepted changes |
| ApplierProperties.ApplyWithoutAccepted | src/editing/workflow_applier.py:33-233 | with no accepted change nothing changes but the workflow status |
| ApplierProperties.Keep | src/editing/workflow_applier.py:61-76 | keeping paragraphs by position never adds any |
| ApplierProperties.KeepInRange | src/editing/workflow_applier.py:61-76 | positions beyond the document make no difference |
| ApplierProperties.KeepTail | src/editing/workflow_applier.py:61-76 | with positions below `m` only, everything from `m` on stays |
| ApplierProperties.KeepAfterRemove | src/editing/workflow_applier.py:61-76 | removing the highest position first is keeping all but it and the lower positions |
| ApplierProperties.DeletePhaseKeeps | src/editing/workflow_applier.py:61-76 | deletions at strictly decreasing indices remove exactly the paragraphs at those original positions |
| ApplierProperties.DeletePhaseStatuses | src/editing/workflow_applier.py:63-76 | each such deletion is applied iff its index is in range of the starting document, else failed |
| ApplierProperties.DeletionsRemoveExactly | src/editing/workflow_applier.py:61-76 | with located deletions at distinct indices, the deletion phase keeps exactly the paragraphs at other original positions, and each deletion is applied iff in range |
| ApplierProperties.DeletionStatuses | src/editing/workflow_applier.py:61-76 | with distinct ids, each accepted deletion is applied iff its index was in range of the original document, else failed |
| ApplierExamples.RunUpdateAsWritten | src/editing/workflow_applier.py:177 | an update of an existing run leaves "bold" unchanged and the change failed |
| ApplierExamples.SampleRunStep | src/editing/workflow_applier.py:177 | the intended run update on the sample gives the updated sample and an applied change |
| ApplierExamples.RunUpdateIntended | src/editing/workflow_applier.py:177 | the intended run update rewrites the run, keeps it bold, keeps its neighbour, and applies the change |
| ApplierExamples.SingleRunUpdate | src/editing/workflow_applier.py:170-233 | a workflow of one accepted run update: no early stop, the run is rewritten and applied iff it exists (else failed), and the workflow completes |
| ApplierExamples.SingleRunStep | src/editing/workflow_applier.py:170-187 | with the intended run-level update, the step alone rewrites the run and marks the change applied when the run exists, else leaves the document and marks it failed |
| ApplierExamples.SinglePhases | src/editing/workflow_applier.py:44-59 | a lone accepted change is the work of its own phase only |
| ApplierExamples.TwoDeletions | src/editing/workflow_applier.py:44-54 | two accepted deletions both go to the deletion bucket, in order |
| ApplierExamples.KeepSample | src/editing/workflow_applier.py:61-76 | keeping all but positions 1 and 3 of four leaves the first and the third |
| ApplierExamples.DeletionsByOriginalIndex | src/editing/workflow_applier.py:61-76 | deleting paragraphs 1 and 3 of four, listed ascending, leaves the first and the third |
| ChangeDetection.TextDiffsMeaning | src/editing/change_detector.py:59-74 | the text updates are exactly the positions below the common length where the texts differ, in ascending order |
| ChangeDetection.TailDiffsMeaning | src/editing/change_detector.py:76-98 | the tail records are exactly one per tail position, in ascending order |
| ChangeDetection.DifferencesMeaning | src/editing/change_detector.py:55-98 | a difference is reported iff the texts differ at a shared position, or the position exists only in the modified (insertion) or only in the original (deletion) |
| ChangeDetection.DifferencesOrdered | src/editing/change_detector.py:55-98 | reports ascend by index, text updates come first, and insertions and deletions never both occur |
| ChangeDetection.TailPartMeaning | src/editing/change_detector.py:76-98 | the tail records ascend, start at the common length, and are all insertions or all deletions |
| ChangeDetection.NoDifferencesIffEqual | src/editing/change_detector.py:55-98 | nothing is reported iff the two text sequences are equal |
| ChangeDetection.TextDiffsCount | src/editing/change_detector.py:59-74 | one text update per differing shared position |
| ChangeDetection.TailDiffsCount | src/editing/change_detector.py:76-98 | one tail record per tail position |
| ChangeDetection.DifferencesCount | src/editing/change_detector.py:55-98 | the number reported is the differing shared positions plus the length difference |
| ChangeDetection.FreshIdsSnoc | src/editing/change_model.py:52 | appending a change with a newly issued id keeps the ids fresh and distinct |
| ChangeDetection.RecordsSnoc | src/editing/change_detector.py:66-74 | recording one more difference appends exactly its change |
| ChangeDetection.ChangeDetector.constructor | src/editing/change_detector.py:14-34 | the document id is the given one when present and non-empty, else the original path, as when it is left at its default of none |
| ChangeDetection.ChangeDetector.DetectParagraphTextChanges | src/editing/change_detector.py:37-100 | the changes record exactly the differences, in order, as proposed changes with fresh distinct ids |
| ChangeDetection.ChangeDetector.RecordTail | src/editing/change_detector.py:76-98 | the tail loop appends one insertion or deletion per tail position, under fresh ids |
| ChangeDetection.ChangeDetector.Record | src/editing/change_detector.py:66-74 | the recorded change carries the difference's type, index, values and description under a fresh id |
| ChangeDetection.ChangeDetector.DetectAllChanges | src/editing/change_detector.py:114-121 | all changes are the paragraph text changes, the formatting and structural detectors adding none |
| ChangeDetection.RecordsAreProposed | src/editing/change_detector.py:66-98 | every detected change is proposed, has the document id and a paragraph locator, and records an expected difference |
| ChangeDetection.MidDocumentCascade | tests/test_change_detector.py:133-178 | a deletion in the middle plus an addition at the end are reported as three text updates at indices 1, 2, 3 |
| Chunking.Piece | src/processors/chunking.py:31 | what an element adds is its content left-stripped: the newline put in front never survives |
| Chunking.OverlapOf | src/processors/chunking.py:41 | the overlap is the last `chunkOverlap` characters (all when shorter), or nothing when the overlap is not positive |
| Chunking.ChunkDocumentElements | src/processors/chunking.py:3-62 | the element loop gives exactly `Chunks(elements, ...)` |
| Chunking.AddElement | src/processors/chunking.py:21-52 | one element's merge, append, or emit-and-restart is one `Step` |
| Chunking.SplitLong | src/processors/chunking.py:46-52 | the cutting loop is `Split` |
| Chunking.TokenChunksRejoin | src/processors/chunking.py:92-94 | token chunking returns the text whole, as one chunk |
| Chunking.NoElementsNoChunks | src/processors/chunking.py:3-62 | no elements, no chunks, for any valid sizes and for the default sizes 512 and 50 |
| Chunking.SplitBounded | src/processors/chunking.py:46-52 | cutting leaves bounded chunks and a buffer within the size |
| Chunking.RunBounded | src/processors/chunking.py:21-52 | after any elements the chunks are bounded and the buffer fits |
| Chunking.ChunksBounded | src/processors/chunking.py:30-60 | every chunk holds between 1 and `chunkSize` characters |
| Chunking.LoneElement | src/processors/chunking.py:21-60 | a lone fitting element gives one chunk (its stripped content and its metadata), or none when blank |
| Chunking.RunWhileFitting | src/processors/chunking.py:29-31 | while everything fits no chunk is emitted and the buffer is the stripped contents |
| Chunking.FittingElementsOneChunk | src/processors/chunking.py:29-31 | elements totalling at most the size give one chunk: stripped contents joined with no separator, all metadata merged |
| Chunking.SplitLeavesText | src/processors/chunking.py:46-52 | cutting a non-empty buffer leaves a non-empty one and emits at least one chunk when too long |
| Chunking.LongElementSeveralChunks | src/processors/chunking.py:45-52 | a lone element longer than the size once stripped gives more than one chunk |
| Chunking.SplitKeepsText | src/processors/chunking.py:46-52 | without overlap cutting loses and repeats nothing |
| Chunking.RunKeepsText | src/processors/chunking.py:21-52 | without overlap the chunks and buffer put together are the stripped contents |
| Chunking.StepKeepsText | src/processors/chunking.py:21-52 | without overlap, one element step keeps chunks plus buffer equal to the stripped contents so far |
| Chunking.ChunksWithoutOverlap | src/processors/chunking.py:29-60 | without overlap the chunks put together are exactly the stripped contents, in order |
| Chunking.SplitOverlaps | src/processors/chunking.py:46-52 | each piece cut starts with the overlap of the piece before |
| Chunking.RunOverlaps | src/processors/chunking.py:21-52 | after any elements each chunk, and the buffer, start with the overlap of the chunk before |
| Chunking.StepOverlaps | src/processors/chunking.py:30-52 | one element keeps that overlap |
| Chunking.CutOverlaps | src/processors/chunking.py:49-52 | a piece cut from a too-long buffer leaves a rest that starts with the piece's overlap |
| Chunking.RestartOverlaps | src/processors/chunking.py:33-52 | an emit-and-restart keeps that overlap |
| Chunking.ChunksOverlap | src/processors/chunking.py:40-60 | with an overlap below the size, each chunk starts with the last `chunkOverlap` characters of the one before |
| Chunking.OfRunGrow | src/processors/chunking.py:27 | merged metadata of a run stays such when elements are added |
| Chunking.FromRunsGrow | src/processors/chunking.py:27 | chunks made of runs stay so when elements are added |
| Chunking.MergedSnoc | src/processors/chunking.py:27 | merging one more element's metadata lets its keys win |
| Chunking.SplitFromRuns | src/processors/chunking.py:46-52 | pieces cut carry a run's merged metadata |
| Chunking.SplitMeta | src/processors/chunking.py:49-52 | cutting keeps the buffer's metadata |
| Chunking.RunFromRuns | src/processors/chunking.py:21-52 | after any elements, chunks carry runs' metadata and the buffer the metadata merged since the last restart |
| Chunking.StepFromRuns | src/processors/chunking.py:27-52 | one element keeps that, restarting the buffer's metadata at the element that did not fit |
| Chunking.RestartStep | src/processors/chunking.py:33-52 | the emit-and-restart case keeps every chunk's metadata the merge of a run of consecutive elements |
| Chunking.SplitCuts | src/processors/chunking.py:47-51 | cutting keeps the chunks before it and every piece it cuts carries the buffer's metadata |
| Chunking.StepOverflowCuts | src/processors/chunking.py:27-51 | an element that does not fit keeps the chunks so far, emits a non-empty buffer with its metadata merged with the element's, and every piece cut after carries the element's metadata |
| Chunking.OverflowMetadata | src/processors/chunking.py:27-51 | when an element does not fit, the emitted buffer's metadata is the merge of the elements from the last restart through this one, and every piece cut after it has this element's metadata alone |
| Chunking.ChunkMetadata | src/processors/chunking.py:27-59 | every chunk's metadata is the merge, in order, of a run of consecutive elements |

## Findings

| source | as written | input that shows it | evidently intended | confidence | as-written member | corrected member |
|---|---|---|---|---|---|---|
| src/editing/workflow_applier.py:177 | a run-level text update calls `self.word_editor._update_run_text(...)`, which `WordEditor` does not define; the `AttributeError` is caught and every such change is marked failed, with the document unchanged | paragraph 1 with runs "This is " and bold "bold", and an accepted text update at paragraph 1, run 1, to "**strong**" | the run takes the new text and keeps its formatting, and the change is applied; a missing run fails | not executed | ApplierExamples.RunUpdateAsWritten | ApplierExamples.RunUpdateIntended |

The as-written behaviour is `ApplierSpec.RunTextStepAsWritten`. The corrected behaviour is `ApplierSpec.RunTextStep`, performed by `WordEditing.WordEditor.UpdateRunText` and `DocumentModel.UpdateRunText`. The rest of the model uses the corrected one, and `ApplierExamples.SingleRunUpdate` proves it over all documents.

## Left out

- File I/O: loading and saving `.docx` files, the editor's `save_document`, and the detector's file paths, which are kept but not opened. The detector is given the paragraph texts of both documents.
- The `import` at `workflow_applier.py:3` names `ChangeWorkflow` from the wrong module. The model takes the workflow class from its own module.
- `workflow_applier.py:234` refers to `datetime`, which is never imported. It would raise `NameError` after the completion test; the model ends at line 233.
- `uuid4` and `datetime.utcnow` are replaced by a `ChangeIdSource` of distinct serial ids and by a logical clock passed as a parameter.
- Warnings and notes written with `print`.
- Style lookups that raise `KeyError` for an unknown style name. The model always finds the style.
- `isdigit` accepts Unicode digits; the model accepts only ASCII digits.
- `str()` of a list does not escape quotes inside its items in the model.
- The interleaving of paragraphs and tables in the document body. The model keeps two separate sequences.
- Pydantic validation and serialisation.
- Metadata values of any type: the model narrows them to strings.
- Formatting values are narrowed to numbers and names. A line spacing given as a float is not modelled.
- `copy_run_formatting` and `copy_paragraph_formatting` change live objects that may be shared. The model gives them as functions on values, so aliasing is not captured.
- Negative run indices, which Python would count from the end. `DocumentModel.UpdateRunText` treats them as missing.
- Change ids are assumed distinct: the status lemmas of `ApplierProperties` require it. A workflow with repeated ids writes every status onto the first change with that id. `WorkflowModel` and `ApplierSpec` model that case too, but no guarantee is stated for it.
- ApplierProperties.ApplySettles: states the statuses only for a run that does not stop early. A run that stops early is covered by `ApplyStopsEarly`.
- Chunking.ChunkDocumentElements: requires `chunkSize > 0` and `chunkOverlap < chunkSize`. Outside that range the source's cutting loop can spin forever: when the overlap equals the size, when the overlap exceeds twice the size once cutting starts, or when the size is not positive and an element overflows. The configurations with an overlap at least the size that do terminate are not modelled. A negative overlap acts as none.
- An element whose `content` key is present but `None` makes `len` raise in the source. The model treats missing content as "", the default of `get`.
- ApplierSpec.SectionStep: section payloads are lists of strings (`ChangeModel.Value`'s `TextList`). A list with other items is not modelled. The source half-applies it: the section body is removed (`word_editor.py:98-101`) before inserting an item fails (lines 113 and 119), so the change is marked failed with the document already edited; a `None` item instead gives an empty paragraph and the change is applied.
- DocumentModel.CopyRunFormatting: assumes the document defines a default character style, as Word documents do. An unstyled run then reports that style, and assigning it clears the target's style. In a document without one, an unstyled source reports no style and the target would keep its own.
- Default arguments are declared as Dafny defaults on the operations the source exposes (`ChunkDocumentElements`, `Chunks`, `ChunkTextByTokens`, the `WordEditor` constructor and methods, the `ChangeDetector` constructor). The `DocumentModel` functions that specify them take every argument explicitly. The detector's document id moves to the last position so that it can keep its default.
- Concurrency: none of the core shares state between threads.
