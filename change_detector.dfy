/**
 * The positional change detector: it compares the paragraph texts of an original
 * and a modified document index by index. Where both documents have paragraph
 * `i` and the texts differ it proposes a text update; past the end of the shorter
 * document it proposes one insertion per extra modified paragraph or one
 * deletion per extra original paragraph. It does not align sequences, so an
 * edit before the tail shows up as a cascade of text updates.
 *
 * Loading the two documents is not modelled: the detector is given their
 * paragraph texts. Change ids come from a `ChangeIdSource` and the timestamp is
 * a parameter.
 */
module ChangeDetection {
  import opened Wrappers
  import opened Strings
  import opened ChangeModel
  import opened ApplierOrder

  /** One detected difference, before it gets an id and a timestamp. */
  datatype Difference = Difference(changeType: ChangeType, index: nat, oldText: Option<string>, newText: Option<string>)

  /** The description a detected change carries. */
  function Description(d: Difference): string {
    match d.changeType
    case ParagraphInsert => "Paragraph " + NatToString(d.index) + " inserted."
    case ParagraphDelete => "Paragraph " + NatToString(d.index) + " deleted."
    case _ => "Text changed in paragraph " + NatToString(d.index) + "."
  }

  function AsValue(t: Option<string>): Option<Value> {
    match t
    case None => None
    case Some(s) => Some(Text(s))
  }

  /** The proposed change recording `d`. */
  function ChangeFor(documentId: string, d: Difference, id: ChangeId, now: nat): DocumentChange {
    DocumentChange(id, documentId, d.changeType, ParagraphLoc(d.index), now,
                   AsValue(d.oldText), AsValue(d.newText), Some(Description(d)))
  }

  /** `cs` records the differences `ds`, in order, whatever ids they were given. */
  predicate Records(cs: seq<DocumentChange>, documentId: string, ds: seq<Difference>, now: nat) {
    |cs| == |ds| && forall k :: 0 <= k < |cs| ==> cs[k] == ChangeFor(documentId, ds[k], cs[k].id, now)
  }

  /** Text updates for the differing positions below `n`, in ascending order. */
  function TextDiffs(o: seq<string>, m: seq<string>, n: nat): seq<Difference>
    requires n <= |o| && n <= |m|
  {
    if n == 0 then []
    else TextDiffs(o, m, n - 1)
         + (if o[n - 1] != m[n - 1] then [Difference(TextUpdate, n - 1, Some(o[n - 1]), Some(m[n - 1]))] else [])
  }

  /** The tail record for position `i`: an insertion of `text` or a deletion of it. */
  function TailDiff(inserted: bool, i: nat, text: string): Difference {
    if inserted then Difference(ParagraphInsert, i, None, Some(text))
    else Difference(ParagraphDelete, i, Some(text), None)
  }

  /** One tail record per position in [lo, hi), in ascending order. */
  function TailDiffs(inserted: bool, texts: seq<string>, lo: nat, hi: nat): seq<Difference>
    requires lo <= hi <= |texts|
    decreases hi
  {
    if hi == lo then []
    else TailDiffs(inserted, texts, lo, hi - 1) + [TailDiff(inserted, hi - 1, texts[hi - 1])]
  }

  function Min(a: nat, b: nat): nat {
    if a <= b then a else b
  }

  /** The insertions or deletions past the end of the shorter document. */
  function TailPart(o: seq<string>, m: seq<string>): seq<Difference> {
    if |m| > |o| then TailDiffs(true, m, |o|, |m|)
    else if |o| > |m| then TailDiffs(false, o, |m|, |o|)
    else []
  }

  /** Everything the detector reports for original texts `o` and modified texts `m`. */
  function Differences(o: seq<string>, m: seq<string>): seq<Difference> {
    TextDiffs(o, m, Min(|o|, |m|)) + TailPart(o, m)
  }

  /**
   * When `x` is a difference between `o` and `m`, said position by position: a
   * text update where both have the position and the texts differ, an insertion
   * where only `m` has it, a deletion where only `o` has it.
   */
  predicate Expected(o: seq<string>, m: seq<string>, x: Difference) {
    var i := x.index;
    match x.changeType
    case TextUpdate => i < |o| && i < |m| && o[i] != m[i] && x.oldText == Some(o[i]) && x.newText == Some(m[i])
    case ParagraphInsert => |o| <= i < |m| && x.oldText.None? && x.newText == Some(m[i])
    case ParagraphDelete => |m| <= i < |o| && x.oldText == Some(o[i]) && x.newText.None?
    case _ => false
  }

  /** Strictly increasing paragraph indices. */
  predicate Ascending(ds: seq<Difference>) {
    forall i, j :: 0 <= i < j < |ds| ==> ds[i].index < ds[j].index
  }

  lemma {:induction false} TextDiffsMeaning(o: seq<string>, m: seq<string>, n: nat)
    requires n <= |o| && n <= |m|
    ensures forall x :: x in TextDiffs(o, m, n) <==> x.changeType == TextUpdate && x.index < n && Expected(o, m, x)
    ensures Ascending(TextDiffs(o, m, n))
  {
    if n > 0 {
      TextDiffsMeaning(o, m, n - 1);
      var prev := TextDiffs(o, m, n - 1);
      var last := if o[n - 1] != m[n - 1] then [Difference(TextUpdate, n - 1, Some(o[n - 1]), Some(m[n - 1]))] else [];
      assert TextDiffs(o, m, n) == prev + last;
      forall i | 0 <= i < |prev|
        ensures prev[i].index < n - 1
      {
        assert prev[i] in prev;
      }
    }
  }

  lemma {:induction false} TailDiffsMeaning(inserted: bool, texts: seq<string>, lo: nat, hi: nat)
    requires lo <= hi <= |texts|
    ensures forall x :: x in TailDiffs(inserted, texts, lo, hi) <==> lo <= x.index < hi && x == TailDiff(inserted, x.index, texts[x.index])
    ensures Ascending(TailDiffs(inserted, texts, lo, hi))
    decreases hi
  {
    if hi > lo {
      TailDiffsMeaning(inserted, texts, lo, hi - 1);
      var prev := TailDiffs(inserted, texts, lo, hi - 1);
      forall i | 0 <= i < |prev|
        ensures prev[i].index < hi - 1
      {
        assert prev[i] in prev;
      }
    }
  }

  /**
   * The detector reports exactly the expected differences: a text update at
   * position `i` with the original and the modified text iff both documents have
   * paragraph `i` and the texts differ; an insertion of `m[i]` for each `i` from
   * `|o|` up to `|m|`; a deletion of `o[i]` for each `i` from `|m|` up to `|o|`.
   */
  lemma DifferencesMeaning(o: seq<string>, m: seq<string>)
    ensures forall x :: x in Differences(o, m) <==> Expected(o, m, x)
  {
    TextDiffsMeaning(o, m, Min(|o|, |m|));
    if |m| > |o| {
      TailDiffsMeaning(true, m, |o|, |m|);
    } else if |o| > |m| {
      TailDiffsMeaning(false, o, |m|, |o|);
    }
  }

  /**
   * The records come in ascending paragraph order, text updates first; so no
   * position is reported twice, and insertions and deletions never both appear.
   */
  lemma DifferencesOrdered(o: seq<string>, m: seq<string>)
    ensures Ascending(Differences(o, m))
    ensures forall i, j :: 0 <= i < j < |Differences(o, m)| && Differences(o, m)[j].changeType == TextUpdate ==>
              Differences(o, m)[i].changeType == TextUpdate
    ensures !((exists x :: x in Differences(o, m) && x.changeType == ParagraphInsert)
              && (exists y :: y in Differences(o, m) && y.changeType == ParagraphDelete))
  {
    var a, b := TextDiffs(o, m, Min(|o|, |m|)), TailPart(o, m);
    TextDiffsMeaning(o, m, Min(|o|, |m|));
    TailPartMeaning(o, m);
    AscendingConcat(a, b);
    UpdatesFirst(a, b);
    var tailType := if |m| > |o| then ParagraphInsert else ParagraphDelete;
    forall x: Difference | x in a + b && x.changeType != TextUpdate
      ensures x.changeType == tailType
    {
      assert x in b;
    }
  }

  /** The tail records ascend, are no text updates, and are all of one kind. */
  lemma TailPartMeaning(o: seq<string>, m: seq<string>)
    ensures Ascending(TailPart(o, m))
    ensures forall x :: x in TailPart(o, m) ==> Min(|o|, |m|) <= x.index
    ensures forall x :: x in TailPart(o, m) ==> x.changeType == (if |m| > |o| then ParagraphInsert else ParagraphDelete)
  {
    if |m| > |o| {
      TailDiffsMeaning(true, m, |o|, |m|);
    } else if |o| > |m| {
      TailDiffsMeaning(false, o, |m|, |o|);
    }
  }

  /** Two ascending runs, the first wholly below the second, ascend together. */
  lemma AscendingConcat(a: seq<Difference>, b: seq<Difference>)
    requires Ascending(a) && Ascending(b)
    requires forall x, y :: x in a && y in b ==> x.index < y.index
    ensures Ascending(a + b)
  {
    var r := a + b;
    forall i, j | 0 <= i < j < |r|
      ensures r[i].index < r[j].index
    {
      if i < |a| && |a| <= j {
        assert r[i] in a && r[j] in b;
      } else if |a| <= i {
        assert r[i] == b[i - |a|] && r[j] == b[j - |a|];
      }
    }
  }

  /** Text updates, then records of other kinds: no text update follows another kind. */
  lemma UpdatesFirst(a: seq<Difference>, b: seq<Difference>)
    requires forall x :: x in a ==> x.changeType == TextUpdate
    requires forall y :: y in b ==> y.changeType != TextUpdate
    ensures forall i, j :: 0 <= i < j < |a + b| && (a + b)[j].changeType == TextUpdate ==> (a + b)[i].changeType == TextUpdate
  {
    var r := a + b;
    forall j | |a| <= j < |r|
      ensures r[j].changeType != TextUpdate
    {
      assert r[j] in b;
    }
    forall i | 0 <= i < |a|
      ensures r[i].changeType == TextUpdate
    {
      assert r[i] in a;
    }
  }

  /** No differences exactly when the two text sequences are equal. */
  lemma NoDifferencesIffEqual(o: seq<string>, m: seq<string>)
    ensures Differences(o, m) == [] <==> o == m
  {
    DifferencesMeaning(o, m);
    if Differences(o, m) != [] {
      assert Differences(o, m)[0] in Differences(o, m);
    }
    if o != m {
      var x;
      if |m| > |o| {
        x := Difference(ParagraphInsert, |o|, None, Some(m[|o|]));
      } else if |o| > |m| {
        x := Difference(ParagraphDelete, |m|, Some(o[|m|]), None);
      } else {
        var i :| 0 <= i < |o| && o[i] != m[i];
        x := Difference(TextUpdate, i, Some(o[i]), Some(m[i]));
      }
      assert Expected(o, m, x);
    }
  }

  /** The positions below `n` where the texts differ. */
  function Changed(o: seq<string>, m: seq<string>, n: nat): set<nat>
    requires n <= |o| && n <= |m|
  {
    set i: nat | i < n && o[i] != m[i]
  }

  lemma {:induction false} TextDiffsCount(o: seq<string>, m: seq<string>, n: nat)
    requires n <= |o| && n <= |m|
    ensures |TextDiffs(o, m, n)| == |Changed(o, m, n)|
  {
    if n == 0 {
      assert Changed(o, m, 0) == {};
    } else {
      TextDiffsCount(o, m, n - 1);
      if o[n - 1] != m[n - 1] {
        assert Changed(o, m, n) == Changed(o, m, n - 1) + {n - 1};
      } else {
        assert Changed(o, m, n) == Changed(o, m, n - 1);
      }
    }
  }

  lemma {:induction false} TailDiffsCount(inserted: bool, texts: seq<string>, lo: nat, hi: nat)
    requires lo <= hi <= |texts|
    ensures |TailDiffs(inserted, texts, lo, hi)| == hi - lo
    decreases hi
  {
    if hi > lo {
      TailDiffsCount(inserted, texts, lo, hi - 1);
    }
  }

  /**
   * The number of records is the number of differing positions the two documents
   * share plus the difference of their lengths.
   */
  lemma DifferencesCount(o: seq<string>, m: seq<string>)
    ensures |Differences(o, m)| == |Changed(o, m, Min(|o|, |m|))| + (if |o| <= |m| then |m| - |o| else |o| - |m|)
  {
    TextDiffsCount(o, m, Min(|o|, |m|));
    if |m| > |o| {
      TailDiffsCount(true, m, |o|, |m|);
    } else if |o| > |m| {
      TailDiffsCount(false, o, |m|, |o|);
    }
  }

  /** Recording one more difference extends the record by its change. */
  lemma RecordsSnoc(cs: seq<DocumentChange>, documentId: string, ds: seq<Difference>, now: nat,
                    d: Difference, c: DocumentChange)
    requires Records(cs, documentId, ds, now)
    requires c == ChangeFor(documentId, d, c.id, now)
    ensures Records(cs + [c], documentId, ds + [d], now)
  {
    var cs', ds' := cs + [c], ds + [d];
    forall k | 0 <= k < |cs'|
      ensures cs'[k] == ChangeFor(documentId, ds'[k], cs'[k].id, now)
    {
      if k < |cs| {
        assert cs'[k] == cs[k] && ds'[k] == ds[k];
      }
    }
  }

  lemma TailDiffsSnoc(prefix: seq<Difference>, inserted: bool, texts: seq<string>, lo: nat, i: nat)
    requires lo <= i < |texts|
    ensures prefix + TailDiffs(inserted, texts, lo, i + 1)
         == prefix + TailDiffs(inserted, texts, lo, i) + [TailDiff(inserted, i, texts[i])]
  {
  }

  /**
   * The changes `cs` carry distinct ids, none issued before, and the ids issued
   * now are those issued before and theirs.
   */
  ghost predicate FreshIds(cs: seq<DocumentChange>, before: set<ChangeId>, now: set<ChangeId>) {
    && UniqueIds(cs)
    && (forall c :: c in cs ==> c.id !in before)
    && now == before + IdSet(cs)
  }

  lemma FreshIdsSnoc(cs: seq<DocumentChange>, c: DocumentChange, before: set<ChangeId>, now: set<ChangeId>)
    requires FreshIds(cs, before, now) && c.id !in now
    ensures FreshIds(cs + [c], before, now + {c.id})
  {
    var r := cs + [c];
    forall i, j | 0 <= i < j < |r|
      ensures r[i].id != r[j].id
    {
      if j == |cs| {
        assert r[i] in cs;
      }
    }
    assert IdSet(r) == IdSet(cs) + {c.id} by {
      assert forall x :: x in r <==> x in cs || x == c;
    }
  }

  /**
   * A detector over the paragraph texts of two documents. The document id is the
   * one given, unless that is absent or empty, when it is the original's path.
   */
  class ChangeDetector {
    const originalPath: string
    const modifiedPath: string
    const documentId: string
    const original: seq<string>
    const modified: seq<string>

    constructor (originalPath: string, modifiedPath: string,
                 original: seq<string>, modified: seq<string>, documentId: Option<string> := None)
      ensures this.originalPath == originalPath && this.modifiedPath == modifiedPath
      ensures this.documentId == if documentId.Some? && documentId.value != "" then documentId.value else originalPath
      ensures this.original == original && this.modified == modified
    {
      this.originalPath := originalPath;
      this.modifiedPath := modifiedPath;
      this.documentId := if documentId.Some? && documentId.value != "" then documentId.value else originalPath;
      this.original := original;
      this.modified := modified;
    }

    /**
     * The text updates and tail insertions or deletions, each a proposed change
     * with a fresh id, in the order `Differences` gives.
     */
    method DetectParagraphTextChanges(ids: ChangeIdSource, now: nat) returns (changes: seq<DocumentChange>)
      requires ids.Valid()
      modifies ids
      ensures ids.Valid()
      ensures Records(changes, documentId, Differences(original, modified), now)
      ensures FreshIds(changes, old(ids.issued), ids.issued)
    {
      var o, m := original, modified;
      var lenOrig, lenMod := |o|, |m|;
      var common := if lenOrig <= lenMod then lenOrig else lenMod;
      changes := [];
      for i := 0 to common
        invariant ids.Valid()
        invariant Records(changes, documentId, TextDiffs(o, m, i), now)
        invariant FreshIds(changes, old(ids.issued), ids.issued)
      {
        if o[i] != m[i] {
          var d := Difference(TextUpdate, i, Some(o[i]), Some(m[i]));
          ghost var before := ids.issued;
          var c := Record(ids, d, now);
          RecordsSnoc(changes, documentId, TextDiffs(o, m, i), now, d, c);
          FreshIdsSnoc(changes, c, old(ids.issued), before);
          changes := changes + [c];
        }
      }
      if lenMod > lenOrig {
        changes := RecordTail(changes, ids, true, m, lenOrig, now, TextDiffs(o, m, common), old(ids.issued));
      } else if lenOrig > lenMod {
        changes := RecordTail(changes, ids, false, o, lenMod, now, TextDiffs(o, m, common), old(ids.issued));
      } else {
        assert Differences(o, m) == TextDiffs(o, m, common) + [];
      }
    }

    /** Appends a tail record for every position of `texts` from `lo` on. */
    method RecordTail(changes: seq<DocumentChange>, ids: ChangeIdSource, inserted: bool, texts: seq<string>, lo: nat,
                      now: nat, ghost prefix: seq<Difference>, ghost start: set<ChangeId>) returns (r: seq<DocumentChange>)
      requires lo <= |texts|
      requires ids.Valid()
      requires Records(changes, documentId, prefix, now)
      requires FreshIds(changes, start, ids.issued)
      modifies ids
      ensures ids.Valid()
      ensures Records(r, documentId, prefix + TailDiffs(inserted, texts, lo, |texts|), now)
      ensures FreshIds(r, start, ids.issued)
    {
      r := changes;
      for i := lo to |texts|
        invariant ids.Valid()
        invariant Records(r, documentId, prefix + TailDiffs(inserted, texts, lo, i), now)
        invariant FreshIds(r, start, ids.issued)
      {
        ghost var before := ids.issued;
        var d := TailDiff(inserted, i, texts[i]);
        var c := Record(ids, d, now);
        RecordsSnoc(r, documentId, prefix + TailDiffs(inserted, texts, lo, i), now, d, c);
        TailDiffsSnoc(prefix, inserted, texts, lo, i);
        FreshIdsSnoc(r, c, start, before);
        r := r + [c];
      }
    }

    /** The proposed change recording `d`, under a fresh id. */
    method Record(ids: ChangeIdSource, d: Difference, now: nat) returns (c: DocumentChange)
      requires ids.Valid()
      modifies ids
      ensures ids.Valid()
      ensures c == ChangeFor(documentId, d, c.id, now)
      ensures c.id !in old(ids.issued)
      ensures ids.issued == old(ids.issued) + {c.id}
    {
      var id := ids.Fresh();
      c := ChangeFor(documentId, d, id, now);
    }

    /**
     * All detected changes: the paragraph text changes, followed by the formatting
     * and structural changes, which no detector produces yet.
     */
    method DetectAllChanges(ids: ChangeIdSource, now: nat) returns (all: seq<DocumentChange>)
      requires ids.Valid()
      modifies ids
      ensures ids.Valid()
      ensures Records(all, documentId, Differences(original, modified), now)
      ensures FreshIds(all, old(ids.issued), ids.issued)
    {
      all := [];
      var textChanges := DetectParagraphTextChanges(ids, now);
      all := all + textChanges;
      var formatting: seq<DocumentChange> := [];
      var structural: seq<DocumentChange> := [];
      all := all + formatting;
      all := all + structural;
      assert all == textChanges;
    }
  }

  /** Every detected change is proposed and points at a paragraph. */
  lemma RecordsAreProposed(cs: seq<DocumentChange>, documentId: string, o: seq<string>, m: seq<string>, now: nat)
    requires Records(cs, documentId, Differences(o, m), now)
    ensures forall c :: c in cs ==> c.status == Proposed && c.documentId == documentId && c.location.ParagraphLoc?
                                    && c.location.runIndex.None?
    ensures forall k :: 0 <= k < |cs| ==> Expected(o, m, Differences(o, m)[k])
  {
    DifferencesMeaning(o, m);
    forall k | 0 <= k < |cs|
      ensures Expected(o, m, Differences(o, m)[k])
    {
      assert Differences(o, m)[k] in Differences(o, m);
    }
  }

  /**
   * A paragraph deleted from the middle while another is appended, with the
   * paragraph before it edited: both documents have four paragraphs, so the
   * detector reports three text updates and no deletion or insertion.
   */
  lemma MidDocumentCascade(p1: string, p2: string, p2e: string, p3: string, p4: string, p5: string)
    requires p2 != p2e && p3 != p4 && p4 != p5
    ensures Differences([p1, p2, p3, p4], [p1, p2e, p4, p5])
         == [Difference(TextUpdate, 1, Some(p2), Some(p2e)),
             Difference(TextUpdate, 2, Some(p3), Some(p4)),
             Difference(TextUpdate, 3, Some(p4), Some(p5))]
  {
    var o, m := [p1, p2, p3, p4], [p1, p2e, p4, p5];
    assert TextDiffs(o, m, 1) == [];
    assert TextDiffs(o, m, 2) == [Difference(TextUpdate, 1, Some(p2), Some(p2e))];
    assert TextDiffs(o, m, 4) == TextDiffs(o, m, 2) + [Difference(TextUpdate, 2, Some(p3), Some(p4))]
                                 + [Difference(TextUpdate, 3, Some(p4), Some(p5))];
  }
}
