/**
 * What applying a workflow guarantees, proved about `ApplierSpec.Apply`:
 * which statuses change and to what, that only accepted changes act on the
 * document, that accepted deletions at distinct indices remove exactly those
 * paragraphs of the original document, and when the workflow completes.
 */
module ApplierProperties {
  import opened Wrappers
  import opened ChangeModel
  import opened WorkflowModel
  import opened DocumentModel
  import opened ApplierOrder
  import opened ApplierSpec

  /** `r` is `s` with, at most, different statuses. */
  predicate OnlyStatuses(r: seq<DocumentChange>, s: seq<DocumentChange>) {
    && SameIds(r, s)
    && forall j :: 0 <= j < |s| ==> r[j] == s[j].(status := r[j].status)
  }

  lemma OnlyStatusesTrans(a: seq<DocumentChange>, b: seq<DocumentChange>, c: seq<DocumentChange>)
    requires OnlyStatuses(a, b) && OnlyStatuses(b, c)
    ensures OnlyStatuses(a, c)
  {
    forall j | 0 <= j < |c|
      ensures a[j] == c[j].(status := a[j].status)
    {
      assert a[j] == b[j].(status := a[j].status);
    }
  }

  /** Every step records an outcome, except an insertion without a paragraph locator or a value. */
  predicate Writes(b: Bucket, c: DocumentChange) {
    b != Inserts || (c.location.ParagraphLoc? && c.newValue.Some?)
  }

  /** What one step does to the statuses. */
  lemma StepEffect(b: Bucket, st: State, c: DocumentChange, id: ChangeId)
    ensures OnlyStatuses(Step(b, st, c).changes, st.changes)
    ensures id != c.id ==> StatusOf(Step(b, st, c).changes, id) == StatusOf(st.changes, id)
    ensures Writes(b, c) && FirstIndexOfId(st.changes, c.id).Some? ==>
              StatusOf(Step(b, st, c).changes, c.id) in {Some(Applied), Some(Failed)}
    ensures !Writes(b, c) ==> Step(b, st, c) == st
  {
  }

  /**
   * Across one phase: the change `c` (the only one in the list with its id) ends
   * applied or failed when the phase processes it and records an outcome, and
   * keeps its looked-up status otherwise.
   */
  lemma {:induction false} PhaseStatus(b: Bucket, st: State, cs: seq<DocumentChange>, c: DocumentChange)
    requires UniqueIds(cs)
    requires FirstIndexOfId(st.changes, c.id).Some?
    requires forall e :: e in cs && e.id == c.id ==> e == c
    ensures OnlyStatuses(RunPhase(b, st, cs).changes, st.changes)
    ensures c in cs && Writes(b, c) ==> StatusOf(RunPhase(b, st, cs).changes, c.id) in {Some(Applied), Some(Failed)}
    ensures !(c in cs && Writes(b, c)) ==> StatusOf(RunPhase(b, st, cs).changes, c.id) == StatusOf(st.changes, c.id)
    decreases |cs|
  {
    if cs != [] {
      var h, rest := cs[0], cs[1..];
      var next := Step(b, st, h);
      StepEffect(b, st, h, c.id);
      FirstIndexDependsOnIds(next.changes, st.changes, c.id);
      assert UniqueIds(rest) by {
        forall i, j | 0 <= i < j < |rest|
          ensures rest[i].id != rest[j].id
        {
          assert rest[i] == cs[i + 1] && rest[j] == cs[j + 1];
        }
      }
      assert c in cs <==> c == h || c in rest;
      if h == c {
        assert c !in rest by {
          forall i | 0 <= i < |rest|
            ensures rest[i] != c
          {
            assert cs[i + 1].id != cs[0].id;
          }
        }
      }
      PhaseStatus(b, next, rest, c);
      OnlyStatusesTrans(RunPhase(b, next, rest).changes, next.changes, st.changes);
    }
  }

  /** Two changes of a list without repeated ids that share an id are the same change. */
  lemma OwnerUnique(changes: seq<DocumentChange>, e: DocumentChange, c: DocumentChange)
    requires UniqueIds(changes) && e in changes && c in changes && e.id == c.id
    ensures e == c
  {
    var i :| 0 <= i < |changes| && changes[i] == e;
    var j :| 0 <= j < |changes| && changes[j] == c;
    assert i == j;
  }

  /** With ids not repeated, looking up the id of change `j` finds change `j`. */
  lemma LookupUnique(r: seq<DocumentChange>, changes: seq<DocumentChange>, j: nat)
    requires UniqueIds(changes) && SameIds(r, changes) && j < |changes|
    ensures StatusOf(r, changes[j].id) == Some(r[j].status)
  {
    var id := changes[j].id;
    assert r[j].id == id;
    var k := FirstIndexOfId(r, id);
    assert k.Some? && k.value <= j;
    assert changes[k.value].id == id;
    assert k.value == j;
  }

  /** Filtering by status keeps ids distinct. */
  lemma {:induction false} WithStatusUniqueIds(s: seq<DocumentChange>, st: ChangeStatus)
    requires UniqueIds(s)
    ensures UniqueIds(WithStatus(s, st))
  {
    if s != [] {
      var rest := s[1..];
      assert UniqueIds(rest) by {
        forall i, j | 0 <= i < j < |rest|
          ensures rest[i].id != rest[j].id
        {
          assert rest[i] == s[i + 1] && rest[j] == s[j + 1];
        }
      }
      WithStatusUniqueIds(rest, st);
      forall e | e in WithStatus(rest, st)
        ensures e.id != s[0].id
      {
        var i :| 0 <= i < |rest| && rest[i] == e;
        assert s[i + 1] == e;
      }
    }
  }

  /** A phase list holds exactly the accepted changes of its bucket, without repeated ids. */
  lemma PhaseListFacts(changes: seq<DocumentChange>, b: Bucket)
    ensures forall e :: e in PhaseList(changes, b) <==> e in changes && e.status == Accepted && BucketOf(e) == Some(b)
    ensures UniqueIds(changes) ==> UniqueIds(PhaseList(changes, b))
  {
    var accepted := AcceptedIn(changes, b);
    SortByPermutes(accepted, b == Deletes);
    if UniqueIds(changes) {
      WithStatusUniqueIds(changes, Accepted);
      InBucketUniqueIds(WithStatus(changes, Accepted), b);
      if b == Deletes || b == Inserts {
        SortByUniqueIds(accepted, b == Deletes);
      }
    }
  }

  /** The change `c` of the workflow, followed through the phase of bucket `b`. */
  lemma TrackPhase(b: Bucket, st: State, changes: seq<DocumentChange>, c: DocumentChange)
    requires UniqueIds(changes) && c in changes && SameIds(st.changes, changes)
    ensures OnlyStatuses(RunPhase(b, st, PhaseList(changes, b)).changes, st.changes)
    ensures c.status == Accepted && BucketOf(c) == Some(b) && Writes(b, c) ==>
              StatusOf(RunPhase(b, st, PhaseList(changes, b)).changes, c.id) in {Some(Applied), Some(Failed)}
    ensures !(c.status == Accepted && BucketOf(c) == Some(b) && Writes(b, c)) ==>
              StatusOf(RunPhase(b, st, PhaseList(changes, b)).changes, c.id) == StatusOf(st.changes, c.id)
  {
    var cs := PhaseList(changes, b);
    PhaseListFacts(changes, b);
    var j :| 0 <= j < |changes| && changes[j] == c;
    assert FirstIndexOfId(st.changes, c.id).Some? by {
      assert st.changes[j].id == c.id;
    }
    forall e | e in cs && e.id == c.id
      ensures e == c
    {
      OwnerUnique(changes, e, c);
    }
    PhaseStatus(b, st, cs, c);
  }

  /** The status a change ends with after a run that did not stop early. */
  predicate Settled(c: DocumentChange, after: ChangeStatus) {
    if c.status != Accepted then after == c.status
    else
      match BucketOf(c)
      case None => after == Accepted
      case Some(b) => if Writes(b, c) then after == Applied || after == Failed else after == Accepted
  }

  /** The change `c` followed through the four update phases. */
  lemma TrackUpdates(st: State, changes: seq<DocumentChange>, c: DocumentChange)
    requires UniqueIds(changes) && c in changes && SameIds(st.changes, changes)
    ensures OnlyStatuses(Updates(st, changes).changes, st.changes)
    ensures var mine := c.status == Accepted && BucketOf(c).Some? && BucketOf(c).value in {ParagraphTexts, RunTexts, Sections, TableCells};
            && (mine ==> StatusOf(Updates(st, changes).changes, c.id) in {Some(Applied), Some(Failed)})
            && (!mine ==> StatusOf(Updates(st, changes).changes, c.id) == StatusOf(st.changes, c.id))
  {
    var st3 := RunPhase(ParagraphTexts, st, PhaseList(changes, ParagraphTexts));
    TrackPhase(ParagraphTexts, st, changes, c);
    var st4 := RunPhase(RunTexts, st3, PhaseList(changes, RunTexts));
    TrackPhase(RunTexts, st3, changes, c);
    var st5 := RunPhase(Sections, st4, PhaseList(changes, Sections));
    TrackPhase(Sections, st4, changes, c);
    var st6 := RunPhase(TableCells, st5, PhaseList(changes, TableCells));
    TrackPhase(TableCells, st5, changes, c);
    OnlyStatusesTrans(st4.changes, st3.changes, st.changes);
    OnlyStatusesTrans(st5.changes, st4.changes, st.changes);
    OnlyStatusesTrans(st6.changes, st5.changes, st.changes);
  }

  /**
   * After a run that did not stop early, and with change ids not repeated: only
   * statuses have changed; a change that was not accepted keeps its status; an
   * accepted change the applier has no bucket for stays accepted; an accepted
   * insertion without a paragraph locator or a value stays accepted; and every
   * other accepted change ends applied or failed.
   */
  lemma ApplySettles(d: Document, changes: seq<DocumentChange>, clock: nat, status: WorkflowStatus)
    requires UniqueIds(changes)
    requires !Apply(d, changes, clock, status).crashed
    ensures var fin := Apply(d, changes, clock, status).state.changes;
            && OnlyStatuses(fin, changes)
            && forall j :: 0 <= j < |changes| ==> Settled(changes[j], fin[j].status)
  {
    var fin := Updates(RunPhase(Inserts, AfterDeletes(d, changes, clock), PhaseList(changes, Inserts)), changes);
    assert Apply(d, changes, clock, status).state == fin;
    forall j | 0 <= j < |changes|
      ensures OnlyStatuses(fin.changes, changes) && Settled(changes[j], fin.changes[j].status)
    {
      SettledAt(d, changes, clock, j);
    }
  }

  /** The change at position `j` followed through a whole run that does not stop early. */
  lemma SettledAt(d: Document, changes: seq<DocumentChange>, clock: nat, j: nat)
    requires UniqueIds(changes) && j < |changes|
    ensures var fin := Updates(RunPhase(Inserts, AfterDeletes(d, changes, clock), PhaseList(changes, Inserts)), changes).changes;
            OnlyStatuses(fin, changes) && Settled(changes[j], fin[j].status)
  {
    var st0 := State(d, changes, clock);
    var st1 := AfterDeletes(d, changes, clock);
    var st2 := RunPhase(Inserts, st1, PhaseList(changes, Inserts));
    var fin := Updates(st2, changes);
    var c := changes[j];
    TrackPhase(Deletes, st0, changes, c);
    TrackPhase(Inserts, st1, changes, c);
    TrackUpdates(st2, changes, c);
    OnlyStatusesTrans(st2.changes, st1.changes, changes);
    OnlyStatusesTrans(fin.changes, st2.changes, changes);
    LookupUnique(changes, changes, j);
    LookupUnique(fin.changes, changes, j);
  }

  /**
   * With change ids not repeated, a run that does not stop early completes the
   * workflow exactly when no change was proposed to begin with (or it was
   * completed already): applying never turns a proposed change into anything else.
   */
  lemma ApplyCompletion(d: Document, changes: seq<DocumentChange>, clock: nat, status: WorkflowStatus)
    requires UniqueIds(changes)
    requires !Apply(d, changes, clock, status).crashed
    ensures Apply(d, changes, clock, status).status == Completed <==> AllReviewed(changes) || status == Completed
  {
    var fin := Updates(RunPhase(Inserts, AfterDeletes(d, changes, clock), PhaseList(changes, Inserts)), changes);
    assert Apply(d, changes, clock, status) == Finish(fin, status);
    ApplySettles(d, changes, clock, status);
    assert AllReviewed(fin.changes) <==> AllReviewed(changes) by {
      forall j | 0 <= j < |changes|
        ensures fin.changes[j].status == Proposed <==> changes[j].status == Proposed
      {
        assert Settled(changes[j], fin.changes[j].status);
      }
    }
  }

  /**
   * The run stops early exactly when an accepted deletion or insertion has no
   * paragraph locator: before anything changes when it is a deletion, after the
   * deletion phase when it is an insertion.
   */
  lemma ApplyStopsEarly(d: Document, changes: seq<DocumentChange>, clock: nat, status: WorkflowStatus)
    ensures var o := Apply(d, changes, clock, status);
            o.crashed <==> exists c :: c in changes && c.status == Accepted && !c.location.ParagraphLoc?
                                       && c.changeType in {ParagraphDelete, ParagraphInsert}
    ensures !AllLocated(AcceptedIn(changes, Deletes)) ==> Apply(d, changes, clock, status) == Outcome(State(d, changes, clock), status, true)
    ensures AllLocated(AcceptedIn(changes, Deletes)) && !AllLocated(AcceptedIn(changes, Inserts)) ==>
              Apply(d, changes, clock, status) == Outcome(AfterDeletes(d, changes, clock), status, true)
  {
    AllLocatedIn(changes, Deletes, ParagraphDelete);
    AllLocatedIn(changes, Inserts, ParagraphInsert);
  }

  /** The accepted changes of type `t` all have paragraph locators exactly when their bucket does. */
  lemma AllLocatedIn(changes: seq<DocumentChange>, b: Bucket, t: ChangeType)
    requires (b == Deletes && t == ParagraphDelete) || (b == Inserts && t == ParagraphInsert)
    ensures AllLocated(AcceptedIn(changes, b))
        <==> forall c :: c in changes && c.status == Accepted && c.changeType == t ==> c.location.ParagraphLoc?
  {
    var s := AcceptedIn(changes, b);
    if AllLocated(s) {
      forall c | c in changes && c.status == Accepted && c.changeType == t
        ensures c.location.ParagraphLoc?
      {
        assert c in s;
        var i :| 0 <= i < |s| && s[i] == c;
      }
    } else {
      var i :| 0 <= i < |s| && !Located(s[i]);
      assert s[i] in s;
    }
  }

  // ---------------------------------------------------------------------------
  // Only accepted changes act on the document

  lemma {:induction false} PhaseDoc(b: Bucket, st1: State, st2: State, cs: seq<DocumentChange>)
    requires st1.doc == st2.doc
    ensures RunPhase(b, st1, cs).doc == RunPhase(b, st2, cs).doc
    decreases |cs|
  {
    if cs != [] {
      assert Step(b, st1, cs[0]).doc == Step(b, st2, cs[0]).doc;
      PhaseDoc(b, Step(b, st1, cs[0]), Step(b, st2, cs[0]), cs[1..]);
    }
  }

  /** The four update phases, from the same document and the same accepted changes. */
  lemma UpdatesDoc(st1: State, st2: State, c1: seq<DocumentChange>, c2: seq<DocumentChange>)
    requires st1.doc == st2.doc
    requires forall b :: PhaseList(c1, b) == PhaseList(c2, b)
    ensures Updates(st1, c1).doc == Updates(st2, c2).doc
  {
    var x1 := RunPhase(ParagraphTexts, st1, PhaseList(c1, ParagraphTexts));
    var x2 := RunPhase(ParagraphTexts, st2, PhaseList(c2, ParagraphTexts));
    PhaseDoc(ParagraphTexts, st1, st2, PhaseList(c1, ParagraphTexts));
    var y1 := RunPhase(RunTexts, x1, PhaseList(c1, RunTexts));
    var y2 := RunPhase(RunTexts, x2, PhaseList(c2, RunTexts));
    PhaseDoc(RunTexts, x1, x2, PhaseList(c1, RunTexts));
    var z1 := RunPhase(Sections, y1, PhaseList(c1, Sections));
    var z2 := RunPhase(Sections, y2, PhaseList(c2, Sections));
    PhaseDoc(Sections, y1, y2, PhaseList(c1, Sections));
    PhaseDoc(TableCells, z1, z2, PhaseList(c1, TableCells));
  }

  /** Everything after the deletion phase, from the same document and the same accepted changes. */
  lemma AfterDeletesDoc(st1: State, st2: State, c1: seq<DocumentChange>, c2: seq<DocumentChange>,
                        status1: WorkflowStatus, status2: WorkflowStatus)
    requires st1.doc == st2.doc
    requires forall b :: AcceptedIn(c1, b) == AcceptedIn(c2, b)
    ensures AfterDeletesOutcome(st1, c1, status1).state.doc == AfterDeletesOutcome(st2, c2, status2).state.doc
    ensures AfterDeletesOutcome(st1, c1, status1).crashed == AfterDeletesOutcome(st2, c2, status2).crashed
  {
    assert forall b :: PhaseList(c1, b) == PhaseList(c2, b);
    if AllLocated(AcceptedIn(c1, Inserts)) {
      var ins := PhaseList(c1, Inserts);
      PhaseDoc(Inserts, st1, st2, ins);
      UpdatesDoc(RunPhase(Inserts, st1, ins), RunPhase(Inserts, st2, ins), c1, c2);
    }
  }

  /**
   * The document that comes out (and whether the run stops early) depends on the
   * starting document and the accepted changes alone: proposed, rejected, applied
   * and failed changes, the clock and the workflow status play no part.
   */
  lemma DocumentFromAcceptedOnly(d: Document, c1: seq<DocumentChange>, clock1: nat, status1: WorkflowStatus,
                                 c2: seq<DocumentChange>, clock2: nat, status2: WorkflowStatus)
    requires WithStatus(c1, Accepted) == WithStatus(c2, Accepted)
    ensures Apply(d, c1, clock1, status1).state.doc == Apply(d, c2, clock2, status2).state.doc
    ensures Apply(d, c1, clock1, status1).crashed == Apply(d, c2, clock2, status2).crashed
  {
    assert forall b :: AcceptedIn(c1, b) == AcceptedIn(c2, b);
    if AllLocated(AcceptedIn(c1, Deletes)) {
      var cs := PhaseList(c1, Deletes);
      assert cs == PhaseList(c2, Deletes);
      PhaseDoc(Deletes, State(d, c1, clock1), State(d, c2, clock2), cs);
      AfterDeletesDoc(AfterDeletes(d, c1, clock1), AfterDeletes(d, c2, clock2), c1, c2, status1, status2);
    }
  }

  /**
   * With no accepted change, applying changes nothing but, possibly, the workflow
   * status, which becomes completed when no change is proposed.
   */
  lemma ApplyWithoutAccepted(d: Document, changes: seq<DocumentChange>, clock: nat, status: WorkflowStatus)
    requires WithStatus(changes, Accepted) == []
    ensures Apply(d, changes, clock, status)
         == Outcome(State(d, changes, clock), if AllReviewed(changes) then Completed else status, false)
  {
    var st := State(d, changes, clock);
    forall b
      ensures PhaseList(changes, b) == []
    {
      assert InBucket([], b) == [];
    }
    assert AllLocated(AcceptedIn(changes, Deletes)) && AllLocated(AcceptedIn(changes, Inserts));
    assert AfterDeletes(d, changes, clock) == st;
    assert Updates(RunPhase(Inserts, st, PhaseList(changes, Inserts)), changes) == st;
  }

  // ---------------------------------------------------------------------------
  // The deletion phase

  /**
   * The paragraphs of `ps` whose positions are not in `gone`, in order: the
   * reference for what a batch of deletions at original positions should leave.
   */
  function Keep(ps: seq<Paragraph>, gone: set<int>): (r: seq<Paragraph>)
    ensures |r| <= |ps|
  {
    if ps == [] then []
    else Keep(ps[..|ps| - 1], gone) + (if |ps| - 1 in gone then [] else [ps[|ps| - 1]])
  }

  /** Positions that `ps` does not have make no difference. */
  lemma {:induction false} KeepInRange(ps: seq<Paragraph>, a: set<int>, b: set<int>)
    requires forall i :: 0 <= i < |ps| ==> (i in a <==> i in b)
    ensures Keep(ps, a) == Keep(ps, b)
  {
    if ps != [] {
      KeepInRange(ps[..|ps| - 1], a, b);
    }
  }

  /** Positions below `m` only: everything from `m` on stays. */
  lemma {:induction false} KeepTail(ps: seq<Paragraph>, gone: set<int>, m: nat)
    requires m <= |ps|
    requires forall g :: g in gone ==> g < m
    ensures Keep(ps, gone) == Keep(ps[..m], gone) + ps[m..]
    decreases |ps|
  {
    if |ps| > m {
      var init := ps[..|ps| - 1];
      KeepTail(init, gone, m);
      assert init[..m] == ps[..m];
      assert init[m..] + [ps[|ps| - 1]] == ps[m..];
    } else {
      assert ps[..m] == ps;
    }
  }

  /** Removing position `m` first is keeping everything but `m` and the positions below it. */
  lemma KeepAfterRemove(ps: seq<Paragraph>, gone: set<int>, m: nat)
    requires m < |ps|
    requires forall g :: g in gone ==> g < m
    ensures Keep(RemoveAt(ps, m), gone) == Keep(ps, gone + {m})
  {
    var q := RemoveAt(ps, m);
    var pre := ps[..m + 1];
    RemoveAtParts(ps, m);
    KeepTail(q, gone, m);
    KeepTail(ps, gone + {m}, m + 1);
    KeepInRange(ps[..m], gone + {m}, gone);
    calc {
      Keep(ps, gone + {m});
      Keep(pre, gone + {m}) + ps[m + 1..];
      { assert pre[..|pre| - 1] == ps[..m]; }
      Keep(ps[..m], gone + {m}) + ps[m + 1..];
      Keep(q[..m], gone) + q[m..];
      Keep(q, gone);
    }
  }

  /** What comes before and after the removed position. */
  lemma RemoveAtParts(ps: seq<Paragraph>, m: nat)
    requires m < |ps|
    ensures RemoveAt(ps, m)[..m] == ps[..m] && RemoveAt(ps, m)[m..] == ps[m + 1..]
  {
    var q := RemoveAt(ps, m);
    assert q == ps[..m] + ps[m + 1..];
  }

  /** The sort keys of `cs`. */
  function KeySet(cs: seq<DocumentChange>): set<int> {
    set c | c in cs :: Key(c)
  }

  /** Strictly decreasing paragraph indices. */
  predicate StrictlyDescending(cs: seq<DocumentChange>) {
    forall i, j :: 0 <= i < j < |cs| ==> Key(cs[i]) > Key(cs[j])
  }

  /**
   * Deletions at strictly decreasing indices remove exactly the paragraphs at
   * those indices of the document they start from; indices out of range remove
   * nothing.
   */
  lemma {:induction false} DeletePhaseKeeps(st: State, cs: seq<DocumentChange>)
    requires AllLocated(cs) && StrictlyDescending(cs)
    ensures RunPhase(Deletes, st, cs).doc == st.doc.(paragraphs := Keep(st.doc.paragraphs, KeySet(cs)))
    decreases |cs|
  {
    if cs == [] {
      assert KeySet(cs) == {};
      assert Keep(st.doc.paragraphs, {}) == st.doc.paragraphs by {
        KeepTail(st.doc.paragraphs, {}, 0);
      }
    } else {
      var h, rest := cs[0], cs[1..];
      var next := Step(Deletes, st, h);
      var ps := st.doc.paragraphs;
      assert AllLocated(rest) && StrictlyDescending(rest) by {
        forall i, j | 0 <= i < j < |rest|
          ensures Key(rest[i]) > Key(rest[j])
        {
          assert rest[i] == cs[i + 1] && rest[j] == cs[j + 1];
        }
      }
      DeletePhaseKeeps(next, rest);
      assert KeySet(cs) == KeySet(rest) + {Key(h)} by {
        assert forall c :: c in cs <==> c == h || c in rest;
      }
      forall g | g in KeySet(rest)
        ensures g < Key(h)
      {
        var i :| 0 <= i < |rest| && Key(rest[i]) == g;
        assert rest[i] == cs[i + 1];
      }
      DeleteStepKeeps(st, h, KeySet(rest));
    }
  }

  /** One deletion, then keeping positions below its index: keeping those and its index. */
  lemma DeleteStepKeeps(st: State, h: DocumentChange, gone: set<int>)
    requires Located(h)
    requires forall g :: g in gone ==> g < Key(h)
    ensures var d := Step(Deletes, st, h).doc;
            d.(paragraphs := Keep(d.paragraphs, gone)) == st.doc.(paragraphs := Keep(st.doc.paragraphs, gone + {Key(h)}))
  {
    var ps := st.doc.paragraphs;
    if 0 <= Key(h) < |ps| {
      KeepAfterRemove(ps, gone, Key(h));
    } else {
      KeepInRange(ps, gone, gone + {Key(h)});
    }
  }

  /**
   * In the same phase, with ids not repeated, each deletion is applied exactly
   * when its index is in range of the document the phase starts from, and failed
   * otherwise.
   */
  lemma {:induction false} DeletePhaseStatuses(st: State, cs: seq<DocumentChange>, e: DocumentChange)
    requires AllLocated(cs) && StrictlyDescending(cs) && UniqueIds(cs)
    requires e in cs && FirstIndexOfId(st.changes, e.id).Some?
    ensures StatusOf(RunPhase(Deletes, st, cs).changes, e.id)
         == Some(if 0 <= Key(e) < |st.doc.paragraphs| then Applied else Failed)
    decreases |cs|
  {
    var h, rest := cs[0], cs[1..];
    var next := Step(Deletes, st, h);
    FirstIndexDependsOnIds(next.changes, st.changes, e.id);
    assert AllLocated(rest) && StrictlyDescending(rest) && UniqueIds(rest) by {
      forall i, j | 0 <= i < j < |rest|
        ensures Key(rest[i]) > Key(rest[j]) && rest[i].id != rest[j].id
      {
        assert rest[i] == cs[i + 1] && rest[j] == cs[j + 1];
      }
    }
    if e == h {
      forall x | x in rest
        ensures x.id != e.id
      {
        var i :| 0 <= i < |rest| && rest[i] == x;
        assert cs[i + 1].id != cs[0].id;
      }
      PhaseStatus(Deletes, next, rest, e);
    } else {
      var i :| 0 <= i < |rest| && rest[i] == e;
      assert cs[i + 1] == e;
      assert h.id != e.id && Key(h) > Key(e);
      DeletePhaseStatuses(next, rest, e);
    }
  }

  /**
   * The deletion phase of a run, when the accepted deletions are all located at
   * distinct paragraph indices: the document keeps exactly the paragraphs at
   * other positions, in order, and (with ids not repeated) each deletion is
   * applied when its index was in range of the original document and failed
   * otherwise.
   */
  lemma DeletionsRemoveExactly(d: Document, changes: seq<DocumentChange>, clock: nat)
    requires AllLocated(AcceptedIn(changes, Deletes)) && DistinctKeys(AcceptedIn(changes, Deletes))
    ensures AfterDeletes(d, changes, clock).doc == d.(paragraphs := Keep(d.paragraphs, KeySet(AcceptedIn(changes, Deletes))))
    ensures UniqueIds(changes) ==>
              forall e :: e in AcceptedIn(changes, Deletes) ==>
                StatusOf(AfterDeletes(d, changes, clock).changes, e.id)
                  == Some(if 0 <= Key(e) < |d.paragraphs| then Applied else Failed)
  {
    var cs := PhaseList(changes, Deletes);
    DeleteListFacts(changes);
    DeletePhaseKeeps(State(d, changes, clock), cs);
    if UniqueIds(changes) {
      DeletionStatuses(d, changes, clock);
    }
  }

  /** The sorted deletion list: located, strictly descending, with the keys of the accepted deletions. */
  lemma DeleteListFacts(changes: seq<DocumentChange>)
    requires AllLocated(AcceptedIn(changes, Deletes)) && DistinctKeys(AcceptedIn(changes, Deletes))
    ensures var cs := PhaseList(changes, Deletes);
            AllLocated(cs) && StrictlyDescending(cs) && KeySet(cs) == KeySet(AcceptedIn(changes, Deletes))
  {
    var dels := AcceptedIn(changes, Deletes);
    SortedLocated(dels);
    SortedDescending(dels);
    SortByPermutes(dels, true);
    assert KeySet(SortBy(dels, true)) == KeySet(dels);
  }

  lemma SortedLocated(dels: seq<DocumentChange>)
    requires AllLocated(dels)
    ensures AllLocated(SortBy(dels, true))
  {
    var cs := SortBy(dels, true);
    SortByPermutes(dels, true);
    forall i | 0 <= i < |cs|
      ensures Located(cs[i])
    {
      assert cs[i] in dels;
      var k :| 0 <= k < |dels| && dels[k] == cs[i];
    }
  }

  lemma SortedDescending(dels: seq<DocumentChange>)
    requires DistinctKeys(dels)
    ensures StrictlyDescending(SortBy(dels, true))
  {
    var cs := SortBy(dels, true);
    SortBySorted(dels, true);
    SortByDistinctKeys(dels, true);
    forall i, j | 0 <= i < j < |cs|
      ensures Key(cs[i]) > Key(cs[j])
    {
      assert InOrder(cs[i], cs[j], true);
    }
  }

  /** Each accepted deletion ends applied when its index was in range of the document, failed otherwise. */
  lemma DeletionStatuses(d: Document, changes: seq<DocumentChange>, clock: nat)
    requires AllLocated(AcceptedIn(changes, Deletes)) && DistinctKeys(AcceptedIn(changes, Deletes))
    requires UniqueIds(changes)
    ensures forall e :: e in AcceptedIn(changes, Deletes) ==>
              StatusOf(AfterDeletes(d, changes, clock).changes, e.id)
                == Some(if 0 <= Key(e) < |d.paragraphs| then Applied else Failed)
  {
    var cs := PhaseList(changes, Deletes);
    DeleteListFacts(changes);
    PhaseListFacts(changes, Deletes);
    forall e | e in AcceptedIn(changes, Deletes)
      ensures StatusOf(AfterDeletes(d, changes, clock).changes, e.id)
           == Some(if 0 <= Key(e) < |d.paragraphs| then Applied else Failed)
    {
      var j :| 0 <= j < |changes| && changes[j] == e;
      assert FirstIndexOfId(changes, e.id).Some? by {
        assert changes[j].id == e.id;
      }
      DeletePhaseStatuses(State(d, changes, clock), cs, e);
    }
  }
}
