/**
 * How the workflow applier groups and orders the accepted changes before applying
 * them: one bucket per kind of edit it knows, and paragraph deletions and
 * insertions sorted by paragraph index with Python's stable `list.sort`
 * (deletions with `reverse=True`, which keeps equal keys in their original order).
 */
module ApplierOrder {
  import opened Wrappers
  import opened ChangeModel

  /** The six lists the applier fills, one per kind of edit. */
  datatype Bucket = ParagraphTexts | RunTexts | Inserts | Deletes | Sections | TableCells

  /**
   * The bucket an accepted change goes to: a text update only when it is located
   * at a paragraph (at a run when a run index is given), the four structural kinds
   * always, and no bucket for format changes, row additions and text updates
   * located anywhere else.
   */
  function BucketOf(c: DocumentChange): (r: Option<Bucket>)
    ensures r == Some(RunTexts) <==> c.changeType == TextUpdate && c.location.ParagraphLoc? && c.location.runIndex.Some?
    ensures r == Some(ParagraphTexts) <==> c.changeType == TextUpdate && c.location.ParagraphLoc? && c.location.runIndex.None?
    ensures r == Some(Inserts) <==> c.changeType == ParagraphInsert
    ensures r == Some(Deletes) <==> c.changeType == ParagraphDelete
    ensures r == Some(Sections) <==> c.changeType == SectionReplace
    ensures r == Some(TableCells) <==> c.changeType == TableCellUpdate
    ensures r.None? <==> c.changeType in {FormatChange, TableRowAdd} || (c.changeType == TextUpdate && !c.location.ParagraphLoc?)
  {
    match c.changeType
    case TextUpdate =>
      if c.location.ParagraphLoc? then
        if c.location.runIndex.Some? then Some(RunTexts) else Some(ParagraphTexts)
      else None
    case ParagraphInsert => Some(Inserts)
    case ParagraphDelete => Some(Deletes)
    case SectionReplace => Some(Sections)
    case TableCellUpdate => Some(TableCells)
    case FormatChange => None
    case TableRowAdd => None
  }

  /** The changes of `s` that go to bucket `b`, in list order (built by appending). */
  function InBucket(s: seq<DocumentChange>, b: Bucket): (r: seq<DocumentChange>)
    ensures |r| <= |s|
    ensures forall c :: c in r <==> c in s && BucketOf(c) == Some(b)
  {
    if s == [] then []
    else
      var last := s[|s| - 1];
      InBucket(s[..|s| - 1], b) + (if BucketOf(last) == Some(b) then [last] else [])
  }

  /** No two changes of `s` share an id. */
  predicate UniqueIds(s: seq<DocumentChange>) {
    forall i, j :: 0 <= i < j < |s| ==> s[i].id != s[j].id
  }

  /** The ids of the changes of `s`. */
  function IdSet(s: seq<DocumentChange>): (r: set<ChangeId>)
    ensures forall c :: c in s ==> c.id in r
    ensures forall id :: id in r ==> exists c :: c in s && c.id == id
  {
    set c | c in s :: c.id
  }

  /** Bucketing keeps ids distinct. */
  lemma {:induction false} InBucketUniqueIds(s: seq<DocumentChange>, b: Bucket)
    requires UniqueIds(s)
    ensures UniqueIds(InBucket(s, b))
  {
    if s != [] {
      var init := s[..|s| - 1];
      InBucketUniqueIds(init, b);
      var last := s[|s| - 1];
      forall c | c in InBucket(init, b)
        ensures c.id != last.id
      {
        var i :| 0 <= i < |init| && init[i] == c;
        assert init[i] == s[i];
      }
    }
  }

  // ---------------------------------------------------------------------------
  // Sorting by paragraph index

  /** The change is located at a paragraph, so its sort key exists. */
  predicate Located(c: DocumentChange) {
    c.location.ParagraphLoc?
  }

  /** Every change of `s` has a sort key; otherwise the key function raises. */
  predicate AllLocated(s: seq<DocumentChange>) {
    forall i :: 0 <= i < |s| ==> Located(s[i])
  }

  /**
   * The sort key `c.location.paragraph_index`. The applier sorts only lists whose
   * changes are all located (otherwise the key function raises first), so the
   * value given to other changes is never consulted.
   */
  function Key(c: DocumentChange): int {
    if c.location.ParagraphLoc? then c.location.paragraphIndex else 0
  }

  /** `a` may precede `b`: a key no smaller (descending) or no larger (ascending). */
  predicate InOrder(a: DocumentChange, b: DocumentChange, descending: bool)
  {
    if descending then Key(a) >= Key(b) else Key(a) <= Key(b)
  }

  /** `s` is sorted by key in the given direction. */
  predicate SortedBy(s: seq<DocumentChange>, descending: bool)
  {
    forall i, j :: 0 <= i < j < |s| ==> InOrder(s[i], s[j], descending)
  }

  /** `x` placed into sorted `t` after every element that may precede it. */
  function InsertSorted(x: DocumentChange, t: seq<DocumentChange>, descending: bool): (r: seq<DocumentChange>)
    ensures |r| == |t| + 1
  {
    if t == [] then [x]
    else if InOrder(t[0], x, descending) then [t[0]] + InsertSorted(x, t[1..], descending)
    else [x] + t
  }

  /** Placing `x` adds exactly `x`: the result is a permutation of `t` with `x`. */
  lemma {:induction false} InsertSortedPermutes(x: DocumentChange, t: seq<DocumentChange>, descending: bool)
    ensures multiset(InsertSorted(x, t, descending)) == multiset(t) + multiset{x}
  {
    if t != [] {
      assert t == [t[0]] + t[1..];
      if InOrder(t[0], x, descending) {
        InsertSortedPermutes(x, t[1..], descending);
      }
    }
  }

  /**
   * Python's stable `list.sort(key=Key)` (with `reverse=True` when descending):
   * each element, front to back, is placed after all earlier ones that may
   * precede it.
   */
  function SortBy(s: seq<DocumentChange>, descending: bool): (r: seq<DocumentChange>)
    ensures |r| == |s|
  {
    if s == [] then []
    else InsertSorted(s[|s| - 1], SortBy(s[..|s| - 1], descending), descending)
  }

  /** Insertion keeps a sorted list sorted. */
  lemma {:induction false} InsertSortedSorted(x: DocumentChange, t: seq<DocumentChange>, descending: bool)
    requires SortedBy(t, descending)
    ensures SortedBy(InsertSorted(x, t, descending), descending)
  {
    var r := InsertSorted(x, t, descending);
    if t != [] {
      if InOrder(t[0], x, descending) {
        InsertSortedSorted(x, t[1..], descending);
        InsertSortedPermutes(x, t[1..], descending);
        var rest := InsertSorted(x, t[1..], descending);
        forall j | 0 <= j < |rest|
          ensures InOrder(t[0], rest[j], descending)
        {
          assert rest[j] in multiset(rest);
          assert rest[j] == x || rest[j] in t[1..];
        }
      } else {
        forall j | 0 <= j < |t|
          ensures InOrder(x, t[j], descending)
        {
          if j > 0 {
            assert InOrder(t[0], t[j], descending);
          }
        }
      }
    }
  }

  /** The sort yields a list sorted in the requested direction. */
  lemma {:induction false} SortBySorted(s: seq<DocumentChange>, descending: bool)
    ensures SortedBy(SortBy(s, descending), descending)
  {
    if s != [] {
      SortBySorted(s[..|s| - 1], descending);
      InsertSortedSorted(s[|s| - 1], SortBy(s[..|s| - 1], descending), descending);
    }
  }

  /** The sort is a permutation: the same changes, as many times each. */
  lemma {:induction false} SortByPermutation(s: seq<DocumentChange>, descending: bool)
    ensures multiset(SortBy(s, descending)) == multiset(s)
  {
    if s != [] {
      var init, last := s[..|s| - 1], s[|s| - 1];
      assert s == init + [last];
      SortByPermutation(init, descending);
      InsertSortedPermutes(last, SortBy(init, descending), descending);
    }
  }

  /** Sorting keeps the changes present and their ids. */
  lemma SortByPermutes(s: seq<DocumentChange>, descending: bool)
    ensures forall c :: c in SortBy(s, descending) <==> c in s
    ensures IdSet(SortBy(s, descending)) == IdSet(s)
  {
    var r := SortBy(s, descending);
    SortByPermutation(s, descending);
    forall c
      ensures c in r <==> c in s
    {
      assert c in r <==> c in multiset(r);
      assert c in s <==> c in multiset(s);
    }
  }

  /** The changes of `s` whose key is `k`, in list order. */
  function WithKey(s: seq<DocumentChange>, k: int): seq<DocumentChange>
  {
    if s == [] then []
    else (if Key(s[0]) == k then [s[0]] else []) + WithKey(s[1..], k)
  }

  lemma {:induction false} WithKeyAppend(a: seq<DocumentChange>, b: seq<DocumentChange>, k: int)
    ensures WithKey(a + b, k) == WithKey(a, k) + WithKey(b, k)
  {
    if a == [] {
      assert a + b == b;
    } else {
      assert (a + b)[1..] == a[1..] + b;
      WithKeyAppend(a[1..], b, k);
    }
  }

  /** No element of `t` has a key on the far side of `x`: none of them has `x`'s key. */
  lemma {:induction false} WithKeyNone(t: seq<DocumentChange>, k: int)
    requires forall j :: 0 <= j < |t| ==> Key(t[j]) != k
    ensures WithKey(t, k) == []
  {
    if t != [] {
      WithKeyNone(t[1..], k);
    }
  }

  /** The tail of a sorted list is sorted. */
  lemma SortedTail(t: seq<DocumentChange>, descending: bool)
    requires t != [] && SortedBy(t, descending)
    ensures SortedBy(t[1..], descending)
  {
    var tail := t[1..];
    forall i, j | 0 <= i < j < |tail|
      ensures InOrder(tail[i], tail[j], descending)
    {
      assert tail[i] == t[i + 1] && tail[j] == t[j + 1];
    }
  }

  /** When `x` may not follow the head of sorted `t`, no element of `t` shares its key. */
  lemma KeyBeyondAll(x: DocumentChange, t: seq<DocumentChange>, descending: bool)
    requires t != [] && SortedBy(t, descending) && !InOrder(t[0], x, descending)
    ensures WithKey(t, Key(x)) == []
  {
    forall j | 0 <= j < |t|
      ensures Key(t[j]) != Key(x)
    {
      if j > 0 {
        assert InOrder(t[0], t[j], descending);
      }
    }
    WithKeyNone(t, Key(x));
  }

  /** Inserting into a sorted list puts `x` after every element with the same key. */
  lemma {:induction false} InsertSortedStable(x: DocumentChange, t: seq<DocumentChange>, descending: bool, k: int)
    requires SortedBy(t, descending)
    ensures WithKey(InsertSorted(x, t, descending), k) == WithKey(t, k) + (if Key(x) == k then [x] else [])
  {
    if t != [] {
      if InOrder(t[0], x, descending) {
        SortedTail(t, descending);
        InsertSortedStable(x, t[1..], descending, k);
        PassHead(x, t, descending, k);
      } else {
        if Key(x) == k {
          KeyBeyondAll(x, t, descending);
        }
        PlaceFirst(x, t, descending, k);
      }
    }
  }

  /** The step of `InsertSortedStable` where `x` moves past the head of `t`. */
  lemma PassHead(x: DocumentChange, t: seq<DocumentChange>, descending: bool, k: int)
    requires t != [] && InOrder(t[0], x, descending)
    requires WithKey(InsertSorted(x, t[1..], descending), k) == WithKey(t[1..], k) + (if Key(x) == k then [x] else [])
    ensures WithKey(InsertSorted(x, t, descending), k) == WithKey(t, k) + (if Key(x) == k then [x] else [])
  {
    var rest := InsertSorted(x, t[1..], descending);
    var r := InsertSorted(x, t, descending);
    var head := if Key(t[0]) == k then [t[0]] else [];
    assert r == [t[0]] + rest;
    assert r[0] == t[0] && r[1..] == rest;
    assert WithKey(r, k) == head + WithKey(rest, k);
    assert WithKey(t, k) == head + WithKey(t[1..], k);
  }

  /** The step of `InsertSortedStable` where `x` goes in front of `t`. */
  lemma PlaceFirst(x: DocumentChange, t: seq<DocumentChange>, descending: bool, k: int)
    requires t != [] && !InOrder(t[0], x, descending)
    requires Key(x) == k ==> WithKey(t, k) == []
    ensures WithKey(InsertSorted(x, t, descending), k) == WithKey(t, k) + (if Key(x) == k then [x] else [])
  {
    assert ([x] + t)[1..] == t;
  }

  /**
   * The sort is stable: the changes sharing any one key appear in the sorted list
   * in the order they had before.
   */
  lemma {:induction false} SortByStable(s: seq<DocumentChange>, descending: bool, k: int)
    ensures WithKey(SortBy(s, descending), k) == WithKey(s, k)
  {
    if s != [] {
      var init, last := s[..|s| - 1], s[|s| - 1];
      SortByStable(init, descending, k);
      SortBySorted(init, descending);
      InsertSortedStable(last, SortBy(init, descending), descending, k);
      AppendLast(s, descending, k);
    }
  }

  /** The step of `SortByStable` for the last element of `s`. */
  lemma AppendLast(s: seq<DocumentChange>, descending: bool, k: int)
    requires s != []
    requires WithKey(SortBy(s[..|s| - 1], descending), k) == WithKey(s[..|s| - 1], k)
    requires var last := s[|s| - 1];
             WithKey(InsertSorted(last, SortBy(s[..|s| - 1], descending), descending), k)
               == WithKey(SortBy(s[..|s| - 1], descending), k) + (if Key(last) == k then [last] else [])
    ensures WithKey(SortBy(s, descending), k) == WithKey(s, k)
  {
    var init, last := s[..|s| - 1], s[|s| - 1];
    assert s == init + [last];
    var tail := if Key(last) == k then [last] else [];
    WithKeyAppend(init, [last], k);
    assert [last][1..] == [];
    assert WithKey([last], k) == tail;
  }

  /** Sorting keeps ids distinct. */
  lemma {:induction false} SortByUniqueIds(s: seq<DocumentChange>, descending: bool)
    requires UniqueIds(s)
    ensures UniqueIds(SortBy(s, descending))
  {
    if s != [] {
      var init, last := s[..|s| - 1], s[|s| - 1];
      SortByUniqueIds(init, descending);
      SortByPermutes(init, descending);
      forall c | c in SortBy(init, descending)
        ensures c.id != last.id
      {
        var i :| 0 <= i < |init| && init[i] == c;
        assert init[i] == s[i];
      }
      InsertSortedUniqueIds(last, SortBy(init, descending), descending);
      assert SortBy(s, descending) == InsertSorted(last, SortBy(init, descending), descending);
    }
  }

  lemma {:induction false} InsertSortedUniqueIds(x: DocumentChange, t: seq<DocumentChange>, descending: bool)
    requires UniqueIds(t)
    requires forall c :: c in t ==> c.id != x.id
    ensures UniqueIds(InsertSorted(x, t, descending))
  {
    if t != [] && InOrder(t[0], x, descending) {
      InsertSortedUniqueIds(x, t[1..], descending);
      InsertSortedPermutes(x, t[1..], descending);
      var rest := InsertSorted(x, t[1..], descending);
      forall j | 0 <= j < |rest|
        ensures rest[j].id != t[0].id
      {
        assert rest[j] in multiset(rest);
        if rest[j] != x {
          var i :| 0 <= i < |t[1..]| && t[1..][i] == rest[j];
          assert t[i + 1] == rest[j];
        }
      }
    }
  }

  /** No two changes of `s` share a sort key. */
  predicate DistinctKeys(s: seq<DocumentChange>) {
    forall i, j :: 0 <= i < j < |s| ==> Key(s[i]) != Key(s[j])
  }

  /** Sorting keeps keys distinct. */
  lemma {:induction false} SortByDistinctKeys(s: seq<DocumentChange>, descending: bool)
    requires DistinctKeys(s)
    ensures DistinctKeys(SortBy(s, descending))
  {
    if s != [] {
      var init, last := s[..|s| - 1], s[|s| - 1];
      SortByDistinctKeys(init, descending);
      SortByPermutes(init, descending);
      forall c | c in SortBy(init, descending)
        ensures Key(c) != Key(last)
      {
        var i :| 0 <= i < |init| && init[i] == c;
        assert init[i] == s[i];
      }
      InsertSortedDistinctKeys(last, SortBy(init, descending), descending);
      assert SortBy(s, descending) == InsertSorted(last, SortBy(init, descending), descending);
    }
  }

  lemma {:induction false} InsertSortedDistinctKeys(x: DocumentChange, t: seq<DocumentChange>, descending: bool)
    requires DistinctKeys(t)
    requires forall c :: c in t ==> Key(c) != Key(x)
    ensures DistinctKeys(InsertSorted(x, t, descending))
  {
    if t != [] && InOrder(t[0], x, descending) {
      InsertSortedDistinctKeys(x, t[1..], descending);
      InsertSortedPermutes(x, t[1..], descending);
      var rest := InsertSorted(x, t[1..], descending);
      forall j | 0 <= j < |rest|
        ensures Key(rest[j]) != Key(t[0])
      {
        assert rest[j] in multiset(rest);
        if rest[j] != x {
          var i :| 0 <= i < |t[1..]| && t[1..][i] == rest[j];
          assert t[i + 1] == rest[j];
        }
      }
    }
  }
}
