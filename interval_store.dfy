/**
 * The interval store: labelled frame ranges, the validation of a candidate,
 * relabelling, deletion with its page correction, and the sorted, paginated view.
 * Every operation here is a pure list transform; the annotator applies them to its state.
 */
module IntervalStore {
  import opened Wrappers
  import opened FrameMapper

  /** Rows shown per page of the interval table. */
  const RowsPerPage: nat := 15

  /** The fixed behaviour label set; hot-key digit `d` selects entry `d - 1`. */
  const Behaviors: seq<string> :=
    ["jumping", "unsupported rearing", "supported rearing", "grooming", "freezing", "etc"]

  /** A committed interval. Times are derived from the frame rate at commit time and never recomputed. */
  datatype Interval = Interval(start: int, end: int, startTime: real, endTime: real, behavior: string, auto: bool)

  /** Outcome of a validated insert; each rejection carries its own user-facing reason. */
  datatype AddStatus = Added | NotNumbers | OutOfBounds(maxFrame: int) | NotIncreasing

  /** A stored interval satisfies the insert's checks on its own frames. */
  predicate WellFormed(iv: Interval)
  {
    0 <= iv.start < iv.end && !iv.auto
  }

  /** The checks of an insert, in the order the store makes them. */
  function CheckCandidate(start: Option<int>, end: Option<int>, maxFrame: int): (st: AddStatus)
    ensures st == Added <==>
              start.Some? && end.Some? && 0 <= start.value && end.value <= maxFrame && start.value < end.value
    ensures st == NotNumbers <==> start.None? || end.None?
    ensures st.OutOfBounds? <==>
              start.Some? && end.Some? && (start.value < 0 || end.value > maxFrame)
    ensures st.OutOfBounds? ==> st.maxFrame == maxFrame
  {
    if start.None? || end.None? then NotNumbers
    else if start.value < 0 || end.value > maxFrame then OutOfBounds(maxFrame)
    else if start.value >= end.value then NotIncreasing
    else Added
  }

  /** The record appended by an accepted insert: both times are the frames over the current frame rate. */
  function NewInterval(start: int, end: int, fr: Rate, behavior: string): (iv: Interval)
    ensures iv.start == start && iv.end == end && iv.behavior == behavior && !iv.auto
    ensures iv.startTime * fr == start as real && iv.endTime * fr == end as real
  {
    Interval(start, end, TimeOf(start, fr), TimeOf(end, fr), behavior, false)
  }

  /** Marking start and end on the same frame never yields an interval. */
  lemma SameFrameRejected(f: int, maxFrame: int)
    ensures CheckCandidate(Some(f), Some(f), maxFrame) != Added
    ensures 0 <= f <= maxFrame ==> CheckCandidate(Some(f), Some(f), maxFrame) == NotIncreasing
  {
  }

  /** An accepted candidate gives a well-formed interval whose times are its frames over the rate. */
  lemma AcceptedIsWellFormed(s: int, e: int, maxFrame: int, fr: Rate, b: string)
    requires CheckCandidate(Some(s), Some(e), maxFrame) == Added
    ensures WellFormed(NewInterval(s, e, fr, b)) && NewInterval(s, e, fr, b).end <= maxFrame
    ensures 0.0 <= NewInterval(s, e, fr, b).startTime < NewInterval(s, e, fr, b).endTime
  {
    TimeNonNegativeIff(s, fr);
    DivideBounds(s as real - 1.0, s as real, s as real, fr);
    assert TimeOf(e, fr) - TimeOf(s, fr) == (e - s) as real / fr;
  }

  /** Relabelling: element `idx` gets behaviour `b`, every other element is kept (a `map` over the list). */
  function Relabel(s: seq<Interval>, idx: int, b: string): (r: seq<Interval>)
    ensures |r| == |s|
    ensures forall i :: 0 <= i < |s| && i != idx ==> r[i] == s[i]
    ensures 0 <= idx < |s| ==> r[idx] == s[idx].(behavior := b)
  {
    if s == [] then []
    else [if idx == 0 then s[0].(behavior := b) else s[0]] + Relabel(s[1..], idx - 1, b)
  }

  /** Relabelling back to the old behaviour undoes a relabel. */
  lemma RelabelUndo(s: seq<Interval>, idx: int, b: string)
    requires 0 <= idx < |s|
    ensures Relabel(Relabel(s, idx, b), idx, s[idx].behavior) == s
  {
    var r := Relabel(Relabel(s, idx, b), idx, s[idx].behavior);
    assert forall i :: 0 <= i < |s| ==> r[i] == s[i];
  }

  /** Deleting: every element except the one at `idx` is kept, in order (a `filter` on the index). */
  function RemoveAt(s: seq<Interval>, idx: int): (r: seq<Interval>)
    ensures 0 <= idx < |s| ==> r == s[..idx] + s[idx + 1..]
    ensures !(0 <= idx < |s|) ==> r == s
  {
    if s == [] then []
    else if idx == 0 then s[1..]
    else [s[0]] + RemoveAt(s[1..], idx - 1)
  }

  /** Putting the removed element back where it was restores the list; and nothing else is lost. */
  lemma {:induction false} RemoveAtReinsert(s: seq<Interval>, idx: int)
    requires 0 <= idx < |s|
    ensures |RemoveAt(s, idx)| == |s| - 1
    ensures RemoveAt(s, idx)[..idx] + [s[idx]] + RemoveAt(s, idx)[idx..] == s
    ensures multiset(RemoveAt(s, idx)) + multiset{s[idx]} == multiset(s)
  {
    var r := RemoveAt(s, idx);
    assert r[..idx] == s[..idx];
    assert r[idx..] == s[idx + 1..];
    assert s == s[..idx] + [s[idx]] + s[idx + 1..];
    calc {
      multiset(s);
      multiset(s[..idx] + [s[idx]] + s[idx + 1..]);
      multiset(s[..idx]) + multiset{s[idx]} + multiset(s[idx + 1..]);
      multiset(s[..idx] + s[idx + 1..]) + multiset{s[idx]};
    }
  }

  /** A page index names either the first page or a page that has entries. */
  predicate PageValid(page: nat, n: nat)
  {
    page == 0 || page * RowsPerPage < n
  }

  /** The page after deleting from a list of `oldLen` entries: one back when the page would have no rows left. */
  function PageAfterRemove(page: nat, oldLen: nat): (p: nat)
    ensures p == page || p + 1 == page
    ensures p < page <==> page > 0 && page * RowsPerPage >= oldLen - 1
  {
    if page * RowsPerPage >= oldLen - 1 then (if page - 1 > 0 then page - 1 else 0) else page
  }

  /** The page correction keeps the page index valid, whether the delete removed an entry or not. */
  lemma PageAfterRemoveValid(page: nat, oldLen: nat, newLen: nat)
    requires PageValid(page, oldLen)
    requires newLen == oldLen - 1 || newLen == oldLen
    ensures PageValid(PageAfterRemove(page, oldLen), newLen)
  {
  }

  /** `s` is ordered by start frame, larger starts first. */
  predicate SortedDesc(s: seq<Interval>)
  {
    forall i, j :: 0 <= i < j < |s| ==> s[i].start >= s[j].start
  }

  /** Inserts `x` before the first element whose start is not larger than its own. */
  function InsertDesc(x: Interval, t: seq<Interval>): (r: seq<Interval>)
    ensures |r| == |t| + 1
    ensures multiset(r) == multiset(t) + multiset{x}
    ensures r[0] == x || (t != [] && r[0] == t[0])
  {
    if t == [] || x.start >= t[0].start then [x] + t
    else
      assert t == [t[0]] + t[1..];
      [t[0]] + InsertDesc(x, t[1..])
  }

  /** Inserting into a sorted list keeps it sorted. */
  lemma {:induction false} InsertDescSorted(x: Interval, t: seq<Interval>)
    requires SortedDesc(t)
    ensures SortedDesc(InsertDesc(x, t))
  {
    if t != [] && x.start < t[0].start {
      var rest := InsertDesc(x, t[1..]);
      InsertDescSorted(x, t[1..]);
      assert t[0].start >= rest[0].start;
      var r := [t[0]] + rest;
      forall i, j | 0 <= i < j < |r| ensures r[i].start >= r[j].start {
        if i == 0 {
          assert r[j] == rest[j - 1];
          assert rest[0].start >= rest[j - 1].start;
        } else {
          assert r[i] == rest[i - 1] && r[j] == rest[j - 1];
        }
      }
    }
  }

  /**
   * A copy of `s` sorted by start frame, descending, as `slice().sort((a, b) => b.start - a.start)`
   * does: JavaScript's sort is stable, so entries with equal starts keep their stored order.
   */
  function SortDesc(s: seq<Interval>): (r: seq<Interval>)
    ensures |r| == |s|
    ensures multiset(r) == multiset(s)
    ensures SortedDesc(r)
  {
    if s == [] then []
    else
      assert s == [s[0]] + s[1..];
      InsertDescSorted(s[0], SortDesc(s[1..]));
      InsertDesc(s[0], SortDesc(s[1..]))
  }

  /** The entries of `s` whose start frame is `k`, in order. */
  function WithStart(s: seq<Interval>, k: int): seq<Interval>
  {
    if s == [] then [] else (if s[0].start == k then [s[0]] else []) + WithStart(s[1..], k)
  }

  lemma {:induction false} WithStartInsert(x: Interval, t: seq<Interval>, k: int)
    ensures WithStart(InsertDesc(x, t), k) == (if x.start == k then [x] else []) + WithStart(t, k)
  {
    if t == [] || x.start >= t[0].start {
      var r := [x] + t;
      assert r[0] == x && r[1..] == t;
      if t != [] && x.start == k {
        assert WithStart(t, k) == (if t[0].start == k then [t[0]] else []) + WithStart(t[1..], k);
      }
    } else {
      var rest := InsertDesc(x, t[1..]);
      var r := [t[0]] + rest;
      assert r[0] == t[0] && r[1..] == rest;
      WithStartInsert(x, t[1..], k);
    }
  }

  /** Sorting is stable: for every start frame, the entries with that start keep their relative order. */
  lemma {:induction false} SortDescStable(s: seq<Interval>, k: int)
    ensures WithStart(SortDesc(s), k) == WithStart(s, k)
  {
    if s != [] {
      SortDescStable(s[1..], k);
      WithStartInsert(s[0], SortDesc(s[1..]), k);
    }
  }

  function Min(a: int, b: int): int { if a <= b then a else b }

  /** The rows shown on page `page`: the slice `[page * 15, (page + 1) * 15)` of the sorted copy. */
  function PageView(s: seq<Interval>, page: nat): (v: seq<Interval>)
    ensures |v| <= RowsPerPage
    ensures |v| == if page * RowsPerPage < |s| then Min(RowsPerPage, |s| - page * RowsPerPage) else 0
    ensures SortedDesc(v)
    ensures forall i :: 0 <= i < |v| ==> page * RowsPerPage + i < |s| && v[i] == SortDesc(s)[page * RowsPerPage + i]
  {
    var sorted := SortDesc(s);
    var lo := Min(page * RowsPerPage, |sorted|);
    var hi := Min((page + 1) * RowsPerPage, |sorted|);
    sorted[lo..hi]
  }

  /** Entry `k` of the sorted list is shown on page `k / 15`, at row `k % 15`. */
  lemma EntryOnItsPage(s: seq<Interval>, k: nat)
    requires k < |s|
    ensures k % RowsPerPage < |PageView(s, k / RowsPerPage)|
    ensures PageView(s, k / RowsPerPage)[k % RowsPerPage] == SortDesc(s)[k]
  {
    var p := k / RowsPerPage;
    assert p * RowsPerPage + k % RowsPerPage == k;
  }

  /** A valid page of a non-empty list always shows at least one row. */
  lemma ValidPageNotEmpty(s: seq<Interval>, page: nat)
    requires PageValid(page, |s|) && |s| > 0
    ensures |PageView(s, page)| > 0
  {
  }

  /** Every row shown comes from the store. */
  lemma PageRowsFromStore(s: seq<Interval>, page: nat)
    ensures forall x :: x in PageView(s, page) ==> x in s
  {
    var v := PageView(s, page);
    var sorted := SortDesc(s);
    forall x | x in v ensures x in s {
      var i :| 0 <= i < |v| && v[i] == x;
      assert sorted[page * RowsPerPage + i] == x;
      assert x in multiset(sorted);
    }
  }
}
