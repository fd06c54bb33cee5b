/** Cursor pagination (`scroll` in crates/veclite/src/collection.rs): what one page
    holds and where it starts. */
module Scroll {
  import opened Core
  import opened Collections
  import opened Filters
  import opened Search
  import opened Slots

  // ----- one page -----------------------------------------------------------

  /** Past the last slot that carried an id. */
  function PastLast(ids: seq<string>, id: string): (n: nat)
    ensures n <= |ids|
    ensures n > 0 ==> ids[n - 1] == id
    ensures forall s :: n <= s < |ids| ==> ids[s] != id
  {
    if ids == [] then 0
    else if ids[|ids| - 1] == id then |ids|
    else PastLast(ids[..|ids| - 1], id)
  }

  /** Where a page starts: after the cursor's live slot, or after the last slot
      that carried it. */
  function StartSlot(d: Data, after: Option<string>): nat {
    if after.None? then 0
    else if after.value in d.idToSlot then d.idToSlot[after.value] + 1
    else PastLast(d.ids, after.value)
  }

  /** The live matching slots of a range, in order. */
  function MatchesIn(d: Data, f: Filter, lo: nat, hi: nat): (r: seq<nat>)
    requires lo <= hi <= |d.ids| == |d.payloads|
    ensures forall s :: s in r <==> lo <= s < hi && Matching(d, f, s)
    ensures Increasing(r)
  {
    if lo == hi then []
    else
      var front := MatchesIn(d, f, lo, hi - 1);
      if !Matching(d, f, hi - 1) then front
      else
        assert forall i :: 0 <= i < |front| ==> front[i] in front;
        assert forall s :: s in front + [hi - 1] <==> s in front || s == hi - 1;
        front + [hi - 1]
  }

  /** The slots of a page, and where the next page resumes, if there is one. */
  datatype Page = Page(slots: seq<nat>, resume: Option<nat>)

  function PageFrom(d: Data, f: Filter, start: nat, limit: nat): Page
    requires start <= |d.ids| == |d.payloads| && limit > 0
  {
    var all := MatchesIn(d, f, start, |d.ids|);
    if |all| <= limit then Page(all, None) else Page(all[..limit], Some(all[limit - 1] + 1))
  }

  lemma {:induction false} MatchesPrefix(d: Data, f: Filter, lo: nat, mid: nat, hi: nat)
    requires lo <= mid <= hi <= |d.ids| == |d.payloads|
    ensures MatchesIn(d, f, lo, hi) == MatchesIn(d, f, lo, mid) + MatchesIn(d, f, mid, hi)
  {
    if mid < hi {
      MatchesPrefix(d, f, lo, mid, hi - 1);
    }
  }

  /** The slots of a page are the live matches up to where the next one resumes; there is
      a next one only if a match is left for it. */
  lemma PageIsRange(d: Data, f: Filter, start: nat, limit: nat)
    requires start <= |d.ids| == |d.payloads| && limit > 0
    ensures var p := PageFrom(d, f, start, limit);
      var stop := if p.resume.Some? then p.resume.value else |d.ids|;
      && start <= stop <= |d.ids|
      && p.slots == MatchesIn(d, f, start, stop)
      && |p.slots| <= limit && (p.resume.Some? ==> |p.slots| == limit && start < stop && p.slots[limit - 1] == stop - 1)
      && (p.resume.Some? ==> exists s :: stop <= s < |d.ids| && Matching(d, f, s))
  {
    var all := MatchesIn(d, f, start, |d.ids|);
    if |all| > limit {
      assert all[limit - 1] in all && all[limit] in all;
      var stop := all[limit - 1] + 1;
      MatchesPrefix(d, f, start, stop, |d.ids|);
      var below := MatchesIn(d, f, start, stop);
      assert forall j :: 0 <= j < |below| ==> all[j] == below[j] && below[j] in below;
      assert forall j :: |below| <= j < |all| ==> all[j] in MatchesIn(d, f, stop, |d.ids|);
      assert all[limit - 1] < stop <= all[limit];
    }
  }

  ghost predicate PointsAt(d: Data, dim: nat, slots: seq<nat>, points: seq<Point>)
    requires Shape(d, dim)
  {
    |points| == |slots| && forall i :: 0 <= i < |slots| ==> slots[i] < |d.ids| && points[i] == PointAt(d, dim, slots[i])
  }

  /** The points of a page, and the id of the last when more matches follow. */
  ghost predicate ShowsPage(
    d: Data, dim: nat, f: Filter, start: nat, limit: nat, points: seq<Point>, next: Option<string>)
    requires Shape(d, dim) && start <= |d.ids| && limit > 0
  {
    var p := PageFrom(d, f, start, limit);
    && PointsAt(d, dim, p.slots, points)
    && next == if p.resume.Some? then Some(points[|points| - 1].id) else None
  }

  lemma PageFull(d: Data, dim: nat, f: Filter, start: nat, limit: nat, slot: nat, slots: seq<nat>, points: seq<Point>)
    requires Shape(d, dim) && start <= slot < |d.ids| && limit > 0
    requires Read(d, dim, f, start, slot, slots, points) && |points| == limit && Matching(d, f, slot)
    ensures ShowsPage(d, dim, f, start, limit, points, Some(points[limit - 1].id))
  {
    MatchesPrefix(d, f, start, slot, |d.ids|);
    MatchesPrefix(d, f, slot, slot + 1, |d.ids|);
    var all := MatchesIn(d, f, start, |d.ids|);
    assert slot in MatchesIn(d, f, slot, slot + 1);
    assert |all| > limit && all[..limit] == slots;
  }

  /** The slots and points of a page found so far. */
  ghost predicate Read(d: Data, dim: nat, f: Filter, start: nat, slot: nat, slots: seq<nat>, points: seq<Point>)
    requires Shape(d, dim) && start <= slot <= |d.ids|
  {
    slots == MatchesIn(d, f, start, slot) && PointsAt(d, dim, slots, points)
  }

  lemma NothingRead(d: Data, dim: nat, f: Filter, start: nat)
    requires Shape(d, dim) && start <= |d.ids|
    ensures Read(d, dim, f, start, start, [], [])
  {
  }

  /** The last page: no match is left. */
  lemma AllRead(d: Data, dim: nat, f: Filter, start: nat, limit: nat, slots: seq<nat>, points: seq<Point>)
    requires Shape(d, dim) && start <= |d.ids| && limit > 0 && |slots| <= limit
    requires Read(d, dim, f, start, |d.ids|, slots, points)
    ensures ShowsPage(d, dim, f, start, limit, points, None)
  {
  }

  lemma ReadNext(d: Data, dim: nat, f: Filter, start: nat, slot: nat, slots: seq<nat>, points: seq<Point>)
    requires Shape(d, dim) && start <= slot < |d.ids| && Read(d, dim, f, start, slot, slots, points)
    ensures if Matching(d, f, slot)
      then Read(d, dim, f, start, slot + 1, slots + [slot], points + [PointAt(d, dim, slot)])
            else Read(d, dim, f, start, slot + 1, slots, points)
  {
  }

  lemma MatchingIs(d: Data, f: Filter, slot: nat)
    requires slot < |d.ids| == |d.payloads|
    ensures Matching(d, f, slot) <==> Live(d, slot) && f.Matches(d.payloads[slot])
  {
  }

  /** One page: the points of its slots, and the id of its last point when more
      matches follow. */
  method Scroll(c: CollectionData, dim: nat, after: Option<string>, limit: nat, filter: Option<Filter>)
    returns (r: Result<(seq<Point>, Option<string>), Error>)
    requires Valid(c.Model(), dim)
    ensures r.Failure? <==> limit == 0 || (filter.Some? && !filter.value.Validate())
    ensures r.Failure? ==> r.error == InvalidArgument
    ensures r.Success? ==>
      && StartSlot(c.Model(), after) <= |c.ids|
      && ShowsPage(c.Model(), dim, FilterOf(filter), StartSlot(c.Model(), after), limit, r.value.0, r.value.1)
  {
    if limit == 0 || (filter.Some? && !filter.value.Validate()) {
      return Failure(InvalidArgument);
    }
    var start := Resume(c, after, dim);
    var points, next := ReadPage(c, dim, FilterOf(filter), start, limit);
    return Success((points, next));
  }

  method ReadPage(
    c: CollectionData, dim: nat, f: Filter, start: nat, limit: nat) returns (points: seq<Point>, next: Option<string>)
    requires Shape(c.Model(), dim) && start <= |c.ids| && limit > 0
    ensures ShowsPage(c.Model(), dim, f, start, limit, points, next)
  {
    points, next := [], None;
    ghost var d, slots: seq<nat> := c.Model(), [];
    assert d.ids == c.ids && d.payloads == c.payloads && |c.payloads| == |c.ids|;
    hide *;
    NothingRead(d, dim, f, start);
    for slot := start to |c.ids|
      invariant Read(d, dim, f, start, slot, slots, points) && |points| == |slots| <= limit
    {
      ReadNext(d, dim, f, start, slot, slots, points);
      var live := c.IsLive(slot);
      MatchingIs(d, f, slot);
      if live && f.Matches(c.payloads[slot]) {
        if |points| == limit {
          PageFull(d, dim, f, start, limit, slot, slots, points);
          return points, Some(points[limit - 1].id);
        }
        var p := c.ReadPoint(slot, dim);
        points := points + [p];
        slots := slots + [slot];
      }
    }
    AllRead(d, dim, f, start, limit, slots, points);
  }

  method Resume(c: CollectionData, after: Option<string>, ghost dim: nat) returns (start: nat)
    requires Valid(c.Model(), dim)
    ensures start == StartSlot(c.Model(), after) && start <= |c.ids|
  {
    if after.None? {
      return 0;
    }
    if after.value in c.idToSlot {
      return c.idToSlot[after.value] + 1;
    }
    start := |c.ids|;
    while start > 0 && c.ids[start - 1] != after.value
      invariant start <= |c.ids| && forall s :: start <= s < |c.ids| ==> c.ids[s] != after.value
    {
      start := start - 1;
    }
    PastLastIs(c.ids, after.value, start);
  }

  lemma PastLastIs(ids: seq<string>, id: string, n: nat)
    requires n <= |ids| && (n > 0 ==> ids[n - 1] == id) && forall s :: n <= s < |ids| ==> ids[s] != id
    ensures PastLast(ids, id) == n
  {
  }
}
