/** `calculateActiveHeading` (app/hooks/useActiveSection.ts): which table
    of contents entry is highlighted after a scroll. The page is seen
    through `locate`, the viewport top of the element with a given id, or
    nothing when no element has that id. */
module ActiveSection {
  import opened Options
  import opened Seqs

  datatype Located = Located(id: string, top: real)

  /** `document.getElementById(id)?.getBoundingClientRect().top`. */
  type Locator = string -> Option<real>

  /** The ids of located headings, in order. */
  function Ids(ps: seq<Located>): (r: seq<string>)
    ensures |r| == |ps| && forall k :: 0 <= k < |ps| ==> r[k] == ps[k].id
  {
    if ps == [] then [] else [ps[0].id] + Ids(ps[1..])
  }

  /** The ids that have an element, with their tops, in list order: every
      located id is kept, with its own top, once for each time it is
      listed, and nothing else is. */
  function Positions(ids: seq<string>, locate: Locator): (ps: seq<Located>)
    ensures |ps| <= |ids|
    ensures forall p :: p in ps ==> p.id in ids && locate(p.id) == Some(p.top)
    ensures forall id :: id in ids && locate(id).Some? ==> Located(id, locate(id).value) in ps
    ensures Subsequence(Ids(ps), ids)
    ensures Ids(ps) == Filter(ids, id => locate(id).Some?)
    ensures ps == [] <==> forall id :: id in ids ==> locate(id).None?
  {
    if ids == [] then []
    else
      var rest := Positions(ids[1..], locate);
      assert forall x :: x in ids <==> x == ids[0] || x in ids[1..] by {
        assert ids == [ids[0]] + ids[1..];
      }
      match locate(ids[0])
      case None => rest
      case Some(top) =>
        var ps := [Located(ids[0], top)] + rest;
        assert Ids(ps)[0] == ids[0] && Ids(ps)[1..] == Ids(rest);
        ps
  }

  /** The index of the last heading at or above the offset line. */
  predicate LastPassed(ps: seq<Located>, offset: real, j: int) {
    && 0 <= j < |ps|
    && ps[j].top <= offset
    && forall k :: j < k < |ps| ==> ps[k].top > offset
  }

  /** The `for` loop: the last heading whose top is at or above the offset,
      if any. */
  method CurrentHeading(ps: seq<Located>, offset: real) returns (current: Option<nat>)
    ensures current.Some? ==> LastPassed(ps, offset, current.value)
    ensures current.None? <==> forall k :: 0 <= k < |ps| ==> ps[k].top > offset
  {
    current := None;
    var i := 0;
    while i < |ps|
      invariant 0 <= i <= |ps|
      invariant current.Some? ==> current.value < i && ps[current.value].top <= offset
      invariant current.Some? ==> forall k :: current.value < k < i ==> ps[k].top > offset
      invariant current.None? ==> forall k :: 0 <= k < i ==> ps[k].top > offset
    {
      if ps[i].top <= offset {
        current := Some(i);
      }
      i := i + 1;
    }
  }

  /** The active id after one calculation, given the one before. Nothing
      changes without ids or without any element; otherwise the last
      heading past the offset line wins, else the first located heading if
      it is in the upper half of the viewport, else nothing changes. */
  method CalculateActiveHeading(ids: seq<string>, locate: Locator, topOffset: real,
                                innerHeight: real, active: Option<string>)
    returns (next: Option<string>)
    ensures var ps := Positions(ids, locate);
      && (ps == [] ==> next == active)
      && (forall j :: LastPassed(ps, topOffset, j) ==> next == Some(ps[j].id))
      && (ps != [] && (forall k :: 0 <= k < |ps| ==> ps[k].top > topOffset) ==>
            next == if ps[0].top < innerHeight * 0.5 then Some(ps[0].id) else active)
    ensures next != active ==> next.Some? && next.value in ids
  {
    if |ids| == 0 {
      return active;
    }
    var ps := Positions(ids, locate);
    if |ps| == 0 {
      return active;
    }
    var current := CurrentHeading(ps, topOffset);
    var chosen: Option<string> := None;
    if current.Some? {
      chosen := Some(ps[current.value].id);
      LastPassedUnique(ps, topOffset, current.value);
    } else if ps[0].top < innerHeight * 0.5 {
      chosen := Some(ps[0].id);
    }
    if chosen.Some? {
      assert ps[0] in ps;
      if current.Some? {
        assert ps[current.value] in ps;
      }
      next := chosen;
    } else {
      next := active;
    }
  }

  /** At most one index is the last one past the line. */
  lemma LastPassedUnique(ps: seq<Located>, offset: real, j: int)
    requires LastPassed(ps, offset, j)
    ensures forall j' :: LastPassed(ps, offset, j') ==> j' == j
  {
  }
}
