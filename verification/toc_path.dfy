/** `generateTocPath` (app/components/TableOfContents.tsx): the SVG path
    that traces the table of contents, one vertex per heading whose link
    was measured, stepping right for level-3 headings. The path is kept as
    its list of commands; printing the numbers is not modelled. */
module TocPath {
  import opened Options
  import opened TocHeadings

  /** The x of a level-2 heading's vertex, and of any other level's. */
  const XH2: real := 0.0
  const XH3: real := 14.0

  datatype Point = Point(x: real, y: real)

  /** `M x y` and `L x y`. */
  datatype Cmd = Move(x: real, y: real) | Line(x: real, y: real)

  function EndOf(c: Cmd): Point {
    Point(c.x, c.y)
  }

  function XOf(level: nat): (x: real)
    ensures level == 2 <==> x == 0.0
    ensures level != 2 <==> x == 14.0
  {
    if level == 2 then XH2 else XH3
  }

  /** The commands for reaching `p`: a move when it is the first vertex;
      else a vertical line at the same level; else, when indenting, down 30%
      of the way and then diagonally to `p`; else, when outdenting,
      diagonally to 70% of the way and then down to `p`. */
  function Segment(prev: Option<Point>, p: Point): (s: seq<Cmd>)
    ensures 1 <= |s| <= 2 && EndOf(s[|s| - 1]) == p
    ensures prev.None? <==> s[0].Move?
    ensures prev.None? ==> |s| == 1
    ensures prev.Some? ==> s[|s| - 1].Line? && s[0].Line?
    ensures prev.Some? ==> (|s| == 1 <==> prev.value.x == p.x)
    ensures prev.Some? && prev.value.x < p.x ==>
              s[0].x == prev.value.x && s[0].y == prev.value.y + (p.y - prev.value.y) * 0.3
    ensures prev.Some? && prev.value.x > p.x ==>
              s[0].x == p.x && s[0].y == prev.value.y + (p.y - prev.value.y) * 0.7
  {
    match prev
    case None => [Move(p.x, p.y)]
    case Some(q) =>
      if p.x == q.x then [Line(p.x, p.y)]
      else if p.x > q.x then [Line(q.x, q.y + (p.y - q.y) * 0.3), Line(p.x, p.y)]
      else [Line(p.x, q.y + (p.y - q.y) * 0.7), Line(p.x, p.y)]
  }

  /** The corner of a two-command segment lies between the two vertices'
      heights: the path never overshoots. */
  lemma CornerBetween(q: Point, p: Point)
    requires q.x != p.x
    ensures var c := Segment(Some(q), p)[0];
            (q.y <= p.y ==> q.y <= c.y <= p.y) && (p.y <= q.y ==> p.y <= c.y <= q.y)
  {
  }

  /** The `forEach` over the headings: `prev` is the last vertex written. A
      heading without a measured position is skipped and leaves `prev` as
      it is. */
  function Walk(headings: seq<TocHeading>, positions: map<string, real>, prev: Option<Point>): seq<Cmd> {
    if headings == [] then []
    else
      var h := headings[0];
      if h.slug !in positions then Walk(headings[1..], positions, prev)
      else
        var p := Point(XOf(h.level), positions[h.slug]);
        Segment(prev, p) + Walk(headings[1..], positions, Some(p))
  }

  function GenerateTocPath(headings: seq<TocHeading>, positions: map<string, real>): seq<Cmd> {
    if headings == [] then [] else Walk(headings, positions, None)
  }

  // ---------------------------------------------------------------------
  // The path through the measured vertices

  /** The vertices of the headings that have a position, in order. */
  function Vertices(headings: seq<TocHeading>, positions: map<string, real>): (vs: seq<Point>)
    ensures |vs| <= |headings|
    ensures vs == [] <==> forall h :: h in headings ==> h.slug !in positions
  {
    if headings == [] then []
    else
      var h := headings[0];
      assert forall g :: g in headings <==> g == h || g in headings[1..] by {
        assert headings == [h] + headings[1..];
      }
      (if h.slug in positions then [Point(XOf(h.level), positions[h.slug])] else [])
        + Vertices(headings[1..], positions)
  }

  /** The path through a list of vertices, continuing from `prev`. */
  function Through(prev: Option<Point>, vs: seq<Point>): (cs: seq<Cmd>)
    ensures vs == [] <==> cs == []
    ensures vs != [] ==> EndOf(cs[|cs| - 1]) == vs[|vs| - 1]
    ensures |vs| <= |cs| <= 2 * |vs|
    decreases |vs|
  {
    if vs == [] then []
    else
      var s := Segment(prev, vs[0]);
      var rest := Through(Some(vs[0]), vs[1..]);
      assert vs[1..] != [] ==> vs[1..][|vs[1..]| - 1] == vs[|vs| - 1];
      s + rest
  }

  /** Skipping a heading without a position is the same as leaving it out
      of the list: the path goes through the measured vertices only. */
  lemma {:induction false} WalkIsThrough(headings: seq<TocHeading>, positions: map<string, real>,
                                         prev: Option<Point>)
    ensures Walk(headings, positions, prev) == Through(prev, Vertices(headings, positions))
  {
    if headings != [] {
      var h := headings[0];
      var rest := Vertices(headings[1..], positions);
      if h.slug in positions {
        var p := Point(XOf(h.level), positions[h.slug]);
        WalkIsThrough(headings[1..], positions, Some(p));
        assert Vertices(headings, positions) == [p] + rest;
        assert ([p] + rest)[0] == p && ([p] + rest)[1..] == rest;
      } else {
        WalkIsThrough(headings[1..], positions, prev);
        assert Vertices(headings, positions) == rest;
      }
    }
  }

  /** After the first command, every command of a continued path is a
      line. */
  lemma {:induction false} ThroughLines(prev: Option<Point>, vs: seq<Point>)
    ensures forall i :: 0 <= i < |Through(prev, vs)| ==> (Through(prev, vs)[i].Move? <==> i == 0 && prev.None?)
    decreases |vs|
  {
    if vs != [] {
      var s := Segment(prev, vs[0]);
      var rest := Through(Some(vs[0]), vs[1..]);
      ThroughLines(Some(vs[0]), vs[1..]);
      var cs := s + rest;
      assert Through(prev, vs) == cs;
      forall i | 0 <= i < |cs| ensures cs[i].Move? <==> i == 0 && prev.None? {
        if i >= |s| {
          assert cs[i] == rest[i - |s|];
        } else if i == 0 {
          assert cs[0] == s[0];
        } else {
          assert cs[i] == s[|s| - 1];
        }
      }
    }
  }

  /** The path is empty exactly when there are no headings or none has a
      position; otherwise it starts with the one move command, to the
      first measured vertex, every later command is a line, and it ends at
      the last measured vertex. */
  lemma GenerateTocPathSpec(headings: seq<TocHeading>, positions: map<string, real>)
    ensures var cs := GenerateTocPath(headings, positions);
            var vs := Vertices(headings, positions);
      && (cs == [] <==> forall h :: h in headings ==> h.slug !in positions)
      && (cs != [] ==> cs[0] == Move(vs[0].x, vs[0].y) && EndOf(cs[|cs| - 1]) == vs[|vs| - 1])
      && (forall i :: 0 <= i < |cs| ==> (cs[i].Move? <==> i == 0))
  {
    var cs := GenerateTocPath(headings, positions);
    var vs := Vertices(headings, positions);
    if headings != [] {
      WalkIsThrough(headings, positions, None);
      ThroughLines(None, vs);
      assert cs == Through(None, vs);
      if vs != [] {
        assert cs[0] == Segment(None, vs[0])[0];
      }
    }
  }
}
