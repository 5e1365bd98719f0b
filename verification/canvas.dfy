/** The deterministic "bloom" layout of the community wall
    (app/components/InfiniteCanvas.tsx): a seeded pseudo-random value per
    string, padded bounding boxes and their overlap test, a bounded retry loop
    that places one card on a radial layer, and the layout pass that centres
    the last message and places every other one against the cards placed
    before it.

    Trigonometry is not modelled: the conversion from a polar position to
    Cartesian coordinates is the parameter `polar`, which takes the angle as a
    fraction of a full turn (the source multiplies it by 2π before calling
    `Math.cos`/`Math.sin`) and the radius. `Math.round` is modelled exactly. */
module Canvas {
  import opened JsText
  import opened StringHash
  import opened Options

  const CardWidth: real := 250.0
  const CardHeight: real := 300.0
  /** Extra room around each card, added to its box's width and height. */
  const CardPadding: real := 80.0

  const MaxAttempts: nat := 100
  const BaseRadius: real := 250.0
  const CardsPerLayer: nat := 8
  const LayerSpacing: real := 380.0
  /** The range of the seeded radius variation added to the base radius. */
  const RadiusJitter: real := 200.0

  /** A community-wall message row. */
  datatype Message = Message(
    id: string,
    message: string,
    patternIndex: int,
    rotation: real,
    creatorName: string,
    creatorAvatarUrl: string)

  /** A placed card's centre. Every placed position is either the origin or
      the result of `Math.round`, so the coordinates are whole numbers. */
  datatype Position = Position(x: int, y: int)

  datatype BoundingBox = BoundingBox(x: real, y: real, width: real, height: real)

  /** A message together with the position the layout gave it. */
  datatype PlacedMessage = PlacedMessage(message: Message, position: Position)

  /** `(cos(2πt)·r, sin(2πt)·r)` for turn fraction `t` and radius `r`. */
  type Polar = (real, real) -> (real, real)

  // ---------------------------------------------------------------------
  // seededRandom

  /** `Math.abs(hash % 10000)`, with JavaScript's truncating `%`. */
  function SeedBucket(seed: string): (k: nat)
    ensures k < 10000
    ensures k == Abs(HashOf(seed)) % 10000
  {
    AbsJsRem(HashOf(seed), 10000);
    Abs(JsRem(HashOf(seed), 10000))
  }

  /** `seededRandom(seed)`: a value `k/10000` for a whole `k` in [0, 9999], so
      in [0, 1); equal seeds give equal values, and the empty seed gives 0. */
  function SeededRandom(seed: string): (r: real)
    ensures 0.0 <= r < 1.0
    ensures r * 10000.0 == SeedBucket(seed) as real
    ensures seed == [] ==> r == 0.0
  {
    (SeedBucket(seed) as real) / 10000.0
  }

  /** `Math.round(x)`: the nearest whole number, halves rounding up. */
  function JsRound(x: real): (n: int)
    ensures x - 0.5 < n as real <= x + 0.5
  {
    (x + 0.5).Floor
  }

  // ---------------------------------------------------------------------
  // Bounding boxes

  /** `checkCollision`: the boxes overlap unless one lies strictly to one side
      of the other, so boxes whose edges merely touch do collide. */
  predicate CheckCollision(a: BoundingBox, b: BoundingBox) {
    !(a.x + a.width < b.x || b.x + b.width < a.x
      || a.y + a.height < b.y || b.y + b.height < a.y)
  }

  lemma CheckCollisionSymmetric(a: BoundingBox, b: BoundingBox)
    ensures CheckCollision(a, b) <==> CheckCollision(b, a)
  {
  }

  /** Two boxes that share only an edge count as colliding. */
  lemma TouchingBoxesCollide(a: BoundingBox, b: BoundingBox)
    requires a.width >= 0.0 && a.height >= 0.0 && b.width >= 0.0 && b.height >= 0.0
    requires a.x + a.width == b.x && a.y == b.y
    ensures CheckCollision(a, b)
  {
  }

  /** The padded box the source builds around a card centred at `(cx, cy)`,
      for candidate and placed cards alike. */
  function BoxAround(cx: real, cy: real): BoundingBox {
    BoundingBox(cx - CardWidth / 2.0, cy - CardHeight / 2.0,
                CardWidth + CardPadding, CardHeight + CardPadding)
  }

  /** Because both boxes are built the same way, two cards collide exactly
      when their centres are within 330 horizontally and 380 vertically. */
  lemma BoxesCollideIffCentresClose(x1: real, y1: real, x2: real, y2: real)
    ensures CheckCollision(BoxAround(x1, y1), BoxAround(x2, y2))
      <==> (-330.0 <= x1 - x2 <= 330.0 && -380.0 <= y1 - y2 <= 380.0)
  {
  }

  function PlacedBox(p: Position): BoundingBox {
    BoxAround(p.x as real, p.y as real)
  }

  /** The inner loop over `existingPositions`, stopping at the first hit. */
  function HasCollision(box: BoundingBox, existing: seq<Position>): (hit: bool)
    ensures hit <==> exists j :: 0 <= j < |existing| && CheckCollision(box, PlacedBox(existing[j]))
  {
    if existing == [] then false
    else if CheckCollision(box, PlacedBox(existing[0])) then true
    else HasCollision(box, existing[1..])
  }

  // ---------------------------------------------------------------------
  // generatePosition

  /** `Math.floor(currentIndex / cardsPerLayer) * layerSpacing`. */
  function LayerRadius(index: nat): (r: real)
    ensures r == ((index / CardsPerLayer) as real) * LayerSpacing
  {
    ((index / CardsPerLayer) as real) * LayerSpacing
  }

  function AngleSeed(id: string, attempt: nat): string {
    id + "_angle_" + NatToString(attempt)
  }

  function RadiusSeed(id: string, attempt: nat): string {
    id + "_radius_" + NatToString(attempt)
  }

  /** The radius tried at an attempt: the base radius, a seeded variation
      below the jitter range, and the layer's offset. */
  function CandidateRadius(id: string, index: nat, attempt: nat): (r: real)
    ensures BaseRadius + LayerRadius(index) <= r < BaseRadius + RadiusJitter + LayerRadius(index)
  {
    BaseRadius + SeededRandom(RadiusSeed(id, attempt)) * RadiusJitter + LayerRadius(index)
  }

  /** The unrounded centre tried at an attempt. */
  function Candidate(id: string, index: nat, attempt: nat, polar: Polar): (real, real) {
    polar(SeededRandom(AngleSeed(id, attempt)), CandidateRadius(id, index, attempt))
  }

  /** An attempt succeeds when the padded box around its unrounded centre
      collides with no placed card. */
  predicate AttemptIsFree(id: string, index: nat, existing: seq<Position>, polar: Polar, attempt: nat) {
    var c := Candidate(id, index, attempt, polar);
    !HasCollision(BoxAround(c.0, c.1), existing)
  }

  /** The retry loop from `attempt` on: the first attempt below the cap that
      succeeds, or None when every remaining attempt collides. */
  function FirstFreeAttempt(id: string, index: nat, existing: seq<Position>, polar: Polar, attempt: nat)
    : (r: Option<nat>)
    ensures r.Some? ==> (
      && attempt <= r.value < MaxAttempts
      && AttemptIsFree(id, index, existing, polar, r.value)
      && forall a :: attempt <= a < r.value ==> !AttemptIsFree(id, index, existing, polar, a))
    ensures r.None? ==> forall a :: attempt <= a < MaxAttempts ==> !AttemptIsFree(id, index, existing, polar, a)
    decreases MaxAttempts - attempt
  {
    if attempt >= MaxAttempts then None
    else if AttemptIsFree(id, index, existing, polar, attempt) then Some(attempt)
    else FirstFreeAttempt(id, index, existing, polar, attempt + 1)
  }

  /** The radius of the unconditional fallback: one full layer further out. */
  function FallbackRadius(index: nat): real {
    BaseRadius + LayerRadius(index) + LayerSpacing
  }

  function RoundedPosition(c: (real, real)): Position {
    Position(JsRound(c.0), JsRound(c.1))
  }

  /** Two placed cards whose boxes at most touch: their centres are at least
      330 apart horizontally or at least 380 apart vertically. */
  predicate Separated(p: Position, q: Position) {
    p.x - q.x >= 330 || q.x - p.x >= 330 || p.y - q.y >= 380 || q.y - p.y >= 380
  }

  /** `generatePosition(messageId, totalMessages, currentIndex, existingPositions)`.
      The source's `totalMessages` argument is never read, so it is not a
      parameter here. */
  function GeneratePosition(id: string, index: nat, existing: seq<Position>, polar: Polar): Position {
    match FirstFreeAttempt(id, index, existing, polar, 0)
    case Some(a) => RoundedPosition(Candidate(id, index, a, polar))
    case None => RoundedPosition(polar(SeededRandom(id + "_fallback"), FallbackRadius(index)))
  }

  /** What `generatePosition` returns: the rounded centre of the earliest of
      the 100 attempts whose box is free, and after rounding that card at
      most touches every placed card; when
      every attempt collides, the rounded centre of the fallback at radius
      250 + layer offset + 380, with no collision check. */
  lemma GeneratePositionSpec(id: string, index: nat, existing: seq<Position>, polar: Polar)
    ensures var p := GeneratePosition(id, index, existing, polar);
      var r := FirstFreeAttempt(id, index, existing, polar, 0);
      && (r.Some? ==>
            && p == RoundedPosition(Candidate(id, index, r.value, polar))
            && (forall a :: 0 <= a < r.value ==> !AttemptIsFree(id, index, existing, polar, a))
            && (forall j :: 0 <= j < |existing| ==> Separated(p, existing[j])))
      && (r.None? ==>
            && (forall a :: 0 <= a < MaxAttempts ==> !AttemptIsFree(id, index, existing, polar, a))
            && p == RoundedPosition(polar(SeededRandom(id + "_fallback"), FallbackRadius(index))))
  {
    var r := FirstFreeAttempt(id, index, existing, polar, 0);
    if r.Some? {
      RoundingKeepsSeparation(Candidate(id, index, r.value, polar), existing);
    }
  }

  /** Once rounded, a free unrounded centre at most touches every placed
      card: placed cards sit on whole coordinates, and rounding moves the
      centre by at most one half. */
  lemma RoundingKeepsSeparation(c: (real, real), existing: seq<Position>)
    requires !HasCollision(BoxAround(c.0, c.1), existing)
    ensures forall j :: 0 <= j < |existing| ==> Separated(RoundedPosition(c), existing[j])
  {
    forall j | 0 <= j < |existing|
      ensures Separated(RoundedPosition(c), existing[j])
    {
      var q := existing[j];
      assert !CheckCollision(BoxAround(c.0, c.1), PlacedBox(q));
      BoxesCollideIffCentresClose(c.0, c.1, q.x as real, q.y as real);
    }
  }

  /** Touching is as close as rounding can bring a free card, and
      `checkCollision` counts touching as a collision: the centre
      (330.4, 0) is free next to a card at the origin, but rounded to
      (330, 0) its box collides with that card's. */
  lemma RoundingMayTouch()
    ensures !HasCollision(BoxAround(330.4, 0.0), [Position(0, 0)])
    ensures RoundedPosition((330.4, 0.0)) == Position(330, 0)
    ensures Separated(Position(330, 0), Position(0, 0))
    ensures CheckCollision(PlacedBox(Position(330, 0)), PlacedBox(Position(0, 0)))
  {
    BoxesCollideIffCentresClose(330.4, 0.0, 0.0, 0.0);
    BoxesCollideIffCentresClose(330.0, 0.0, 0.0, 0.0);
    assert PlacedBox(Position(0, 0)) == BoxAround(0.0, 0.0);
    assert PlacedBox(Position(330, 0)) == BoxAround(330.0, 0.0);
  }

  // ---------------------------------------------------------------------
  // The layout pass (`messagePositions`)

  function Positions(placed: seq<PlacedMessage>): (ps: seq<Position>)
    ensures |ps| == |placed|
    ensures forall j :: 0 <= j < |placed| ==> ps[j] == placed[j].position
  {
    if placed == [] then [] else [placed[0].position] + Positions(placed[1..])
  }

  /** How the pass places one non-centred card: from its id, its index and
      the positions placed so far. */
  type Placer = (string, nat, seq<Position>) -> Position

  /** The position the pass gives message `i` when `positions` holds the
      positions of messages `0..i-1`: the origin for the last message, the
      placer's choice for every other one. */
  function PositionFor(messages: seq<Message>, i: nat, positions: seq<Position>, place: Placer): Position
    requires i < |messages|
  {
    if i == |messages| - 1 then Position(0, 0)
    else place(messages[i].id, i, positions)
  }

  /** The `messages.map` callback from index `i` on, with `positions` the
      accumulator after messages `0..i-1`: one output per remaining message,
      in order, carrying the message unchanged. */
  function LayoutFrom(messages: seq<Message>, i: nat, positions: seq<Position>, place: Placer)
    : (out: seq<PlacedMessage>)
    requires i <= |messages|
    ensures |out| == |messages| - i
    ensures forall k :: 0 <= k < |out| ==> out[k].message == messages[i + k]
    decreases |messages| - i
  {
    if i == |messages| then []
    else
      var p := PositionFor(messages, i, positions, place);
      [PlacedMessage(messages[i], p)] + LayoutFrom(messages, i + 1, positions + [p], place)
  }

  /** The placer the community wall uses: `generatePosition`. */
  function Generator(polar: Polar): Placer {
    (id: string, i: nat, ps: seq<Position>) => GeneratePosition(id, i, ps, polar)
  }

  /** `messagePositions`: every message annotated with its position. */
  function Layout(messages: seq<Message>, polar: Polar): (out: seq<PlacedMessage>)
    ensures |out| == |messages|
    ensures forall i :: 0 <= i < |out| ==> out[i].message == messages[i]
  {
    LayoutFrom(messages, 0, [], Generator(polar))
  }

  /** One step of the pass: the first output, then the pass from `i + 1`
      with the first position appended to the accumulator. */
  lemma LayoutFromUnfold(messages: seq<Message>, i: nat, positions: seq<Position>, place: Placer)
    requires i < |messages|
    ensures var p := PositionFor(messages, i, positions, place);
      var rest := LayoutFrom(messages, i + 1, positions + [p], place);
      var out := LayoutFrom(messages, i, positions, place);
      && out[0].position == p
      && out[1..] == rest
      && Positions(out) == [p] + Positions(rest)
  {
    var p := PositionFor(messages, i, positions, place);
    var out := LayoutFrom(messages, i, positions, place);
    assert out[1..] == LayoutFrom(messages, i + 1, positions + [p], place);
  }

  lemma PrefixShift(positions: seq<Position>, p: Position, ps: seq<Position>, k: nat)
    requires 1 <= k <= |ps| + 1
    ensures positions + ([p] + ps)[..k] == (positions + [p]) + ps[..k - 1]
  {
    assert ([p] + ps)[..k] == [p] + ps[..k - 1];
  }

  /** The pass from index `i` places message `i + k` against exactly the
      accumulator it started with plus the positions it has produced so far. */
  lemma {:induction false} LayoutFromPositions(messages: seq<Message>, i: nat, positions: seq<Position>, place: Placer, k: nat)
    requires i + k < |messages|
    ensures var out := LayoutFrom(messages, i, positions, place);
      out[k].position == PositionFor(messages, i + k, positions + Positions(out)[..k], place)
    decreases k
  {
    var p := PositionFor(messages, i, positions, place);
    var rest := LayoutFrom(messages, i + 1, positions + [p], place);
    LayoutFromUnfold(messages, i, positions, place);
    if k == 0 {
      assert positions + Positions(LayoutFrom(messages, i, positions, place))[..0] == positions;
    } else {
      LayoutFromPositions(messages, i + 1, positions + [p], place, k - 1);
      PrefixShift(positions, p, Positions(rest), k);
    }
  }

  /** The layout pass: the last message is at the origin, and every other
      message `i` is placed by `generatePosition` against exactly the
      positions of messages `0..i-1`, so the centred card is never among the
      positions a card is checked against. */
  lemma LayoutPlacement(messages: seq<Message>, polar: Polar, i: nat)
    requires i < |messages|
    ensures var out := Layout(messages, polar);
      && (i == |messages| - 1 ==> out[i].position == Position(0, 0))
      && (i < |messages| - 1 ==>
            out[i].position == GeneratePosition(messages[i].id, i, Positions(out)[..i], polar))
  {
    LayoutFromPositions(messages, 0, [], Generator(polar), i);
    assert [] + Positions(Layout(messages, polar))[..i] == Positions(Layout(messages, polar))[..i];
  }

  /** Every card the retry loop placed (rather than the fallback) at most
      touches every card placed before it. */
  lemma LayoutSeparation(messages: seq<Message>, polar: Polar, i: nat, j: nat)
    requires j < i < |messages| - 1
    ensures FirstFreeAttempt(messages[i].id, i, Positions(Layout(messages, polar))[..i], polar, 0).Some? ==>
              Separated(Layout(messages, polar)[i].position, Layout(messages, polar)[j].position)
  {
    LayoutPlacement(messages, polar, i);
    var out := Layout(messages, polar);
    GeneratePositionSpec(messages[i].id, i, Positions(out)[..i], polar);
    assert Positions(out)[..i][j] == out[j].position;
  }

  /** Layers: every attempt for a card at index `8m + r` (r < 8) tries a
      radius in [250 + 380m, 450 + 380m), and its fallback lies at
      630 + 380m; so the ninth card (index 8) never tries a radius below 630,
      beyond every radius tried in layer 0. */
  lemma LayerBands(id: string, index: nat, attempt: nat)
    ensures 250.0 + 380.0 * ((index / 8) as real) <= CandidateRadius(id, index, attempt)
    ensures CandidateRadius(id, index, attempt) < 450.0 + 380.0 * ((index / 8) as real)
    ensures FallbackRadius(index) == 630.0 + 380.0 * ((index / 8) as real)
    ensures index / 8 >= 1 ==> CandidateRadius(id, index, attempt) >= 630.0
  {
  }

  /** Seeds for consecutive attempts that differ only in their last attempt
      digit hash differently (the decorrelation the attempt suffix exists for;
      for instance "abc_angle_0" and "abc_angle_1"). */
  lemma AttemptSuffixSeparates(prefix: string, d1: nat, d2: nat)
    requires d1 < 10 && d2 < 10 && d1 != d2
    ensures HashOf(prefix + [DigitChar(d1)]) != HashOf(prefix + [DigitChar(d2)])
  {
    Utf16Append(prefix, [DigitChar(d1)]);
    Utf16Append(prefix, [DigitChar(d2)]);
    assert [DigitChar(d1)][..0] == [];
    assert [DigitChar(d2)][..0] == [];
    assert Utf16([DigitChar(d1)]) == [DigitChar(d1) as int];
    assert Utf16([DigitChar(d2)]) == [DigitChar(d2) as int];
    LastUnitSeparates(Utf16(prefix), DigitChar(d1) as int, DigitChar(d2) as int);
  }
}
