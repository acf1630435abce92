/**
 * The pure rules behind the component's interaction: which corner handle the
 * pointer hovers (nearest corner, yielding to other views on the same
 * display), the Tab cycle through Mathf.Repeat, the arrow-key nudge, and the
 * aspect-ratio lookup that sizes the editing grid.
 *
 * Pointer positions arrive already converted to viewport space; input state
 * arrives as plain values.
 */
module Interaction {
  import opened Vectors

  // ---------------------------------------------------------------------
  // Corners

  /**
   * GetCorner on a corner array: corner `index` moved from clip space to
   * viewport space, and (0,0) for an index outside 0..3.
   */
  function CornerInViewport(corners: seq<Vec2>, index: int): (p: Vec2)
    requires |corners| == 4
    ensures index < 0 || index > 3 ==> p == Zero
    ensures 0 <= index <= 3 ==> ToClip(p) == corners[index]
  {
    if index < 0 || index > 3 then Zero else ToViewport(corners[index])
  }

  /** Rect(0,0,1,1).Contains: the lower and left edges are inside, the upper and right are not. */
  predicate InUnitRect(p: Vec2)
  {
    0.0 <= p.x < 1.0 && 0.0 <= p.y < 1.0
  }

  // ---------------------------------------------------------------------
  // Hit test

  /** The running (cornerIndex, minDist) pair of the hit test. */
  datatype Candidate = Candidate(index: int, dist: real)

  /** The starting value of the running minimum. */
  const FarAway: real := 999999.0

  /**
   * The local scan over corners 0..|cs|-1: a corner replaces the candidate
   * only when it is strictly closer.
   */
  function Nearest(cs: seq<Vec2>, hit: Vec2): (r: Candidate)
    ensures -1 <= r.index < |cs|
    decreases |cs|
  {
    if |cs| == 0 then Candidate(-1, FarAway)
    else
      var prev := Nearest(cs[..|cs| - 1], hit);
      var d := SqrDistance(cs[|cs| - 1], hit);
      if d < prev.dist then Candidate(|cs| - 1, d) else prev
  }

  /**
   * The scan finds the first corner of strictly smallest distance below
   * 999999, and reports -1 exactly when no corner is that near.
   */
  lemma {:induction false} NearestIsFirstMinimum(cs: seq<Vec2>, hit: Vec2)
    ensures var r := Nearest(cs, hit);
      && (r.index == -1 <==> forall c :: 0 <= c < |cs| ==> SqrDistance(cs[c], hit) >= FarAway)
      && (r.index == -1 ==> r.dist == FarAway)
      && (r.index >= 0 ==> r.dist == SqrDistance(cs[r.index], hit) < FarAway)
      && (forall c :: 0 <= c < |cs| ==> r.dist <= SqrDistance(cs[c], hit))
      && (forall c :: 0 <= c < |cs| && c < r.index ==> r.dist < SqrDistance(cs[c], hit))
    decreases |cs|
  {
    if |cs| > 0 {
      var front := cs[..|cs| - 1];
      NearestIsFirstMinimum(front, hit);
      assert forall c :: 0 <= c < |front| ==> front[c] == cs[c];
    }
  }

  /** Another view rendering to the same display: its corners (clip space) and the pointer in its viewport. */
  datatype Sibling = Sibling(corners: seq<Vec2>, pointer: Vec2)

  /** Every sibling is itself a component with four corners. */
  predicate SiblingsValid(siblings: seq<Sibling>)
  {
    forall k :: 0 <= k < |siblings| ==> |siblings[k].corners| == 4
  }

  /**
   * The sibling takes the pointer: the pointer lies in its viewport and one
   * of its corners, in viewport space, is strictly nearer than minDist.
   */
  predicate Blocks(s: Sibling, minDist: real)
    requires |s.corners| == 4
  {
    InUnitRect(s.pointer)
    && exists c :: 0 <= c < 4 && SqrDistance(CornerInViewport(s.corners, c), s.pointer) < minDist
  }

  /**
   * The corner the pointer hovers: the local candidate, computed in clip
   * space, unless some sibling blocks with its distance computed in its own
   * viewport space.
   */
  function HitTestSpec(corners: seq<Vec2>, pointer: Vec2, siblings: seq<Sibling>): int
    requires SiblingsValid(siblings)
  {
    var local := Nearest(corners, ToClip(pointer));
    if exists k :: 0 <= k < |siblings| && Blocks(siblings[k], local.dist) then -1 else local.index
  }

  /** The hovered index is -1 or a corner, and -1 exactly when no corner is near enough or a sibling blocks. */
  lemma HitTestOutcome(corners: seq<Vec2>, pointer: Vec2, siblings: seq<Sibling>)
    requires SiblingsValid(siblings)
    ensures var r := HitTestSpec(corners, pointer, siblings);
      var local := Nearest(corners, ToClip(pointer));
      && -1 <= r < |corners|
      && (r == -1 <==> local.index == -1 || exists k :: 0 <= k < |siblings| && Blocks(siblings[k], local.dist))
      && (r != -1 ==> r == local.index)
  {
  }

  /**
   * The scales are mixed: a sibling with exactly this view's corners, seeing
   * the pointer at the same viewport position, measures a quarter of the
   * local distance, so it takes the pointer whenever the pointer is inside
   * the viewport and not exactly on a corner.
   */
  lemma IdenticalSiblingBlocks(corners: seq<Vec2>, pointer: Vec2)
    requires |corners| == 4 && InUnitRect(pointer)
    requires Nearest(corners, ToClip(pointer)).dist > 0.0
    ensures HitTestSpec(corners, pointer, [Sibling(corners, pointer)]) == -1
  {
    var hit := ToClip(pointer);
    var local := Nearest(corners, hit);
    NearestIsFirstMinimum(corners, hit);
    if local.index >= 0 {
      var c := local.index;
      var v := CornerInViewport(corners, c);
      ClipDistanceIsFourTimesViewport(v, pointer);
      assert SqrDistance(corners[c], hit) == 4.0 * SqrDistance(v, pointer);
      var siblings := [Sibling(corners, pointer)];
      assert Blocks(siblings[0], local.dist);
    }
  }

  // ---------------------------------------------------------------------
  // Tab cycle

  /** Mathf.Repeat: t wrapped into [0, length], by floor division then clamping. */
  function Repeat(t: real, length: real): (r: real)
    requires length > 0.0
    ensures 0.0 <= r <= length
  {
    var v := t - (t / length).Floor as real * length;
    if v < 0.0 then 0.0 else if v > length then length else v
  }

  /** The C# cast (int) on a float: truncation toward zero. */
  function TruncateToInt(r: real): int
  {
    if r >= 0.0 then r.Floor else -((-r).Floor)
  }

  /** (int) Mathf.Repeat(t, 4) on a whole number is the mathematical remainder modulo 4. */
  lemma RepeatFourIsMod(t: int)
    ensures TruncateToInt(Repeat(t as real, 4.0)) == t % 4
  {
    var q, s := t / 4, t % 4;
    assert t == 4 * q + s && 0 <= s < 4;
    assert (t as real) / 4.0 == q as real + s as real / 4.0;
    assert ((t as real) / 4.0).Floor == q;
    assert (t as real) - q as real * 4.0 == s as real;
  }

  /**
   * The Tab rule: with a selection, step forward (back with shift) modulo 4;
   * without one, take the hovered corner when there is one.
   */
  function TabSelection(selected: int, hovered: int, shift: bool): int
  {
    if selected != -1 then TruncateToInt(Repeat((selected + if shift then -1 else 1) as real, 4.0))
    else if hovered != -1 then hovered
    else selected
  }

  lemma TabSelectionCycles(selected: int, hovered: int, shift: bool)
    ensures var r := TabSelection(selected, hovered, shift);
      && (selected != -1 ==> r == (selected + if shift then -1 else 1) % 4 && 0 <= r <= 3)
      && (selected == -1 ==> r == hovered)
  {
    if selected != -1 {
      RepeatFourIsMod(selected + if shift then -1 else 1);
    }
  }

  // ---------------------------------------------------------------------
  // Arrow-key nudge

  /**
   * The per-second nudge: (horizontal, vertical * aspect) * 0.1, times 10
   * with shift, else times 0.2 with control.
   */
  function NudgeVelocity(horizontal: real, vertical: real, aspect: real, shift: bool, control: bool): Vec2
  {
    var delta := Scale(Vec2(horizontal, vertical * aspect), 0.1);
    if shift then Scale(delta, 10.0) else if control then Scale(delta, 0.2) else delta
  }

  /** Shift moves a full unit per second on each axis, control a fiftieth, plain arrows a tenth. */
  lemma NudgeVelocityScale(horizontal: real, vertical: real, aspect: real, shift: bool, control: bool)
    ensures var factor := if shift then 1.0 else if control then 0.02 else 0.1;
      NudgeVelocity(horizontal, vertical, aspect, shift, control) == Vec2(horizontal * factor, vertical * aspect * factor)
  {
  }

  /** The input of one interaction step, already read from Unity's Input and Time. */
  datatype InputStep = InputStep(
    pointer: Vec2,          // the mouse in this camera's viewport space
    mouseDown: bool,        // GetMouseButtonDown(0)
    mouseHeld: bool,        // GetMouseButton(0)
    arrowHeld: bool,        // any of the four arrow keys held
    horizontal: real,       // GetAxisRaw("Horizontal")
    vertical: real,         // GetAxisRaw("Vertical")
    shift: bool,            // left or right shift held
    control: bool,          // left or right control held
    aspect: real,           // the camera's aspect ratio
    deltaTime: real)

  /**
   * Where the selected corner goes in one step: onto the pointer while the
   * mouse is held, otherwise by the nudge velocity over the frame time.
   */
  function DragOrNudge(corner: Vec2, input: InputStep): (moved: Vec2)
    ensures input.mouseHeld ==> ToViewport(moved) == input.pointer
    ensures !input.mouseHeld ==>
      Sub(moved, corner) == Scale(NudgeVelocity(input.horizontal, input.vertical, input.aspect, input.shift, input.control), input.deltaTime)
  {
    ViewportClipRoundTrip(input.pointer);
    if input.mouseHeld then ToClip(input.pointer)
    else Add(corner, Scale(NudgeVelocity(input.horizontal, input.vertical, input.aspect, input.shift, input.control), input.deltaTime))
  }

  // ---------------------------------------------------------------------
  // Grid tiles from the aspect ratio

  /** The open window (b - 0.002, b + 0.002). */
  predicate Almost(a: real, b: real)
  {
    a > b - 0.002 && a < b + 0.002
  }

  /** The answer of GetAspectComponents: whether a ratio matched, and its tile counts (0, 0 otherwise). */
  datatype AspectComponents = AspectComponents(found: bool, x: int, y: int)

  /** One known aspect ratio and its grid. */
  datatype AspectEntry = AspectEntry(ratio: real, x: int, y: int)

  /** The ratios GetAspectComponents tries, in its order. */
  const AspectTable: seq<AspectEntry> := [
    AspectEntry(1.0, 10, 10),
    AspectEntry(16.0 / 9.0, 16, 9), AspectEntry(9.0 / 16.0, 9, 16),
    AspectEntry(16.0 / 10.0, 16, 10), AspectEntry(10.0 / 16.0, 10, 16),
    AspectEntry(4.0 / 3.0, 8, 6), AspectEntry(3.0 / 4.0, 6, 8),
    AspectEntry(5.0 / 4.0, 10, 8), AspectEntry(4.0 / 5.0, 8, 10),
    AspectEntry(3.0 / 2.0, 12, 8), AspectEntry(2.0 / 3.0, 8, 12),
    AspectEntry(2.0, 10, 5), AspectEntry(0.5, 5, 10)]

  /** The first-match chain of GetAspectComponents. */
  function GetAspectComponents(aspect: real): AspectComponents
  {
    if Almost(aspect, 1.0) then AspectComponents(true, 10, 10)
    else if Almost(aspect, 16.0 / 9.0) then AspectComponents(true, 16, 9)
    else if Almost(aspect, 9.0 / 16.0) then AspectComponents(true, 9, 16)
    else if Almost(aspect, 16.0 / 10.0) then AspectComponents(true, 16, 10)
    else if Almost(aspect, 10.0 / 16.0) then AspectComponents(true, 10, 16)
    else if Almost(aspect, 4.0 / 3.0) then AspectComponents(true, 8, 6)
    else if Almost(aspect, 3.0 / 4.0) then AspectComponents(true, 6, 8)
    else if Almost(aspect, 5.0 / 4.0) then AspectComponents(true, 10, 8)
    else if Almost(aspect, 4.0 / 5.0) then AspectComponents(true, 8, 10)
    else if Almost(aspect, 3.0 / 2.0) then AspectComponents(true, 12, 8)
    else if Almost(aspect, 2.0 / 3.0) then AspectComponents(true, 8, 12)
    else if Almost(aspect, 2.0 / 1.0) then AspectComponents(true, 10, 5)
    else if Almost(aspect, 1.0 / 2.0) then AspectComponents(true, 5, 10)
    else AspectComponents(false, 0, 0)
  }

  /** The table entry, if any, whose window holds the aspect, searching from entry k. */
  function FirstMatch(aspect: real, k: nat): (r: int)
    requires k <= |AspectTable|
    ensures k <= r < |AspectTable| || r == -1
    decreases |AspectTable| - k
  {
    if k == |AspectTable| then -1
    else if Almost(aspect, AspectTable[k].ratio) then k
    else FirstMatch(aspect, k + 1)
  }

  /** Windows of different entries never overlap: the ratios are more than 0.004 apart. */
  lemma AspectWindowsDisjoint(aspect: real, k: nat, l: nat)
    requires k < |AspectTable| && l < |AspectTable|
    requires Almost(aspect, AspectTable[k].ratio) && Almost(aspect, AspectTable[l].ratio)
    ensures k == l
  {
    var a, b := AspectTable[k].ratio, AspectTable[l].ratio;
    assert b - 0.004 < a < b + 0.004;
  }

  lemma {:induction false} FirstMatchFinds(aspect: real, k: nat)
    requires k <= |AspectTable|
    ensures var r := FirstMatch(aspect, k);
      && (r == -1 <==> forall l :: k <= l < |AspectTable| ==> !Almost(aspect, AspectTable[l].ratio))
      && (r != -1 ==> Almost(aspect, AspectTable[r].ratio))
    decreases |AspectTable| - k
  {
    if k < |AspectTable| {
      FirstMatchFinds(aspect, k + 1);
    }
  }

  /**
   * GetAspectComponents answers with the table entry whose window holds the
   * aspect, which is unique, and with (false, 0, 0) when none does.
   */
  lemma AspectComponentsFromTable(aspect: real)
    ensures var r := GetAspectComponents(aspect);
      var k := FirstMatch(aspect, 0);
      && (r.found <==> k != -1)
      && (k != -1 ==> r.x == AspectTable[k].x && r.y == AspectTable[k].y)
      && (k == -1 ==> r.x == 0 && r.y == 0)
      && (forall l :: 0 <= l < |AspectTable| && Almost(aspect, AspectTable[l].ratio) ==> l == k)
  {
    FirstMatchFinds(aspect, 0);
    var k := FirstMatch(aspect, 0);
    forall l | 0 <= l < |AspectTable| && Almost(aspect, AspectTable[l].ratio) ensures l == k {
      AspectWindowsDisjoint(aspect, k, l);
    }
  }

  /** The tile counts OnRenderImage uses: the matched grid, else 10 x 10. */
  function GridTiles(aspect: real): (tiles: (int, int))
    ensures var k := FirstMatch(aspect, 0);
      tiles == if k == -1 then (10, 10) else (AspectTable[k].x, AspectTable[k].y)
  {
    AspectComponentsFromTable(aspect);
    var r := GetAspectComponents(aspect);
    if r.found then (r.x, r.y) else (10, 10)
  }
}
