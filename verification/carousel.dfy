/**
 The carousel: a strip of chips, one per dex entry, moved by a horizontal
 offset `trackX`. The offset is clamped to `[-maxScrollX, 0]`; after every
 move the chip nearest the viewport centre becomes the current one, and the
 detail card is asked to render only when the current id differs from the
 last one it was asked for.

 Positions are exact reals. A chip's box is replaced by the layout that
 `goToIndex` itself assumes: chip `i` is centred at
 `22 + 98 * i + 43 + trackX`, measured from the carousel's left edge, and the
 viewport centre is at half the carousel's width.
 */
module Carousel {
  import opened Basics

  const ChipW: real := 86.0
  const Gap: real := 12.0
  /** The track's left padding `goToIndex` assumes. */
  const LeftPadding: real := 22.0
  /** The padding `maxScrollX` adds to the content width. */
  const EdgePadding: real := 44.0
  /** A chip closer than this to the centre is marked `is-center`. */
  const CenterBand: real := 22.0

  /** `maxScrollX()`: how far the track can move left. */
  function MaxScrollX(count: nat, viewW: nat): (m: real)
    ensures m >= 0.0
    ensures m >= (count as real) * (ChipW + Gap) - Gap + EdgePadding - viewW as real
    ensures m == 0.0 || m == (count as real) * (ChipW + Gap) - Gap + EdgePadding - viewW as real
  {
    var totalW := (count as real) * (ChipW + Gap) - Gap + EdgePadding;
    if totalW - viewW as real > 0.0 then totalW - viewW as real else 0.0
  }

  /** The offset `setTrackX(x)` applies. */
  function ClampTrack(count: nat, viewW: nat, x: real): (t: real)
    ensures -MaxScrollX(count, viewW) <= t <= 0.0
    ensures -MaxScrollX(count, viewW) <= x <= 0.0 ==> t == x
    ensures x > 0.0 ==> t == 0.0
    ensures x < -MaxScrollX(count, viewW) ==> t == -MaxScrollX(count, viewW)
  {
    ClampReal(x, -MaxScrollX(count, viewW), 0.0)
  }

  /** The centre of chip `i` at offset `trackX`. */
  function ChipCentre(i: int, trackX: real): real {
    LeftPadding + (i as real) * (ChipW + Gap) + ChipW / 2.0 + trackX
  }

  /** `centerX()`. */
  function CentreX(viewW: nat): real {
    viewW as real / 2.0
  }

  /** Distance from chip `i`'s centre to the viewport centre. */
  function Dist(i: int, viewW: nat, trackX: real): real {
    Abs(ChipCentre(i, trackX) - CentreX(viewW))
  }

  /** The scan of `updateCenterStyles` over chips `0 .. n - 1`: a chip
      replaces the best so far only when strictly nearer, so the first of
      equally near chips wins. */
  function Nearest(n: nat, viewW: nat, trackX: real): (r: Option<nat>)
    ensures r.None? <==> n == 0
    ensures r.Some? ==> r.value < n
    ensures r.Some? ==> forall j :: 0 <= j < n ==> Dist(r.value, viewW, trackX) <= Dist(j, viewW, trackX)
    ensures r.Some? ==> forall j :: 0 <= j < r.value ==> Dist(r.value, viewW, trackX) < Dist(j, viewW, trackX)
    decreases n
  {
    if n == 0 then None
    else
      var best := Nearest(n - 1, viewW, trackX);
      if best.None? || Dist(n - 1, viewW, trackX) < Dist(best.value, viewW, trackX) then Some(n - 1)
      else best
  }

  /** `ch.classList.toggle("is-center", d < 22)`. */
  predicate IsCenter(i: int, viewW: nat, trackX: real) {
    Dist(i, viewW, trackX) < CenterBand
  }

  /** The carousel's variables: the chip count and carousel width it reads,
      the offset, the current index, the last id rendered, and the drag
      state. */
  datatype State = State(
    count: nat,
    viewW: nat,
    trackX: real,
    currentIndex: int,
    lastSelectedId: Option<int>,
    dragging: bool,
    dragStartX: real,
    trackStartX: real)

  /** A state after some events, with the ids `renderDex` was called with. */
  datatype Step = Step(st: State, rendered: seq<int>)

  /** The state before any gesture: offset 0, index 0, nothing rendered. */
  function Initial(count: nat, viewW: nat): State {
    State(count, viewW, 0.0, 0, None, false, 0.0, 0.0)
  }

  /** The current index `updateCenterStyles` leaves at offset `trackX`:
      the nearest chip's, or the old one when there are no chips. */
  function CentredIndex(st: State, trackX: real): int {
    match Nearest(st.count, st.viewW, trackX)
    case Some(i) => i
    case None => st.currentIndex
  }

  /** `maybeUpdateSelectionFromCenter()`. */
  function Notify(st: State): (r: Step)
    ensures r.st == st.(lastSelectedId := Some(st.currentIndex + 1))
    ensures |r.rendered| <= 1
    ensures r.rendered != [] <==> st.lastSelectedId != Some(st.currentIndex + 1)
    ensures r.rendered != [] ==> r.rendered[0] == st.currentIndex + 1
  {
    var id := st.currentIndex + 1;
    if st.lastSelectedId != Some(id) then Step(st.(lastSelectedId := Some(id)), [id])
    else Step(st, [])
  }

  /** `setTrackX(x)`: clamp, recompute the current chip, notify. */
  function SetTrackX(st: State, x: real): (r: Step)
    ensures r.st.trackX == ClampTrack(st.count, st.viewW, x)
    ensures r.st.currentIndex == CentredIndex(st, r.st.trackX)
    ensures st.count > 0 ==> 0 <= r.st.currentIndex < st.count
    ensures r.st.lastSelectedId == Some(r.st.currentIndex + 1)
    ensures r.st == st.(trackX := r.st.trackX, currentIndex := r.st.currentIndex,
                        lastSelectedId := r.st.lastSelectedId)
    ensures r.rendered != [] <==> st.lastSelectedId != Some(r.st.currentIndex + 1)
    ensures r.rendered != [] ==> r.rendered == [r.st.currentIndex + 1]
  {
    var t := ClampTrack(st.count, st.viewW, x);
    var moved := st.(trackX := t, currentIndex := CentredIndex(st, t));
    Notify(moved)
  }

  /** Successive `setTrackX` calls, e.g. the pointer moves of a drag or the
      frames of an animation. */
  function Run(st: State, xs: seq<real>): Step
    decreases |xs|
  {
    if xs == [] then Step(st, [])
    else
      var first := SetTrackX(st, xs[0]);
      var rest := Run(first.st, xs[1..]);
      Step(rest.st, first.rendered + rest.rendered)
  }

  /** `goToIndex`'s clamp of the index into `[0, count - 1]`. */
  function TargetIndex(count: nat, idx: int): (i: int)
    ensures 0 <= i
    ensures count > 0 ==> i < count
    ensures 0 <= idx < count ==> i == idx
    ensures idx < 0 ==> i == 0
    ensures count > 0 && idx >= count ==> i == count - 1
    ensures count == 0 ==> i == 0
  {
    ClampInt(idx, 0, count - 1)
  }

  /** The offset that puts chip `i`'s centre on the viewport centre. */
  function DesiredX(viewW: nat, i: int): (x: real)
    ensures ChipCentre(i, x) == CentreX(viewW)
  {
    CentreX(viewW) - (LeftPadding + (i as real) * (ChipW + Gap) + ChipW / 2.0)
  }

  /** `goToIndex(idx, false)`. */
  function GoToIndex(st: State, idx: int): Step {
    SetTrackX(st, DesiredX(st.viewW, TargetIndex(st.count, idx)))
  }

  /** `animateTrackTo(x)`: frame `k` sets the offset at eased fraction
      `eases[k]` of the way from the start to the clamped target; the last
      frame (fraction 1) sets the target itself. The frame timing is a
      parameter. */
  function Animate(st: State, x: real, eases: seq<real>): Step {
    var from := st.trackX;
    var to := ClampTrack(st.count, st.viewW, x);
    Run(st, seq(|eases|, k requires 0 <= k < |eases| => from + (to - from) * eases[k]) + [to])
  }

  /** `goToIndex(idx, true)`. */
  function GoToIndexAnimated(st: State, idx: int, eases: seq<real>): Step {
    Animate(st, DesiredX(st.viewW, TargetIndex(st.count, idx)), eases)
  }

  // ---------------------------------------------------------------------
  // Gestures.

  /** `pointerdown`: start a drag from the current offset. */
  function PointerDown(st: State, clientX: real): (r: State)
    ensures r.dragging && r.dragStartX == clientX && r.trackStartX == st.trackX
    ensures r == st.(dragging := true, dragStartX := clientX, trackStartX := st.trackX)
  {
    st.(dragging := true, dragStartX := clientX, trackStartX := st.trackX)
  }

  /** `pointermove`: ignored unless dragging; otherwise the offset follows
      the pointer one to one from where the drag started. */
  function PointerMove(st: State, clientX: real): (r: Step)
    ensures !st.dragging ==> r == Step(st, [])
    ensures st.dragging ==> r.st.trackX == ClampTrack(st.count, st.viewW, st.trackStartX + (clientX - st.dragStartX))
    ensures r.st.dragging == st.dragging
  {
    if !st.dragging then Step(st, [])
    else SetTrackX(st, st.trackStartX + (clientX - st.dragStartX))
  }

  /** `pointerup` and `pointercancel`: stop dragging and snap to the current
      chip. */
  function PointerRelease(st: State, eases: seq<real>): (r: Step)
  {
    GoToIndexAnimated(st.(dragging := false), st.currentIndex, eases)
  }

  /** The jump buttons. */
  function JumpLeft(st: State, eases: seq<real>): Step {
    GoToIndexAnimated(st, st.currentIndex - 1, eases)
  }

  function JumpRight(st: State, eases: seq<real>): Step {
    GoToIndexAnimated(st, st.currentIndex + 1, eases)
  }

  /** A click on the chip (or list row) of id `id`. */
  function ChipClick(st: State, id: int, eases: seq<real>): Step {
    GoToIndexAnimated(st, id - 1, eases)
  }

  // ---------------------------------------------------------------------
  // Properties.

  /** Chips are 98 apart, so at most one is within 22 of the centre. */
  lemma CenterUnique(i: int, j: int, viewW: nat, trackX: real)
    requires IsCenter(i, viewW, trackX) && IsCenter(j, viewW, trackX)
    ensures i == j
  {
  }

  /** A chip marked `is-center` is the one the scan selects. */
  lemma CenterIsNearest(i: int, count: nat, viewW: nat, trackX: real)
    requires 0 <= i < count && IsCenter(i, viewW, trackX)
    ensures Nearest(count, viewW, trackX) == Some(i)
  {
    var r := Nearest(count, viewW, trackX);
    assert Dist(r.value, viewW, trackX) <= Dist(i, viewW, trackX);
    CenterUnique(r.value, i, viewW, trackX);
  }

  /** When the target offset of `goToIndex(idx, false)` is within the clamp
      range, the target chip lands exactly on the centre, is the only chip
      marked `is-center`, and becomes the current one; `renderDex` runs for
      it unless it was the last id rendered. */
  lemma GoToIndexCentres(st: State, idx: int)
    requires st.count > 0
    requires var x := DesiredX(st.viewW, TargetIndex(st.count, idx));
      -MaxScrollX(st.count, st.viewW) <= x <= 0.0
    ensures var i := TargetIndex(st.count, idx);
      var r := GoToIndex(st, idx);
      && ChipCentre(i, r.st.trackX) == CentreX(st.viewW)
      && IsCenter(i, st.viewW, r.st.trackX)
      && (forall j :: IsCenter(j, st.viewW, r.st.trackX) ==> j == i)
      && r.st.currentIndex == i
      && r.st.lastSelectedId == Some(i + 1)
      && (r.rendered == [] <==> st.lastSelectedId == Some(i + 1))
  {
    var i := TargetIndex(st.count, idx);
    var r := GoToIndex(st, idx);
    CenterIsNearest(i, st.count, st.viewW, r.st.trackX);
    forall j | IsCenter(j, st.viewW, r.st.trackX) ensures j == i {
      CenterUnique(i, j, st.viewW, r.st.trackX);
    }
  }

  /** Near the ends the target offset is clamped and the target chip cannot
      reach the centre: with ten chips in a 400-wide carousel, `goToIndex(0)`
      leaves the offset at 0, where chip 1 (centre 163) is nearer the centre
      (200) than chip 0 (centre 65), so index 1 becomes current. */
  lemma GoToFirstClamped(st: State)
    requires st.count == 10 && st.viewW == 400
    ensures GoToIndex(st, 0).st.trackX == 0.0
    ensures GoToIndex(st, 0).st.currentIndex == 1
  {
    var r := GoToIndex(st, 0);
    assert DesiredX(400, 0) == 135.0;
    assert r.st.trackX == 0.0;
    var n := Nearest(10, 400, 0.0);
    assert Dist(1, 400, 0.0) == 37.0;
    assert Dist(n.value, 400, 0.0) <= 37.0;
  }

  /** At either end the jump button toward that end targets the current
      index again, so it snaps in place. */
  lemma JumpAtEnds(st: State, eases: seq<real>)
    requires st.count > 0
    ensures st.currentIndex == 0 ==> JumpLeft(st, eases) == GoToIndexAnimated(st, 0, eases)
    ensures st.currentIndex == st.count - 1 ==>
              JumpRight(st, eases) == GoToIndexAnimated(st, st.count - 1, eases)
  {
    if st.currentIndex == 0 {
      assert TargetIndex(st.count, -1) == TargetIndex(st.count, 0);
    }
    if st.currentIndex == st.count - 1 {
      assert TargetIndex(st.count, st.count) == TargetIndex(st.count, st.count - 1);
    }
  }

  /** `setTrackX` reads only the geometry, the drag fields and, when there
      are no chips, the current index. */
  lemma SetTrackXFrom(s1: State, s2: State, x: real)
    requires s1.count == s2.count && s1.viewW == s2.viewW
    requires s1.dragging == s2.dragging && s1.dragStartX == s2.dragStartX && s1.trackStartX == s2.trackStartX
    requires s1.count == 0 ==> s1.currentIndex == s2.currentIndex
    ensures SetTrackX(s1, x).st == SetTrackX(s2, x).st
  {
  }

  /** A run changes only the offset, the current index and the last id;
      with no chips the current index stays. */
  lemma {:induction false} RunKeeps(st: State, xs: seq<real>)
    ensures var r := Run(st, xs).st;
      && r.count == st.count && r.viewW == st.viewW
      && r.dragging == st.dragging && r.dragStartX == st.dragStartX && r.trackStartX == st.trackStartX
      && (st.count == 0 ==> r.currentIndex == st.currentIndex)
    decreases |xs|
  {
    if xs != [] {
      RunKeeps(SetTrackX(st, xs[0]).st, xs[1..]);
    }
  }

  /** The state after a run ending in `x` is the state after `x` alone. */
  lemma {:induction false} RunLast(st: State, xs: seq<real>, x: real)
    ensures Run(st, xs + [x]).st == SetTrackX(st, x).st
    decreases |xs|
  {
    if xs == [] {
      assert Run(st, [x]).st == Run(SetTrackX(st, x).st, []).st;
    } else {
      var s1 := SetTrackX(st, xs[0]).st;
      assert (xs + [x])[0] == xs[0] && (xs + [x])[1..] == xs[1..] + [x];
      RunLast(s1, xs[1..], x);
      SetTrackXFrom(s1, st, x);
    }
  }

  /** The animation ends exactly where the immediate jump goes, whatever
      frames it samples on the way. */
  lemma AnimatedEndsAtTarget(st: State, idx: int, eases: seq<real>)
    ensures GoToIndexAnimated(st, idx, eases).st == GoToIndex(st, idx).st
  {
    var x := DesiredX(st.viewW, TargetIndex(st.count, idx));
    var to := ClampTrack(st.count, st.viewW, x);
    var frames := seq(|eases|, k requires 0 <= k < |eases| => st.trackX + (to - st.trackX) * eases[k]);
    RunLast(st, frames, to);
    ClampRealIdempotent(x, -MaxScrollX(st.count, st.viewW), 0.0);
  }

  /** Releasing a drag stops it and lands where `goToIndex` of the current
      chip would. */
  lemma ReleaseSnaps(st: State, eases: seq<real>)
    ensures var r := PointerRelease(st, eases).st;
      && !r.dragging
      && r == GoToIndex(st.(dragging := false), st.currentIndex).st
  {
    AnimatedEndsAtTarget(st.(dragging := false), st.currentIndex, eases);
  }

  /** An offset within the clamp range is where the track is after any
      `setTrackX`. */
  predicate InRange(st: State) {
    -MaxScrollX(st.count, st.viewW) <= st.trackX <= 0.0
  }

  /** Pressing and moving back to the same pointer position leaves the
      offset where it was. */
  lemma DragInPlace(st: State, clientX: real)
    requires InRange(st)
    ensures PointerMove(PointerDown(st, clientX), clientX).st.trackX == st.trackX
  {
  }

  /** Pressing at `p` and moving to `p + dx` moves the track by `dx` from
      where it was, clamped; the chip nearest that offset becomes current and
      is rendered unless it was the last id rendered. */
  lemma DragBy(st: State, p: real, dx: real)
    ensures var r := PointerMove(PointerDown(st, p), p + dx);
      var t := ClampTrack(st.count, st.viewW, st.trackX + dx);
      && r.st.trackX == t
      && r.st.currentIndex == CentredIndex(st, t)
      && r.st.dragging
      && (r.rendered != [] <==> st.lastSelectedId != Some(r.st.currentIndex + 1))
  {
  }

  /** Boot's `goToIndex(0, false)` from the initial state always renders,
      exactly once, because no id has been rendered yet; the chip it renders
      is the current one, and with chips it is a chip of the dex. */
  lemma BootRendersOnce(count: nat, viewW: nat)
    ensures var r := GoToIndex(Initial(count, viewW), 0);
      && r.rendered == [r.st.currentIndex + 1]
      && r.st.lastSelectedId == Some(r.st.currentIndex + 1)
      && r.st.trackX == ClampTrack(count, viewW, DesiredX(viewW, 0))
      && (count > 0 ==> 0 <= r.st.currentIndex < count)
      && !r.st.dragging
  {
  }

  /** Clicking the chip or list row of a dex id ends with that id's chip
      current whenever its target offset is within the clamp range, whatever
      frames the animation samples. */
  lemma ChipClickSelects(st: State, id: int, eases: seq<real>)
    requires 1 <= id <= st.count
    requires -MaxScrollX(st.count, st.viewW) <= DesiredX(st.viewW, id - 1) <= 0.0
    ensures var r := ChipClick(st, id, eases).st;
      && r.currentIndex == id - 1
      && IsCenter(id - 1, st.viewW, r.trackX)
      && r.lastSelectedId == Some(id)
  {
    AnimatedEndsAtTarget(st, id - 1, eases);
    GoToIndexCentres(st, id - 1);
  }

  /** No two neighbours are equal. */
  predicate NoRepeat(s: seq<int>) {
    forall k :: 0 <= k < |s| - 1 ==> s[k] != s[k + 1]
  }

  /** `renderDex` is never asked for the same id twice in a row during a run,
      nor for the id it was last asked for before the run; afterwards the
      last id asked for is the current chip's. */
  lemma {:induction false} RunNoRepeat(st: State, xs: seq<real>)
    ensures var r := Run(st, xs);
      && NoRepeat(r.rendered)
      && (r.rendered != [] ==> st.lastSelectedId != Some(r.rendered[0]))
      && (r.rendered != [] ==> r.st.lastSelectedId == Some(r.rendered[|r.rendered| - 1]))
      && (r.rendered == [] ==> r.st.lastSelectedId == st.lastSelectedId)
    decreases |xs|
  {
    if xs != [] {
      var first := SetTrackX(st, xs[0]);
      var rest := Run(first.st, xs[1..]);
      RunNoRepeat(first.st, xs[1..]);
      JoinRendered(first.rendered, rest.rendered, st.lastSelectedId, first.st.lastSelectedId, rest.st.lastSelectedId);
    }
  }

  /** After a non-empty run the last id asked for is the current chip's. */
  lemma RunEndsNotified(st: State, xs: seq<real>)
    requires xs != []
    ensures Run(st, xs).st.lastSelectedId == Some(Run(st, xs).st.currentIndex + 1)
  {
    var pre := xs[..|xs| - 1];
    assert xs == pre + [xs[|xs| - 1]];
    RunLast(st, pre, xs[|xs| - 1]);
  }

  /** Helper for `RunNoRepeat`: appending the ids of one `setTrackX` call and
      of the run after it. `prev`, `mid` and `last` are the last id asked
      for before, between and after. */
  lemma JoinRendered(a: seq<int>, b: seq<int>, prev: Option<int>, mid: Option<int>, last: Option<int>)
    requires |a| <= 1
    requires a != [] ==> prev != Some(a[0]) && mid == Some(a[0])
    requires a == [] ==> mid == prev
    requires NoRepeat(b)
    requires b != [] ==> mid != Some(b[0]) && last == Some(b[|b| - 1])
    requires b == [] ==> last == mid
    ensures NoRepeat(a + b)
    ensures a + b != [] ==> prev != Some((a + b)[0]) && last == Some((a + b)[|a + b| - 1])
    ensures a + b == [] ==> last == prev
  {
    var s := a + b;
    forall k | 0 <= k < |s| - 1 ensures s[k] != s[k + 1] {
      if a != [] && k == 0 {
        assert s[0] == a[0] && s[1] == b[0];
      } else {
        assert s[k] == b[k - |a|] && s[k + 1] == b[k + 1 - |a|];
      }
    }
  }

  /** Helper for `RunSameChip`: the condition holds for the tail of the run. */
  lemma SameChipTail(count: nat, viewW: nat, xs: seq<real>, k: nat)
    requires xs != []
    requires forall j :: 0 <= j < |xs| ==> Nearest(count, viewW, ClampTrack(count, viewW, xs[j])) == Some(k)
    ensures forall j :: 0 <= j < |xs[1..]| ==> Nearest(count, viewW, ClampTrack(count, viewW, xs[1..][j])) == Some(k)
  {
    forall j | 0 <= j < |xs[1..]|
      ensures Nearest(count, viewW, ClampTrack(count, viewW, xs[1..][j])) == Some(k)
    {
      assert xs[1..][j] == xs[j + 1];
    }
  }

  /** While every offset of a run keeps the same chip nearest the centre,
      `renderDex` is asked at most once, and not at all when that chip's id
      was the last one asked for. */
  lemma {:induction false} RunSameChip(st: State, xs: seq<real>, k: nat)
    requires forall j :: 0 <= j < |xs| ==>
               Nearest(st.count, st.viewW, ClampTrack(st.count, st.viewW, xs[j])) == Some(k)
    ensures |Run(st, xs).rendered| <= 1
    ensures st.lastSelectedId == Some(k + 1) ==> Run(st, xs).rendered == []
    decreases |xs|
  {
    if xs != [] {
      var first := SetTrackX(st, xs[0]);
      assert first.st.currentIndex == k;
      assert first.st.lastSelectedId == Some(k + 1);
      assert first.st.count == st.count && first.st.viewW == st.viewW;
      SameChipTail(st.count, st.viewW, xs, k);
      RunSameChip(first.st, xs[1..], k);
    }
  }
}
