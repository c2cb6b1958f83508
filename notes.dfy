/** The note logic of the rhythm game: where notes fall, how a key press picks
    the note it hits, what a hit is worth and what one frame of motion does to
    the notes on screen. Positions are whole numbers of screen units; y grows
    downwards. */
module Notes {

  /** Height of the playing field. */
  const ScreenHeight: int := 600
  /** The line the player aims at, 100 units above the bottom edge. */
  const TargetY: int := ScreenHeight - 100
  /** A note farther than this from the target line cannot be hit. */
  const HitWindow: nat := 50
  /** Distance in y that every note falls per frame. */
  const GameSpeed: int := 2
  /** Where a freshly spawned note starts, just above the visible area. */
  const SpawnY: int := -20
  /** Number of lanes, one per mapped key. */
  const LaneCount: int := 4

  /** A falling note: the lane it belongs to and its vertical position. */
  datatype Note = Note(lane: int, y: int)

  /** Absolute distance between a position and the target line. */
  function Distance(y: int): (d: nat)
    ensures d == y - TargetY || d == TargetY - y
  {
    if y >= TargetY then y - TargetY else TargetY - y
  }

  /** Base points of a hit at distance `d` from the target line: three tiers. */
  function Points(d: nat): (p: nat)
    requires d < HitWindow
    ensures p == 100 <==> d < 15
    ensures p == 80 <==> 15 <= d < 30
    ensures p == 60 <==> 30 <= d
  {
    if d < 15 then 100
    else if d < 30 then 80
    else 60
  }

  /** A closer hit is never worth fewer base points than a farther one. */
  lemma PointsMonotone(d1: nat, d2: nat)
    requires d1 <= d2 < HitWindow
    ensures Points(d1) >= Points(d2)
  {
  }

  /** A note can be hit by a press in `lane`. */
  predicate InWindow(n: Note, lane: int) {
    n.lane == lane && Distance(n.y) < HitWindow
  }

  /** Some note in `notes` can be hit by a press in `lane`. */
  predicate AnyInWindow(notes: seq<Note>, lane: int) {
    exists j :: 0 <= j < |notes| && InWindow(notes[j], lane)
  }

  /** `notes[i]` is the note a press in `lane` hits: it is in the window, no
      note in the window is closer, and every earlier note in the window is
      strictly farther (ties go to the earliest note). */
  predicate IsBest(notes: seq<Note>, lane: int, i: int) {
    0 <= i < |notes| && InWindow(notes[i], lane) &&
    (forall j :: 0 <= j < |notes| && InWindow(notes[j], lane) ==>
       Distance(notes[i].y) <= Distance(notes[j].y)) &&
    (forall j :: 0 <= j < i && InWindow(notes[j], lane) ==>
       Distance(notes[i].y) < Distance(notes[j].y))
  }

  /** At most one note is the best one. */
  lemma BestUnique(notes: seq<Note>, lane: int, i: int, k: int)
    requires IsBest(notes, lane, i) && IsBest(notes, lane, k)
    ensures i == k
  {
  }

  /** Whenever some note is in the window, a best note exists. */
  lemma {:induction false} BestExists(notes: seq<Note>, lane: int)
    requires AnyInWindow(notes, lane)
    ensures exists i :: IsBest(notes, lane, i)
  {
    var last := |notes| - 1;
    var front := notes[..last];
    if !AnyInWindow(front, lane) {
      forall j | 0 <= j < last
        ensures !InWindow(notes[j], lane)
      {
        assert front[j] == notes[j];
      }
      assert IsBest(notes, lane, last);
    } else {
      BestExists(front, lane);
      var k :| IsBest(front, lane, k);
      assert front[k] == notes[k];
      if InWindow(notes[last], lane) && Distance(notes[last].y) < Distance(notes[k].y) {
        forall j | 0 <= j < |notes| && InWindow(notes[j], lane)
          ensures Distance(notes[last].y) <= Distance(notes[j].y)
        {
          if j < last {
            assert front[j] == notes[j];
          }
        }
        forall j | 0 <= j < last && InWindow(notes[j], lane)
          ensures Distance(notes[last].y) < Distance(notes[j].y)
        {
          assert front[j] == notes[j];
        }
        assert IsBest(notes, lane, last);
      } else {
        forall j | 0 <= j < |notes| && InWindow(notes[j], lane)
          ensures Distance(notes[k].y) <= Distance(notes[j].y)
        {
          if j < last {
            assert front[j] == notes[j];
          }
        }
        forall j | 0 <= j < k && InWindow(notes[j], lane)
          ensures Distance(notes[k].y) < Distance(notes[j].y)
        {
          assert front[j] == notes[j];
        }
        assert IsBest(notes, lane, k);
      }
    }
  }

  /** The search of a key press: scan the notes in order and keep the one in
      `lane` that is within the window and strictly closer than the best so
      far. `hit` is false when no note qualifies; otherwise `index` is the
      best note and `distance` its distance to the target line. */
  method SelectNote(notes: seq<Note>, lane: int) returns (hit: bool, index: nat, distance: nat)
    ensures hit <==> AnyInWindow(notes, lane)
    ensures hit ==> IsBest(notes, lane, index) && distance == Distance(notes[index].y)
  {
    hit, index, distance := false, 0, 0;
    for i := 0 to |notes|
      invariant hit <==> exists j :: 0 <= j < i && InWindow(notes[j], lane)
      invariant hit ==> index < i && InWindow(notes[index], lane)
      invariant hit ==> distance == Distance(notes[index].y)
      invariant hit ==> forall j :: 0 <= j < i && InWindow(notes[j], lane) ==> distance <= Distance(notes[j].y)
      invariant hit ==> forall j :: 0 <= j < index && InWindow(notes[j], lane) ==> distance < Distance(notes[j].y)
    {
      var note := notes[i];
      if note.lane == lane {
        var d := Distance(note.y);
        // before the first candidate the best distance is unbounded
        if d < HitWindow && (!hit || d < distance) {
          hit, index, distance := true, i, d;
        }
      }
    }
  }

  /** Where a note is after one frame of motion. */
  function Fall(n: Note): (m: Note)
    ensures m.lane == n.lane && m.y == n.y + GameSpeed
  {
    n.(y := n.y + GameSpeed)
  }

  /** A note a session can hold: in one of the lanes, between its spawn
      position and the bottom edge. */
  predicate OnScreen(n: Note) {
    0 <= n.lane < LaneCount && SpawnY <= n.y <= ScreenHeight
  }

  /** A note that has passed the bottom edge of the screen. */
  predicate OffScreen(n: Note) {
    n.y > ScreenHeight
  }

  /** Some note passes the bottom edge during the next frame. */
  predicate AnyFallsOff(notes: seq<Note>) {
    exists j :: 0 <= j < |notes| && OffScreen(Fall(notes[j]))
  }

  /** The notes after one frame: every note falls, and those that pass the
      bottom edge are dropped. */
  function AfterFrame(notes: seq<Note>): (r: seq<Note>)
    ensures |r| <= |notes|
  {
    if notes == [] then []
    else
      var m := Fall(notes[0]);
      if OffScreen(m) then AfterFrame(notes[1..]) else [m] + AfterFrame(notes[1..])
  }

  /** A note is on screen after a frame exactly when it is a note from before
      that has fallen and has not passed the bottom edge. */
  lemma {:induction false} AfterFrameMembers(notes: seq<Note>, m: Note)
    ensures m in AfterFrame(notes) <==> exists n :: n in notes && m == Fall(n) && !OffScreen(m)
  {
    if notes != [] {
      AfterFrameMembers(notes[1..], m);
      if m == Fall(notes[0]) && !OffScreen(m) {
        assert notes[0] in notes;
      }
      forall n | n in notes[1..] ensures n in notes { }
      forall n | n in notes && n != notes[0] ensures n in notes[1..] {
        var j :| 0 <= j < |notes| && notes[j] == n;
        assert notes[1..][j - 1] == n;
      }
    }
  }

  /** A frame keeps the order of the notes: it acts on a split list piece by
      piece. */
  lemma {:induction false} AfterFrameAppend(a: seq<Note>, b: seq<Note>)
    ensures AfterFrame(a + b) == AfterFrame(a) + AfterFrame(b)
  {
    if a == [] {
      assert a + b == b;
    } else {
      assert (a + b)[0] == a[0];
      assert (a + b)[1..] == a[1..] + b;
      AfterFrameAppend(a[1..], b);
    }
  }

  /** A frame drops some note exactly when some note passes the bottom edge. */
  lemma {:induction false} AfterFrameDrops(notes: seq<Note>)
    ensures |AfterFrame(notes)| < |notes| <==> AnyFallsOff(notes)
  {
    if notes != [] {
      AfterFrameDrops(notes[1..]);
      if AnyFallsOff(notes[1..]) {
        var j :| 0 <= j < |notes[1..]| && OffScreen(Fall(notes[1..][j]));
        assert OffScreen(Fall(notes[j + 1]));
      }
      if AnyFallsOff(notes) && !OffScreen(Fall(notes[0])) {
        var j :| 0 <= j < |notes| && OffScreen(Fall(notes[j]));
        assert OffScreen(Fall(notes[1..][j - 1]));
      }
    }
  }

  /** One frame as the source walks it, from the back: the notes after
      position `i` are already processed, and processing `notes[i]` prepends
      its successor (if any) to them. */
  lemma AfterFrameStep(notes: seq<Note>, i: nat)
    requires i < |notes|
    ensures AfterFrame(notes[i..]) ==
            (if OffScreen(Fall(notes[i])) then [] else [Fall(notes[i])]) + AfterFrame(notes[i + 1..])
  {
    assert notes[i..][1..] == notes[i + 1..];
  }

  /** Some note of `notes[i..]` falls off exactly when `notes[i]` does or
      some later note does. */
  lemma AnyFallsOffStep(notes: seq<Note>, i: nat)
    requires i < |notes|
    ensures AnyFallsOff(notes[i..]) <==> OffScreen(Fall(notes[i])) || AnyFallsOff(notes[i + 1..])
  {
    if AnyFallsOff(notes[i + 1..]) {
      var j :| 0 <= j < |notes[i + 1..]| && OffScreen(Fall(notes[i + 1..][j]));
      assert notes[i..][j + 1] == notes[i + 1..][j];
    }
    if AnyFallsOff(notes[i..]) && !OffScreen(Fall(notes[i])) {
      var j :| 0 <= j < |notes[i..]| && OffScreen(Fall(notes[i..][j]));
      assert notes[i + 1..][j - 1] == notes[i..][j];
    }
  }

  /** A frame keeps every note on screen. */
  lemma AfterFrameOnScreen(notes: seq<Note>)
    requires forall n :: n in notes ==> OnScreen(n)
    ensures forall m :: m in AfterFrame(notes) ==> OnScreen(m)
  {
    forall m | m in AfterFrame(notes) ensures OnScreen(m) {
      AfterFrameMembers(notes, m);
    }
  }

  /** One step of the backward walk over a frame. `work` holds the untouched
      notes before position `i + 1` followed by the already handled rest;
      handling `work[i]` (dropping it if it falls off, else moving it down)
      extends the handled part by one. */
  lemma BackwardStep(notes: seq<Note>, work: seq<Note>, i: nat)
    requires i < |notes|
    requires work == notes[..i + 1] + AfterFrame(notes[i + 1..])
    ensures OffScreen(Fall(work[i])) ==>
              work[..i] + work[i + 1..] == notes[..i] + AfterFrame(notes[i..])
    ensures !OffScreen(Fall(work[i])) ==>
              work[i := Fall(work[i])] == notes[..i] + AfterFrame(notes[i..])
  {
    AfterFrameStep(notes, i);
    assert work[i] == notes[i];
    assert work[..i] == notes[..i];
    assert work[i + 1..] == AfterFrame(notes[i + 1..]);
  }
}
