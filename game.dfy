/** The session state of the rhythm game and the events that change it: the
    start button, a frame of the game loop, and key presses and releases.
    The clock and the random lane of a new note are inputs to the events. */
module Game {
  import opened Notes

  /** Beats per minute of the session. */
  const Bpm: int := 120
  /** Milliseconds between two spawns: one note per beat. */
  const SpawnInterval: int := 60000 / Bpm
  /** Key codes of the four lanes, in lane order. */
  const Keys: seq<string> := ["KeyA", "KeyS", "KeyD", "KeyF"]

  /** Position of the first occurrence of `code` in `keys`, or -1. */
  function IndexOf(keys: seq<string>, code: string): (r: int)
    ensures -1 <= r < |keys|
    ensures r == -1 <==> code !in keys
    ensures r != -1 ==> keys[r] == code && code !in keys[..r]
  {
    if keys == [] then -1
    else if keys[0] == code then 0
    else
      var t := IndexOf(keys[1..], code);
      if t == -1 then -1 else t + 1
  }

  /** The effect of one key press in `lane` on the notes, score and combo
      (`notes`, `score`, `combo` before; `notes'`, `score'`, `combo'` after).
      With no note in the window the combo breaks and nothing else changes.
      Otherwise the best note is removed, the combo grows by one and the score
      by the note's base points plus twice the new combo. */
  ghost predicate PressOutcome(notes: seq<Note>, score: nat, combo: nat, lane: int,
                               notes': seq<Note>, score': nat, combo': nat)
  {
    if AnyInWindow(notes, lane) then
      exists i :: IsBest(notes, lane, i) &&
        notes' == notes[..i] + notes[i + 1..] &&
        combo' == combo + 1 &&
        score' == score + Points(Distance(notes[i].y)) + 2 * combo'
    else
      notes' == notes && score' == score && combo' == 0
  }

  /** A press never lowers the score; it raises it exactly when it hits a
      note, and then exactly one note leaves the field. */
  lemma PressScore(notes: seq<Note>, score: nat, combo: nat, lane: int,
                   notes': seq<Note>, score': nat, combo': nat)
    requires PressOutcome(notes, score, combo, lane, notes', score', combo')
    ensures score' >= score
    ensures score' > score <==> AnyInWindow(notes, lane)
    ensures |notes'| == if AnyInWindow(notes, lane) then |notes| - 1 else |notes|
    ensures combo' == 0 || combo' == combo + 1
  {
  }

  /** A press has exactly one outcome. */
  lemma PressDeterministic(notes: seq<Note>, score: nat, combo: nat, lane: int,
                           n1: seq<Note>, s1: nat, c1: nat, n2: seq<Note>, s2: nat, c2: nat)
    requires PressOutcome(notes, score, combo, lane, n1, s1, c1)
    requires PressOutcome(notes, score, combo, lane, n2, s2, c2)
    ensures n1 == n2 && s1 == s2 && c1 == c2
  {
    if AnyInWindow(notes, lane) {
      var i :| IsBest(notes, lane, i) && n1 == notes[..i] + notes[i + 1..] &&
               c1 == combo + 1 && s1 == score + Points(Distance(notes[i].y)) + 2 * c1;
      var k :| IsBest(notes, lane, k) && n2 == notes[..k] + notes[k + 1..] &&
               c2 == combo + 1 && s2 == score + Points(Distance(notes[k].y)) + 2 * c2;
      BestUnique(notes, lane, i, k);
    }
  }

  /** A lone note in lane 2 that is 10 units above the target line is a top
      tier hit: it leaves the field, the combo grows by one, and the score by
      100 plus twice the combo after the increment. */
  lemma PerfectHitExample(score: nat, combo: nat, notes': seq<Note>, score': nat, combo': nat)
    requires PressOutcome([Note(2, TargetY - 10)], score, combo, 2, notes', score', combo')
    ensures notes' == [] && combo' == combo + 1
    ensures score' == score + 100 + 2 * (combo + 1)
  {
    var notes := [Note(2, TargetY - 10)];
    assert InWindow(notes[0], 2);
    var i :| IsBest(notes, 2, i) && notes' == notes[..i] + notes[i + 1..] &&
             combo' == combo + 1 && score' == score + Points(Distance(notes[i].y)) + 2 * combo';
    assert i == 0;
  }

  /** One browser session of the game. */
  class RhythmGame {
    var started: bool
    var score: nat
    var combo: nat
    /** The notes on the field, oldest first. */
    var notes: seq<Note>
    /** Clock reading of the last spawn, in milliseconds. */
    var lastNoteTime: int
    /** Key codes currently held down. */
    var pressed: set<string>

    /** Every note is on screen and only mapped keys are held. */
    ghost predicate Valid()
      reads this
    {
      (forall n :: n in notes ==> OnScreen(n)) &&
      (forall k :: k in pressed ==> k in Keys)
    }

    constructor ()
      ensures Valid()
      ensures !started && score == 0 && combo == 0 && notes == []
      ensures lastNoteTime == 0 && pressed == {}
    {
      started := false;
      score := 0;
      combo := 0;
      notes := [];
      lastNoteTime := 0;
      pressed := {};
    }

    /** The start button: the session starts, the spawn clock is set to `now`
        and the first note appears at once in lane `lane`. */
    method StartGame(now: int, lane: int)
      requires Valid()
      requires 0 <= lane < LaneCount
      modifies this
      ensures Valid()
      ensures started && lastNoteTime == now
      ensures notes == old(notes) + [Note(lane, SpawnY)]
      ensures score == old(score) && combo == old(combo) && pressed == old(pressed)
    {
      started := true;
      lastNoteTime := now;
      SpawnNote(lane);
    }

    /** A new note at the top of lane `lane`, behind all others. */
    method SpawnNote(lane: int)
      requires Valid()
      requires 0 <= lane < LaneCount
      modifies this`notes
      ensures Valid()
      ensures notes == old(notes) + [Note(lane, SpawnY)]
    {
      notes := notes + [Note(lane, SpawnY)];
    }

    /** Scores a hit on `notes[index]`, which is `distance` from the target
        line: the note leaves the field, the combo grows by one, and the score
        grows by the tier's base points plus twice the new combo. */
    method HitNote(index: nat, distance: nat)
      requires Valid()
      requires index < |notes| && distance == Distance(notes[index].y)
      requires distance < HitWindow
      modifies this`notes, this`score, this`combo
      ensures Valid()
      ensures notes == old(notes[..index] + notes[index + 1..])
      ensures combo == old(combo) + 1
      ensures score == old(score) + Points(distance) + 2 * combo
    {
      notes := notes[..index] + notes[index + 1..];
      assert forall n :: n in notes ==> n in old(notes);
      var points := Points(distance);
      combo := combo + 1;
      score := score + points + combo * 2;
    }

    /** A press of the key of `lane`: hit the best note in the window, or
        break the combo when there is none. */
    method HandleKeyPress(lane: int)
      requires Valid()
      modifies this`notes, this`score, this`combo
      ensures Valid()
      ensures PressOutcome(old(notes), old(score), old(combo), lane, notes, score, combo)
      ensures score >= old(score)
    {
      var hit, index, distance := SelectNote(notes, lane);
      if hit {
        HitNote(index, distance);
      } else {
        combo := 0;
      }
    }

    /** One frame of motion: every note falls, the notes that pass the bottom
        edge leave the field, and each of them breaks the combo. The notes
        are walked from the back, as removal by position requires. */
    method UpdateNotes()
      requires Valid()
      modifies this`notes, this`combo
      ensures Valid()
      ensures notes == AfterFrame(old(notes))
      ensures combo == if AnyFallsOff(old(notes)) then 0 else old(combo)
    {
      ghost var before := notes;
      var i := |notes| - 1;
      while i >= 0
        invariant -1 <= i < |before|
        invariant notes == before[..i + 1] + AfterFrame(before[i + 1..])
        invariant combo == if AnyFallsOff(before[i + 1..]) then 0 else old(combo)
        decreases i + 1
      {
        BackwardStep(before, notes, i);
        AnyFallsOffStep(before, i);
        var note := Fall(notes[i]);
        if OffScreen(note) {
          notes := notes[..i] + notes[i + 1..];
          combo := 0;
        } else {
          notes := notes[i := note];
        }
        i := i - 1;
      }
      assert before[0..] == before;
      AfterFrameOnScreen(before);
    }

    /** One tick of the game loop at clock reading `now`: nothing before the
        start; afterwards the notes move, and a new note appears in lane
        `lane` when strictly more than one spawn interval has passed since
        the last spawn. */
    method Tick(now: int, lane: int)
      requires Valid()
      requires 0 <= lane < LaneCount
      modifies this
      ensures Valid()
      ensures !old(started) ==> unchanged(this)
      ensures old(started) ==>
        started && score == old(score) && pressed == old(pressed) &&
        combo == (if AnyFallsOff(old(notes)) then 0 else old(combo)) &&
        if now - old(lastNoteTime) > SpawnInterval then
          notes == AfterFrame(old(notes)) + [Note(lane, SpawnY)] && lastNoteTime == now
        else
          notes == AfterFrame(old(notes)) && lastNoteTime == old(lastNoteTime)
    {
      if !started {
        return;
      }
      UpdateNotes();
      if now - lastNoteTime > SpawnInterval {
        SpawnNote(lane);
        lastNoteTime := now;
      }
    }

    /** A key going down. Ignored before the start, for a key that is not
        mapped to a lane, and for a key already held (no auto-repeat);
        otherwise the key is held and its lane is pressed once. */
    method KeyDown(code: string)
      requires Valid()
      modifies this`notes, this`score, this`combo, this`pressed
      ensures Valid()
      ensures !old(started) || code !in Keys || code in old(pressed) ==>
        unchanged(this)
      ensures old(started) && code in Keys && code !in old(pressed) ==>
        pressed == old(pressed) + {code} &&
        PressOutcome(old(notes), old(score), old(combo), IndexOf(Keys, code), notes, score, combo)
      ensures score >= old(score)
    {
      if !started {
        return;
      }
      var keyIndex := IndexOf(Keys, code);
      if keyIndex != -1 && code !in pressed {
        pressed := pressed + {code};
        HandleKeyPress(keyIndex);
      }
    }

    /** A key going up: it is no longer held. */
    method KeyUp(code: string)
      requires Valid()
      modifies this`pressed
      ensures Valid()
      ensures pressed == old(pressed) - {code}
    {
      pressed := pressed - {code};
    }
  }
}
