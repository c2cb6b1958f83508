# Rhythm game session model

A Dafny model of the session state machine of a browser rhythm game. Notes fall
down four lanes toward a target line. The player presses the key of a lane to hit
the nearest note within reach. A hit earns points by accuracy plus a combo bonus.
A note that falls past the bottom edge is lost and breaks the combo.

Two modules:

- `Notes` (notes.dfy) holds the note logic:
  - the constants of the field: height 600, target line at 500, hit window 50,
    speed 2 units per frame, spawn position -20, four lanes;
  - `Distance` to the target line and the three scoring tiers (`Points`);
  - the specification of the note a press hits (`IsBest`) and the scan that
    finds it (`SelectNote`);
  - one frame of motion as a function (`AfterFrame`), with lemmas about it.
- `Game` (game.dfy) holds the class `RhythmGame`. Its fields are the session
  state: `started`, `score`, `combo`, `notes`, `lastNoteTime` and the set of
  held keys `pressed`. Its methods are the events: the start button, one tick
  of the game loop, key down and key up, and the press and hit handling they
  call. The effect of a press is stated once, as the relation `PressOutcome`
  between the state before and after.

The clock reading and the random lane of a new note are parameters of
`StartGame` and `Tick`. The random lane is required to be in 0..3, which is
what flooring a random number in [0, 1) times 4 yields.

Two details of the scoring loop:

- A note spawns only when strictly more than 500 ms have passed since the last
  spawn (`>` at game.js:264).
- The combo is incremented before the bonus is computed, so a hit adds
  `base + 2 * (combo before + 1)` (game.js:138-149; see `Game.PerfectHitExample`).

The source removes a hit note with `filter` by object identity. Each note is a
distinct object, so this removes exactly the one note found. The model removes
the note at the found position.

## Model

| member | source | states |
|---|---|---|
| `Notes.Distance` | game.js:106 | the distance of a note to the target line (screen height − 100) is the absolute difference of the positions |
| `Notes.Points` | game.js:132-147 | base points are 100 exactly when the distance is below 15, 80 exactly when it is in 15..29, 60 exactly when it is in 30..49 |
| `Notes.PointsMonotone` | game.js:135-147 | a closer hit never earns fewer base points than a farther one |
| `Notes.SelectNote` | game.js:101-112 | the scan finds a note exactly when some note of the pressed lane is within 50 of the target; the one it finds is of that lane, within 50, at minimal distance, and strictly closer than every earlier candidate (ties go to the earliest note, from the strict `<`) |
| `Notes.BestUnique` | game.js:104-112 | at most one note meets the selection rule |
| `Notes.BestExists` | game.js:104-114 | whenever some note of the lane is within the window, a note meeting the selection rule exists |
| `Notes.Fall` | game.js:238 | one frame moves a note down by exactly the speed, keeping its lane |
| `Notes.AfterFrame` | game.js:236-248 | a frame never adds notes |
| `Notes.AfterFrameMembers` | game.js:236-248 | after a frame, a note is on the field exactly when it is a note from before, moved down by the speed, that is not below the bottom edge |
| `Notes.AfterFrameAppend` | game.js:236-248 | a frame keeps the order of the surviving notes: it acts on each part of a split list separately |
| `Notes.AfterFrameDrops` | game.js:241-245 | a frame loses a note exactly when some note passes the bottom edge |
| `Notes.AfterFrameStep` | game.js:236-243 | walking from the back, handling the note at position i prepends its moved self, or nothing if it fell off, to the already handled notes |
| `Notes.BackwardStep` | game.js:236-243 | one step of the backward walk (drop the note at position i if it falls off, else move it down in place) extends the handled suffix of the frame by that note |
| `Notes.AnyFallsOffStep` | game.js:241-245 | some note of a suffix falls off exactly when its first note or some later one does, which is how the walk decides that the combo breaks |
| `Notes.AfterFrameOnScreen` | game.js:236-248 | if every note is in a lane 0..3 with y between -20 and the screen height, so is every note after a frame |
| `Game.IndexOf` | game.js:82 | the lane of a key code is its first position in the key list, and -1 exactly when the code is not mapped |
| `Game.PressScore` | game.js:114-149 | a press never lowers the score; it raises it exactly when a note of the lane is in the window; then exactly one note leaves the field; the combo either resets to 0 or grows by one |
| `Game.PressDeterministic` | game.js:104-149 | a press from a given state has exactly one outcome |
| `Game.PerfectHitExample` | game.js:135-149 | a lone lane-2 note 10 units above the target, hit in lane 2, leaves the field; the combo grows by one and the score by 100 plus twice the new combo |
| `Game.RhythmGame.constructor` | game.js:3-16 | a new session is not started, has score and combo 0, no notes, spawn clock 0 and no held keys |
| `Game.RhythmGame.StartGame` | game.js:271-280 | starting sets the started flag and the spawn clock to now, and appends one note at y = -20 in the given lane; score, combo and held keys are unchanged |
| `Game.RhythmGame.SpawnNote` | game.js:213-231 | spawning appends exactly one note, at y = -20 in the given lane 0..3, after all others |
| `Game.RhythmGame.HitNote` | game.js:126-152 | a hit removes exactly the chosen note and keeps the others in order; the combo grows by one and the score by the tier's base points plus twice the new combo |
| `Game.RhythmGame.HandleKeyPress` | game.js:99-124 | a press hits the selected note as above, or, with no note of the lane in the window, resets the combo and leaves score and notes unchanged; the score never decreases |
| `Game.RhythmGame.UpdateNotes` | game.js:235-249 | after the backward walk the notes are exactly the frame function of the notes before; the combo is 0 if some note fell off and unchanged otherwise; the score is unchanged |
| `Game.RhythmGame.Tick` | game.js:256-269 | before the start a tick changes nothing; afterwards the notes move one frame, the score is unchanged, and one note is appended at y = -20 and the spawn clock set to now exactly when now − last spawn > 500 |
| `Game.RhythmGame.KeyDown` | game.js:79-87 | a key down before the start, of an unmapped key or of a held key changes nothing; otherwise the key becomes held and exactly one press of its lane takes effect; the score never decreases |
| `Game.RhythmGame.KeyUp` | game.js:89-91 | a key up removes the key from the held keys |

Every state-changing method also keeps the class invariant `Valid`:

- every note is in a lane 0..3, with y between -20 and the screen height;
- only mapped keys are held.

The types keep `score` and `combo` non-negative. `SpawnInterval` is 60000 / 120 = 500.

## Left out

- Rendering with Pixi: application set-up, lane targets, note graphics and note x positions (game.js:21-75, 215-227, 232). These calls have no effect on score or combo.
- The rating text and the target pulse animations (game.js:154-211). They are cosmetic animation loops over floating-point alpha and scale.
- The background particles (game.js:286-317). They are decorative, use randomness and floating-point motion, and do not touch the session state.
- Writing score and combo into the page and showing or hiding page elements (game.js:251-254, 276-277). These are DOM output only.
- The rating string chosen in `hitNote`.
- Registering the event listeners, and `Date.now` and `Math.random` themselves. Their results are method parameters.
- Game.RhythmGame.HitNote: requires a distance below 50, so the source's fallthrough with 0 points is not modelled. Its only caller never reaches it (game.js:107, 114).
- Positions are integers. In the source they are JavaScript numbers, but every position is -20 plus a multiple of 2, so no fractions arise.
- The spawn interval uses integer division. The source divides in floating point, which is exact for the fixed tempo of 120.
