# LuneType typing-game engine, modelled in Dafny

LuneType is a browser typing game. Asteroids carrying words fall down the
screen and the player destroys one by typing its word and pressing Enter.
The game ends when an asteroid falls past the bottom edge. On HARD difficulty
the number of asteroids destroyed is kept as the signed-in user's best score.

This project models the engine of the play screen (`src/Components/Play.js`)
as a pure state machine. It also models the stand-alone typing component
(`src/Components/InputLogic.js`) and the best-score rule of the results
screen (`src/Components/Finish.js`).

- `wrappers.dfy`, module `Wrappers`: the `Option` type.
- `difficulty.dfy`, module `Difficulty`: difficulty name to fall speed and spawn interval.
- `wordpool.dfy`, module `WordPool`: parsing the word file. It covers
  `split('\n')`, `trim` with the ECMAScript white-space set, and dropping
  blank lines. It also covers the word draw with its used-words cycle.
- `typing.dfy`, module `Typing`: the key dispatch that Play.js and
  InputLogic.js share. That is the fifteen ignored keys, Enter, Backspace,
  and verbatim append of every other key name. It also holds the
  per-character correct/incorrect/unset feedback.
- `field.dfy`, module `AsteroidField`: the asteroid record, spawn geometry, the
  motion tick, the game-over test, removal by word, and the choice of the
  active asteroid (the `reduce` that keeps the first asteroid of greatest `y`).
- `highscore.dfy`, module `HighScore`: the score store as a map from user id
  to document, and the play screen's end-of-game write rule.
- `finish.dfy`, module `Finish`: the results screen's navigation default and
  its reconciliation of the final count with the store.
- `play.dfy`, module `Play`: the game state. Events are `SpawnTick` (carrying
  the two `Math.random()` values), `MoveTick`, `Key` and `Resize`, in any
  interleaving. The module holds one step function per handler and the
  invariants proved over every run.
- `inputlogic.dfy`, module `InputLogic`: the typing component's buffer, its
  reset on a new line, and its completion callback.

Modelling choices:
- `Math.random()` values are event parameters in `[0, 1)`. The word index is
  `floor(roll * n)` and `x` is `roll * (width - 100 - size) + 50`. `x` is an
  exact `real`.
- The active word is not stored. The source stores it, but an effect
  recomputes it after every change of the asteroid list. The model computes
  it from the list whenever it is needed, which assumes that effect has run
  before the next event is handled.
- Strings are sequences of `char`. A `char` is one Unicode scalar value,
  not one UTF-16 code unit (see the last line of "Left out").

Behaviours of the code that the model keeps as written:
- Game over needs `y > height`, which is strict. A lone asteroid therefore
  ends the game after `(height + 50) / speed + 1` motion ticks, with integer
  division (`Play.GameOverTick`).
- The play screen does not clear the buffer when the target changes. The
  target changes only through a completed word, which does clear the buffer,
  or through the first spawn onto an empty field, which keeps whatever was
  typed (`Play.TargetChangeClearsOrFirstSpawn`).
- Enter removes every asteroid carrying the active word, not only the target.
- On a tie in `y` the first asteroid in the list wins. The list is always
  ordered lowest-first, so the active asteroid is always the head
  (`Play.ReachableTargetIsHead`).
- Any key name that is not ignored is appended verbatim, even a
  multi-character name such as `F1`.
- The results screen creates a missing user document holding the count, on
  any difficulty.
- The used-words reset compares lengths. The used list never holds a word
  twice, so with a repeated word in the list it is always shorter than the
  list and the reset never fires (`WordPool.RepeatNeverResets`). Once every
  word has been used, no asteroid is spawned again for the rest of the game
  (`Play.RepeatStallsForever`). For lists without repeats the cycle
  restarts as intended (`WordPool.CycleReset`).

## Model

| member | source | states |
|---|---|---|
| Difficulty.Resolve | src/Components/Play.js:9 | a missing or empty handed-over difficulty becomes EASY; any other name is kept |
| Difficulty.SettingsOf | src/Components/Play.js:12-13 | HARD gives speed 5 and interval 2000, NORMAL gives 4 and 3500, and any other name gives 3 and 5000 |
| Difficulty.HarderIsFasterAndDenser | src/Components/Play.js:12-13 | going from EASY to NORMAL to HARD, speed strictly rises, spawn interval strictly falls, and speed is always positive |
| WordPool.Split | src/Components/Play.js:34 | splitting on newlines gives at least one piece, no piece holds a newline, and joining the pieces gives back the text |
| WordPool.SplitJoin | src/Components/Play.js:34 | splitting a newline-joined list of newline-free lines gives the list back |
| WordPool.TrimStartSpec | src/Components/Play.js:35 | leading trim keeps a suffix of the input, the part cut off is all white space, and the result does not start with white space |
| WordPool.TrimEndSpec | src/Components/Play.js:35 | trailing trim keeps a prefix of the input, the part cut off is all white space, and the result does not end with white space |
| WordPool.Trim | src/Components/Play.js:35 | the trim is the slice left after cutting white space at both ends, the parts cut are all white space, and it has no white space at either end |
| WordPool.TrimmedIsFixed | src/Components/Play.js:35 | a string with no white space at either end is its own trim |
| WordPool.TrimIdempotent | src/Components/Play.js:35 | trimming twice is the same as trimming once |
| WordPool.TrimLineTrimmed | src/Components/Play.js:35 | a line without newlines trims to either the empty string or a clean word |
| WordPool.TrimLines | src/Components/Play.js:35 | one result per line, in order, each the trim of the line at that position |
| WordPool.TrimLinesTrimmed | src/Components/Play.js:35 | after trimming every line, each line is blank or a clean word |
| WordPool.DropBlank | src/Components/Play.js:36 | the kept lines are exactly the non-empty ones, each kept as many times as it occurs, and there are no more of them than lines |
| WordPool.DropBlankAppend | src/Components/Play.js:36 | filtering keeps order: filtering two lists joined end to end gives the two filtered lists joined end to end |
| WordPool.DropBlankClean | src/Components/Play.js:36 | dropping blanks from trimmed lines leaves only clean words |
| WordPool.ParseWords | src/Components/Play.js:33-36 | every loaded word is non-empty, has no white space at either end and holds no newline |
| WordPool.ParseWordsLine | src/Components/Play.js:33-36 | a single line loads as its trim, or as no word when the trim is empty |
| WordPool.ParseWordsConcat | src/Components/Play.js:33-36 | each line is handled on its own and order is kept: parsing `a + newline + b` gives the words of `a` followed by the words of `b` |
| WordPool.ParseWordsOfJoin | src/Components/Play.js:33-36 | loading a file written one clean word per line gives exactly that list back |
| WordPool.Available | src/Components/Play.js:60 | a word is available exactly when it is in the list and not yet used |
| WordPool.RollIndex | src/Components/Play.js:61 | `floor(random * n)` is a valid index below `n` |
| WordPool.CycleBase | src/Components/Play.js:56-58 | the used list a spawn tick starts from: emptied when it is as long as the word list, kept otherwise |
| WordPool.DrawWord | src/Components/Play.js:56-61 | a drawn word is in the list and was not used, and is appended to the used list after the length-based reset; no word is drawn exactly when every listed word is already used |
| WordPool.DrawKeepsPoolInv | src/Components/Play.js:56-76 | the used list always holds distinct listed words, so a word is never drawn twice within a cycle |
| WordPool.CycleReset | src/Components/Play.js:56-61 | for a list without repeats, no word is available exactly when the used list covers the list; that tick only empties the used list, and otherwise the drawn word is appended to it |
| WordPool.RepeatNeverResets | src/Components/Play.js:56-61 | with a repeated word in the list the reset never fires, and once every word is used each draw finds no word and keeps the used list |
| WordPool.DuplicateWordStalls | src/Components/Play.js:56-61 | for the list `a, a` after `a` was used, no word is available and the used list is not reset, so this state repeats forever |
| Typing.Dispatch | src/Components/Play.js:150-183 | the fifteen listed keys are ignored, Enter submits, Backspace erases, and every other key name is appended as it is |
| Typing.SingleCharacterAppends | src/Components/Play.js:151-169 | a one-character key is never ignored, never Enter and never Backspace, so it is appended |
| Typing.DropLast | src/Components/Play.js:180 | Backspace removes exactly the last character, and an empty buffer stays empty |
| Typing.DropLastUndoesAppend | src/Components/Play.js:180-182 | Backspace undoes typing one character |
| Typing.EditChar | src/Components/Play.js:179-183 | typing one character appends exactly that character to the buffer |
| Typing.Edit | src/Components/InputLogic.js:24-35 | ignored keys keep the buffer; Backspace leaves a prefix one character shorter (or empty); any other key extends the buffer by the key name |
| Typing.Classify | src/Components/InputLogic.js:60-68 | one tag per target character: unset exactly past the end of the buffer, correct exactly when the typed character at that index equals the target's |
| Typing.AllCorrectIffPrefix | src/Components/InputLogic.js:60-68 | every tag is correct exactly when the target is a prefix of the buffer; in particular when the buffer equals the target |
| AsteroidField.SizeOf | src/Components/Play.js:63 | size is the larger of 100 and 15 per character |
| AsteroidField.NewAsteroid | src/Components/Play.js:63-73 | the new asteroid has the given id and word, `y` = -50 and the size of its word; when the area is wide enough, `x` lies between the two 50-unit margins |
| AsteroidField.SixLetterSpawn | src/Components/Play.js:63-65 | a six-letter word spawned 800 units wide has size 100 and `x` between 50 and 650 |
| AsteroidField.Scale | src/Components/Play.js:64 | a random fraction of a non-negative length lies within `[0, length]` |
| AsteroidField.MoveAll | src/Components/Play.js:115-118 | each asteroid's `y` grows by the speed; length, order, id, word, `x` and size are kept |
| AsteroidField.MoveAllCompose | src/Components/Play.js:115-118 | two motion ticks equal one tick by the summed speed |
| AsteroidField.AnyPast | src/Components/Play.js:121-123 | true exactly when some asteroid's `y` is strictly greater than the height |
| AsteroidField.RemoveWord | src/Components/Play.js:173-175 | the asteroids kept are exactly those whose word differs from the given one |
| AsteroidField.RemoveAbsentWord | src/Components/Play.js:173-175 | removing a word no asteroid carries leaves the field unchanged |
| AsteroidField.RemoveWordKeepsDescending | src/Components/Play.js:173-175 | removal keeps the field ordered by height |
| AsteroidField.RemoveWordKeepsIds | src/Components/Play.js:173-175 | removal keeps ids increasing along the field |
| AsteroidField.ReduceClosest | src/Components/Play.js:142 | the fold returns the first position of greatest `y` |
| AsteroidField.ClosestIndex | src/Components/Play.js:142 | the closest asteroid has the greatest `y`, and every asteroid before it is strictly higher up |
| AsteroidField.ActiveWord | src/Components/Play.js:139-144 | the active word is empty for an empty field, and otherwise it is the word of the first asteroid of greatest `y` |
| AsteroidField.TargetId | src/Components/Play.js:139-144 | there is a target exactly when the field is non-empty, and it is the id of the closest asteroid |
| AsteroidField.HeadIsClosest | src/Components/Play.js:139-144 | on a field ordered by height, the active asteroid is the first one |
| HighScore.WithScore | src/Components/Play.js:99 | a field update sets the score and keeps the document's other fields |
| HighScore.UpdateAfterGame | src/Components/Play.js:86-103 | the store changes exactly when the game is HARD, a user is signed in, the user's document exists and the count beats the stored score (missing counts as 0); the score is then set to the count; no other document changes and no score decreases |
| Finish.Received | src/Components/Finish.js:11 | a missing navigation state reads as 0 destroyed on EASY |
| Finish.Reconcile | src/Components/Finish.js:19-50 | signed out, nothing is read, written or shown. Existing document: a write happens exactly on HARD with a higher count, the score never decreases, and the shown score is the stored one after the call. Missing document: one is created holding the count, and the count is shown |
| Finish.ShowsBestOnHard | src/Components/Finish.js:33-44 | on HARD with an existing document, the screen shows the larger of the stored score and the count |
| Finish.ReconcileIdempotent | src/Components/Finish.js:27-50 | running the reconciliation a second time changes nothing |
| Finish.NoSecondWrite | src/Components/Finish.js:33-44 | after the play screen's own update, the results screen writes nothing more for an existing document and shows the stored score |
| Play.Start | src/Components/Play.js:9-22 | a new game has the resolved difficulty, an empty field, an empty buffer and used list, no asteroids destroyed, and is not over |
| Play.SpawnAsteroid | src/Components/Play.js:51-77 | nothing happens without words or width. Otherwise the field gains one asteroid, at its end, exactly when some listed word is unused, and otherwise only the used list is reset. That asteroid has the current id (and the counter goes up by one), `y` = -50, the size of its word, and a word from the list that was not used before; the word is recorded as used. No other field of the game changes |
| Play.MoveAsteroids | src/Components/Play.js:113-130 | every asteroid falls by the difficulty's speed and nothing else changes; the game is over exactly when some asteroid is now strictly below the height |
| Play.HandleTyping | src/Components/Play.js:148-186 | ignored keys change nothing. Enter on an exact match removes exactly the asteroids carrying the active word, clears the buffer and adds one to the count; Enter otherwise changes nothing. Backspace drops the last character and any other key is appended |
| Play.Step | src/Components/Play.js:79-194 | a finished game no longer changes; the count and the id counter never decrease |
| Play.Run | src/Components/Play.js:79-194 | over any interleaving of events, the count and the id counter never decrease and the word list and difficulty are fixed |
| Play.StartInv | src/Components/Play.js:15-22 | a new game satisfies the game invariant |
| Play.SpawnKeepsInv | src/Components/Play.js:51-77 | a spawn keeps the field ordered by height, ids increasing and below the counter, and the used list distinct |
| Play.MoveKeepsInv | src/Components/Play.js:113-130 | a motion tick keeps the invariant, because all asteroids fall by the same positive speed |
| Play.KeyKeepsInv | src/Components/Play.js:148-186 | a key press keeps the invariant |
| Play.StepKeepsInv | src/Components/Play.js:112-186 | every event keeps the invariant |
| Play.RunKeepsInv | src/Components/Play.js:51-186 | every interleaving of events keeps the invariant |
| Play.ReachableTargetIsHead | src/Components/Play.js:138-145 | in every reachable game, the active word and the target are the head of the field, and no two asteroids share an id |
| Play.TargetChangeClearsOrFirstSpawn | src/Components/Play.js:138-145 | when the target changes, either the buffer is now empty or the field was empty and a spawn kept the typed buffer |
| Play.SpawnCycleReset | src/Components/Play.js:56-77 | with a repeat-free word list, a spawn tick adds no asteroid exactly when the used list covers the list; that tick empties the used list, and otherwise the spawned word is appended to it |
| Play.RepeatStallsForever | src/Components/Play.js:56-77 | with a repeated word in the list, once every word has been used, no later event spawns an asteroid: the used list and the id counter stay fixed |
| Play.EnterOnEmptyScreenCounts | src/Components/Play.js:171-178 | Enter with an empty buffer on an empty screen removes nothing but still adds one to the count |
| Play.TypingOnlyFillsBuffer | src/Components/Play.js:181-182 | typing characters only extends the buffer by exactly those characters |
| Play.TypeThenEnter | src/Components/Play.js:171-178 | typing and Enter destroys and counts exactly when the buffer then equals the active word; any other buffer leaves the field and the count unchanged |
| Play.FallWithoutEnd | src/Components/Play.js:115-126 | while a lone asteroid stays on screen, `n` ticks move it down by `n` times the speed and the game goes on |
| Play.GameOverTick | src/Components/Play.js:115-126 | a freshly spawned lone asteroid ends the game after exactly `(height + 50) / speed + 1` ticks, and not earlier |
| Play.EndGame | src/Components/Play.js:86-109 | on HARD, for a signed-in user with a document whose score the count beats, that document's score is set to the count and nothing else in the store changes; otherwise the store is unchanged. The results screen receives the count and the difficulty |
| Play.AsteroidTags | src/Components/Play.js:199-223 | every asteroid carrying the active word shows the buffer's per-character comparison; all others show only unset tags |
| InputLogic.Mount | src/Components/InputLogic.js:5-12 | after mounting, the buffer is empty and the cursor shows exactly for a non-empty line |
| InputLogic.SetActiveLine | src/Components/InputLogic.js:9-12 | a different line empties the buffer and shows the cursor exactly when the line is non-empty; the same line changes nothing |
| InputLogic.HandleKeyPress | src/Components/InputLogic.js:15-38 | completion is reported exactly on Enter with the buffer equal to the line, and then the buffer is emptied. Ignored keys and failed Enters change nothing. Backspace drops one character and other keys grow the buffer by their length |
| InputLogic.Render | src/Components/InputLogic.js:60-68 | the per-character comparison of the line with the buffer: one tag per line character, all correct when the buffer equals the line, and all unset when the buffer is empty |
| InputLogic.NewLineShowsBlank | src/Components/InputLogic.js:9-12 | right after the line changes, every character shows unset |
| InputLogic.Presses | src/Components/InputLogic.js:15-38 | key presses never change the line or the cursor, and complete at most once per key |
| InputLogic.TypingNeverCompletes | src/Components/InputLogic.js:31-35 | typing characters never completes and only extends the buffer |
| InputLogic.TypeLineThenEnter | src/Components/InputLogic.js:26-35 | from an empty buffer, typing and Enter calls the completion once and empties the buffer exactly when the characters spell the line; otherwise the completion is not called and the characters stay in the buffer |

## Left out

- Timers and rendering cadence: the 50 ms motion interval and the spawn interval are not modelled as time. Ticks and key presses are an arbitrary interleaving of events, so the spawn interval of `SettingsOf` only names the value.
- React plumbing is left out: hooks, stale closures between two events handled before a re-render, and listener attach and detach. The gap between detecting game over and navigating away is left out too, including the repeated end-of-game calls made during it. After game over the model ignores every event.
- Loading the word file: the fetch is I/O. The game starts with the loaded list, and an empty list stands for a failed load. Before the list arrives, spawn ticks are no-ops in the source too.
- Window resizes are an event that sets width and height. The browser's own resize reporting is not modelled.
- `x` is an exact real number, not an IEEE double.
- The score store's failures (rejected reads or writes that are caught and logged) are not modelled, because store calls always succeed here.
- `localStorage` is left out, because it is a browser cache only used for display: the results screen's reads and writes of a cached best score, and the value it shows when nobody is signed in.
- The results screen's leaderboard query and its "play again" navigation are left out, because they are a Firestore query and routing.
- Finish.Reconcile: when nobody is signed in it shows nothing, although the screen shows the cached `localStorage` value (see above).
- JavaScript strings are UTF-16: a character outside the basic plane is two code units, which this model's `char` does not split.
