/** The play screen as a discrete state machine. Its timers and the keyboard
    become an arbitrary interleaving of spawn ticks, motion ticks, key
    presses and resizes; each handler runs to completion before the next. */
module Play {
  import opened Wrappers
  import Difficulty
  import opened WordPool
  import opened Typing
  import opened AsteroidField
  import HighScore
  import Finish

  /** The state of a game. The active word is not stored: it is always the
      closest asteroid's word (`ActiveWord(field)`). */
  datatype Game = Game(
    difficulty: string,
    words: seq<string>,
    used: seq<string>,
    field: seq<Asteroid>,
    nextId: nat,
    typed: string,
    destroyed: nat,
    width: nat,
    height: nat,
    over: bool)

  /** The events a running game reacts to. A spawn tick carries the two
      `Math.random()` values it draws: one for the word, one for `x`. */
  datatype Event =
    | SpawnTick(wordRoll: real, xRoll: real)
    | MoveTick
    | Key(key: string)
    | Resize(newWidth: nat, newHeight: nat)

  predicate IsRoll(r: real) {
    0.0 <= r < 1.0
  }

  predicate ValidEvent(e: Event) {
    e.SpawnTick? ==> IsRoll(e.wordRoll) && IsRoll(e.xRoll)
  }

  predicate ValidEvents(es: seq<Event>) {
    forall i :: 0 <= i < |es| ==> ValidEvent(es[i])
  }

  function Speed(g: Game): int {
    Difficulty.SettingsOf(g.difficulty).speed
  }

  /** A fresh game for the difficulty handed over by the lobby, with the
      loaded word list and the window size. */
  function Start(handed: Option<string>, words: seq<string>, width: nat, height: nat): (g: Game)
    ensures g.difficulty == Difficulty.Resolve(handed)
    ensures g.field == [] && g.used == [] && g.typed == "" && g.destroyed == 0 && !g.over
  {
    Game(Difficulty.Resolve(handed), words, [], [], 0, "", 0, width, height, false)
  }

  /** A spawn tick. Without words or before the width is known nothing
      happens; otherwise one word is drawn, and if one was available exactly
      one asteroid carrying it is appended, with the next id. */
  function SpawnAsteroid(g: Game, wordRoll: real, xRoll: real): (r: Game)
    requires IsRoll(wordRoll) && IsRoll(xRoll)
    ensures |g.words| == 0 || g.width == 0 ==> r == g
    ensures r == g.(field := r.field, used := r.used, nextId := r.nextId)
    ensures |r.field| == |g.field| || |r.field| == |g.field| + 1
    ensures r.field[..|g.field|] == g.field
    ensures |r.field| == |g.field| ==> r.nextId == g.nextId
    ensures |r.field| == |g.field| + 1 ==>
      var a := r.field[|g.field|];
      && a.id == g.nextId && r.nextId == g.nextId + 1
      && a.y == SpawnY && a.size == SizeOf(a.word)
      && a.word in g.words && a.word !in g.used
      && r.used == CycleBase(g.words, g.used) + [a.word]
    ensures |g.words| > 0 && g.width > 0 ==>
      && (|r.field| == |g.field| + 1 <==> exists w :: w in g.words && w !in g.used)
      && (|r.field| == |g.field| ==> r.used == CycleBase(g.words, g.used))
  {
    if |g.words| == 0 || g.width == 0 then g
    else
      match DrawWord(g.words, g.used, wordRoll)
      case Exhausted(u) => g.(used := u)
      case Drawn(w, u) =>
        var a := NewAsteroid(g.nextId, w, xRoll, g.width);
        assert (g.field + [a])[..|g.field|] == g.field;
        g.(field := g.field + [a], nextId := g.nextId + 1, used := u)
  }

  /** A motion tick: every asteroid falls by the difficulty's speed, and the
      game is over exactly when one of them is now below the bottom edge. */
  function MoveAsteroids(g: Game): (r: Game)
    ensures r == g.(field := r.field, over := r.over)
    ensures |r.field| == |g.field|
    ensures forall i :: 0 <= i < |g.field| ==>
      r.field[i] == g.field[i].(y := g.field[i].y + Speed(g))
    ensures r.over <==> exists i :: 0 <= i < |r.field| && r.field[i].y > g.height
  {
    var moved := MoveAll(g.field, Speed(g));
    g.(field := moved, over := AnyPast(moved, g.height))
  }

  /** A key press. Ignored keys change nothing; Enter on an exact match
      removes every asteroid carrying the active word, clears the buffer and
      counts one more destroyed, and otherwise changes nothing; Backspace
      drops the last typed character; any other key name is appended. */
  function HandleTyping(g: Game, key: string): (r: Game)
    ensures key in IgnoredKeys ==> r == g
    ensures key == Enter && g.typed == ActiveWord(g.field) ==>
      && r == g.(field := r.field, typed := "", destroyed := g.destroyed + 1)
      && (forall a :: a in r.field <==> a in g.field && a.word != ActiveWord(g.field))
    ensures key == Enter && g.typed != ActiveWord(g.field) ==> r == g
    ensures key == Backspace ==> r == g.(typed := r.typed) && r.typed == DropLast(g.typed)
    ensures key !in IgnoredKeys && key != Enter && key != Backspace ==>
      r == g.(typed := g.typed + key)
  {
    if key == Enter then
      var w := ActiveWord(g.field);
      if g.typed == w then
        g.(field := RemoveWord(g.field, w), typed := "", destroyed := g.destroyed + 1)
      else g
    else g.(typed := Edit(g.typed, key))
  }

  /** One event. After the game is over the screen has navigated away and
      its timers and key listener are gone, so nothing changes any more. */
  function Step(g: Game, e: Event): (r: Game)
    requires ValidEvent(e)
    ensures g.over ==> r == g
    ensures r.destroyed >= g.destroyed && r.nextId >= g.nextId
    ensures r.words == g.words && r.difficulty == g.difficulty
  {
    if g.over then g
    else
      match e
      case SpawnTick(wr, xr) => SpawnAsteroid(g, wr, xr)
      case MoveTick => MoveAsteroids(g)
      case Key(k) => HandleTyping(g, k)
      case Resize(w, h) => g.(width := w, height := h)
  }

  /** A whole interleaving of events, in order. */
  function Run(g: Game, es: seq<Event>): (r: Game)
    requires ValidEvents(es)
    ensures r.destroyed >= g.destroyed && r.nextId >= g.nextId
    ensures r.words == g.words && r.difficulty == g.difficulty
    decreases |es|
  {
    if es == [] then g else Run(Step(g, es[0]), es[1..])
  }

  lemma {:induction false} RunAppend(g: Game, a: seq<Event>, b: seq<Event>)
    requires ValidEvents(a) && ValidEvents(b)
    ensures ValidEvents(a + b)
    ensures Run(g, a + b) == Run(Run(g, a), b)
    decreases |a|
  {
    assert ValidEvents(a + b) by {
      forall i | 0 <= i < |a + b| ensures ValidEvent((a + b)[i]) {
        if i < |a| { assert (a + b)[i] == a[i]; } else { assert (a + b)[i] == b[i - |a|]; }
      }
    }
    if a != [] {
      assert (a + b)[1..] == a[1..] + b;
      assert ValidEvents(a[1..]);
      RunAppend(Step(g, a[0]), a[1..], b);
    } else {
      assert a + b == b;
    }
  }

  /** The game invariant: the field is ordered by height (lowest first), no
      asteroid is above the spawn line, ids increase along the field and are
      all below the next id, and the used list holds distinct words of the
      word list. */
  predicate Inv(g: Game) {
    && Descending(g.field)
    && (forall i :: 0 <= i < |g.field| ==> g.field[i].y >= SpawnY)
    && IdsIncreasing(g.field)
    && (forall i :: 0 <= i < |g.field| ==> g.field[i].id < g.nextId)
    && PoolInv(g.words, g.used)
  }

  lemma StartInv(handed: Option<string>, words: seq<string>, width: nat, height: nat)
    ensures Inv(Start(handed, words, width, height))
  {
  }

  lemma SpawnKeepsInv(g: Game, wordRoll: real, xRoll: real)
    requires Inv(g) && IsRoll(wordRoll) && IsRoll(xRoll)
    ensures Inv(SpawnAsteroid(g, wordRoll, xRoll))
  {
    if |g.words| != 0 && g.width != 0 {
      DrawKeepsPoolInv(g.words, g.used, wordRoll);
    }
  }

  lemma MoveKeepsInv(g: Game)
    requires Inv(g)
    ensures Inv(MoveAsteroids(g))
  {
    assert Speed(g) > 0;
  }

  lemma KeyKeepsInv(g: Game, key: string)
    requires Inv(g)
    ensures Inv(HandleTyping(g, key))
  {
    if key == Enter && g.typed == ActiveWord(g.field) {
      var w := ActiveWord(g.field);
      RemoveWordKeepsDescending(g.field, w);
      RemoveWordKeepsIds(g.field, w);
      var rest := RemoveWord(g.field, w);
      forall i | 0 <= i < |rest| ensures rest[i].y >= SpawnY && rest[i].id < g.nextId {
        assert rest[i] in g.field;
      }
    }
  }

  /** Every event keeps the invariant. */
  lemma StepKeepsInv(g: Game, e: Event)
    requires Inv(g) && ValidEvent(e)
    ensures Inv(Step(g, e))
  {
    if !g.over {
      match e
      case SpawnTick(wr, xr) => SpawnKeepsInv(g, wr, xr);
      case MoveTick => MoveKeepsInv(g);
      case Key(k) => KeyKeepsInv(g, k);
      case Resize(_, _) =>
    }
  }

  /** Every interleaving of events keeps the invariant. */
  lemma {:induction false} RunKeepsInv(g: Game, es: seq<Event>)
    requires Inv(g) && ValidEvents(es)
    ensures Inv(Run(g, es))
    decreases |es|
  {
    if es != [] {
      StepKeepsInv(g, es[0]);
      assert ValidEvents(es[1..]);
      RunKeepsInv(Step(g, es[0]), es[1..]);
    }
  }

  /** In every reachable game the asteroid to type is the first of the list,
      and no id is carried by two asteroids. */
  lemma ReachableTargetIsHead(handed: Option<string>, words: seq<string>, width: nat, height: nat, es: seq<Event>)
    requires ValidEvents(es)
    ensures var g := Run(Start(handed, words, width, height), es);
      && (g.field != [] ==> ActiveWord(g.field) == g.field[0].word && TargetId(g.field) == Some(g.field[0].id))
      && (forall i, j :: 0 <= i < j < |g.field| ==> g.field[i].id != g.field[j].id)
  {
    StartInv(handed, words, width, height);
    RunKeepsInv(Start(handed, words, width, height), es);
    var g := Run(Start(handed, words, width, height), es);
    if g.field != [] {
      HeadIsClosest(g.field);
    }
  }

  /** The buffer is not cleared when the target changes: the target changes
      only through a completed word (which clears the buffer) or through the
      first spawn onto an empty field (which keeps whatever was typed). */
  lemma TargetChangeClearsOrFirstSpawn(g: Game, e: Event)
    requires Inv(g) && ValidEvent(e)
    ensures TargetId(Step(g, e).field) != TargetId(g.field) ==>
      Step(g, e).typed == "" || (g.field == [] && e.SpawnTick? && Step(g, e).typed == g.typed)
  {
    StepKeepsInv(g, e);
    var r := Step(g, e);
    if g.field != [] && r.field != [] {
      HeadIsClosest(g.field);
      HeadIsClosest(r.field);
    }
  }

  /** The cycle-reset tick of a running game with a repeat-free word list:
      no asteroid appears exactly when the used list already covers the word
      list, and that tick empties the used list. */
  lemma SpawnCycleReset(g: Game, wordRoll: real, xRoll: real)
    requires Inv(g) && IsRoll(wordRoll) && IsRoll(xRoll)
    requires NoDup(g.words) && |g.words| > 0 && g.width > 0
    ensures var r := SpawnAsteroid(g, wordRoll, xRoll);
      && (|r.field| == |g.field| <==> |g.used| == |g.words|)
      && (|g.used| == |g.words| ==> r.used == [])
      && (|g.used| < |g.words| ==> r.used == g.used + [r.field[|g.field|].word])
  {
    CycleReset(g.words, g.used, wordRoll);
  }

  /** With a repeated word in the list, once every word has been used no
      asteroid is ever spawned again: over any later events the used list
      and the id counter stay as they are. */
  lemma {:induction false} RepeatStallsForever(g: Game, es: seq<Event>)
    requires ValidEvents(es)
    requires !NoDup(g.words) && PoolInv(g.words, g.used)
    requires forall w :: w in g.words ==> w in g.used
    ensures Run(g, es).used == g.used && Run(g, es).nextId == g.nextId
    decreases |es|
  {
    if es != [] {
      var g1 := Step(g, es[0]);
      if !g.over && es[0].SpawnTick? && |g.words| > 0 && g.width > 0 {
        RepeatNeverResets(g.words, g.used, es[0].wordRoll);
      }
      assert g1.used == g.used && g1.nextId == g.nextId;
      assert ValidEvents(es[1..]);
      RepeatStallsForever(g1, es[1..]);
    }
  }

  /** Enter on an empty screen with an empty buffer is an exact match: nothing
      is removed, yet the count goes up by one. */
  lemma EnterOnEmptyScreenCounts(g: Game)
    requires !g.over && g.field == [] && g.typed == ""
    ensures Step(g, Key(Enter)) == g.(destroyed := g.destroyed + 1)
  {
  }

  /** The key presses that type `chars` one character at a time. */
  function Keys(chars: string): (es: seq<Event>)
    ensures |es| == |chars| && ValidEvents(es)
    ensures forall i :: 0 <= i < |chars| ==> es[i] == Key([chars[i]])
  {
    seq(|chars|, i requires 0 <= i < |chars| => Key([chars[i]]))
  }

  /** A one-character key press in a running game only appends it. */
  lemma KeyChar(g: Game, c: char)
    requires !g.over
    ensures Step(g, Key([c])) == g.(typed := g.typed + [c])
  {
    EditChar(g.typed, c);
  }

  lemma KeysTail(chars: string)
    requires chars != []
    ensures Keys(chars)[0] == Key([chars[0]])
    ensures Keys(chars)[1..] == Keys(chars[1..])
  {
    var es := Keys(chars);
    assert forall i :: 0 <= i < |chars| - 1 ==> es[1..][i] == Keys(chars[1..])[i];
  }

  lemma RunHead(g: Game, es: seq<Event>)
    requires es != [] && ValidEvents(es)
    ensures Run(g, es) == Run(Step(g, es[0]), es[1..])
  {
  }

  lemma {:induction false} TypingOnlyFillsBuffer(g: Game, chars: string)
    requires !g.over
    ensures Run(g, Keys(chars)) == g.(typed := g.typed + chars)
    decreases |chars|
  {
    if chars == [] {
      assert g.typed + chars == g.typed;
    } else {
      var g1 := g.(typed := g.typed + [chars[0]]);
      assert g1.typed + chars[1..] == g.typed + chars by {
        assert chars == [chars[0]] + chars[1..];
      }
      calc {
        Run(g, Keys(chars));
      == { RunHead(g, Keys(chars)); }
        Run(Step(g, Keys(chars)[0]), Keys(chars)[1..]);
      == { KeysTail(chars); KeyChar(g, chars[0]); }
        Run(g1, Keys(chars[1..]));
      == { TypingOnlyFillsBuffer(g1, chars[1..]); }
        g1.(typed := g1.typed + chars[1..]);
      }
    }
  }

  /** Exact match only: typing characters and pressing Enter destroys the
      target and counts one exactly when the buffer then equals the active
      word; on any other buffer (a prefix, a typo) the field and the count
      stay as they were. */
  lemma TypeThenEnter(g: Game, chars: string)
    requires !g.over
    ensures var r := Run(g, Keys(chars) + [Key(Enter)]);
      var w := ActiveWord(g.field);
      && (g.typed + chars == w ==>
            r.destroyed == g.destroyed + 1 && r.typed == "" && r.field == RemoveWord(g.field, w))
      && (g.typed + chars != w ==>
            r.destroyed == g.destroyed && r.field == g.field && r.typed == g.typed + chars)
  {
    RunAppend(g, Keys(chars), [Key(Enter)]);
    TypingOnlyFillsBuffer(g, chars);
  }

  /** The events of `n` motion ticks. */
  function Ticks(n: nat): (es: seq<Event>)
    ensures |es| == n && ValidEvents(es)
    ensures forall i :: 0 <= i < n ==> es[i] == MoveTick
  {
    seq(n, i => MoveTick)
  }

  lemma MulMonotone(a: int, b: int, s: int)
    requires 0 <= a <= b && s >= 0
    ensures a * s <= b * s
  {
    assert b * s - a * s == (b - a) * s;
  }

  /** While a lone asteroid stays on screen, `n` motion ticks move it down by
      `n` times the speed and the game goes on. */
  lemma {:induction false} FallWithoutEnd(g: Game, n: nat)
    requires !g.over && |g.field| == 1 && Speed(g) > 0
    requires g.field[0].y + n * Speed(g) <= g.height
    ensures Run(g, Ticks(n)) == g.(field := [g.field[0].(y := g.field[0].y + n * Speed(g))])
    decreases n
  {
    var s := Speed(g);
    if n == 0 {
      assert g.field == [g.field[0].(y := g.field[0].y)];
    } else {
      assert Ticks(n)[1..] == Ticks(n - 1);
      MulMonotone(1, n, s);
      var g1 := Step(g, MoveTick);
      assert g1.field == [g.field[0].(y := g.field[0].y + s)];
      assert !g1.over;
      assert (n - 1) * s + s == n * s;
      FallWithoutEnd(g1, n - 1);
    }
  }

  /** Game over comes on exactly the tick at which a freshly spawned lone
      asteroid first lies strictly below the bottom edge: after
      `(height + 50) / speed + 1` ticks, and not one tick earlier. */
  lemma GameOverTick(g: Game)
    requires !g.over && |g.field| == 1 && g.field[0].y == SpawnY
    ensures var k := (g.height - SpawnY) / Speed(g) + 1;
      && Run(g, Ticks(k)).over
      && forall n :: 0 <= n < k ==> !Run(g, Ticks(n)).over
  {
    var s := Speed(g);
    var q := (g.height - SpawnY) / s;
    var k := q + 1;
    assert q * s <= g.height - SpawnY < q * s + s;
    forall n | 0 <= n < k ensures !Run(g, Ticks(n)).over {
      MulMonotone(n, q, s);
      FallWithoutEnd(g, n);
    }
    MulMonotone(q, q, s);
    FallWithoutEnd(g, q);
    var gq := Run(g, Ticks(q));
    assert Ticks(k) == Ticks(q) + [MoveTick];
    RunAppend(g, Ticks(q), [MoveTick]);
    assert Run(gq, [MoveTick]) == Step(gq, MoveTick);
    assert Step(gq, MoveTick).field[0].y == SpawnY + q * s + s;
  }

  /** The end of a game: the play screen's score update, then the handoff of
      the count and difficulty to the results screen. */
  function EndGame(g: Game, user: Option<HighScore.UserId>, store: HighScore.Store): (r: (HighScore.Store, Finish.Handoff))
    ensures r.1 == Finish.Handoff(g.destroyed, g.difficulty)
    ensures HighScore.GameEndWrites(g.difficulty, user, store, g.destroyed) ==>
      r.0 == store[user.value := HighScore.WithScore(store[user.value], g.destroyed)]
    ensures !HighScore.GameEndWrites(g.difficulty, user, store, g.destroyed) ==> r.0 == store
  {
    (HighScore.UpdateAfterGame(g.difficulty, user, store, g.destroyed), Finish.Handoff(g.destroyed, g.difficulty))
  }

  /** The feedback drawn on an asteroid: every asteroid carrying the active
      word is highlighted and compared with the buffer; all others show
      their characters blank. */
  function AsteroidTags(g: Game, a: Asteroid): (tags: seq<Tag>)
    ensures |tags| == |a.word|
    ensures a.word != ActiveWord(g.field) ==> forall i :: 0 <= i < |tags| ==> tags[i] == Unset
    ensures a.word == ActiveWord(g.field) ==> forall i :: 0 <= i < |tags| ==>
      (tags[i] == Correct <==> i < |g.typed| && g.typed[i] == a.word[i])
      && (tags[i] == Unset <==> i >= |g.typed|)
  {
    if a.word == ActiveWord(g.field) then Classify(a.word, g.typed)
    else seq(|a.word|, i => Unset)
  }
}
