/** The asteroid field: creating asteroids, moving them down, the game-over
    test, removal by word and the choice of the active target. */
module AsteroidField {
  import opened Wrappers
  import opened RealFacts

  /** A falling asteroid. Only `y` changes after creation; `x` is the one
      floating-point coordinate (it comes from `Math.random`). */
  datatype Asteroid = Asteroid(id: nat, word: string, x: real, y: int, size: int)

  const SpawnY: int := -50
  const BoundaryMargin: int := 50
  const MinSize: int := 100
  const SizePerChar: int := 15

  /** `Math.max(100, word.length * 15)`. */
  function SizeOf(word: string): (size: int)
    ensures size >= MinSize && size >= SizePerChar * |word|
    ensures size == MinSize || size == SizePerChar * |word|
  {
    if SizePerChar * |word| > MinSize then SizePerChar * |word| else MinSize
  }

  /** A new asteroid with the next id, just above the visible area, with `x`
      drawn by `xRoll` (a `Math.random()` value) from the band left between
      the two 50-unit margins of the play area. */
  function NewAsteroid(id: nat, word: string, xRoll: real, width: int): (a: Asteroid)
    requires 0.0 <= xRoll < 1.0
    ensures a.id == id && a.word == word && a.y == SpawnY && a.size == SizeOf(word)
    ensures width >= 2 * BoundaryMargin + a.size ==>
      BoundaryMargin as real <= a.x <= (width - BoundaryMargin - a.size) as real
  {
    var size := SizeOf(word);
    var band := (width - 2 * BoundaryMargin - size) as real;
    Asteroid(id, word, Scale(xRoll, band) + BoundaryMargin as real, SpawnY, size)
  }

  /** `roll * len` for a roll of `Math.random()`: on a non-negative length,
      a point of `[0, len]`. */
  function Scale(roll: real, len: real): (v: real)
    requires 0.0 <= roll < 1.0
    ensures len >= 0.0 ==> 0.0 <= v <= len
  {
    if len >= 0.0 then
      MulNonNeg(roll, len);
      MulNonNeg(1.0 - roll, len);
      assert len - roll * len == (1.0 - roll) * len;
      roll * len
    else roll * len
  }

  /** The spawn of a six-letter word in an 800-unit-wide area: size 100 and
      `x` between 50 and 650. */
  lemma SixLetterSpawn(id: nat, xRoll: real)
    requires 0.0 <= xRoll < 1.0
    ensures var a := NewAsteroid(id, "nebula", xRoll, 800);
      a.size == 100 && 50.0 <= a.x <= 650.0
  {
  }

  /** One motion tick: every asteroid falls by `speed`, nothing else about
      the field changes. */
  function MoveAll(field: seq<Asteroid>, speed: int): (moved: seq<Asteroid>)
    ensures |moved| == |field|
    ensures forall i :: 0 <= i < |field| ==> moved[i] == field[i].(y := field[i].y + speed)
  {
    if field == [] then []
    else [field[0].(y := field[0].y + speed)] + MoveAll(field[1..], speed)
  }

  /** Two ticks compose into one tick by the summed speed. */
  lemma MoveAllCompose(field: seq<Asteroid>, s1: int, s2: int)
    ensures MoveAll(MoveAll(field, s1), s2) == MoveAll(field, s1 + s2)
  {
    var lhs, rhs := MoveAll(MoveAll(field, s1), s2), MoveAll(field, s1 + s2);
    assert forall i :: 0 <= i < |field| ==> lhs[i] == rhs[i];
  }

  /** `field.some(a => a.y > height)`: some asteroid has left the bottom. */
  function AnyPast(field: seq<Asteroid>, height: int): (past: bool)
    ensures past <==> exists i :: 0 <= i < |field| && field[i].y > height
  {
    if field == [] then false
    else field[0].y > height || AnyPast(field[1..], height)
  }

  /** `field.filter(a => a.word !== word)`: every asteroid carrying `word`
      removed, the others kept in order. */
  function RemoveWord(field: seq<Asteroid>, word: string): (rest: seq<Asteroid>)
    ensures forall a :: a in rest <==> a in field && a.word != word
    ensures |rest| <= |field|
  {
    if field == [] then []
    else (if field[0].word != word then [field[0]] else []) + RemoveWord(field[1..], word)
  }

  /** Nothing is removed when no asteroid carries the word. */
  lemma {:induction false} RemoveAbsentWord(field: seq<Asteroid>, word: string)
    requires forall i :: 0 <= i < |field| ==> field[i].word != word
    ensures RemoveWord(field, word) == field
    decreases |field|
  {
    if field != [] {
      RemoveAbsentWord(field[1..], word);
      assert field == [field[0]] + field[1..];
    }
  }

  /** The fold of `reduce((prev, curr) => curr.y > prev.y ? curr : prev)`
      over positions `i..`, with `best` the position kept so far. */
  function ReduceClosest(field: seq<Asteroid>, best: nat, i: nat): (k: nat)
    requires best < i <= |field|
    requires forall j :: 0 <= j < i ==> field[j].y <= field[best].y
    requires forall j :: 0 <= j < best ==> field[j].y < field[best].y
    ensures k < |field|
    ensures forall j :: 0 <= j < |field| ==> field[j].y <= field[k].y
    ensures forall j :: 0 <= j < k ==> field[j].y < field[k].y
    decreases |field| - i
  {
    if i == |field| then best
    else ReduceClosest(field, if field[i].y > field[best].y then i else best, i + 1)
  }

  /** Position of the closest asteroid: the first one of greatest `y`. */
  function ClosestIndex(field: seq<Asteroid>): (k: nat)
    requires |field| > 0
    ensures k < |field|
    ensures forall j :: 0 <= j < |field| ==> field[j].y <= field[k].y
    ensures forall j :: 0 <= j < k ==> field[j].y < field[k].y
  {
    ReduceClosest(field, 0, 1)
  }

  /** The word to type: the closest asteroid's, or the empty string when the
      field is empty. */
  function ActiveWord(field: seq<Asteroid>): (w: string)
    ensures field == [] ==> w == ""
    ensures field != [] ==> w == field[ClosestIndex(field)].word
  {
    if field == [] then "" else field[ClosestIndex(field)].word
  }

  /** Id of the active target, if any. */
  function TargetId(field: seq<Asteroid>): (t: Option<nat>)
    ensures t.None? <==> field == []
    ensures t.Some? ==> t.value == field[ClosestIndex(field)].id
  {
    if field == [] then None else Some(field[ClosestIndex(field)].id)
  }

  /** Asteroids lower on screen come first: `y` never increases along the list. */
  predicate Descending(field: seq<Asteroid>) {
    forall i, j :: 0 <= i < j < |field| ==> field[j].y <= field[i].y
  }

  /** Removing asteroids keeps the order of the others: a field ordered by
      height stays so. */
  lemma {:induction false} RemoveWordKeepsDescending(field: seq<Asteroid>, word: string)
    requires Descending(field)
    ensures Descending(RemoveWord(field, word))
    decreases |field|
  {
    if field != [] {
      var tail := field[1..];
      var rest := RemoveWord(tail, word);
      assert Descending(tail);
      RemoveWordKeepsDescending(tail, word);
      if field[0].word != word {
        var r := [field[0]] + rest;
        assert RemoveWord(field, word) == r;
        forall i, j | 0 <= i < j < |r| ensures r[j].y <= r[i].y {
          if i == 0 {
            assert r[j] in rest;
            assert r[j] in tail;
          } else {
            assert r[i] == rest[i - 1] && r[j] == rest[j - 1];
          }
        }
      }
    }
  }

  /** Removing asteroids keeps ids increasing along the list. */
  lemma {:induction false} RemoveWordKeepsIds(field: seq<Asteroid>, word: string)
    requires IdsIncreasing(field)
    ensures IdsIncreasing(RemoveWord(field, word))
    decreases |field|
  {
    if field != [] {
      var tail := field[1..];
      var rest := RemoveWord(tail, word);
      assert IdsIncreasing(tail);
      RemoveWordKeepsIds(tail, word);
      if field[0].word != word {
        var r := [field[0]] + rest;
        assert RemoveWord(field, word) == r;
        forall i, j | 0 <= i < j < |r| ensures r[i].id < r[j].id {
          if i == 0 {
            assert r[j] in rest;
            assert r[j] in tail;
          } else {
            assert r[i] == rest[i - 1] && r[j] == rest[j - 1];
          }
        }
      }
    }
  }

  /** Ids strictly increase along the list, so no id occurs twice. */
  predicate IdsIncreasing(field: seq<Asteroid>) {
    forall i, j :: 0 <= i < j < |field| ==> field[i].id < field[j].id
  }

  /** On a list ordered by height the first asteroid is the active one. */
  lemma HeadIsClosest(field: seq<Asteroid>)
    requires |field| > 0 && Descending(field)
    ensures ClosestIndex(field) == 0
    ensures ActiveWord(field) == field[0].word
  {
  }
}
