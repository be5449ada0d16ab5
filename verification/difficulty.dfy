/** Difficulty settings of the play screen: each difficulty name selects a
    fall speed (units per motion tick) and a spawn interval (milliseconds). */
module Difficulty {
  import opened Wrappers

  const Easy := "EASY"
  const Normal := "NORMAL"
  const Hard := "HARD"

  datatype Settings = Settings(speed: int, spawnInterval: int)

  /** The difficulty the play screen runs with: the one handed over by the
      lobby, or EASY when none was handed over or it is the empty string
      (the falsy cases of `state?.difficulty || 'EASY'`). */
  function Resolve(handed: Option<string>): (d: string)
    ensures d != ""
    ensures handed.Some? && handed.value != "" ==> d == handed.value
    ensures handed.None? || handed.value == "" ==> d == Easy
  {
    match handed
    case Some(s) => if s != "" then s else Easy
    case None => Easy
  }

  /** The speed and spawn interval of a difficulty; any name other than
      HARD and NORMAL falls back to the EASY settings. */
  function SettingsOf(d: string): (s: Settings)
    ensures d == Hard ==> s == Settings(5, 2000)
    ensures d == Normal ==> s == Settings(4, 3500)
    ensures d != Hard && d != Normal ==> s == Settings(3, 5000)
  {
    if d == Hard then Settings(5, 2000)
    else if d == Normal then Settings(4, 3500)
    else Settings(3, 5000)
  }

  /** Rank of a difficulty for comparing settings: EASY (and every unknown
      name) 0, NORMAL 1, HARD 2. */
  function Level(d: string): nat {
    if d == Hard then 2 else if d == Normal then 1 else 0
  }

  /** Harder means strictly faster asteroids and strictly shorter spawn
      intervals, and every speed is positive, so asteroids always fall. */
  lemma HarderIsFasterAndDenser(d1: string, d2: string)
    requires Level(d1) < Level(d2)
    ensures SettingsOf(d1).speed < SettingsOf(d2).speed
    ensures SettingsOf(d1).spawnInterval > SettingsOf(d2).spawnInterval
    ensures SettingsOf(d1).speed > 0
  {
  }
}
