/** The results screen: what it receives from the play screen and how it
    reconciles the final count with the stored best score. */
module Finish {
  import opened Wrappers
  import Difficulty
  import opened HighScore

  /** The navigation state handed from the play screen to the results screen. */
  datatype Handoff = Handoff(destroyed: int, difficulty: string)

  /** `location.state || { asteroidsDestroyed: 0, difficulty: 'EASY' }`. */
  function Received(state: Option<Handoff>): (h: Handoff)
    ensures state.None? ==> h.destroyed == 0 && h.difficulty == Difficulty.Easy
    ensures state.Some? ==> h == state.value
  {
    state.GetOr(Handoff(0, Difficulty.Easy))
  }

  /** The store after the results screen ran, and the best score it shows
      (none when nobody is signed in: the screen does not look the user up). */
  datatype Outcome = Outcome(store: Store, shown: Option<int>)

  /** The results screen's reconciliation of the final count with the store.
      - no user: nothing read or written, nothing shown;
      - existing document: on HARD with a higher count the score field is
        updated and the count shown; otherwise nothing is written and the
        stored score (missing reads as zero) is shown;
      - no document: one is created holding the count as score, on any
        difficulty, and the count is shown. */
  function Reconcile(user: Option<UserId>, store: Store, h: Handoff): (o: Outcome)
    ensures user.None? ==> o == Outcome(store, None)
    ensures user.Some? ==> o.shown.Some?
    ensures o.store.Keys == store.Keys + (if user.Some? then {user.value} else {})
    ensures forall u :: u in store && (user.None? || u != user.value) ==> o.store[u] == store[u]
    ensures user.Some? && user.value in store ==>
      && o.store[user.value].otherFields == store[user.value].otherFields
      && StoredScore(o.store[user.value]) >= StoredScore(store[user.value])
      && (o.store != store <==> h.difficulty == Difficulty.Hard && h.destroyed > StoredScore(store[user.value]))
      && o.shown.value == StoredScore(o.store[user.value])
    ensures user.Some? && user.value !in store ==>
      o.store[user.value] == UserDoc(Some(h.destroyed), map[]) && o.shown == Some(h.destroyed)
  {
    match user
    case None => Outcome(store, None)
    case Some(u) =>
      if u in store then
        var current := StoredScore(store[u]);
        if h.difficulty == Difficulty.Hard && h.destroyed > current then
          assert store[u].highestScore != Some(h.destroyed);
          Outcome(store[u := WithScore(store[u], h.destroyed)], Some(h.destroyed))
        else Outcome(store, Some(current))
      else Outcome(store[u := UserDoc(Some(h.destroyed), map[])], Some(h.destroyed))
  }

  /** On HARD the screen shows the better of the stored score and the count. */
  lemma ShowsBestOnHard(u: UserId, store: Store, destroyed: int)
    requires u in store
    ensures var o := Reconcile(Some(u), store, Handoff(destroyed, Difficulty.Hard));
      o.shown == Some(if destroyed > StoredScore(store[u]) then destroyed else StoredScore(store[u]))
  {
  }

  /** Replaying the reconciliation changes nothing: it is idempotent. */
  lemma ReconcileIdempotent(user: Option<UserId>, store: Store, h: Handoff)
    ensures var o := Reconcile(user, store, h);
      Reconcile(user, o.store, h) == o
  {
  }

  /** The results screen after the play screen's own end-of-game update
      writes nothing more when the user's document exists, and shows the
      score the play screen left in the store. */
  lemma NoSecondWrite(difficulty: string, u: UserId, store: Store, destroyed: int)
    requires u in store
    ensures var s := UpdateAfterGame(difficulty, Some(u), store, destroyed);
      Reconcile(Some(u), s, Handoff(destroyed, difficulty)) == Outcome(s, Some(StoredScore(s[u])))
  {
  }
}
