/** The per-user score store the game reads and writes, reduced to a map from
    user id to that user's document, and the write rule applied when a game
    ends. */
module HighScore {
  import opened Wrappers
  import Difficulty

  type UserId = string

  /** A user document: its `highestScore` field, possibly absent, and the
      other fields written at registration, which a field update keeps. */
  datatype UserDoc = UserDoc(highestScore: Option<int>, otherFields: map<string, string>)

  type Store = map<UserId, UserDoc>

  /** `userData.highestScore || 0`: a missing score reads as zero. */
  function StoredScore(d: UserDoc): int {
    d.highestScore.GetOr(0)
  }

  /** The document after `updateDoc(ref, { highestScore: v })`: the score
      field set, the other fields kept. */
  function WithScore(d: UserDoc, v: int): (r: UserDoc)
    ensures StoredScore(r) == v && r.otherFields == d.otherFields
  {
    d.(highestScore := Some(v))
  }

  /** Whether the end of a game writes: HARD difficulty, a signed-in user
      with an existing document, and a count above the stored one. */
  predicate GameEndWrites(difficulty: string, user: Option<UserId>, store: Store, destroyed: int) {
    && difficulty == Difficulty.Hard
    && user.Some? && user.value in store
    && destroyed > StoredScore(store[user.value])
  }

  /** The store after the play screen's end-of-game update: only the signed-in
      user's document can change, only on HARD, only upward, and to exactly
      the destroyed count. */
  function UpdateAfterGame(difficulty: string, user: Option<UserId>, store: Store, destroyed: int): (s: Store)
    ensures s.Keys == store.Keys
    ensures s != store <==> GameEndWrites(difficulty, user, store, destroyed)
    ensures forall u :: u in store && (user.None? || u != user.value) ==> s[u] == store[u]
    ensures forall u :: u in store ==> s[u].otherFields == store[u].otherFields
    ensures forall u :: u in store ==> StoredScore(s[u]) >= StoredScore(store[u])
    ensures GameEndWrites(difficulty, user, store, destroyed) ==> StoredScore(s[user.value]) == destroyed
  {
    if GameEndWrites(difficulty, user, store, destroyed) then
      var u := user.value;
      assert store[u].highestScore != Some(destroyed);
      store[u := WithScore(store[u], destroyed)]
    else store
  }
}
