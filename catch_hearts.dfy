/**
 * The catch-the-hearts game (src/components/CatchHeartsGame.tsx): hearts
 * appear once a second, clicking one catches it and scores a point, and ten
 * points end the game with a message.
 *
 * A heart's id (`Date.now()` in the source) and its horizontal position (a
 * random float) are opaque values supplied by the caller.
 */
module CatchHearts {
  const TARGET_SCORE: int := 10
  const WIN_MESSAGE: string := "You've caught all my love! \U{1F495} I love you so much!"

  datatype FallingHeart = FallingHeart(id: int, x: real, caught: bool)

  /** The component state. */
  datatype State = State(hearts: seq<FallingHeart>, score: int, gameStarted: bool, message: string)

  const Initial := State([], 0, false, "")

  /** The hearts with every heart of the given id marked caught. */
  function MarkCaught(hearts: seq<FallingHeart>, id: int): (r: seq<FallingHeart>)
    ensures |r| == |hearts|
    ensures forall i :: 0 <= i < |hearts| ==>
      && r[i].id == hearts[i].id && r[i].x == hearts[i].x
      && (r[i].caught <==> hearts[i].caught || hearts[i].id == id)
  {
    seq(|hearts|, i requires 0 <= i < |hearts| => if hearts[i].id == id then hearts[i].(caught := true) else hearts[i])
  }

  /**
   * catchHeart(id): the list keeps its length and order, hearts of that id
   * become caught and the others stay as they were; the score goes up by
   * one; reaching the target stops the game and shows the win message, and
   * below it the game goes on unchanged.
   */
  function CatchHeart(s: State, id: int): (s': State)
    ensures s'.hearts == MarkCaught(s.hearts, id)
    ensures s'.score == s.score + 1
    ensures s.score + 1 >= TARGET_SCORE ==> !s'.gameStarted && s'.message == WIN_MESSAGE
    ensures s.score + 1 < TARGET_SCORE ==> s'.gameStarted == s.gameStarted && s'.message == s.message
  {
    var hearts := MarkCaught(s.hearts, id);
    var newScore := s.score + 1;
    if newScore >= TARGET_SCORE then State(hearts, newScore, false, WIN_MESSAGE)
    else s.(hearts := hearts, score := newScore)
  }

  /** The click handler of the i-th heart: a caught heart ignores the click. */
  function ClickHeart(s: State, i: int): (s': State)
    requires 0 <= i < |s.hearts|
    ensures s.hearts[i].caught ==> s' == s
    ensures !s.hearts[i].caught ==> s' == CatchHeart(s, s.hearts[i].id)
  {
    if s.hearts[i].caught then s else CatchHeart(s, s.hearts[i].id)
  }

  /** createHeart: one uncaught heart appended at the end, the others untouched. */
  function CreateHeart(s: State, id: int, x: real): (s': State)
    ensures |s'.hearts| == |s.hearts| + 1 && s'.hearts[..|s.hearts|] == s.hearts
    ensures s'.hearts[|s.hearts|] == FallingHeart(id, x, false)
    ensures s'.score == s.score && s'.gameStarted == s.gameStarted && s'.message == s.message
  {
    s.(hearts := s.hearts + [FallingHeart(id, x, false)])
  }

  /** The Start Game button. */
  function StartGame(s: State): (s': State)
    ensures s'.gameStarted && s'.hearts == s.hearts && s'.score == s.score && s'.message == s.message
  {
    s.(gameStarted := true)
  }

  /** The Play Again button: nothing caught, nothing scored, no message, a game under way. */
  function PlayAgain(s: State): (s': State)
    ensures s'.hearts == [] && s'.score == 0 && s'.message == "" && s'.gameStarted
  {
    State([], 0, true, "")
  }

  // ---------------------------------------------------------------------------
  // The score counts the caught hearts
  // ---------------------------------------------------------------------------

  function CaughtCount(hearts: seq<FallingHeart>): nat
  {
    if hearts == [] then 0
    else CaughtCount(hearts[..|hearts| - 1]) + (if hearts[|hearts| - 1].caught then 1 else 0)
  }

  predicate DistinctIds(hearts: seq<FallingHeart>)
  {
    forall i, j :: 0 <= i < j < |hearts| ==> hearts[i].id != hearts[j].id
  }

  /**
   * While heart ids are distinct, the score is exactly the number of caught
   * hearts.
   */
  predicate Inv(s: State)
  {
    DistinctIds(s.hearts) && CaughtCount(s.hearts) == s.score
  }

  /** With distinct ids, catching the id of an uncaught heart catches exactly one more heart. */
  lemma {:induction false} MarkCaughtCountsOne(hearts: seq<FallingHeart>, i: int)
    requires DistinctIds(hearts) && 0 <= i < |hearts| && !hearts[i].caught
    ensures CaughtCount(MarkCaught(hearts, hearts[i].id)) == CaughtCount(hearts) + 1
    decreases |hearts|
  {
    var n := |hearts| - 1;
    var id := hearts[i].id;
    var r := MarkCaught(hearts, id);
    assert r[..n] == MarkCaught(hearts[..n], id);
    if i == n {
      MarkCaughtNoMatch(hearts[..n], id);
    } else {
      MarkCaughtCountsOne(hearts[..n], i);
      assert r[n] == hearts[n];
    }
  }

  /** Marking an id no heart carries changes nothing. */
  lemma MarkCaughtNoMatch(hearts: seq<FallingHeart>, id: int)
    requires forall k :: 0 <= k < |hearts| ==> hearts[k].id != id
    ensures MarkCaught(hearts, id) == hearts
  {
  }

  lemma CaughtCountAppend(hearts: seq<FallingHeart>, h: FallingHeart)
    ensures CaughtCount(hearts + [h]) == CaughtCount(hearts) + (if h.caught then 1 else 0)
  {
    assert (hearts + [h])[..|hearts|] == hearts;
  }

  lemma InitialInv()
    ensures Inv(Initial) && Inv(PlayAgain(Initial))
  {
  }

  /** A click keeps the score equal to the number of caught hearts. */
  lemma ClickPreservesInv(s: State, i: int)
    requires Inv(s) && 0 <= i < |s.hearts|
    ensures Inv(ClickHeart(s, i))
  {
    if !s.hearts[i].caught {
      MarkCaughtCountsOne(s.hearts, i);
    }
  }

  /** A heart with a fresh id keeps the invariant. */
  lemma CreatePreservesInv(s: State, id: int, x: real)
    requires Inv(s) && forall k :: 0 <= k < |s.hearts| ==> s.hearts[k].id != id
    ensures Inv(CreateHeart(s, id, x))
  {
    CaughtCountAppend(s.hearts, FallingHeart(id, x, false));
  }

  /** The catch that brings the score to the target ends the game with the win message. */
  lemma TenthCatchWins(s: State, i: int)
    requires s.score == TARGET_SCORE - 1 && 0 <= i < |s.hearts| && !s.hearts[i].caught
    ensures var s' := ClickHeart(s, i); s'.score == TARGET_SCORE && !s'.gameStarted && s'.message == WIN_MESSAGE
  {
  }
}
