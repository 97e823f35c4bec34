/** Tennis scoring between the agent and the bot: points within a set
    (0, 15, 30, 40, then 50 for a won set), the deuce rule at 40-40 where a
    set needs a two-ball lead, and the match that ends when one side has
    won two sets. The rally itself (positions, hits, randomness) is not part
    of this model: a rally is reduced to the side that wins it. */
module Tennis {

  /** One side's counters: balls won at 40-40, the point score of the
      current set, sets won, and the winner flag. */
  datatype Player = Player(ball: int, score: int, sets: int, winner: bool)

  /** The two sides: `a` is the agent, `b` the bot. */
  datatype Match = Match(a: Player, b: Player)

  /** Who won a rally. */
  datatype Side = AgentSide | BotSide

  /** The result of setIsDone: whether the set is still being played, and
      the state afterwards. */
  datatype SetCheck = SetCheck(inProgress: bool, after: Match)

  /** A player with every counter at zero and no win. */
  const Zero: Player := Player(0, 0, 0, false)

  /** The state at the start of a match. */
  const Start: Match := Match(Zero, Zero)

  /** The point ladder of a set. */
  predicate IsPoint(s: int) {
    s == 0 || s == 15 || s == 30 || s == 40 || s == 50
  }

  /** The next rung of the ladder, written as a table. */
  function NextPoint(s: int): (r: int)
    requires IsPoint(s) && s != 50
    ensures IsPoint(r) && r > s
  {
    match s
    case 0 => 15
    case 15 => 30
    case 30 => 40
    case 40 => 50
  }

  function Scorer(m: Match, side: Side): Player {
    if side == AgentSide then m.a else m.b
  }

  function Other(m: Match, side: Side): Player {
    if side == AgentSide then m.b else m.a
  }

  /** addScore: at 40-40 the rally only counts as a ball for its winner;
      otherwise the winner's score goes up by 15 below 30 and by 10 from 30
      on. The loser's counters, the sets and the winner flags never change. */
  function AddScore(m: Match, side: Side): (r: Match)
    ensures Other(r, side) == Other(m, side)
    ensures Scorer(r, side).sets == Scorer(m, side).sets
    ensures Scorer(r, side).winner == Scorer(m, side).winner
    ensures m.a.score == 40 && m.b.score == 40 ==>
      && Scorer(r, side).score == 40
      && Scorer(r, side).ball == Scorer(m, side).ball + 1
    ensures !(m.a.score == 40 && m.b.score == 40) ==>
      && Scorer(r, side).ball == Scorer(m, side).ball
      && Scorer(r, side).score - Scorer(m, side).score == (if Scorer(m, side).score < 30 then 15 else 10)
  {
    if m.a.score == 40 && m.b.score == 40 then
      if side == AgentSide then m.(a := m.a.(ball := m.a.ball + 1))
      else m.(b := m.b.(ball := m.b.ball + 1))
    else if side == AgentSide then
      if m.a.score >= 30 then m.(a := m.a.(score := m.a.score + 10))
      else m.(a := m.a.(score := m.a.score + 15))
    else
      if m.b.score >= 30 then m.(b := m.b.(score := m.b.score + 10))
      else m.(b := m.b.(score := m.b.score + 15))
  }

  /** A point won off 40-40 moves the scorer exactly one rung up the ladder. */
  lemma AddScoreClimbsLadder(m: Match, side: Side)
    requires IsPoint(Scorer(m, side).score) && Scorer(m, side).score != 50
    requires !(m.a.score == 40 && m.b.score == 40)
    ensures Scorer(AddScore(m, side), side).score == NextPoint(Scorer(m, side).score)
  {
  }

  /** Both sides back to zero points and zero balls, with one more set for
      the side that took it. */
  function AwardSet(m: Match, side: Side): (r: Match)
    ensures Scorer(r, side).sets == Scorer(m, side).sets + 1
    ensures Other(r, side).sets == Other(m, side).sets
    ensures r.a.score == 0 && r.b.score == 0 && r.a.ball == 0 && r.b.ball == 0
    ensures r.a.winner == m.a.winner && r.b.winner == m.b.winner
  {
    var a := Player(0, 0, m.a.sets + (if side == AgentSide then 1 else 0), m.a.winner);
    var b := Player(0, 0, m.b.sets + (if side == BotSide then 1 else 0), m.b.winner);
    Match(a, b)
  }

  /** setIsDone: true while the set goes on. A set goes to the side past 40
      while the other is below 40, or at 40-40 to the side two balls ahead;
      then both sides' points and balls are reset and the result is false.
      In every other case nothing changes. */
  function SetIsDone(m: Match): (r: SetCheck)
    ensures r.inProgress ==> r.after == m
    ensures !r.inProgress ==>
      && r.after.a.score == 0 && r.after.b.score == 0
      && r.after.a.ball == 0 && r.after.b.ball == 0
      && r.after.a.sets + r.after.b.sets == m.a.sets + m.b.sets + 1
      && r.after.a.winner == m.a.winner && r.after.b.winner == m.b.winner
    ensures m.a.score > 40 && m.b.score < 40 ==> !r.inProgress && r.after.a.sets == m.a.sets + 1
    ensures m.a.score < 40 && m.b.score > 40 ==> !r.inProgress && r.after.b.sets == m.b.sets + 1
    ensures m.a.score == 40 && m.b.score == 40 ==>
      && (r.inProgress <==> -2 < m.a.ball - m.b.ball < 2)
      && (m.a.ball - m.b.ball >= 2 ==> r.after.a.sets == m.a.sets + 1)
      && (m.b.ball - m.a.ball >= 2 ==> r.after.b.sets == m.b.sets + 1)
    ensures (!(m.a.score > 40 && m.b.score < 40) && !(m.a.score < 40 && m.b.score > 40) &&
             !(m.a.score == 40 && m.b.score == 40)) ==> r.inProgress
  {
    if m.a.score > 40 && m.b.score < 40 then SetCheck(false, AwardSet(m, AgentSide))
    else if m.a.score < 40 && m.b.score > 40 then SetCheck(false, AwardSet(m, BotSide))
    else if m.a.score == 40 && m.b.score == 40 && m.a.ball - m.b.ball >= 2 then
      SetCheck(false, AwardSet(m, AgentSide))
    else if m.a.score == 40 && m.b.score == 40 && m.b.ball - m.a.ball >= 2 then
      SetCheck(false, AwardSet(m, BotSide))
    else SetCheck(true, m)
  }

  /** hasWinner: the agent wins on two sets; failing that the bot wins on
      two sets; nothing else changes. */
  function HasWinner(m: Match): (r: Match)
    ensures r.a.winner == (m.a.winner || m.a.sets == 2)
    ensures r.b.winner == (m.b.winner || (m.a.sets != 2 && m.b.sets == 2))
    ensures r.a.(winner := m.a.winner) == m.a && r.b.(winner := m.b.winner) == m.b
  {
    if m.a.sets == 2 then m.(a := m.a.(winner := true))
    else if m.b.sets == 2 then m.(b := m.b.(winner := true))
    else m
  }

  // ---------------------------------------------------------------------
  // Reachable scores
  // ---------------------------------------------------------------------

  /** A set in play, as setIsDone leaves it when it returns true: points
      below 50, balls counted only at 40-40, and at 40-40 nobody two balls
      ahead. */
  ghost predicate Live(m: Match) {
    && IsPoint(m.a.score) && m.a.score != 50
    && IsPoint(m.b.score) && m.b.score != 50
    && (if m.a.score == 40 && m.b.score == 40 then
          m.a.ball >= 0 && m.b.ball >= 0 && -2 < m.a.ball - m.b.ball < 2
        else m.a.ball == 0 && m.b.ball == 0)
  }

  /** The state right after addScore from a live set: points on the ladder,
      a 50 only against an opponent below 40, balls as in a live set but
      possibly one ball further apart at 40-40. */
  ghost predicate Scored(m: Match) {
    && IsPoint(m.a.score) && IsPoint(m.b.score)
    && (m.a.score == 50 ==> m.b.score < 40)
    && (m.b.score == 50 ==> m.a.score < 40)
    && (if m.a.score == 40 && m.b.score == 40 then
          m.a.ball >= 0 && m.b.ball >= 0 && -3 < m.a.ball - m.b.ball < 3
        else m.a.ball == 0 && m.b.ball == 0)
  }

  lemma StartLive()
    ensures Live(Start)
  {
  }

  /** A point won in a live set lands on the ladder, never at 50 against 40. */
  lemma AddScoreScored(m: Match, side: Side)
    requires Live(m)
    ensures Scored(AddScore(m, side))
  {
  }

  /** After a point, setIsDone either awards the set (every 50 is consumed
      here) or hands back a live set unchanged. */
  lemma SetIsDoneLive(m: Match)
    requires Scored(m)
    ensures Live(SetIsDone(m).after)
    ensures SetIsDone(m).inProgress ==> m.a.score != 50 && m.b.score != 50
  {
  }

  // ---------------------------------------------------------------------
  // A match
  // ---------------------------------------------------------------------

  /** Sets and winner flags as the match loop keeps them: nobody past two
      sets, not both at two, and a winner flag exactly on two sets. */
  ghost predicate Tally(m: Match) {
    && 0 <= m.a.sets <= 2 && 0 <= m.b.sets <= 2
    && !(m.a.sets == 2 && m.b.sets == 2)
    && (m.a.winner <==> m.a.sets == 2)
    && (m.b.winner <==> m.b.sets == 2)
  }

  /** The match loop: sets are played until hasWinner flags a side; within
      a set, setIsDone is asked before every rally, and `rallies` says who
      wins each rally in turn. The match stops early only when the rallies
      run out. */
  method PlayMatch(rallies: seq<Side>) returns (m: Match, used: nat)
    ensures used <= |rallies|
    ensures Live(m) && Tally(m)
    ensures m.a.winner ==> !m.b.winner && m.a.sets == 2 && m.b.sets < 2
    ensures m.b.winner ==> !m.a.winner && m.b.sets == 2 && m.a.sets < 2
    ensures !m.a.winner && !m.b.winner ==> used == |rallies|
  {
    m := Start;
    used := 0;
    var out := false;
    while !m.a.winner && !m.b.winner && !out
      invariant used <= |rallies|
      invariant Live(m) && Tally(m)
      invariant out ==> used == |rallies|
      decreases if out then 0 else 5 - m.a.sets - m.b.sets
    {
      ghost var before := (m.a.sets, m.b.sets);
      SetIsDoneLive(m);
      var check := SetIsDone(m);
      m := check.after;
      var inProgress := check.inProgress;
      while inProgress
        invariant used <= |rallies|
        invariant Live(m)
        invariant !m.a.winner && !m.b.winner
        invariant inProgress ==> (m.a.sets, m.b.sets) == before
        invariant !inProgress ==> m.a.sets + m.b.sets == before.0 + before.1 + 1 && m.a.sets >= before.0 && m.b.sets >= before.1
        decreases |rallies| - used
      {
        if used == |rallies| {
          out := true;
          break;
        }
        var scored := AddScore(m, rallies[used]);
        AddScoreScored(m, rallies[used]);
        used := used + 1;
        SetIsDoneLive(scored);
        check := SetIsDone(scored);
        m := check.after;
        inProgress := check.inProgress;
      }
      if !out {
        m := HasWinner(m);
      }
    }
  }
}
