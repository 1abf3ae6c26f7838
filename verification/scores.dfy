/** The score recorder (`input_skor`): validates a submitted result, writes
    it into the schedule, moves Total_Poin by the difference between the
    new result and any result recorded before, and recomputes the derived
    statistics from the whole schedule. */
module Scores {
  import opened Types
  import opened Stats

  /** The position of the first schedule row with match id `id`. */
  function FindMatch(ledger: seq<Match>, id: nat, from: nat): (r: Option<nat>)
    requires from <= |ledger|
    ensures r.Some? ==> from <= r.value < |ledger| && ledger[r.value].id == id
                        && forall j :: from <= j < r.value ==> ledger[j].id != id
    ensures r.None? ==> forall j :: from <= j < |ledger| ==> ledger[j].id != id
    decreases |ledger| - from
  {
    if from == |ledger| then None
    else if ledger[from].id == id then Some(from)
    else FindMatch(ledger, id, from + 1)
  }

  /** Two schedules with the same match ids in the same rows are searched
      alike. */
  lemma {:induction false} FindMatchReadsIds(a: seq<Match>, b: seq<Match>, id: nat, from: nat)
    requires |a| == |b| && from <= |a|
    requires forall k :: 0 <= k < |a| ==> a[k].id == b[k].id
    ensures FindMatch(a, id, from) == FindMatch(b, id, from)
    decreases |a| - from
  {
    if from < |a| && a[from].id != id {
      FindMatchReadsIds(a, b, id, from + 1);
    }
  }

  /** The first row holding an id is the one the search finds. */
  lemma FindMatchFirst(ledger: seq<Match>, id: nat, i: nat)
    requires i < |ledger| && ledger[i].id == id
    requires forall j :: 0 <= j < i ==> ledger[j].id != id
    ensures FindMatch(ledger, id, 0) == Some(i)
  {
  }

  /** Total_Poin of every registry row raised by `score1` for each team-1
      slot and by `score2` for each team-2 slot of `m` the player fills. */
  function Deposit(players: seq<Player>, m: Match, score1: int, score2: int): (r: seq<Player>)
    ensures |r| == |players|
    ensures forall k :: 0 <= k < |r| ==>
              r[k] == players[k].(points := players[k].points
                                   + Hits(players[k].id, m.t1a, m.t1b) * score1
                                   + Hits(players[k].id, m.t2a, m.t2b) * score2)
  {
    seq(|players|, k requires 0 <= k < |players| =>
      var p := players[k];
      p.(points := p.points + Hits(p.id, m.t1a, m.t1b) * score1 + Hits(p.id, m.t2a, m.t2b) * score2))
  }

  /** Total_Poin of every registry row lowered by the scores of `m`, once
      per slot the player fills. */
  function Withdraw(players: seq<Player>, m: Match): (r: seq<Player>)
    ensures |r| == |players|
    ensures forall k :: 0 <= k < |r| ==>
              r[k] == players[k].(points := players[k].points
                                   - Hits(players[k].id, m.t1a, m.t1b) * m.score1
                                   - Hits(players[k].id, m.t2a, m.t2b) * m.score2)
  {
    seq(|players|, k requires 0 <= k < |players| =>
      var p := players[k];
      p.(points := p.points - Hits(p.id, m.t1a, m.t1b) * m.score1 - Hits(p.id, m.t2a, m.t2b) * m.score2))
  }

  /** The result of submitting scores for a match that exists: the row
      completed with the new scores. */
  function Completing(m: Match, score1: int, score2: int): Match {
    m.(score1 := score1, score2 := score2, status := Completed)
  }

  /** Recording a result. Negative scores and unknown match ids leave the
      state unchanged. Otherwise the first row with that id gets the scores
      and status Completed; if it was already completed, its old scores are
      first taken back out of Total_Poin of its resolved players, then the
      new scores are added; finally the derived statistics are recomputed
      over the updated schedule. */
  function RecordScore(s: State, matchId: nat, score1: int, score2: int): (r: State)
    ensures score1 < 0 || score2 < 0 ==> r == s
    ensures r.round == s.round && r.nextPlayerId == s.nextPlayerId && r.nextMatchId == s.nextMatchId
    ensures |r.ledger| == |s.ledger| && |r.players| == |s.players|
    ensures forall k :: 0 <= k < |r.ledger| ==> r.ledger[k].id == s.ledger[k].id && Slots(r.ledger[k]) == Slots(s.ledger[k])
  {
    if score1 < 0 || score2 < 0 then s
    else
      match FindMatch(s.ledger, matchId, 0)
      case None => s
      case Some(i) =>
        var m := s.ledger[i];
        var ledger := s.ledger[i := Completing(m, score1, score2)];
        var withdrawn := if m.status == Completed then Withdraw(s.players, m) else s.players;
        var deposited := Deposit(withdrawn, m, score1, score2);
        s.(players := Recompute(deposited, ledger), ledger := ledger)
  }

  /** Submissions with a negative score, or for a match id not in the
      schedule, change nothing. */
  lemma RecordScoreRejects(s: State, matchId: nat, score1: int, score2: int)
    requires score1 < 0 || score2 < 0 || forall k :: 0 <= k < |s.ledger| ==> s.ledger[k].id != matchId
    ensures RecordScore(s, matchId, score1, score2) == s
  {
  }

  /** An accepted submission completes the first row with that id with the
      new scores and touches no other row; Total_Poin of each player moves by
      the new scores minus the previously recorded ones (if any), once per
      slot they fill; the derived statistics agree with the new schedule;
      and the counters and the round are unchanged. */
  lemma RecordScoreEffect(s: State, matchId: nat, score1: int, score2: int, i: nat)
    requires 0 <= score1 && 0 <= score2
    requires i < |s.ledger| && s.ledger[i].id == matchId
    requires forall j :: 0 <= j < i ==> s.ledger[j].id != matchId
    ensures var r := RecordScore(s, matchId, score1, score2);
            var m := s.ledger[i];
            && r.ledger == s.ledger[i := Completing(m, score1, score2)]
            && r.round == s.round && r.nextPlayerId == s.nextPlayerId && r.nextMatchId == s.nextMatchId
            && |r.players| == |s.players|
            && StatsFresh(r.players, r.ledger)
            && forall k :: 0 <= k < |s.players| ==>
                 var p := s.players[k];
                 var c1 := Hits(p.id, m.t1a, m.t1b);
                 var c2 := Hits(p.id, m.t2a, m.t2b);
                 && r.players[k].id == p.id && r.players[k].name == p.name && r.players[k].byes == p.byes
                 && r.players[k].points ==
                      p.points + c1 * score1 + c2 * score2
                      - (if m.status == Completed then c1 * m.score1 + c2 * m.score2 else 0)
  {
    FindMatchFirst(s.ledger, matchId, i);
    var m := s.ledger[i];
    var ledger := s.ledger[i := Completing(m, score1, score2)];
    var withdrawn := if m.status == Completed then Withdraw(s.players, m) else s.players;
    var deposited := Deposit(withdrawn, m, score1, score2);
    var r := RecordScore(s, matchId, score1, score2);
    assert r == s.(players := Recompute(deposited, ledger), ledger := ledger);
    RecomputeIdempotent(deposited, ledger);
  }

  /** Taking a completed match's result back out after putting a result
      in, then putting a second result in, moves Total_Poin exactly as
      putting only the second result in does. */
  lemma DepositWithdrawDeposit(w: seq<Player>, m: Match, a1: int, a2: int, b1: int, b2: int)
    ensures var m1 := Completing(m, a1, a2);
            var d2 := Deposit(Withdraw(Deposit(w, m, a1, a2), m1), m1, b1, b2);
            var d := Deposit(w, m, b1, b2);
            |d2| == |d| && forall k :: 0 <= k < |d| ==> d2[k] == d[k]
  {
    var m1 := Completing(m, a1, a2);
    var d1 := Deposit(w, m, a1, a2);
    var w2 := Withdraw(d1, m1);
    var d2 := Deposit(w2, m1, b1, b2);
    var d := Deposit(w, m, b1, b2);
    forall k | 0 <= k < |d| ensures d2[k] == d[k] {
      var c1 := Hits(w[k].id, m.t1a, m.t1b);
      var c2 := Hits(w[k].id, m.t2a, m.t2b);
      assert d1[k].points == w[k].points + c1 * a1 + c2 * a2;
      assert w2[k].points == d1[k].points - c1 * a1 - c2 * a2;
    }
  }

  /** An accepted submission spelled out: the row found, its old result
      withdrawn if it had one, the new one deposited, statistics recomputed. */
  lemma RecordScoreUnfold(s: State, matchId: nat, score1: int, score2: int, i: nat)
    requires 0 <= score1 && 0 <= score2
    requires FindMatch(s.ledger, matchId, 0) == Some(i)
    ensures var m := s.ledger[i];
            var ledger := s.ledger[i := Completing(m, score1, score2)];
            var withdrawn := if m.status == Completed then Withdraw(s.players, m) else s.players;
            RecordScore(s, matchId, score1, score2)
              == s.(players := Recompute(Deposit(withdrawn, m, score1, score2), ledger), ledger := ledger)
  {
  }

  /** The registry side of a correction: recomputing after the first
      result, withdrawing it and depositing the second gives the registry
      that depositing only the second result gives. */
  lemma CorrectionRegistry(w: seq<Player>, m: Match, l1: seq<Match>, l2: seq<Match>,
                           a1: int, a2: int, b1: int, b2: int)
    ensures var m1 := Completing(m, a1, a2);
            Recompute(Deposit(Withdraw(Recompute(Deposit(w, m, a1, a2), l1), m1), m1, b1, b2), l2)
              == Recompute(Deposit(w, m, b1, b2), l2)
  {
    var m1 := Completing(m, a1, a2);
    var d1 := Deposit(w, m, a1, a2);
    var r1 := Recompute(d1, l1);
    var d2 := Deposit(Withdraw(r1, m1), m1, b1, b2);
    var e := Deposit(Withdraw(d1, m1), m1, b1, b2);
    var d := Deposit(w, m, b1, b2);
    DepositWithdrawDeposit(w, m, a1, a2, b1, b2);
    forall k | 0 <= k < |d|
      ensures d2[k].id == d[k].id && d2[k].name == d[k].name && d2[k].points == d[k].points && d2[k].byes == d[k].byes
    {
      assert r1[k].id == d1[k].id && r1[k].points == d1[k].points;
      assert d2[k].points == e[k].points;
    }
    RecomputeReadsRecordedColumns(d2, d, l2);
  }

  /** Correcting a result: recording A and then B for the same match leaves
      exactly the state that recording B alone would have left, so
      Total_Poin reflects only the latest submission. */
  lemma RecordScoreCorrection(s: State, matchId: nat, a1: int, a2: int, b1: int, b2: int)
    requires 0 <= b1 && 0 <= b2
    ensures RecordScore(RecordScore(s, matchId, a1, a2), matchId, b1, b2) == RecordScore(s, matchId, b1, b2)
  {
    if a1 >= 0 && a2 >= 0 && FindMatch(s.ledger, matchId, 0).Some? {
      var i := FindMatch(s.ledger, matchId, 0).value;
      var m := s.ledger[i];
      var m1 := Completing(m, a1, a2);
      var l1 := s.ledger[i := m1];
      var w1 := if m.status == Completed then Withdraw(s.players, m) else s.players;
      RecordScoreUnfold(s, matchId, a1, a2, i);
      var s1 := s.(players := Recompute(Deposit(w1, m, a1, a2), l1), ledger := l1);
      FindMatchReadsIds(s.ledger, l1, matchId, 0);
      RecordScoreUnfold(s1, matchId, b1, b2, i);
      RecordScoreUnfold(s, matchId, b1, b2, i);
      var l2 := s.ledger[i := Completing(m, b1, b2)];
      assert l1[i := Completing(m1, b1, b2)] == l2;
      CorrectionRegistry(w1, m, l1, l2, a1, a2, b1, b2);
    }
  }

  /** Recording a result keeps the state invariant. */
  lemma RecordScoreValid(s: State, matchId: nat, score1: int, score2: int)
    requires Valid(s)
    ensures Valid(RecordScore(s, matchId, score1, score2))
  {
    if 0 <= score1 && 0 <= score2 && FindMatch(s.ledger, matchId, 0).Some? {
      var i := FindMatch(s.ledger, matchId, 0).value;
      RecordScoreUnfold(s, matchId, score1, score2, i);
      RescoredValid(s, RecordScore(s, matchId, score1, score2), i, Completing(s.ledger[i], score1, score2));
    }
  }

  /** Replacing one schedule row by a row with the same id, round and slots,
      and keeping the registry's ids and the counters, keeps the invariant. */
  lemma RescoredValid(s: State, t: State, i: nat, m: Match)
    requires Valid(s) && i < |s.ledger|
    requires m.id == s.ledger[i].id && m.round == s.ledger[i].round
    requires m.t1a == s.ledger[i].t1a && m.t1b == s.ledger[i].t1b && m.t2a == s.ledger[i].t2a && m.t2b == s.ledger[i].t2b
    requires t.ledger == s.ledger[i := m]
    requires t.round == s.round && t.nextPlayerId == s.nextPlayerId && t.nextMatchId == s.nextMatchId
    requires |t.players| == |s.players| && forall k :: 0 <= k < |t.players| ==> t.players[k].id == s.players[k].id
    ensures Valid(t)
  {
    assert Slots(m) == Slots(s.ledger[i]);
    assert RefsBelow(s.ledger[i], s.nextPlayerId);
  }

  /** Recording a result keeps Total_Poin equal to the cumulative score:
      withdrawing the old result and depositing the new one moves each
      player's points exactly as replacing the row moves what the schedule
      credits them. */
  lemma RecordScoreKeepsPointsFresh(s: State, matchId: nat, score1: int, score2: int)
    requires PointsFresh(s.players, s.ledger)
    ensures var r := RecordScore(s, matchId, score1, score2);
            PointsFresh(r.players, r.ledger)
  {
    if 0 <= score1 && 0 <= score2 && FindMatch(s.ledger, matchId, 0).Some? {
      var i := FindMatch(s.ledger, matchId, 0).value;
      var r := RecordScore(s, matchId, score1, score2);
      RecordScoreEffect(s, matchId, score1, score2, i);
      var m := Completing(s.ledger[i], score1, score2);
      forall k | 0 <= k < |r.players| ensures r.players[k].points == EarnedOf(r.players[k].id, r.ledger) {
        EarnedUpdate(s.players[k].id, s.ledger, i, m);
      }
    }
  }
}
