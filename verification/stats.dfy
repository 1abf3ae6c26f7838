/** The statistics engine (hitung_games_played and hitung_wlt): derived
    per-player statistics recomputed from scratch over the schedule. Only
    completed matches count. Games_Played counts each distinct participant of
    a match once; W, L and T are credited once per slot a player occupies,
    because hitung_wlt walks the team lists without removing repetitions. */
module Stats {
  import opened Types

  /** The derived statistics of one player: Games_Played, W, L and T. */
  datatype Tally = Tally(games: int, wins: int, losses: int, ties: int)

  const Zero: Tally := Tally(0, 0, 0, 0)

  function Plus(a: Tally, b: Tally): Tally {
    Tally(a.games + b.games, a.wins + b.wins, a.losses + b.losses, a.ties + b.ties)
  }

  /** How many of two slots refer to player `q`. */
  function Hits(q: nat, x: Slot, y: Slot): nat {
    (if x == Ref(q) then 1 else 0) + (if y == Ref(q) then 1 else 0)
  }

  /** What one schedule row adds to the statistics of player `q`: nothing
      unless the row is completed and `q` is registered; otherwise one game
      if `q` fills any slot, and one win, loss or tie per slot `q` fills,
      according to the comparison of the two scores. */
  function Contribution(q: nat, m: Match, ids: set<nat>): (r: Tally)
    ensures m.status != Completed || q !in ids ==> r == Zero
    ensures 0 <= r.games <= 1
    ensures m.status == Completed && q in ids ==>
              r.wins + r.losses + r.ties == Hits(q, m.t1a, m.t1b) + Hits(q, m.t2a, m.t2b)
  {
    if m.status != Completed || q !in ids then Zero
    else
      var c1 := Hits(q, m.t1a, m.t1b);
      var c2 := Hits(q, m.t2a, m.t2b);
      Tally(
        if c1 + c2 > 0 then 1 else 0,
        if m.score1 > m.score2 then c1 else if m.score2 > m.score1 then c2 else 0,
        if m.score1 > m.score2 then c2 else if m.score2 > m.score1 then c1 else 0,
        if m.score1 == m.score2 then c1 + c2 else 0)
  }

  /** The contribution as hitung_games_played and hitung_wlt phrase it: one
      game per distinct resolved participant, and per-entry credits over the
      resolved team lists, which drop bye and empty cells and players no
      longer registered but keep repetitions. */
  lemma ContributionOfResolvedTeams(q: nat, m: Match, ids: set<nat>)
    ensures m.status == Completed ==>
              var c1 := multiset(Team1(m, ids))[q];
              var c2 := multiset(Team2(m, ids))[q];
              var t := Contribution(q, m, ids);
              && t.games == (if q in Participants(m, ids) then 1 else 0)
              && t.wins == (if m.score1 > m.score2 then c1 else if m.score2 > m.score1 then c2 else 0)
              && t.losses == (if m.score1 > m.score2 then c2 else if m.score2 > m.score1 then c1 else 0)
              && t.ties == (if m.score1 == m.score2 then c1 + c2 else 0)
    ensures m.status != Completed ==> Contribution(q, m, ids) == Zero
  {
    if m.status == Completed {
      GamesOfParticipants(q, m, ids);
      TeamCounts(q, m, ids);
    }
  }

  lemma GamesOfParticipants(q: nat, m: Match, ids: set<nat>)
    requires m.status == Completed
    ensures Contribution(q, m, ids).games == if q in Participants(m, ids) then 1 else 0
  {
    GamesOncePerMatch(q, m, ids);
    ParticipantsBySlot(m, ids, q);
  }

  /** How often a player occurs in each resolved team list: once per slot of
      that team they fill, if registered. */
  lemma TeamCounts(q: nat, m: Match, ids: set<nat>)
    ensures multiset(Team1(m, ids))[q] == if q in ids then Hits(q, m.t1a, m.t1b) else 0
    ensures multiset(Team2(m, ids))[q] == if q in ids then Hits(q, m.t2a, m.t2b) else 0
  {
    HitsCount(q, m.t1a, m.t1b);
    HitsCount(q, m.t2a, m.t2b);
  }

  lemma HitsCount(q: nat, x: Slot, y: Slot)
    ensures Hits(q, x, y) == multiset([x, y])[Ref(q)]
  {
    assert [x, y] == [x] + [y];
  }

  /** Tallies added row after row, from zero. */
  function Sum(ts: seq<Tally>): Tally {
    if ts == [] then Zero else Plus(Sum(ts[..|ts| - 1]), ts[|ts| - 1])
  }

  /** What each schedule row adds to player `q`, row by row. */
  function Contributions(q: nat, ledger: seq<Match>, ids: set<nat>): (r: seq<Tally>)
    ensures |r| == |ledger|
  {
    seq(|ledger|, k requires 0 <= k < |ledger| => Contribution(q, ledger[k], ids))
  }

  /** The statistics of `q` after scanning the rows of `ledger` in order,
      starting from zero. */
  function TallyOf(q: nat, ledger: seq<Match>, ids: set<nat>): Tally {
    Sum(Contributions(q, ledger, ids))
  }

  /** Scanning one more row adds that row's contribution. */
  lemma TallyStep(q: nat, ledger: seq<Match>, m: Match, ids: set<nat>)
    ensures TallyOf(q, ledger + [m], ids) == Plus(TallyOf(q, ledger, ids), Contribution(q, m, ids))
  {
    var cs := Contributions(q, ledger + [m], ids);
    assert cs[..|cs| - 1] == Contributions(q, ledger, ids);
  }

  /** A registry row with its derived columns replaced by a tally, and
      Ranking_W_L = W - L. */
  function Refresh(p: Player, t: Tally): Player {
    p.(games := t.games, wins := t.wins, losses := t.losses, ties := t.ties, ranking := t.wins - t.losses)
  }

  /** The registry after both recomputations: every row keeps its id, name,
      Total_Poin and Total_Bye and takes its derived columns from the
      schedule. */
  function Recompute(players: seq<Player>, ledger: seq<Match>): (r: seq<Player>)
    ensures |r| == |players|
    ensures Ids(r) == Ids(players)
    ensures forall k :: 0 <= k < |r| ==>
              && r[k].id == players[k].id && r[k].name == players[k].name
              && r[k].points == players[k].points && r[k].byes == players[k].byes
              && r[k].ranking == r[k].wins - r[k].losses
  {
    var ids := Ids(players);
    var r := seq(|players|, k requires 0 <= k < |players| => Refresh(players[k], TallyOf(players[k].id, ledger, ids)));
    assert forall x :: x in Ids(r) ==> x in Ids(players) by {
      forall x | x in Ids(r) ensures x in Ids(players) {
        var k :| 0 <= k < |r| && r[k].id == x;
        assert players[k].id == x;
      }
    }
    assert forall x :: x in Ids(players) ==> x in Ids(r) by {
      forall x | x in Ids(players) ensures x in Ids(r) {
        var k :| 0 <= k < |players| && players[k].id == x;
        assert r[k].id == x;
      }
    }
    r
  }

  /** The registry's derived columns agree with the schedule. */
  predicate StatsFresh(players: seq<Player>, ledger: seq<Match>) {
    Recompute(players, ledger) == players
  }

  /** The source's scan, written as the loop it is: every derived column
      reset to zero, then each schedule row adds its credits to the columns
      accumulated so far, row by row of the registry. It computes exactly
      the recomputed registry. */
  method RecomputeByScan(players: seq<Player>, ledger: seq<Match>) returns (r: seq<Player>)
    ensures r == Recompute(players, ledger)
  {
    var ids := Ids(players);
    r := seq(|players|, k requires 0 <= k < |players| => Refresh(players[k], Zero));
    var i := 0;
    while i < |ledger|
      invariant 0 <= i <= |ledger|
      invariant |r| == |players|
      invariant forall k :: 0 <= k < |r| ==> r[k] == Refresh(players[k], TallyOf(players[k].id, ledger[..i], ids))
    {
      var m := ledger[i];
      assert ledger[..i + 1] == ledger[..i] + [m];
      forall k | 0 <= k < |r| {
        TallyStep(players[k].id, ledger[..i], m, ids);
      }
      r := seq(|r|, k requires 0 <= k < |r| =>
             Refresh(r[k], Plus(Tally(r[k].games, r[k].wins, r[k].losses, r[k].ties), Contribution(r[k].id, m, ids))));
      i := i + 1;
    }
    assert ledger[..i] == ledger;
  }

  lemma {:induction false} SumAppend(a: seq<Tally>, b: seq<Tally>)
    ensures Sum(a + b) == Plus(Sum(a), Sum(b))
    decreases |b|
  {
    if b == [] {
      assert a + b == a;
    } else {
      var b' := b[..|b| - 1];
      assert (a + b)[..|a + b| - 1] == a + b';
      assert (a + b)[|a + b| - 1] == b[|b| - 1];
      SumAppend(a, b');
    }
  }

  /** Scanning two stretches of the schedule one after the other adds their
      tallies. */
  lemma TallyAppend(q: nat, a: seq<Match>, b: seq<Match>, ids: set<nat>)
    ensures TallyOf(q, a + b, ids) == Plus(TallyOf(q, a, ids), TallyOf(q, b, ids))
  {
    var ca := Contributions(q, a, ids);
    var cb := Contributions(q, b, ids);
    var cab := Contributions(q, a + b, ids);
    forall k | 0 <= k < |cab| ensures cab[k] == (ca + cb)[k] {
      if k < |a| {
        assert (a + b)[k] == a[k];
      } else {
        assert (a + b)[k] == b[k - |a|];
      }
    }
    assert cab == ca + cb;
    SumAppend(ca, cb);
  }

  lemma CancelOne<T>(a: seq<T>, b1: seq<T>, x: T, b2: seq<T>)
    requires multiset(a + [x]) == multiset(b1 + [x] + b2)
    ensures multiset(a) == multiset(b1 + b2)
  {
    calc {
      multiset(a);
      multiset(a + [x]) - multiset{x};
      multiset(b1 + [x] + b2) - multiset{x};
      { assert multiset(b1 + [x] + b2) == multiset(b1 + b2) + multiset{x}; }
      multiset(b1 + b2);
    }
  }

  /** Row order does not matter: any rearrangement of the schedule yields the
      same statistics. */
  lemma {:induction false} TallyPermutation(q: nat, a: seq<Match>, b: seq<Match>, ids: set<nat>)
    requires multiset(a) == multiset(b)
    ensures TallyOf(q, a, ids) == TallyOf(q, b, ids)
    decreases |a|
  {
    if a == [] {
      assert |b| == |multiset(b)| == 0;
    } else {
      var x := a[|a| - 1];
      var a' := a[..|a| - 1];
      assert a == a' + [x];
      assert x in multiset(b);
      var j :| 0 <= j < |b| && b[j] == x;
      var b1 := b[..j];
      var b2 := b[j + 1..];
      assert b == b1 + [x] + b2;
      CancelOne(a', b1, x, b2);
      TallyPermutation(q, a', b1 + b2, ids);
      TallyStep(q, a', x, ids);
      TallyAppend(q, b1, b2, ids);
      TallyAppend(q, b1 + [x], b2, ids);
      TallyStep(q, b1, x, ids);
    }
  }

  /** Only membership in the registry matters to a player's statistics. */
  lemma TallyDependsOnMembership(q: nat, ledger: seq<Match>, ids1: set<nat>, ids2: set<nat>)
    requires q in ids1 <==> q in ids2
    ensures TallyOf(q, ledger, ids1) == TallyOf(q, ledger, ids2)
  {
    assert Contributions(q, ledger, ids1) == Contributions(q, ledger, ids2);
  }

  /** Recomputation reads only ids, names, Total_Poin and Total_Bye: two
      registries that agree on those, row by row, recompute to the same
      registry. */
  lemma RecomputeReadsRecordedColumns(a: seq<Player>, b: seq<Player>, ledger: seq<Match>)
    requires |a| == |b|
    requires forall k :: 0 <= k < |a| ==>
               a[k].id == b[k].id && a[k].name == b[k].name && a[k].points == b[k].points && a[k].byes == b[k].byes
    ensures Recompute(a, ledger) == Recompute(b, ledger)
  {
    assert Ids(a) == Ids(b) by {
      forall x ensures x in Ids(a) <==> x in Ids(b) {
        if x in Ids(a) {
          var k :| 0 <= k < |a| && a[k].id == x;
          assert b[k].id == x;
        }
        if x in Ids(b) {
          var k :| 0 <= k < |b| && b[k].id == x;
          assert a[k].id == x;
        }
      }
    }
  }

  /** Idempotent recomputation: recomputing an unchanged schedule twice gives
      the same registry as recomputing it once. */
  lemma RecomputeIdempotent(players: seq<Player>, ledger: seq<Match>)
    ensures StatsFresh(Recompute(players, ledger), ledger)
  {
    RecomputeReadsRecordedColumns(Recompute(players, ledger), players, ledger);
  }

  /** A completed match credits Games_Played exactly once to every registered
      player named in at least one of its slots, however many slots name
      them; scheduled matches, bye and empty slots and unregistered ids add
      nothing. */
  lemma GamesOncePerMatch(q: nat, m: Match, ids: set<nat>)
    ensures Contribution(q, m, ids).games ==
              if m.status == Completed && q in ids && Ref(q) in Slots(m) then 1 else 0
  {
    assert Ref(q) in Slots(m) <==> Hits(q, m.t1a, m.t1b) + Hits(q, m.t2a, m.t2b) > 0;
  }

  /** W/L/T of one completed match, in terms of the slots: a strictly higher
      team-1 score gives each team-1 slot of `q` a win and each team-2 slot a
      loss, symmetrically for team 2, and equal scores give each slot a tie. */
  lemma WinLossTieOfMatch(q: nat, m: Match, ids: set<nat>)
    requires q in ids
    ensures var t := Contribution(q, m, ids);
            var c1 := Hits(q, m.t1a, m.t1b);
            var c2 := Hits(q, m.t2a, m.t2b);
            && (m.status != Completed ==> t == Zero)
            && (m.status == Completed && m.score1 > m.score2 ==> t.wins == c1 && t.losses == c2 && t.ties == 0)
            && (m.status == Completed && m.score2 > m.score1 ==> t.wins == c2 && t.losses == c1 && t.ties == 0)
            && (m.status == Completed && m.score1 == m.score2 ==> t.wins == 0 && t.losses == 0 && t.ties == c1 + c2)
  {
  }

  /** No player named twice in one match. Every row the generator appends
      satisfies this (Rounds.GeneratedRowsNoRepeat); a row edited by hand
      need not. */
  predicate NoRepeatedPlayer(m: Match) {
    forall i, j :: 0 <= i < j < 4 && Slots(m)[i].Ref? ==> Slots(m)[i] != Slots(m)[j]
  }

  lemma OccupiesAtMostOnce(q: nat, m: Match)
    requires NoRepeatedPlayer(m)
    ensures Hits(q, m.t1a, m.t1b) + Hits(q, m.t2a, m.t2b) <= 1
  {
    var s := Slots(m);
    assert s[0] == m.t1a && s[1] == m.t1b && s[2] == m.t2a && s[3] == m.t2b;
  }

  /** When no match names a player twice, every counted game ends in exactly
      one of a win, a loss or a tie: W + L + T = Games_Played. */
  lemma {:induction false} BalancedTally(q: nat, ledger: seq<Match>, ids: set<nat>)
    requires q in ids
    requires forall k :: 0 <= k < |ledger| ==> NoRepeatedPlayer(ledger[k])
    ensures var t := TallyOf(q, ledger, ids); t.wins + t.losses + t.ties == t.games
    decreases |ledger|
  {
    if ledger != [] {
      var l' := ledger[..|ledger| - 1];
      var m := ledger[|ledger| - 1];
      assert ledger == l' + [m];
      BalancedTally(q, l', ids);
      TallyStep(q, l', m, ids);
      WinLossTieOfMatch(q, m, ids);
      GamesOncePerMatch(q, m, ids);
      OccupiesAtMostOnce(q, m);
    }
  }

  /** The counting asymmetry on a malformed row: a player written into both
      team-1 slots of a won match gets one game but two wins. */
  lemma RepeatedSlotCountsTwiceForWins(p: nat, m: Match, ids: set<nat>)
    requires p in ids && m.status == Completed && m.score1 > m.score2
    requires m.t1a == Ref(p) && m.t1b == Ref(p) && m.t2a != Ref(p) && m.t2b != Ref(p)
    ensures TallyOf(p, [m], ids) == Tally(1, 2, 0, 0)
  {
    TallyOfOne(p, m, ids);
    assert Hits(p, m.t1a, m.t1b) == 2 && Hits(p, m.t2a, m.t2b) == 0;
  }

  /** A one-row schedule credits exactly that row's contribution. */
  lemma TallyOfOne(q: nat, m: Match, ids: set<nat>)
    ensures TallyOf(q, [m], ids) == Contribution(q, m, ids)
  {
    var c := Contribution(q, m, ids);
    assert Contributions(q, [m], ids) == [c];
    SumOne(c);
  }

  lemma SumOne(t: Tally)
    ensures Sum([t]) == t
  {
    assert [t][..0] == [];
  }

  /** The points a row credits to player `q`: once it is completed, its
      team-1 score for each team-1 cell `q` fills and its team-2 score for
      each team-2 cell; nothing before that. */
  function Earned(q: nat, m: Match): int {
    if m.status == Completed then Hits(q, m.t1a, m.t1b) * m.score1 + Hits(q, m.t2a, m.t2b) * m.score2 else 0
  }

  /** The points the whole schedule credits to player `q`. */
  function EarnedOf(q: nat, ledger: seq<Match>): int {
    if ledger == [] then 0 else Earned(q, ledger[0]) + EarnedOf(q, ledger[1..])
  }

  /** Total_Poin is the cumulative score: every registry row holds exactly
      the points the schedule credits to its player. */
  predicate PointsFresh(players: seq<Player>, ledger: seq<Match>) {
    forall k :: 0 <= k < |players| ==> players[k].points == EarnedOf(players[k].id, ledger)
  }

  /** Replacing one row changes a player's points by the difference between
      what the new row and the old row credit them. */
  lemma {:induction false} EarnedUpdate(q: nat, ledger: seq<Match>, i: nat, m: Match)
    requires i < |ledger|
    ensures EarnedOf(q, ledger[i := m]) == EarnedOf(q, ledger) - Earned(q, ledger[i]) + Earned(q, m)
    decreases |ledger|
  {
    if i > 0 {
      EarnedUpdate(q, ledger[1..], i - 1, m);
      assert ledger[i := m][1..] == ledger[1..][i - 1 := m];
    } else {
      assert ledger[i := m][1..] == ledger[1..];
    }
  }

  /** The points over two stretches of the schedule add. */
  lemma {:induction false} EarnedAppend(q: nat, a: seq<Match>, b: seq<Match>)
    ensures EarnedOf(q, a + b) == EarnedOf(q, a) + EarnedOf(q, b)
    decreases |a|
  {
    if a == [] {
      assert a + b == b;
    } else {
      assert (a + b)[1..] == a[1..] + b;
      EarnedAppend(q, a[1..], b);
    }
  }

  /** Rows that each credit `q` nothing credit `q` nothing together. */
  lemma {:induction false} EarnedZero(q: nat, ms: seq<Match>)
    requires forall k :: 0 <= k < |ms| ==> Earned(q, ms[k]) == 0
    ensures EarnedOf(q, ms) == 0
    decreases |ms|
  {
    if ms != [] {
      EarnedZero(q, ms[1..]);
    }
  }

  /** The empty tournament's points agree with its empty schedule. */
  lemma InitialPointsFresh()
    ensures PointsFresh(Initial().players, Initial().ledger)
  {
  }
}
