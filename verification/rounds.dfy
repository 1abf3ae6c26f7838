/** The round generator (`generasi_jadwal`): orders the players, lets one
    sit out when their number is odd, refuses to go on while a match of the
    schedule is still to be played, and otherwise pairs the rest greedily
    and appends the new round to the schedule.

    The random choices of the source, the first round's shuffle and the
    side each pair's first player takes, are inputs: `perm` and `flips`. */
module Rounds {
  import opened Types
  import opened Stats
  import opened Priority
  import opened Pairing

  datatype Verdict = Generated | IncompleteRound

  /** The new state and whether the request was accepted. */
  datatype Step = Step(state: State, verdict: Verdict)

  /** The registry as the generator reads it: stored Total_Poin and
      Total_Bye, with W/L/T, Ranking_W_L and Games_Played recomputed from
      the schedule. */
  function View(s: State): (r: seq<Player>)
    ensures |r| == |s.players|
    ensures forall k :: 0 <= k < |r| ==> r[k].id == s.players[k].id && r[k].byes == s.players[k].byes
  {
    Recompute(s.players, s.ledger)
  }

  function IdsOf(xs: seq<Player>): (r: seq<nat>)
    ensures |r| == |xs| && forall k :: 0 <= k < |r| ==> r[k] == xs[k].id
  {
    seq(|xs|, k requires 0 <= k < |xs| => xs[k].id)
  }

  predicate AllCompleted(ledger: seq<Match>) {
    forall k :: 0 <= k < |ledger| ==> ledger[k].status == Completed
  }

  /** What the generator may be asked: a registry with unique ids, a
      shuffle of the right size for the first round, and a side choice for
      every pair. */
  predicate Generable(s: State, perm: seq<nat>, flips: seq<bool>) {
    && IdsIncreasing(s.players)
    && (s.round == 0 ==> IsShuffle(perm, |s.players|))
    && |flips| >= |s.players| / 2
  }

  lemma ViewDistinct(s: State)
    requires IdsIncreasing(s.players)
    ensures DistinctIds(View(s))
  {
  }

  /** The order the players are walked in. */
  function Walk(s: State, perm: seq<nat>): (r: seq<Player>)
    requires IdsIncreasing(s.players) && (s.round == 0 ==> IsShuffle(perm, |s.players|))
    ensures |r| == |s.players| && DistinctIds(r)
    ensures forall p :: p in r <==> p in View(s)
  {
    ViewDistinct(s);
    Order(View(s), s.round, perm)
  }

  /** From the second round on the walk is the ladder order of the
      players, and it is the only arrangement of them in ladder order. */
  lemma WalkFollowsLadder(s: State, perm: seq<nat>, other: seq<Player>)
    requires IdsIncreasing(s.players) && s.round > 0
    requires Ordered(other) && multiset(other) == multiset(View(s))
    ensures Ordered(Walk(s, perm)) && Walk(s, perm) == other
  {
    ViewDistinct(s);
    OrderedUnique(Walk(s, perm), other);
  }

  /** In the first round the walk is the shuffle applied to the registry. */
  lemma WalkShuffles(s: State, perm: seq<nat>)
    requires IdsIncreasing(s.players) && s.round == 0 && IsShuffle(perm, |s.players|)
    ensures forall k :: 0 <= k < |s.players| ==> Walk(s, perm)[k] == View(s)[perm[k]]
  {
    ViewDistinct(s);
  }

  /** Who sits out this round, if anyone: with an odd number of players,
      the first player of the walk whose (Total_Bye, Ranking_W_L) no other
      player's undercuts. */
  function ByeOf(walk: seq<Player>): Option<nat> {
    if |walk| % 2 == 0 then None else Some(walk[ByeIndex(walk)].id)
  }

  /** The players left to pair, in walking order. */
  function Playing(walk: seq<Player>): seq<nat> {
    if |walk| % 2 == 0 then IdsOf(walk) else IdsOf(RemoveAt(walk, ByeIndex(walk)))
  }

  /** Total_Bye of the player sitting out raised by one; every other row as
      it was. */
  function GrantBye(players: seq<Player>, id: nat): (r: seq<Player>)
    ensures |r| == |players|
    ensures forall k :: 0 <= k < |r| ==>
              r[k] == if players[k].id == id then players[k].(byes := players[k].byes + 1) else players[k]
  {
    seq(|players|, k requires 0 <= k < |players| =>
      if players[k].id == id then players[k].(byes := players[k].byes + 1) else players[k])
  }

  /** The placeholder row that records a bye: court 0, mode Bye, the player
      in the first slot and the bye sentinel in the other three, 0-0 and
      already completed. */
  function ByeMatch(id: nat, round: nat, player: nat): (r: Match)
    ensures r.status == Completed && r.score1 == r.score2 && r.court == 0
    ensures forall q :: Ref(q) in Slots(r) <==> q == player
  {
    Match(id, round, 0, ByeRound, Ref(player), Bye, Bye, Bye, 0, 0, Completed)
  }

  /** The placeholder row counts as a tied game for the player sitting
      out: at the next recomputation it gives them one Games_Played and one
      T, and gives nobody else anything. */
  lemma ByeCountsAsTie(p: nat, q: nat, id: nat, round: nat, ids: set<nat>)
    requires p in ids
    ensures TallyOf(p, [ByeMatch(id, round, p)], ids) == Tally(1, 0, 0, 1)
    ensures q != p ==> TallyOf(q, [ByeMatch(id, round, p)], ids) == Zero
  {
    TallyOfOne(p, ByeMatch(id, round, p), ids);
    TallyOfOne(q, ByeMatch(id, round, p), ids);
  }

  function ByeRows(s: State, bye: Option<nat>): seq<Match> {
    if bye.Some? then [ByeMatch(s.nextMatchId, s.round + 1, bye.value)] else []
  }

  function PlayersAfterBye(s: State, bye: Option<nat>): seq<Player> {
    if bye.Some? then GrantBye(s.players, bye.value) else s.players
  }

  /** The players left to pair are even in number: twice half the walk. */
  lemma PlayingSize(walk: seq<Player>)
    ensures |Playing(walk)| == 2 * (|walk| / 2)
    ensures |Playing(walk)| % 2 == 0 && |Playing(walk)| / 2 == |walk| / 2
  {
    var h := |walk| / 2;
    assert |walk| == 2 * h + |walk| % 2;
    assert (2 * h) % 2 == 0 && (2 * h) / 2 == h;
  }

  /** The singles matches of an accepted request: the greedy pairs of the
      players left, numbered on from the bye's placeholder row. */
  function PairedRows(s: State, walk: seq<Player>, flips: seq<bool>): (r: seq<Match>)
    requires |flips| >= |walk| / 2
    ensures |r| == |walk| / 2
  {
    PlayingSize(walk);
    BuildMatches(Pairs(Playing(walk), s.ledger, Ids(s.players)), flips, s.nextMatchId + |walk| % 2, s.round + 1)
  }

  /** PairedRows spelled out. */
  lemma SinglesUnfold(s: State, walk: seq<Player>, flips: seq<bool>)
    requires |flips| >= |walk| / 2
    ensures |Pairs(Playing(walk), s.ledger, Ids(s.players))| <= |flips|
    ensures PairedRows(s, walk, flips)
              == BuildMatches(Pairs(Playing(walk), s.ledger, Ids(s.players)), flips, s.nextMatchId + |walk| % 2, s.round + 1)
  {
    PlayingSize(walk);
    var p := Pairs(Playing(walk), s.ledger, Ids(s.players));
    assert PairedRows(s, walk, flips) == BuildMatches(p, flips, s.nextMatchId + |walk| % 2, s.round + 1);
  }

  /** Everything that follows the walk. The bye (if any) is granted and its
      match id consumed before the schedule is checked, so a refused request
      still leaves those two changes behind; the placeholder row itself is
      only written when the round is generated. The round counter advances
      only when at least one row was written. */
  function Advance(s: State, walk: seq<Player>, flips: seq<bool>): (r: Step)
    requires |flips| >= |walk| / 2
    ensures r.state.nextPlayerId == s.nextPlayerId && |r.state.players| == |s.players|
    ensures r.verdict == Generated <==> AllCompleted(s.ledger)
    ensures r.verdict == IncompleteRound ==> r.state.ledger == s.ledger && r.state.round == s.round
    ensures r.verdict == Generated ==> |s.ledger| <= |r.state.ledger| && r.state.ledger[..|s.ledger|] == s.ledger
  {
    var bye := ByeOf(walk);
    var byes := ByeRows(s, bye);
    var next := s.nextMatchId + |byes|;
    var players := PlayersAfterBye(s, bye);
    if !AllCompleted(s.ledger) then
      Step(s.(players := players, nextMatchId := next), IncompleteRound)
    else
      var singles := PairedRows(s, walk, flips);
      var added := byes + singles;
      assert (s.ledger + added)[..|s.ledger|] == s.ledger;
      Step(s.(players := players,
              ledger := s.ledger + added,
              round := if added == [] then s.round else s.round + 1,
              nextMatchId := next + |singles|),
           Generated)
  }

  /** Generating the next round from the walk of the current state. */
  function GenerateRound(s: State, perm: seq<nat>, flips: seq<bool>): (r: Step)
    requires Generable(s, perm, flips)
    ensures r.verdict == Generated <==> AllCompleted(s.ledger)
    ensures r.state.nextPlayerId == s.nextPlayerId && |r.state.players| == |s.players|
    ensures r.verdict == Generated ==> |s.ledger| <= |r.state.ledger| && r.state.ledger[..|s.ledger|] == s.ledger
  {
    Advance(s, Walk(s, perm), flips)
  }

  /** The pairs of the new round. */
  function RoundPairs(s: State, perm: seq<nat>): seq<(nat, nat)>
    requires IdsIncreasing(s.players) && (s.round == 0 ==> IsShuffle(perm, |s.players|))
  {
    Pairs(Playing(Walk(s, perm)), s.ledger, Ids(s.players))
  }

  /** Generation spelled out: the registry after the bye in either case,
      and what a refused request leaves. */
  lemma AdvanceParts(s: State, walk: seq<Player>, flips: seq<bool>)
    requires |flips| >= |walk| / 2
    ensures var r := Advance(s, walk, flips);
            var byes := ByeRows(s, ByeOf(walk));
            && r.state.players == PlayersAfterBye(s, ByeOf(walk))
            && r.state.nextPlayerId == s.nextPlayerId
            && |byes| == |walk| % 2
            && (r.verdict == Generated <==> AllCompleted(s.ledger))
            && (!AllCompleted(s.ledger) ==>
                  r.state == s.(players := r.state.players, nextMatchId := s.nextMatchId + |byes|))
  {
  }

  /** The schedule, counter and round after an accepted request. */
  lemma AdvanceAccepted(s: State, walk: seq<Player>, flips: seq<bool>)
    requires |flips| >= |walk| / 2 && AllCompleted(s.ledger)
    ensures var r := Advance(s, walk, flips).state;
            var byes := ByeRows(s, ByeOf(walk));
            var singles := PairedRows(s, walk, flips);
            && r.ledger == s.ledger + byes + singles
            && r.nextMatchId == s.nextMatchId + |byes| + |singles|
            && r.round == (if byes + singles == [] then s.round else s.round + 1)
  {
    var byes := ByeRows(s, ByeOf(walk));
    var singles := PairedRows(s, walk, flips);
    assert s.ledger + (byes + singles) == s.ledger + byes + singles;
  }

  /** The singles matches one by one: match ids on from the bye's
      placeholder row, courts from 1, the k-th pair with the k-th side
      choice. */
  lemma SinglesShape(s: State, walk: seq<Player>, flips: seq<bool>, pairs: seq<(nat, nat)>)
    requires |flips| >= |walk| / 2
    requires pairs == Pairs(Playing(walk), s.ledger, Ids(s.players))
    ensures var singles := PairedRows(s, walk, flips);
            |pairs| == |singles| &&
            forall k :: 0 <= k < |singles| ==>
              singles[k] == SinglesMatch(s.nextMatchId + |walk| % 2 + k, s.round + 1, k + 1, pairs[k], flips[k])
  {
    SinglesUnfold(s, walk, flips);
  }

  lemma Layout(l: seq<Match>, b: seq<Match>, c: seq<Match>)
    ensures var r := l + b + c;
            && |r| == |l| + |b| + |c| && r[..|l|] == l
            && (forall k :: 0 <= k < |b| ==> r[|l| + k] == b[k])
            && (forall k :: 0 <= k < |c| ==> r[|l| + |b| + k] == c[k])
  {
    var r := l + b + c;
    assert r[..|l|] == l;
  }

  /** An accepted request keeps the rows already in the schedule, appends
      one row per player halved and rounded up, moves the match counter past
      them and advances the round exactly when the walk is not empty. */
  lemma AdvanceCounters(s: State, walk: seq<Player>, flips: seq<bool>)
    requires |flips| >= |walk| / 2 && AllCompleted(s.ledger)
    ensures var r := Advance(s, walk, flips).state;
            && |r.ledger| == |s.ledger| + |walk| % 2 + |walk| / 2
            && r.ledger[..|s.ledger|] == s.ledger
            && r.nextMatchId == s.nextMatchId + |walk| % 2 + |walk| / 2
            && r.round == (if |walk| == 0 then s.round else s.round + 1)
  {
    var byes := ByeRows(s, ByeOf(walk));
    var singles := PairedRows(s, walk, flips);
    AdvanceParts(s, walk, flips);
    AdvanceAccepted(s, walk, flips);
    Layout(s.ledger, byes, singles);
    assert byes + singles == [] <==> |walk| == 0;
  }

  /** With an odd walk, the first appended row is the bye's placeholder,
      numbered with the match counter. */
  lemma AdvanceByeRow(s: State, walk: seq<Player>, flips: seq<bool>)
    requires |flips| >= |walk| / 2 && AllCompleted(s.ledger) && |walk| % 2 == 1
    ensures Advance(s, walk, flips).state.ledger[|s.ledger|]
              == ByeMatch(s.nextMatchId, s.round + 1, walk[ByeIndex(walk)].id)
  {
    var byes := ByeRows(s, ByeOf(walk));
    var singles := PairedRows(s, walk, flips);
    AdvanceAccepted(s, walk, flips);
    Layout(s.ledger, byes, singles);
  }

  /** The appended singles matches one by one: consecutive match ids after
      the placeholder's, courts 1, 2, ..., the k-th pair with the k-th side
      choice. */
  lemma AdvanceSinglesRows(s: State, walk: seq<Player>, flips: seq<bool>, pairs: seq<(nat, nat)>)
    requires |flips| >= |walk| / 2 && AllCompleted(s.ledger)
    requires pairs == Pairs(Playing(walk), s.ledger, Ids(s.players))
    ensures var r := Advance(s, walk, flips).state;
            var first := |s.ledger| + |walk| % 2;
            && |pairs| == |walk| / 2 && first + |pairs| <= |r.ledger|
            && forall k :: 0 <= k < |pairs| ==>
                 r.ledger[first + k] == SinglesMatch(s.nextMatchId + |walk| % 2 + k, s.round + 1, k + 1, pairs[k], flips[k])
  {
    var byes := ByeRows(s, ByeOf(walk));
    var singles := PairedRows(s, walk, flips);
    AdvanceParts(s, walk, flips);
    AdvanceAccepted(s, walk, flips);
    SinglesShape(s, walk, flips, pairs);
    ThirdPart(Advance(s, walk, flips).state.ledger, s.ledger, byes, singles, pairs, flips,
              s.nextMatchId + |walk| % 2, s.round + 1);
  }

  /** Rows of the third stretch of a concatenation, read by their position
      in the whole. */
  lemma ThirdPart(ledger: seq<Match>, l: seq<Match>, b: seq<Match>, c: seq<Match>,
                  pairs: seq<(nat, nat)>, flips: seq<bool>, id0: nat, round: nat)
    requires ledger == l + b + c && |pairs| == |c| <= |flips|
    requires forall k :: 0 <= k < |c| ==> c[k] == SinglesMatch(id0 + k, round, k + 1, pairs[k], flips[k])
    ensures |l| + |b| + |pairs| <= |ledger|
    ensures forall k :: 0 <= k < |pairs| ==>
              ledger[|l| + |b| + k] == SinglesMatch(id0 + k, round, k + 1, pairs[k], flips[k])
  {
    forall k | 0 <= k < |pairs|
      ensures ledger[|l| + |b| + k] == SinglesMatch(id0 + k, round, k + 1, pairs[k], flips[k])
    {
      assert ledger[|l| + |b| + k] == c[k];
    }
  }

  /** An accepted request keeps the rows already in the schedule and
      appends one row per player, halved and rounded up; the match counter
      moves past them, and the round advances exactly when someone is
      registered. */
  lemma GeneratedCounters(s: State, perm: seq<nat>, flips: seq<bool>)
    requires Generable(s, perm, flips) && AllCompleted(s.ledger)
    ensures var r := GenerateRound(s, perm, flips).state;
            var n := |s.players|;
            && |r.ledger| == |s.ledger| + n % 2 + n / 2
            && r.ledger[..|s.ledger|] == s.ledger
            && r.nextMatchId == s.nextMatchId + n % 2 + n / 2
            && r.round == (if n == 0 then s.round else s.round + 1)
  {
    AdvanceCounters(s, Walk(s, perm), flips);
  }

  /** With an odd number of players the first appended row is the bye's
      placeholder for the walk's bye candidate, numbered with the match
      counter. */
  lemma GeneratedByeRow(s: State, perm: seq<nat>, flips: seq<bool>)
    requires Generable(s, perm, flips) && AllCompleted(s.ledger) && |s.players| % 2 == 1
    ensures var walk := Walk(s, perm);
            GenerateRound(s, perm, flips).state.ledger[|s.ledger|]
              == ByeMatch(s.nextMatchId, s.round + 1, walk[ByeIndex(walk)].id)
  {
    AdvanceByeRow(s, Walk(s, perm), flips);
  }

  /** The generator refuses exactly when some match of the schedule is not
      completed. A refused request leaves the schedule and the round counter
      alone, but the bye's match id is still consumed when the number of
      players is odd. */
  lemma GenerateRefusesIncompleteRound(s: State, perm: seq<nat>, flips: seq<bool>)
    requires Generable(s, perm, flips)
    ensures var r := GenerateRound(s, perm, flips);
            && (r.verdict == IncompleteRound <==>
                  exists k :: 0 <= k < |s.ledger| && s.ledger[k].status != Completed)
            && (r.verdict == IncompleteRound ==>
                  && r.state.ledger == s.ledger && r.state.round == s.round
                  && r.state.nextPlayerId == s.nextPlayerId
                  && r.state.nextMatchId == s.nextMatchId + |s.players| % 2)
  {
  }

  /** With an even number of players nobody's Total_Bye changes. With an
      odd number exactly one registered player's Total_Bye rises by one:
      the first player in walking order whose (Total_Bye, Ranking_W_L) is
      not undercut by anyone's. This happens whether or not the request is
      refused. */
  lemma ByeGoesToOnePlayer(s: State, perm: seq<nat>, flips: seq<bool>)
    requires Generable(s, perm, flips)
    ensures var r := GenerateRound(s, perm, flips).state;
            && |r.players| == |s.players|
            && (|s.players| % 2 == 0 ==> r.players == s.players)
    ensures var r := GenerateRound(s, perm, flips).state;
            var walk := Walk(s, perm);
            |s.players| % 2 == 1 ==>
              var i := ByeIndex(walk);
              && walk[i].id in Ids(s.players)
              && (forall j :: 0 <= j < |walk| ==> !ByeBefore(walk[j], walk[i]))
              && (forall j :: 0 <= j < i ==> ByeBefore(walk[i], walk[j]))
              && (forall k :: 0 <= k < |s.players| ==>
                    r.players[k] == if s.players[k].id == walk[i].id
                                    then s.players[k].(byes := s.players[k].byes + 1)
                                    else s.players[k])
  {
    var walk := Walk(s, perm);
    AdvanceBye(s, walk, flips);
    if |s.players| % 2 == 1 {
      WalkIds(s, perm, ByeIndex(walk));
    }
  }

  /** The registry after generation from any walk: Total_Bye of the walk's
      bye candidate raised by one when the walk is odd, nothing else. */
  lemma AdvanceBye(s: State, walk: seq<Player>, flips: seq<bool>)
    requires |flips| >= |walk| / 2
    ensures var r := Advance(s, walk, flips).state;
            && (|walk| % 2 == 0 ==> r.players == s.players)
            && (|walk| % 2 == 1 ==>
                  forall k :: 0 <= k < |s.players| ==>
                    r.players[k] == if s.players[k].id == walk[ByeIndex(walk)].id
                                    then s.players[k].(byes := s.players[k].byes + 1)
                                    else s.players[k])
  {
    AdvanceParts(s, walk, flips);
  }

  /** A walked player is a registered one. */
  lemma WalkIds(s: State, perm: seq<nat>, i: nat)
    requires IdsIncreasing(s.players) && (s.round == 0 ==> IsShuffle(perm, |s.players|))
    requires i < |s.players|
    ensures Walk(s, perm)[i].id in Ids(s.players)
  {
    var walk := Walk(s, perm);
    var v := View(s);
    assert walk[i] in v;
    var j :| 0 <= j < |v| && v[j] == walk[i];
    assert walk[i].id == s.players[j].id;
  }

  predicate DistinctNats(xs: seq<nat>) {
    forall i, j :: 0 <= i < j < |xs| ==> xs[i] != xs[j]
  }

  /** In a list without repetitions every entry occurs once. */
  lemma {:induction false} DistinctCount(xs: seq<nat>)
    requires DistinctNats(xs)
    ensures forall q :: multiset(xs)[q] == if q in xs then 1 else 0
    decreases |xs|
  {
    if xs != [] {
      var t := xs[1..];
      assert DistinctNats(t) by {
        forall i, j | 0 <= i < j < |t| ensures t[i] != t[j] {
          assert t[i] == xs[i + 1] && t[j] == xs[j + 1];
        }
      }
      DistinctCount(t);
      assert xs == [xs[0]] + t;
      assert xs[0] !in t by {
        forall i | 0 <= i < |t| ensures t[i] != xs[0] {
          assert t[i] == xs[i + 1];
        }
      }
    }
  }

  /** The walk lists every registered player once, by id. */
  lemma WalkListsRegistry(s: State, perm: seq<nat>)
    requires IdsIncreasing(s.players) && (s.round == 0 ==> IsShuffle(perm, |s.players|))
    ensures DistinctNats(IdsOf(Walk(s, perm)))
    ensures forall q :: q in IdsOf(Walk(s, perm)) <==> q in Ids(s.players)
  {
    var ids := IdsOf(Walk(s, perm));
    forall q | q in ids ensures q in Ids(s.players) {
      var k :| 0 <= k < |ids| && ids[k] == q;
      WalkIds(s, perm, k);
    }
    forall q | q in Ids(s.players) ensures q in ids {
      WalkHasRegistered(s, perm, q);
    }
  }

  /** A registered player is walked. */
  lemma WalkHasRegistered(s: State, perm: seq<nat>, q: nat)
    requires IdsIncreasing(s.players) && (s.round == 0 ==> IsShuffle(perm, |s.players|))
    requires q in Ids(s.players)
    ensures q in IdsOf(Walk(s, perm))
  {
    var walk := Walk(s, perm);
    var v := View(s);
    var j :| 0 <= j < |s.players| && s.players[j].id == q;
    assert v[j] in walk;
    var k :| 0 <= k < |walk| && walk[k] == v[j];
    assert IdsOf(walk)[k] == q;
  }

  /** The players left to pair: every player of the walk except the one
      sitting out, each exactly once. */
  lemma PlayingCount(walk: seq<Player>, ids: set<nat>)
    requires DistinctNats(IdsOf(walk))
    requires forall q :: q in IdsOf(walk) <==> q in ids
    ensures forall q :: multiset(Playing(walk))[q] == if q in ids && ByeOf(walk) != Some(q) then 1 else 0
  {
    var xs := IdsOf(walk);
    DistinctCount(xs);
    if |walk| % 2 == 1 {
      var b := ByeIndex(walk);
      assert IdsOf(RemoveAt(walk, b)) == RemoveAt(xs, b);
      var m: multiset<nat> := multiset(RemoveAt(xs, b));
      assert m + multiset{xs[b]} == multiset(xs);
    }
  }

  /** The singles matches of an accepted request seat each walked player
      but the one sitting out exactly once. */
  lemma SinglesSeat(s: State, walk: seq<Player>, flips: seq<bool>)
    requires DistinctNats(IdsOf(walk))
    requires forall q :: q in IdsOf(walk) <==> q in Ids(s.players)
    requires |flips| >= |walk| / 2
    ensures forall q :: multiset(Lineup(PairedRows(s, walk, flips)))[q]
                          == if q in Ids(s.players) && ByeOf(walk) != Some(q) then 1 else 0
  {
    var ids := Ids(s.players);
    var next := s.nextMatchId + |walk| % 2;
    var pairs := Pairs(Playing(walk), s.ledger, ids);
    var singles := PairedRows(s, walk, flips);
    SinglesShape(s, walk, flips, pairs);
    var lineup: multiset<nat> := multiset(Lineup(singles));
    var playing: multiset<nat> := multiset(Playing(walk));
    assert lineup == multiset(Flatten(pairs)) by {
      forall k | 0 <= k < |singles| ensures multiset(Refs(singles[k])) == multiset{pairs[k].0, pairs[k].1} {
        SinglesMatchSeats(next + k, s.round + 1, k + 1, pairs[k], flips[k]);
      }
      LineupOfPairs(singles, pairs);
    }
    assert multiset(Flatten(pairs)) == playing by {
      PlayingSize(walk);
      PairsCover(Playing(walk), s.ledger, ids);
    }
    assert forall q :: playing[q] == if q in ids && ByeOf(walk) != Some(q) then 1 else 0 by {
      PlayingCount(walk, ids);
    }
  }

  /** An accepted request seats every registered player except the one
      sitting out in exactly one of the new singles matches, and nobody
      else: the singles matches number half the players, rounded down. */
  lemma EveryPlayerSeatedOnce(s: State, perm: seq<nat>, flips: seq<bool>)
    requires Generable(s, perm, flips) && AllCompleted(s.ledger)
    ensures var r := GenerateRound(s, perm, flips).state;
            var singles := r.ledger[|s.ledger| + |s.players| % 2..];
            var bye := ByeOf(Walk(s, perm));
            && |singles| == |s.players| / 2
            && forall q :: multiset(Lineup(singles))[q] == if q in Ids(s.players) && bye != Some(q) then 1 else 0
  {
    var walk := Walk(s, perm);
    var byes := ByeRows(s, ByeOf(walk));
    var singles := PairedRows(s, walk, flips);
    var r := GenerateRound(s, perm, flips).state;
    assert r.ledger[|s.ledger| + |s.players| % 2..] == singles by {
      AdvanceParts(s, walk, flips);
      AdvanceAccepted(s, walk, flips);
    }
    WalkListsRegistry(s, perm);
    SinglesSeat(s, walk, flips);
  }

  /** A singles row for two different players names each of them once. */
  lemma SinglesMatchNoRepeat(id: nat, round: nat, court: nat, pair: (nat, nat), flip: bool)
    requires pair.0 != pair.1
    ensures NoRepeatedPlayer(SinglesMatch(id, round, court, pair, flip))
  {
    SinglesMatchSeats(id, round, court, pair, flip);
  }

  /** The bye row names only the player sitting out. */
  lemma ByeRowsNoRepeat(s: State, bye: Option<nat>)
    ensures forall k :: 0 <= k < |ByeRows(s, bye)| ==> NoRepeatedPlayer(ByeRows(s, bye)[k])
  {
  }

  /** Matches built from pairs of two different players each name every
      player at most once. */
  lemma BuildMatchesNoRepeat(pairs: seq<(nat, nat)>, flips: seq<bool>, firstId: nat, round: nat)
    requires |flips| >= |pairs|
    requires forall k :: 0 <= k < |pairs| ==> pairs[k].0 != pairs[k].1
    ensures var ms := BuildMatches(pairs, flips, firstId, round);
            forall k :: 0 <= k < |ms| ==> NoRepeatedPlayer(ms[k])
  {
    var ms := BuildMatches(pairs, flips, firstId, round);
    forall k | 0 <= k < |ms| ensures NoRepeatedPlayer(ms[k]) {
      SinglesMatchNoRepeat(firstId + k, round, k + 1, pairs[k], flips[k]);
    }
  }

  /** The pairs drawn from a walk without repeated ids join two different
      players. */
  lemma WalkPairsApart(walk: seq<Player>, ledger: seq<Match>, ids: set<nat>, pairs: seq<(nat, nat)>)
    requires DistinctNats(IdsOf(walk))
    requires pairs == Pairs(Playing(walk), ledger, ids)
    ensures forall k :: 0 <= k < |pairs| ==> pairs[k].0 != pairs[k].1
  {
    PlayingOnce(walk);
    PairsApart(Playing(walk), ledger, ids);
  }

  /** The singles rows of a round never name a player twice: the walk
      repeats no id, so no player is paired with themselves. */
  lemma PairedRowsNoRepeat(s: State, walk: seq<Player>, flips: seq<bool>)
    requires DistinctNats(IdsOf(walk))
    requires |flips| >= |walk| / 2
    ensures var singles := PairedRows(s, walk, flips);
            forall k :: 0 <= k < |singles| ==> NoRepeatedPlayer(singles[k])
  {
    var pairs := Pairs(Playing(walk), s.ledger, Ids(s.players));
    PlayingSize(walk);
    WalkPairsApart(walk, s.ledger, Ids(s.players), pairs);
    BuildMatchesNoRepeat(pairs, flips, s.nextMatchId + |walk| % 2, s.round + 1);
    SinglesUnfold(s, walk, flips);
  }

  /** No id is left to pair twice. */
  lemma PlayingOnce(walk: seq<Player>)
    requires DistinctNats(IdsOf(walk))
    ensures forall q :: multiset(Playing(walk))[q] <= 1
  {
    PlayingCount(walk, set q | q in IdsOf(walk));
  }

  /** Every row an accepted request appends names each player at most once;
      a rejected request appends nothing. */
  lemma GeneratedRowsNoRepeat(s: State, perm: seq<nat>, flips: seq<bool>)
    requires Generable(s, perm, flips)
    ensures var r := GenerateRound(s, perm, flips).state;
            forall k :: |s.ledger| <= k < |r.ledger| ==> NoRepeatedPlayer(r.ledger[k])
  {
    var walk := Walk(s, perm);
    var r := GenerateRound(s, perm, flips).state;
    if AllCompleted(s.ledger) {
      var byes := ByeRows(s, ByeOf(walk));
      var singles := PairedRows(s, walk, flips);
      assert r.ledger == s.ledger + byes + singles by {
        AdvanceAccepted(s, walk, flips);
      }
      Layout(s.ledger, byes, singles);
      ByeRowsNoRepeat(s, ByeOf(walk));
      assert DistinctNats(IdsOf(walk)) by {
        WalkListsRegistry(s, perm);
      }
      PairedRowsNoRepeat(s, walk, flips);
      forall k | |s.ledger| <= k < |r.ledger| ensures NoRepeatedPlayer(r.ledger[k]) {
        if k < |s.ledger| + |byes| {
          assert r.ledger[k] == byes[k - |s.ledger|];
        } else {
          assert r.ledger[k] == singles[k - |s.ledger| - |byes|];
        }
      }
    } else {
      AdvanceParts(s, walk, flips);
    }
  }

  /** The players left to pair are walked players. */
  lemma PlayingRegistered(walk: seq<Player>, reg: set<nat>)
    requires forall k :: 0 <= k < |walk| ==> walk[k].id in reg
    ensures forall k :: 0 <= k < |Playing(walk)| ==> Playing(walk)[k] in reg
  {
    if |walk| % 2 == 1 {
      var b := ByeIndex(walk);
      var rest := RemoveAt(walk, b);
      forall k | 0 <= k < |rest| ensures rest[k].id in reg {
        if k < b { assert rest[k] == walk[k]; } else { assert rest[k] == walk[k + 1]; }
      }
    }
  }

  /** Both players of every pair come from the list that was paired. */
  lemma PairsRegistered(xs: seq<nat>, ledger: seq<Match>, ids: set<nat>, reg: set<nat>, pairs: seq<(nat, nat)>)
    requires forall k :: 0 <= k < |xs| ==> xs[k] in reg
    requires pairs == Pairs(xs, ledger, ids)
    ensures forall k :: 0 <= k < |pairs| ==> pairs[k].0 in reg && pairs[k].1 in reg
  {
    PairsCover(xs, ledger, ids);
    var listed: multiset<nat> := multiset(xs);
    forall k | 0 <= k < |pairs| ensures pairs[k].0 in reg && pairs[k].1 in reg {
      FlattenHas(pairs, k);
      assert pairs[k].0 in listed && pairs[k].1 in listed;
    }
  }

  /** The singles matches carry consecutive match ids after the bye's, belong
      to the new round and refer only to registered players. */
  lemma SinglesRows(s: State, walk: seq<Player>, flips: seq<bool>)
    requires |flips| >= |walk| / 2
    requires forall k :: 0 <= k < |walk| ==> walk[k].id in Ids(s.players)
    ensures var singles := PairedRows(s, walk, flips);
            var next := s.nextMatchId + |walk| % 2;
            forall i :: 0 <= i < |singles| ==>
              singles[i].id == next + i && singles[i].round == s.round + 1 && RefsIn(singles[i], Ids(s.players))
  {
    var next := s.nextMatchId + |walk| % 2;
    PlayingSize(walk);
    var pairs := Pairs(Playing(walk), s.ledger, Ids(s.players));
    var singles := PairedRows(s, walk, flips);
    SinglesUnfold(s, walk, flips);
    var reg := Ids(s.players);
    PlayingRegistered(walk, reg);
    PairsRegistered(Playing(walk), s.ledger, reg, reg, pairs);
    forall i | 0 <= i < |singles|
      ensures singles[i].id == next + i && singles[i].round == s.round + 1 && RefsIn(singles[i], reg)
    {
      assert singles[i] == SinglesMatch(next + i, s.round + 1, i + 1, pairs[i], flips[i]);
      SinglesMatchSeats(next + i, s.round + 1, i + 1, pairs[i], flips[i]);
    }
  }

  /** The rows an accepted request appends: consecutive match ids from the
      counter on, all in the new round, all referring to registered
      players. */
  lemma AddedRows(s: State, walk: seq<Player>, flips: seq<bool>)
    requires |flips| >= |walk| / 2
    requires forall k :: 0 <= k < |walk| ==> walk[k].id in Ids(s.players)
    ensures var added := ByeRows(s, ByeOf(walk)) + PairedRows(s, walk, flips);
            forall k :: 0 <= k < |added| ==>
              added[k].id == s.nextMatchId + k && added[k].round == s.round + 1 && RefsIn(added[k], Ids(s.players))
  {
    var byes := ByeRows(s, ByeOf(walk));
    assert |byes| == |walk| % 2;
    SinglesRows(s, walk, flips);
    ConcatRows(byes, PairedRows(s, walk, flips), s.nextMatchId, s.round + 1, Ids(s.players));
  }

  /** Rows numbered on from `first` followed by rows numbered on from where
      they stop are numbered on from `first`. */
  lemma ConcatRows(a: seq<Match>, b: seq<Match>, first: nat, round: nat, reg: set<nat>)
    requires forall k :: 0 <= k < |a| ==> a[k].id == first + k && a[k].round == round && RefsIn(a[k], reg)
    requires forall k :: 0 <= k < |b| ==> b[k].id == first + |a| + k && b[k].round == round && RefsIn(b[k], reg)
    ensures forall k :: 0 <= k < |a + b| ==> (a + b)[k].id == first + k && (a + b)[k].round == round && RefsIn((a + b)[k], reg)
  {
  }

  /** Appending rows with fresh consecutive match ids, in the round after
      the current one and referring to issued player ids, keeps the
      schedule part of the invariant. */
  lemma AppendValid(ledger: seq<Match>, added: seq<Match>, nextMatchId: nat, nextPlayerId: nat, round: nat, reg: set<nat>)
    requires MatchIdsIncreasing(ledger) && 1 <= nextMatchId
    requires forall k :: 0 <= k < |ledger| ==>
               && 1 <= ledger[k].id < nextMatchId
               && RefsBelow(ledger[k], nextPlayerId)
               && 1 <= ledger[k].round <= round
    requires forall x :: x in reg ==> x < nextPlayerId
    requires forall k :: 0 <= k < |added| ==>
               added[k].id == nextMatchId + k && added[k].round == round + 1 && RefsIn(added[k], reg)
    ensures var l := ledger + added;
            var round' := if added == [] then round else round + 1;
            && MatchIdsIncreasing(l)
            && forall k :: 0 <= k < |l| ==>
                 && 1 <= l[k].id < nextMatchId + |added|
                 && RefsBelow(l[k], nextPlayerId)
                 && 1 <= l[k].round <= round'
  {
    var l := ledger + added;
    forall k | |ledger| <= k < |l| ensures RefsBelow(l[k], nextPlayerId) {
      RefsInBelow(added[k - |ledger|], reg, nextPlayerId);
    }
  }

  /** Changing only Total_Bye and raising the match counter keeps the
      invariant. */
  lemma RefusedValid(s: State, t: State)
    requires Valid(s) && s.nextMatchId <= t.nextMatchId
    requires t.ledger == s.ledger && t.round == s.round && t.nextPlayerId == s.nextPlayerId
    requires |t.players| == |s.players| && forall k :: 0 <= k < |t.players| ==> t.players[k].id == s.players[k].id
    ensures Valid(t)
  {
  }

  /** Changing only Total_Bye and appending well-formed rows of the next
      round keeps the invariant. */
  lemma AcceptedValid(s: State, t: State, added: seq<Match>)
    requires Valid(s)
    requires |t.players| == |s.players| && forall k :: 0 <= k < |t.players| ==> t.players[k].id == s.players[k].id
    requires forall k :: 0 <= k < |added| ==>
               added[k].id == s.nextMatchId + k && added[k].round == s.round + 1 && RefsIn(added[k], Ids(s.players))
    requires t.ledger == s.ledger + added && t.nextPlayerId == s.nextPlayerId
    requires t.round == (if added == [] then s.round else s.round + 1) && t.nextMatchId == s.nextMatchId + |added|
    ensures Valid(t)
  {
    assert forall x :: x in Ids(s.players) ==> x < s.nextPlayerId;
    AppendValid(s.ledger, added, s.nextMatchId, s.nextPlayerId, s.round, Ids(s.players));
  }

  /** Generation keeps the state invariant, whether it is refused or not. */
  lemma AdvanceValid(s: State, walk: seq<Player>, flips: seq<bool>)
    requires Valid(s) && |flips| >= |walk| / 2
    requires forall k :: 0 <= k < |walk| ==> walk[k].id in Ids(s.players)
    ensures Valid(Advance(s, walk, flips).state)
  {
    var r := Advance(s, walk, flips).state;
    AdvanceParts(s, walk, flips);
    if AllCompleted(s.ledger) {
      var added := ByeRows(s, ByeOf(walk)) + PairedRows(s, walk, flips);
      AdvanceAccepted(s, walk, flips);
      assert r.ledger == s.ledger + added;
      AddedRows(s, walk, flips);
      AcceptedValid(s, r, added);
    } else {
      RefusedValid(s, r);
    }
  }

  /** Generation keeps the state invariant. */
  lemma GenerateRoundValid(s: State, perm: seq<nat>, flips: seq<bool>)
    requires Valid(s) && (s.round == 0 ==> IsShuffle(perm, |s.players|)) && |flips| >= |s.players| / 2
    ensures Valid(GenerateRound(s, perm, flips).state)
  {
    var walk := Walk(s, perm);
    forall k | 0 <= k < |walk| ensures walk[k].id in Ids(s.players) {
      WalkIds(s, perm, k);
    }
    AdvanceValid(s, walk, flips);
  }

  /** The generator as app.py writes it. Before ordering, the recomputed
      registry (which still carries the stored Games_Played column) is
      joined with the freshly counted Games_Played column; the join renames
      the two clashing columns, so from the second round on the ladder sort
      names a column that no longer exists and the request fails before
      anything is changed. `None` stands for that failure. With no players
      the join is skipped and the sort succeeds. */
  function GenerateRoundAsWritten(s: State, perm: seq<nat>, flips: seq<bool>): (r: Option<Step>)
    requires Generable(s, perm, flips)
    ensures s.round == 0 || |s.players| == 0 ==> r == Some(GenerateRound(s, perm, flips))
  {
    if s.round > 0 && |s.players| > 0 then None else Some(GenerateRound(s, perm, flips))
  }

  /** Once a round has been played, the generator as written can never
      produce another one: with every match completed, where the intended
      generator starts the next round, the written one fails and leaves the
      state as it was. */
  lemma SecondRoundNeverGenerated(s: State, perm: seq<nat>, flips: seq<bool>)
    requires Generable(s, perm, flips) && AllCompleted(s.ledger)
    requires s.round > 0 && |s.players| > 0
    ensures GenerateRoundAsWritten(s, perm, flips).None?
    ensures GenerateRound(s, perm, flips).verdict == Generated
    ensures GenerateRound(s, perm, flips).state.round == s.round + 1
  {
    GeneratedCounters(s, perm, flips);
    AdvanceParts(s, Walk(s, perm), flips);
  }

  /** The rows a round appends carry no points: the bye row is completed
      at 0-0 and the singles rows are still scheduled. */
  lemma NewRowsEarnNothing(s: State, walk: seq<Player>, flips: seq<bool>, q: nat)
    requires |flips| >= |walk| / 2
    ensures EarnedOf(q, ByeRows(s, ByeOf(walk))) == 0
    ensures EarnedOf(q, PairedRows(s, walk, flips)) == 0
  {
    EarnedZero(q, ByeRows(s, ByeOf(walk)));
    var singles := PairedRows(s, walk, flips);
    SinglesUnfold(s, walk, flips);
    forall j | 0 <= j < |singles| ensures Earned(q, singles[j]) == 0 { }
    EarnedZero(q, singles);
  }

  /** A round adds no points to anyone. */
  lemma AdvanceEarnsNothing(s: State, walk: seq<Player>, flips: seq<bool>, q: nat)
    requires |flips| >= |walk| / 2
    ensures EarnedOf(q, Advance(s, walk, flips).state.ledger) == EarnedOf(q, s.ledger)
  {
    if AllCompleted(s.ledger) {
      var byes := ByeRows(s, ByeOf(walk));
      var singles := PairedRows(s, walk, flips);
      AdvanceAccepted(s, walk, flips);
      NewRowsEarnNothing(s, walk, flips, q);
      EarnedAppend(q, s.ledger + byes, singles);
      EarnedAppend(q, s.ledger, byes);
    } else {
      AdvanceParts(s, walk, flips);
    }
  }

  /** Generating a round keeps Total_Poin equal to the cumulative score:
      the new rows add no points and a bye changes only Byes. */
  lemma AdvanceKeepsPointsFresh(s: State, walk: seq<Player>, flips: seq<bool>)
    requires |flips| >= |walk| / 2
    requires PointsFresh(s.players, s.ledger)
    ensures var r := Advance(s, walk, flips).state;
            PointsFresh(r.players, r.ledger)
  {
    var r := Advance(s, walk, flips).state;
    AdvanceParts(s, walk, flips);
    forall k | 0 <= k < |r.players| ensures r.players[k].points == EarnedOf(r.players[k].id, r.ledger) {
      assert r.players[k].id == s.players[k].id && r.players[k].points == s.players[k].points;
      AdvanceEarnsNothing(s, walk, flips, s.players[k].id);
    }
  }

  /** The same for the generator as called. */
  lemma GenerateRoundKeepsPointsFresh(s: State, perm: seq<nat>, flips: seq<bool>)
    requires Generable(s, perm, flips)
    requires PointsFresh(s.players, s.ledger)
    ensures var r := GenerateRound(s, perm, flips).state;
            PointsFresh(r.players, r.ledger)
  {
    AdvanceKeepsPointsFresh(s, Walk(s, perm), flips);
  }
}
