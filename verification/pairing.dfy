/** Swiss ladder pairing: the players still to be paired are taken from the
    front of the order, and each is matched with the first remaining player
    they have never shared a match with, or with the next remaining player
    when they have shared one with everybody. */
module Pairing {
  import opened Types

  /** Two registered players both fill a slot of match `m`. */
  predicate Together(m: Match, p: nat, q: nat, ids: set<nat>) {
    p in ids && q in ids && Ref(p) in Slots(m) && Ref(q) in Slots(m)
  }

  /** `p` and `q` have already shared a match in the schedule, as opponents
      or as partners (is_pair_found over every schedule row). */
  predicate Met(p: nat, q: nat, ledger: seq<Match>, ids: set<nat>)
    ensures Met(p, q, ledger, ids) ==> p in ids && q in ids
  {
    ledger != [] && (Together(ledger[0], p, q, ids) || Met(p, q, ledger[1..], ids))
  }

  /** The rematch test holds exactly when some schedule row seats both
      players. */
  lemma {:induction false} MetSomewhere(p: nat, q: nat, ledger: seq<Match>, ids: set<nat>)
    ensures Met(p, q, ledger, ids) <==> exists k :: 0 <= k < |ledger| && Together(ledger[k], p, q, ids)
    decreases |ledger|
  {
    if ledger != [] {
      MetSomewhere(p, q, ledger[1..], ids);
      if Met(p, q, ledger[1..], ids) {
        var k :| 0 <= k < |ledger[1..]| && Together(ledger[1..][k], p, q, ids);
        assert ledger[1..][k] == ledger[k + 1];
      }
      if exists k :: 0 <= k < |ledger| && Together(ledger[k], p, q, ids) {
        var k :| 0 <= k < |ledger| && Together(ledger[k], p, q, ids);
        if k > 0 {
          assert ledger[1..][k - 1] == ledger[k];
        }
      }
    }
  }

  /** The rematch test does not depend on which of the two players asks. */
  lemma {:induction false} MetSymmetric(p: nat, q: nat, ledger: seq<Match>, ids: set<nat>)
    ensures Met(p, q, ledger, ids) <==> Met(q, p, ledger, ids)
    decreases |ledger|
  {
    if ledger != [] {
      MetSymmetric(p, q, ledger[1..], ids);
    }
  }

  /** Within one row, being seated together is being among the row's
      resolved participants together. */
  lemma TogetherByParticipants(m: Match, p: nat, q: nat, ids: set<nat>)
    ensures Together(m, p, q, ids) <==> p in Participants(m, ids) && q in Participants(m, ids)
  {
    ParticipantsBySlot(m, ids, p);
    ParticipantsBySlot(m, ids, q);
  }

  /** The position of the first entry of `xs` that `p` has not met. */
  function FirstFresh(p: nat, xs: seq<nat>, ledger: seq<Match>, ids: set<nat>): (r: Option<nat>)
    ensures r.Some? ==> r.value < |xs| && !Met(p, xs[r.value], ledger, ids)
                        && forall j :: 0 <= j < r.value ==> Met(p, xs[j], ledger, ids)
    ensures r.None? ==> forall j :: 0 <= j < |xs| ==> Met(p, xs[j], ledger, ids)
  {
    if xs == [] then None
    else if !Met(p, xs[0], ledger, ids) then Some(0)
    else
      match FirstFresh(p, xs[1..], ledger, ids)
      case None => None
      case Some(i) => Some(i + 1)
  }

  /** `xs` without its entry at position i. */
  function RemoveAt<T>(xs: seq<T>, i: nat): (r: seq<T>)
    requires i < |xs|
    ensures |r| == |xs| - 1
    ensures multiset(r) + multiset{xs[i]} == multiset(xs)
    ensures forall j :: 0 <= j < i ==> r[j] == xs[j]
    ensures forall j :: i <= j < |r| ==> r[j] == xs[j + 1]
  {
    assert xs == xs[..i] + [xs[i]] + xs[i + 1..];
    xs[..i] + xs[i + 1..]
  }

  /** Where the opponent of `p` sits among the remaining players. */
  function Opponent(p: nat, rest: seq<nat>, ledger: seq<Match>, ids: set<nat>): (j: nat)
    requires |rest| > 0
    ensures j < |rest|
  {
    match FirstFresh(p, rest, ledger, ids)
    case Some(i) => i
    case None => 0
  }

  /** The greedy pairing loop: while two players remain, the first is
      paired with their opponent and both leave the list. */
  function Pairs(xs: seq<nat>, ledger: seq<Match>, ids: set<nat>): (r: seq<(nat, nat)>)
    ensures |r| == |xs| / 2
    decreases |xs|
  {
    if |xs| < 2 then []
    else
      var rest := xs[1..];
      var j := Opponent(xs[0], rest, ledger, ids);
      [(xs[0], rest[j])] + Pairs(RemoveAt(rest, j), ledger, ids)
  }

  /** The players of a list of pairs, pair by pair. */
  function Flatten(pairs: seq<(nat, nat)>): (r: seq<nat>)
    ensures |r| == 2 * |pairs|
  {
    if pairs == [] then [] else [pairs[0].0, pairs[0].1] + Flatten(pairs[1..])
  }

  lemma {:induction false} FlattenHas(pairs: seq<(nat, nat)>, k: nat)
    requires k < |pairs|
    ensures pairs[k].0 in multiset(Flatten(pairs)) && pairs[k].1 in multiset(Flatten(pairs))
    decreases |pairs|
  {
    if k > 0 {
      FlattenHas(pairs[1..], k - 1);
    }
  }

  /** Both members of a pair, counted with multiplicity, are in the flat list. */
  lemma {:induction false} FlattenPair(pairs: seq<(nat, nat)>, k: nat)
    requires k < |pairs|
    ensures multiset{pairs[k].0, pairs[k].1} <= multiset(Flatten(pairs))
    decreases |pairs|
  {
    assert Flatten(pairs) == [pairs[0].0, pairs[0].1] + Flatten(pairs[1..]);
    if k > 0 {
      FlattenPair(pairs[1..], k - 1);
    }
  }

  /** Pairing a list in which no id repeats never pairs a player with
      themselves. */
  lemma PairsApart(xs: seq<nat>, ledger: seq<Match>, ids: set<nat>)
    requires forall q :: multiset(xs)[q] <= 1
    ensures var pairs := Pairs(xs, ledger, ids);
            forall k :: 0 <= k < |pairs| ==> pairs[k].0 != pairs[k].1
  {
    var pairs := Pairs(xs, ledger, ids);
    PairsCover(xs, ledger, ids);
    forall k | 0 <= k < |pairs| ensures pairs[k].0 != pairs[k].1 {
      FlattenPair(pairs, k);
      var q := pairs[k].0;
      assert multiset{q, pairs[k].1}[q] == if pairs[k].1 == q then 2 else 1;
    }
  }

  lemma PairsUnfold(xs: seq<nat>, ledger: seq<Match>, ids: set<nat>)
    requires |xs| >= 2
    ensures var o := Opponent(xs[0], xs[1..], ledger, ids);
            var t := Pairs(RemoveAt(xs[1..], o), ledger, ids);
            var r := Pairs(xs, ledger, ids);
            && r[0] == (xs[0], xs[1..][o])
            && r[1..] == t
            && Flatten(r) == [xs[0], xs[1..][o]] + Flatten(t)
  {
  }

  /** Nobody is paired who was not in the list, nobody twice more often than
      listed, and an even list is used up completely: every listed player
      ends up in exactly as many pairs as they were listed. */
  lemma {:induction false} PairsCover(xs: seq<nat>, ledger: seq<Match>, ids: set<nat>)
    ensures multiset(Flatten(Pairs(xs, ledger, ids))) <= multiset(xs)
    ensures |xs| % 2 == 0 ==> multiset(Flatten(Pairs(xs, ledger, ids))) == multiset(xs)
    decreases |xs|
  {
    if |xs| >= 2 {
      var left := RemoveAt(xs[1..], Opponent(xs[0], xs[1..], ledger, ids));
      PairsCover(left, ledger, ids);
      PairsCoverStep(xs, ledger, ids);
    } else if |xs| == 1 {
      assert Pairs(xs, ledger, ids) == [];
    }
  }

  lemma PairsCoverStep(xs: seq<nat>, ledger: seq<Match>, ids: set<nat>)
    requires |xs| >= 2
    requires var left := RemoveAt(xs[1..], Opponent(xs[0], xs[1..], ledger, ids));
             && multiset(Flatten(Pairs(left, ledger, ids))) <= multiset(left)
             && (|left| % 2 == 0 ==> multiset(Flatten(Pairs(left, ledger, ids))) == multiset(left))
    ensures multiset(Flatten(Pairs(xs, ledger, ids))) <= multiset(xs)
    ensures |xs| % 2 == 0 ==> multiset(Flatten(Pairs(xs, ledger, ids))) == multiset(xs)
  {
    var o := Opponent(xs[0], xs[1..], ledger, ids);
    var left := RemoveAt(xs[1..], o);
    var two: multiset<nat> := multiset{xs[0], xs[1..][o]};
    FlattenStep(xs, ledger, ids);
    SplitStep(xs, o);
    SumMonotone(two, multiset(Flatten(Pairs(left, ledger, ids))), multiset(left));
  }

  lemma FlattenStep(xs: seq<nat>, ledger: seq<Match>, ids: set<nat>)
    requires |xs| >= 2
    ensures var o := Opponent(xs[0], xs[1..], ledger, ids);
            var t := Pairs(RemoveAt(xs[1..], o), ledger, ids);
            multiset(Flatten(Pairs(xs, ledger, ids))) == multiset{xs[0], xs[1..][o]} + multiset(Flatten(t))
  {
    PairsUnfold(xs, ledger, ids);
  }

  lemma SplitStep(xs: seq<nat>, o: nat)
    requires |xs| >= 2 && o < |xs| - 1
    ensures multiset(xs) == multiset{xs[0], xs[1..][o]} + multiset(RemoveAt(xs[1..], o))
  {
    assert xs == [xs[0]] + xs[1..];
  }

  lemma SumMonotone(two: multiset<nat>, b: multiset<nat>, l: multiset<nat>)
    requires b <= l
    ensures two + b <= two + l
  {
    forall v | v in two + b ensures (two + b)[v] <= (two + l)[v] {
    }
  }

  /** The first pair: the head of the list meets the first remaining player
      they have never shared a match with, and only when they have shared
      one with everybody the player right behind them. */
  lemma PairsHead(xs: seq<nat>, ledger: seq<Match>, ids: set<nat>)
    requires |xs| >= 2
    ensures Pairs(xs, ledger, ids)[0].0 == xs[0]
    ensures forall i :: 1 <= i < |xs| && !Met(xs[0], xs[i], ledger, ids)
                        && (forall j :: 1 <= j < i ==> Met(xs[0], xs[j], ledger, ids))
                        ==> Pairs(xs, ledger, ids)[0].1 == xs[i]
    ensures (forall j :: 1 <= j < |xs| ==> Met(xs[0], xs[j], ledger, ids))
              ==> Pairs(xs, ledger, ids)[0].1 == xs[1]
  {
    var rest := xs[1..];
    var f := FirstFresh(xs[0], rest, ledger, ids);
    forall i | 1 <= i < |xs| && !Met(xs[0], xs[i], ledger, ids)
                && (forall j :: 1 <= j < i ==> Met(xs[0], xs[j], ledger, ids))
      ensures Pairs(xs, ledger, ids)[0].1 == xs[i]
    {
      assert !Met(xs[0], rest[i - 1], ledger, ids);
    }
  }

  /** Rematches are a last resort: when a pair has met before, the first
      player of that pair had met every player who was still unpaired. */
  lemma {:induction false} PairsAvoidRematches(xs: seq<nat>, ledger: seq<Match>, ids: set<nat>)
    ensures var r := Pairs(xs, ledger, ids);
            forall k, j :: 0 <= k < j < |r| && Met(r[k].0, r[k].1, ledger, ids) ==>
              Met(r[k].0, r[j].0, ledger, ids) && Met(r[k].0, r[j].1, ledger, ids)
    decreases |xs|
  {
    var r := Pairs(xs, ledger, ids);
    if |xs| >= 2 {
      var rest := xs[1..];
      var o := Opponent(xs[0], rest, ledger, ids);
      var left := RemoveAt(rest, o);
      var t := Pairs(left, ledger, ids);
      PairsAvoidRematches(left, ledger, ids);
      PairsUnfold(xs, ledger, ids);
      if Met(xs[0], rest[o], ledger, ids) {
        HeadMetAll(xs, ledger, ids);
      }
      forall k, j | 0 <= k < j < |r| && Met(r[k].0, r[k].1, ledger, ids)
        ensures Met(r[k].0, r[j].0, ledger, ids) && Met(r[k].0, r[j].1, ledger, ids)
      {
        assert r[j] == t[j - 1];
        if k > 0 {
          assert r[k] == t[k - 1];
        }
      }
    }
  }

  /** When the head is paired with someone they have met, they have met
      everybody paired after them. */
  lemma HeadMetAll(xs: seq<nat>, ledger: seq<Match>, ids: set<nat>)
    requires |xs| >= 2
    requires Met(xs[0], xs[1..][Opponent(xs[0], xs[1..], ledger, ids)], ledger, ids)
    ensures var t := Pairs(RemoveAt(xs[1..], Opponent(xs[0], xs[1..], ledger, ids)), ledger, ids);
            forall j :: 0 <= j < |t| ==> Met(xs[0], t[j].0, ledger, ids) && Met(xs[0], t[j].1, ledger, ids)
  {
    var rest := xs[1..];
    var o := Opponent(xs[0], rest, ledger, ids);
    var left := RemoveAt(rest, o);
    var t := Pairs(left, ledger, ids);
    assert FirstFresh(xs[0], rest, ledger, ids).None?;
    PairsCover(left, ledger, ids);
    forall j | 0 <= j < |t| ensures Met(xs[0], t[j].0, ledger, ids) && Met(xs[0], t[j].1, ledger, ids) {
      FlattenHas(t, j);
      assert t[j].0 in multiset(left) && t[j].1 in multiset(left);
      assert t[j].0 in multiset(rest) && t[j].1 in multiset(rest);
    }
  }

  /** One singles match of the new round: both players start at 0-0, still
      to be played; `flip` says whether the first player of the pair takes
      the team-1 side. */
  function SinglesMatch(id: nat, round: nat, court: nat, pair: (nat, nat), flip: bool): Match {
    if flip then Match(id, round, court, Singles, Ref(pair.0), Empty, Ref(pair.1), Empty, 0, 0, Scheduled)
    else Match(id, round, court, Singles, Ref(pair.1), Empty, Ref(pair.0), Empty, 0, 0, Scheduled)
  }

  /** The matches for a list of pairs: consecutive match ids from
      `firstId`, courts numbered from 1. */
  function BuildMatches(pairs: seq<(nat, nat)>, flips: seq<bool>, firstId: nat, round: nat): (r: seq<Match>)
    requires |flips| >= |pairs|
    ensures |r| == |pairs|
    ensures forall k :: 0 <= k < |r| ==> r[k] == SinglesMatch(firstId + k, round, k + 1, pairs[k], flips[k])
  {
    seq(|pairs|, k requires 0 <= k < |pairs| => SinglesMatch(firstId + k, round, k + 1, pairs[k], flips[k]))
  }

  /** The player ids a match refers to, in slot order. */
  function Refs(m: Match): seq<nat> {
    (if m.t1a.Ref? then [m.t1a.id] else []) + (if m.t1b.Ref? then [m.t1b.id] else [])
    + (if m.t2a.Ref? then [m.t2a.id] else []) + (if m.t2b.Ref? then [m.t2b.id] else [])
  }

  /** Every player id the matches refer to, match by match. */
  function Lineup(ms: seq<Match>): seq<nat> {
    if ms == [] then [] else Refs(ms[0]) + Lineup(ms[1..])
  }

  /** The matches built from a list of pairs seat exactly the paired players,
      whichever side each of them takes. */
  lemma {:induction false} LineupOfPairs(ms: seq<Match>, pairs: seq<(nat, nat)>)
    requires |ms| == |pairs|
    requires forall k :: 0 <= k < |ms| ==> multiset(Refs(ms[k])) == multiset{pairs[k].0, pairs[k].1}
    ensures multiset(Lineup(ms)) == multiset(Flatten(pairs))
    decreases |ms|
  {
    if ms != [] {
      LineupOfPairs(ms[1..], pairs[1..]);
      assert multiset([pairs[0].0, pairs[0].1]) == multiset{pairs[0].0, pairs[0].1};
    }
  }

  /** Each singles match refers to the two players of its pair and nobody
      else; the other two slots are empty. */
  lemma SinglesMatchSeats(id: nat, round: nat, court: nat, pair: (nat, nat), flip: bool)
    ensures var m := SinglesMatch(id, round, court, pair, flip);
            && multiset(Refs(m)) == multiset{pair.0, pair.1}
            && m.t1b == Empty && m.t2b == Empty
            && (if flip then m.t1a == Ref(pair.0) && m.t2a == Ref(pair.1)
                else m.t1a == Ref(pair.1) && m.t2a == Ref(pair.0))
  {
  }
}
