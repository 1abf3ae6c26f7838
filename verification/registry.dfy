/** The player registry: registering a player under a trimmed, non-empty
    name while fewer than MaxPlayers are registered, and removing a player
    followed by a recomputation of everyone's derived statistics. */
module Registry {
  import opened Types
  import opened Stats

  /** The characters Python's `str.strip()` removes by default: those for
      which `str.isspace()` holds. */
  predicate IsSpace(c: char) {
    var n := c as int;
    || 9 <= n <= 13 || 28 <= n <= 32 || n == 0x85 || n == 0xA0 || n == 0x1680
    || 0x2000 <= n <= 0x200A || n == 0x2028 || n == 0x2029 || n == 0x202F
    || n == 0x205F || n == 0x3000
  }

  /** The first non-whitespace position at or after `i`, or |s|. */
  function SkipSpaces(s: string, i: nat): (r: nat)
    requires i <= |s|
    ensures i <= r <= |s|
    ensures forall k :: i <= k < r ==> IsSpace(s[k])
    ensures r < |s| ==> !IsSpace(s[r])
    decreases |s| - i
  {
    if i < |s| && IsSpace(s[i]) then SkipSpaces(s, i + 1) else i
  }

  /** One past the last non-whitespace position in s[lo..j], or lo. */
  function SkipSpacesBack(s: string, lo: nat, j: nat): (r: nat)
    requires lo <= j <= |s|
    ensures lo <= r <= j
    ensures forall k :: r <= k < j ==> IsSpace(s[k])
    ensures r > lo ==> !IsSpace(s[r - 1])
    decreases j - lo
  {
    if j > lo && IsSpace(s[j - 1]) then SkipSpacesBack(s, lo, j - 1) else j
  }

  /** Where `str.strip()` cuts: everything before the first bound and from
      the second bound on is whitespace, and the kept stretch, when not
      empty, starts and ends with a non-whitespace character. */
  function StripBounds(s: string): (b: (nat, nat))
    ensures b.0 <= b.1 <= |s|
    ensures forall k :: 0 <= k < b.0 ==> IsSpace(s[k])
    ensures forall k :: b.1 <= k < |s| ==> IsSpace(s[k])
    ensures b.0 < b.1 ==> !IsSpace(s[b.0]) && !IsSpace(s[b.1 - 1])
    ensures b.0 == b.1 <==> forall k :: 0 <= k < |s| ==> IsSpace(s[k])
  {
    var i := SkipSpaces(s, 0);
    (i, SkipSpacesBack(s, i, |s|))
  }

  /** `r` is the stretch of `s` starting at `i`, and everything in `s`
      before it and after it is whitespace. */
  predicate StripsAt(s: string, r: string, i: nat) {
    && i + |r| <= |s| && r == s[i..i + |r|]
    && (forall k :: 0 <= k < i ==> IsSpace(s[k]))
    && (forall k :: i + |r| <= k < |s| ==> IsSpace(s[k]))
  }

  /** `str.strip()`: the text with leading and trailing whitespace removed.
      It is empty exactly when the text is all whitespace. */
  function Trim(s: string): (r: string)
    ensures exists i :: StripsAt(s, r, i)
    ensures r == [] <==> forall k :: 0 <= k < |s| ==> IsSpace(s[k])
    ensures r == [] || (!IsSpace(r[0]) && !IsSpace(r[|r| - 1]))
  {
    var b := StripBounds(s);
    assert StripsAt(s, s[b.0..b.1], b.0);
    s[b.0..b.1]
  }

  /** Stripping is determined by its contract: any stretch of `s` with only
      whitespace around it that is empty, or starts and ends with a
      non-whitespace character, is `Trim(s)`. */
  lemma TrimUnique(s: string, r: string, i: nat)
    requires StripsAt(s, r, i)
    requires r == [] || (!IsSpace(r[0]) && !IsSpace(r[|r| - 1]))
    ensures r == Trim(s)
  {
    var b := StripBounds(s);
    if r != [] {
      assert s[i] == r[0] && s[i + |r| - 1] == r[|r| - 1];
      assert b.0 == i;
      assert b.1 == i + |r|;
    }
  }

  /** Stripping a stripped name changes nothing. */
  lemma TrimIdempotent(s: string)
    ensures Trim(Trim(s)) == Trim(s)
  {
    var t := Trim(s);
    assert StripsAt(t, t, 0);
    TrimUnique(t, t, 0);
  }

  /** A freshly registered player: every statistic zero. */
  function NewPlayer(id: nat, name: string): Player {
    Player(id, name, 0, 0, 0, 0, 0, 0, 0)
  }

  /** Registration accepts a name with at least one non-whitespace character
      while the registry holds fewer than MaxPlayers players. */
  predicate Admits(s: State, raw: string) {
    (exists k :: 0 <= k < |raw| && !IsSpace(raw[k])) && |s.players| < MaxPlayers
  }

  /** Registering a player (the `nama` branch of `index`). An accepted name
      is appended, trimmed, under id `nextPlayerId` with all-zero statistics
      and the counter advances; anything else leaves the state unchanged. */
  function AddPlayer(s: State, raw: string): (r: State)
    ensures Admits(s, raw) ==>
              && |r.players| == |s.players| + 1
              && r.players[..|s.players|] == s.players
              && r.players[|s.players|] == NewPlayer(s.nextPlayerId, Trim(raw))
              && r.nextPlayerId == s.nextPlayerId + 1
              && r.ledger == s.ledger && r.round == s.round && r.nextMatchId == s.nextMatchId
    ensures !Admits(s, raw) ==> r == s
  {
    var name := Trim(raw);
    if name != [] && |s.players| < MaxPlayers then
      var r := s.(players := s.players + [NewPlayer(s.nextPlayerId, name)], nextPlayerId := s.nextPlayerId + 1);
      assert r.players[..|s.players|] == s.players;
      r
    else
      s
  }

  /** Registration keeps the state invariant; an accepted name is stored
      without surrounding whitespace and is never empty, and its id is new:
      larger than every id in the registry. */
  lemma AddPlayerValid(s: State, raw: string)
    requires Valid(s)
    ensures Valid(AddPlayer(s, raw))
    ensures Admits(s, raw) ==>
              var p := AddPlayer(s, raw).players[|s.players|];
              && p.name != [] && !IsSpace(p.name[0]) && !IsSpace(p.name[|p.name| - 1])
              && (forall k :: 0 <= k < |s.players| ==> s.players[k].id < p.id)
  {
    var r := AddPlayer(s, raw);
    if Admits(s, raw) {
      forall k | 0 <= k < |r.ledger| ensures RefsBelow(r.ledger[k], r.nextPlayerId) {
        assert RefsBelow(s.ledger[k], s.nextPlayerId);
      }
    }
  }

  /** A newly registered player cannot appear in the schedule yet, so
      registration keeps the derived statistics up to date. */
  lemma AddPlayerKeepsStatsFresh(s: State, raw: string)
    requires Valid(s) && StatsFresh(s.players, s.ledger)
    ensures StatsFresh(AddPlayer(s, raw).players, AddPlayer(s, raw).ledger)
  {
    var r := AddPlayer(s, raw);
    if Admits(s, raw) {
      var n := |s.players|;
      var q := s.nextPlayerId;
      var ids := Ids(s.players);
      var ids' := Ids(r.players);
      assert q !in ids;
      var rc := Recompute(r.players, r.ledger);
      forall k | 0 <= k < n ensures rc[k] == r.players[k] {
        var x := s.players[k].id;
        assert x in ids && x in ids';
        TallyDependsOnMembership(x, s.ledger, ids, ids');
        assert Recompute(s.players, s.ledger)[k] == s.players[k];
      }
      UnissuedTallyZero(q, s.ledger, ids');
      assert rc[n] == r.players[n];
    }
  }

  /** An id no schedule row can refer to collects no statistics. */
  lemma UnissuedTallyZero(q: nat, ledger: seq<Match>, ids: set<nat>)
    requires forall k :: 0 <= k < |ledger| ==> RefsBelow(ledger[k], q)
    ensures TallyOf(q, ledger, ids) == Zero
  {
    forall k | 0 <= k < |ledger| ensures Contribution(q, ledger[k], ids) == Zero {
      var m := ledger[k];
      assert RefsBelow(m, q);
      assert Slots(m)[0] == m.t1a && Slots(m)[1] == m.t1b && Slots(m)[2] == m.t2a && Slots(m)[3] == m.t2b;
    }
    ZeroSum(q, ledger, ids);
  }

  lemma {:induction false} ZeroSum(q: nat, ledger: seq<Match>, ids: set<nat>)
    requires forall k :: 0 <= k < |ledger| ==> Contribution(q, ledger[k], ids) == Zero
    ensures TallyOf(q, ledger, ids) == Zero
    decreases |ledger|
  {
    if ledger != [] {
      var l' := ledger[..|ledger| - 1];
      assert ledger == l' + [ledger[|ledger| - 1]];
      ZeroSum(q, l', ids);
      TallyStep(q, l', ledger[|ledger| - 1], ids);
    }
  }

  /** The registry without the row of player `id`, other rows in order. */
  function Without(players: seq<Player>, id: nat): (r: seq<Player>)
    ensures forall p :: p in r <==> p in players && p.id != id
    ensures |r| <= |players|
  {
    if players == [] then []
    else (if players[0].id == id then [] else [players[0]]) + Without(players[1..], id)
  }

  lemma {:induction false} WithoutIncreasing(players: seq<Player>, id: nat)
    requires IdsIncreasing(players)
    ensures IdsIncreasing(Without(players, id))
    decreases |players|
  {
    if players != [] {
      var rest := Without(players[1..], id);
      WithoutIncreasing(players[1..], id);
      forall p | p in rest ensures players[0].id < p.id {
        var j :| 0 <= j < |players[1..]| && players[1..][j] == p;
        assert players[j + 1] == p;
      }
    }
  }

  lemma WithoutIds(players: seq<Player>, id: nat)
    ensures Ids(Without(players, id)) == Ids(players) - {id}
  {
    var r := Without(players, id);
    forall x | x in Ids(r) ensures x in Ids(players) - {id} {
      var k :| 0 <= k < |r| && r[k].id == x;
      assert r[k] in players;
    }
    forall x | x in Ids(players) - {id} ensures x in Ids(r) {
      var k :| 0 <= k < |players| && players[k].id == x;
      assert players[k] in r;
    }
  }

  /** Removing a player (`hapus_pemain`). A registered player's row is
      dropped and every remaining row's derived statistics are recomputed;
      an unknown id changes nothing. */
  function DeletePlayer(s: State, id: nat): (r: State)
    ensures id !in Ids(s.players) ==> r == s
    ensures id in Ids(s.players) ==>
              && Ids(r.players) == Ids(s.players) - {id}
              && r.ledger == s.ledger && r.round == s.round
              && r.nextPlayerId == s.nextPlayerId && r.nextMatchId == s.nextMatchId
              && StatsFresh(r.players, r.ledger)
  {
    if id in Ids(s.players) then
      var r := s.(players := Recompute(Without(s.players, id), s.ledger));
      WithoutIds(s.players, id);
      RecomputeIdempotent(Without(s.players, id), s.ledger);
      r
    else
      s
  }

  /** Removal keeps the state invariant and shrinks the registry by one row. */
  lemma DeletePlayerValid(s: State, id: nat)
    requires Valid(s)
    ensures Valid(DeletePlayer(s, id))
    ensures id in Ids(s.players) ==> |DeletePlayer(s, id).players| == |s.players| - 1
  {
    if id in Ids(s.players) {
      var w := Without(s.players, id);
      var r := DeletePlayer(s, id);
      WithoutIds(s.players, id);
      WithoutIncreasing(s.players, id);
      IdsCardinality(s.players);
      IdsCardinality(w);
      forall k | 0 <= k < |r.players| ensures 1 <= r.players[k].id < r.nextPlayerId {
        assert w[k] in s.players;
      }
    }
  }

  /** After a removal every survivor keeps the id, name, Total_Poin and
      Total_Bye of its old row, in the old order, and no schedule row
      resolves to the removed player any more, so their matches stop
      counting for them. */
  lemma DeletePlayerEffect(s: State, id: nat)
    requires id in Ids(s.players)
    ensures var r := DeletePlayer(s, id);
            var w := Without(s.players, id);
            && |r.players| == |w|
            && (forall k :: 0 <= k < |w| ==>
                  && r.players[k].id == w[k].id && r.players[k].name == w[k].name
                  && r.players[k].points == w[k].points && r.players[k].byes == w[k].byes)
            && (forall k :: 0 <= k < |r.ledger| ==> id !in Participants(r.ledger[k], Ids(r.players)))
  {
    var r := DeletePlayer(s, id);
    forall k | 0 <= k < |r.ledger| ensures id !in Participants(r.ledger[k], Ids(r.players)) {
      ParticipantsBySlot(r.ledger[k], Ids(r.players), id);
    }
  }

  /** With strictly increasing ids, the registry has as many ids as rows. */
  lemma {:induction false} IdsCardinality(players: seq<Player>)
    requires IdsIncreasing(players)
    ensures |Ids(players)| == |players|
    decreases |players|
  {
    if players != [] {
      var n := |players|;
      var init := players[..n - 1];
      assert IdsIncreasing(init);
      IdsCardinality(init);
      assert Ids(players) == Ids(init) + {players[n - 1].id} by {
        forall x | x in Ids(players) ensures x in Ids(init) + {players[n - 1].id} {
          var k :| 0 <= k < n && players[k].id == x;
          if k < n - 1 { assert init[k].id == x; }
        }
      }
      assert players[n - 1].id !in Ids(init) by {
        forall k | 0 <= k < n - 1 ensures init[k].id != players[n - 1].id {
          assert init[k].id == players[k].id;
        }
      }
    }
  }

  /** A newcomer starts with Total_Poin 0 and has earned nothing: in a
      consistent state no issued cell names an id that was not yet issued,
      so every existing row gives the new id no points. */
  lemma AddPlayerKeepsPointsFresh(s: State, raw: string)
    requires Valid(s) && PointsFresh(s.players, s.ledger)
    ensures var r := AddPlayer(s, raw);
            PointsFresh(r.players, r.ledger)
  {
    var r := AddPlayer(s, raw);
    if Admits(s, raw) {
      UnissuedEarnsNothing(s.nextPlayerId, s.ledger);
      forall k | 0 <= k < |r.players| ensures r.players[k].points == EarnedOf(r.players[k].id, r.ledger) {
        if k < |s.players| {
          assert r.players[k] == r.players[..|s.players|][k];
        }
      }
    }
  }

  /** An id no issued cell reaches has earned no points from the schedule. */
  lemma UnissuedEarnsNothing(q: nat, ledger: seq<Match>)
    requires forall k :: 0 <= k < |ledger| ==> RefsBelow(ledger[k], q)
    ensures EarnedOf(q, ledger) == 0
  {
    forall j | 0 <= j < |ledger| ensures Earned(q, ledger[j]) == 0 {
      var m := ledger[j];
      assert RefsBelow(m, q);
      assert Slots(m)[0] == m.t1a && Slots(m)[1] == m.t1b && Slots(m)[2] == m.t2a && Slots(m)[3] == m.t2b;
    }
    EarnedZero(q, ledger);
  }

  /** Removing a player leaves every remaining player's Total_Poin as it
      was, and the schedule with it, so the points of those who stay still
      add up from their results. */
  lemma DeletePlayerKeepsPointsFresh(s: State, id: nat)
    requires PointsFresh(s.players, s.ledger)
    ensures var r := DeletePlayer(s, id);
            PointsFresh(r.players, r.ledger)
  {
    if id in Ids(s.players) {
      DeletePlayerEffect(s, id);
      var w := Without(s.players, id);
      forall k | 0 <= k < |w| ensures w[k].points == EarnedOf(w[k].id, s.ledger) {
        assert w[k] in s.players;
      }
    }
  }
}
