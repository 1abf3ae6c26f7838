/** Records shared by every part of the tournament engine: players, match
    slots, matches, and the tournament state that the operations transform.
    The registry and the schedule are kept in row order, as the two data
    frames of app.py keep them. */
module Types {

  /** Largest registry the engine accepts (MAX_PEMAIN). */
  const MaxPlayers: nat := 32

  datatype Option<+T> = None | Some(value: T)

  /** One of the four player cells of a match. `Empty` is a missing partner
      (a NaN cell), `Bye` the sentinel written into a bye placeholder, and
      `Ref(id)` a reference to a player. */
  datatype Slot = Empty | Bye | Ref(id: nat)

  /** 'Akan Datang' (still to be played) and 'Selesai' (completed). */
  datatype Status = Scheduled | Completed

  /** The `Mode` column: 'Singles' for a real match, 'Bye' for a placeholder. */
  datatype Mode = Singles | ByeRound

  datatype Player = Player(
    id: nat,
    name: string,
    points: int,    // Total_Poin: raw points, maintained by the score recorder
    games: int,     // Games_Played
    byes: int,      // Total_Bye
    wins: int,
    losses: int,
    ties: int,
    ranking: int)   // Ranking_W_L

  datatype Match = Match(
    id: nat,
    round: nat,
    court: nat,
    mode: Mode,
    t1a: Slot, t1b: Slot,
    t2a: Slot, t2b: Slot,
    score1: int, score2: int,
    status: Status)

  datatype State = State(
    players: seq<Player>,   // registry rows in insertion order
    ledger: seq<Match>,     // schedule rows in insertion order
    round: nat,             // putaran_saat_ini
    nextPlayerId: nat,
    nextMatchId: nat)

  /** The state before anything has been registered or scheduled. */
  function Initial(): State {
    State([], [], 0, 1, 1)
  }

  function Ids(players: seq<Player>): set<nat> {
    set k | 0 <= k < |players| :: players[k].id
  }

  function Slots(m: Match): seq<Slot> {
    [m.t1a, m.t1b, m.t2a, m.t2b]
  }

  /** get_player_id: a slot names a participant only when it refers to a
      player that is still in the registry; the bye sentinel, an empty cell
      and a removed player all resolve to no participant. */
  function Resolve(s: Slot, ids: set<nat>): (r: Option<nat>)
    ensures r.Some? ==> r.value in ids && s == Ref(r.value)
    ensures r.None? ==> s == Empty || s == Bye || s.id !in ids
  {
    if s.Ref? && s.id in ids then Some(s.id) else None
  }

  /** safe_get_player_id_list: the resolved participants of some slots, in
      slot order, repetitions kept. */
  function ResolveAll(slots: seq<Slot>, ids: set<nat>): (r: seq<nat>)
    ensures forall x :: x in r ==> x in ids
    ensures forall q :: multiset(r)[q] == if q in ids then multiset(slots)[Ref(q)] else 0
  {
    if slots == [] then []
    else
      assert slots == [slots[0]] + slots[1..];
      var rest := ResolveAll(slots[1..], ids);
      match Resolve(slots[0], ids)
      case Some(q) => [q] + rest
      case None => rest
  }

  function Team1(m: Match, ids: set<nat>): seq<nat> {
    ResolveAll([m.t1a, m.t1b], ids)
  }

  function Team2(m: Match, ids: set<nat>): seq<nat> {
    ResolveAll([m.t2a, m.t2b], ids)
  }

  /** The distinct resolved participants of a match. */
  function Participants(m: Match, ids: set<nat>): set<nat> {
    set q | q in ResolveAll(Slots(m), ids)
  }

  /** A registered player takes part in a match exactly when one of its four
      slots refers to them; an unregistered id never takes part. */
  lemma ParticipantsBySlot(m: Match, ids: set<nat>, q: nat)
    ensures q in Participants(m, ids) <==> q in ids && Ref(q) in Slots(m)
  {
    var r := ResolveAll(Slots(m), ids);
    var rs: multiset<nat> := multiset(r);
    var ss: multiset<Slot> := multiset(Slots(m));
    assert q in r <==> q in rs;
    assert Ref(q) in Slots(m) <==> Ref(q) in ss;
  }

  predicate IdsIncreasing(players: seq<Player>) {
    forall i, j :: 0 <= i < j < |players| ==> players[i].id < players[j].id
  }

  predicate MatchIdsIncreasing(ledger: seq<Match>) {
    forall i, j :: 0 <= i < j < |ledger| ==> ledger[i].id < ledger[j].id
  }

  /** Every player a match refers to had been issued an id below `bound`. */
  predicate RefsBelow(m: Match, bound: nat) {
    forall k :: 0 <= k < 4 && Slots(m)[k].Ref? ==> Slots(m)[k].id < bound
  }

  /** Every player a match refers to is in `reg` (the registry, where
      RefsBelow bounds the ids ever issued: a removed player's id stays
      below the counter but leaves the registry). */
  predicate RefsIn(m: Match, reg: set<nat>) {
    && (m.t1a.Ref? ==> m.t1a.id in reg) && (m.t1b.Ref? ==> m.t1b.id in reg)
    && (m.t2a.Ref? ==> m.t2a.id in reg) && (m.t2b.Ref? ==> m.t2b.id in reg)
  }

  /** A match that refers only to ids in `reg` refers only to ids below any
      bound of `reg`. */
  lemma RefsInBelow(m: Match, reg: set<nat>, bound: nat)
    requires RefsIn(m, reg) && forall x :: x in reg ==> x < bound
    ensures RefsBelow(m, bound)
  {
    assert Slots(m)[0] == m.t1a && Slots(m)[1] == m.t1b && Slots(m)[2] == m.t2a && Slots(m)[3] == m.t2b;
  }

  /** The invariant every operation keeps: at most 32 players, counters
      from 1 on, player and
      match ids strictly increasing in row order and below their counters,
      every referenced player id already issued, and every match belonging
      to a round that has been started. */
  predicate Valid(s: State) {
    && |s.players| <= MaxPlayers
    && 1 <= s.nextPlayerId && 1 <= s.nextMatchId
    && IdsIncreasing(s.players)
    && (forall k :: 0 <= k < |s.players| ==> 1 <= s.players[k].id < s.nextPlayerId)
    && MatchIdsIncreasing(s.ledger)
    && (forall k :: 0 <= k < |s.ledger| ==>
          && 1 <= s.ledger[k].id < s.nextMatchId
          && RefsBelow(s.ledger[k], s.nextPlayerId)
          && 1 <= s.ledger[k].round <= s.round)
  }

  lemma InitialValid()
    ensures Valid(Initial())
    ensures Initial().round == 0 && Initial().nextPlayerId == 1 && Initial().nextMatchId == 1
  {
  }
}
