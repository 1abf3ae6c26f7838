/** The order in which the round generator considers players, and the choice
    of the player who sits out when the count is odd.

    From the second round on, players are sorted by Ranking_W_L descending,
    then Total_Poin descending, then Games_Played ascending. The sort is
    stable and the registry is kept in ascending id order, so rows with equal
    keys stay in id order. The first round uses a random arrangement, which
    is supplied by the caller as a permutation of row positions. */
module Priority {
  import opened Types

  /** `a` has strictly better sort keys than `b`. */
  predicate Outranks(a: Player, b: Player) {
    || a.ranking > b.ranking
    || (a.ranking == b.ranking && a.points > b.points)
    || (a.ranking == b.ranking && a.points == b.points && a.games < b.games)
  }

  predicate SameKeys(a: Player, b: Player) {
    a.ranking == b.ranking && a.points == b.points && a.games == b.games
  }

  /** `a` comes before `b` in the Swiss ladder order: better keys, or equal
      keys and an earlier (smaller) id. */
  predicate Precedes(a: Player, b: Player) {
    Outranks(a, b) || (SameKeys(a, b) && a.id < b.id)
  }

  /** Of two players with different ids, exactly one comes first, and the
      order is transitive: the ladder order is a strict total order. */
  lemma PrecedesTotalOrder(a: Player, b: Player, c: Player)
    ensures a.id != b.id ==> (Precedes(a, b) <==> !Precedes(b, a))
    ensures Precedes(a, b) && Precedes(b, c) ==> Precedes(a, c)
    ensures !Precedes(a, a)
  {
  }

  predicate DistinctIds(xs: seq<Player>) {
    forall i, j :: 0 <= i < j < |xs| ==> xs[i].id != xs[j].id
  }

  /** Every row comes before every later row. */
  predicate Ordered(xs: seq<Player>) {
    forall i, j :: 0 <= i < j < |xs| ==> Precedes(xs[i], xs[j])
  }

  /** `x` placed in front of the first row it comes before. */
  function Insert(x: Player, xs: seq<Player>): (r: seq<Player>)
    ensures |r| == |xs| + 1
    ensures multiset(r) == multiset(xs) + multiset{x}
    ensures forall p :: p in r <==> p == x || p in xs
  {
    if xs == [] then [x]
    else if Precedes(x, xs[0]) then [x] + xs
    else
      var t := Insert(x, xs[1..]);
      assert xs == [xs[0]] + xs[1..];
      [xs[0]] + t
  }

  lemma {:induction false} InsertOrdered(x: Player, xs: seq<Player>)
    requires Ordered(xs) && DistinctIds(xs)
    requires forall k :: 0 <= k < |xs| ==> xs[k].id != x.id
    ensures Ordered(Insert(x, xs)) && DistinctIds(Insert(x, xs))
    decreases |xs|
  {
    if xs != [] && !Precedes(x, xs[0]) {
      var t := Insert(x, xs[1..]);
      InsertOrdered(x, xs[1..]);
      PrecedesTotalOrder(x, xs[0], x);
      forall j | 0 <= j < |t| ensures Precedes(xs[0], t[j]) && xs[0].id != t[j].id {
        assert t[j] in t;
        if t[j] != x {
          var i :| 0 <= i < |xs[1..]| && xs[1..][i] == t[j];
          assert t[j] == xs[i + 1];
        }
      }
      ConsOrdered(xs[0], t);
    } else if xs != [] {
      forall j | 0 <= j < |xs| ensures Precedes(x, xs[j]) && x.id != xs[j].id {
        if j > 0 {
          PrecedesTotalOrder(x, xs[0], xs[j]);
        }
      }
      ConsOrdered(x, xs);
    }
  }

  /** A row that comes before every row of an ordered sequence, with an id
      of its own, can be put in front of it. */
  lemma ConsOrdered(h: Player, t: seq<Player>)
    requires Ordered(t) && DistinctIds(t)
    requires forall j :: 0 <= j < |t| ==> Precedes(h, t[j]) && h.id != t[j].id
    ensures Ordered([h] + t) && DistinctIds([h] + t)
  {
    var r := [h] + t;
    forall i, j | 0 <= i < j < |r| ensures Precedes(r[i], r[j]) && r[i].id != r[j].id {
      assert r[j] == t[j - 1];
      if i > 0 {
        assert r[i] == t[i - 1];
      }
    }
  }

  /** The ladder order of a registry (an insertion sort on Precedes). */
  function Sort(xs: seq<Player>): (r: seq<Player>)
    requires DistinctIds(xs)
    ensures Ordered(r) && DistinctIds(r)
    ensures |r| == |xs| && multiset(r) == multiset(xs)
    ensures forall p :: p in r <==> p in xs
  {
    if xs == [] then []
    else
      var t := Sort(xs[1..]);
      SortStep(xs, t);
      assert xs == [xs[0]] + xs[1..];
      Insert(xs[0], t)
  }

  lemma SortStep(xs: seq<Player>, t: seq<Player>)
    requires xs != [] && DistinctIds(xs)
    requires Ordered(t) && DistinctIds(t)
    requires forall p :: p in t <==> p in xs[1..]
    ensures Ordered(Insert(xs[0], t)) && DistinctIds(Insert(xs[0], t))
  {
    forall k | 0 <= k < |t| ensures t[k].id != xs[0].id {
      assert t[k] in xs[1..];
      var i :| 0 <= i < |xs[1..]| && xs[1..][i] == t[k];
      assert t[k] == xs[i + 1];
    }
    InsertOrdered(xs[0], t);
  }

  /** A sequence in ladder order is determined by its rows: two ordered
      arrangements of the same rows are equal. This is what makes the
      stable multi-key sort a function of the registry alone. */
  lemma {:induction false} OrderedUnique(a: seq<Player>, b: seq<Player>)
    requires Ordered(a) && Ordered(b) && multiset(a) == multiset(b)
    ensures a == b
    decreases |a|
  {
    assert |a| == |multiset(a)| == |multiset(b)| == |b|;
    if a != [] {
      assert a[0] in multiset(b);
      assert b[0] in multiset(a);
      if a[0] != b[0] {
        var i :| 0 <= i < |a| && a[i] == b[0];
        var j :| 0 <= j < |b| && b[j] == a[0];
        assert Precedes(a[0], b[0]);
        assert Precedes(b[0], a[0]);
        PrecedesTotalOrder(a[0], b[0], a[0]);
        assert false;
      }
      assert a == [a[0]] + a[1..];
      assert b == [b[0]] + b[1..];
      assert multiset(a) == multiset{a[0]} + multiset(a[1..]);
      assert multiset(b) == multiset{b[0]} + multiset(b[1..]);
      calc {
        multiset(a[1..]);
        multiset(a) - multiset{a[0]};
        multiset(b) - multiset{b[0]};
        multiset(b[1..]);
      }
      assert Ordered(a[1..]) by {
        forall i, j | 0 <= i < j < |a| - 1 ensures Precedes(a[1..][i], a[1..][j]) {
          assert a[1..][i] == a[i + 1] && a[1..][j] == a[j + 1];
        }
      }
      assert Ordered(b[1..]) by {
        forall i, j | 0 <= i < j < |b| - 1 ensures Precedes(b[1..][i], b[1..][j]) {
          assert b[1..][i] == b[i + 1] && b[1..][j] == b[j + 1];
        }
      }
      OrderedUnique(a[1..], b[1..]);
    }
  }

  /** `perm` lists every row position below `n` exactly once. */
  predicate IsShuffle(perm: seq<nat>, n: nat) {
    && |perm| == n
    && (forall k :: 0 <= k < n ==> perm[k] < n)
    && (forall i, j :: 0 <= i < j < n ==> perm[i] != perm[j])
    && (forall v :: 0 <= v < n ==> v in perm)
  }

  /** The rows rearranged by a shuffle: row k of the result is row
      `perm[k]` of the input. */
  function Arrange(xs: seq<Player>, perm: seq<nat>): (r: seq<Player>)
    requires IsShuffle(perm, |xs|)
    ensures |r| == |xs|
    ensures forall k :: 0 <= k < |r| ==> r[k] == xs[perm[k]]
  {
    seq(|xs|, k requires 0 <= k < |xs| => xs[perm[k]])
  }

  /** A shuffle keeps exactly the rows it was given, without repeating any. */
  lemma ArrangeKeepsRows(xs: seq<Player>, perm: seq<nat>)
    requires IsShuffle(perm, |xs|) && DistinctIds(xs)
    ensures DistinctIds(Arrange(xs, perm))
    ensures forall p :: p in Arrange(xs, perm) <==> p in xs
  {
    var r := Arrange(xs, perm);
    forall p | p in xs ensures p in r {
      var v :| 0 <= v < |xs| && xs[v] == p;
      assert v in perm;
      var k :| 0 <= k < |perm| && perm[k] == v;
      assert r[k] == p;
    }
  }

  /** The order the generator walks: the ladder order from the second round
      on, the caller's shuffle in the first round. */
  function Order(view: seq<Player>, round: nat, perm: seq<nat>): (r: seq<Player>)
    requires DistinctIds(view)
    requires round == 0 ==> IsShuffle(perm, |view|)
    ensures |r| == |view| && DistinctIds(r)
    ensures forall p :: p in r <==> p in view
    ensures round > 0 ==> Ordered(r)
  {
    if round > 0 then Sort(view)
    else
      ArrangeKeepsRows(view, perm);
      Arrange(view, perm)
  }

  /** The bye candidates' order: fewer Total_Bye first, then lower
      Ranking_W_L. */
  predicate ByeBefore(a: Player, b: Player) {
    a.byes < b.byes || (a.byes == b.byes && a.ranking < b.ranking)
  }

  function ByeIndexFrom(xs: seq<Player>, i: nat, best: nat): (r: nat)
    requires best < i <= |xs|
    requires forall j :: 0 <= j < i ==> !ByeBefore(xs[j], xs[best])
    requires forall j :: 0 <= j < best ==> ByeBefore(xs[best], xs[j])
    ensures r < |xs|
    ensures forall j :: 0 <= j < |xs| ==> !ByeBefore(xs[j], xs[r])
    ensures forall j :: 0 <= j < r ==> ByeBefore(xs[r], xs[j])
    decreases |xs| - i
  {
    if i == |xs| then best
    else if ByeBefore(xs[i], xs[best]) then
      ByeSwitch(xs, i, best);
      ByeIndexFrom(xs, i + 1, i)
    else ByeIndexFrom(xs, i + 1, best)
  }

  lemma ByeSwitch(xs: seq<Player>, i: nat, best: nat)
    requires best < i < |xs| && ByeBefore(xs[i], xs[best])
    requires forall j :: 0 <= j < i ==> !ByeBefore(xs[j], xs[best])
    ensures forall j :: 0 <= j <= i ==> !ByeBefore(xs[j], xs[i])
    ensures forall j :: 0 <= j < i ==> ByeBefore(xs[i], xs[j])
  {
    forall j | 0 <= j < i ensures !ByeBefore(xs[j], xs[i]) && ByeBefore(xs[i], xs[j]) {
      assert !ByeBefore(xs[j], xs[best]);
    }
  }

  /** The player who sits out: the first row, in the order walked, whose bye
      keys no row beats. Sorting stably by the bye keys and taking the first
      candidate picks this row. */
  function ByeIndex(xs: seq<Player>): (r: nat)
    requires |xs| > 0
    ensures r < |xs|
    ensures forall j :: 0 <= j < |xs| ==> !ByeBefore(xs[j], xs[r])
    ensures forall j :: 0 <= j < r ==> ByeBefore(xs[r], xs[j])
  {
    ByeIndexFrom(xs, 1, 0)
  }

  /** The two properties of ByeIndex single out one row: no other index has
      unbeaten bye keys and strictly better keys than every earlier row. */
  lemma ByeIndexUnique(xs: seq<Player>, i: nat)
    requires i < |xs|
    requires forall j :: 0 <= j < |xs| ==> !ByeBefore(xs[j], xs[i])
    requires forall j :: 0 <= j < i ==> ByeBefore(xs[i], xs[j])
    ensures i == ByeIndex(xs)
  {
  }
}
