/**
 The publish order: Kahn's algorithm in rounds, each round sorted by name
 (`topological_order` of scripts/publish-crates.py).
 */
module Topology {
  import opened Common
  import opened Ordering

  /** Each crate with its internal prerequisites. */
  type Edges = map<string, set<string>>

  // ----- What the order has to satisfy -----

  /** A numbering of the crates that puts every prerequisite strictly lower. */
  ghost predicate Ranks(edges: Edges, rank: map<string, nat>) {
    rank.Keys == edges.Keys &&
    forall n, d :: n in edges && d in edges[n] ==> d in rank && rank[d] < rank[n]
  }

  ghost predicate Rankable(edges: Edges) {
    exists rank: map<string, nat> :: Ranks(edges, rank)
  }

  /** Every entry is a crate, appears once, and comes after its prerequisites. */
  ghost predicate TopologicalPrefix(edges: Edges, order: seq<string>) {
    Distinct(order) &&
    forall i :: 0 <= i < |order| ==> order[i] in edges && edges[order[i]] <= Elements(order[..i])
  }

  ghost predicate Topological(edges: Edges, order: seq<string>) {
    TopologicalPrefix(edges, order) && Elements(order) == edges.Keys
  }

  /** A set in which every crate waits for another member or for something that is not a crate. */
  ghost predicate Stuck(edges: Edges, s: set<string>) {
    s <= edges.Keys && forall n {:trigger Waits(edges, s, n)} :: n in s ==> Waits(edges, s, n)
  }

  ghost predicate LargestStuck(edges: Edges, s: set<string>) {
    Stuck(edges, s) && forall t :: Stuck(edges, t) ==> t <= s
  }

  ghost predicate Waits(edges: Edges, s: set<string>, n: string) {
    n in edges && exists d :: d in edges[n] && (d !in edges || d in s)
  }

  // ----- What makes the order deterministic -----

  /** The tight ranking: a crate of level k+1 has a prerequisite of level k. */
  ghost predicate TightOn(edges: Edges, level: map<string, nat>) {
    level.Keys <= edges.Keys &&
    (forall n, d :: n in level && d in edges[n] ==> d in level && level[d] < level[n]) &&
    (forall n {:trigger FollowsPrevious(edges, level, n)} ::
      n in level && level[n] > 0 ==> FollowsPrevious(edges, level, n))
  }

  ghost predicate FollowsPrevious(edges: Edges, level: map<string, nat>, n: string) {
    n in edges && n in level && exists d :: d in edges[n] && d in level && level[d] + 1 == level[n]
  }

  ghost predicate Levelling(edges: Edges, level: map<string, nat>) {
    level.Keys == edges.Keys && TightOn(edges, level)
  }

  ghost predicate Sooner(level: map<string, nat>, a: string, b: string)
    requires a in level && b in level
  {
    level[a] < level[b] || (level[a] == level[b] && Before(a, b))
  }

  ghost predicate SortedByLevel(level: map<string, nat>, order: seq<string>) {
    (forall i :: 0 <= i < |order| ==> order[i] in level) &&
    forall i, j :: 0 <= i < j < |order| ==> Sooner(level, order[i], order[j])
  }

  ghost predicate InRounds(edges: Edges, order: seq<string>) {
    exists level: map<string, nat> :: Levelling(edges, level) && SortedByLevel(level, order)
  }

  lemma {:induction false} LevelUnique(edges: Edges, a: map<string, nat>, b: map<string, nat>, n: string)
    requires Levelling(edges, a) && Levelling(edges, b) && n in edges
    ensures a[n] == b[n]
    decreases a[n]
  {
    forall d | d in edges[n] ensures a[d] == b[d] {
      LevelUnique(edges, a, b, d);
    }
    assert a[n] > 0 ==> FollowsPrevious(edges, a, n);
    assert b[n] > 0 ==> FollowsPrevious(edges, b, n);
  }

  lemma NoElements(s: seq<string>)
    ensures Elements(s) == {} ==> s == []
  {
    if s != [] { assert s[0] in Elements(s); }
  }

  lemma {:induction false} SortedByLevelUnique(level: map<string, nat>, p: seq<string>, q: seq<string>)
    requires SortedByLevel(level, p) && SortedByLevel(level, q)
    requires Elements(p) == Elements(q)
    ensures p == q
  {
    if p == [] {
      NoElements(q);
    } else {
      assert p[0] in Elements(p) && p[0] in q;
      assert q[0] in Elements(q) && q[0] in p;
      BeforeTotal(p[0], q[0]);
      assert p[0] == q[0];
      forall x ensures x in Elements(p[1..]) <==> x in Elements(q[1..]) {
        BeforeTotal(p[0], p[0]);
        assert p == [p[0]] + p[1..] && q == [q[0]] + q[1..];
        assert p[0] !in p[1..] && p[0] !in q[1..];
        assert x in p <==> x in Elements(p);
        assert x in q <==> x in Elements(q);
      }
      assert Elements(p[1..]) == Elements(q[1..]);
      SortedByLevelUnique(level, p[1..], q[1..]);
      assert p == [p[0]] + p[1..] && q == [q[0]] + q[1..];
    }
  }

  /** There is only one order in rounds: the sort is a function of the graph. */
  lemma OrderIsDetermined(edges: Edges, p: seq<string>, q: seq<string>)
    requires InRounds(edges, p) && InRounds(edges, q)
    requires Elements(p) == Elements(q)
    ensures p == q
  {
    var a: map<string, nat> :| Levelling(edges, a) && SortedByLevel(a, p);
    var b: map<string, nat> :| Levelling(edges, b) && SortedByLevel(b, q);
    SameLevelling(edges, a, b);
    SortedByLevelUnique(a, p, q);
  }

  lemma SameLevelling(edges: Edges, a: map<string, nat>, b: map<string, nat>)
    requires Levelling(edges, a) && Levelling(edges, b)
    ensures a == b
  {
    forall n | n in edges ensures a[n] == b[n] {
      LevelUnique(edges, a, b, n);
    }
  }

  // ----- Cycles -----

  /** A nonempty stuck set rules out every ranking: its lowest member has nothing to wait for. */
  lemma {:induction false} StuckNotRankable(edges: Edges, s: set<string>, rank: map<string, nat>, n: string)
    requires Stuck(edges, s) && Ranks(edges, rank) && n in s
    ensures false
    decreases rank[n]
  {
    assert Waits(edges, s, n);
    var d :| d in edges[n] && (d !in edges || d in s);
    StuckNotRankable(edges, s, rank, d);
  }

  /** Nothing that was ordered belongs to a stuck set. */
  lemma {:induction false} StuckAvoidsPrefix(edges: Edges, order: seq<string>, s: set<string>, i: nat)
    requires TopologicalPrefix(edges, order) && Stuck(edges, s)
    requires i <= |order|
    ensures forall j :: 0 <= j < i ==> order[j] !in s
  {
    if i == 0 {
    } else {
      StuckAvoidsPrefix(edges, order, s, i - 1);
      var n := order[i - 1];
      assert forall d :: d in edges[n] ==> d in Elements(order[..i - 1]) && d in edges && d !in s;
      assert n in s ==> Waits(edges, s, n);
    }
  }

  // ----- The loop -----

  ghost predicate RoundsDone(edges: Edges, order: seq<string>, level: map<string, nat>, round: nat) {
    TopologicalPrefix(edges, order) &&
    level.Keys == Elements(order) &&
    (forall n :: n in level ==> level[n] < round) &&
    TightOn(edges, level) &&
    SortedByLevel(level, order)
  }

  ghost function Assigned(level: map<string, nat>, round: nat, ready: seq<string>): map<string, nat> {
    level + (map n | n in ready :: round)
  }

  /** Crates not yet ordered were held back in the last round. */
  ghost predicate HeldBack(edges: Edges, level: map<string, nat>, round: nat) {
    round > 0 ==>
      forall n {:trigger Held(edges, level, round, n)} :: n in edges && n !in level ==> Held(edges, level, round, n)
  }

  ghost predicate Held(edges: Edges, level: map<string, nat>, round: nat, n: string) {
    n in edges && exists d :: d in edges[n] && (d in level ==> level[d] + 1 == round)
  }

  lemma NextRound(edges: Edges, order: seq<string>, level: map<string, nat>, round: nat, ready: seq<string>)
    requires RoundsDone(edges, order, level, round) && HeldBack(edges, level, round)
    requires Increasing(ready)
    requires forall n :: n in ready <==> n in edges && n !in order && edges[n] <= Elements(order)
    ensures RoundsDone(edges, order + ready, Assigned(level, round, ready), round + 1)
    ensures HeldBack(edges, Assigned(level, round, ready), round + 1)
  {
    var level' := Assigned(level, round, ready);
    assert level'.Keys == Elements(order + ready);
    PrefixGrows(edges, order, ready);
    assert forall n :: n in order <==> n in Elements(order);
    TightGrows(edges, level, round, ready);
    SortedGrows(level, round, order, ready);
    forall n {:trigger Held(edges, level', round + 1, n)} | n in edges && n !in level'
      ensures Held(edges, level', round + 1, n)
    {
      assert n !in ready && n !in Elements(order);
      var d :| d in edges[n] && d !in Elements(order);
      assert d !in level;
    }
  }

  lemma TightGrows(edges: Edges, level: map<string, nat>, round: nat, ready: seq<string>)
    requires TightOn(edges, level) && HeldBack(edges, level, round)
    requires forall n :: n in level ==> level[n] < round
    requires forall n :: n in ready ==> n in edges && n !in level && edges[n] <= level.Keys
    ensures TightOn(edges, Assigned(level, round, ready))
  {
    var level' := Assigned(level, round, ready);
    forall n {:trigger FollowsPrevious(edges, level', n)} | n in level' && level'[n] > 0
      ensures FollowsPrevious(edges, level', n)
    {
      FollowsGrows(edges, level, round, ready, n);
    }
    forall n, d | n in level' && d in edges[n] ensures d in level' && level'[d] < level'[n] {
      assert n in level || n in ready;
      assert d in level;
    }
  }

  lemma FollowsGrows(edges: Edges, level: map<string, nat>, round: nat, ready: seq<string>, n: string)
    requires TightOn(edges, level) && HeldBack(edges, level, round)
    requires forall m :: m in ready ==> m in edges && m !in level && edges[m] <= level.Keys
    requires n in Assigned(level, round, ready) && Assigned(level, round, ready)[n] > 0
    ensures FollowsPrevious(edges, Assigned(level, round, ready), n)
  {
    if n in ready {
      assert Held(edges, level, round, n);
      var d :| d in edges[n] && (d in level ==> level[d] + 1 == round);
      assert d in level && d !in ready;
    } else {
      assert FollowsPrevious(edges, level, n);
      var d :| d in edges[n] && d in level && level[d] + 1 == level[n];
      assert d !in ready;
    }
  }

  lemma SortedGrows(level: map<string, nat>, round: nat, order: seq<string>, ready: seq<string>)
    requires SortedByLevel(level, order) && Increasing(ready)
    requires forall n :: n in level ==> level[n] < round
    requires forall n :: n in ready ==> n !in order
    ensures SortedByLevel(Assigned(level, round, ready), order + ready)
  {
    var order', level' := order + ready, Assigned(level, round, ready);
    assert forall i :: 0 <= i < |ready| ==> ready[i] in ready;
    assert forall i :: 0 <= i < |order| ==> order[i] in order;
    forall i, j | 0 <= i < j < |order'| ensures Sooner(level', order'[i], order'[j]) {
      if j < |order| {
        assert Sooner(level, order[i], order[j]);
      }
    }
  }

  lemma PrefixGrows(edges: Edges, order: seq<string>, ready: seq<string>)
    requires TopologicalPrefix(edges, order) && Increasing(ready)
    requires forall n :: n in ready ==> n in edges && n !in order && edges[n] <= Elements(order)
    ensures TopologicalPrefix(edges, order + ready)
  {
    var order' := order + ready;
    forall i, j | 0 <= i < j < |order'| ensures order'[i] != order'[j] {
      if i >= |order| {
        BeforeTotal(order'[i], order'[j]);
      } else if j >= |order| {
        assert order'[j] in ready && order[i] in order;
      }
    }
    forall i | 0 <= i < |order'| ensures order'[i] in edges && edges[order'[i]] <= Elements(order'[..i]) {
      if i < |order| {
        assert order'[..i] == order[..i];
      } else {
        assert order'[i] in ready;
        assert order <= order'[..i];
      }
    }
  }

  /**
   Succeeds exactly when the graph can be ranked. The order lists every crate
   once, after its prerequisites, round by round and by name within a round;
   on failure the error names, sorted, the largest stuck set.
   */
  method TopologicalOrder(edges: Edges) returns (r: Result<seq<string>, seq<string>>)
    ensures r.Ok? <==> Rankable(edges)
    ensures r.Ok? ==> Topological(edges, r.value) && InRounds(edges, r.value)
    ensures r.Err? ==> r.error != [] && Increasing(r.error) && LargestStuck(edges, Elements(r.error))
  {
    var remaining: Edges := edges;
    var ordered: seq<string> := [];
    ghost var level: map<string, nat>, round: nat := map[], 0;
    Starts(edges);
    while remaining != map[]
      invariant Progress(edges, ordered, remaining, level, round)
      decreases |remaining.Keys|
    {
      var ready := ReadyNames(remaining);
      if ready == [] {
        var cycle := SortNames(remaining.Keys);
        ReportStuck(edges, ordered, remaining, level, round, cycle);
        return Err(cycle);
      }
      RoundKeepsProgress(edges, ordered, remaining, level, round, ready);
      level, round := Assigned(level, round, ready), round + 1;
      ordered, remaining := Retire(ordered, remaining, ready);
    }
    Completed(edges, ordered, remaining, level, round);
    return Ok(ordered);
  }

  method SortNames(s: set<string>) returns (r: seq<string>)
    ensures Increasing(r) && forall n :: n in r <==> n in s
  {
    r := SortedNames(s);
  }

  /** The crates with nothing left to wait for, by name. */
  method ReadyNames(remaining: Edges) returns (ready: seq<string>)
    ensures Increasing(ready) && forall n :: n in ready <==> n in remaining && remaining[n] == {}
  {
    ready := SortNames(set n | n in remaining && remaining[n] == {});
  }

  /** One round's bookkeeping: append the ready crates and strike them from everything outstanding. */
  method Retire(ordered: seq<string>, remaining: Edges, ready: seq<string>)
    returns (ordered': seq<string>, remaining': Edges)
    ensures ordered' == ordered + ready
    ensures remaining' == Struck(remaining, ready)
  {
    ordered', remaining' := ordered, remaining;
    for k := 0 to |ready|
      invariant ordered' == ordered + ready[..k]
      invariant remaining' == remaining - Elements(ready[..k])
    {
      ordered' := ordered' + [ready[k]];
      remaining' := remaining' - {ready[k]};
      assert ready[..k + 1] == ready[..k] + [ready[k]];
    }
    assert ready[..|ready|] == ready;
    remaining' := map n | n in remaining' :: remaining'[n] - Elements(ready);
  }

  function Struck(remaining: Edges, ready: seq<string>): Edges {
    map n | n in remaining && n !in ready :: remaining[n] - Elements(ready)
  }

  /** The crates not yet ordered, each with the prerequisites not yet ordered. */
  ghost predicate Outstanding(edges: Edges, order: seq<string>, remaining: Edges) {
    remaining.Keys == edges.Keys - Elements(order) &&
    forall n :: n in remaining ==> remaining[n] == edges[n] - Elements(order)
  }

  lemma ReadyMeans(edges: Edges, order: seq<string>, remaining: Edges, ready: seq<string>)
    requires Outstanding(edges, order, remaining)
    requires forall n :: n in ready <==> n in remaining && remaining[n] == {}
    ensures forall n :: n in ready <==> n in edges && n !in order && edges[n] <= Elements(order)
  {
    forall n ensures n in ready <==> n in edges && n !in order && edges[n] <= Elements(order) {
      assert n in order <==> n in Elements(order);
      if n in remaining {
        assert forall d :: d in edges[n] && d !in Elements(order) ==> d in remaining[n];
        assert edges[n] <= Elements(order) ==> remaining[n] == {};
      }
    }
  }

  lemma OutstandingAfter(edges: Edges, order: seq<string>, remaining: Edges, ready: seq<string>)
    requires Outstanding(edges, order, remaining)
    requires ready != [] && forall n :: n in ready ==> n in remaining
    ensures Outstanding(edges, order + ready, Struck(remaining, ready))
    ensures |Struck(remaining, ready).Keys| < |remaining.Keys|
  {
    assert Elements(order + ready) == Elements(order) + Elements(ready);
    assert ready[0] in ready;
    Shrinks(remaining.Keys, Struck(remaining, ready).Keys, ready[0]);
  }

  lemma Shrinks(a: set<string>, b: set<string>, x: string)
    requires b <= a && x in a && x !in b
    ensures |b| < |a|
  {
    assert b <= a - {x};
    SubsetSize(b, a - {x});
  }

  lemma {:induction false} SubsetSize<T>(a: set<T>, b: set<T>)
    requires a <= b
    ensures |a| <= |b|
  {
    if a == {} {
    } else {
      var x :| x in a;
      SubsetSize(a - {x}, b - {x});
    }
  }

  /** The loop invariant of the sort. */
  ghost predicate Progress(
      edges: Edges, order: seq<string>, remaining: Edges, level: map<string, nat>, round: nat) {
    Outstanding(edges, order, remaining) && RoundsDone(edges, order, level, round) && HeldBack(edges, level, round)
  }

  lemma Starts(edges: Edges)
    ensures Progress(edges, [], edges, map[], 0)
  {
    assert edges.Keys - Elements<string>([]) == edges.Keys;
  }

  lemma RoundKeepsProgress(
      edges: Edges, order: seq<string>, remaining: Edges, level: map<string, nat>, round: nat, ready: seq<string>)
    requires Progress(edges, order, remaining, level, round)
    requires ready != [] && Increasing(ready)
    requires forall n :: n in ready <==> n in remaining && remaining[n] == {}
    ensures Progress(edges, order + ready, Struck(remaining, ready), Assigned(level, round, ready), round + 1)
    ensures |Struck(remaining, ready).Keys| < |remaining.Keys|
  {
    OutstandingAfter(edges, order, remaining, ready);
    RoundOrders(edges, order, remaining, level, round, ready);
  }

  lemma RoundOrders(
      edges: Edges, order: seq<string>, remaining: Edges, level: map<string, nat>, round: nat, ready: seq<string>)
    requires Progress(edges, order, remaining, level, round)
    requires Increasing(ready)
    requires forall n :: n in ready <==> n in remaining && remaining[n] == {}
    ensures RoundsDone(edges, order + ready, Assigned(level, round, ready), round + 1)
    ensures HeldBack(edges, Assigned(level, round, ready), round + 1)
  {
    ReadyMeans(edges, order, remaining, ready);
    NextRound(edges, order, level, round, ready);
  }

  lemma Completed(edges: Edges, order: seq<string>, remaining: Edges, level: map<string, nat>, round: nat)
    requires Progress(edges, order, remaining, level, round) && remaining == map[]
    ensures Topological(edges, order) && InRounds(edges, order) && Rankable(edges)
  {
    assert remaining.Keys == {};
    forall n ensures n in edges <==> n in Elements(order) {
      assert n in edges && n !in Elements(order) ==> n in remaining.Keys;
      if n in Elements(order) {
        var i :| 0 <= i < |order| && order[i] == n;
      }
    }
    assert Elements(order) == edges.Keys;
    assert Levelling(edges, level);
    assert Ranks(edges, level);
  }

  lemma ReportStuck(
      edges: Edges, order: seq<string>, remaining: Edges, level: map<string, nat>, round: nat, cycle: seq<string>)
    requires Progress(edges, order, remaining, level, round)
    requires remaining != map[] && forall n :: n in remaining ==> remaining[n] != {}
    requires forall n :: n in cycle <==> n in remaining
    ensures cycle != [] && LargestStuck(edges, Elements(cycle)) && !Rankable(edges)
  {
    var s := Elements(cycle);
    forall n {:trigger Waits(edges, s, n)} | n in s ensures Waits(edges, s, n) {
      var d :| d in remaining[n];
      assert d in edges[n] && d !in Elements(order);
    }
    if rank: map<string, nat> :| Ranks(edges, rank) {
      var n :| n in remaining.Keys;
      assert n in s;
      StuckNotRankable(edges, s, rank, n);
    }
    forall t | Stuck(edges, t) ensures t <= s {
      StuckAvoidsPrefix(edges, order, t, |order|);
    }
  }
}
