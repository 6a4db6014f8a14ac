/** `schedule` of python/pproxy/server.py, and what round robin guarantees under changing eligibility. */
module Scheduler {
  import opened Common

  /** A proxy object, compared by identity. */
  type Server = nat

  /** Position of the first eligible server, or the length of the list. */
  function FirstEligible(list: seq<Server>, eligible: set<Server>): (i: nat)
    ensures i <= |list| && (i < |list| ==> list[i] in eligible)
    ensures forall k :: 0 <= k < i ==> list[k] !in eligible
  {
    if list == [] || list[0] in eligible then 0 else 1 + FirstEligible(list[1..], eligible)
  }

  function MovedToBack(list: seq<Server>, i: nat): (r: seq<Server>)
    requires i < |list|
    ensures |r| == |list|
  {
    list[..i] + list[i + 1..] + [list[i]]
  }

  /** The list after one round-robin call. */
  function Rotated(list: seq<Server>, eligible: set<Server>): seq<Server> {
    var i := FirstEligible(list, eligible);
    if i == |list| then list else MovedToBack(list, i)
  }

  function Picked(list: seq<Server>, eligible: set<Server>): Option<Server> {
    var i := FirstEligible(list, eligible);
    if i == |list| then None else Some(list[i])
  }

  function Candidates(list: seq<Server>, eligible: set<Server>): (r: seq<Server>)
    ensures forall s :: s in r <==> s in list && s in eligible
    ensures r == [] <==> FirstEligible(list, eligible) == |list|
    ensures r != [] ==> FirstEligible(list, eligible) < |list| && r[0] == list[FirstEligible(list, eligible)]
  {
    if list == [] then []
    else if list[0] in eligible then [list[0]] + Candidates(list[1..], eligible)
    else Candidates(list[1..], eligible)
  }

  /** The earliest of the candidates with the fewest connections. */
  ghost predicate FirstLeast(candidates: seq<Server>, connections: Server -> int, s: Server) {
    exists i :: 0 <= i < |candidates| && candidates[i] == s &&
      (forall j :: 0 <= j < |candidates| ==> connections(s) <= connections(candidates[j])) &&
      forall j :: 0 <= j < i ==> connections(s) < connections(candidates[j])
  }

  datatype Error = UnknownAlgorithm

  class Pool {
    var rserver: seq<Server>

    constructor (servers: seq<Server>)
      ensures rserver == servers
    {
      rserver := servers;
    }

    /** `list.remove`: drops the first occurrence, at position `i`. */
    method Remove(s: Server) returns (ghost i: nat)
      requires s in rserver
      modifies this
      ensures i < |old(rserver)| && old(rserver)[i] == s
      ensures forall k :: 0 <= k < i ==> old(rserver)[k] != s
      ensures rserver == old(rserver)[..i] + old(rserver)[i + 1..]
    {
      var k := 0;
      while rserver[k] != s
        invariant 0 <= k < |rserver| && s in rserver[k..] && rserver == old(rserver)
        invariant forall m :: 0 <= m < k ==> rserver[m] != s
        decreases |rserver| - k
      {
        assert rserver[k..] == [rserver[k]] + rserver[k + 1..];
        k := k + 1;
      }
      i := k;
      rserver := rserver[..k] + rserver[k + 1..];
    }

    /**
     `eligible` are the servers that are alive and match the rules at this
     call; `choice` is the random generator's. Only `rr` changes the list.
     */
    method Schedule(algorithm: string, eligible: set<Server>, connections: Server -> int, choice: nat)
      returns (r: Result<Option<Server>, Error>)
      modifies this
      ensures r.Err? <==> algorithm !in {"fa", "rr", "rc", "lc"}
      ensures r.Ok? && r.value.Some? ==> r.value.value in old(rserver) && r.value.value in eligible
      ensures r.Ok? && r.value.None? ==> forall s :: s in old(rserver) ==> s !in eligible
      ensures algorithm == "fa" ==> r == Ok(Picked(old(rserver), eligible))
      ensures algorithm == "rr" ==>
        r == Ok(Picked(old(rserver), eligible)) && rserver == Rotated(old(rserver), eligible)
      ensures algorithm != "rr" ==> rserver == old(rserver)
      ensures algorithm == "lc" && r.value.Some? ==>
        FirstLeast(Candidates(rserver, eligible), connections, r.value.value)
    {
      var candidates := Candidates(rserver, eligible);
      if algorithm == "fa" {
        return Ok(if candidates == [] then None else Some(candidates[0]));
      }
      if algorithm == "rr" {
        if candidates == [] {
          return Ok(None);
        }
        var selected := candidates[0];
        ghost var i := Remove(selected);
        assert i == FirstEligible(old(rserver), eligible);
        rserver := rserver + [selected];
        return Ok(Some(selected));
      }
      if algorithm == "rc" {
        return Ok(if candidates == [] then None else Some(candidates[choice % |candidates|]));
      }
      if algorithm == "lc" {
        if candidates == [] {
          return Ok(None);
        }
        var best := 0;
        for k := 1 to |candidates|
          invariant best < k && rserver == old(rserver)
          invariant forall j :: 0 <= j < k ==> connections(candidates[best]) <= connections(candidates[j])
          invariant forall j :: 0 <= j < best ==> connections(candidates[best]) < connections(candidates[j])
        {
          if connections(candidates[k]) < connections(candidates[best]) {
            best := k;
          }
        }
        return Ok(Some(candidates[best]));
      }
      return Err(UnknownAlgorithm);
    }
  }

  // ----- Runs of round robin -----

  /** The list after a run of calls, each with its own eligible set. */
  function ListAfter(list: seq<Server>, calls: seq<set<Server>>): seq<Server>
    decreases |calls|
  {
    if calls == [] then list else ListAfter(Rotated(list, calls[0]), calls[1..])
  }

  function Picks(list: seq<Server>, calls: seq<set<Server>>): (r: seq<Option<Server>>)
    ensures |r| == |calls|
    decreases |calls|
  {
    if calls == [] then [] else [Picked(list, calls[0])] + Picks(Rotated(list, calls[0]), calls[1..])
  }

  /** A run of `rr` calls on one pool. */
  method RunRoundRobin(servers: seq<Server>, calls: seq<set<Server>>)
    returns (picks: seq<Option<Server>>, list: seq<Server>)
    ensures picks == Picks(servers, calls) && list == ListAfter(servers, calls)
  {
    var pool := new Pool(servers);
    picks := [];
    for k := 0 to |calls|
      invariant fresh(pool)
      invariant Picks(servers, calls) == picks + Picks(pool.rserver, calls[k..])
      invariant ListAfter(servers, calls) == ListAfter(pool.rserver, calls[k..])
    {
      var r := pool.Schedule("rr", calls[k], s => 0, 0);
      assert calls[k..][1..] == calls[k + 1..];
      picks := picks + [r.value];
    }
    list := pool.rserver;
  }

  lemma RotatedPermutes(list: seq<Server>, eligible: set<Server>)
    ensures multiset(Rotated(list, eligible)) == multiset(list)
    ensures |Rotated(list, eligible)| == |list|
  {
    var i := FirstEligible(list, eligible);
    if i < |list| {
      assert list == list[..i] + [list[i]] + list[i + 1..];
    }
  }

  /** The list is a permutation of the original after any run. */
  lemma {:induction false} RunPermutes(list: seq<Server>, calls: seq<set<Server>>)
    ensures multiset(ListAfter(list, calls)) == multiset(list)
    ensures |ListAfter(list, calls)| == |list|
    decreases |calls|
  {
    if calls == [] {
    } else {
      RotatedPermutes(list, calls[0]);
      RunPermutes(Rotated(list, calls[0]), calls[1..]);
    }
  }

  lemma {:induction false} RunSplits(list: seq<Server>, a: seq<set<Server>>, b: seq<set<Server>>)
    ensures Picks(list, a + b) == Picks(list, a) + Picks(ListAfter(list, a), b)
    ensures ListAfter(list, a + b) == ListAfter(ListAfter(list, a), b)
    decreases |a|
  {
    if a == [] {
      assert a + b == b;
    } else {
      assert (a + b)[1..] == a[1..] + b;
      RunSplits(Rotated(list, a[0]), a[1..], b);
    }
  }

  /**
   A server at position `p` that stays eligible is picked within `p + 1` calls:
   each call in between moves one server from before it to behind it.
   */
  lemma {:induction false} PickedWithin(list: seq<Server>, p: nat, calls: seq<set<Server>>)
    requires p < |list| && |calls| > p
    requires forall k :: 0 <= k <= p ==> list[p] in calls[k]
    ensures exists k :: 0 <= k <= p && Picks(list, calls)[k] == Some(list[p])
    decreases p
  {
    var i := FirstEligible(list, calls[0]);
    assert i <= p by {
      assert list[p] in calls[0];
    }
    var picks := Picks(list, calls);
    if i == p {
      assert picks[0] == Some(list[p]);
    } else {
      var next := Rotated(list, calls[0]);
      assert next[p - 1] == list[p];
      PickedWithin(next, p - 1, calls[1..]);
      var k :| 0 <= k <= p - 1 && Picks(next, calls[1..])[k] == Some(next[p - 1]);
      assert picks[k + 1] == Some(list[p]);
    }
  }

  /**
   Bounded waiting: whatever happens to the other servers, one that is
   eligible on every call of a window as long as the list is picked in it.
   */
  lemma BoundedWaiting(list: seq<Server>, s: Server, calls: seq<set<Server>>, from: nat)
    requires s in list && from + |list| <= |calls|
    requires forall k :: from <= k < from + |list| ==> s in calls[k]
    ensures exists k :: from <= k < from + |list| && Picks(list, calls)[k] == Some(s)
  {
    hide Picks, ListAfter;
    var a, b := calls[..from], calls[from..];
    assert calls == a + b;
    RunSplits(list, a, b);
    RunPermutes(list, a);
    var now := ListAfter(list, a);
    assert s in multiset(list);
    assert s in multiset(now);
    var p :| 0 <= p < |now| && now[p] == s;
    assert forall k :: 0 <= k <= p ==> b[k] == calls[from + k];
    PickedWithin(now, p, b);
    var k :| 0 <= k <= p && Picks(now, b)[k] == Some(s);
    assert Picks(list, calls)[from + k] == Some(s);
  }

  // ----- Round robin is least-recently-used -----

  function Extended(history: seq<Server>, pick: Option<Server>): seq<Server> {
    if pick.Some? then history + [pick.value] else history
  }

  /** The servers picked so far, in order. */
  function History(picks: seq<Option<Server>>): seq<Server> {
    if picks == [] then [] else Extended(History(picks[..|picks| - 1]), picks[|picks| - 1])
  }

  function IndexOf(list: seq<Server>, s: Server): (i: nat)
    requires s in list
    ensures i < |list| && list[i] == s && s !in list[..i]
  {
    if list[0] == s then 0 else 1 + IndexOf(list[1..], s)
  }

  function LastIndex(list: seq<Server>, s: Server): (i: nat)
    requires s in list
    ensures i < |list| && list[i] == s && s !in list[i + 1..]
  {
    if list[|list| - 1] == s then |list| - 1 else LastIndex(list[..|list| - 1], s)
  }

  /** When a server was last used: its latest pick, or before all picks in the original order. */
  function LastUse(original: seq<Server>, history: seq<Server>, s: Server): int
    requires s in original
  {
    if s in history then LastIndex(history, s) else IndexOf(original, s) - |original|
  }

  ghost predicate ByLastUse(original: seq<Server>, history: seq<Server>, list: seq<Server>) {
    (forall s :: s in list <==> s in original) &&
    forall i, j :: 0 <= i < j < |list| ==>
      LastUse(original, history, list[i]) < LastUse(original, history, list[j])
  }

  lemma StartsByLastUse(original: seq<Server>)
    requires Distinct(original)
    ensures ByLastUse(original, [], original)
  {
    forall i | 0 <= i < |original| ensures IndexOf(original, original[i]) == i {
      var j := IndexOf(original, original[i]);
    }
  }

  lemma RotationKeepsLastUse(original: seq<Server>, history: seq<Server>, list: seq<Server>, eligible: set<Server>)
    requires ByLastUse(original, history, list)
    ensures ByLastUse(original, Extended(history, Picked(list, eligible)), Rotated(list, eligible))
  {
    hide LastUse;
    var i := FirstEligible(list, eligible);
    if i < |list| {
      MembersKept(list, i);
      forall a, b | 0 <= a < b < |list|
        ensures LastUse(original, history + [list[i]], MovedToBack(list, i)[a])
              < LastUse(original, history + [list[i]], MovedToBack(list, i)[b])
      {
        MovedPair(original, history, list, i, a, b);
      }
    }
  }

  lemma MovedPair(original: seq<Server>, history: seq<Server>, list: seq<Server>, i: nat, a: nat, b: nat)
    requires ByLastUse(original, history, list) && i < |list| && a < b < |list|
    ensures MovedToBack(list, i)[a] in original && MovedToBack(list, i)[b] in original
    ensures LastUse(original, history + [list[i]], MovedToBack(list, i)[a])
          < LastUse(original, history + [list[i]], MovedToBack(list, i)[b])
  {
    hide LastUse;
    var a' := if a < i then a else a + 1;
    assert MovedToBack(list, i)[a] == list[a'];
    LaterUse(original, history, list, i, a');
    if b == |list| - 1 {
      assert list[i] in list;
      LatestUse(original, history, list[i]);
    } else {
      var b' := if b < i then b else b + 1;
      assert MovedToBack(list, i)[b] == list[b'];
      LaterUse(original, history, list, i, b');
      assert LastUse(original, history, list[a']) < LastUse(original, history, list[b']);
    }
  }

  lemma LatestUse(original: seq<Server>, history: seq<Server>, s: Server)
    requires s in original
    ensures LastUse(original, history + [s], s) == |history|
  {
  }

  lemma MembersKept(list: seq<Server>, i: nat)
    requires i < |list|
    ensures forall s :: s in MovedToBack(list, i) <==> s in list
  {
    var next := MovedToBack(list, i);
    forall s | s in list ensures s in next {
      var k :| 0 <= k < |list| && list[k] == s;
      assert if k < i then next[k] == s else if k == i then next[|next| - 1] == s else next[k - 1] == s;
    }
  }

  lemma LaterUse(original: seq<Server>, history: seq<Server>, list: seq<Server>, i: nat, k: nat)
    requires ByLastUse(original, history, list) && i < |list| && k < |list| && k != i
    ensures list[k] in original && list[k] != list[i]
    ensures LastUse(original, history + [list[i]], list[k]) == LastUse(original, history, list[k]) < |history|
  {
    assert list[k] in list && list[i] in list;
    var history' := history + [list[i]];
    assert list[k] != list[i];
    if list[k] in history {
      assert history'[..|history'| - 1] == history;
    }
  }

  /** Call `k` of a run works on the list left by the calls before it. */
  lemma PickInRun(list: seq<Server>, calls: seq<set<Server>>, k: nat)
    requires k < |calls|
    ensures Picks(list, calls)[k] == Picked(ListAfter(list, calls[..k]), calls[k])
    ensures Picks(list, calls)[..k] == Picks(list, calls[..k])
  {
    assert calls == calls[..k] + calls[k..];
    RunSplits(list, calls[..k], calls[k..]);
  }

  lemma {:induction false} RunKeepsLastUse(original: seq<Server>, calls: seq<set<Server>>)
    requires Distinct(original)
    ensures ByLastUse(original, History(Picks(original, calls)), ListAfter(original, calls))
    decreases |calls|
  {
    hide ByLastUse;
    if calls == [] {
      StartsByLastUse(original);
    } else {
      var n := |calls| - 1;
      var list := ListAfter(original, calls[..n]);
      RunKeepsLastUse(original, calls[..n]);
      RotationKeepsLastUse(original, History(Picks(original, calls[..n])), list, calls[n]);
      PickInRun(original, calls, n);
      assert calls == calls[..n] + [calls[n]];
      RunSplits(original, calls[..n], [calls[n]]);
      assert ListAfter(list, [calls[n]]) == Rotated(list, calls[n]);
    }
  }

  lemma FirstIsLeast(original: seq<Server>, history: seq<Server>, list: seq<Server>, eligible: set<Server>, s: Server)
    requires ByLastUse(original, history, list) && s in original && s in eligible
    ensures var pick := Picked(list, eligible);
      pick.Some? && pick.value in original && pick.value in eligible &&
      LastUse(original, history, pick.value) <= LastUse(original, history, s)
  {
    var j :| 0 <= j < |list| && list[j] == s;
    var i := FirstEligible(list, eligible);
    assert i <= j;
    assert list[i] in list;
  }

  /** The pick at call `k` is the eligible server that was used least recently, if there is one. */
  ghost predicate LeastRecentAt(original: seq<Server>, calls: seq<set<Server>>, k: nat)
    requires k < |calls|
  {
    var history, pick := History(Picks(original, calls)[..k]), Picks(original, calls)[k];
    forall s :: s in original && s in calls[k] ==>
      pick.Some? && pick.value in original && pick.value in calls[k] &&
      LastUse(original, history, pick.value) <= LastUse(original, history, s)
  }

  /**
   At every call of every run, the pick is the eligible server that was used
   least recently, with unused servers first and in their original order.
   */
  lemma PicksLeastRecent(original: seq<Server>, calls: seq<set<Server>>, k: nat)
    requires Distinct(original) && k < |calls|
    ensures LeastRecentAt(original, calls, k)
  {
    hide LastUse, History;
    PickInRun(original, calls, k);
    RunKeepsLastUse(original, calls[..k]);
    var history := History(Picks(original, calls)[..k]);
    forall s | s in original && s in calls[k]
      ensures var pick := Picks(original, calls)[k];
        pick.Some? && pick.value in original && pick.value in calls[k] &&
        LastUse(original, history, pick.value) <= LastUse(original, history, s)
    {
      FirstIsLeast(original, history, ListAfter(original, calls[..k]), calls[k], s);
    }
  }

  // ----- A server listed more than once -----

  /** The positions of the original list, as the servers of a list without repetitions. */
  function Entries(n: nat): (r: seq<Server>)
    ensures |r| == n && forall i :: 0 <= i < n ==> r[i] == i
  {
    seq(n, i => i)
  }

  function EligibleEntries(original: seq<Server>, eligible: set<Server>): set<Server> {
    set i | 0 <= i < |original| && original[i] in eligible
  }

  function EntryCalls(original: seq<Server>, calls: seq<set<Server>>): (r: seq<set<Server>>)
    ensures |r| == |calls|
  {
    seq(|calls|, k requires 0 <= k < |calls| => EligibleEntries(original, calls[k]))
  }

  /** The list shows, place by place, the servers of the entries. */
  ghost predicate Shows(original: seq<Server>, entries: seq<Server>, list: seq<Server>) {
    |entries| == |list| &&
    forall i :: 0 <= i < |list| ==> entries[i] < |original| && original[entries[i]] == list[i]
  }

  lemma {:induction false} SameFirst(
      original: seq<Server>, entries: seq<Server>, list: seq<Server>, eligible: set<Server>)
    requires Shows(original, entries, list)
    ensures FirstEligible(entries, EligibleEntries(original, eligible)) == FirstEligible(list, eligible)
  {
    if list == [] {
    } else {
      assert entries[0] in EligibleEntries(original, eligible) <==> list[0] in eligible;
      SameFirst(original, entries[1..], list[1..], eligible);
    }
  }

  lemma ShowsRotated(original: seq<Server>, entries: seq<Server>, list: seq<Server>, eligible: set<Server>)
    requires Shows(original, entries, list)
    ensures Shows(original, Rotated(entries, EligibleEntries(original, eligible)), Rotated(list, eligible))
  {
    hide FirstEligible, EligibleEntries;
    SameFirst(original, entries, list, eligible);
  }

  ghost predicate ShowsPick(original: seq<Server>, entry: Option<Server>, pick: Option<Server>) {
    if entry.None? then pick.None? else entry.value < |original| && pick == Some(original[entry.value])
  }

  lemma ShowsPicked(original: seq<Server>, entries: seq<Server>, list: seq<Server>, eligible: set<Server>)
    requires Shows(original, entries, list)
    ensures ShowsPick(original, Picked(entries, EligibleEntries(original, eligible)), Picked(list, eligible))
  {
    hide FirstEligible, EligibleEntries;
    SameFirst(original, entries, list, eligible);
  }

  /** A run on a list with repetitions is the run on its entries, seen through the original list. */
  lemma {:induction false} EntryRun(
      original: seq<Server>, entries: seq<Server>, list: seq<Server>, calls: seq<set<Server>>)
    requires Shows(original, entries, list)
    ensures Shows(original, ListAfter(entries, EntryCalls(original, calls)), ListAfter(list, calls))
    ensures forall k :: 0 <= k < |calls| ==>
      ShowsPick(original, Picks(entries, EntryCalls(original, calls))[k], Picks(list, calls)[k])
    decreases |calls|
  {
    if calls == [] {
    } else {
      hide FirstEligible, EligibleEntries, Rotated, Picked, Shows, ShowsPick;
      ShowsPicked(original, entries, list, calls[0]);
      ShowsRotated(original, entries, list, calls[0]);
      assert EntryCalls(original, calls)[1..] == EntryCalls(original, calls[1..]);
      EntryRun(
        original, Rotated(entries, EligibleEntries(original, calls[0])), Rotated(list, calls[0]), calls[1..]);
    }
  }

  /** For every list: the pick is the server of the least recently used entry whose server is eligible. */
  lemma PicksLeastRecentEntry(original: seq<Server>, calls: seq<set<Server>>, k: nat)
    requires k < |calls|
    ensures LeastRecentAt(Entries(|original|), EntryCalls(original, calls), k)
    ensures
      var entry := Picks(Entries(|original|), EntryCalls(original, calls))[k];
      ShowsPick(original, entry, Picks(original, calls)[k]) &&
      (entry.None? ==> forall s :: s in original ==> s !in calls[k])
    ensures
      var entries := Entries(|original|);
      var lifted := EntryCalls(original, calls);
      ByLastUse(entries, History(Picks(entries, lifted)), ListAfter(entries, lifted))
  {
    hide Picks, ListAfter, LastUse, History, ByLastUse;
    var entries, lifted := Entries(|original|), EntryCalls(original, calls);
    EntryRun(original, entries, original, calls);
    RunKeepsLastUse(entries, lifted);
    PicksLeastRecent(entries, lifted, k);
    if s :| s in original && s in calls[k] {
      var i :| 0 <= i < |original| && original[i] == s;
      assert entries[i] in entries && entries[i] in lifted[k];
    }
  }

  // ----- Exactly when the servers themselves are picked by last use -----

  /** Every server `b` comes after all others. */
  ghost predicate AllBehind(list: seq<Server>, b: Server) {
    forall x, y :: 0 <= x < y < |list| && list[x] == b ==> list[y] == b
  }

  function Repeat(eligible: set<Server>, n: nat): (r: seq<set<Server>>)
    ensures |r| == n && forall i :: 0 <= i < n ==> r[i] == eligible
  {
    seq(n, i => eligible)
  }

  ghost predicate LastAre(list: seq<Server>, b: Server, n: nat) {
    n <= |list| && forall x :: |list| - n <= x < |list| ==> list[x] == b
  }

  lemma GatherStep(list: seq<Server>, b: Server, n: nat)
    requires b in list && (AllBehind(list, b) || LastAre(list, b, n))
    ensures Picked(list, {b}) == Some(b)
    ensures var next := Rotated(list, {b}); AllBehind(next, b) || LastAre(next, b, n + 1)
  {
    var i := FirstEligible(list, {b});
    var next := Rotated(list, {b});
    if AllBehind(list, b) {
      assert next == list;
    } else {
      assert i < |list| - n;
    }
  }

  /** Calls that only `b` may serve bring all its entries to the end. */
  lemma {:induction false} Gathers(list: seq<Server>, b: Server, n: nat)
    requires b in list
    ensures Picks(list, Repeat({b}, n)) == seq(n, i => Some(b))
    ensures var now := ListAfter(list, Repeat({b}, n)); AllBehind(now, b) || LastAre(now, b, n)
  {
    if n == 0 {
    } else {
      var calls := Repeat({b}, n);
      assert calls[..n - 1] == Repeat({b}, n - 1);
      Gathers(list, b, n - 1);
      var now := ListAfter(list, calls[..n - 1]);
      RunPermutes(list, calls[..n - 1]);
      assert b in multiset(list);
      assert b in multiset(now);
      GatherStep(now, b, n - 1);
      assert calls == calls[..n - 1] + [{b}];
      RunSplits(list, calls[..n - 1], [{b}]);
    }
  }

  lemma {:induction false} RepeatedHistory(b: Server, n: nat)
    ensures History(seq(n, i => Some(b))) == seq(n, i => b)
  {
    if n == 0 {
    } else {
      assert seq(n, i => Some(b))[..n - 1] == seq(n - 1, i => Some(b));
      RepeatedHistory(b, n - 1);
    }
  }

  lemma TwoPlaces(list: seq<Server>, a: Server) returns (p: nat, q: nat)
    requires multiset(list)[a] >= 2
    ensures p < q < |list| && list[p] == list[q] == a
  {
    assert a in multiset(list);
    var x :| 0 <= x < |list| && list[x] == a;
    var others := list[..x] + list[x + 1..];
    assert list == list[..x] + [a] + list[x + 1..];
    assert a in multiset(others);
    var y :| 0 <= y < |others| && others[y] == a;
    p, q := if y < x then y else x, if y < x then x else y + 1;
  }

  /** With all of `b` behind and `a` listed twice, `a` is picked twice in a row over `b`. */
  lemma PickedTwice(list: seq<Server>, a: Server, b: Server, p: nat, q: nat)
    requires AllBehind(list, b) && a != b && p < q < |list| && list[p] == list[q] == a
    ensures Picked(list, {a, b}) == Some(a) && Picked(Rotated(list, {a, b}), {a, b}) == Some(a)
  {
    var i := FirstEligible(list, {a, b});
    assert i <= p && list[i] == a;
    var next := Rotated(list, {a, b});
    assert next[q - 1] == a;
    var j := FirstEligible(next, {a, b});
    assert j <= q - 1;
    assert i <= j && next[j] == list[j + 1];
  }

  lemma OccursTwice(list: seq<Server>, p: nat, q: nat)
    requires p < q < |list| && list[p] == list[q]
    ensures multiset(list)[list[p]] >= 2
  {
    assert list == list[..p] + [list[p]] + list[p + 1..];
    assert list[p + 1..][q - p - 1] == list[q];
    assert list[q] in multiset(list[p + 1..]);
  }

  /** All calls of a list's length to `b` and then two to either: `a`, listed twice, serves both. */
  lemma PicksOverGathered(original: seq<Server>, p: nat, q: nat, b: Server)
    requires p < q < |original| && original[p] == original[q] && b in original && b != original[p]
    ensures var n, a := |original|, original[p];
      Picks(original, Repeat({b}, n) + [{a, b}, {a, b}]) == seq(n, i => Some(b)) + [Some(a), Some(a)]
  {
    hide Picks, ListAfter, Rotated;
    var first, a := Repeat({b}, |original|), original[p];
    Gathers(original, b, |original|);
    var now := ListAfter(original, first);
    RunPermutes(original, first);
    OccursTwice(original, p, q);
    var x, y := TwoPlaces(now, a);
    PickedTwice(now, a, b, x, y);
    RunSplits(original, first, [{a, b}, {a, b}]);
    TwoPicks(now, {a, b}, {a, b});
  }

  /** A server listed twice beside another one: some run picks it again although the other was used before it. */
  lemma RepetitionBreaksLastUse(original: seq<Server>, p: nat, q: nat, b: Server)
    returns (calls: seq<set<Server>>, k: nat)
    requires p < q < |original| && original[p] == original[q] && b in original && b != original[p]
    ensures k < |calls| && !LeastRecentAt(original, calls, k)
  {
    hide Picks;
    var n, a := |original|, original[p];
    calls, k := Repeat({b}, n) + [{a, b}, {a, b}], n + 1;
    PicksOverGathered(original, p, q, b);
    var picks, bs := Picks(original, calls), seq(n, i => b);
    assert picks[..k][..n] == seq(n, i => Some(b)) && picks[..k][n] == Some(a);
    RepeatedHistory(b, n);
    assert History(picks[..k]) == bs + [a];
    LatestUse(original, bs, a);
    assert bs[0] == b;
    assert LastUse(original, bs + [a], b) < n;
  }

  lemma TwoPicks(list: seq<Server>, e: set<Server>, f: set<Server>)
    ensures Picks(list, [e, f]) == [Picked(list, e), Picked(Rotated(list, e), f)]
  {
    assert [e, f][1..] == [f];
  }

  /** Every run picks servers by last use if and only if no server is listed twice, or there is only one. */
  lemma LastUseExactly(original: seq<Server>)
    ensures (forall calls, k: nat :: k < |calls| ==> LeastRecentAt(original, calls, k)) <==>
      Distinct(original) || forall s, t :: s in original && t in original ==> s == t
  {
    if Distinct(original) {
      forall calls, k: nat | k < |calls| ensures LeastRecentAt(original, calls, k) {
        PicksLeastRecent(original, calls, k);
      }
    } else if forall s, t :: s in original && t in original ==> s == t {
      forall calls, k: nat | k < |calls| ensures LeastRecentAt(original, calls, k) {
        OnlyServerPicked(original, calls, k);
      }
    } else {
      var p, q :| 0 <= p < q < |original| && original[p] == original[q];
      var s, t :| s in original && t in original && s != t;
      var calls, k := RepetitionBreaksLastUse(original, p, q, if s == original[p] then t else s);
    }
  }

  lemma OnlyServerPicked(original: seq<Server>, calls: seq<set<Server>>, k: nat)
    requires k < |calls| && forall s, t :: s in original && t in original ==> s == t
    ensures LeastRecentAt(original, calls, k)
  {
    hide LastUse, History;
    PickInRun(original, calls, k);
    RunPermutes(original, calls[..k]);
    var list := ListAfter(original, calls[..k]);
    assert forall s :: s in list <==> s in multiset(original);
    assert forall s :: s in original <==> s in multiset(list);
  }
}
