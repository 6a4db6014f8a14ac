/**
 Drains of one `CompatibleStreamWriter` that overlap. `drain` of
 python/eggress/_asyncio_adapter.py takes the whole buffer in hand before it
 first awaits the transport and holds no lock, so several tasks can be sending
 at once, scheduled in any order. Accepted bytes are named by their position.
 */
module OverlappingDrains {
  import opened Common
  import StreamWriter

  /** A drain in progress: its number, and the bytes it still has in hand. */
  datatype Hand = Hand(drain: nat, lo: nat, hi: nat)

  predicate Holds(h: Hand, p: nat) {
    h.lo <= p < h.hi
  }

  function Span(h: Hand): set<nat> {
    set p: nat | p < h.hi && Holds(h, p)
  }

  /** A byte on the wire: where it was accepted, and the drain that sent it. */
  datatype Sent = Sent(at: nat, drain: nat)

  /** All bytes accepted, of which those from `buffered` on are in the buffer; drains in progress, oldest first. */
  datatype State = State(
    accepted: seq<byte>, buffered: nat, begun: nat, hands: seq<Hand>, sent: seq<Sent>, lost: set<nat>)

  datatype Step =
    | Write(data: seq<byte>)
    | Begin
    | Take(i: nat, count: int)
    | Raise(i: nat)

  const START := State([], 0, 0, [], [], {})

  function Without(hands: seq<Hand>, i: nat): seq<Hand>
    requires i < |hands|
  {
    hands[..i] + hands[i + 1..]
  }

  /** A drain that raises forgets what it has in hand. */
  function Drop(s: State, i: nat): State
    requires i < |s.hands|
  {
    s.(lost := s.lost + Span(s.hands[i]), hands := Without(s.hands, i))
  }

  function HandOver(h: Hand, n: nat): seq<Sent> {
    seq(n, k requires 0 <= k < n => Sent(h.lo + k, h.drain))
  }

  /** The i-th oldest drain hands over `n` bytes, and is done when these are its last. */
  function Advance(s: State, i: nat, n: nat): State
    requires i < |s.hands| && s.hands[i].lo + n <= s.hands[i].hi
  {
    var h := s.hands[i];
    s.(sent := s.sent + HandOver(h, n),
       hands := if h.lo + n == h.hi then Without(s.hands, i) else s.hands[i := h.(lo := h.lo + n)])
  }

  function Next(s: State, step: Step): State {
    match step
    case Write(data) => s.(accepted := s.accepted + data)
    case Begin =>
      if s.buffered >= |s.accepted| then s
      else
        s.(hands := s.hands + [Hand(s.begun, s.buffered, |s.accepted|)], buffered := |s.accepted|, begun := s.begun + 1)
    case Take(i, count) =>
      if i >= |s.hands| || s.hands[i].lo >= s.hands[i].hi then s
      else if count <= 0 then Drop(s, i)
      else Advance(s, i, if count < s.hands[i].hi - s.hands[i].lo then count else s.hands[i].hi - s.hands[i].lo)
    case Raise(i) =>
      if i < |s.hands| then Drop(s, i) else s
  }

  function Run(s: State, steps: seq<Step>): State {
    if steps == [] then s else Next(Run(s, steps[..|steps| - 1]), steps[|steps| - 1])
  }

  // ----- What every step keeps -----

  /** The drains in progress hold separate stretches of what was accepted, older drains earlier ones. */
  ghost predicate HandsApart(s: State) {
    s.buffered <= |s.accepted| &&
    (forall i :: 0 <= i < |s.hands| ==>
      s.hands[i].lo < s.hands[i].hi <= s.buffered && s.hands[i].drain < s.begun) &&
    forall i, j :: 0 <= i < j < |s.hands| ==>
      s.hands[i].hi <= s.hands[j].lo && s.hands[i].drain < s.hands[j].drain
  }

  /** A sent byte lies before what its own and younger drains still hold, and behind what older ones do. */
  ghost predicate Clear(x: Sent, h: Hand) {
    if x.drain <= h.drain then x.at < h.lo else h.hi <= x.at
  }

  /** Older drains sent earlier bytes, and each drain sent its bytes in order. */
  ghost predicate SentApart(s: State) {
    (forall k :: 0 <= k < |s.sent| ==> s.sent[k].at < s.buffered && s.sent[k].drain < s.begun) &&
    (forall k, i :: 0 <= k < |s.sent| && 0 <= i < |s.hands| ==> Clear(s.sent[k], s.hands[i])) &&
    (forall k, m :: 0 <= k < m < |s.sent| ==> Behind(s.sent[k], s.sent[m]))
  }

  /** The later byte lies behind the earlier one exactly when no younger drain had the earlier turn. */
  ghost predicate Behind(earlier: Sent, later: Sent) {
    earlier.at != later.at && (earlier.at < later.at <==> earlier.drain <= later.drain)
  }

  ghost predicate Invariant(s: State) {
    HandsApart(s) && SentApart(s)
  }

  lemma DropKeeps(s: State, i: nat)
    requires Invariant(s) && i < |s.hands|
    ensures Invariant(Drop(s, i))
  {
  }

  /** Which drain in progress is the j-th after the i-th has handed over `n` bytes. */
  function Source(s: State, i: nat, n: nat, j: nat): nat
    requires i < |s.hands|
  {
    if s.hands[i].lo + n == s.hands[i].hi && j >= i then j + 1 else j
  }

  lemma HandAt(s: State, i: nat, n: nat, j: nat)
    requires i < |s.hands| && s.hands[i].lo + n <= s.hands[i].hi && j < |Advance(s, i, n).hands|
    ensures var k := Source(s, i, n, j);
      k < |s.hands| && Advance(s, i, n).hands[j] == s.hands[k].(lo := s.hands[k].lo + if k == i then n else 0)
  {
  }

  lemma AdvanceKeepsHands(s: State, i: nat, n: nat)
    requires HandsApart(s) && i < |s.hands| && s.hands[i].lo + n <= s.hands[i].hi
    ensures HandsApart(Advance(s, i, n))
  {
    var t := Advance(s, i, n);
    hide Advance;
    assert t.buffered == s.buffered && t.accepted == s.accepted && t.begun == s.begun by { AdvanceFrame(s, i, n); }
    forall j | 0 <= j < |t.hands|
      ensures t.hands[j].lo < t.hands[j].hi <= t.buffered && t.hands[j].drain < t.begun
    {
      HandAt(s, i, n, j);
    }
    forall j, k | 0 <= j < k < |t.hands|
      ensures t.hands[j].hi <= t.hands[k].lo && t.hands[j].drain < t.hands[k].drain
    {
      HandAt(s, i, n, j);
      HandAt(s, i, n, k);
    }
  }

  lemma AdvanceFrame(s: State, i: nat, n: nat)
    requires i < |s.hands| && s.hands[i].lo + n <= s.hands[i].hi
    ensures var t := Advance(s, i, n);
      t.buffered == s.buffered && t.accepted == s.accepted && t.begun == s.begun && t.lost == s.lost
  {
  }

  /** What was sent before stays clear of the hands, and so does what the i-th drain sends now. */
  lemma AdvanceStaysClear(s: State, i: nat, n: nat, x: Sent, j: nat)
    requires HandsApart(s) && i < |s.hands| && s.hands[i].lo + n <= s.hands[i].hi
    requires j < |Advance(s, i, n).hands|
    requires x in HandOver(s.hands[i], n) || forall h :: h in s.hands ==> Clear(x, h)
    ensures Clear(x, Advance(s, i, n).hands[j])
  {
    var h := s.hands[i];
    var g := Advance(s, i, n).hands[j];
    if h.lo + n == h.hi {
      assert g == s.hands[if j < i then j else j + 1];
    } else {
      assert g == if j == i then h.(lo := h.lo + n) else s.hands[j];
      assert s.hands[j] in s.hands;
    }
    if x in HandOver(h, n) {
      var k :| 0 <= k < n && HandOver(h, n)[k] == x;
      assert x == Sent(h.lo + k, h.drain);
    }
  }

  lemma AdvanceStaysBehind(s: State, i: nat, n: nat, k: nat, m: nat)
    requires Invariant(s) && i < |s.hands| && s.hands[i].lo + n <= s.hands[i].hi
    requires k < m < |s.sent| + n
    ensures Behind(Advance(s, i, n).sent[k], Advance(s, i, n).sent[m])
  {
    hide HandsApart;
    if m >= |s.sent| && k < |s.sent| {
      assert Clear(s.sent[k], s.hands[i]);
    }
  }

  lemma AdvanceKeeps(s: State, i: nat, n: nat)
    requires Invariant(s) && i < |s.hands| && s.hands[i].lo + n <= s.hands[i].hi
    ensures Invariant(Advance(s, i, n))
  {
    hide Clear, Behind;
    var t := Advance(s, i, n);
    AdvanceKeepsHands(s, i, n);
    forall k, j | 0 <= k < |t.sent| && 0 <= j < |t.hands| ensures Clear(t.sent[k], t.hands[j]) {
      if k < |s.sent| {
        assert forall h :: h in s.hands ==> Clear(s.sent[k], h);
      }
      AdvanceStaysClear(s, i, n, t.sent[k], j);
    }
    forall k, m | 0 <= k < m < |t.sent| ensures Behind(t.sent[k], t.sent[m]) {
      AdvanceStaysBehind(s, i, n, k, m);
    }
  }

  lemma BeginKeeps(s: State)
    requires Invariant(s)
    ensures Invariant(Next(s, Begin))
  {
  }

  lemma WriteKeeps(s: State, data: seq<byte>)
    requires Invariant(s)
    ensures Invariant(Next(s, Write(data)))
  {
  }

  lemma StepKeeps(s: State, step: Step)
    requires Invariant(s)
    ensures Invariant(Next(s, step))
  {
    hide Advance, Drop, SentApart;
    match step
    case Write(data) => WriteKeeps(s, data);
    case Begin => BeginKeeps(s);
    case Take(i, count) =>
      if i < |s.hands| {
        if count <= 0 {
          DropKeeps(s, i);
        } else {
          AdvanceKeeps(s, i, if count < s.hands[i].hi - s.hands[i].lo then count else s.hands[i].hi - s.hands[i].lo);
        }
      }
    case Raise(i) =>
      if i < |s.hands| {
        DropKeeps(s, i);
      }
  }

  lemma {:induction false} Reachable(steps: seq<Step>)
    ensures Invariant(Run(START, steps))
  {
    if steps == [] {
    } else {
      Reachable(steps[..|steps| - 1]);
      StepKeeps(Run(START, steps[..|steps| - 1]), steps[|steps| - 1]);
    }
  }

  lemma {:induction false} RunConcat(s: State, a: seq<Step>, b: seq<Step>)
    ensures Run(s, a + b) == Run(Run(s, a), b)
  {
    if b == [] {
      assert a + b == a;
    } else {
      assert (a + b)[..|a + b| - 1] == a + b[..|b| - 1];
      RunConcat(s, a, b[..|b| - 1]);
    }
  }

  // ----- No byte is sent twice or disappears unnoticed -----

  ghost predicate OnWire(s: State, p: nat) {
    exists k :: 0 <= k < |s.sent| && s.sent[k].at == p
  }

  ghost predicate InHand(s: State, p: nat) {
    exists i :: 0 <= i < |s.hands| && Holds(s.hands[i], p)
  }

  /** A byte that has left the buffer is in exactly one place. */
  ghost predicate Placed(s: State, p: nat) {
    (OnWire(s, p) && p !in s.lost && !InHand(s, p)) ||
    (!OnWire(s, p) && p in s.lost && !InHand(s, p)) ||
    (!OnWire(s, p) && p !in s.lost && InHand(s, p))
  }

  ghost predicate AllPlaced(s: State) {
    (forall p :: p in s.lost ==> p < s.buffered) &&
    forall p: nat {:trigger Placed(s, p)} :: p < s.buffered ==> Placed(s, p)
  }

  lemma BeginPlaces(s: State)
    requires Invariant(s) && AllPlaced(s)
    ensures AllPlaced(Next(s, Begin))
  {
    var t := Next(s, Begin);
    forall p: nat {:trigger Placed(t, p)} | p < t.buffered ensures Placed(t, p) {
      if s.buffered < |s.accepted| {
        assert p < s.buffered ==> Placed(s, p);
        assert p >= s.buffered ==> Holds(t.hands[|s.hands|], p);
        assert InHand(s, p) ==> InHand(t, p) by {
          if i :| 0 <= i < |s.hands| && Holds(s.hands[i], p) {
            assert t.hands[i] == s.hands[i];
          }
        }
      } else {
        assert Placed(s, p);
      }
    }
  }

  lemma WithoutHolds(hands: seq<Hand>, i: nat, p: nat)
    requires i < |hands|
    ensures (exists j :: 0 <= j < |hands| && j != i && Holds(hands[j], p)) <==>
      exists j :: 0 <= j < |hands| - 1 && Holds(Without(hands, i)[j], p)
  {
    if j :| 0 <= j < |hands| && j != i && Holds(hands[j], p) {
      assert Without(hands, i)[if j < i then j else j - 1] == hands[j];
    }
    if j :| 0 <= j < |hands| - 1 && Holds(Without(hands, i)[j], p) {
      assert Without(hands, i)[j] == hands[if j < i then j else j + 1];
    }
  }

  lemma DropPlaces(s: State, i: nat)
    requires Invariant(s) && AllPlaced(s) && i < |s.hands|
    ensures AllPlaced(Drop(s, i))
  {
    var t := Drop(s, i);
    forall p: nat {:trigger Placed(t, p)} | p < t.buffered ensures Placed(t, p) {
      assert Placed(s, p);
      WithoutHolds(s.hands, i, p);
      assert OnWire(t, p) <==> OnWire(s, p);
    }
  }

  lemma AdvancePlaces(s: State, i: nat, n: nat)
    requires Invariant(s) && AllPlaced(s) && i < |s.hands| && s.hands[i].lo + n <= s.hands[i].hi
    ensures AllPlaced(Advance(s, i, n))
  {
    var t, h := Advance(s, i, n), s.hands[i];
    forall p: nat {:trigger Placed(t, p)} | p < t.buffered ensures Placed(t, p) {
      assert Placed(s, p);
      AdvanceMoves(s, i, n, p);
    }
  }

  lemma AdvanceMoves(s: State, i: nat, n: nat, p: nat)
    requires Invariant(s) && i < |s.hands| && s.hands[i].lo + n <= s.hands[i].hi
    ensures var t, h := Advance(s, i, n), s.hands[i];
      (OnWire(t, p) <==> OnWire(s, p) || h.lo <= p < h.lo + n) &&
      (InHand(t, p) <==> InHand(s, p) && !(h.lo <= p < h.lo + n))
  {
    var t, h := Advance(s, i, n), s.hands[i];
    if k :| 0 <= k < |s.sent| && s.sent[k].at == p {
      assert t.sent[k].at == p;
    }
    if h.lo <= p < h.lo + n {
      assert t.sent[|s.sent| + p - h.lo].at == p;
    }
    WithoutHolds(s.hands, i, p);
    if j :| 0 <= j < |s.hands| && s.hands[j].lo <= p < s.hands[j].hi && h.lo + n < h.hi {
      assert t.hands[j] == if j == i then h.(lo := h.lo + n) else s.hands[j];
    }
  }

  lemma StepPlaces(s: State, step: Step)
    requires Invariant(s) && AllPlaced(s)
    ensures AllPlaced(Next(s, step))
  {
    match step
    case Write(data) =>
      forall p: nat {:trigger Placed(Next(s, step), p)} | p < s.buffered ensures Placed(Next(s, step), p) {
        assert Placed(s, p);
      }
    case Begin => BeginPlaces(s);
    case Take(i, count) =>
      if i < |s.hands| {
        if count <= 0 {
          DropPlaces(s, i);
        } else {
          AdvancePlaces(s, i, if count < s.hands[i].hi - s.hands[i].lo then count else s.hands[i].hi - s.hands[i].lo);
        }
      }
    case Raise(i) =>
      if i < |s.hands| {
        DropPlaces(s, i);
      }
  }

  /** In every run, every byte that has left the buffer is sent once, lost, or in one drain's hand. */
  lemma {:induction false} BytesAccountedFor(steps: seq<Step>)
    ensures AllPlaced(Run(START, steps))
    ensures var t := Run(START, steps);
      forall k, m :: 0 <= k < m < |t.sent| ==> t.sent[k].at != t.sent[m].at
  {
    Reachable(steps);
    if steps == [] {
    } else {
      Reachable(steps[..|steps| - 1]);
      BytesAccountedFor(steps[..|steps| - 1]);
      StepPlaces(Run(START, steps[..|steps| - 1]), steps[|steps| - 1]);
    }
    var t := Run(START, steps);
    assert forall k, m :: 0 <= k < m < |t.sent| ==> Behind(t.sent[k], t.sent[m]);
  }

  // ----- When the wire keeps the order of acceptance -----

  /** Bytes go out in the order in which they were accepted. */
  ghost predicate InOrder(s: State) {
    forall k, m :: 0 <= k < m < |s.sent| ==> s.sent[k].at < s.sent[m].at
  }

  /** No drain sends after a younger one has sent. */
  ghost predicate InTurn(s: State) {
    forall k, m :: 0 <= k < m < |s.sent| ==> s.sent[k].drain <= s.sent[m].drain
  }

  lemma InOrderExactly(steps: seq<Step>)
    ensures InOrder(Run(START, steps)) <==> InTurn(Run(START, steps))
  {
    Reachable(steps);
    var t := Run(START, steps);
    assert forall k, m :: 0 <= k < m < |t.sent| ==> Behind(t.sent[k], t.sent[m]);
  }

  /** The order is kept so far, and at most one drain, the youngest to have sent, is in progress. */
  ghost predicate Safe(s: State) {
    InOrder(s) && |s.hands| <= 1 &&
    forall k, i :: 0 <= k < |s.sent| && 0 <= i < |s.hands| ==> s.sent[k].drain <= s.hands[i].drain
  }

  lemma StepKeepsSafe(s: State, step: Step)
    requires Invariant(s) && Safe(s) && (step.Begin? ==> s.hands == [])
    ensures Safe(Next(s, step))
  {
    hide Advance, HandsApart;
    if step.Take? && step.i < |s.hands| && step.count > 0 {
      var h := s.hands[step.i];
      if h.lo < h.hi {
        AdvanceKeepsSafe(s, if step.count < h.hi - h.lo then step.count else h.hi - h.lo);
      }
    }
  }

  lemma AdvanceKeepsSafe(s: State, n: nat)
    requires Invariant(s) && Safe(s) && |s.hands| == 1 && s.hands[0].lo + n <= s.hands[0].hi
    ensures Safe(Advance(s, 0, n))
  {
    hide HandsApart;
    var t := Advance(s, 0, n);
    forall k, m | 0 <= k < m < |t.sent| ensures t.sent[k].at < t.sent[m].at {
      assert k < |s.sent| ==> Clear(s.sent[k], s.hands[0]);
    }
  }

  /** A drain begins only when none is in progress. */
  ghost predicate Serial(steps: seq<Step>) {
    steps == [] ||
    (var before, step := steps[..|steps| - 1], steps[|steps| - 1];
     Serial(before) && (step.Begin? ==> Run(START, before).hands == []))
  }

  /** Drains that do not overlap keep the order. */
  lemma {:induction false} SerialKeepsOrder(steps: seq<Step>)
    requires Serial(steps)
    ensures Safe(Run(START, steps))
  {
    if steps == [] {
    } else {
      SerialKeepsOrder(steps[..|steps| - 1]);
      Reachable(steps[..|steps| - 1]);
      StepKeepsSafe(Run(START, steps[..|steps| - 1]), steps[|steps| - 1]);
    }
  }

  ghost predicate NoBegin(steps: seq<Step>) {
    forall step :: step in steps ==> !step.Begin?
  }

  lemma {:induction false} SafeStaysSafe(s: State, later: seq<Step>)
    requires Invariant(s) && Safe(s) && NoBegin(later)
    ensures Invariant(Run(s, later)) && Safe(Run(s, later))
  {
    if later == [] {
    } else {
      SafeStaysSafe(s, later[..|later| - 1]);
      assert later[|later| - 1] in later;
      StepKeeps(Run(s, later[..|later| - 1]), later[|later| - 1]);
      StepKeepsSafe(Run(s, later[..|later| - 1]), later[|later| - 1]);
    }
  }

  /** The run goes on with these steps, none of which begins a drain, and bytes overtake each other. */
  ghost predicate Reorders(s: State, later: seq<Step>) {
    NoBegin(later) && !InOrder(Run(s, later))
  }

  /** From a state, the drains in progress can put bytes out of order if and only if it is not safe. */
  lemma OrderAtRisk(steps: seq<Step>)
    ensures Safe(Run(START, steps)) <==> !exists later :: Reorders(Run(START, steps), later)
  {
    var s := Run(START, steps);
    Reachable(steps);
    if Safe(s) {
      forall later | NoBegin(later) ensures InOrder(Run(s, later)) {
        SafeStaysSafe(s, later);
      }
    } else if !InOrder(s) {
      assert Reorders(s, []);
    } else if |s.hands| > 1 {
      YoungerFirst(s);
    } else {
      var k, i :| 0 <= k < |s.sent| && 0 <= i < |s.hands| && s.sent[k].drain > s.hands[i].drain;
      OlderAfter(s, k, i);
    }
  }

  lemma RunOne(s: State, step: Step)
    ensures Run(s, [step]) == Next(s, step)
  {
    assert [step][..0] == [];
  }

  lemma OlderAfter(s: State, k: nat, i: nat)
    requires Invariant(s) && k < |s.sent| && i < |s.hands| && s.sent[k].drain > s.hands[i].drain
    ensures Reorders(s, [Take(i, 1)])
  {
    RunOne(s, Take(i, 1));
    var t := Next(s, Take(i, 1));
    assert Clear(s.sent[k], s.hands[i]);
    assert t.sent[k] == s.sent[k] && t.sent[|s.sent|].at == s.hands[i].lo;
  }

  lemma YoungerFirst(s: State)
    requires Invariant(s) && |s.hands| > 1
    ensures Reorders(s, [Take(1, 1), Take(0, 1)])
  {
    var t := Next(s, Take(1, 1));
    StepKeeps(s, Take(1, 1));
    assert t.sent[|s.sent|].drain == s.hands[1].drain && t.hands[0] == s.hands[0];
    OlderAfter(t, |s.sent|, 0);
    RunOne(s, Take(1, 1));
    assert [Take(1, 1)] + [Take(0, 1)] == [Take(1, 1), Take(0, 1)];
    RunConcat(s, [Take(1, 1)], [Take(0, 1)]);
  }

  // ----- In bytes -----

  ghost function Wire(s: State): seq<byte>
    requires Invariant(s)
  {
    seq(|s.sent|, k requires 0 <= k < |s.sent| => s.accepted[s.sent[k].at])
  }

  /** Bytes in order that leave no gap are at their own positions. */
  lemma {:induction false} NoGap(s: State, n: nat, k: nat)
    requires InOrder(s) && k < |s.sent|
    requires forall p: nat :: p < n ==> OnWire(s, p)
    requires forall m :: 0 <= m < |s.sent| ==> s.sent[m].at < n
    ensures s.sent[k].at == k < n
    decreases k
  {
    forall j | 0 <= j < k ensures s.sent[j].at == j {
      NoGap(s, n, j);
    }
    assert k > 0 ==> s.sent[k - 1].at < s.sent[k].at;
    assert k <= s.sent[k].at < n;
    assert OnWire(s, k);
    var m :| 0 <= m < |s.sent| && s.sent[m].at == k;
    assert m == k;
  }

  /** A run that kept the order, lost nothing and has no drain in progress has sent all that left the buffer. */
  lemma WireIsPrefix(steps: seq<Step>)
    ensures Invariant(Run(START, steps))
    ensures var t := Run(START, steps);
      InTurn(t) && t.lost == {} && t.hands == [] ==> Wire(t) == t.accepted[..t.buffered]
  {
    hide Invariant, InOrder, InTurn, Run;
    Reachable(steps);
    BytesAccountedFor(steps);
    InOrderExactly(steps);
    var t := Run(START, steps);
    if InTurn(t) && t.lost == {} && t.hands == [] {
      forall p: nat | p < t.buffered ensures OnWire(t, p) {
        assert Placed(t, p);
      }
      WholePrefix(t);
      PlacesAreBytes(t);
    }
  }

  lemma PlacesAreBytes(t: State)
    requires Invariant(t) && |t.sent| == t.buffered && forall k: nat :: k < |t.sent| ==> t.sent[k].at == k
    ensures Wire(t) == t.accepted[..t.buffered]
  {
  }

  lemma WholePrefix(t: State)
    requires Invariant(t) && InOrder(t) && forall p: nat :: p < t.buffered ==> OnWire(t, p)
    ensures |t.sent| == t.buffered && forall k: nat :: k < |t.sent| ==> t.sent[k].at == k
  {
    hide HandsApart, InOrder;
    var n := t.buffered;
    forall k: nat | k < |t.sent| ensures t.sent[k].at == k {
      NoGap(t, n, k);
    }
    assert !OnWire(t, |t.sent|);
    if n < |t.sent| {
      NoGap(t, n, n);
    }
  }

  /** An input on which bytes overtake each other: 9 is accepted after 7 and sent before it. */
  lemma BytesOvertake()
    ensures var t := Run(START, [Write([7]), Begin, Write([9]), Begin] + [Take(1, 1), Take(0, 1)]);
      Invariant(t) && t.accepted == [7, 9] && Wire(t) == [9, 7]
  {
    var a, b := [Write([7]), Begin, Write([9]), Begin], [Take(1, 1), Take(0, 1)];
    hide Run, Invariant, Next;
    Reachable(a + b);
    RunConcat(START, a, b);
    BothBegun();
    YoungerThenOlder();
    var t := Run(START, a + b);
    assert t.sent[0].at == 1 && t.sent[1].at == 0;
  }

  const BOTH := State([7, 9], 2, 2, [Hand(0, 0, 1), Hand(1, 1, 2)], [], {})

  lemma BothBegun()
    ensures Run(START, [Write([7]), Begin, Write([9]), Begin]) == BOTH
  {
    hide Run;
    var a := [Write([7]), Begin];
    RunTwo(START, a[0], a[1]);
    var s := Run(START, a);
    assert s == State([7], 1, 1, [Hand(0, 0, 1)], [], {});
    assert a + [Write([9]), Begin] == [Write([7]), Begin, Write([9]), Begin];
    RunConcat(START, a, [Write([9]), Begin]);
    RunTwo(s, Write([9]), Begin);
  }

  lemma YoungerThenOlder()
    ensures Run(BOTH, [Take(1, 1), Take(0, 1)]) == State([7, 9], 2, 2, [], [Sent(1, 1), Sent(0, 0)], {})
  {
    hide Run;
    RunTwo(BOTH, Take(1, 1), Take(0, 1));
    var u := Next(BOTH, Take(1, 1));
    assert u == State([7, 9], 2, 2, [Hand(0, 0, 1)], [Sent(1, 1)], {});
  }

  lemma RunTwo(s: State, a: Step, b: Step)
    ensures Run(s, [a, b]) == Next(Next(s, a), b)
  {
    assert [a, b][..1] == [a];
    RunOne(s, a);
  }

  // ----- A drain by itself -----

  /** A drain takes everything that is in the buffer. */
  lemma BeginTakesBuffer(s: State)
    requires s.buffered < |s.accepted|
    ensures Next(s, Begin).hands == s.hands + [Hand(s.begun, s.buffered, |s.accepted|)]
    ensures Next(s, Begin).buffered == |s.accepted| && Next(s, Begin).begun == s.begun + 1
  {
  }

  /** The step that an awaited call of the only drain in progress makes. */
  function StepOf(attempt: StreamWriter.Attempt): Step {
    match attempt
    case Returned(count, _) => Take(0, count)
    case Raised(_) => Raise(0)
  }

  function StepsOf(attempts: seq<StreamWriter.Attempt>): (r: seq<Step>)
    ensures |r| == |attempts|
  {
    if attempts == [] then [] else [StepOf(attempts[0])] + StepsOf(attempts[1..])
  }

  /** From `s` to `t` the only drain in progress has sent `taken` bytes, and is done, has failed, or goes on. */
  ghost predicate Progressed(s: State, h: Hand, t: State, taken: nat, done: bool, failed: bool) {
    var left := h.(lo := h.lo + taken);
    t.sent == s.sent + seq(taken, k requires 0 <= k < taken => Sent(h.lo + k, h.drain)) &&
    t.accepted == s.accepted && t.buffered == s.buffered && t.begun == s.begun &&
    t.hands == (if done || failed then [] else [left]) &&
    t.lost == (if failed then s.lost + Span(left) else s.lost)
  }

  /**
   A drain that runs by itself does what `StreamWriter` says a drain does: it
   sends the bytes that the calls take, loses the others when a call fails, and
   is still in progress only when the transport has no answer for it.
   */
  lemma {:induction false} DrainAlone(s: State, h: Hand, attempts: seq<StreamWriter.Attempt>)
    requires s.hands == [h] && h.lo < h.hi
    ensures
      var n := h.hi - h.lo;
      var t := Run(s, StepsOf(attempts[..StreamWriter.Calls(attempts, n)]));
      Progressed(s, h, t, StreamWriter.Taken(attempts, n), StreamWriter.Covers(attempts, n), Fails(attempts, n))
    decreases |attempts|
  {
    hide Run, Progressed, Next;
    var n := h.hi - h.lo;
    var calls := StreamWriter.Calls(attempts, n);
    if attempts == [] {
      StandsStill(s, h);
    } else {
      var step, rest := StepOf(attempts[0]), attempts[1..];
      var first := Next(s, step);
      var later := StepsOf(rest[..calls - 1]);
      assert attempts[..calls][0] == attempts[0] && attempts[..calls][1..] == rest[..calls - 1];
      assert StepsOf(attempts[..calls]) == [step] + later;
      RunOne(s, step);
      RunConcat(s, [step], later);
      if StreamWriter.Progresses(attempts) {
        var left := StreamWriter.Minus(n, attempts[0].count);
        OfferProgresses(s, h, attempts[0].count);
        if left > 0 {
          var h' := h.(lo := h.hi - left);
          DrainAlone(first, h', rest);
          FailsLater(attempts, n);
          Continues(s, h, first, h', Run(first, later), StreamWriter.Taken(rest, left),
            StreamWriter.Covers(rest, left), Fails(rest, left));
        } else {
          RunNone(first, later);
        }
      } else {
        OfferFails(s, h, step);
        RunNone(first, later);
      }
    }
  }

  lemma RunNone(s: State, steps: seq<Step>)
    requires steps == []
    ensures Run(s, steps) == s
  {
  }

  lemma FailsLater(attempts: seq<StreamWriter.Attempt>, n: nat)
    requires StreamWriter.Progresses(attempts) && StreamWriter.Minus(n, attempts[0].count) > 0
    ensures Fails(attempts, n) <==> Fails(attempts[1..], StreamWriter.Minus(n, attempts[0].count))
  {
  }

  lemma StandsStill(s: State, h: Hand)
    requires s.hands == [h] && h.lo < h.hi
    ensures Progressed(s, h, Run(s, StepsOf([])), 0, false, false)
  {
  }

  lemma OfferFails(s: State, h: Hand, step: Step)
    requires s.hands == [h] && h.lo < h.hi
    requires step == Raise(0) || (step.Take? && step.i == 0 && step.count <= 0)
    ensures Progressed(s, h, Next(s, step), 0, false, true)
  {
    assert Without(s.hands, 0) == [];
  }

  lemma OfferProgresses(s: State, h: Hand, count: int)
    requires s.hands == [h] && h.lo < h.hi && count > 0
    ensures var left := StreamWriter.Minus(h.hi - h.lo, count);
      Progressed(s, h, Next(s, Take(0, count)), h.hi - h.lo - left, left == 0, false)
    ensures var left := StreamWriter.Minus(h.hi - h.lo, count);
      left > 0 ==> Next(s, Take(0, count)).hands == [h.(lo := h.hi - left)]
  {
    DrainOffer(s, h, count);
  }

  /** What a drain does after its first offer, it does as a whole. */
  lemma Continues(s: State, h: Hand, mid: State, h': Hand, t: State, taken: nat, done: bool, failed: bool)
    requires h.lo <= h'.lo < h.hi && h' == h.(lo := h'.lo) && mid.hands == [h']
    requires Progressed(s, h, mid, h'.lo - h.lo, false, false)
    requires Progressed(mid, h', t, taken, done, failed)
    ensures Progressed(s, h, t, h'.lo - h.lo + taken, done, failed)
  {
  }

  lemma DrainOffer(s: State, h: Hand, count: int)
    requires s.hands == [h] && h.lo < h.hi && count > 0
    ensures
      var moved := (h.hi - h.lo) - StreamWriter.Minus(h.hi - h.lo, count);
      var t := Next(s, Take(0, count));
      0 < moved <= h.hi - h.lo && t == s.(sent := t.sent, hands := t.hands) &&
      t.sent == s.sent + seq(moved, k requires 0 <= k < moved => Sent(h.lo + k, h.drain)) &&
      t.hands == if h.lo + moved == h.hi then [] else [h.(lo := h.lo + moved)]
  {
  }

  /** The last call of a drain that does not get everything across has failed. */
  ghost predicate Fails(attempts: seq<StreamWriter.Attempt>, n: nat) {
    var k := StreamWriter.Calls(attempts, n);
    k > 0 && (attempts[k - 1].Raised? || attempts[k - 1].count <= 0)
  }
}
