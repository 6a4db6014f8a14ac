/**
 `CloseWaiter` of python/eggress/_asyncio.py on one event loop: any number of
 closers and waiters, scheduled in any order between their await points, with
 cancellations, and possibly with other parties calling `mark_closed` or
 `mark_failed`.
 */
module CloseWaiter {
  import opened Common

  /** How a closer's cleanup behaves up to its first suspension. */
  datatype Cleanup = NoCleanup | Returns | Raises(exc: int) | Suspends

  datatype Closer = Fresh | AwaitingEvent | Cleaning | Returned | Cancelled

  datatype Waiter = NotStarted | Waiting | GotResult(result: Option<int>) | GotException(exc: int) | Abandoned

  /** The waiter's own fields and the event. */
  datatype Record = Record(
    closed: bool, closing: bool, eventSet: bool, setScheduled: bool,
    result: Option<int>, exception: Option<int>)

  datatype State = State(
    rec: Record, started: nat, finished: nat, closers: map<nat, Closer>, waiters: map<nat, Waiter>)

  datatype Step =
    | Close(closer: nat, cleanup: Cleanup)
    | CleanupEnds(closer: nat, raised: Option<int>)
    | WakeCloser(closer: nat)
    | CancelCloser(closer: nat)
    | Wait(waiter: nat)
    | WakeWaiter(waiter: nat)
    | CancelWaiter(waiter: nat)
    | EventFires
    | ExternalMark(outcome: Outcome)

  datatype Outcome = Success(value: Option<int>) | Failure(error: int)

  ghost predicate Initial(s: State) {
    s.rec == Record(false, false, false, false, None, None) &&
    (forall c :: c in s.closers ==> s.closers[c].Fresh?) &&
    (forall w :: w in s.waiters ==> s.waiters[w].NotStarted?) &&
    s.started == 0 && s.finished == 0
  }

  /** `mark_closed` and `mark_failed`: the first mark counts and schedules the event. */
  function Mark(r: Record, outcome: Outcome): Record {
    if r.closed then r
    else
      var t := r.(closed := true, closing := false, setScheduled := true);
      match outcome
      case Success(value) => t.(result := value)
      case Failure(error) => t.(exception := Some(error))
  }

  function MoveCloser(s: State, c: nat, pc: Closer): State {
    s.(closers := s.closers[c := pc])
  }

  function MoveWaiter(s: State, w: nat, pc: Waiter): State {
    s.(waiters := s.waiters[w := pc])
  }

  /** What a waiter comes back with once the event is set. */
  function Observation(s: State): Waiter {
    if s.rec.exception.Some? then GotException(s.rec.exception.value) else GotResult(s.rec.result)
  }

  /** `close` from its first line to its first suspension or its return. */
  function BeginClose(s: State, c: nat, cleanup: Cleanup): State {
    if s.rec.closed then MoveCloser(s, c, Returned)
    else if s.rec.closing then MoveCloser(s, c, if s.rec.eventSet then Returned else AwaitingEvent)
    else
      var begun := s.rec.(closing := true);
      match cleanup
      case NoCleanup => MoveCloser(s.(rec := Mark(begun, Success(None))), c, Returned)
      case Suspends => MoveCloser(s.(rec := begun, started := s.started + 1), c, Cleaning)
      case Returns =>
        MoveCloser(State(Mark(begun, Success(None)), s.started + 1, s.finished + 1, s.closers, s.waiters), c, Returned)
      case Raises(e) =>
        MoveCloser(State(Mark(begun, Failure(e)), s.started + 1, s.finished + 1, s.closers, s.waiters), c, Returned)
  }

  /** One scheduling step; a step that is not enabled changes nothing. */
  function Next(s: State, step: Step): State {
    match step
    case Close(c, cleanup) =>
      if c in s.closers && s.closers[c].Fresh? then BeginClose(s, c, cleanup) else s
    case CleanupEnds(c, raised) =>
      // A cancelled closer gets here too: the cancellation is caught like any exception of the cleanup.
      if c in s.closers && s.closers[c].Cleaning? then
        var outcome := if raised.Some? then Failure(raised.value) else Success(None);
        MoveCloser(s.(rec := Mark(s.rec, outcome), finished := s.finished + 1), c, Returned)
      else s
    case WakeCloser(c) =>
      if c in s.closers && s.closers[c].AwaitingEvent? && s.rec.eventSet then MoveCloser(s, c, Returned) else s
    case CancelCloser(c) =>
      if c in s.closers && (s.closers[c].AwaitingEvent? || s.closers[c].Fresh?) then MoveCloser(s, c, Cancelled) else s
    case Wait(w) =>
      if w in s.waiters && s.waiters[w].NotStarted?
      then MoveWaiter(s, w, if s.rec.eventSet then Observation(s) else Waiting) else s
    case WakeWaiter(w) =>
      if w in s.waiters && s.waiters[w].Waiting? && s.rec.eventSet then MoveWaiter(s, w, Observation(s)) else s
    case CancelWaiter(w) =>
      if w in s.waiters && (s.waiters[w].Waiting? || s.waiters[w].NotStarted?) then MoveWaiter(s, w, Abandoned) else s
    case EventFires =>
      if s.rec.setScheduled then s.(rec := s.rec.(eventSet := true, setScheduled := false)) else s
    case ExternalMark(outcome) =>
      s.(rec := Mark(s.rec, outcome))
  }

  function Run(s: State, steps: seq<Step>): State {
    if steps == [] then s else Next(Run(s, steps[..|steps| - 1]), steps[|steps| - 1])
  }

  predicate Completed(w: Waiter) {
    w.GotResult? || w.GotException?
  }

  /** Some closer is inside its cleanup. */
  ghost predicate InCleanup(s: State) {
    exists c :: c in s.closers && s.closers[c].Cleaning?
  }

  /** The event follows the mark, and nothing is recorded before it. */
  ghost predicate EventInvariant(s: State) {
    (s.rec.closed <==> s.rec.eventSet || s.rec.setScheduled) &&
    !(s.rec.closed && s.rec.closing) &&
    (!s.rec.closed ==> s.rec.result.None? && s.rec.exception.None?)
  }

  /** The cleanup runs once and in one closer, and `closing` says that it has yet to record its outcome. */
  ghost predicate CleanupInvariant(s: State) {
    s.finished <= s.started <= 1 &&
    (s.started == 1 ==> s.rec.closing || s.rec.closed) &&
    (InCleanup(s) <==> s.finished < s.started) &&
    (forall c, d :: c in s.closers && d in s.closers && s.closers[c].Cleaning? && s.closers[d].Cleaning? ==> c == d) &&
    (s.rec.closing <==> InCleanup(s) && !s.rec.closed)
  }

  /** Whoever came back saw the recorded outcome. */
  ghost predicate SeenInvariant(s: State) {
    (forall c :: c in s.closers && s.closers[c].Returned? ==> s.rec.closed) &&
    (forall w :: w in s.waiters ==>
      match s.waiters[w]
      case GotResult(v) => s.rec.closed && s.rec.exception.None? && s.rec.result == v
      case GotException(e) => s.rec.closed && s.rec.exception == Some(e)
      case _ => true)
  }

  ghost predicate Invariant(s: State) {
    EventInvariant(s) && CleanupInvariant(s) && SeenInvariant(s)
  }

  // ----- Every step keeps the invariant -----

  /** Which closers are in their cleanup decides what the cleanup invariant says about closers. */
  lemma SameCleanup(s: State, t: State)
    requires t.closers.Keys == s.closers.Keys
    requires forall c :: c in s.closers ==> (t.closers[c].Cleaning? <==> s.closers[c].Cleaning?)
    ensures InCleanup(t) <==> InCleanup(s)
  {
    if InCleanup(s) {
      var c :| c in s.closers && s.closers[c].Cleaning?;
      assert t.closers[c].Cleaning?;
    }
    if InCleanup(t) {
      var c :| c in t.closers && t.closers[c].Cleaning?;
      assert s.closers[c].Cleaning?;
    }
  }

  lemma CloseKeepsCleanup(s: State, c: nat, cleanup: Cleanup)
    requires EventInvariant(s) && CleanupInvariant(s) && c in s.closers && s.closers[c].Fresh?
    ensures CleanupInvariant(BeginClose(s, c, cleanup))
  {
    var t := BeginClose(s, c, cleanup);
    if t.closers[c].Cleaning? {
      assert InCleanup(t);
      assert !InCleanup(s);
    } else {
      SameCleanup(s, t);
    }
  }

  lemma StepKeepsCleanup(s: State, step: Step)
    requires EventInvariant(s) && CleanupInvariant(s)
    ensures CleanupInvariant(Next(s, step))
  {
    hide BeginClose, EventInvariant, CleanupInvariant, InCleanup;
    match step
    case Close(c, cleanup) =>
      if c in s.closers && s.closers[c].Fresh? { CloseKeepsCleanup(s, c, cleanup); }
    case CleanupEnds(c, raised) =>
      if c in s.closers && s.closers[c].Cleaning? { CleanupEndKeepsCleanup(s, c, raised); }
    case _ =>
      QuietStep(s, step);
      SameCleanup(s, Next(s, step));
      CarriesOver(s, Next(s, step));
  }

  ghost predicate FlagsKept(r: Record, t: Record) {
    (t.closing == r.closing && t.closed == r.closed) || (t.closed && !t.closing)
  }

  /** The other steps leave the cleanup and, outside marks apart, the closing flags alone. */
  lemma QuietStep(s: State, step: Step)
    requires EventInvariant(s) && !step.Close? && !step.CleanupEnds?
    ensures var t := Next(s, step);
      t.closers.Keys == s.closers.Keys &&
      (forall c :: c in s.closers ==> (t.closers[c].Cleaning? <==> s.closers[c].Cleaning?)) &&
      t.started == s.started && t.finished == s.finished &&
      FlagsKept(s.rec, t.rec) &&
      (!step.ExternalMark? ==> t.rec.closed == s.rec.closed)
  {
    hide BeginClose;
  }

  lemma CleanupEndKeepsCleanup(s: State, c: nat, raised: Option<int>)
    requires EventInvariant(s) && CleanupInvariant(s) && c in s.closers && s.closers[c].Cleaning?
    ensures CleanupInvariant(Next(s, CleanupEnds(c, raised)))
  {
    var t := Next(s, CleanupEnds(c, raised));
    assert InCleanup(s);
    assert !InCleanup(t);
  }

  lemma CarriesOver(s: State, t: State)
    requires EventInvariant(s) && CleanupInvariant(s)
    requires t.closers.Keys == s.closers.Keys
    requires forall c :: c in s.closers ==> (t.closers[c].Cleaning? <==> s.closers[c].Cleaning?)
    requires InCleanup(t) <==> InCleanup(s)
    requires t.started == s.started && t.finished == s.finished
    requires FlagsKept(s.rec, t.rec)
    ensures CleanupInvariant(t)
  {
  }

  lemma StepKeepsEvent(s: State, step: Step)
    requires EventInvariant(s)
    ensures EventInvariant(Next(s, step))
  {
  }

  lemma StepKeepsSeen(s: State, step: Step)
    requires EventInvariant(s) && SeenInvariant(s)
    ensures SeenInvariant(Next(s, step))
  {
  }

  lemma StepKeeps(s: State, step: Step)
    requires Invariant(s)
    ensures Invariant(Next(s, step))
  {
    hide Next, EventInvariant, CleanupInvariant, SeenInvariant;
    StepKeepsEvent(s, step);
    StepKeepsCleanup(s, step);
    StepKeepsSeen(s, step);
  }

  lemma {:induction false} Reachable(s: State, steps: seq<Step>)
    requires Initial(s)
    ensures Invariant(Run(s, steps))
  {
    if steps == [] {
    } else {
      Reachable(s, steps[..|steps| - 1]);
      StepKeeps(Run(s, steps[..|steps| - 1]), steps[|steps| - 1]);
    }
  }

  // ----- What never changes again -----

  /** Facts of a state that every later state still has. */
  ghost predicate Settled(s: State, t: State) {
    OutcomeSettled(s, t) && WaitersSettled(s, t) && ClosersSettled(s, t)
  }

  ghost predicate OutcomeSettled(s: State, t: State) {
    (s.rec.closed ==> t.rec.closed && t.rec.result == s.rec.result && t.rec.exception == s.rec.exception) &&
    (s.rec.closed ==> t.started == s.started) &&
    s.started <= t.started && s.finished <= t.finished
  }

  ghost predicate WaitersSettled(s: State, t: State) {
    t.waiters.Keys == s.waiters.Keys &&
    forall w :: w in s.waiters && (Completed(s.waiters[w]) || s.waiters[w].Abandoned?) ==> t.waiters[w] == s.waiters[w]
  }

  ghost predicate ClosersSettled(s: State, t: State) {
    t.closers.Keys == s.closers.Keys &&
    forall c :: c in s.closers && (s.closers[c].Returned? || s.closers[c].Cancelled?) ==> t.closers[c] == s.closers[c]
  }

  lemma StepSettlesOutcome(s: State, step: Step)
    ensures OutcomeSettled(s, Next(s, step))
  {
  }

  lemma StepSettlesWaiters(s: State, step: Step)
    ensures WaitersSettled(s, Next(s, step))
  {
  }

  lemma StepSettlesClosers(s: State, step: Step)
    ensures ClosersSettled(s, Next(s, step))
  {
  }

  lemma {:induction false} RunSettles(s: State, steps: seq<Step>)
    ensures Settled(s, Run(s, steps))
  {
    if steps == [] {
    } else {
      hide Next;
      RunSettles(s, steps[..|steps| - 1]);
      StepSettlesOutcome(Run(s, steps[..|steps| - 1]), steps[|steps| - 1]);
      StepSettlesWaiters(Run(s, steps[..|steps| - 1]), steps[|steps| - 1]);
      StepSettlesClosers(Run(s, steps[..|steps| - 1]), steps[|steps| - 1]);
    }
  }

  lemma {:induction false} RunConcat(s: State, a: seq<Step>, b: seq<Step>)
    ensures Run(s, a + b) == Run(Run(s, a), b)
  {
    if b == [] {
      assert a + b == a;
    } else {
      assert (a + b)[..|a + b| - 1] == a + b[..|b| - 1];
      RunConcat(s, a, b[..|b| - 1]);
    }
  }

  // ----- The guarantees -----

  /** In every run the cleanup is started at most once, whoever marks the waiter. */
  lemma CleanupAtMostOnce(s: State, steps: seq<Step>)
    requires Initial(s)
    ensures Run(s, steps).started <= 1
  {
    Reachable(s, steps);
  }

  /** Step i is an outside mark that arrives while a cleanup is running and nothing is recorded yet. */
  ghost predicate MarksInCleanup(s: State, steps: seq<Step>, i: nat) {
    i < |steps| && steps[i].ExternalMark? && InCleanup(Run(s, steps[..i])) && !Run(s, steps[..i]).rec.closed
  }

  ghost predicate MarkedInCleanup(s: State, steps: seq<Step>) {
    exists i: nat :: MarksInCleanup(s, steps, i)
  }

  lemma MarkStaysMarked(s: State, steps: seq<Step>, later: seq<Step>)
    ensures MarkedInCleanup(s, steps) ==> MarkedInCleanup(s, steps + later)
    ensures MarkedInCleanup(s, steps + later) && (forall e :: e in later ==> !e.ExternalMark?) ==>
      MarkedInCleanup(s, steps)
  {
    forall i | 0 <= i < |steps| ensures MarksInCleanup(s, steps, i) <==> MarksInCleanup(s, steps + later, i) {
      assert (steps + later)[..i] == steps[..i];
    }
    if i: nat :| MarksInCleanup(s, steps, i) {
      assert MarksInCleanup(s, steps + later, i);
    }
    if MarkedInCleanup(s, steps + later) && (forall e :: e in later ==> !e.ExternalMark?) {
      var i: nat :| MarksInCleanup(s, steps + later, i);
      assert i < |steps|;
      assert MarksInCleanup(s, steps, i);
    }
  }

  /** A step that closes without ending the cleanup is an outside mark. */
  lemma OnlyMarksClose(s: State, step: Step)
    requires Invariant(s) && InCleanup(Next(s, step)) && Next(s, step).rec.closed
    ensures InCleanup(s) && (s.rec.closed || step.ExternalMark?)
  {
    hide BeginClose;
    match step
    case Close(c, cleanup) => CloseInCleanup(s, c, cleanup);
    case CleanupEnds(c, raised) =>
      assert !(c in s.closers && s.closers[c].Cleaning?);
    case _ =>
      QuietStep(s, step);
      SameCleanup(s, Next(s, step));
  }

  lemma CloseInCleanup(s: State, c: nat, cleanup: Cleanup)
    requires Invariant(s)
    requires InCleanup(Next(s, Close(c, cleanup))) && Next(s, Close(c, cleanup)).rec.closed
    ensures InCleanup(s) && s.rec.closed
  {
    var t := Next(s, Close(c, cleanup));
    if c in s.closers && s.closers[c].Fresh? {
      assert !t.closers[c].Cleaning?;
    }
    SameCleanup(s, t);
  }

  lemma NothingAtFirst(s: State)
    requires Initial(s)
    ensures !InCleanup(s)
  {
  }

  lemma MarkCloses(s: State, steps: seq<Step>, i: nat)
    requires MarksInCleanup(s, steps, i)
    ensures Run(s, steps).rec.closed
  {
    assert steps[..i + 1][..i] == steps[..i];
    assert Run(s, steps[..i + 1]) == Next(Run(s, steps[..i]), steps[i]);
    assert steps == steps[..i + 1] + steps[i + 1..];
    RunConcat(s, steps[..i + 1], steps[i + 1..]);
    RunSettles(Run(s, steps[..i + 1]), steps[i + 1..]);
  }

  /** While a cleanup runs, the waiter is closed if and only if an outside mark has arrived during it. */
  lemma {:induction false} ClosedInCleanup(s: State, steps: seq<Step>)
    requires Initial(s) && InCleanup(Run(s, steps))
    ensures Run(s, steps).rec.closed <==> MarkedInCleanup(s, steps)
  {
    hide Next, Initial, Invariant, InCleanup;
    if steps == [] {
      NothingAtFirst(s);
      assert false;
    } else {
      var before, step := steps[..|steps| - 1], steps[|steps| - 1];
      assert steps == before + [step];
      var t := Run(s, before);
      Reachable(s, before);
      MarkStaysMarked(s, before, [step]);
      if Run(s, steps).rec.closed {
        OnlyMarksClose(t, step);
        if t.rec.closed {
          ClosedInCleanup(s, before);
        } else {
          assert steps[..|before|] == before;
          assert MarksInCleanup(s, steps, |before|);
        }
      }
      if i: nat :| MarksInCleanup(s, steps, i) {
        MarkCloses(s, steps, i);
      }
    }
  }

  /**
   Whoever has come back from `wait_closed` or from `close` did so after the
   cleanup was over, and no cleanup follows, unless an outside mark arrived
   while the cleanup was running.
   */
  lemma NobodyReturnsEarly(s: State, steps: seq<Step>, later: seq<Step>)
    requires Initial(s)
    ensures
      var t := Run(s, steps);
      !MarkedInCleanup(s, steps) &&
      ((exists w :: w in t.waiters && Completed(t.waiters[w])) ||
       (exists c :: c in t.closers && t.closers[c].Returned?))
      ==> t.rec.closed && !InCleanup(t) && t.finished == t.started && Run(t, later).started == t.started
  {
    Reachable(s, steps);
    RunSettles(Run(s, steps), later);
    if InCleanup(Run(s, steps)) {
      ClosedInCleanup(s, steps);
    }
  }

  /** Once closed, the recorded outcome is final, and so is what any waiter has observed. */
  lemma OutcomeIsFinal(s: State, steps: seq<Step>, later: seq<Step>)
    requires Initial(s)
    ensures
      var t, u := Run(s, steps), Run(s, steps + later);
      t.rec.closed ==> u.rec.closed && u.rec.result == t.rec.result && u.rec.exception == t.rec.exception
    ensures
      var t, u := Run(s, steps), Run(s, steps + later);
      forall w :: w in t.waiters && Completed(t.waiters[w]) ==> w in u.waiters && u.waiters[w] == t.waiters[w]
  {
    RunConcat(s, steps, later);
    RunSettles(Run(s, steps), later);
  }

  /** What a step that closes the waiter leaves as its outcome. */
  ghost predicate Records(step: Step, result: Option<int>, exception: Option<int>) {
    match step
    case ExternalMark(Success(v)) => result == v && exception == None
    case ExternalMark(Failure(e)) => result == None && exception == Some(e)
    case CleanupEnds(_, raised) => result == None && exception == raised
    case Close(_, NoCleanup) => result == None && exception == None
    case Close(_, Returns) => result == None && exception == None
    case Close(_, Raises(e)) => result == None && exception == Some(e)
    case _ => false
  }

  /** Step i is the one that closes the waiter. */
  ghost predicate ClosesAt(s: State, steps: seq<Step>, i: nat) {
    i < |steps| && !Run(s, steps[..i]).rec.closed && Run(s, steps[..i + 1]).rec.closed
  }

  lemma {:induction false} ClosingStep(s: State, steps: seq<Step>) returns (i: nat)
    requires Initial(s) && Run(s, steps).rec.closed
    ensures ClosesAt(s, steps, i)
  {
    if steps == [] {
      assert false;
    } else {
      var n := |steps| - 1;
      if Run(s, steps[..n]).rec.closed {
        i := ClosingStep(s, steps[..n]);
        assert steps[..n][..i] == steps[..i] && steps[..n][..i + 1] == steps[..i + 1];
      } else {
        i := n;
        assert steps[..n + 1] == steps;
      }
    }
  }

  lemma StepRecords(s: State, step: Step)
    requires EventInvariant(s) && !s.rec.closed && Next(s, step).rec.closed
    ensures Records(step, Next(s, step).rec.result, Next(s, step).rec.exception)
  {
  }

  /**
   The outcome is that of the step that closed the waiter: what the cleanup
   raised, or that it returned, or what an outside mark said. Every completed
   waiter has observed exactly that.
   */
  lemma OutcomeIsOfClosingStep(s: State, steps: seq<Step>, i: nat)
    requires Initial(s) && ClosesAt(s, steps, i)
    ensures var t := Run(s, steps); t.rec.closed && Records(steps[i], t.rec.result, t.rec.exception)
    ensures var t := Run(s, steps);
      forall w :: w in t.waiters && Completed(t.waiters[w]) ==>
        t.waiters[w] == if t.rec.exception.Some? then GotException(t.rec.exception.value) else GotResult(t.rec.result)
  {
    hide Next, Initial;
    Reachable(s, steps[..i]);
    Reachable(s, steps);
    assert steps[..i + 1][..i] == steps[..i];
    StepRecords(Run(s, steps[..i]), steps[i]);
    assert steps == steps[..i + 1] + steps[i + 1..];
    RunConcat(s, steps[..i + 1], steps[i + 1..]);
    RunSettles(Run(s, steps[..i + 1]), steps[i + 1..]);
  }

  /** All waiters that are not cancelled observe one and the same outcome. */
  lemma WaitersAgree(s: State, steps: seq<Step>, v: nat, w: nat)
    requires Initial(s)
    requires v in Run(s, steps).waiters && w in Run(s, steps).waiters
    requires Completed(Run(s, steps).waiters[v]) && Completed(Run(s, steps).waiters[w])
    ensures Run(s, steps).waiters[v] == Run(s, steps).waiters[w]
  {
    Reachable(s, steps);
  }

  lemma RunThree(s: State, a: Step, b: Step, c: Step)
    ensures Run(s, [a, b, c]) == Next(Next(Next(s, a), b), c)
  {
    assert [a, b, c][..2] == [a, b] && [a, b][..1] == [a] && [a][..0] == [];
    assert Run(s, [a]) == Next(Run(s, []), a);
    assert Run(s, [a, b]) == Next(Run(s, [a]), b);
  }

  /** No wake-up is lost: after closing, a pending waiter needs only the event and its turn. */
  lemma WaiterCanProceed(s: State, steps: seq<Step>, w: nat)
    requires Initial(s) && Run(s, steps).rec.closed
    requires w in Run(s, steps).waiters && (Run(s, steps).waiters[w].Waiting? || Run(s, steps).waiters[w].NotStarted?)
    ensures
      var t, u := Run(s, steps), Run(s, steps + [EventFires, Wait(w), WakeWaiter(w)]);
      w in u.waiters && Completed(u.waiters[w]) && u.closers == t.closers
  {
    Reachable(s, steps);
    RunConcat(s, steps, [EventFires, Wait(w), WakeWaiter(w)]);
    RunThree(Run(s, steps), EventFires, Wait(w), WakeWaiter(w));
  }

  /** Once the event is set, `wait_closed` comes back without waiting. */
  lemma LateWaiterReturns(s: State, steps: seq<Step>, w: nat)
    requires Initial(s) && Run(s, steps).rec.eventSet
    requires w in Run(s, steps).waiters && Run(s, steps).waiters[w].NotStarted?
    ensures Completed(Next(Run(s, steps), Wait(w)).waiters[w])
  {
  }

  /** Cancelling a pending closer or waiter ends it for good and touches nothing else. */
  lemma CancelEndsOne(s: State, x: nat)
    ensures x in s.closers && (s.closers[x].Fresh? || s.closers[x].AwaitingEvent?) ==>
      Next(s, CancelCloser(x)) == s.(closers := s.closers[x := Cancelled])
    ensures x in s.waiters && (s.waiters[x].NotStarted? || s.waiters[x].Waiting?) ==>
      Next(s, CancelWaiter(x)) == s.(waiters := s.waiters[x := Abandoned])
  {
  }

  /** The same for a closer that waits for the cleanup of another, or has yet to start. */
  lemma CloserCanProceed(s: State, steps: seq<Step>, c: nat, cleanup: Cleanup)
    requires Initial(s) && Run(s, steps).rec.closed
    requires c in Run(s, steps).closers && (Run(s, steps).closers[c].AwaitingEvent? || Run(s, steps).closers[c].Fresh?)
    ensures
      var t, u := Run(s, steps), Run(s, steps + [EventFires, Close(c, cleanup), WakeCloser(c)]);
      u == t.(rec := u.rec, closers := t.closers[c := Returned])
  {
    Reachable(s, steps);
    RunConcat(s, steps, [EventFires, Close(c, cleanup), WakeCloser(c)]);
    RunThree(Run(s, steps), EventFires, Close(c, cleanup), WakeCloser(c));
  }

  /**
   The exception is exact. While a cleanup runs, a pending waiter can come back
   before its end, without another outside mark, if and only if one has
   arrived during the cleanup.
   */
  lemma OvertakesIffMarked(s: State, steps: seq<Step>, w: nat)
    requires Initial(s) && InCleanup(Run(s, steps))
    requires w in Run(s, steps).waiters && (Run(s, steps).waiters[w].Waiting? || Run(s, steps).waiters[w].NotStarted?)
    ensures MarkedInCleanup(s, steps) <==> exists later :: Overtakes(s, steps, w, later)
    ensures MarkedInCleanup(s, steps) ==> Overtakes(s, steps, w, [EventFires, Wait(w), WakeWaiter(w)])
  {
    hide Next, Initial, Invariant;
    if MarkedInCleanup(s, steps) {
      ClosedInCleanup(s, steps);
      WaiterCanProceed(s, steps, w);
      SameCleanup(Run(s, steps), Run(s, steps + [EventFires, Wait(w), WakeWaiter(w)]));
      assert Overtakes(s, steps, w, [EventFires, Wait(w), WakeWaiter(w)]);
    }
    if later :| Overtakes(s, steps, w, later) {
      if !MarkedInCleanup(s, steps + later) {
        NobodyReturnsEarly(s, steps + later, []);
      }
      MarkStaysMarked(s, steps, later);
    }
  }

  /** After the further steps, none of them an outside mark, waiter w is back and the cleanup is not. */
  ghost predicate Overtakes(s: State, steps: seq<Step>, w: nat, later: seq<Step>) {
    var t := Run(s, steps + later);
    (forall e :: e in later ==> !e.ExternalMark?) && InCleanup(t) && w in t.waiters && Completed(t.waiters[w])
  }

  /** From every state with a cleanup running and nothing recorded, one outside mark lets a pending waiter overtake. */
  lemma MarkOvertakesCleanup(s: State, steps: seq<Step>, outcome: Outcome, w: nat)
    requires Initial(s) && InCleanup(Run(s, steps)) && !Run(s, steps).rec.closed
    requires w in Run(s, steps).waiters && (Run(s, steps).waiters[w].Waiting? || Run(s, steps).waiters[w].NotStarted?)
    ensures Overtakes(s, steps + [ExternalMark(outcome)], w, [EventFires, Wait(w), WakeWaiter(w)])
  {
    var marked := steps + [ExternalMark(outcome)];
    assert marked[..|steps|] == steps;
    assert MarksInCleanup(s, marked, |steps|);
    SameCleanup(Run(s, steps), Run(s, marked));
    OvertakesIffMarked(s, marked, w);
  }

  /** And such a state exists: one closer whose cleanup suspends. */
  lemma CleanupCanRun(s: State, c: nat)
    requires Initial(s) && c in s.closers
    ensures InCleanup(Run(s, [Close(c, Suspends)])) && !Run(s, [Close(c, Suspends)]).rec.closed
  {
    var step := Close(c, Suspends);
    assert [step][..0] == [];
    assert Run(s, [step]) == Next(Run(s, []), step);
    assert Run(s, [step]).closers[c].Cleaning?;
  }
}
