/**
 `CompatibleStreamWriter` of python/eggress/_asyncio_adapter.py over a transport
 that takes any part of what it is offered. Other tasks may write and close
 while a transport call is awaited; `OverlappingDrains` is about drains that overlap.
 */
module StreamWriter {
  import opened Common

  /** What another task does while a call is awaited. */
  datatype Other = OtherWrites(data: seq<byte>) | OtherCloses

  /** One awaited transport call: the count it returned or an exception, and what other tasks did meanwhile. */
  datatype Attempt =
    | Returned(count: int, meanwhile: seq<Other>)
    | Raised(meanwhile: seq<Other>)

  datatype Outcome = Completed | NoProgress | TransportError

  /** The writer's fields, and the transport: what it took, whether it was half-closed, how it will behave. */
  datatype State = State(
    writeBuf: seq<byte>, closing: bool, eofCalled: bool,
    sent: seq<byte>, eofSent: bool, attempts: seq<Attempt>)

  function Start(attempts: seq<Attempt>): State {
    State([], false, false, [], false, attempts)
  }

  predicate Open(s: State) {
    !s.eofCalled && !s.closing
  }

  // ----- What a transport does with an offer of n bytes -----

  function Minus(n: nat, count: int): nat
    requires count > 0
  {
    if count < n then n - count else 0
  }

  predicate Progresses(attempts: seq<Attempt>) {
    attempts != [] && attempts[0].Returned? && attempts[0].count > 0
  }

  /** The transport takes all of them: enough calls in a row make progress. */
  predicate Covers(attempts: seq<Attempt>, n: nat)
    decreases |attempts|
  {
    n == 0 || (Progresses(attempts) && Covers(attempts[1..], Minus(n, attempts[0].count)))
  }

  /** How many calls are made until everything is taken or one fails. */
  function Calls(attempts: seq<Attempt>, n: nat): (k: nat)
    ensures k <= |attempts|
    decreases |attempts|
  {
    if n == 0 || attempts == [] then 0
    else if !Progresses(attempts) then 1
    else 1 + Calls(attempts[1..], Minus(n, attempts[0].count))
  }

  /** How many bytes are taken. */
  function Taken(attempts: seq<Attempt>, n: nat): (k: nat)
    ensures k <= n && (k == n <==> Covers(attempts, n))
    decreases |attempts|
  {
    if n == 0 || !Progresses(attempts) then 0
    else (n - Minus(n, attempts[0].count)) + Taken(attempts[1..], Minus(n, attempts[0].count))
  }

  /** How the last of those calls ends. */
  function SendOutcome(attempts: seq<Attempt>, n: nat): (r: Outcome)
    ensures r.Completed? <==> Covers(attempts, n)
    decreases |attempts|
  {
    if n == 0 then Completed
    else if attempts == [] || attempts[0].Raised? then TransportError
    else if attempts[0].count <= 0 then NoProgress
    else SendOutcome(attempts[1..], Minus(n, attempts[0].count))
  }

  /** What an open writer accepts of the other tasks' writes: those before the first close. */
  function Told(others: seq<Other>): seq<byte> {
    if others == [] || others[0].OtherCloses? then [] else others[0].data + Told(others[1..])
  }

  /** Another task closes the writer during some calls. */
  predicate ClosedDuring(attempts: seq<Attempt>) {
    attempts != [] && (OtherCloses in attempts[0].meanwhile || ClosedDuring(attempts[1..]))
  }

  /** What an open writer accepts of the other tasks' writes during some calls. */
  function Meanwhile(attempts: seq<Attempt>): seq<byte> {
    if attempts == [] then []
    else Told(attempts[0].meanwhile) + if OtherCloses in attempts[0].meanwhile then [] else Meanwhile(attempts[1..])
  }

  /** What the writer accepts during its next `k` calls. */
  function Heard(s: State, k: nat): seq<byte>
    requires k <= |s.attempts|
  {
    if Open(s) then Meanwhile(s.attempts[..k]) else []
  }

  /** What the writer accepts during its next call. */
  function HeardNext(s: State): seq<byte>
    requires s.attempts != []
  {
    if Open(s) then Told(s.attempts[0].meanwhile) else []
  }

  // ----- The operations -----

  /** One awaited transport call. */
  function AfterCall(s: State): State {
    if s.attempts == [] then s
    else s.(
      attempts := s.attempts[1..],
      writeBuf := s.writeBuf + HeardNext(s),
      closing := s.closing || OtherCloses in s.attempts[0].meanwhile)
  }

  /** The loop that offers what is left until the transport has taken all of it or a call fails. */
  function AfterSend(s: State, view: seq<byte>): State
    decreases |s.attempts|
  {
    if view == [] then s
    else if !Progresses(s.attempts) then AfterCall(s)
    else
      var left := Minus(|view|, s.attempts[0].count);
      var t := AfterCall(s);
      AfterSend(t.(sent := t.sent + view[..|view| - left]), view[|view| - left..])
  }

  function AfterDrain(s: State): State {
    if s.writeBuf == [] then s
    else
      var t := AfterSend(s.(writeBuf := []), s.writeBuf);
      if Covers(s.attempts, |s.writeBuf|) then AfterCall(t) else t
  }

  /** The transport calls of a drain: the offers, and a flush when everything was taken. */
  function DrainCalls(s: State): (k: nat)
    ensures k <= |s.attempts|
  {
    var sends := Calls(s.attempts, |s.writeBuf|);
    if s.writeBuf == [] then 0
    else if Covers(s.attempts, |s.writeBuf|) && sends < |s.attempts| then sends + 1
    else sends
  }

  function DrainOutcome(s: State): Outcome {
    if s.writeBuf == [] then Completed
    else if !Covers(s.attempts, |s.writeBuf|) then SendOutcome(s.attempts, |s.writeBuf|)
    else CallOutcome(AfterSend(s.(writeBuf := []), s.writeBuf))
  }

  function CallOutcome(s: State): Outcome {
    if s.attempts != [] && s.attempts[0].Returned? then Completed else TransportError
  }

  /** The half-close call of `write_eof`, made after a completed drain. */
  function AfterEof(s: State): State {
    var t := AfterCall(s.(eofCalled := true));
    t.(eofSent := t.eofSent || CallOutcome(s).Completed?)
  }

  datatype Action = Write(data: seq<byte>) | Drain | WriteEof | Close

  datatype Reply = Wrote(ok: bool) | Finished(outcome: Outcome) | Closed

  function Step(s: State, action: Action): (State, Reply) {
    match action
    case Write(data) => if Open(s) then (s.(writeBuf := s.writeBuf + data), Wrote(true)) else (s, Wrote(false))
    case Drain => (AfterDrain(s), Finished(DrainOutcome(s)))
    case WriteEof =>
      if s.eofCalled then (s, Finished(Completed))
      else if !DrainOutcome(s).Completed? then (AfterDrain(s), Finished(DrainOutcome(s)))
      else (AfterEof(AfterDrain(s)), Finished(CallOutcome(AfterDrain(s))))
    case Close => (s.(closing := true), Closed)
  }

  /** The action flushes the buffer. */
  predicate Flushes(s: State, action: Action) {
    action.Drain? || (action.WriteEof? && !s.eofCalled)
  }

  /** The bytes accepted while an action runs: those it writes, or those written meanwhile. */
  function Accepts(s: State, action: Action): seq<byte> {
    if action.Write? then (if Open(s) then action.data else [])
    else if Flushes(s, action) then Heard(s, DrainCalls(s))
    else []
  }

  /** The bytes an action had in hand and forgets. */
  function Loses(s: State, action: Action): seq<byte> {
    if Flushes(s, action) then s.writeBuf[Taken(s.attempts, |s.writeBuf|)..] else []
  }

  // ----- The object -----

  class Writer {
    var writeBuf: seq<byte>
    var closing: bool
    var eofCalled: bool
    var sent: seq<byte>
    var eofSent: bool
    var attempts: seq<Attempt>

    function View(): State
      reads this
    {
      State(writeBuf, closing, eofCalled, sent, eofSent, attempts)
    }

    constructor (attempts: seq<Attempt>)
      ensures View() == Start(attempts)
    {
      writeBuf, closing, eofCalled := [], false, false;
      sent, eofSent, this.attempts := [], false, attempts;
    }

    /** Refused after `write_eof` or `close`, otherwise appended. */
    method Append(data: seq<byte>) returns (ok: bool)
      modifies this`writeBuf
      ensures (View(), Wrote(ok)) == Step(old(View()), Write(data))
    {
      if eofCalled || closing {
        return false;
      }
      writeBuf := writeBuf + data;
      return true;
    }

    /** Other tasks write and close, one after the other. */
    method Overhear(others: seq<Other>)
      modifies this`writeBuf, this`closing
      ensures writeBuf == old(writeBuf) + if old(Open(View())) then Told(others) else []
      ensures closing == (old(closing) || OtherCloses in others)
    {
      assert others[0..] == others;
      for i := 0 to |others|
        invariant closing == (old(closing) || OtherCloses in others[..i])
        invariant writeBuf + (if Open(View()) then Told(others[i..]) else [])
               == old(writeBuf) + (if old(Open(View())) then Told(others) else [])
      {
        assert others[i..][0] == others[i] && others[i..][1..] == others[i + 1..];
        assert others[..i + 1] == others[..i] + [others[i]];
        match others[i] {
          case OtherWrites(data) =>
            Assoc(writeBuf, data, Told(others[i + 1..]));
            var ok := Append(data);
          case OtherCloses =>
            Shut();
        }
      }
      assert others[..|others|] == others;
      assert writeBuf + [] == writeBuf;
    }

    /** One awaited transport call; other tasks write and close while it runs. */
    method Await() returns (attempt: Option<Attempt>)
      modifies this`attempts, this`writeBuf, this`closing
      ensures View() == AfterCall(old(View()))
      ensures attempt == if old(attempts) == [] then None else Some(old(attempts)[0])
    {
      if attempts == [] {
        return None;
      }
      var a := attempts[0];
      attempts := attempts[1..];
      Overhear(a.meanwhile);
      return Some(a);
    }

    /** Offers the remaining bytes until the transport has taken all of them or a call fails. */
    method SendAll(data: seq<byte>) returns (outcome: Outcome)
      modifies this`attempts, this`writeBuf, this`closing, this`sent
      ensures View() == AfterSend(old(View()), data)
      ensures outcome == SendOutcome(old(attempts), |data|)
    {
      var view := data;
      while view != []
        invariant AfterSend(old(View()), data) == AfterSend(View(), view)
        invariant SendOutcome(old(attempts), |data|) == SendOutcome(attempts, |view|)
        decreases |attempts|
      {
        hide HeardNext;
        var written := Await();
        if written.None? || written.value.Raised? {
          return TransportError;
        }
        if written.value.count <= 0 {
          return NoProgress;
        }
        var n := if written.value.count < |view| then written.value.count else |view|;
        sent, view := sent + view[..n], view[n..];
      }
      return Completed;
    }

    /**
     A completed drain has handed the transport everything that was buffered
     when it started, once and in order. What was written meanwhile stays
     buffered; what a failing transport did not take is forgotten.
     */
    method Flush() returns (outcome: Outcome)
      modifies this`attempts, this`writeBuf, this`closing, this`sent
      ensures View() == AfterDrain(old(View())) && outcome == DrainOutcome(old(View()))
    {
      if writeBuf == [] {
        return Completed;
      }
      hide AfterSend, AfterCall, SendOutcome, Covers;
      var data := writeBuf;
      writeBuf := [];
      outcome := SendAll(data);
      if !outcome.Completed? {
        return;
      }
      var flushed := Await();
      outcome := if flushed.Some? && flushed.value.Returned? then Completed else TransportError;
    }

    /** Idempotent; flushes, refuses every later write, then half-closes the transport. */
    method HalfClose() returns (outcome: Outcome)
      modifies this
      ensures (View(), Finished(outcome)) == Step(old(View()), WriteEof)
    {
      if eofCalled {
        return Completed;
      }
      hide AfterDrain, DrainOutcome;
      outcome := Flush();
      if !outcome.Completed? {
        return;
      }
      eofCalled := true;
      var ended := Await();
      outcome := if ended.Some? && ended.value.Returned? then Completed else TransportError;
      eofSent := eofSent || outcome.Completed?;
    }

    method Shut()
      modifies this`closing
      ensures (View(), Closed) == Step(old(View()), Close)
    {
      closing := true;
    }

    method Perform(action: Action) returns (reply: Reply)
      modifies this
      ensures (View(), reply) == Step(old(View()), action)
    {
      match action {
        case Write(data) =>
          var ok := Append(data);
          reply := Wrote(ok);
        case Drain =>
          var outcome := Flush();
          reply := Finished(outcome);
        case WriteEof =>
          var outcome := HalfClose();
          reply := Finished(outcome);
        case Close =>
          Shut();
          reply := Closed;
      }
    }
  }

  // ----- What the loop amounts to -----

  lemma HeardNone(s: State)
    ensures Heard(s, 0) == [] && !ClosedDuring(s.attempts[..0])
  {
    assert s.attempts[..0] == [];
  }

  /** What is heard during the next call comes before what is heard during later ones. */
  lemma HeardCons(s: State, t: State, k: nat)
    requires s.attempts != [] && t.attempts == s.attempts[1..] && k <= |t.attempts|
    requires Open(t) == (Open(s) && OtherCloses !in s.attempts[0].meanwhile)
    ensures Heard(s, k + 1) == HeardNext(s) + Heard(t, k)
    ensures ClosedDuring(s.attempts[..k + 1]) <==>
      OtherCloses in s.attempts[0].meanwhile || ClosedDuring(t.attempts[..k])
  {
    assert s.attempts[..k + 1][0] == s.attempts[0] && s.attempts[..k + 1][1..] == t.attempts[..k];
  }

  /** What a run of offers does, field by field. */
  ghost predicate Shaped(s: State, t: State, view: seq<byte>, taken: nat, calls: nat)
    requires taken <= |view| && calls <= |s.attempts|
  {
    t.sent == s.sent + view[..taken] &&
    t.writeBuf == s.writeBuf + Heard(s, calls) &&
    t.attempts == s.attempts[calls..] &&
    t.closing == (s.closing || ClosedDuring(s.attempts[..calls])) &&
    t.eofCalled == s.eofCalled && t.eofSent == s.eofSent
  }

  lemma {:induction false} SendShape(s: State, view: seq<byte>)
    ensures Shaped(s, AfterSend(s, view), view, Taken(s.attempts, |view|), Calls(s.attempts, |view|))
    decreases |s.attempts|
  {
    hide Shaped;
    if view == [] || !Progresses(s.attempts) {
      StoppedShape(s, view);
    } else {
      var left := Minus(|view|, s.attempts[0].count);
      var n := |view| - left;
      var t := AfterCall(s).(sent := s.sent + view[..n]);
      SendShape(t, view[n..]);
      OfferShape(s, t, AfterSend(t, view[n..]), view, n, Taken(t.attempts, left), Calls(t.attempts, left));
    }
  }

  lemma StoppedShape(s: State, view: seq<byte>)
    requires view == [] || !Progresses(s.attempts)
    ensures Shaped(s, AfterSend(s, view), view, Taken(s.attempts, |view|), Calls(s.attempts, |view|))
  {
    hide Heard, HeardNext;
    HeardNone(s);
    assert s.sent + view[..0] == s.sent && s.attempts[0..] == s.attempts;
    if view != [] && s.attempts != [] {
      HeardCons(s, AfterCall(s), 0);
      HeardNone(AfterCall(s));
      assert HeardNext(s) + [] == HeardNext(s);
    } else {
      assert s.writeBuf + [] == s.writeBuf;
    }
  }

  lemma OfferShape(s: State, t: State, u: State, view: seq<byte>, n: nat, taken: nat, calls: nat)
    requires s.attempts != [] && n <= |view| && taken <= |view| - n && calls <= |s.attempts| - 1
    requires t == AfterCall(s).(sent := s.sent + view[..n])
    requires Shaped(t, u, view[n..], taken, calls)
    ensures Shaped(s, u, view, n + taken, 1 + calls)
  {
    hide Heard, HeardNext;
    HeardCons(s, t, calls);
    Assoc(s.writeBuf, HeardNext(s), Heard(t, calls));
    Assoc(s.sent, view[..n], view[n..][..taken]);
    assert view[..n] + view[n..][..taken] == view[..n + taken];
    assert s.attempts[1..][calls..] == s.attempts[1 + calls..];
  }

  /**
   A drain offers its bytes until they are taken or a call fails, and then
   flushes: what was taken is sent, and the buffer holds exactly what other
   tasks wrote during those calls, up to a close by one of them.
   */
  lemma DrainShape(s: State)
    requires s.writeBuf != []
    ensures AfterDrain(s) == s.(
      sent := s.sent + s.writeBuf[..Taken(s.attempts, |s.writeBuf|)],
      writeBuf := Heard(s, DrainCalls(s)),
      closing := s.closing || ClosedDuring(s.attempts[..DrainCalls(s)]),
      attempts := s.attempts[DrainCalls(s)..])
  {
    hide AfterSend, Heard, HeardNext, Calls, Taken, Covers;
    var k := Calls(s.attempts, |s.writeBuf|);
    var empty := s.(writeBuf := []);
    SendShape(empty, s.writeBuf);
    HeardSame(s, empty, k);
    assert [] + Heard(s, k) == Heard(s, k);
    if k < |s.attempts| {
      HeardMore(s, AfterSend(empty, s.writeBuf), k);
      assert s.attempts[k..][1..] == s.attempts[k + 1..];
    }
  }

  lemma HeardSame(s: State, t: State, k: nat)
    requires k <= |s.attempts| && t.attempts == s.attempts && Open(t) == Open(s)
    ensures Heard(t, k) == Heard(s, k)
  {
  }

  lemma {:induction false} HeardMore(s: State, t: State, k: nat)
    requires k < |s.attempts| && t.attempts == s.attempts[k..]
    requires Open(t) == (Open(s) && !ClosedDuring(s.attempts[..k]))
    ensures Heard(s, k + 1) == Heard(s, k) + HeardNext(t)
    ensures ClosedDuring(s.attempts[..k + 1]) <==>
      ClosedDuring(s.attempts[..k]) || OtherCloses in t.attempts[0].meanwhile
    decreases k
  {
    hide Heard, ClosedDuring, Told;
    if k == 0 {
      HeardNone(s);
      HeardCons(s, AfterCall(s), 0);
      HeardNone(AfterCall(s));
      assert HeardNext(s) + [] == [] + HeardNext(t);
    } else {
      var r := AfterCall(s);
      assert r.attempts[k - 1..] == s.attempts[k..];
      HeardCons(s, r, k);
      HeardCons(s, r, k - 1);
      HeardMore(r, t, k - 1);
      Assoc(HeardNext(s), Heard(r, k - 1), HeardNext(t));
    }
  }

  /** The three descriptions of an offer that makes progress or not. */
  lemma Offer(attempts: seq<Attempt>, n: nat)
    ensures n == 0 ==> Calls(attempts, n) == 0 && Taken(attempts, n) == 0 && Covers(attempts, n)
    ensures n > 0 && Progresses(attempts) ==>
      var m := Minus(n, attempts[0].count);
      Calls(attempts, n) == 1 + Calls(attempts[1..], m) &&
      Taken(attempts, n) == n - m + Taken(attempts[1..], m) &&
      Covers(attempts, n) == Covers(attempts[1..], m)
  {
  }

  lemma NothingToDrain(s: State)
    requires s.writeBuf == []
    ensures AfterDrain(s) == s && DrainCalls(s) == 0
  {
  }

  /** A drain hands over everything that was buffered exactly when the transport covers it. */
  lemma DrainSendsAll(s: State)
    ensures AfterDrain(s).sent == s.sent + s.writeBuf <==> Covers(s.attempts, |s.writeBuf|)
    ensures AfterDrain(s).sent == s.sent + s.writeBuf <==> Loses(s, Drain) == []
  {
    hide Taken, Covers, AfterDrain;
    var k := Taken(s.attempts, |s.writeBuf|);
    if s.writeBuf == [] {
      NothingToDrain(s);
    } else {
      DrainShape(s);
    }
    if k == |s.writeBuf| {
      assert s.writeBuf[..k] == s.writeBuf;
    } else {
      assert |s.sent + s.writeBuf[..k]| != |s.sent + s.writeBuf|;
    }
  }

  // ----- What the transport takes and other tasks add -----

  /** The counts of the calls up to the first that raises or makes no progress, added up. */
  function CountSum(attempts: seq<Attempt>): nat {
    if attempts == [] || attempts[0].Raised? || attempts[0].count <= 0 then 0
    else attempts[0].count + CountSum(attempts[1..])
  }

  /** The calls take as many bytes as their counts say, and not more than there are; they cover n if that is enough. */
  lemma {:induction false} TakenIsSum(attempts: seq<Attempt>, n: nat)
    ensures Taken(attempts, n) == if CountSum(attempts) < n then CountSum(attempts) else n
    ensures Covers(attempts, n) <==> n <= CountSum(attempts)
    decreases |attempts|
  {
    if n == 0 || !Progresses(attempts) {
    } else {
      TakenIsSum(attempts[1..], Minus(n, attempts[0].count));
    }
  }

  /** What is heard of other tasks: all they write before one of them closes. */
  lemma {:induction false} ToldIsWrites(others: seq<Other>) returns (writes: seq<seq<byte>>)
    ensures Told(others) == Flatten(writes) && |writes| <= |others|
    ensures forall k :: 0 <= k < |writes| ==> others[k] == OtherWrites(writes[k])
    ensures |writes| < |others| ==> others[|writes|] == OtherCloses
  {
    if others == [] || others[0].OtherCloses? {
      writes := [];
    } else {
      var later := ToldIsWrites(others[1..]);
      writes := [others[0].data] + later;
      assert writes[1..] == later;
      assert forall k :: 1 <= k < |writes| ==> writes[k] == later[k - 1] && others[k] == others[1..][k - 1];
    }
  }

  /** A fresh writer has accepted and sent nothing and is open at both ends. */
  lemma StartsOpen(attempts: seq<Attempt>, data: seq<byte>)
    ensures Step(Start(attempts), Write(data)).1 == Wrote(true)
    ensures Start(attempts).sent == [] && Start(attempts).writeBuf == [] && !Start(attempts).eofSent
  {
  }

  // ----- What each call answers -----

  lemma AfterSendAttempts(s: State, view: seq<byte>)
    ensures AfterSend(s, view).attempts == s.attempts[Calls(s.attempts, |view|)..]
  {
    hide AfterSend, Calls, Heard;
    SendShape(s, view);
  }

  /** The offer that ends a run of offers before everything is taken: none at all, or one without progress. */
  lemma {:induction false} FailedOffer(attempts: seq<Attempt>, n: nat)
    requires !Covers(attempts, n)
    ensures var k := Calls(attempts, n);
      if SendOutcome(attempts, n) == NoProgress then k > 0 && attempts[k - 1].Returned? && attempts[k - 1].count <= 0
      else SendOutcome(attempts, n) == TransportError && (k == |attempts| || (k > 0 && attempts[k - 1].Raised?))
    decreases |attempts|
  {
    if !Progresses(attempts) {
    } else {
      FailedOffer(attempts[1..], Minus(n, attempts[0].count));
    }
  }

  /**
   A drain completes exactly when there is nothing to send, or the transport
   covers the buffer and the flush after it returns. It reports no progress
   exactly when its last call took nothing without raising.
   */
  lemma DrainAnswers(s: State)
    ensures DrainOutcome(s) == Completed <==>
      s.writeBuf == [] ||
      (Covers(s.attempts, |s.writeBuf|) &&
       var k := Calls(s.attempts, |s.writeBuf|); k < |s.attempts| && s.attempts[k].Returned?)
    ensures DrainOutcome(s) == NoProgress ==>
      var k := Calls(s.attempts, |s.writeBuf|); k > 0 && s.attempts[k - 1].Returned? && s.attempts[k - 1].count <= 0
  {
    hide AfterSend, Calls, Covers;
    AfterSendAttempts(s.(writeBuf := []), s.writeBuf);
    if s.writeBuf != [] && !Covers(s.attempts, |s.writeBuf|) {
      FailedOffer(s.attempts, |s.writeBuf|);
    }
  }

  /** A write is accepted exactly before half-close and close, and then appended; nothing else changes. */
  lemma WriteAnswers(s: State, data: seq<byte>)
    ensures Step(s, Write(data)).1 == Wrote(!s.eofCalled && !s.closing)
    ensures Step(s, Write(data)).0 == s.(writeBuf := if s.eofCalled || s.closing then s.writeBuf else s.writeBuf + data)
  {
  }

  /**
   A half-close answers at once the second time, and with the drain's failure
   if that fails, changing no flag of its own; otherwise it sets the flag and
   answers as the transport does, which is half-closed exactly if it returns.
   */
  lemma EofAnswers(s: State)
    ensures var (t, reply) := Step(s, WriteEof);
      if s.eofCalled then t == s && reply == Finished(Completed)
      else if DrainOutcome(s) != Completed then
        reply == Finished(DrainOutcome(s)) && !t.eofCalled && t.eofSent == s.eofSent
      else
        var k := DrainCalls(s);
        var answered := k < |s.attempts| && s.attempts[k].Returned?;
        t.eofCalled && t.eofSent == (s.eofSent || answered) &&
        reply == Finished(if answered then Completed else TransportError)
  {
    hide AfterDrain, DrainCalls, DrainOutcome;
    DrainKeepsFlags(s);
    DrainAttempts(s);
  }

  lemma DrainAttempts(s: State)
    ensures AfterDrain(s).attempts == s.attempts[DrainCalls(s)..]
  {
    hide AfterDrain;
    if s.writeBuf == [] {
      NothingToDrain(s);
    } else {
      DrainShape(s);
    }
  }

  // ----- Runs -----

  function After(s: State, actions: seq<Action>): State
    decreases |actions|
  {
    if actions == [] then s else After(Step(s, actions[0]).0, actions[1..])
  }

  function Replies(s: State, actions: seq<Action>): (r: seq<Reply>)
    ensures |r| == |actions|
    decreases |actions|
  {
    if actions == [] then [] else [Step(s, actions[0]).1] + Replies(Step(s, actions[0]).0, actions[1..])
  }

  /** All bytes accepted in a run, in the order in which they were accepted. */
  function AllAccepted(s: State, actions: seq<Action>): seq<byte>
    decreases |actions|
  {
    if actions == [] then [] else Accepts(s, actions[0]) + AllAccepted(Step(s, actions[0]).0, actions[1..])
  }

  /** No flush of the run had bytes left in hand. */
  predicate Lossless(s: State, actions: seq<Action>)
    decreases |actions|
  {
    actions == [] || (Loses(s, actions[0]) == [] && Lossless(Step(s, actions[0]).0, actions[1..]))
  }

  /** Any sequence of calls on a fresh writer, with the reply to each and the writer as they leave it. */
  method Run(attempts: seq<Attempt>, actions: seq<Action>) returns (replies: seq<Reply>, final: State)
    ensures replies == Replies(Start(attempts), actions)
    ensures final == After(Start(attempts), actions)
  {
    var writer := new Writer(attempts);
    replies := [];
    for k := 0 to |actions|
      invariant fresh(writer)
      invariant Replies(Start(attempts), actions) == replies + Replies(writer.View(), actions[k..])
      invariant After(Start(attempts), actions) == After(writer.View(), actions[k..])
    {
      hide Step;
      var reply := writer.Perform(actions[k]);
      assert actions[k..][0] == actions[k] && actions[k..][1..] == actions[k + 1..];
      replies := replies + [reply];
    }
    final := writer.View();
  }

  /** A flush loses nothing exactly when the transport covers what was buffered. */
  lemma LosesNothing(s: State, action: Action)
    ensures Loses(s, action) == [] <==> (Flushes(s, action) ==> Covers(s.attempts, |s.writeBuf|))
  {
  }

  /** Action i of a run, if it flushes, finds a transport that covers the buffer. */
  predicate CoveredAt(s: State, actions: seq<Action>, i: nat) {
    i < |actions| &&
    var now := After(s, actions[..i]);
    Flushes(now, actions[i]) ==> Covers(now.attempts, |now.writeBuf|)
  }

  /** A run loses nothing exactly when the transport covers what is buffered at every flush. */
  lemma {:induction false} LosslessExactly(s: State, actions: seq<Action>)
    ensures Lossless(s, actions) <==>
      forall i {:trigger CoveredAt(s, actions, i)} :: 0 <= i < |actions| ==> CoveredAt(s, actions, i)
    decreases |actions|
  {
    if actions == [] {
    } else {
      hide Step, Flushes, Covers, Loses;
      var next, rest := Step(s, actions[0]).0, actions[1..];
      LosesNothing(s, actions[0]);
      LosslessExactly(next, rest);
      assert actions[..0] == [];
      assert CoveredAt(s, actions, 0) <==> Loses(s, actions[0]) == [];
      forall i | 0 <= i < |rest| ensures CoveredAt(s, actions, i + 1) <==> CoveredAt(next, rest, i) {
        assert actions[..i + 1][0] == actions[0] && actions[..i + 1][1..] == rest[..i];
      }
      if forall i {:trigger CoveredAt(next, rest, i)} :: 0 <= i < |rest| ==> CoveredAt(next, rest, i) {
        forall i {:trigger CoveredAt(s, actions, i)} | 0 < i < |actions| ensures CoveredAt(s, actions, i) {
          assert CoveredAt(next, rest, i - 1);
        }
      }
    }
  }

  lemma DrainConserves(s: State)
    ensures var t, k := AfterDrain(s), Taken(s.attempts, |s.writeBuf|);
      s.sent + s.writeBuf + Heard(s, DrainCalls(s)) == t.sent + s.writeBuf[k..] + t.writeBuf
  {
    hide Taken, DrainCalls, Heard, Covers, AfterDrain;
    var k := Taken(s.attempts, |s.writeBuf|);
    if s.writeBuf == [] {
      NothingToDrain(s);
      HeardNone(s);
    } else {
      DrainShape(s);
      assert s.writeBuf == s.writeBuf[..k] + s.writeBuf[k..];
    }
  }

  /** One action: what was there and what is accepted is what is sent, lost and buffered, in this order. */
  lemma StepConserves(s: State, action: Action)
    ensures var t := Step(s, action).0;
      s.sent + s.writeBuf + Accepts(s, action) == t.sent + Loses(s, action) + t.writeBuf
  {
    hide AfterDrain, DrainOutcome, DrainCalls, Heard, Taken;
    var t := Step(s, action).0;
    if Flushes(s, action) {
      DrainConserves(s);
      assert t.sent == AfterDrain(s).sent && t.writeBuf == AfterDrain(s).writeBuf;
    } else if action.Write? {
      assert s.sent + [] == s.sent;
      assert Open(s) ==> s.sent + s.writeBuf + action.data == s.sent + (s.writeBuf + action.data);
    } else {
      assert s.sent + s.writeBuf + [] == s.sent + [] + s.writeBuf;
    }
  }

  /** The bytes of a run are all accounted for; its order survives exactly when no flush lost anything. */
  lemma {:induction false} RunConserves(s: State, actions: seq<Action>)
    ensures var t := After(s, actions);
      |t.sent| + |t.writeBuf| <= |s.sent| + |s.writeBuf| + |AllAccepted(s, actions)| &&
      (t.sent + t.writeBuf == s.sent + s.writeBuf + AllAccepted(s, actions) <==> Lossless(s, actions))
    decreases |actions|
  {
    hide Step, Accepts, Loses;
    if actions == [] {
      assert s.sent + s.writeBuf + [] == s.sent + s.writeBuf;
    } else {
      var next, rest := Step(s, actions[0]).0, AllAccepted(Step(s, actions[0]).0, actions[1..]);
      StepConserves(s, actions[0]);
      RunConserves(next, actions[1..]);
      assert s.sent + s.writeBuf + (Accepts(s, actions[0]) + rest)
          == (s.sent + s.writeBuf + Accepts(s, actions[0])) + rest;
      if Loses(s, actions[0]) == [] {
        assert next.sent + [] + next.writeBuf == next.sent + next.writeBuf;
      }
    }
  }

  /**
   From a fresh writer: what was accepted is what was sent followed by what is
   buffered, if and only if no flush lost a byte.
   */
  lemma AcceptedIsSentAndBuffered(attempts: seq<Attempt>, actions: seq<Action>)
    ensures var t := After(Start(attempts), actions);
      t.sent + t.writeBuf == AllAccepted(Start(attempts), actions) <==> Lossless(Start(attempts), actions)
  {
    RunConserves(Start(attempts), actions);
    var all := AllAccepted(Start(attempts), actions);
    assert [] + [] + all == all;
  }

  /** A drain never reopens the writer, and closes it exactly when another task does. */
  lemma DrainKeepsFlags(s: State)
    ensures var t := AfterDrain(s);
      t.closing == (s.closing || ClosedDuring(s.attempts[..DrainCalls(s)])) &&
      t.eofCalled == s.eofCalled && t.eofSent == s.eofSent
  {
    hide AfterDrain;
    if s.writeBuf == [] {
      NothingToDrain(s);
      HeardNone(s);
    } else {
      DrainShape(s);
    }
  }

  lemma ShutStep(s: State, action: Action)
    requires !Open(s)
    ensures !Open(Step(s, action).0) && Accepts(s, action) == []
    ensures action.Write? ==> Step(s, action).1 == Wrote(false)
  {
    hide AfterDrain, DrainOutcome, DrainCalls;
    DrainKeepsFlags(s);
  }

  /** A writer that refuses writes refuses them for good, and accepts nothing in any other way. */
  lemma {:induction false} ShutIsFinal(s: State, actions: seq<Action>)
    requires !Open(s)
    ensures !Open(After(s, actions)) && AllAccepted(s, actions) == []
    ensures forall j :: 0 <= j < |actions| && actions[j].Write? ==> Replies(s, actions)[j] == Wrote(false)
    decreases |actions|
  {
    hide Step, Accepts, Open;
    if actions == [] {
    } else {
      ShutStep(s, actions[0]);
      ShutIsFinal(Step(s, actions[0]).0, actions[1..]);
    }
  }

  lemma {:induction false} RunSplits(s: State, a: seq<Action>, b: seq<Action>)
    ensures After(s, a + b) == After(After(s, a), b)
    ensures Replies(s, a + b) == Replies(s, a) + Replies(After(s, a), b)
    ensures AllAccepted(s, a + b) == AllAccepted(s, a) + AllAccepted(After(s, a), b)
    decreases |a|
  {
    hide Step, Accepts;
    if a == [] {
      assert a + b == b;
    } else {
      assert (a + b)[0] == a[0] && (a + b)[1..] == a[1..] + b;
      RunSplits(Step(s, a[0]).0, a[1..], b);
    }
  }

  /** The action shuts the writer: a close, its own or another task's during a flush, or a half-close that completed. */
  predicate Shuts(s: State, action: Action) {
    action.Close? || (action.WriteEof? && Step(s, action).1 == Finished(Completed)) ||
    (Flushes(s, action) && ClosedDuring(s.attempts[..DrainCalls(s)]))
  }

  /**
   In any run, once an action i has closed or half-closed the writer or another
   task has closed it meanwhile, every later write is refused and not one more
   byte is accepted.
   */
  lemma NothingAfterShut(s: State, actions: seq<Action>, i: nat)
    requires i < |actions| && Shuts(After(s, actions[..i]), actions[i])
    ensures AllAccepted(s, actions) == AllAccepted(s, actions[..i + 1])
    ensures forall j :: i < j < |actions| && actions[j].Write? ==> Replies(s, actions)[j] == Wrote(false)
  {
    hide After, Replies, AllAccepted, Step, Open, Shuts;
    var c, d := actions[..i + 1], actions[i + 1..];
    assert actions == c + d;
    ShutAt(s, actions, i);
    RunSplits(s, c, d);
    ShutIsFinal(After(s, c), d);
    assert AllAccepted(s, c) + [] == AllAccepted(s, c);
    forall j | i < j < |actions| && actions[j].Write? ensures Replies(s, actions)[j] == Wrote(false) {
      assert actions[j] == d[j - i - 1];
      assert Replies(s, actions)[j] == Replies(After(s, c), d)[j - i - 1];
    }
  }

  lemma ShutAt(s: State, actions: seq<Action>, i: nat)
    requires i < |actions| && Shuts(After(s, actions[..i]), actions[i])
    ensures !Open(After(s, actions[..i + 1]))
  {
    hide Step, Open, Shuts;
    ShutByStep(After(s, actions[..i]), actions[i]);
    assert actions[..i + 1] == actions[..i] + [actions[i]];
    RunSplits(s, actions[..i], [actions[i]]);
    assert [actions[i]][1..] == [];
  }

  lemma ShutByStep(s: State, action: Action)
    requires Shuts(s, action)
    ensures !Open(Step(s, action).0)
  {
    hide AfterDrain, DrainOutcome, DrainCalls, ClosedDuring;
    DrainKeepsFlags(s);
  }

  // ----- Two promises and when they hold -----

  /**
   A half-close leaves nothing behind in the buffer exactly when no other task
   wrote while it was flushing.
   */
  lemma EofLeavesNothing(s: State)
    requires !s.eofCalled && DrainOutcome(s).Completed?
    ensures var t := Step(s, WriteEof).0;
      t.eofCalled && t.sent == s.sent + s.writeBuf &&
      (t.writeBuf == [] <==> Heard(s, DrainCalls(s)) == [])
  {
    hide AfterDrain, Heard, DrainCalls;
    if s.writeBuf == [] {
      NothingToDrain(s);
      HeardNone(s);
    } else {
      DrainShape(s);
      assert s.writeBuf[..|s.writeBuf|] == s.writeBuf;
    }
    assert AfterDrain(s).writeBuf + [] == AfterDrain(s).writeBuf;
  }

  /** An input on which buffered data is forgotten: a write, then a drain whose transport raises. */
  lemma DrainForgets()
    ensures var attempts, actions := [Raised([])], [Write([7]), Drain];
      var t := After(Start(attempts), actions);
      AllAccepted(Start(attempts), actions) == [7] && t.sent == [] && t.writeBuf == []
  {
    var attempts := [Raised([])];
    var s := Step(Start(attempts), Write([7])).0;
    assert [Write([7]), Drain][1..] == [Drain] && [Drain][1..] == [];
    assert s.writeBuf == [7];
    assert Calls(attempts, 1) == 1 && Taken(attempts, 1) == 0;
    assert attempts[..1] == attempts && attempts[1..] == [];
    assert Meanwhile(attempts) == Told([]) + Meanwhile([]) == [];
    assert After(s, [Drain]) == After(AfterDrain(s), []);
    assert AllAccepted(s, [Drain]) == Accepts(s, Drain) + AllAccepted(AfterDrain(s), []);
  }

  /**
   An input on which `write_eof` leaves data behind: another task writes 9
   while 7 is being flushed. The half-close completes, 9 is still buffered, and
   the next drain sends it after the end of the stream.
   */
  lemma EofStrands()
    ensures var attempts := [Returned(1, [OtherWrites([9])]), Returned(0, []), Returned(0, [])] +
        [Returned(1, []), Returned(0, [])];
      var s := Step(Start(attempts), Write([7])).0;
      var t := Step(s, WriteEof);
      t.1 == Finished(Completed) && t.0.eofSent && t.0.sent == [7] && t.0.writeBuf == [9] &&
      Step(t.0, Drain).0.sent == [7, 9]
  {
    var last: seq<Attempt> := [Returned(1, []), Returned(0, [])];
    var attempts := [Returned(1, [OtherWrites([9])]), Returned(0, []), Returned(0, [])] + last;
    var s := Start(attempts).(writeBuf := [7]);
    assert [] + [7] == [7];
    assert Step(Start(attempts), Write([7])).0 == s;
    HalfClosed(s, 7, 9, last);
    hide Step, AfterDrain;
    var t := Step(s, WriteEof).0;
    Resent(t, 9);
    assert [] + [7] + [9] == [7, 9];
    Drains(t);
  }

  lemma Drains(s: State)
    ensures Step(s, Drain).0 == AfterDrain(s)
  {
  }

  /** A half-close of a writer that holds `x`, during which another task writes `y`. */
  lemma HalfClosed(s: State, x: byte, y: byte, rest: seq<Attempt>)
    requires Open(s) && s.writeBuf == [x]
    requires s.attempts == [Returned(1, [OtherWrites([y])]), Returned(0, []), Returned(0, [])] + rest
    ensures Step(s, WriteEof) == (
      s.(sent := s.sent + [x], writeBuf := [y], attempts := rest, eofCalled := true, eofSent := true),
      Finished(Completed))
  {
    Flushed(s, x, y);
    hide AfterDrain, DrainOutcome;
    assert s.attempts[2..][0] == Returned(0, []) && s.attempts[2..][1..] == rest;
    assert [y] + [] == [y];
  }

  /** A drain of one byte `x`, taken at once while another task writes `y`. */
  lemma Flushed(s: State, x: byte, y: byte)
    requires Open(s) && s.writeBuf == [x] && |s.attempts| >= 2
    requires s.attempts[0] == Returned(1, [OtherWrites([y])]) && s.attempts[1] == Returned(0, [])
    ensures DrainOutcome(s) == Completed
    ensures AfterDrain(s) == s.(sent := s.sent + [x], writeBuf := [y], attempts := s.attempts[2..])
  {
    hide AfterDrain, AfterSend, Meanwhile, ClosedDuring, Told, Calls, Taken, Covers;
    Offer(s.attempts, 1);
    Offer(s.attempts[1..], 0);
    SendShape(s.(writeBuf := []), s.writeBuf);
    DrainShape(s);
    HeardOnce(y);
    assert s.attempts[..2] == [Returned(1, [OtherWrites([y])]), Returned(0, [])];
    assert s.writeBuf[..1] == [x];
  }

  lemma HeardOnce(y: byte)
    ensures var two := [Returned(1, [OtherWrites([y])]), Returned(0, [])]; Meanwhile(two) == [y] && !ClosedDuring(two)
  {
    var two := [Returned(1, [OtherWrites([y])]), Returned(0, [])];
    assert two[1..] == [Returned(0, [])] && two[1..][1..] == [];
    assert Meanwhile(two[1..]) == Told([]) + Meanwhile([]) == [];
    assert ClosedDuring(two[1..]) == ClosedDuring([]) == false;
    assert [OtherWrites([y])][1..] == [] && Told([OtherWrites([y])]) == [y] + Told([]) == [y];
    assert two[0].meanwhile == [OtherWrites([y])] && OtherCloses !in two[0].meanwhile;
  }

  /** The byte left in a half-closed writer goes out with the next drain. */
  lemma Resent(s: State, y: byte)
    requires s.writeBuf == [y] && s.attempts == [Returned(1, []), Returned(0, [])]
    ensures AfterDrain(s).sent == s.sent + [y]
  {
    Offer(s.attempts, 1);
    Offer(s.attempts[1..], 0);
    DrainSendsAll(s);
  }
}
