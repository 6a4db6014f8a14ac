/**
 The resumable publisher of scripts/publish-crates.py as runs against an
 external registry. A registry only grows; a publish command may be accepted
 or refused whatever it reports, and an accepted release becomes visible at
 any later moment; a run may stop at any step, and other runs may upload
 between any two of its steps.
 */
module Publisher {
  import opened Common
  import opened Topology
  import opened ReleasePlan

  datatype Release = Release(crate: string, version: string)

  /** The prerequisite graph of every version ever released. */
  type Graph = map<string, Edges>

  function Prereqs(graph: Graph, r: Release): set<Release> {
    if r.version in graph && r.crate in graph[r.version]
    then set d | d in graph[r.version][r.crate] :: Release(d, r.version)
    else {}
  }

  datatype Answer = Present | Missing | Transient

  /** What `cargo publish` printed, as far as `publish_one` looks at it. */
  datatype CargoReport = CargoReport(succeeded: bool, throttled: bool, serverError: bool, manifestError: bool)

  /** Throttled or a server error, and not a package that failed verification. */
  predicate Retryable(report: CargoReport) {
    !report.succeeded && (report.throttled || report.serverError) && (report.manifestError ==> report.throttled)
  }

  datatype Event =
    | Queried(release: Release, answer: Answer)
    | Published(release: Release, accepted: bool, report: CargoReport)
    | Appeared(releases: set<Release>)
    | Uploaded(releases: set<Release>)

  // ----- The registry -----

  datatype World = World(visible: set<Release>, pending: set<Release>)

  function Apply(w: World, e: Event): World {
    match e
    case Queried(_, _) => w
    case Published(r, accepted, _) => if accepted then w.(pending := w.pending + {r}) else w
    case Appeared(rs) => World(w.visible + rs, w.pending - rs)
    case Uploaded(rs) => w.(pending := w.pending + rs)
  }

  /**
   `present` is only answered for what is visible, only accepted releases
   appear, and whoever else uploads a release does so when its prerequisites
   are visible.
   */
  predicate Legal(graph: Graph, w: World, e: Event) {
    match e
    case Queried(r, answer) => answer.Present? ==> r in w.visible
    case Published(_, _, _) => true
    case Appeared(rs) => rs <= w.pending
    case Uploaded(rs) => forall r :: r in rs ==> Prereqs(graph, r) <= w.visible
  }

  ghost function Replay(w: World, t: seq<Event>): World {
    if t == [] then w else Apply(Replay(w, t[..|t| - 1]), t[|t| - 1])
  }

  ghost predicate Honest(graph: Graph, w: World, t: seq<Event>) {
    t == [] || (Honest(graph, w, t[..|t| - 1]) && Legal(graph, Replay(w, t[..|t| - 1]), t[|t| - 1]))
  }

  /** The graph of the release's version lists `d` for its crate. */
  ghost predicate Lists(graph: Graph, r: Release, d: string) {
    r.version in graph && r.crate in graph[r.version] && d in graph[r.version][r.crate]
  }

  /** Everything in the registry, visible or on its way, has its prerequisites visible. */
  ghost predicate Closed(graph: Graph, w: World) {
    forall r, d :: r in w.visible + w.pending && Lists(graph, r, d) ==> Release(d, r.version) in w.visible
  }

  // ----- What a run has to observe before it acts -----

  datatype Seen = Seen(present: set<Release>, missing: set<Release>)

  ghost function Observed(t: seq<Event>): Seen {
    if t == [] then Seen({}, {})
    else
      var before := Observed(t[..|t| - 1]);
      match t[|t| - 1]
      case Queried(r, Present) => before.(present := before.present + {r})
      case Queried(r, Missing) => before.(missing := before.missing + {r})
      case _ => before
  }

  /** Every publish command comes after all prerequisites were observed present. */
  ghost predicate Ordered(graph: Graph, t: seq<Event>) {
    t == [] ||
    (var before, e := t[..|t| - 1], t[|t| - 1];
     Ordered(graph, before) && (e.Published? ==> Prereqs(graph, e.release) <= Observed(before).present))
  }

  /** What the latest command for a release reported. */
  ghost function LastReport(t: seq<Event>, r: Release): Option<CargoReport> {
    if t == [] then None
    else if t[|t| - 1].Published? && t[|t| - 1].release == r then Some(t[|t| - 1].report)
    else LastReport(t[..|t| - 1], r)
  }

  /** What the registry answered about a release since the latest command for it. */
  ghost function LatestQuery(t: seq<Event>, r: Release): Option<Answer> {
    if t == [] then None
    else if t[|t| - 1].Queried? && t[|t| - 1].release == r then Some(t[|t| - 1].answer)
    else if t[|t| - 1].Published? && t[|t| - 1].release == r then None
    else LatestQuery(t[..|t| - 1], r)
  }

  /**
   A release may be published now: it was observed missing and never present,
   was asked for since the latest command for it, and that command reported
   something worth a retry.
   */
  ghost predicate MayPublish(t: seq<Event>, r: Release) {
    r in Observed(t).missing && r !in Observed(t).present &&
    LatestQuery(t, r).Some? && !LatestQuery(t, r).value.Present? &&
    (LastReport(t, r).Some? ==> Retryable(LastReport(t, r).value))
  }

  ghost predicate Resumable(t: seq<Event>) {
    t == [] ||
    (var before, e := t[..|t| - 1], t[|t| - 1];
     Resumable(before) && (e.Published? ==> MayPublish(before, e.release)))
  }

  ghost function Commands(t: seq<Event>, r: Release): nat {
    if t == [] then 0
    else Commands(t[..|t| - 1], r) +
         if t[|t| - 1].Published? && t[|t| - 1].release == r then 1 else 0
  }

  /** Between two points of a run, commands went only to the given releases. */
  ghost predicate CommandsOnly(t: seq<Event>, u: seq<Event>, releases: set<Release>) {
    forall x :: x !in releases ==> Commands(u, x) == Commands(t, x) && LastReport(u, x) == LastReport(t, x)
  }

  ghost predicate SameQueries(t: seq<Event>, u: seq<Event>) {
    forall x :: LatestQuery(u, x) == LatestQuery(t, x)
  }

  /** The number of registry queries and cargo calls. */
  ghost function Exchanges(t: seq<Event>): nat {
    if t == [] then 0
    else Exchanges(t[..|t| - 1]) + if t[|t| - 1].Queried? || t[|t| - 1].Published? then 1 else 0
  }

  // ----- Safety over whole histories -----

  lemma {:induction false} PresentIsVisible(graph: Graph, w: World, t: seq<Event>)
    requires Honest(graph, w, t)
    ensures Observed(t).present <= Replay(w, t).visible
  {
    if t == [] {
    } else {
      PresentIsVisible(graph, w, t[..|t| - 1]);
    }
  }

  /** Before a publish command, every prerequisite has been observed present. */
  lemma {:induction false} OrderedMeans(graph: Graph, t: seq<Event>, k: nat)
    requires Ordered(graph, t) && k < |t| && t[k].Published?
    ensures Prereqs(graph, t[k].release) <= Observed(t[..k]).present
    decreases |t|
  {
    if k == |t| - 1 {
    } else {
      OrderedMeans(graph, t[..|t| - 1], k);
      assert t[..|t| - 1][..k] == t[..k];
    }
  }

  lemma {:induction false} StaysClosed(graph: Graph, w: World, t: seq<Event>)
    requires Closed(graph, w) && Honest(graph, w, t) && Ordered(graph, t)
    ensures Closed(graph, Replay(w, t))
  {
    if t == [] {
    } else {
      var before := t[..|t| - 1];
      StaysClosed(graph, w, before);
      PresentIsVisible(graph, w, before);
    }
  }

  lemma {:induction false} PrefixesKept(graph: Graph, w: World, t: seq<Event>, k: nat)
    requires Honest(graph, w, t) && Ordered(graph, t) && k <= |t|
    ensures Honest(graph, w, t[..k]) && Ordered(graph, t[..k])
    decreases |t|
  {
    if k == |t| {
      assert t[..k] == t;
    } else {
      PrefixesKept(graph, w, t[..|t| - 1], k);
      assert t[..|t| - 1][..k] == t[..k];
    }
  }

  /** However far a history has got, the registry is closed at that point. */
  lemma ClosedAtEveryMoment(graph: Graph, w: World, t: seq<Event>)
    requires Closed(graph, w) && Honest(graph, w, t) && Ordered(graph, t)
    ensures forall k :: 0 <= k <= |t| ==> Closed(graph, Replay(w, t[..k]))
  {
    forall k | 0 <= k <= |t| ensures Closed(graph, Replay(w, t[..k])) {
      PrefixesKept(graph, w, t, k);
      StaysClosed(graph, w, t[..k]);
    }
  }

  lemma {:induction false} ObservedConcat(a: seq<Event>, b: seq<Event>)
    ensures Observed(a + b).present == Observed(a).present + Observed(b).present
    ensures Observed(a + b).missing == Observed(a).missing + Observed(b).missing
  {
    if b == [] {
      assert a + b == a;
    } else {
      assert (a + b)[..|a + b| - 1] == a + b[..|b| - 1];
      ObservedConcat(a, b[..|b| - 1]);
    }
  }

  lemma {:induction false} OrderedConcat(graph: Graph, a: seq<Event>, b: seq<Event>)
    requires Ordered(graph, a) && Ordered(graph, b)
    ensures Ordered(graph, a + b)
  {
    if b == [] {
      assert a + b == a;
    } else {
      assert (a + b)[..|a + b| - 1] == a + b[..|b| - 1];
      OrderedConcat(graph, a, b[..|b| - 1]);
      ObservedConcat(a, b[..|b| - 1]);
    }
  }

  // ----- Overlapping runs -----

  /** An event together with the run that caused or saw it. */
  datatype Tagged = Tagged(run: nat, event: Event)

  ghost function History(t: seq<Tagged>): seq<Event> {
    seq(|t|, i requires 0 <= i < |t| => t[i].event)
  }

  /**
   What one run can tell of an event: its own events, what becomes visible, and
   an accepted command of another run as an upload by somebody else.
   */
  ghost function Share(e: Tagged, run: nat): seq<Event> {
    if e.run == run || e.event.Appeared? || e.event.Uploaded? then [e.event]
    else if e.event.Published? && e.event.accepted then [Uploaded({e.event.release})]
    else []
  }

  ghost function View(t: seq<Tagged>, run: nat): seq<Event> {
    if t == [] then [] else View(t[..|t| - 1], run) + Share(t[|t| - 1], run)
  }

  /** The history before the last event and a run's view of it, for proofs by induction. */
  lemma ViewStep(t: seq<Tagged>, run: nat)
    requires t != []
    ensures History(t)[..|t| - 1] == History(t[..|t| - 1]) && History(t)[|t| - 1] == t[|t| - 1].event
    ensures var share := Share(t[|t| - 1], run);
      if share == [] then View(t, run) == View(t[..|t| - 1], run)
      else |share| == 1 && View(t, run)[..|View(t, run)| - 1] == View(t[..|t| - 1], run) &&
           View(t, run)[|View(t, run)| - 1] == share[0]
  {
    var earlier, share := View(t[..|t| - 1], run), Share(t[|t| - 1], run);
    assert |share| <= 1;
    hide Share;
    assert View(t, run) == earlier + share;
    assert (earlier + share)[..|earlier|] == earlier;
    assert share == [] ==> earlier + share == earlier;
    assert History(t)[..|t| - 1] == History(t[..|t| - 1]);
  }

  /** Every run sees the registry as it is. */
  lemma {:induction false} ViewReplays(w: World, t: seq<Tagged>, run: nat)
    ensures Replay(w, View(t, run)) == Replay(w, History(t))
  {
    if t == [] {
    } else {
      ViewReplays(w, t[..|t| - 1], run);
      ViewStep(t, run);
    }
  }

  lemma {:induction false} RunSeesLess(t: seq<Tagged>, run: nat)
    ensures Observed(View(t, run)).present <= Observed(History(t)).present
  {
    if t == [] {
    } else {
      RunSeesLess(t[..|t| - 1], run);
      ViewStep(t, run);
    }
  }

  lemma {:induction false} RunsOrderHistory(graph: Graph, t: seq<Tagged>)
    requires forall run :: Ordered(graph, View(t, run))
    ensures Ordered(graph, History(t))
  {
    if t == [] {
    } else {
      var before, run := t[..|t| - 1], t[|t| - 1].run;
      forall other ensures Ordered(graph, View(before, other)) {
        assert Ordered(graph, View(t, other));
        ViewStep(t, other);
      }
      RunsOrderHistory(graph, before);
      RunSeesLess(before, run);
      assert Ordered(graph, View(t, run));
      ViewStep(t, run);
    }
  }

  lemma ShareIsLegal(graph: Graph, w: World, e: Tagged, run: nat)
    requires Legal(graph, w, e.event)
    requires e.event.Published? ==> Prereqs(graph, e.event.release) <= w.visible
    ensures forall x :: x in Share(e, run) ==> Legal(graph, w, x)
  {
  }

  /** An ordered history is an honest registry to each of its runs: what the others upload may be uploaded. */
  lemma {:induction false} ViewIsHonest(graph: Graph, w: World, t: seq<Tagged>, run: nat)
    requires Honest(graph, w, History(t)) && Ordered(graph, History(t))
    ensures Honest(graph, w, View(t, run))
  {
    if t == [] {
    } else {
      hide Legal, Share, Prereqs, Observed, Replay;
      var before := t[..|t| - 1];
      ViewStep(t, run);
      ViewIsHonest(graph, w, before, run);
      ViewReplays(w, before, run);
      PresentIsVisible(graph, w, History(before));
      ShareIsLegal(graph, Replay(w, History(before)), t[|t| - 1], run);
    }
  }

  /**
   Any interleaving of any number of runs, each cut off wherever it may be.
   `Registry.Execute` shows that a run orders its commands whatever honest
   registry it meets; then the registry stays closed at every moment, and it
   was such a registry to every run.
   */
  lemma OverlappingRunsStayClosed(graph: Graph, w: World, t: seq<Tagged>)
    requires Closed(graph, w) && Honest(graph, w, History(t))
    requires forall run :: Ordered(graph, View(t, run))
    ensures forall k :: 0 <= k <= |t| ==> Closed(graph, Replay(w, History(t)[..k]))
    ensures forall run :: Honest(graph, w, View(t, run)) && Replay(w, View(t, run)) == Replay(w, History(t))
  {
    RunsOrderHistory(graph, t);
    ClosedAtEveryMoment(graph, w, History(t));
    forall run ensures Honest(graph, w, View(t, run)) && Replay(w, View(t, run)) == Replay(w, History(t)) {
      ViewIsHonest(graph, w, t, run);
      ViewReplays(w, t, run);
    }
  }

  // ----- The program -----

  lemma HistoryGrows(graph: Graph, w: World, before: seq<Event>, run: seq<Event>, e: Event)
    requires Honest(graph, w, before + run) && Legal(graph, Replay(w, before + run), e)
    ensures Honest(graph, w, before + (run + [e]))
    ensures Replay(w, before + (run + [e])) == Apply(Replay(w, before + run), e)
  {
    var t := before + (run + [e]);
    assert t[..|t| - 1] == before + run;
  }

  lemma RunGrows(graph: Graph, run: seq<Event>, e: Event)
    requires Ordered(graph, run) && Resumable(run)
    requires e.Published? ==> Prereqs(graph, e.release) <= Observed(run).present && MayPublish(run, e.release)
    ensures Ordered(graph, run + [e]) && Resumable(run + [e])
  {
    assert (run + [e])[..|run|] == run;
  }

  ghost function Releases(names: seq<string>, version: string): set<Release> {
    set n | n in names :: Release(n, version)
  }

  lemma PrereqsEarlier(graph: Graph, version: string, order: seq<string>, i: nat)
    requires version in graph && Topological(graph[version], order) && i < |order|
    ensures Prereqs(graph, Release(order[i], version)) <= Releases(order[..i], version)
    ensures Release(order[i], version) !in Releases(order[..i], version)
    ensures Releases(order[..i + 1], version) == Releases(order[..i], version) + {Release(order[i], version)}
  {
    assert order[..i + 1] == order[..i] + [order[i]];
    assert order[i] !in order[..i];
  }

  const MAX_PUBLISH_RETRIES := 5
  const VISIBILITY_ATTEMPTS := 12

  /** Something that happens in the registry between two steps of a run. */
  datatype Move = Upload(releases: set<Release>) | Arrive(releases: set<Release>)

  /** The environment's part of one registry query or cargo call. */
  datatype Choice = Choice(moves: seq<Move>, answer: Answer, accepted: bool, report: CargoReport)

  /** The exchange goes as chosen, except that nothing is called present before it is visible. */
  predicate Made(c: Choice, e: Event) {
    match e
    case Queried(_, answer) => answer == c.answer || (c.answer.Present? && answer.Missing?)
    case Published(_, accepted, report) => accepted == c.accepted && report == c.report
    case _ => true
  }

  /** The exchanges of a run, one after the other, are those that were chosen. */
  ghost predicate AsChosen(choices: seq<Choice>, t: seq<Event>) {
    t == [] ||
    (var before, e := t[..|t| - 1], t[|t| - 1];
     AsChosen(choices, before) &&
     (e.Queried? || e.Published? ==> Exchanges(before) < |choices| && Made(choices[Exchanges(before)], e)))
  }

  lemma AsChosenGrows(choices: seq<Choice>, t: seq<Event>, e: Event)
    requires AsChosen(choices, t)
    requires e.Queried? || e.Published? ==> Exchanges(t) < |choices| && Made(choices[Exchanges(t)], e)
    ensures AsChosen(choices, t + [e])
    ensures Exchanges(t + [e]) == Exchanges(t) + if e.Queried? || e.Published? then 1 else 0
  {
    assert (t + [e])[..|t|] == t;
  }

  /** As much of a move as the registry allows at this point. */
  function Enacted(graph: Graph, w: World, move: Move): Event {
    match move
    case Upload(rs) => Uploaded(set r | r in rs && Prereqs(graph, r) <= w.visible)
    case Arrive(rs) => Appeared(rs * w.pending)
  }

  lemma EnactedIsLegal(graph: Graph, w: World, move: Move)
    ensures Legal(graph, w, Enacted(graph, w, move))
    ensures Enacted(graph, w, move).Uploaded? || Enacted(graph, w, move).Appeared?
    ensures var next := Apply(w, Enacted(graph, w, move));
      w.visible + w.pending <= next.visible + next.pending &&
      w.visible + (if move.Arrive? then move.releases * w.pending else {}) == next.visible
  {
  }

  lemma MoveGrows(t: seq<Event>, e: Event)
    requires e.Uploaded? || e.Appeared?
    ensures Observed(t + [e]) == Observed(t) && CommandsOnly(t, t + [e], {}) && SameQueries(t, t + [e])
  {
    assert (t + [e])[..|t|] == t;
  }

  /**
   A registry at its best: it knows at once what was accepted, accepts what it
   is sent and reports truthfully, for the given releases.
   */
  ghost predicate Cooperates(choices: seq<Choice>, releases: set<Release>) {
    forall c :: c in choices ==>
      c.answer.Present? && c.accepted && c.report.succeeded && Delivers(c.moves, releases)
  }

  ghost predicate Delivers(moves: seq<Move>, releases: set<Release>) {
    moves != [] && moves[|moves| - 1].Arrive? && releases <= moves[|moves| - 1].releases
  }

  lemma FewerCooperates(choices: seq<Choice>, releases: set<Release>, fewer: set<Release>)
    requires Cooperates(choices, releases) && fewer <= releases
    ensures Cooperates(choices, fewer)
  {
  }

  datatype Failure = RegistryUnavailable | NeverVisible | VerificationFailed | PublishFailed

  /** When a run raises over a release, given its last report and the number of commands. */
  ghost predicate RaisedFor(failure: Failure, report: CargoReport, commands: nat) {
    match failure
    case NeverVisible => report.succeeded
    case VerificationFailed => !report.succeeded && report.manifestError && !report.throttled
    case PublishFailed =>
      !report.succeeded && !(report.manifestError && !report.throttled) &&
      (!(report.throttled || report.serverError) || commands == 5)
    case RegistryUnavailable => false
  }

  /** What happened in the run justifies the failure it raises over release r. */
  ghost predicate Explains(t: seq<Event>, r: Release, failure: Failure) {
    if failure.RegistryUnavailable? then t != [] && t[|t| - 1] == Queried(r, Transient)
    else LastReport(t, r).Some? && RaisedFor(failure, LastReport(t, r).value, Commands(t, r))
  }

  datatype Outcome = Done | SkippedPresent | Raised(failure: Failure) | Stopped

  /**
   The outside world of one or more runs. `script` holds the environment's
   choices for the current run, of which `used` have been made, and the run is
   cut off where they end; `before` records what happened from `start` to the
   beginning of the current run, and `run` what happened since.
   */
  class Registry {
    const graph: Graph
    ghost const start: World
    ghost var before: seq<Event>
    ghost var run: seq<Event>
    var world: World
    var script: seq<Choice>
    var used: nat

    ghost function Trace(): seq<Event>
      reads this
    {
      before + run
    }

    ghost predicate Valid()
      reads this
    {
      Honest(graph, start, Trace()) && Replay(start, Trace()) == world &&
      Ordered(graph, before) && Ordered(graph, run) && Resumable(run) &&
      AsChosen(script, run) && Exchanges(run) == used <= |script|
    }

    constructor (graph: Graph, initial: World)
      ensures Valid() && this.graph == graph && start == world == initial
      ensures before == [] && run == [] && script == []
    {
      this.graph := graph;
      start, world := initial, initial;
      before, run, script, used := [], [], [], 0;
    }

    /** A new run; what happened so far is history. */
    method Begin(choices: seq<Choice>)
      requires Valid()
      modifies this`before, this`run, this`script, this`used
      ensures Valid() && before == old(Trace()) && run == [] && script == choices && used == 0
    {
      OrderedConcat(graph, before, run);
      before, run, script, used := before + run, [], choices, 0;
      assert before + run == before;
    }

    method Record(e: Event)
      requires Valid() && Legal(graph, world, e)
      requires e.Queried? || e.Published? ==> used < |script| && Made(script[used], e)
      requires e.Published? ==> Prereqs(graph, e.release) <= Observed(run).present && MayPublish(run, e.release)
      modifies this`world, this`run, this`used
      ensures Valid() && run == old(run) + [e] && world == Apply(old(world), e)
      ensures used == old(used) + if e.Queried? || e.Published? then 1 else 0
    {
      HistoryGrows(graph, start, before, run, e);
      RunGrows(graph, run, e);
      AsChosenGrows(script, run, e);
      hide Honest, Ordered, Resumable, AsChosen, Exchanges, Replay;
      world := Apply(world, e);
      run := run + [e];
      used := used + if e.Queried? || e.Published? then 1 else 0;
    }

    /** The environment moves: others upload, and accepted releases become visible. */
    method Settle(moves: seq<Move>)
      requires Valid()
      modifies this`world, this`run, this`used
      ensures Valid() && Observed(run) == Observed(old(run)) && CommandsOnly(old(run), run, {})
      ensures used == old(used) && SameQueries(old(run), run)
      ensures forall r :: r in old(world).visible + old(world).pending ==>
        r in world.visible + world.pending && (Delivers(moves, {r}) ==> r in world.visible)
    {
      hide Honest, Ordered, Resumable, AsChosen, Replay, Enacted, Legal, Apply;
      hide Observed, Commands, LastReport, LatestQuery, Exchanges;
      for i := 0 to |moves|
        invariant Valid() && Observed(run) == Observed(old(run)) && CommandsOnly(old(run), run, {})
        invariant used == old(used) && SameQueries(old(run), run)
        invariant forall r :: r in old(world).visible + old(world).pending ==>
          r in world.visible + world.pending && (Delivers(moves[..i], {r}) ==> r in world.visible)
      {
        EnactedIsLegal(graph, world, moves[i]);
        MoveGrows(run, Enacted(graph, world, moves[i]));
        Record(Enacted(graph, world, moves[i]));
        assert moves[..i + 1][i] == moves[i];
      }
      assert moves[..|moves|] == moves;
    }

    /** `query_registry`; no answer when the run is cut off here. */
    method Ask(r: Release) returns (a: Option<Answer>)
      requires Valid()
      modifies this`world, this`run, this`used
      ensures Valid() && CommandsOnly(old(run), run, {})
      ensures a.Some? ==>
        Observed(run).present == Observed(old(run)).present + (if a.value.Present? then {r} else {}) &&
        Observed(run).missing == Observed(old(run)).missing + (if a.value.Missing? then {r} else {}) &&
        run != [] && run[|run| - 1] == Queried(r, a.value) && LatestQuery(run, r) == a
      ensures a.None? ==> Observed(run) == Observed(old(run))
      ensures if old(used) == |script| then a.None? && used == old(used) else a.Some? && used == old(used) + 1
      ensures a.Some? ==>
        a.value == script[old(used)].answer || (script[old(used)].answer.Present? && a.value.Missing?)
      ensures a.Some? && Cooperates(script, {r}) && r in old(world).visible + old(world).pending ==>
        a.value.Present?
    {
      if used == |script| {
        return None;
      }
      var c := script[used];
      Settle(c.moves);
      var answer := if c.answer.Present? && r !in world.visible then Missing else c.answer;
      ghost var settled := run;
      Record(Queried(r, answer));
      assert run[..|run| - 1] == settled;
      return Some(answer);
    }

    /** `cargo publish`; the upload may be accepted whatever the report says. */
    method Cargo(r: Release) returns (report: Option<CargoReport>)
      requires Valid()
      requires Prereqs(graph, r) <= Observed(run).present && MayPublish(run, r)
      modifies this`world, this`run, this`used
      ensures Valid() && Observed(run) == Observed(old(run)) && CommandsOnly(old(run), run, {r})
      ensures Commands(run, r) == Commands(old(run), r) + if report.Some? then 1 else 0
      ensures LastReport(run, r) == if report.Some? then report else LastReport(old(run), r)
      ensures if old(used) == |script| then report.None? && used == old(used)
              else report == Some(script[old(used)].report) && used == old(used) + 1
      ensures report.Some? && script[old(used)].accepted ==> r in world.pending
    {
      if used == |script| {
        return None;
      }
      var c := script[used];
      Settle(c.moves);
      ghost var settled := run;
      Record(Published(r, c.accepted, c.report));
      assert run[..|run| - 1] == settled;
      return Some(c.report);
    }

    /** True only after an answer `present`, false only after thirteen others; issues no command. */
    method WaitForVisibility(r: Release) returns (visible: Option<bool>)
      requires Valid()
      modifies this`world, this`run, this`used
      ensures Valid() && CommandsOnly(old(run), run, {})
      ensures Observed(run).present == Observed(old(run)).present + (if visible == Some(true) then {r} else {})
      ensures Observed(old(run)).missing <= Observed(run).missing <= Observed(old(run)).missing + {r}
      ensures old(used) <= used
      ensures visible.None? ==> used == |script|
      ensures visible == Some(false) ==> used == old(used) + 13
      ensures old(used) + 1 <= |script| && Cooperates(script, {r}) && r in old(world).pending ==>
        visible == Some(true) && used == old(used) + 1
    {
      for attempt := 0 to VISIBILITY_ATTEMPTS
        invariant Valid() && CommandsOnly(old(run), run, {})
        invariant used == old(used) + attempt && (attempt == 0 ==> world == old(world))
        invariant attempt > 0 ==> !(Cooperates(script, {r}) && r in old(world).pending)
        invariant Observed(run).present == Observed(old(run)).present
        invariant Observed(old(run)).missing <= Observed(run).missing <= Observed(old(run)).missing + {r}
      {
        var a := Ask(r);
        if a.None? {
          return None;
        }
        if a.value.Present? {
          return Some(true);
        }
      }
      var last := Ask(r);
      return if last.None? then None else Some(last.value.Present?);
    }

    /** One command and what it comes to; no verdict when its report is worth another attempt. */
    method Attempt(r: Release, attempt: nat) returns (verdict: Option<Outcome>)
      requires Valid()
      requires Prereqs(graph, r) <= Observed(run).present && MayPublish(run, r)
      requires Commands(run, r) + 1 == attempt <= MAX_PUBLISH_RETRIES
      modifies this`world, this`run, this`used
      ensures Valid() && CommandsOnly(old(run), run, {r})
      ensures Observed(run).present == Observed(old(run)).present + (if verdict == Some(Done) then {r} else {})
      ensures Observed(old(run)).missing <= Observed(run).missing
      ensures attempt - 1 <= Commands(run, r) <= attempt && old(used) <= used
      ensures verdict.None? ==> Commands(run, r) == attempt < MAX_PUBLISH_RETRIES
      ensures verdict.None? ==> LastReport(run, r).Some? && Retryable(LastReport(run, r).value)
      ensures verdict.Some? && verdict.value.Raised? ==>
        !verdict.value.failure.RegistryUnavailable? && Explains(run, r, verdict.value.failure)
      ensures verdict != Some(SkippedPresent) && (verdict == Some(Stopped) ==> used == |script|)
      ensures old(used) + 2 <= |script| && Cooperates(script, {r}) ==>
        verdict == Some(Done) && used <= old(used) + 2
    {
      var cargo := Cargo(r);
      if cargo.None? {
        return Some(Stopped);
      }
      var report := cargo.value;
      if report.succeeded {
        var visible := WaitForVisibility(r);
        if visible.None? {
          return Some(Stopped);
        }
        return Some(if visible.value then Done else Raised(NeverVisible));
      }
      if report.manifestError && !report.throttled {
        return Some(Raised(VerificationFailed));
      }
      if !((report.throttled || report.serverError) && attempt < MAX_PUBLISH_RETRIES) {
        return Some(Raised(PublishFailed));
      }
      return None;
    }

    /**
     Returns normally exactly when it has observed the release present; issues
     at most five commands, all for this release, each but the first after a
     report worth a retry. Raises after a command that succeeded only when the
     release was never observed present, and otherwise after one that failed
     for good or was the fifth.
     */
    method PublishOne(r: Release) returns (outcome: Outcome)
      requires Valid()
      requires Prereqs(graph, r) <= Observed(run).present && MayPublish(run, r)
      requires LastReport(run, r).None? && Commands(run, r) == 0
      modifies this`world, this`run, this`used
      ensures Valid() && CommandsOnly(old(run), run, {r})
      ensures Observed(run).present ==
        Observed(old(run)).present + (if outcome.Done? || outcome.SkippedPresent? then {r} else {})
      ensures outcome.SkippedPresent? ==> Commands(run, r) == 0
      ensures Commands(run, r) <= 5
      ensures outcome.Raised? ==> !outcome.failure.RegistryUnavailable? && Explains(run, r, outcome.failure)
      ensures outcome.Stopped? ==> used == |script|
      ensures old(used) <= used
      ensures old(used) + 3 <= |script| && Cooperates(script, {r}) ==>
        (outcome.Done? || outcome.SkippedPresent?) && used <= old(used) + 3
    {
      hide Honest, Ordered, Resumable, AsChosen, Observed, Commands, LastReport, LatestQuery, Exchanges;
      hide Prereqs, Replay;
      ghost var helped := used + 3 <= |script| && Cooperates(script, {r});
      var first := Ask(r);
      if first.None? {
        return Stopped;
      }
      if first.value.Present? {
        return SkippedPresent;
      }
      for attempt := 1 to MAX_PUBLISH_RETRIES + 1
        invariant Valid() && CommandsOnly(old(run), run, {r})
        invariant Observed(run).present == Observed(old(run)).present
        invariant r in Observed(run).missing
        invariant Commands(run, r) == attempt - 1
        invariant attempt == 1 ==> LatestQuery(run, r).Some? && !LatestQuery(run, r).value.Present?
        invariant if attempt == 1 then LastReport(run, r).None?
                  else LastReport(run, r).Some? && Retryable(LastReport(run, r).value)
        invariant attempt <= MAX_PUBLISH_RETRIES
        invariant if attempt == 1 then used == old(used) + 1 else old(used) <= used && !helped
      {
        if attempt > 1 {
          var again := Ask(r);
          if again.None? {
            return Stopped;
          }
          if again.value.Present? {
            return Done;
          }
        }
        var verdict := Attempt(r, attempt);
        if verdict.Some? {
          return verdict.value;
        }
      }
      return Raised(PublishFailed);
    }

    /** One pass of the loop over the order: skip, give up, or publish. */
    method Advance(r: Release) returns (outcome: Outcome)
      requires Valid()
      requires Prereqs(graph, r) <= Observed(run).present && r !in Observed(run).present
      requires LastReport(run, r).None? && Commands(run, r) == 0
      modifies this`world, this`run, this`used
      ensures Valid() && !outcome.SkippedPresent? && CommandsOnly(old(run), run, {r})
      ensures Observed(run).present == Observed(old(run)).present + (if outcome.Done? then {r} else {})
      ensures Commands(run, r) <= 5
      ensures outcome.Raised? ==> Explains(run, r, outcome.failure)
      ensures outcome.Stopped? ==> used == |script|
      ensures old(used) <= used
      ensures old(used) + 4 <= |script| && Cooperates(script, {r}) ==> outcome.Done? && used <= old(used) + 4
    {
      var state := Ask(r);
      if state.None? {
        return Stopped;
      }
      match state.value
      case Present =>
        return Done;
      case Transient =>
        return Raised(RegistryUnavailable);
      case Missing =>
        outcome := PublishOne(r);
        if outcome.SkippedPresent? {
          outcome := Done;
        }
    }

    /**
     One `--execute` run. Whatever the registry answers, whatever the commands
     report, whatever others upload meanwhile and wherever the run stops:
     commands respect the graph, are issued only for releases observed missing
     and never observed present, and at most five times each. A run that
     completes has observed every crate, and one that does not has stopped at
     one crate, with a reason; a cooperating registry lets it complete.
     */
    method Execute(version: string, order: seq<string>, choices: seq<Choice>) returns (outcome: Outcome)
      requires Valid()
      requires version in graph && Topological(graph[version], order)
      modifies this
      ensures Valid() && before == old(Trace())
      ensures RunGuarantee(graph, RunInput(version, order, choices), run, outcome)
      ensures outcome.Done? ==> Releases(order, version) <= world.visible
    {
      hide Topological, Honest, Prereqs, Replay, Cooperates, Explains;
      Begin(choices);
      ghost var all := Releases(order, version);
      for i := 0 to |order|
        invariant Valid() && before == old(Trace())
        invariant Observed(run).present == Releases(order[..i], version)
        invariant CommandsAtMost(run, Releases(order[..i], version))
        invariant script == choices
        invariant |choices| >= 4 * |order| && Cooperates(choices, all) ==> used <= 4 * i
      {
        var r := Release(order[i], version);
        PrereqsEarlier(graph, version, order, i);
        assert r in all;
        if |choices| >= 4 * |order| && Cooperates(choices, all) {
          FewerCooperates(choices, all, {r});
        }
        var step := Advance(r);
        if !step.Done? {
          assert StoppedAt(run, version, order, i, step);
          return step;
        }
      }
      assert order[..|order|] == order;
      ObservedConcat(before, run);
      PresentIsVisible(graph, start, Trace());
      return Done;
    }
  }

  /** One invocation: the version, the planned order, and what the environment will do. */
  datatype RunInput = RunInput(version: string, order: seq<string>, choices: seq<Choice>)

  /** At most five commands each, and only for the given releases. */
  ghost predicate CommandsAtMost(t: seq<Event>, releases: set<Release>) {
    forall x :: Commands(t, x) <= 5 &&
                (Commands(t, x) > 0 || LastReport(t, x).Some? ==> x in releases)
  }

  /** The run ended at crate i: it has observed those before it and no other, and the end has a reason. */
  ghost predicate StoppedAt(t: seq<Event>, version: string, order: seq<string>, i: nat, outcome: Outcome) {
    i < |order| && Observed(t).present == Releases(order[..i], version) &&
    (outcome.Raised? ==> Explains(t, Release(order[i], version), outcome.failure))
  }

  /** What one run promises about its own events, as far as it got. */
  ghost predicate RunGuarantee(graph: Graph, input: RunInput, t: seq<Event>, outcome: Outcome) {
    var releases := Releases(input.order, input.version);
    Ordered(graph, t) && Resumable(t) && CommandsAtMost(t, releases) && !outcome.SkippedPresent? &&
    (outcome.Done? ==> Observed(t).present == releases) &&
    (!outcome.Done? ==> exists i :: StoppedAt(t, input.version, input.order, i, outcome)) &&
    AsChosen(input.choices, t) && Exchanges(t) <= |input.choices| &&
    (outcome.Stopped? ==> Exchanges(t) == |input.choices|) &&
    (|input.choices| >= 4 * |input.order| && Cooperates(input.choices, releases) ==> outcome.Done?)
  }

  // ----- Executions that overlap -----

  ghost predicate OnlyMoves(t: seq<Event>) {
    forall e :: e in t ==> e.Uploaded? || e.Appeared?
  }

  /** One execution among others: what it did, and what it saw of the registry before it began and after its end. */
  datatype Part = Part(earlier: seq<Event>, own: seq<Event>, later: seq<Event>, input: RunInput, outcome: Outcome)

  ghost predicate IsExecution(graph: Graph, view: seq<Event>, part: Part) {
    view == part.earlier + part.own + part.later && OnlyMoves(part.earlier) && OnlyMoves(part.later) &&
    RunGuarantee(graph, part.input, part.own, part.outcome)
  }

  lemma {:induction false} MovesAreOrdered(graph: Graph, t: seq<Event>)
    requires OnlyMoves(t)
    ensures Ordered(graph, t)
  {
    if t == [] {
    } else {
      MovesAreOrdered(graph, t[..|t| - 1]);
      assert t[|t| - 1] in t;
    }
  }

  lemma {:induction false} OthersOnlyMove(t: seq<Tagged>, run: nat)
    requires forall e :: e in t && (e.event.Queried? || e.event.Published?) ==> e.run != run
    ensures OnlyMoves(View(t, run))
  {
    if t == [] {
    } else {
      OthersOnlyMove(t[..|t| - 1], run);
      assert t[|t| - 1] in t;
    }
  }

  lemma ExecutionIsOrdered(graph: Graph, view: seq<Event>, part: Part)
    requires IsExecution(graph, view, part)
    ensures Ordered(graph, view) && Observed(part.own).present <= Observed(view).present
  {
    hide Ordered, Observed;
    MovesAreOrdered(graph, part.earlier);
    MovesAreOrdered(graph, part.later);
    OrderedConcat(graph, part.earlier, part.own);
    OrderedConcat(graph, part.earlier + part.own, part.later);
    ObservedConcat(part.earlier, part.own);
    ObservedConcat(part.earlier + part.own, part.later);
  }

  /**
   Any number of executions, each with what `Registry.Execute` promises of it,
   interleaved in any way: the registry is closed at every moment, was honest
   to each of them, and ends with every completed execution's releases visible.
   */
  lemma OverlappingExecutionsStayClosed(graph: Graph, w: World, t: seq<Tagged>, parts: seq<Part>)
    requires Closed(graph, w) && Honest(graph, w, History(t))
    requires forall e :: e in t && (e.event.Queried? || e.event.Published?) ==> e.run < |parts|
    requires forall run :: 0 <= run < |parts| ==> IsExecution(graph, View(t, run), parts[run])
    ensures forall k :: 0 <= k <= |t| ==> Closed(graph, Replay(w, History(t)[..k]))
    ensures forall run :: Honest(graph, w, View(t, run)) && Replay(w, View(t, run)) == Replay(w, History(t))
    ensures forall run :: 0 <= run < |parts| && parts[run].outcome.Done? ==>
      Releases(parts[run].input.order, parts[run].input.version) <= Replay(w, History(t)).visible
  {
    hide Ordered, Observed, Honest, Replay, Closed, View, History, IsExecution;
    forall run: nat ensures Ordered(graph, View(t, run)) {
      if run < |parts| {
        ExecutionIsOrdered(graph, View(t, run), parts[run]);
      } else {
        OthersOnlyMove(t, run);
        MovesAreOrdered(graph, View(t, run));
      }
    }
    OverlappingRunsStayClosed(graph, w, t);
    forall run | 0 <= run < |parts| && parts[run].outcome.Done?
      ensures Releases(parts[run].input.order, parts[run].input.version) <= Replay(w, History(t)).visible
    {
      CompletedIsVisible(graph, w, View(t, run), parts[run]);
    }
  }

  lemma CompletedIsVisible(graph: Graph, w: World, view: seq<Event>, part: Part)
    requires Honest(graph, w, view) && IsExecution(graph, view, part) && part.outcome.Done?
    ensures Releases(part.input.order, part.input.version) <= Replay(w, view).visible
  {
    ExecutionIsOrdered(graph, view, part);
    PresentIsVisible(graph, w, view);
  }

  // ----- From the metadata to the registry -----

  /** A command for a crate comes after all normal and build prerequisites in the workspace were seen published. */
  ghost predicate PublishedInOrder(t: seq<Event>, version: string, metadata: seq<Package>, names: set<string>) {
    forall k, n, d :: 0 <= k < |t| && n in names && d in names && d != n && Requires(metadata, n, d) ==>
      t[k].Published? && t[k].release == Release(n, version) ==> Release(d, version) in Observed(t[..k]).present
  }

  lemma OrderedPublishes(graph: Graph, t: seq<Event>, version: string, metadata: seq<Package>, names: set<string>)
    requires Ordered(graph, t) && version in graph && IsPrerequisiteGraph(metadata, names, graph[version])
    ensures PublishedInOrder(t, version, metadata, names)
  {
    hide Ordered, Observed, Requires;
    forall k, n, d | 0 <= k < |t| && n in names && d in names && d != n && Requires(metadata, n, d)
      ensures t[k].Published? && t[k].release == Release(n, version) ==> Release(d, version) in Observed(t[..k]).present
    {
      if t[k].Published? {
        OrderedMeans(graph, t, k);
      }
    }
  }

  /** The registry's current run has followed the order that the graph determines, with all a run promises. */
  ghost predicate PlannedRun(
      registry: Registry, version: string, order: seq<string>, choices: seq<Choice>, outcome: Outcome)
    reads registry
  {
    version in registry.graph &&
    Topological(registry.graph[version], order) && InRounds(registry.graph[version], order) &&
    RunGuarantee(registry.graph, RunInput(version, order, choices), registry.run, outcome)
  }

  /**
   `--execute` from the metadata on: the plan, then the run. A plan that fails
   touches nothing; a run that completes leaves every publishable crate visible.
   */
  method CmdExecute(
      registry: Registry, version: string, metadata: seq<Package>, packages: map<string, string>, choices: seq<Choice>)
    returns (r: Result<Outcome, PlanError>)
    requires registry.Valid() && version in registry.graph
    requires IsPrerequisiteGraph(metadata, packages.Keys, registry.graph[version])
    modifies registry
    ensures registry.Valid()
    ensures r.Err? ==> registry.Trace() == old(registry.Trace()) && registry.world == old(registry.world)
    ensures r.Err? <==> !Plannable(version, metadata, packages)
    ensures r.Ok? ==> registry.before == old(registry.Trace())
    ensures r.Ok? ==> exists order :: PlannedRun(registry, version, order, choices, r.value)
    ensures r.Ok? ==> PublishedInOrder(registry.run, version, metadata, packages.Keys)
    ensures r.Ok? ==> CommandsAtMost(registry.run, set n | n in packages :: Release(n, version))
    ensures r == Ok(Done) ==> forall n :: n in packages ==> Release(n, version) in registry.world.visible
    ensures r.Ok? && |choices| >= 4 * |packages| ==>
      Cooperates(choices, set n | n in packages :: Release(n, version)) ==> r == Ok(Done)
  {
    var plan := ComputePlan(version, metadata, packages);
    if plan.Err? {
      return Err(plan.error);
    }
    var order := plan.value.order;
    assert plan.value.edges == registry.graph[version];
    OrderCovers(plan.value.edges, order, version);
    hide Topological, InRounds, VersionsValid, IsPrerequisiteGraph, Cooperates, PublishedInOrder;
    var outcome := registry.Execute(version, order, choices);
    assert PlannedRun(registry, version, order, choices, outcome);
    OrderedPublishes(registry.graph, registry.run, version, metadata, packages.Keys);
    return Ok(outcome);
  }

  lemma OrderCovers(edges: Edges, order: seq<string>, version: string)
    requires Topological(edges, order)
    ensures |order| == |edges.Keys| && forall n :: n in order <==> n in edges
    ensures Releases(order, version) == set n | n in edges :: Release(n, version)
  {
    EnumerationSize(order, edges.Keys);
    assert forall n :: n in order <==> n in Elements(order);
  }

  lemma {:induction false} EnumerationSize(order: seq<string>, names: set<string>)
    requires Distinct(order) && Elements(order) == names
    ensures |order| == |names|
  {
    if order == [] {
      assert names == {};
    } else {
      var rest := order[1..];
      assert order == [order[0]] + rest;
      assert order[0] !in rest;
      assert Elements(rest) == names - {order[0]};
      EnumerationSize(rest, names - {order[0]});
    }
  }

  /**
   Any sequence of runs, each stopped anywhere. What happened is one segment
   for each run, with that run's guarantee; what a completed run has released
   is visible at the end; the registry is closed at every moment.
   */
  method Campaign(graph: Graph, initial: World, runs: seq<RunInput>)
    returns (registry: Registry, outcomes: seq<Outcome>, ghost segments: seq<seq<Event>>)
    requires Closed(graph, initial)
    requires forall i :: 0 <= i < |runs| ==>
      runs[i].version in graph && Topological(graph[runs[i].version], runs[i].order)
    ensures registry.start == initial && registry.graph == graph
    ensures |outcomes| == |segments| == |runs| && registry.Trace() == Flatten(segments)
    ensures forall i :: 0 <= i < |runs| ==> RunGuarantee(graph, runs[i], segments[i], outcomes[i])
    ensures Honest(graph, initial, registry.Trace()) && registry.world == Replay(initial, registry.Trace())
    ensures forall i :: 0 <= i < |runs| && outcomes[i].Done? ==>
      Releases(runs[i].order, runs[i].version) <= registry.world.visible
    ensures forall k :: 0 <= k <= |registry.Trace()| ==> Closed(graph, Replay(initial, registry.Trace()[..k]))
  {
    registry := new Registry(graph, initial);
    outcomes, segments := [], [];
    for i := 0 to |runs|
      invariant fresh(registry) && registry.Valid() && registry.start == initial && registry.graph == graph
      invariant |outcomes| == |segments| == i && registry.Trace() == Flatten(segments)
      invariant forall j :: 0 <= j < i ==> RunGuarantee(graph, runs[j], segments[j], outcomes[j])
    {
      hide Topological, Honest, Ordered, Resumable, RunGuarantee;
      var outcome := registry.Execute(runs[i].version, runs[i].order, runs[i].choices);
      outcomes := outcomes + [outcome];
      FlattenAppend(segments, registry.run);
      segments := segments + [registry.run];
    }
    OrderedConcat(graph, registry.before, registry.run);
    ClosedAtEveryMoment(graph, initial, registry.Trace());
    PresentIsVisible(graph, initial, registry.Trace());
    forall i | 0 <= i < |runs| && outcomes[i].Done?
      ensures Releases(runs[i].order, runs[i].version) <= registry.world.visible
    {
      SegmentObserved(segments, i);
    }
  }

  lemma {:induction false} SegmentObserved(segments: seq<seq<Event>>, i: nat)
    requires i < |segments|
    ensures Observed(segments[i]).present <= Observed(Flatten(segments)).present
  {
    ObservedConcat(segments[0], Flatten(segments[1..]));
    if i == 0 {
    } else {
      SegmentObserved(segments[1..], i - 1);
    }
  }
}
