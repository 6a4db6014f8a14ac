/**
 Chains of proxies: construction from a `__`-list (python/pproxy/server.py) and
 the handshakes that a connection through them puts on the wire
 (python/eggress/_pproxy_proxy.py).
 */
module ProxyChain {
  import opened Common

  /** One URI of the list, parsed. A `direct` URI, or a proxy endpoint with its protocols and users. */
  datatype Hop =
    | DirectHop
    | ProxyHop(host: Option<string>, port: Option<nat>, protos: seq<string>, users: seq<seq<byte>>)

  /** What a proxy object knows of its own endpoint. */
  type Upstream = h: Hop | h.ProxyHop? witness ProxyHop(None, None, [], [])

  datatype Proxy = Direct | Simple(hop: Upstream, jump: Proxy)

  datatype Endpoint = Endpoint(host: Option<string>, port: Option<nat>)

  datatype Credential = NoCredential | Credential(user: seq<byte>, password: seq<byte>)

  datatype Event =
    | Dial(endpoint: Endpoint)
    | Connect(proto: string, target: Endpoint, auth: Credential)
    | Close

  // ----- Building -----

  /** `_proxy_by_uri`, as far as the shape of the chain goes: a direct hop drops its jump. */
  function ProxyByUri(hop: Hop, jump: Proxy): Proxy {
    if hop.DirectHop? then Direct else Simple(hop, jump)
  }

  function Chain(hops: seq<Hop>): Proxy {
    if hops == [] then Direct else ProxyByUri(hops[0], Chain(hops[1..]))
  }

  /** Reads every URI; none if one of them is refused. */
  function ParseAll(uris: seq<string>, parse: string -> Option<Hop>): (r: Option<seq<Hop>>)
    ensures r.None? <==> exists i :: 0 <= i < |uris| && parse(uris[i]).None?
    ensures r.Some? ==> |r.value| == |uris| && forall i :: 0 <= i < |uris| ==> parse(uris[i]) == Some(r.value[i])
  {
    if uris == [] then Some([])
    else
      var first, others := parse(uris[0]), ParseAll(uris[1..], parse);
      if first.Some? && others.Some? then Some([first.value] + others.value)
      else
        assert others.None? ==> exists i :: 1 <= i < |uris| && parse(uris[i]).None? by {
          if others.None? {
            var i :| 0 <= i < |uris[1..]| && parse(uris[1..][i]).None?;
            assert parse(uris[i + 1]).None?;
          }
        }
        None
  }

  /** `proxies_by_uri`: the list is walked from its end, each URI wrapping the chain built so far. */
  method ProxiesByUri(jumps: string, parse: string -> Option<Hop>) returns (r: Option<Proxy>)
    ensures r.Some? <==> ParseAll(Split(jumps), parse).Some?
    ensures r.Some? ==> r.value == Chain(ParseAll(Split(jumps), parse).value)
  {
    var uris := Split(jumps);
    var jump := Direct;
    var k := |uris|;
    assert uris[k..] == [];
    while k > 0
      invariant 0 <= k <= |uris|
      invariant ParseAll(uris[k..], parse).Some? && jump == Chain(ParseAll(uris[k..], parse).value)
    {
      k := k - 1;
      assert uris[k..][1..] == uris[k + 1..];
      var hop := parse(uris[k]);
      if hop.None? {
        return None;
      }
      assert ParseAll(uris[k..], parse).value[1..] == ParseAll(uris[k + 1..], parse).value;
      jump := ProxyByUri(hop.value, jump);
    }
    assert uris[0..] == uris;
    return Some(jump);
  }

  // ----- Cutting the list -----

  predicate SeparatorAt(s: string, i: int) {
    0 <= i < |s| - 1 && s[i] == '_' && s[i + 1] == '_'
  }

  ghost predicate HasSeparator(s: string) {
    exists i :: SeparatorAt(s, i)
  }

  /** Position of the first `__` at or after `from`, or -1. */
  function FindSeparator(s: string, from: nat): (r: int)
    requires from <= |s|
    ensures r == -1 || (from <= r && SeparatorAt(s, r))
    ensures forall i :: from <= i && (r == -1 || i < r) ==> !SeparatorAt(s, i)
    decreases |s| - from
  {
    if SeparatorAt(s, from) then from
    else if from == |s| then -1
    else FindSeparator(s, from + 1)
  }

  /** `jumps.split("__")` */
  function Split(s: string): (r: seq<string>)
    ensures r != []
    decreases |s|
  {
    var i := FindSeparator(s, 0);
    if i == -1 then [s] else [s[..i]] + Split(s[i + 2..])
  }

  function Join(uris: seq<string>): string
    requires uris != []
  {
    if |uris| == 1 then uris[0] else uris[0] + "__" + Join(uris[1..])
  }

  /** No URI contains the separator, and none but the last ends in an underscore. */
  ghost predicate Separable(uris: seq<string>) {
    forall i :: 0 <= i < |uris| ==> !HasSeparator(if i < |uris| - 1 then uris[i] + "_" else uris[i])
  }

  lemma SeparatorFound(u: string, rest: string)
    requires !HasSeparator(u + "_")
    ensures FindSeparator(u + "__" + rest, 0) == |u|
  {
    var s := u + "__" + rest;
    assert SeparatorAt(s, |u|);
    assert forall i :: 0 <= i < |u| && SeparatorAt(s, i) ==> SeparatorAt(u + "_", i);
  }

  lemma {:induction false} SplitSeparable(s: string)
    ensures Separable(Split(s)) && Join(Split(s)) == s
    decreases |s|
  {
    var i := FindSeparator(s, 0);
    if i >= 0 {
      var tail := Split(s[i + 2..]);
      SplitSeparable(s[i + 2..]);
      assert forall k :: SeparatorAt(s[..i] + "_", k) ==> SeparatorAt(s, k);
      assert Split(s)[1..] == tail;
      forall k | 0 <= k < |Split(s)|
        ensures !HasSeparator(if k < |Split(s)| - 1 then Split(s)[k] + "_" else Split(s)[k])
      {
        if k > 0 {
          assert Split(s)[k] == tail[k - 1];
          assert !HasSeparator(if k - 1 < |tail| - 1 then tail[k - 1] + "_" else tail[k - 1]);
        }
      }
      assert s == s[..i] + "__" + s[i + 2..];
    }
  }

  /** Cutting a joined list gives the list back exactly when its URIs can be told apart. */
  lemma {:induction false} SplitJoin(uris: seq<string>)
    requires uris != []
    ensures Split(Join(uris)) == uris <==> Separable(uris)
  {
    SplitSeparable(Join(uris));
    if Separable(uris) {
      SplitJoinSeparable(uris);
    }
  }

  lemma {:induction false} SplitJoinSeparable(uris: seq<string>)
    requires uris != [] && Separable(uris)
    ensures Split(Join(uris)) == uris
  {
    assert !HasSeparator(if 0 < |uris| - 1 then uris[0] + "_" else uris[0]);
    if |uris| <= 1 {
    } else {
      var rest := Join(uris[1..]);
      SeparatorFound(uris[0], rest);
      var s := uris[0] + "__" + rest;
      assert s[..|uris[0]|] == uris[0] && s[|uris[0]| + 2..] == rest;
      assert Separable(uris[1..]) by {
        forall i | 0 <= i < |uris[1..]|
          ensures !HasSeparator(if i < |uris[1..]| - 1 then uris[1..][i] + "_" else uris[1..][i])
        {
          assert !HasSeparator(if i + 1 < |uris| - 1 then uris[i + 1] + "_" else uris[i + 1]);
        }
      }
      SplitJoinSeparable(uris[1..]);
    }
  }

  // ----- Connecting -----

  const COLON: byte := 58

  /** Position of the first colon, or the length. */
  function FirstColon(cred: seq<byte>): (i: nat)
    ensures i <= |cred| && COLON !in cred[..i] && (i < |cred| ==> cred[i] == COLON)
  {
    if cred == [] || cred[0] == COLON then 0 else 1 + FirstColon(cred[1..])
  }

  /** The first user of a hop, split at the first colon; an empty one counts as none. */
  function CredentialOf(users: seq<seq<byte>>): (r: Credential)
    ensures r.NoCredential? <==> users == [] || users[0] == []
    ensures r.Credential? ==> COLON !in r.user
    ensures r.Credential? ==>
      users[0] == if COLON in users[0] then r.user + [COLON] + r.password else r.user
    ensures r.Credential? && COLON !in users[0] ==> r.password == []
  {
    if users == [] || users[0] == [] then NoCredential
    else
      var i := FirstColon(users[0]);
      Credential(users[0][..i], if i < |users[0]| then users[0][i + 1..] else [])
  }

  function EndpointOf(hop: Upstream): Endpoint {
    Endpoint(hop.host, if hop.port == Some(0) then None else hop.port)
  }

  function Destination(p: Proxy, target: Endpoint): Endpoint {
    match p
    case Direct => target
    case Simple(hop, _) => EndpointOf(hop)
  }

  /** The handshakes of `prepare_connection` along the chain, when none fails. */
  function Handshakes(p: Proxy, target: Endpoint): seq<Event> {
    match p
    case Direct => []
    case Simple(hop, jump) =>
      (if hop.protos == [] then []
       else [Connect(hop.protos[0], Destination(jump, target), CredentialOf(hop.users))])
      + Handshakes(jump, target)
  }

  /** Handshakes sent until one fails; `works` tells which succeed, and past its end the peer is gone. */
  function Attempted(handshakes: seq<Event>, works: seq<bool>): (r: (seq<Event>, bool)) {
    if handshakes == [] then ([], true)
    else if works == [] || !works[0] then ([handshakes[0]], false)
    else
      var (sent, ok) := Attempted(handshakes[1..], works[1..]);
      ([handshakes[0]] + sent, ok)
  }

  /** What is sent is a prefix of the full exchange, and the failing handshake is the last one sent. */
  lemma {:induction false} AttemptedIsPrefix(handshakes: seq<Event>, works: seq<bool>)
    ensures var (sent, ok) := Attempted(handshakes, works);
      sent <= handshakes && (ok ==> sent == handshakes) &&
      |sent| - 1 <= |works| && (forall k :: 0 <= k < |sent| - 1 ==> works[k]) &&
      (!ok ==> sent != [] && (|sent| - 1 < |works| ==> !works[|sent| - 1]))
  {
    if handshakes == [] || works == [] || !works[0] {
    } else {
      AttemptedIsPrefix(handshakes[1..], works[1..]);
      var (sent, _) := Attempted(handshakes, works);
      assert forall k :: 1 <= k < |sent| - 1 ==> works[k] == works[1..][k - 1];
    }
  }

  lemma {:induction false} AttemptedAll(handshakes: seq<Event>, works: seq<bool>)
    requires |works| >= |handshakes| && forall k :: 0 <= k < |works| ==> works[k]
    ensures Attempted(handshakes, works) == (handshakes, true)
  {
    if handshakes == [] {
    } else {
      AttemptedAll(handshakes[1..], works[1..]);
      assert handshakes == [handshakes[0]] + handshakes[1..];
    }
  }

  method PrepareConnection(p: Proxy, target: Endpoint, works: seq<bool>) returns (trace: seq<Event>, ok: bool)
    ensures (trace, ok) == Attempted(Handshakes(p, target), works)
    decreases p
  {
    match p
    case Direct =>
      return [], true;
    case Simple(hop, jump) =>
      if hop.protos != [] {
        var e := Connect(hop.protos[0], Destination(jump, target), CredentialOf(hop.users));
        assert Handshakes(p, target)[1..] == Handshakes(jump, target);
        if works == [] || !works[0] {
          return [e], false;
        }
        trace, ok := PrepareConnection(jump, target, works[1..]);
        trace := [e] + trace;
      } else {
        assert Handshakes(p, target) == Handshakes(jump, target);
        trace, ok := PrepareConnection(jump, target, works);
      }
  }

  datatype Failure = IncompleteEndpoint | DialFailed | HandshakeFailed

  predicate Complete(hop: Upstream) {
    hop.host.Some? && hop.host.value != "" && hop.port.Some? && hop.port.value != 0
  }

  /** A hop that can be dialled: a nonempty host and a port other than 0. */
  ghost predicate Dialable(hop: Upstream, e: Endpoint) {
    e.host.Some? && |e.host.value| > 0 && e.port.Some? && e.port.value > 0 && hop.host == e.host && hop.port == e.port
  }

  ghost predicate DialsFirst(p: Proxy, target: Endpoint, e: Event) {
    e.Dial? && if p.Direct? then e.endpoint == target else Dialable(p.hop, e.endpoint)
  }

  /** `tcp_connect`: dials the first hop, or the target when there is none, and closes on a failed handshake. */
  method TcpConnect(p: Proxy, target: Endpoint, dials: bool, works: seq<bool>)
    returns (trace: seq<Event>, r: Result<(), Failure>)
    ensures p.Simple? && !Complete(p.hop) ==> r == Err(IncompleteEndpoint) && trace == []
    ensures r == Err(IncompleteEndpoint) <==> p.Simple? && forall e :: !Dialable(p.hop, e)
    ensures trace != [] ==> DialsFirst(p, target, trace[0])
    ensures (p.Simple? ==> Complete(p.hop)) ==>
      var dial := [Dial(Destination(p, target))];
      var (sent, ok) := Attempted(Handshakes(p, target), works);
      if !dials then r == Err(DialFailed) && trace == dial
      else if ok then r == Ok(()) && trace == dial + sent
      else r == Err(HandshakeFailed) && trace == dial + sent + [Close]
  {
    if p.Simple? && !Complete(p.hop) {
      return [], Err(IncompleteEndpoint);
    }
    assert p.Simple? ==> Dialable(p.hop, Endpoint(p.hop.host, p.hop.port));
    trace := [Dial(Destination(p, target))];
    if !dials {
      return trace, Err(DialFailed);
    }
    var sent, ok := PrepareConnection(p, target, works);
    trace := trace + sent;
    if ok {
      return trace, Ok(());
    }
    return trace + [Close], Err(HandshakeFailed);
  }

  // ----- What a list of hops does -----

  /** The hops before the first `direct`. */
  function Effective(hops: seq<Hop>): (r: seq<Hop>)
    ensures r <= hops && (forall h :: h in r ==> h.ProxyHop?)
    ensures |r| < |hops| ==> hops[|r|].DirectHop?
  {
    if hops == [] || hops[0].DirectHop? then [] else [hops[0]] + Effective(hops[1..])
  }

  /** Handshake `i` of a list: over hop i, as hop i's user, to the next hop or finally to the target. */
  function HandshakeOf(hops: seq<Hop>, target: Endpoint, i: nat): Event
    requires i < |Effective(hops)| && hops[i].protos != []
  {
    assert hops[i] == Effective(hops)[i];
    assert i + 1 < |Effective(hops)| ==> hops[i + 1] == Effective(hops)[i + 1];
    Connect(hops[i].protos[0],
            if i + 1 < |Effective(hops)| then EndpointOf(hops[i + 1]) else target,
            CredentialOf(hops[i].users))
  }

  lemma {:induction false} ChainDestination(hops: seq<Hop>, target: Endpoint)
    ensures Destination(Chain(hops), target) ==
      if Effective(hops) == [] then target else EndpointOf(hops[0])
  {
  }

  /**
   The handshakes of a chain of n proxies are n in number: handshake i goes
   over hop i with that hop's own credential and asks for hop i + 1, the last
   one for the target.
   */
  lemma {:induction false} ChainHandshakes(hops: seq<Hop>, target: Endpoint, i: nat)
    requires forall h :: h in Effective(hops) ==> h.protos != []
    ensures |Handshakes(Chain(hops), target)| == |Effective(hops)|
    ensures i < |Effective(hops)| ==> Handshakes(Chain(hops), target)[i] == HandshakeOf(hops, target, i)
    decreases |hops|
  {
    if hops == [] || !hops[0].ProxyHop? {
    } else {
      var rest := hops[1..];
      assert Effective(hops) == [hops[0]] + Effective(rest);
      assert forall h :: h in Effective(rest) ==> h in Effective(hops);
      assert hops[0] in Effective(hops);
      ChainHandshakes(rest, target, if i == 0 then 0 else i - 1);
      ChainDestination(rest, target);
      if i == 0 && Effective(rest) != [] {
        assert hops[1] == rest[0];
      }
      if i > 0 && i + 1 < |Effective(hops)| {
        assert hops[i + 1] == rest[i];
      }
    }
  }

  /** The endpoint of a hop: its host and its port, where a port of 0 is no port. */
  ghost predicate IsEndpointOf(hop: Hop, e: Endpoint) {
    hop.ProxyHop? && e.host == hop.host &&
    (if hop.port.Some? && hop.port.value > 0 then e.port == hop.port else e.port.None?)
  }

  /** The credential of a hop: its first user, up to the first colon and behind it. */
  ghost predicate IsCredentialOf(hop: Hop, auth: Credential) {
    hop.ProxyHop? &&
    if |hop.users| == 0 || |hop.users[0]| == 0 then auth == NoCredential
    else if 58 !in hop.users[0] then auth == Credential(hop.users[0], [])
    else auth.Credential? && 58 !in auth.user && hop.users[0] == auth.user + [58] + auth.password
  }

  /**
   The event is a request in the first protocol of hop i, with the credential
   of hop i, for the next hop, or for the target if the chain ends there.
   */
  ghost predicate Relays(hops: seq<Hop>, target: Endpoint, i: nat, e: Event) {
    i < |hops| && hops[i].ProxyHop? && |hops[i].protos| > 0 && e.Connect? &&
    e.proto == hops[i].protos[0] && IsCredentialOf(hops[i], e.auth) &&
    (if i + 1 < |hops| && hops[i + 1].ProxyHop? then IsEndpointOf(hops[i + 1], e.target) else e.target == target)
  }

  lemma HandshakeRelays(hops: seq<Hop>, target: Endpoint, i: nat)
    requires i < |Effective(hops)| && hops[i].protos != []
    ensures Relays(hops, target, i, HandshakeOf(hops, target, i))
  {
    assert hops[i] == Effective(hops)[i];
    if i + 1 < |Effective(hops)| {
      assert hops[i + 1] == Effective(hops)[i + 1];
    }
  }

  /** The trace dials the first hop, or the target if there is none, and then relays from hop to hop. */
  ghost predicate Routed(hops: seq<Hop>, target: Endpoint, trace: seq<Event>) {
    |trace| > 0 && trace[0].Dial? &&
    (if |hops| == 0 || hops[0].DirectHop? then trace[0].endpoint == target
     else Dialable(hops[0], trace[0].endpoint)) &&
    (|trace| <= |hops| ==> hops[|trace| - 1].DirectHop?) &&
    forall k :: 0 < k < |trace| ==> Relays(hops, target, k - 1, trace[k])
  }

  lemma ChainRelays(hops: seq<Hop>, target: Endpoint, i: nat)
    requires forall h :: h in Effective(hops) ==> h.protos != []
    requires i < |Effective(hops)|
    ensures |Handshakes(Chain(hops), target)| == |Effective(hops)|
    ensures Relays(hops, target, i, Handshakes(Chain(hops), target)[i])
  {
    ChainHandshakes(hops, target, i);
    assert hops[i] == Effective(hops)[i] && Effective(hops)[i] in Effective(hops);
    HandshakeRelays(hops, target, i);
  }

  /** What a successful connection through a chain puts on the wire. */
  lemma TraceIsRouted(hops: seq<Hop>, target: Endpoint, handshakes: seq<Event>)
    requires forall h :: h in Effective(hops) ==> h.protos != []
    requires Effective(hops) != [] ==> Complete(hops[0])
    requires handshakes == Handshakes(Chain(hops), target)
    ensures Routed(hops, target, [Dial(Destination(Chain(hops), target))] + handshakes)
  {
    ChainHandshakes(hops, target, 0);
    ChainDestination(hops, target);
    FirstIsDialled(hops, target);
    hide Relays, Effective, Dialable, Destination, Handshakes, Chain;
    var trace := [Dial(Destination(Chain(hops), target))] + handshakes;
    forall k | 0 < k < |trace| ensures Relays(hops, target, k - 1, trace[k]) {
      ChainRelays(hops, target, k - 1);
      assert trace[k] == handshakes[k - 1];
    }
  }

  lemma FirstIsDialled(hops: seq<Hop>, target: Endpoint)
    requires Effective(hops) != [] ==> Complete(hops[0])
    ensures Effective(hops) == [] <==> |hops| == 0 || hops[0].DirectHop?
    ensures Effective(hops) != [] ==> Dialable(hops[0], EndpointOf(hops[0]))
  {
  }

  /** Everything from a `direct` hop on is dropped: the chain is the one of the hops before it. */
  lemma {:induction false} DirectEndsTheChain(hops: seq<Hop>)
    ensures Chain(hops) == Chain(Effective(hops))
  {
    if hops == [] || !hops[0].ProxyHop? {
    } else {
      assert Effective(hops)[1..] == Effective(hops[1..]);
      DirectEndsTheChain(hops[1..]);
    }
  }

  /** The whole wire trace of a connection through a `__`-list of hops, when every step of it succeeds. */
  method ConnectThrough(
      jumps: string, parse: string -> Option<Hop>, ghost hops: seq<Hop>, target: Endpoint, works: seq<bool>)
    returns (trace: seq<Event>)
    requires ParseAll(Split(jumps), parse) == Some(hops)
    requires forall h :: h in Effective(hops) ==> h.protos != []
    requires Effective(hops) != [] ==> Complete(hops[0])
    requires |works| >= |Effective(hops)| && forall k :: 0 <= k < |works| ==> works[k]
    ensures |trace| == |Effective(hops)| + 1
    ensures trace[0] == Dial(if Effective(hops) == [] then target else EndpointOf(hops[0]))
    ensures forall i :: 0 <= i < |Effective(hops)| ==> trace[i + 1] == HandshakeOf(hops, target, i)
    ensures Routed(hops, target, trace)
  {
    hide Routed, Dialable, DialsFirst;
    var built := ProxiesByUri(jumps, parse);
    var chain := built.value;
    ChainDestination(hops, target);
    ChainHandshakes(hops, target, 0);
    AttemptedAll(Handshakes(chain, target), works);
    var r;
    trace, r := TcpConnect(chain, target, true, works);
    forall i | 0 <= i < |Effective(hops)| ensures trace[i + 1] == HandshakeOf(hops, target, i) {
      ChainHandshakes(hops, target, i);
    }
    TraceIsRouted(hops, target, Handshakes(chain, target));
  }
}
