/**
 The nonce counter of the AEAD ciphers and the key derivation of
 python/eggress/cipher.py. The AEAD primitive and MD5 are function-valued
 parameters.
 */
module Nonces {
  import opened Common

  // ----- Little-endian counting -----

  function Value(b: seq<byte>): nat {
    if b == [] then 0 else b[0] + 256 * Value(b[1..])
  }

  function Power256(n: nat): nat {
    if n == 0 then 1 else 256 * Power256(n - 1)
  }

  lemma {:induction false} ValueBound(b: seq<byte>)
    ensures Value(b) < Power256(|b|)
  {
    if b == [] {
    } else {
      ValueBound(b[1..]);
    }
  }

  /** The bytes that count: the first eight, or all of a shorter nonce. */
  function Width(nonce: seq<byte>): nat {
    if |nonce| < 8 then |nonce| else 8
  }

  function Counter(nonce: seq<byte>): nat {
    Value(nonce[..Width(nonce)])
  }

  /** The counter value that has no successor. */
  function Last(nonce: seq<byte>): int {
    Power256(Width(nonce)) - 1
  }

  /** A carry through `i` full bytes. */
  ghost predicate Carries(a: seq<byte>, b: seq<byte>, i: nat) {
    i < |a| == |b| &&
    (forall k :: 0 <= k < i ==> a[k] == 255 && b[k] == 0) &&
    a[i] < 255 && b[i] == a[i] + 1 && a[i + 1..] == b[i + 1..]
  }

  lemma {:induction false} CarryValue(a: seq<byte>, b: seq<byte>, i: nat)
    requires Carries(a, b, i)
    ensures Value(a) + 1 == Value(b)
  {
    if i == 0 {
    } else {
      var a', b' := a[1..], b[1..];
      assert a'[i..] == a[i + 1..] && b'[i..] == b[i + 1..];
      CarryValue(a', b', i - 1);
    }
  }

  lemma {:induction false} FullValue(a: seq<byte>)
    requires forall k :: 0 <= k < |a| ==> a[k] == 255
    ensures Value(a) == Power256(|a|) - 1
  {
    if a == [] {
    } else {
      FullValue(a[1..]);
    }
  }

  lemma CarryStep(nonce: seq<byte>, buf: seq<byte>, i: nat)
    requires i < Width(nonce) && Carries(nonce, buf, i)
    ensures Counter(buf) == Counter(nonce) + 1 && Counter(nonce) != Last(nonce)
    ensures buf[Width(nonce)..] == nonce[Width(nonce)..]
  {
    var w := Width(nonce);
    var a, b := nonce[..w], buf[..w];
    assert forall k :: i < k < |nonce| ==> buf[k] == buf[i + 1..][k - i - 1] == nonce[k];
    assert a[i + 1..] == b[i + 1..];
    CarryValue(a, b, i);
    ValueBound(b);
  }

  /** Adds one to the counter and touches nothing else; fails exactly on the last counter value. */
  method IncrementNonce(nonce: seq<byte>) returns (r: Option<seq<byte>>)
    ensures r.None? <==> Counter(nonce) == Last(nonce)
    ensures r.Some? ==> |r.value| == |nonce|
    ensures r.Some? ==> Counter(r.value) == Counter(nonce) + 1
    ensures r.Some? ==> r.value[Width(nonce)..] == nonce[Width(nonce)..]
    ensures r.None? <==> forall k :: 0 <= k < |nonce| && k < 8 ==> nonce[k] == 255
    ensures r.Some? ==> exists i: nat :: i < 8 && Carries(nonce, r.value, i)
  {
    var w := Width(nonce);
    var buf := nonce;
    for i := 0 to w
      invariant |buf| == |nonce| && buf[i..] == nonce[i..]
      invariant forall k :: 0 <= k < i ==> nonce[k] == 255 && buf[k] == 0
    {
      assert buf[i] == buf[i..][0] == nonce[i];
      assert buf[i + 1..] == buf[i..][1..] == nonce[i..][1..] == nonce[i + 1..];
      var val := buf[i] as int + 1;
      buf := buf[i := val % 256];
      if val < 256 {
        CarryStep(nonce, buf, i);
        assert Carries(nonce, buf, i) && i < 8;
        return Some(buf);
      }
    }
    FullValue(nonce[..w]);
    return None;
  }

  // ----- The cipher object -----

  /** `n` is the nonce `k` steps after `start`. */
  ghost predicate Counted(start: seq<byte>, k: nat, n: seq<byte>) {
    |n| == |start| && Counter(n) == Counter(start) + k && n[Width(start)..] == start[Width(start)..]
  }

  datatype Error = Unsupported | Primitive | Overflow | TooShort

  const NONCE_LENGTH := 12
  const TAG_LENGTH := 16

  class Aead {
    const available: bool
    const seal: (seq<byte>, seq<byte>) -> Option<seq<byte>>
    var nonce: seq<byte>

    constructor (available: bool, seal: (seq<byte>, seq<byte>) -> Option<seq<byte>>, nonce: seq<byte>)
      ensures this.available == available && this.seal == seal && this.nonce == nonce
    {
      this.available, this.seal, this.nonce := available, seal, nonce;
    }

    /** `setup_nonce`, with the random bytes it draws when none are given; a given nonce may have any length. */
    method SetupNonce(n: Option<seq<byte>>, random: seq<byte>)
      requires |random| == 12
      modifies this
      ensures nonce == if n.Some? then n.value else random
    {
      nonce := if n.Some? then n.value else random;
    }

    /** A call with this plaintext gets past the primitive. */
    predicate Seals(s: seq<byte>)
      reads this
    {
      available && seal(nonce, s).Some?
    }

    /** The counter may still be advanced. */
    predicate Advances()
      reads this
    {
      Counter(nonce) < Last(nonce)
    }

    /** The step shared by `encrypt` and `encrypt_and_digest`. */
    method SealNext(s: seq<byte>) returns (r: Result<(seq<byte>, seq<byte>), Error>)
      modifies this
      ensures r.Ok? <==> old(Seals(s)) && old(Advances())
      ensures r.Ok? ==> r.value.0 == old(nonce) && Some(r.value.1) == seal(old(nonce), s)
      ensures r == Err(Unsupported) <==> !available
      ensures r == Err(Primitive) <==> available && seal(old(nonce), s).None?
      ensures r.Ok? ==> Counted(old(nonce), 1, nonce)
      ensures r.Err? ==> nonce == old(nonce) && r.error == Refusal(available, seal(nonce, s).Some?)
    {
      if !available {
        return Err(Unsupported);
      }
      var ct := seal(nonce, s);
      if ct.None? {
        return Err(Primitive);
      }
      ValueBound(nonce[..Width(nonce)]);
      var next := IncrementNonce(nonce);
      if next.None? {
        return Err(Overflow);
      }
      r := Ok((nonce, ct.value));
      nonce := next.value;
    }

    /** `encrypt` and `encrypt_chunk`: the nonce in front of the ciphertext. */
    method Encrypt(s: seq<byte>) returns (r: Result<seq<byte>, Error>)
      modifies this
      ensures r.Ok? <==> old(Seals(s)) && old(Advances())
      ensures r.Ok? ==> r.value == old(nonce) + seal(old(nonce), s).value && Counted(old(nonce), 1, nonce)
      ensures r.Err? ==> nonce == old(nonce) && r.error == Refusal(available, seal(nonce, s).Some?)
    {
      var sealed := SealNext(s);
      return if sealed.Err? then Err(sealed.error) else Ok(sealed.value.0 + sealed.value.1);
    }

    /** The ciphertext with its last sixteen bytes split off as the tag. */
    method EncryptAndDigest(s: seq<byte>) returns (r: Result<(seq<byte>, seq<byte>), Error>)
      modifies this
      ensures r.Ok? <==> old(Seals(s)) && old(Advances())
      ensures r.Ok? ==> IsCut(seal(old(nonce), s).value, r.value.0, r.value.1) && Counted(old(nonce), 1, nonce)
      ensures r.Err? ==> nonce == old(nonce) && r.error == Refusal(available, seal(nonce, s).Some?)
    {
      var sealed := SealNext(s);
      if sealed.Err? {
        return Err(sealed.error);
      }
      var ct := sealed.value.1;
      var cut := if |ct| < TAG_LENGTH then 0 else |ct| - TAG_LENGTH;
      return Ok((ct[..cut], ct[cut..]));
    }
  }

  /** Why a call fails: the package is missing, the primitive refuses, or the counter is used up. */
  function Refusal(available: bool, sealed: bool): Error {
    if !available then Unsupported else if !sealed then Primitive else Overflow
  }

  /** The sealed text in two parts, of which the second is the tag, or all of a text shorter than that. */
  ghost predicate IsCut(sealed: seq<byte>, ciphertext: seq<byte>, tag: seq<byte>) {
    ciphertext + tag == sealed && |tag| == Min(|sealed|, 16)
  }

  function Min(a: int, b: int): int {
    if a < b then a else b
  }

  datatype Call = EncryptCall(data: seq<byte>) | DigestCall(data: seq<byte>)

  datatype Output = Wire(bytes: seq<byte>) | Parts(ciphertext: seq<byte>, tag: seq<byte>)

  function Succeeded(results: seq<Result<Output, Error>>): nat {
    if results == [] then 0
    else Succeeded(results[..|results| - 1]) + if results[|results| - 1].Ok? then 1 else 0
  }

  /** The result carries the sealed text in the form the call asks for. */
  ghost predicate Carried(call: Call, nonce: seq<byte>, sealed: seq<byte>, output: Output) {
    match call
    case EncryptCall(_) => output == Wire(nonce + sealed)
    case DigestCall(_) => output.Parts? && IsCut(sealed, output.ciphertext, output.tag)
  }

  /** One call made under `nonce`, with or without room left in the counter. */
  ghost predicate Answered(
      available: bool, sealed: Option<seq<byte>>, room: bool, call: Call, nonce: seq<byte>,
      result: Result<Output, Error>) {
    if available && sealed.Some? && room then result.Ok? && Carried(call, nonce, sealed.value, result.value)
    else result == Err(Refusal(available, sealed.Some?))
  }

  method MakeCall(cipher: Aead, call: Call) returns (result: Result<Output, Error>)
    modifies cipher
    ensures var nonce := old(cipher.nonce);
      Answered(cipher.available, cipher.seal(nonce, call.data), old(cipher.Advances()), call, nonce, result)
    ensures if result.Ok? then Counted(old(cipher.nonce), 1, cipher.nonce) else cipher.nonce == old(cipher.nonce)
  {
    match call {
      case EncryptCall(data) =>
        var r := cipher.Encrypt(data);
        result := if r.Ok? then Ok(Wire(r.value)) else Err(r.error);
      case DigestCall(data) =>
        var r := cipher.EncryptAndDigest(data);
        result := if r.Ok? then Ok(Parts(r.value.0, r.value.1)) else Err(r.error);
    }
  }

  /** The call comes after those results: its nonce is the start advanced by their successes, and so is its answer. */
  ghost predicate MadeAfter(
      available: bool, seal: (seq<byte>, seq<byte>) -> Option<seq<byte>>, start: seq<byte>,
      earlier: seq<Result<Output, Error>>, call: Call, nonce: seq<byte>, result: Result<Output, Error>) {
    var room := Counter(start) + Succeeded(earlier) < Last(start);
    Counted(start, Succeeded(earlier), nonce) &&
    Answered(available, seal(nonce, call.data), room, call, nonce, result)
  }

  /**
   Any mix of calls on one cipher. Call i is made under the start nonce advanced
   by the number of successful calls before it, fails exactly when the package
   is missing, the primitive refuses or the counter is used up, and otherwise
   returns the text sealed under that nonce. A nonce that sealed a message is
   never current again, and with a primitive that accepts everything exactly
   the calls within the counter's headroom succeed.
   */
  method Session(
      available: bool, seal: (seq<byte>, seq<byte>) -> Option<seq<byte>>, start: seq<byte>, calls: seq<Call>)
    returns (results: seq<Result<Output, Error>>, nonces: seq<seq<byte>>, next: seq<byte>)
    ensures |results| == |nonces| == |calls|
    ensures forall i :: 0 <= i < |calls| ==>
      MadeAfter(available, seal, start, results[..i], calls[i], nonces[i], results[i])
    ensures Counted(start, Succeeded(results), next)
    ensures forall i, j :: 0 <= i < j < |calls| && results[i].Ok? ==> nonces[i] != nonces[j]
    ensures available && (forall n, d :: seal(n, d).Some?) ==>
      forall i :: 0 <= i < |calls| ==> (results[i].Ok? <==> i < Last(start) - Counter(start))
  {
    CountedStart(start);
    hide Counter, Last, Counted, MadeAfter, Succeeded, Answered;
    var cipher := new Aead(available, seal, start);
    assert Succeeded([]) == 0 by { NoneSucceeded(); }
    results, nonces := [], [];
    for i := 0 to |calls|
      invariant fresh(cipher) && cipher.available == available && cipher.seal == seal
      invariant |results| == |nonces| == i
      invariant Counted(start, Succeeded(results), cipher.nonce)
      invariant forall k :: 0 <= k < i ==>
        MadeAfter(available, seal, start, results[..k], calls[k], nonces[k], results[k])
    {
      ghost var earlier, nonce := results, cipher.nonce;
      CountedRoom(start, Succeeded(results), cipher.nonce);
      nonces := nonces + [cipher.nonce];
      var result := MakeCall(cipher, calls[i]);
      results := results + [result];
      CallCounted(available, seal, start, earlier, calls[i], nonce, result, cipher.nonce);
      assert results[..i] == earlier;
      assert forall k :: 0 <= k < i ==> results[..k] == earlier[..k];
    }
    next := cipher.nonce;
    SessionFacts(available, seal, start, calls, results, nonces);
  }

  lemma NoneSucceeded()
    ensures Succeeded([]) == 0
  {
  }

  /** A call keeps the count: the nonce it leaves is that of the successes so far. */
  lemma CallCounted(
      available: bool, seal: (seq<byte>, seq<byte>) -> Option<seq<byte>>, start: seq<byte>,
      earlier: seq<Result<Output, Error>>, call: Call, nonce: seq<byte>, result: Result<Output, Error>, next: seq<byte>)
    requires Counted(start, Succeeded(earlier), nonce)
    requires Answered(available, seal(nonce, call.data), Counter(nonce) < Last(nonce), call, nonce, result)
    requires if result.Ok? then Counted(nonce, 1, next) else next == nonce
    ensures MadeAfter(available, seal, start, earlier, call, nonce, result)
    ensures Counted(start, Succeeded(earlier + [result]), next)
  {
    CountedRoom(start, Succeeded(earlier), nonce);
    assert (earlier + [result])[..|earlier|] == earlier;
    if result.Ok? {
      CountedStep(start, Succeeded(earlier), nonce, next);
    }
  }

  /** What the calls' own promises add up to. */
  lemma SessionFacts(
      available: bool, seal: (seq<byte>, seq<byte>) -> Option<seq<byte>>, start: seq<byte>, calls: seq<Call>,
      results: seq<Result<Output, Error>>, nonces: seq<seq<byte>>)
    requires |results| == |nonces| == |calls|
    requires forall i :: 0 <= i < |calls| ==>
      MadeAfter(available, seal, start, results[..i], calls[i], nonces[i], results[i])
    ensures forall i, j :: 0 <= i < j < |calls| && results[i].Ok? ==> nonces[i] != nonces[j]
    ensures available && (forall n, d :: seal(n, d).Some?) ==>
      forall i :: 0 <= i < |calls| ==> (results[i].Ok? <==> i < Last(start) - Counter(start))
  {
    hide Succeeded, Counter, Last, Counted, Carried;
    forall i | 0 <= i < |nonces| ensures Counted(start, Succeeded(results[..i]), nonces[i]) {
      assert MadeAfter(available, seal, start, results[..i], calls[i], nonces[i], results[i]);
    }
    NoncesDistinct(start, results, nonces);
    if available && forall n, d :: seal(n, d).Some? {
      var room := Last(start) - Counter(start);
      RoomAtFirst(start);
      forall i {:trigger Fits(results, room, i)} | 0 <= i < |results| ensures Fits(results, room, i) {
        assert MadeAfter(available, seal, start, results[..i], calls[i], nonces[i], results[i]);
      }
      HeadroomUsed(results, room);
    }
  }

  lemma RoomAtFirst(start: seq<byte>)
    ensures Counter(start) <= Last(start)
  {
    ValueBound(start[..Width(start)]);
  }

  lemma CountedStart(start: seq<byte>)
    ensures Counted(start, 0, start)
  {
  }

  lemma CountedRoom(start: seq<byte>, k: nat, n: seq<byte>)
    requires Counted(start, k, n)
    ensures Counter(n) == Counter(start) + k && Last(n) == Last(start)
  {
  }

  lemma CountedStep(start: seq<byte>, k: nat, m: seq<byte>, n: seq<byte>)
    requires Counted(start, k, m) && Counted(m, 1, n)
    ensures Counted(start, k + 1, n)
  {
  }

  lemma {:induction false} SucceededGrows(results: seq<Result<Output, Error>>, i: nat, j: nat)
    requires i <= j <= |results|
    ensures Succeeded(results[..i]) <= Succeeded(results[..j])
    ensures i < j && results[i].Ok? ==> Succeeded(results[..i]) < Succeeded(results[..j])
    decreases j
  {
    if i == j {
    } else {
      assert results[..j][..j - 1] == results[..j - 1];
      SucceededGrows(results, i, j - 1);
    }
  }

  /** The nonce of a successful call differs from that of every later call, successful or not. */
  lemma NoncesDistinct(start: seq<byte>, results: seq<Result<Output, Error>>, nonces: seq<seq<byte>>)
    requires |results| == |nonces|
    requires forall i :: 0 <= i < |nonces| ==> Counted(start, Succeeded(results[..i]), nonces[i])
    ensures forall i, j :: 0 <= i < j < |nonces| && results[i].Ok? ==> nonces[i] != nonces[j]
  {
    forall i, j | 0 <= i < j < |nonces| && results[i].Ok? ensures nonces[i] != nonces[j] {
      SucceededGrows(results, i, j);
      CountedRoom(start, Succeeded(results[..i]), nonces[i]);
      CountedRoom(start, Succeeded(results[..j]), nonces[j]);
    }
  }

  /** Call i succeeds exactly when fewer than `room` calls before it have. */
  ghost predicate Fits(results: seq<Result<Output, Error>>, room: nat, i: nat) {
    i < |results| && (results[i].Ok? <==> Succeeded(results[..i]) < room)
  }

  /** If calls succeed whenever there is room, the first ones do, as many as there is room for. */
  lemma {:induction false} HeadroomUsed(results: seq<Result<Output, Error>>, room: nat)
    requires forall i {:trigger Fits(results, room, i)} :: 0 <= i < |results| ==> Fits(results, room, i)
    ensures Succeeded(results) == Min(|results|, room)
    ensures forall i :: 0 <= i < |results| ==> (results[i].Ok? <==> i < room)
  {
    if results == [] {
    } else {
      var n := |results| - 1;
      var front := results[..n];
      forall i {:trigger Fits(front, room, i)} | 0 <= i < n ensures Fits(front, room, i) {
        assert Fits(results, room, i) && front[..i] == results[..i];
      }
      HeadroomUsed(front, room);
      assert Fits(results, room, n);
      assert forall i :: 0 <= i < n ==> results[i] == front[i];
    }
  }

  lemma {:induction false} ValueInjective(a: seq<byte>, b: seq<byte>)
    requires |a| == |b| && Value(a) == Value(b)
    ensures a == b
  {
    if a == [] {
    } else {
      assert a[0] == Value(a) % 256 && b[0] == Value(b) % 256;
      ValueInjective(a[1..], b[1..]);
      assert a == [a[0]] + a[1..] && b == [b[0]] + b[1..];
    }
  }

  /** The nonce `k` steps after `start` is one particular nonce. */
  lemma CountedUnique(start: seq<byte>, k: nat, m: seq<byte>, n: seq<byte>)
    requires Counted(start, k, m) && Counted(start, k, n)
    ensures m == n
  {
    var w := Width(start);
    ValueInjective(m[..w], n[..w]);
    assert m == m[..w] + m[w..] && n == n[..w] + n[w..];
  }

  /** `decrypt`, on the layout `encrypt` produces. */
  function Decrypt(open: (seq<byte>, seq<byte>) -> Option<seq<byte>>, s: seq<byte>): Result<seq<byte>, Error> {
    if |s| < NONCE_LENGTH then Err(TooShort)
    else
      var plain := open(s[..NONCE_LENGTH], s[NONCE_LENGTH..]);
      if plain.None? then Err(Primitive) else Ok(plain.value)
  }

  /** Too short is what has no twelve bytes for a nonce; everything else is up to the primitive. */
  lemma DecryptAnswers(open: (seq<byte>, seq<byte>) -> Option<seq<byte>>, nonce: seq<byte>, text: seq<byte>)
    ensures |nonce| == 12 ==>
      Decrypt(open, nonce + text) == var r := open(nonce, text); if r.Some? then Ok(r.value) else Err(Primitive)
    ensures |nonce| < 12 ==> Decrypt(open, nonce) == Err(TooShort)
  {
    assert (nonce + text)[..|nonce|] == nonce && (nonce + text)[|nonce|..] == text;
  }

  /** An AEAD primitive: opening inverts sealing, and a sealed text is one tag longer than the plain one. */
  ghost predicate AeadLaws(
      seal: (seq<byte>, seq<byte>) -> Option<seq<byte>>, open: (seq<byte>, seq<byte>) -> Option<seq<byte>>) {
    (forall n, d :: seal(n, d).Some? ==> open(n, seal(n, d).value) == Some(d)) &&
    (forall n, d :: seal(n, d).Some? ==> |seal(n, d).value| == |d| + 16) &&
    (forall n, c :: open(n, c).Some? ==> |c| == |open(n, c).value| + 16)
  }

  /**
   Whatever the receiver's own counter, it opens what was sealed under a
   twelve-byte nonce; `setup_nonce` accepts others, and with none of them does
   the message come back.
   */
  lemma DecryptInverts(
      seal: (seq<byte>, seq<byte>) -> Option<seq<byte>>, open: (seq<byte>, seq<byte>) -> Option<seq<byte>>,
      nonce: seq<byte>, s: seq<byte>)
    requires AeadLaws(seal, open) && seal(nonce, s).Some?
    ensures Decrypt(open, nonce + seal(nonce, s).value) == Ok(s) <==> |nonce| == 12
  {
    var wire := nonce + seal(nonce, s).value;
    if |nonce| == NONCE_LENGTH {
      assert wire[..NONCE_LENGTH] == nonce && wire[NONCE_LENGTH..] == seal(nonce, s).value;
    } else if |wire| >= NONCE_LENGTH {
      var plain := open(wire[..NONCE_LENGTH], wire[NONCE_LENGTH..]);
      assert plain.Some? ==> |plain.value| == |nonce| + |s| - NONCE_LENGTH;
    }
  }

  /** Some primitive has these laws and seals everything: the one whose tag is all zeros. */
  lemma AeadIsPossible() returns (
      seal: (seq<byte>, seq<byte>) -> Option<seq<byte>>, open: (seq<byte>, seq<byte>) -> Option<seq<byte>>)
    ensures AeadLaws(seal, open) && forall n, d :: seal(n, d).Some?
  {
    var tag: seq<byte> := [0, 0, 0, 0, 0, 0, 0, 0, 0, 0, 0, 0, 0, 0, 0, 0];
    seal := (n, d) => Some(d + tag);
    open := (n, c) =>
      if |c| >= TAG_LENGTH && c[|c| - TAG_LENGTH..] == tag then Some(c[..|c| - TAG_LENGTH]) else None;
    forall n, d ensures open(n, seal(n, d).value) == Some(d) {
      var c := seal(n, d).value;
      assert c[|c| - TAG_LENGTH..] == tag && c[..|c| - TAG_LENGTH] == d;
    }
  }

  // ----- Key derivation -----

  /** D_1 = MD5(data), D_i = MD5(D_{i-1} ++ data) */
  ghost function Block(md5: seq<byte> -> Digest, data: seq<byte>, i: nat): Digest {
    if i <= 1 then md5(data) else md5(Block(md5, data, i - 1) + data)
  }

  /** Byte `p` of the derived stream; no length enters into it. */
  ghost function StreamByte(md5: seq<byte> -> Digest, data: seq<byte>, p: nat): byte {
    Block(md5, data, p / 16 + 1)[p % 16]
  }

  lemma PositionInBlock(n: nat, p: nat)
    requires 16 * n <= p < 16 * n + 16
    ensures p / 16 == n && p % 16 == p - 16 * n
  {
  }

  lemma StreamGrows(md5: seq<byte> -> Digest, data: seq<byte>, d: seq<byte>, n: nat)
    requires |d| == 16 * n && forall p :: 0 <= p < |d| ==> d[p] == StreamByte(md5, data, p)
    ensures var e := d + Block(md5, data, n + 1);
      forall p :: 0 <= p < |e| ==> e[p] == StreamByte(md5, data, p)
  {
    var e := d + Block(md5, data, n + 1);
    forall p | |d| <= p < |e| ensures e[p] == StreamByte(md5, data, p) {
      PositionInBlock(n, p);
    }
  }

  /** A chain of digests: the first is that of the data, each later one that of its predecessor and the data. */
  ghost predicate IsChain(md5: seq<byte> -> Digest, data: seq<byte>, digests: seq<Digest>) {
    forall i :: 0 <= i < |digests| ==>
      digests[i] == if i == 0 then md5(data) else md5(digests[i - 1] + data)
  }

  /** The bytes are those of the digests, one after the other. */
  ghost predicate Reads(digests: seq<Digest>, s: seq<byte>) {
    |s| <= 16 * |digests| && forall p :: 0 <= p < |s| ==> s[p] == digests[p / 16][p % 16]
  }

  lemma StreamIsChain(md5: seq<byte> -> Digest, data: seq<byte>, s: seq<byte>) returns (digests: seq<Digest>)
    requires forall p :: 0 <= p < |s| ==> s[p] == StreamByte(md5, data, p)
    ensures IsChain(md5, data, digests) && Reads(digests, s)
  {
    digests := seq(|s|, i requires 0 <= i < |s| => Block(md5, data, i + 1));
    forall p | 0 <= p < |s| ensures s[p] == digests[p / 16][p % 16] {
      assert s[p] == StreamByte(md5, data, p);
    }
  }

  method EvpBytesToKey(md5: seq<byte> -> Digest, data: seq<byte>, keyLen: nat, ivLen: nat)
    returns (key: seq<byte>, iv: seq<byte>)
    ensures |key| == keyLen && |iv| == ivLen
    ensures forall p :: 0 <= p < keyLen ==> key[p] == StreamByte(md5, data, p)
    ensures forall p :: 0 <= p < ivLen ==> iv[p] == StreamByte(md5, data, keyLen + p)
    ensures exists digests :: IsChain(md5, data, digests) && Reads(digests, key + iv)
  {
    hide StreamByte, IsChain, Reads;
    var d: seq<byte> := [];
    ghost var n := 0;
    while |d| < keyLen + ivLen
      invariant |d| == 16 * n
      invariant n > 0 ==> d[|d| - 16..] == Block(md5, data, n)
      invariant forall p :: 0 <= p < |d| ==> d[p] == StreamByte(md5, data, p)
      decreases keyLen + ivLen - |d|
    {
      var block := if d != [] then md5(d[|d| - 16..] + data) else md5(data);
      assert block == Block(md5, data, n + 1);
      StreamGrows(md5, data, d, n);
      d, n := d + block, n + 1;
    }
    key, iv := d[..keyLen], d[keyLen..keyLen + ivLen];
    assert key + iv == d[..keyLen + ivLen];
    ghost var digests := StreamIsChain(md5, data, key + iv);
  }

  /**
   Two derivations from one password agree: the shorter key is a prefix of the
   longer one, and the IV lengths have no say in it.
   */
  method DeriveTwice(
      md5: seq<byte> -> Digest, data: seq<byte>, keyLen1: nat, ivLen1: nat, keyLen2: nat, ivLen2: nat)
    returns (key1: seq<byte>, key2: seq<byte>)
    requires keyLen1 <= keyLen2
    ensures |key1| == keyLen1 && |key2| == keyLen2 && key1 <= key2
    ensures forall p :: 0 <= p < keyLen2 ==> key2[p] == StreamByte(md5, data, p)
  {
    hide StreamByte;
    var iv1, iv2;
    key1, iv1 := EvpBytesToKey(md5, data, keyLen1, ivLen1);
    key2, iv2 := EvpBytesToKey(md5, data, keyLen2, ivLen2);
  }
}
