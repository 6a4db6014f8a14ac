/**
 RC4 as python/eggress/cipher.py has it: the one-shot `_rc4_crypt` and the
 resumable `RC4_Cipher` / `RC4_MD5_Cipher`. MD5 is a function-valued parameter.
 */
module Rc4 {
  import opened Common

  // ----- The cipher as mathematics -----

  function Power2(n: nat): nat {
    if n == 0 then 1 else 2 * Power2(n - 1)
  }

  /** Exclusive or of two `n`-bit numbers, bit by bit. */
  function XorBits(n: nat, a: nat, b: nat): (r: nat)
    requires a < Power2(n) && b < Power2(n)
    ensures r < Power2(n)
  {
    if n == 0 then 0
    else (if a % 2 == b % 2 then 0 else 1) + 2 * XorBits(n - 1, a / 2, b / 2)
  }

  lemma {:induction false} XorBitsTwice(n: nat, a: nat, b: nat)
    requires a < Power2(n) && b < Power2(n)
    ensures XorBits(n, XorBits(n, a, b), b) == a
  {
    if n == 0 {
    } else {
      XorBitsTwice(n - 1, a / 2, b / 2);
      var x := XorBits(n, a, b);
      assert x / 2 == XorBits(n - 1, a / 2, b / 2);
      assert x % 2 == if a % 2 == b % 2 then 0 else 1;
    }
  }

  lemma Power2Of8()
    ensures Power2(8) == 256
  {
    assert Power2(4) == 16;
  }

  function Xor(a: byte, b: byte): byte {
    Power2Of8();
    XorBits(8, a, b)
  }

  lemma XorTwice(a: byte, b: byte)
    ensures Xor(Xor(a, b), b) == a
  {
    Power2Of8();
    XorBitsTwice(8, a, b);
  }

  /** Bit `k` of a number, counted from the lowest. */
  function Bit(a: nat, k: nat): nat {
    if k == 0 then a % 2 else Bit(a / 2, k - 1)
  }

  lemma {:induction false} XorBitAt(n: nat, a: nat, b: nat, k: nat)
    requires a < Power2(n) && b < Power2(n) && k < n
    ensures Bit(XorBits(n, a, b), k) == if Bit(a, k) == Bit(b, k) then 0 else 1
    decreases k
  {
    var x := XorBits(n, a, b);
    assert x % 2 == if a % 2 == b % 2 then 0 else 1;
    if k == 0 {
    } else {
      assert x / 2 == XorBits(n - 1, a / 2, b / 2);
      XorBitAt(n - 1, a / 2, b / 2, k - 1);
    }
  }

  /** A number below 2^n is determined by its n bits. */
  lemma {:induction false} BitsDetermine(n: nat, a: nat, b: nat)
    requires a < Power2(n) && b < Power2(n) && forall k :: 0 <= k < n ==> Bit(a, k) == Bit(b, k)
    ensures a == b
  {
    if n == 0 {
    } else {
      assert Bit(a, 0) == Bit(b, 0);
      forall k | 0 <= k < n - 1 ensures Bit(a / 2, k) == Bit(b / 2, k) {
        assert Bit(a, k + 1) == Bit(b, k + 1);
      }
      BitsDetermine(n - 1, a / 2, b / 2);
    }
  }

  /** `c` is the exclusive or of the two bytes: a bit is set exactly where theirs differ. */
  ghost predicate IsXor(a: byte, b: byte, c: byte) {
    forall k :: 0 <= k < 8 ==> (Bit(c, k) == 1 <==> Bit(a, k) != Bit(b, k))
  }

  lemma XorIsBitwise(a: byte, b: byte)
    ensures IsXor(a, b, Xor(a, b))
  {
    Power2Of8();
    forall k | 0 <= k < 8 ensures Bit(Xor(a, b), k) == 1 <==> Bit(a, k) != Bit(b, k) {
      XorBitAt(8, a, b, k);
    }
  }

  function Identity(): seq<byte> {
    seq(256, i requires 0 <= i < 256 => i)
  }

  /** A rearrangement of 0..255. */
  ghost predicate Permutation(s: seq<byte>) {
    |s| == 256 && multiset(s) == multiset(Identity())
  }

  function Swap(s: seq<byte>, i: byte, j: byte): (r: seq<byte>)
    requires |s| == 256
    ensures |r| == 256 && multiset(r) == multiset(s)
  {
    s[i := s[j]][j := s[i]]
  }

  datatype State = State(s: seq<byte>, i: byte, j: byte)

  /** One round of key scheduling. */
  ghost function Mix(st: State, key: seq<byte>, i: byte): (r: State)
    requires key != [] && Permutation(st.s)
    ensures Permutation(r.s)
  {
    var j := ((st.j as int) + st.s[i] + key[i % |key|]) % 256;
    State(Swap(st.s, i, j), 0, j)
  }

  /** Key scheduling after `n` of its 256 rounds. */
  ghost function Scheduled(key: seq<byte>, n: nat): (st: State)
    requires key != [] && n <= 256
    ensures Permutation(st.s)
    decreases n, key
  {
    if n == 0 then State(Identity(), 0, 0) else Mix(Scheduled(key, n - 1), key, n - 1)
  }

  /** The state in which the keystream starts. */
  ghost function Initial(key: seq<byte>): (st: State)
    requires key != []
    ensures Permutation(st.s)
  {
    State(Scheduled(key, 256).s, 0, 0)
  }

  ghost function Next(st: State): (r: State)
    requires Permutation(st.s)
    ensures Permutation(r.s)
  {
    var i := ((st.i as int) + 1) % 256;
    var j := ((st.j as int) + st.s[i]) % 256;
    State(Swap(st.s, i, j), i, j)
  }

  /** The state after `n` keystream bytes. */
  ghost function After(st: State, n: nat): (r: State)
    requires Permutation(st.s)
    ensures Permutation(r.s)
  {
    if n == 0 then st else Next(After(st, n - 1))
  }

  /** The byte a state has just produced. */
  ghost function KeyByte(st: State): byte
    requires Permutation(st.s)
  {
    st.s[((st.s[st.i] as int) + st.s[st.j]) % 256]
  }

  ghost function Crypt(st: State, data: seq<byte>): (r: seq<byte>)
    requires Permutation(st.s)
    ensures |r| == |data|
  {
    if data == [] then []
    else
      var n := |data|;
      Crypt(st, data[..n - 1]) + [Xor(data[n - 1], KeyByte(After(st, n)))]
  }

  /** Byte `k` of the data meets byte `k` of the keystream, which no data can influence. */
  lemma {:induction false} CryptAt(st: State, data: seq<byte>, k: nat)
    requires Permutation(st.s) && k < |data|
    ensures Crypt(st, data)[k] == Xor(data[k], KeyByte(After(st, k + 1)))
    decreases |data|
  {
    hide After, Permutation, KeyByte, Xor;
    if k == |data| - 1 {
    } else {
      CryptAt(st, data[..|data| - 1], k);
    }
  }

  lemma {:induction false} AfterAdds(st: State, m: nat, n: nat)
    requires Permutation(st.s)
    ensures After(st, m + n) == After(After(st, m), n)
  {
    hide Next, Permutation;
    if n == 0 {
    } else {
      AfterAdds(st, m, n - 1);
    }
  }

  /** Processing a message in two pieces is processing it whole. */
  lemma {:induction false} CryptSplit(st: State, x: seq<byte>, y: seq<byte>)
    requires Permutation(st.s)
    ensures Crypt(st, x + y) == Crypt(st, x) + Crypt(After(st, |x|), y)
  {
    hide After, Permutation, KeyByte, Xor;
    if y == [] {
      assert x + y == x;
    } else {
      var y' := y[..|y| - 1];
      assert (x + y)[..|x + y| - 1] == x + y';
      CryptSplit(st, x, y');
      AfterAdds(st, |x|, |y|);
    }
  }

  /** The same keystream a second time gives the message back. */
  lemma CryptTwice(st: State, data: seq<byte>)
    requires Permutation(st.s)
    ensures Crypt(st, Crypt(st, data)) == data
  {
    hide After, Permutation, KeyByte, Xor, Crypt;
    var c := Crypt(st, data);
    forall k | 0 <= k < |data| ensures Crypt(st, c)[k] == data[k] {
      CryptAt(st, data, k);
      CryptAt(st, c, k);
      XorTwice(data[k], KeyByte(After(st, k + 1)));
    }
  }

  /** The outputs of successive calls on one cipher object. */
  ghost function CryptChunks(st: State, chunks: seq<seq<byte>>): seq<seq<byte>>
    requires Permutation(st.s)
    decreases |chunks|
  {
    if chunks == [] then []
    else [Crypt(st, chunks[0])] + CryptChunks(After(st, |chunks[0]|), chunks[1..])
  }

  lemma {:induction false} ChunkingIrrelevant(st: State, chunks: seq<seq<byte>>)
    requires Permutation(st.s)
    ensures Flatten(CryptChunks(st, chunks)) == Crypt(st, Flatten(chunks))
    decreases |chunks|
  {
    if chunks == [] {
    } else {
      CryptSplit(st, chunks[0], Flatten(chunks[1..]));
      ChunkingIrrelevant(After(st, |chunks[0]|), chunks[1..]);
      var out := CryptChunks(st, chunks);
      assert out[1..] == CryptChunks(After(st, |chunks[0]|), chunks[1..]);
    }
  }

  /** Encrypted under one chunking, decrypted under any other by a fresh cipher with the same key. */
  lemma DecryptsUnderAnyChunking(key: seq<byte>, sent: seq<seq<byte>>, received: seq<seq<byte>>)
    requires key != []
    requires Flatten(received) == Flatten(CryptChunks(Initial(key), sent))
    ensures Flatten(CryptChunks(Initial(key), received)) == Flatten(sent)
  {
    ChunkingIrrelevant(Initial(key), sent);
    ChunkingIrrelevant(Initial(key), received);
    CryptTwice(Initial(key), Flatten(sent));
  }

  // ----- The equations of RC4 -----

  /** One table has entries i and j of the other exchanged. */
  ghost predicate Exchanged(s: seq<byte>, t: seq<byte>, i: byte, j: byte) {
    |s| == |t| == 256 && t[i] == s[j] && t[j] == s[i] &&
    forall k :: 0 <= k < 256 && k != i && k != j ==> t[k] == s[k]
  }

  /** Round `i` of key scheduling. */
  ghost predicate Mixes(k: byte, i: byte, before: State, after: State) {
    |before.s| == 256 && after.j == (before.j as int + before.s[i] + k) % 256 &&
    Exchanged(before.s, after.s, i, after.j)
  }

  /** A run of key scheduling: the tables and indices before and after each of its 256 rounds. */
  ghost predicate Schedules(key: seq<byte>, run: seq<State>) {
    key != [] && |run| == 257 && |run[0].s| == 256 && run[0].j == 0 &&
    (forall k :: 0 <= k < 256 ==> run[0].s[k] == k) &&
    forall i :: 0 <= i < 256 ==> Mixes(key[i % |key|], i, run[i], run[i + 1])
  }

  /** One step of the keystream, and the byte `c` that it makes of `d`. */
  ghost predicate Streams(d: byte, before: State, after: State, c: byte) {
    |before.s| == 256 &&
    after.i == (before.i as int + 1) % 256 && after.j == (before.j as int + before.s[after.i]) % 256 &&
    Exchanged(before.s, after.s, after.i, after.j) &&
    IsXor(d, after.s[(after.s[after.i] as int + after.s[after.j]) % 256], c)
  }

  /** The ciphertext is what the equations of RC4 give for the key and the data. */
  ghost predicate IsRc4(key: seq<byte>, data: seq<byte>, out: seq<byte>) {
    exists schedule: seq<State>, stream: seq<State> ::
      Schedules(key, schedule) && IsStream(schedule[256].s, data, stream, out)
  }

  ghost predicate IsStream(table: seq<byte>, data: seq<byte>, stream: seq<State>, out: seq<byte>) {
    |out| == |data| && |stream| == |data| + 1 && stream[0] == State(table, 0, 0) &&
    forall k :: 0 <= k < |data| ==> Streams(data[k], stream[k], stream[k + 1], out[k])
  }

  lemma PermutationSize(s: seq<byte>)
    requires Permutation(s)
    ensures |s| == 256
  {
  }

  lemma SwapExchanges(s: seq<byte>, i: byte, j: byte)
    requires |s| == 256
    ensures Exchanged(s, Swap(s, i, j), i, j)
  {
  }

  ghost function ScheduleRun(key: seq<byte>): (r: seq<State>)
    requires key != []
  {
    seq(257, n requires 0 <= n <= 256 => Scheduled(key, n))
  }

  lemma ScheduleFollows(key: seq<byte>)
    requires key != []
    ensures Schedules(key, ScheduleRun(key))
  {
    hide Permutation, Swap, Exchanged, Scheduled;
    forall i | 0 <= i < 256 ensures Mixes(key[i % |key|], i, Scheduled(key, i), Scheduled(key, i + 1)) {
      ScheduleStep(key, i);
      SwapExchanges(Scheduled(key, i).s, i, Scheduled(key, i + 1).j);
    }
    StartsAsIdentity(key);
  }

  lemma StartsAsIdentity(key: seq<byte>)
    requires key != []
    ensures |Scheduled(key, 0).s| == 256 && Scheduled(key, 0).j == 0
    ensures forall k :: 0 <= k < 256 ==> Scheduled(key, 0).s[k] == k
  {
  }

  ghost function StreamRun(st: State, n: nat): seq<State>
    requires Permutation(st.s)
  {
    seq(n + 1, k requires 0 <= k <= n => After(st, k))
  }

  lemma StreamFollows(st: State, data: seq<byte>)
    requires Permutation(st.s) && st.i == 0 && st.j == 0
    ensures IsStream(st.s, data, StreamRun(st, |data|), Crypt(st, data))
  {
    hide Permutation, Crypt, Streams;
    forall k | 0 <= k < |data| ensures Streams(data[k], After(st, k), After(st, k + 1), Crypt(st, data)[k]) {
      StreamStep(st, data, k);
    }
  }

  lemma StreamStep(st: State, data: seq<byte>, k: nat)
    requires Permutation(st.s) && k < |data|
    ensures Streams(data[k], After(st, k), After(st, k + 1), Crypt(st, data)[k])
  {
    hide Permutation, Crypt, Swap, IsXor, Exchanged;
    var s, t := After(st, k), After(st, k + 1);
    assert |s.s| == 256 by { PermutationSize(s.s); }
    CryptAt(st, data, k);
    XorIsBitwise(data[k], KeyByte(t));
    SwapExchanges(s.s, t.i, t.j);
  }

  /** What the model computes obeys the equations of RC4. */
  lemma CryptIsRc4(key: seq<byte>, data: seq<byte>)
    requires key != []
    ensures IsRc4(key, data, Crypt(Initial(key), data))
  {
    hide Schedules, IsStream, Crypt, Permutation, Scheduled;
    ScheduleFollows(key);
    StreamFollows(Initial(key), data);
    assert ScheduleRun(key)[256].s == Initial(key).s;
  }

  lemma ScheduleStep(key: seq<byte>, i: nat)
    requires key != [] && i < 256
    ensures Scheduled(key, i + 1) == Mix(Scheduled(key, i), key, i) && |Scheduled(key, i).s| == 256
  {
  }

  lemma MixReads(st: State, key: seq<byte>, i: byte)
    requires key != [] && Permutation(st.s) && |st.s| == 256
    ensures key[i % |key|] == (Mix(st, key, i).j as int - st.j - st.s[i]) % 256
  {
    hide Permutation, Swap;
    ModBack(st.j, st.s[i], key[i % |key|]);
  }

  lemma SmallMod(i: nat, n: nat)
    requires i < n
    ensures i % n == i
  {
  }

  lemma ModBack(a: byte, b: byte, c: byte)
    ensures c == (((a as int + b + c) % 256) - a - b) % 256
  {
  }

  /** Every byte of a key can be read off its schedule, so no key byte is without effect. */
  lemma KeyEnters(key: seq<byte>, i: nat)
    requires i < |key| <= 256
    ensures key[i] == (Scheduled(key, i + 1).j as int - Scheduled(key, i).j - Scheduled(key, i).s[i]) % 256
  {
    hide Scheduled, Mix, Permutation;
    ScheduleStep(key, i);
    SmallMod(i, |key|);
    MixReads(Scheduled(key, i), key, i);
  }

  /** Keys of one length with the same schedule are equal. */
  lemma ScheduleDeterminesKey(a: seq<byte>, b: seq<byte>)
    requires 0 < |a| == |b| <= 256
    requires forall n :: 0 <= n <= 256 ==> Scheduled(a, n) == Scheduled(b, n)
    ensures a == b
  {
    hide Scheduled, Permutation;
    forall i | 0 <= i < |a| ensures a[i] == b[i] {
      KeyEnters(a, i);
      KeyEnters(b, i);
      assert Scheduled(a, i) == Scheduled(b, i) && Scheduled(a, i + 1) == Scheduled(b, i + 1);
    }
  }

  // ----- The code -----

  method SwapIn(table: array<byte>, i: byte, j: byte)
    requires table.Length == 256
    modifies table
    ensures table[..] == Swap(old(table[..]), i, j)
  {
    table[i], table[j] := table[j], table[i];
  }

  method MixIn(table: array<byte>, key: seq<byte>, i: byte, j: byte) returns (j': byte)
    requires key != [] && table.Length == 256 && Permutation(table[..])
    modifies table
    ensures State(table[..], 0, j') == Mix(State(old(table[..]), 0, j), key, i)
  {
    hide Swap, Permutation;
    j' := ((j as int) + table[i] + key[i % |key|]) % 256;
    SwapIn(table, i, j');
  }

  /** The key-scheduling loop, in place. */
  method KeySetup(key: seq<byte>) returns (table: array<byte>)
    requires key != []
    ensures fresh(table) && table.Length == 256
    ensures table[..] == Initial(key).s
  {
    table := new byte[256](i requires 0 <= i < 256 => i);
    assert table[..] == Identity();
    hide Permutation, Identity, Mix;
    var j: byte := 0;
    for i := 0 to 256
      invariant State(table[..], 0, j) == Scheduled(key, i)
    {
      j := MixIn(table, key, i, j);
    }
  }

  method NextIn(table: array<byte>, i: byte, j: byte) returns (i': byte, j': byte, k: byte)
    requires table.Length == 256 && Permutation(table[..])
    modifies table
    ensures State(table[..], i', j') == Next(State(old(table[..]), i, j))
    ensures k == KeyByte(State(table[..], i', j'))
  {
    hide Swap, Permutation;
    i' := ((i as int) + 1) % 256;
    j' := ((j as int) + table[i']) % 256;
    SwapIn(table, i', j');
    k := table[((table[i'] as int) + table[j']) % 256];
    assert State(table[..], i', j') == Next(State(old(table[..]), i, j));
  }

  /** The keystream loop, in place. */
  method Generate(table: array<byte>, i0: byte, j0: byte, data: seq<byte>)
    returns (out: seq<byte>, i: byte, j: byte)
    requires table.Length == 256 && Permutation(table[..])
    modifies table
    ensures out == Crypt(State(old(table[..]), i0, j0), data)
    ensures State(table[..], i, j) == After(State(old(table[..]), i0, j0), |data|)
  {
    hide Permutation, Next, KeyByte, Xor;
    ghost var st := State(table[..], i0, j0);
    i, j, out := i0, j0, [];
    for n := 0 to |data|
      invariant State(table[..], i, j) == After(st, n)
      invariant out == Crypt(st, data[..n])
    {
      var k;
      i, j, k := NextIn(table, i, j);
      assert data[..n + 1][..n] == data[..n];
      out := out + [Xor(data[n], k)];
    }
    assert data[..|data|] == data;
  }

  /** `key[i % len(key)]` with an empty key */
  datatype Error = ZeroDivision

  method OneShot(key: seq<byte>, data: seq<byte>) returns (r: Result<seq<byte>, Error>)
    ensures r == if key == [] then Err(ZeroDivision) else Ok(Crypt(Initial(key), data))
    ensures r.Ok? ==> IsRc4(key, data, r.value)
  {
    if key == [] {
      return Err(ZeroDivision);
    }
    CryptIsRc4(key, data);
    hide IsRc4;
    var table := KeySetup(key);
    var out, i, j := Generate(table, 0, 0, data);
    return Ok(out);
  }

  /** Plain RC4, or RC4 keyed with MD5(key ++ iv). */
  datatype Keying = Plain | Md5(md5: seq<byte> -> Digest, iv: Option<seq<byte>>)

  /** The bytes that key scheduling runs on; an absent or empty IV counts as sixteen zeros. */
  function Material(keying: Keying, key: seq<byte>): seq<byte> {
    match keying
    case Plain => key
    case Md5(md5, iv) =>
      md5(key + if iv.Some? && iv.value != [] then iv.value else [0, 0, 0, 0, 0, 0, 0, 0, 0, 0, 0, 0, 0, 0, 0, 0])
  }

  /** The key that RC4 runs on: the cipher's own, or for RC4-MD5 the digest of it and the IV, or of it and zeros. */
  ghost predicate ChosenKey(keying: Keying, key: seq<byte>, k: seq<byte>) {
    if keying.Plain? then k == key
    else if keying.iv.Some? && |keying.iv.value| > 0 then k == keying.md5(key + keying.iv.value)
    else k == keying.md5(key + seq(16, i => 0))
  }

  lemma MaterialIsChosen(keying: Keying, key: seq<byte>)
    ensures ChosenKey(keying, key, Material(keying, key))
  {
    var zeros: seq<byte> := [0, 0, 0, 0, 0, 0, 0, 0, 0, 0, 0, 0, 0, 0, 0, 0];
    assert zeros == seq(16, i => 0);
  }

  class Cipher {
    const key: seq<byte>
    var keying: Keying
    var table: array?<byte>
    var pos: byte
    var j: byte

    ghost predicate Valid()
      reads this, Repr()
    {
      table != null ==> table.Length == 256 && Permutation(table[..])
    }

    ghost function Repr(): set<object>
      reads this
    {
      if table == null then {} else {table}
    }

    /** Scheduling cannot be done: the error is raised on every call until the key material changes. */
    ghost predicate Unusable()
      reads this
    {
      table == null && Material(keying, key) == []
    }

    /** Where in its keystream the cipher stands; scheduling is delayed to the first call. */
    ghost function Current(): (st: State)
      requires Valid() && !Unusable()
      reads this, Repr()
      ensures Permutation(st.s)
    {
      if table == null then Initial(Material(keying, key)) else State(table[..], pos, j)
    }

    constructor (key: seq<byte>, keying: Keying)
      ensures Valid() && table == null && this.key == key && this.keying == keying
    {
      this.key, this.keying := key, keying;
      table, pos, j := null, 0, 0;
    }

    /**
     `setup_iv`, with the sixteen random bytes it draws when none are given.
     Plain RC4 ignores the IV; for RC4-MD5 it matters only before the first call.
     */
    method SetupIv(iv: Option<seq<byte>>, random: seq<byte>)
      requires Valid() && |random| == 16
      modifies this`keying
      ensures Valid() && table == old(table)
      ensures keying.Plain? <==> old(keying).Plain?
      ensures keying.Md5? ==> keying == Md5(old(keying).md5, if iv.Some? then iv else Some(random)) && !Unusable()
      ensures keying.Plain? || table != null ==>
        Unusable() == old(Unusable()) && (!Unusable() ==> Current() == old(Current()))
    {
      if keying.Md5? {
        keying := keying.(iv := if iv.Some? then iv else Some(random));
      }
    }

    /** `encrypt` and `decrypt` alike: one keystream, advanced by every call. */
    method Process(data: seq<byte>) returns (r: Result<seq<byte>, Error>)
      requires Valid()
      modifies this, Repr()
      ensures Valid() && keying == old(keying)
      ensures old(Unusable()) ==> r == Err(ZeroDivision) && Unusable()
      ensures !old(Unusable()) ==>
        !Unusable() && r == Ok(Crypt(old(Current()), data)) && Current() == After(old(Current()), |data|)
      ensures fresh(Repr() - old(Repr()))
    {
      if table == null {
        if Material(keying, key) == [] {
          return Err(ZeroDivision);
        }
        var scheduled := KeySetup(Material(keying, key));
        table, pos, j := scheduled, 0, 0;
      }
      assert State(table[..], pos, j) == old(Current());
      var out, i', j' := Generate(table, pos, j, data);
      pos, j := i', j';
      return Ok(out);
    }
  }

  /** Successive calls on a fresh cipher: together they are one one-shot encryption. */
  method ProcessAll(key: seq<byte>, keying: Keying, chunks: seq<seq<byte>>) returns (out: seq<seq<byte>>)
    requires Material(keying, key) != []
    ensures out == CryptChunks(Initial(Material(keying, key)), chunks)
    ensures Flatten(out) == Crypt(Initial(Material(keying, key)), Flatten(chunks))
    ensures exists k :: ChosenKey(keying, key, k) && IsRc4(k, Flatten(chunks), Flatten(out))
  {
    hide IsRc4, Flatten, ChosenKey;
    hide Crypt, After, Permutation, Material, Initial;
    ghost var start := Initial(Material(keying, key));
    var cipher := new Cipher(key, keying);
    out := [];
    for k := 0 to |chunks|
      invariant fresh(cipher) && fresh(cipher.Repr()) && cipher.Valid() && !cipher.Unusable()
      invariant CryptChunks(start, chunks) == out + CryptChunks(cipher.Current(), chunks[k..])
    {
      var step := cipher.Process(chunks[k]);
      assert chunks[k..][1..] == chunks[k + 1..];
      Assoc(out, [step.value], CryptChunks(cipher.Current(), chunks[k + 1..]));
      out := out + [step.value];
    }
    ChunkingIrrelevant(start, chunks);
    CryptIsRc4(Material(keying, key), Flatten(chunks));
    MaterialIsChosen(keying, key);
  }
}
