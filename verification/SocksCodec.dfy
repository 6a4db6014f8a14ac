/**
 The SOCKS address formats of python/eggress/protocol.py: the address encoding of
 section 5 of RFC 1928 with the UDP header of its section 7, and the SOCKS4/4a
 request. Python's `int` is a function-valued parameter, since what it accepts
 beyond plain decimals decides which hosts are taken for IPv4 addresses.
 */
module SocksCodec {
  import opened Common

  type IntParser = string -> Option<int>

  datatype Error = Malformed | NotAscii | NameTooLong | PortOutOfRange

  // ----- Text -----

  predicate IsAscii(s: string) {
    forall i :: 0 <= i < |s| ==> s[i] as int < 128
  }

  function AsciiBytes(s: string): (r: seq<byte>)
    requires IsAscii(s)
    ensures |r| == |s| && forall i :: 0 <= i < |s| ==> r[i] == s[i] as int
  {
    if s == "" then [] else [s[0] as int] + AsciiBytes(s[1..])
  }

  function AsciiText(b: seq<byte>): (r: string)
    requires forall i :: 0 <= i < |b| ==> b[i] < 128
    ensures |r| == |b| && forall i :: 0 <= i < |b| ==> r[i] as int == b[i]
  {
    if b == [] then "" else [b[0] as char] + AsciiText(b[1..])
  }

  lemma AsciiRoundTrip(s: string)
    requires IsAscii(s)
    ensures forall i :: 0 <= i < |s| ==> AsciiBytes(s)[i] < 128
    ensures AsciiText(AsciiBytes(s)) == s
  {
    var t := AsciiText(AsciiBytes(s));
    forall i | 0 <= i < |s| ensures t[i] == s[i] {
      assert t[i] as int == s[i] as int;
    }
  }

  /** `str(b)` */
  function Decimal(b: byte): (r: string)
    ensures r != "" && forall i :: 0 <= i < |r| ==> '0' <= r[i] <= '9'
  {
    if b < 10 then [Digit(b)]
    else if b < 100 then [Digit(b / 10), Digit(b % 10)]
    else [Digit(b / 100), Digit(b / 10 % 10), Digit(b % 10)]
  }

  function Digit(d: int): (c: char)
    requires 0 <= d < 10
    ensures '0' <= c <= '9'
  {
    ('0' as int + d) as char
  }

  function NumberOf(s: string): int {
    if s == "" then 0 else 10 * NumberOf(s[..|s| - 1]) + (s[|s| - 1] as int - '0' as int)
  }

  /** The text is the plain decimal numeral of the byte: it denotes it and has no leading zero. */
  lemma DecimalDenotes(b: byte)
    ensures NumberOf(Decimal(b)) == b
    ensures Decimal(b)[0] == '0' ==> b == 0 && Decimal(b) == "0"
  {
    if b >= 100 {
      NumberSnoc("", b / 100);
      NumberSnoc([Digit(b / 100)], b / 10 % 10);
      NumberSnoc([Digit(b / 100)] + [Digit(b / 10 % 10)], b % 10);
      assert Decimal(b) == [Digit(b / 100)] + [Digit(b / 10 % 10)] + [Digit(b % 10)];
      assert "" + [Digit(b / 100)] == [Digit(b / 100)] && NumberOf("") == 0;
      assert b / 100 == b / 10 / 10;
    } else if b >= 10 {
      NumberSnoc("", b / 10);
      NumberSnoc([Digit(b / 10)], b % 10);
    } else {
      NumberSnoc("", b);
    }
  }

  lemma NumberSnoc(s: string, d: int)
    requires 0 <= d < 10
    ensures NumberOf(s + [Digit(d)]) == 10 * NumberOf(s) + d
  {
    assert (s + [Digit(d)])[..|s|] == s;
  }

  /** `host.split(".")` */
  function SplitDots(s: string): (r: seq<string>)
    ensures r != []
  {
    if s == "" then [""]
    else
      var rest := SplitDots(s[1..]);
      if s[0] == '.' then [""] + rest else [[s[0]] + rest[0]] + rest[1..]
  }

  lemma {:induction false} SplitDotFree(a: string)
    requires '.' !in a
    ensures SplitDots(a) == [a]
  {
    if a == "" {
    } else {
      assert a[0] in a && forall c :: c in a[1..] ==> c in a;
      SplitDotFree(a[1..]);
      assert [a[0]] + a[1..] == a;
    }
  }

  lemma {:induction false} SplitAtDot(a: string, rest: string)
    requires '.' !in a
    ensures SplitDots(a + "." + rest) == [a] + SplitDots(rest)
  {
    if a == "" {
      assert (a + "." + rest)[1..] == rest;
    } else {
      assert a[0] in a && forall c :: c in a[1..] ==> c in a;
      assert (a + "." + rest)[1..] == a[1..] + "." + rest;
      SplitAtDot(a[1..], rest);
      assert [a[0]] + a[1..] == a;
    }
  }

  function JoinDots(parts: seq<string>): string
    requires parts != []
  {
    if |parts| == 1 then parts[0] else parts[0] + "." + JoinDots(parts[1..])
  }

  ghost predicate DotFree(parts: seq<string>) {
    forall i :: 0 <= i < |parts| ==> '.' !in parts[i]
  }

  /** Cutting at the dots and joining with them are inverse on dot-free parts. */
  lemma {:induction false} SplitJoinDots(s: string)
    ensures DotFree(SplitDots(s)) && JoinDots(SplitDots(s)) == s
  {
    hide JoinDots;
    if s == "" {
      assert JoinDots([""]) == "" by { JoinOne(""); }
    } else {
      var rest := SplitDots(s[1..]);
      SplitJoinDots(s[1..]);
      assert s == [s[0]] + s[1..];
      if s[0] == '.' {
        JoinMore("", rest);
      } else {
        JoinGrows(s[0], rest);
      }
    }
  }

  lemma JoinOne(a: string)
    ensures JoinDots([a]) == a
  {
  }

  lemma JoinMore(a: string, rest: seq<string>)
    requires rest != []
    ensures JoinDots([a] + rest) == a + "." + JoinDots(rest)
  {
    assert ([a] + rest)[1..] == rest;
  }

  lemma JoinGrows(c: char, rest: seq<string>)
    requires rest != []
    ensures JoinDots([[c] + rest[0]] + rest[1..]) == [c] + JoinDots(rest)
  {
    hide JoinDots;
    var first, others := rest[0], rest[1..];
    assert rest == [first] + others;
    if others == [] {
      assert [[c] + first] + others == [[c] + first] && rest == [first];
      JoinOne([c] + first);
      JoinOne(first);
    } else {
      JoinMore([c] + first, others);
      JoinMore(first, others);
      Regroup([c], first, ".", JoinDots(others));
    }
  }

  lemma Regroup(a: string, b: string, c: string, d: string)
    ensures a + b + c + d == a + (b + c + d)
  {
  }

  /** The dotted quad of four address bytes. */
  function Dotted(ip: seq<byte>): string
    requires |ip| == 4
  {
    Decimal(ip[0]) + "." + (Decimal(ip[1]) + "." + (Decimal(ip[2]) + "." + Decimal(ip[3])))
  }

  lemma SplitDotted(ip: seq<byte>)
    requires |ip| == 4
    ensures SplitDots(Dotted(ip)) == [Decimal(ip[0]), Decimal(ip[1]), Decimal(ip[2]), Decimal(ip[3])]
  {
    var a, b, c, d := Decimal(ip[0]), Decimal(ip[1]), Decimal(ip[2]), Decimal(ip[3]);
    hide Decimal, SplitDots;
    SplitAtDot(a, b + "." + (c + "." + d));
    SplitAtDot(b, c + "." + d);
    SplitAtDot(c, d);
    SplitDotFree(d);
  }

  /** A host that both encoders take for an IPv4 address: four parts that `int` reads as bytes. */
  function Quad(pyInt: IntParser, host: string): (r: Option<seq<byte>>)
    ensures r.Some? ==> |r.value| == 4
  {
    var parts := SplitDots(host);
    if |parts| == 4 && IsByte(pyInt(parts[0])) && IsByte(pyInt(parts[1])) && IsByte(pyInt(parts[2]))
      && IsByte(pyInt(parts[3]))
    then Some([pyInt(parts[0]).value, pyInt(parts[1]).value, pyInt(parts[2]).value, pyInt(parts[3]).value])
    else None
  }

  /** A host is taken for an address exactly if it is four dot-free parts that `int` reads as its bytes. */
  lemma QuadExactly(pyInt: IntParser, host: string, ip: seq<byte>)
    ensures Quad(pyInt, host) == Some(ip) <==>
      |ip| == 4 && exists a, b, c, d :: Spells(pyInt, host, [a, b, c, d], ip)
  {
    hide SplitDots;
    var parts := SplitDots(host);
    SplitJoinDots(host);
    if Quad(pyInt, host) == Some(ip) {
      assert parts == [parts[0], parts[1], parts[2], parts[3]];
      FourJoined(parts);
      assert Spells(pyInt, host, [parts[0], parts[1], parts[2], parts[3]], ip);
    }
    if |ip| == 4 {
      if a, b, c, d :| Spells(pyInt, host, [a, b, c, d], ip) {
        FourSplit(a, b, c, d);
        assert ip == [ip[0], ip[1], ip[2], ip[3]];
      }
    }
  }

  ghost predicate Spells(pyInt: IntParser, host: string, parts: seq<string>, ip: seq<byte>)
    requires |parts| == |ip| == 4
  {
    host == parts[0] + "." + (parts[1] + "." + (parts[2] + "." + parts[3])) &&
    forall i :: 0 <= i < 4 ==> '.' !in parts[i] && pyInt(parts[i]) == Some(ip[i] as int)
  }

  lemma FourJoined(parts: seq<string>)
    requires |parts| == 4
    ensures JoinDots(parts) == parts[0] + "." + (parts[1] + "." + (parts[2] + "." + parts[3]))
  {
    assert JoinDots(parts[1..][1..]) == parts[2] + "." + JoinDots(parts[1..][1..][1..]);
  }

  lemma FourSplit(a: string, b: string, c: string, d: string)
    requires '.' !in a && '.' !in b && '.' !in c && '.' !in d
    ensures SplitDots(a + "." + (b + "." + (c + "." + d))) == [a, b, c, d]
  {
    hide SplitDots;
    SplitAtDot(a, b + "." + (c + "." + d));
    SplitAtDot(b, c + "." + d);
    SplitAtDot(c, d);
    SplitDotFree(d);
  }

  predicate IsByte(n: Option<int>) {
    n.Some? && 0 <= n.value <= 255
  }

  /** All that is assumed of `int`: it reads back what `str` writes. */
  ghost predicate ReadsDecimals(pyInt: IntParser) {
    forall b: byte :: pyInt(Decimal(b)) == Some(b)
  }

  lemma DottedIsQuad(pyInt: IntParser, ip: seq<byte>)
    requires ReadsDecimals(pyInt) && |ip| == 4
    ensures Quad(pyInt, Dotted(ip)) == Some(ip)
  {
    hide Decimal, SplitDots, Dotted;
    SplitDotted(ip);
    assert ip == [ip[0], ip[1], ip[2], ip[3]];
  }

  // ----- Addresses -----

  function EncodeAddress(pyInt: IntParser, host: string, port: int): Result<seq<byte>, Error> {
    var quad := Quad(pyInt, host);
    if quad.Some? then
      if !(0 <= port < 0x1_0000) then Err(PortOutOfRange) else Ok([1] + quad.value + Big2(port))
    else if !IsAscii(host) then Err(NotAscii)
    else if |host| > 255 then Err(NameTooLong)
    else if !(0 <= port < 0x1_0000) then Err(PortOutOfRange)
    else Ok([3, |host|] + AsciiBytes(host) + Big2(port))
  }

  /** Eight groups of four hexadecimal digits. */
  function Ipv6Text(b: seq<byte>): string
    requires |b| % 2 == 0
  {
    if b == [] then ""
    else
      [HexDigit(b[0] / 16), HexDigit(b[0] % 16), HexDigit(b[1] / 16), HexDigit(b[1] % 16)]
      + (if |b| == 2 then "" else ":" + Ipv6Text(b[2..]))
  }

  /** Each byte is two hexadecimal digits, and a colon stands after every second byte but the last. */
  lemma {:induction false} Ipv6Layout(b: seq<byte>)
    requires |b| % 2 == 0 && b != []
    ensures |Ipv6Text(b)| == 5 * (|b| / 2) - 1
    ensures forall i :: 0 <= i < |b| ==> ByteAt(Ipv6Text(b), 2 * i + i / 2, b[i])
    ensures forall g :: 0 < g < |b| / 2 ==> Ipv6Text(b)[5 * g - 1] == ':'
  {
    hide HexDigit;
    var s := Ipv6Text(b);
    if |b| == 2 {
      forall i | 0 <= i < |b| ensures ByteAt(s, 2 * i + i / 2, b[i]) {
        HexDigits(b[i]);
      }
    } else {
      var rest := Ipv6Text(b[2..]);
      Ipv6Layout(b[2..]);
      assert s[5..] == rest && s[4] == ':';
      forall i | 0 <= i < |b| ensures ByteAt(s, 2 * i + i / 2, b[i]) {
        HexDigits(b[i]);
        if i >= 2 {
          assert ByteAt(rest, 2 * (i - 2) + (i - 2) / 2, b[2..][i - 2]);
        }
      }
      forall g | 0 < g < |b| / 2 ensures s[5 * g - 1] == ':' {
        if g > 1 {
          assert rest[5 * (g - 1) - 1] == ':';
        }
      }
    }
  }

  /** Two digits of "0123456789abcdef" at this place, high one first, give the byte. */
  ghost predicate ByteAt(s: string, at: int, b: byte) {
    0 <= at < |s| - 1 && s[at] == "0123456789abcdef"[b / 16] && s[at + 1] == "0123456789abcdef"[b % 16]
  }

  lemma HexDigits(b: byte)
    ensures HexDigit(b / 16) == "0123456789abcdef"[b / 16] && HexDigit(b % 16) == "0123456789abcdef"[b % 16]
  {
    HexDigitIs(b / 16);
    HexDigitIs(b % 16);
  }

  lemma HexDigitIs(d: nat)
    requires d < 16
    ensures HexDigit(d) == "0123456789abcdef"[d]
  {
  }

  lemma HexPair(x: byte, y: byte)
    requires HexDigit(x / 16) == HexDigit(y / 16) && HexDigit(x % 16) == HexDigit(y % 16)
    ensures x == y
  {
    assert HexDigit(x / 16) as int == HexDigit(y / 16) as int;
    assert HexDigit(x % 16) as int == HexDigit(y % 16) as int;
  }

  /** The text of an IPv6 address determines its bytes. */
  lemma {:induction false} Ipv6TextInjective(a: seq<byte>, b: seq<byte>)
    requires |a| == |b| && |a| % 2 == 0 && Ipv6Text(a) == Ipv6Text(b)
    ensures a == b
  {
    if a == [] {
    } else {
      hide HexDigit;
      var s, t := Ipv6Text(a), Ipv6Text(b);
      assert s[0] == t[0] && s[1] == t[1] && s[2] == t[2] && s[3] == t[3];
      HexPair(a[0], b[0]);
      HexPair(a[1], b[1]);
      if |a| > 2 {
        assert s[5..] == Ipv6Text(a[2..]) && t[5..] == Ipv6Text(b[2..]);
        Ipv6TextInjective(a[2..], b[2..]);
      }
      assert a == [a[0], a[1]] + a[2..] && b == [b[0], b[1]] + b[2..];
    }
  }

  function DecodeAddress(data: seq<byte>): Result<(string, int, seq<byte>), Error> {
    if data == [] then Err(Malformed)
    else if data[0] == 1 then
      if |data| < 7 then Err(Malformed) else Ok((Dotted(data[1..5]), FromBig2(data[5..7]), data[7..]))
    else if data[0] == 3 then
      if |data| < 2 || |data| < data[1] as int + 4 then Err(Malformed)
      else
        var n: int := data[1];
        var name := data[2..n + 2];
        if exists i :: 0 <= i < |name| && name[i] >= 128 then Err(NotAscii)
        else Ok((AsciiText(name), FromBig2(data[n + 2..n + 4]), data[n + 4..]))
    else if data[0] == 4 then
      if |data| < 19 then Err(Malformed) else Ok((Ipv6Text(data[1..17]), FromBig2(data[17..19]), data[19..]))
    else Err(Malformed)
  }

  /** The three forms of an address, each followed by its port in network order and whatever comes next. */
  ghost predicate Ipv4Form(data: seq<byte>, ip: seq<byte>, host: string, port: int, rest: seq<byte>) {
    0 <= port < 0x1_0000 && |ip| == 4 && host == Dotted(ip) && data == [1] + ip + [port / 256, port % 256] + rest
  }

  ghost predicate NameForm(data: seq<byte>, name: seq<byte>, host: string, port: int, rest: seq<byte>) {
    0 <= port < 0x1_0000 && |name| == |host| <= 255 &&
    (forall i :: 0 <= i < |name| ==> name[i] <= 127 && host[i] as int == name[i]) &&
    data == [3, |host|] + name + [port / 256, port % 256] + rest
  }

  ghost predicate Ipv6Form(data: seq<byte>, ip: seq<byte>, host: string, port: int, rest: seq<byte>) {
    0 <= port < 0x1_0000 && |ip| == 16 && host == Ipv6Text(ip) && data == [4] + ip + [port / 256, port % 256] + rest
  }

  ghost predicate HasForm(data: seq<byte>, host: string, port: int, rest: seq<byte>) {
    (exists ip :: Ipv4Form(data, ip, host, port, rest)) ||
    (exists name :: NameForm(data, name, host, port, rest)) ||
    (exists ip :: Ipv6Form(data, ip, host, port, rest))
  }

  /** Decoding succeeds exactly on data that starts with an address in one of the forms, and yields what it says. */
  lemma DecodeExactly(data: seq<byte>, host: string, port: int, rest: seq<byte>)
    ensures DecodeAddress(data) == Ok((host, port, rest)) <==> HasForm(data, host, port, rest)
  {
    hide Dotted, Ipv6Text;
    if DecodeAddress(data) == Ok((host, port, rest)) {
      DecodedHasForm(data, host, port, rest);
    }
    if a :| Ipv4Form(data, a, host, port, rest) {
      assert data[1..5] == a && data[5..7] == [port / 256, port % 256] && data[7..] == rest;
    }
    if a :| Ipv6Form(data, a, host, port, rest) {
      assert data[1..17] == a && data[17..19] == [port / 256, port % 256] && data[19..] == rest;
    }
    if a :| NameForm(data, a, host, port, rest) {
      NameDecodes(data, a, host, port, rest);
    }
  }

  lemma NameDecodes(data: seq<byte>, name: seq<byte>, host: string, port: int, rest: seq<byte>)
    requires NameForm(data, name, host, port, rest)
    ensures DecodeAddress(data) == Ok((host, port, rest))
  {
    var n := |name|;
    assert data[2..n + 2] == name && data[n + 2..n + 4] == [port / 256, port % 256] && data[n + 4..] == rest;
    var text := AsciiText(name);
    forall i | 0 <= i < n ensures text[i] == host[i] {
      assert text[i] as int == host[i] as int;
    }
    assert text == host;
  }

  lemma DecodedHasForm(data: seq<byte>, host: string, port: int, rest: seq<byte>)
    requires DecodeAddress(data) == Ok((host, port, rest))
    ensures HasForm(data, host, port, rest)
  {
    hide Dotted, Ipv6Text;
    if data[0] == 1 {
      assert Ipv4Form(data, data[1..5], host, port, rest);
    } else if data[0] == 3 {
      assert NameForm(data, data[2..data[1] as int + 2], host, port, rest);
    } else {
      assert Ipv6Form(data, data[1..17], host, port, rest);
    }
  }

  /** What decoding yields for an encoded address: the name, or the canonical form of the quad. */
  function Canonical(pyInt: IntParser, host: string): string {
    var quad := Quad(pyInt, host);
    if quad.Some? then Dotted(quad.value) else host
  }

  /** Decoding consumes exactly the encoded address and recovers the port and the canonical host. */
  lemma DecodeEncoded(pyInt: IntParser, host: string, port: int, rest: seq<byte>)
    requires EncodeAddress(pyInt, host, port).Ok?
    ensures DecodeAddress(EncodeAddress(pyInt, host, port).value + rest)
         == Ok((Canonical(pyInt, host), port, rest))
  {
    hide Quad, Dotted;
    var quad := Quad(pyInt, host);
    var e := EncodeAddress(pyInt, host, port).value;
    var data := e + rest;
    if quad.Some? {
      assert data[1..5] == quad.value && data[5..7] == Big2(port) && data[7..] == rest;
    } else {
      AsciiRoundTrip(host);
      hide AsciiBytes, DecodeAddress;
      assert NameForm(data, AsciiBytes(host), host, port, rest);
      NameDecodes(data, AsciiBytes(host), host, port, rest);
    }
  }

  /** The length of an address can be read off its first two bytes. */
  function AddressLength(e: seq<byte>): int
    requires |e| >= 2
  {
    if e[0] == 1 then 7 else e[1] as int + 4
  }

  /** No encoded address is a proper prefix of another. */
  lemma PrefixFree(pyInt: IntParser, h1: string, p1: int, h2: string, p2: int)
    requires EncodeAddress(pyInt, h1, p1).Ok? && EncodeAddress(pyInt, h2, p2).Ok?
    requires EncodeAddress(pyInt, h1, p1).value <= EncodeAddress(pyInt, h2, p2).value
    ensures EncodeAddress(pyInt, h1, p1) == EncodeAddress(pyInt, h2, p2)
    ensures Canonical(pyInt, h1) == Canonical(pyInt, h2) && p1 == p2
  {
    var a, b := EncodeAddress(pyInt, h1, p1).value, EncodeAddress(pyInt, h2, p2).value;
    AddressLayout(pyInt, h1, p1);
    AddressLayout(pyInt, h2, p2);
    hide EncodeAddress, DecodeAddress, Canonical;
    assert a[0] == b[0] && a[1] == b[1];
    assert a == b;
    DecodeEncoded(pyInt, h1, p1, []);
    DecodeEncoded(pyInt, h2, p2, []);
  }

  /** The layout of section 5 of RFC 1928: type, address, and the port in network order at the end. */
  lemma AddressLayout(pyInt: IntParser, host: string, port: int)
    requires EncodeAddress(pyInt, host, port).Ok?
    ensures
      var e := EncodeAddress(pyInt, host, port).value;
      |e| >= 4 && |e| == AddressLength(e) &&
      256 * (e[|e| - 2] as int) + e[|e| - 1] == port &&
      if Quad(pyInt, host).Some? then e[0] == 1 && e[1..5] == Quad(pyInt, host).value
      else e[0] == 3 && e[1] == |host| && e[2..|e| - 2] == AsciiBytes(host)
  {
    hide Quad;
  }

  // ----- UDP datagrams -----

  function UdpPack(pyInt: IntParser, host: string, port: int, data: seq<byte>): Result<seq<byte>, Error> {
    var address := EncodeAddress(pyInt, host, port);
    if address.Err? then address else Ok([0, 0, 0] + address.value + data)
  }

  /** An address can be encoded exactly with a 16-bit port, and a host that is a quad or a short ASCII name. */
  lemma EncodeExactly(pyInt: IntParser, host: string, port: int)
    ensures EncodeAddress(pyInt, host, port).Ok? <==>
      0 <= port <= 65535 &&
      (Quad(pyInt, host).Some? || (|host| <= 255 && forall i :: 0 <= i < |host| ==> host[i] as int <= 127))
  {
    hide Quad;
  }

  /** Two reserved bytes and a fragment number, all zero, in front of the address, and the data behind it. */
  lemma UdpLayout(pyInt: IntParser, host: string, port: int, data: seq<byte>)
    ensures UdpPack(pyInt, host, port, data).Ok? <==> EncodeAddress(pyInt, host, port).Ok?
    ensures UdpPack(pyInt, host, port, data).Ok? ==>
      UdpPack(pyInt, host, port, data).value == [0, 0, 0] + EncodeAddress(pyInt, host, port).value + data
  {
    hide EncodeAddress;
  }

  /** Unpacking ignores those three bytes and fails exactly when no address follows them. */
  lemma UdpUnpackExactly(data: seq<byte>, host: string, port: int, rest: seq<byte>)
    ensures UdpUnpack(data) == Ok((host, port, rest)) <==>
      |data| >= 3 && HasForm(data[3..], host, port, rest)
  {
    hide Dotted, Ipv6Text;
    if |data| >= 3 {
      DecodeExactly(data[3..], host, port, rest);
    }
  }

  function UdpUnpack(data: seq<byte>): Result<(string, int, seq<byte>), Error> {
    if |data| < 4 then Err(Malformed) else DecodeAddress(data[3..])
  }

  /** A canonical dotted quad, or an ASCII name of at most 255 bytes that is not four numbers. */
  ghost predicate UdpAddressable(pyInt: IntParser, host: string) {
    var quad := Quad(pyInt, host);
    if quad.Some? then host == Dotted(quad.value)
    else |host| <= 255 && forall i :: 0 <= i < |host| ==> host[i] as int <= 127
  }

  /** A datagram survives packing and unpacking exactly for those hosts, with any port and payload. */
  lemma UdpRoundTrip(pyInt: IntParser, host: string, port: int, data: seq<byte>)
    requires 0 <= port < 0x1_0000
    ensures (UdpPack(pyInt, host, port, data).Ok? &&
             UdpUnpack(UdpPack(pyInt, host, port, data).value) == Ok((host, port, data)))
            <==> UdpAddressable(pyInt, host)
  {
    var packed := UdpPack(pyInt, host, port, data);
    hide Quad, DecodeAddress, Dotted;
    if packed.Ok? {
      var e := EncodeAddress(pyInt, host, port).value;
      DecodeEncoded(pyInt, host, port, data);
      AddressLayout(pyInt, host, port);
      assert packed.value[3..] == e + data;
    }
  }

  lemma QuadRoundTrip(pyInt: IntParser, ip: seq<byte>, port: int, data: seq<byte>)
    requires ReadsDecimals(pyInt) && |ip| == 4 && 0 <= port < 0x1_0000
    ensures UdpPack(pyInt, Dotted(ip), port, data).Ok?
    ensures UdpUnpack(UdpPack(pyInt, Dotted(ip), port, data).value) == Ok((Dotted(ip), port, data))
  {
    DottedIsQuad(pyInt, ip);
    UdpRoundTrip(pyInt, Dotted(ip), port, data);
  }

  lemma LeadingZeroQuad(pyInt: IntParser, ip: seq<byte>)
    requires ReadsDecimals(pyInt) && |ip| == 4 && pyInt("0" + Decimal(ip[0])) == Some(ip[0])
    ensures Quad(pyInt, "0" + Dotted(ip)) == Some(ip)
  {
    var a, b, c, d := "0" + Decimal(ip[0]), Decimal(ip[1]), Decimal(ip[2]), Decimal(ip[3]);
    assert '.' !in a && '.' !in b && '.' !in c && '.' !in d;
    assert "0" + Dotted(ip) == a + "." + (b + "." + (c + "." + d));
    hide SplitDots, Decimal, Dotted;
    SplitAtDot(a, b + "." + (c + "." + d));
    SplitAtDot(b, c + "." + d);
    SplitAtDot(c, d);
    SplitDotFree(d);
    assert ip == [ip[0], ip[1], ip[2], ip[3]];
  }

  /** The excluded hosts do fail: where `int` ignores a leading zero, the zero is lost. */
  lemma LeadingZeroIsLost(pyInt: IntParser, ip: seq<byte>, port: int, data: seq<byte>)
    requires ReadsDecimals(pyInt) && |ip| == 4 && pyInt("0" + Decimal(ip[0])) == Some(ip[0])
    requires 0 <= port < 0x1_0000
    ensures UdpPack(pyInt, "0" + Dotted(ip), port, data).Ok?
    ensures UdpUnpack(UdpPack(pyInt, "0" + Dotted(ip), port, data).value) == Ok((Dotted(ip), port, data))
  {
    var host := "0" + Dotted(ip);
    LeadingZeroQuad(pyInt, ip);
    hide Quad, Dotted, DecodeAddress, ReadsDecimals;
    DecodeEncoded(pyInt, host, port, data);
    var e := EncodeAddress(pyInt, host, port).value;
    assert UdpPack(pyInt, host, port, data).value[3..] == e + data;
  }

  // ----- SOCKS4 -----

  const READ_LIMIT := 1024

  function Socks4Request(pyInt: IntParser, host: string, port: int, userid: seq<byte>): Result<seq<byte>, Error> {
    var quad := Quad(pyInt, host);
    if !(0 <= port < 0x1_0000) then Err(PortOutOfRange)
    else if quad.Some? then Ok([4, 1] + Big2(port) + quad.value + userid + [0])
    else if !IsAscii(host) then Err(NotAscii)
    else Ok([4, 1] + Big2(port) + [0, 0, 0, 1] + userid + [0] + AsciiBytes(host) + [0])
  }

  /** The request: version 4, command 1, port, address or marker, and the user id and a name, each ended by NUL. */
  lemma Socks4Layout(pyInt: IntParser, host: string, port: int, userid: seq<byte>)
    ensures Socks4Request(pyInt, host, port, userid).Ok? <==>
      0 <= port <= 65535 &&
      (Quad(pyInt, host).Some? || forall i :: 0 <= i < |host| ==> host[i] as int <= 127)
    ensures Socks4Request(pyInt, host, port, userid).Ok? ==>
      var r, n := Socks4Request(pyInt, host, port, userid).value, |userid|;
      |r| > 8 + n && r[..4] == [4, 1, port / 256, port % 256] && r[8..8 + n] == userid && r[8 + n] == 0 &&
      if Quad(pyInt, host).Some? then r[4..8] == Quad(pyInt, host).value && |r| == 9 + n
      else
        r[4..8] == [0, 0, 0, 1] && |r| == 10 + n + |host| && r[|r| - 1] == 0 &&
        forall i :: 0 <= i < |host| ==> r[9 + n + i] == host[i] as int
  {
    hide Quad;
  }

  /** `data.find(b"\x00", from)`, or the length when there is none. */
  function FindNul(data: seq<byte>, from: nat): (i: nat)
    requires from <= |data|
    ensures from <= i <= |data| && (i < |data| ==> data[i] == 0)
    ensures forall k :: from <= k < i ==> data[k] != 0
    decreases |data| - from
  {
    if from == |data| || data[from] == 0 then from else FindNul(data, from + 1)
  }

  /** The marker 0.0.0.x of a request that carries a name. */
  predicate IsMarker(ip: seq<byte>)
    requires |ip| == 4
  {
    ip[0] == 0 && ip[1] == 0 && ip[2] == 0 && ip[3] != 0
  }

  function Socks4Accept(data: seq<byte>): Result<(string, int), Error> {
    if |data| < 8 then Err(Malformed)
    else
      var port := FromBig2(data[2..4]);
      var ip := data[4..8];
      if !IsMarker(ip) then Ok((Dotted(ip), port))
      else
        var first := FindNul(data, 8);
        if first == |data| then Err(Malformed)
        else
          var last := FindNul(data, first + 1);
          if last == |data| then Err(Malformed)
          else
            var name := data[first + 1..last];
            if exists i :: 0 <= i < |name| && name[i] >= 128 then Err(NotAscii)
            else Ok((AsciiText(name), port))
  }

  /** A name request: a marker address, a user id, and the name, each of the two ended by its first NUL. */
  ghost predicate NameRequest(data: seq<byte>, user: seq<byte>, name: seq<byte>, host: string) {
    |data| >= 10 + |user| + |name| && 0 !in user && 0 !in name &&
    data[8..8 + |user|] == user && data[8 + |user|] == 0 &&
    data[9 + |user|..9 + |user| + |name|] == name && data[9 + |user| + |name|] == 0 &&
    |name| == |host| && forall i :: 0 <= i < |name| ==> name[i] <= 127 && host[i] as int == name[i]
  }

  /** `accept` succeeds exactly on eight bytes with an address that is no marker, or on a name request. */
  lemma AcceptExactly(data: seq<byte>, host: string, port: int)
    ensures Socks4Accept(data) == Ok((host, port)) <==>
      |data| >= 8 && port == 256 * (data[2] as int) + data[3] &&
      if data[4..7] == [0, 0, 0] && data[7] > 0 then exists user, name :: NameRequest(data, user, name, host)
      else host == Dotted(data[4..8])
  {
    hide Dotted;
    if |data| >= 8 {
      assert IsMarker(data[4..8]) <==> data[4..7] == [0, 0, 0] && data[7] > 0 by {
        assert data[4..7] == [data[4], data[5], data[6]];
      }
    }
    if |data| >= 8 && IsMarker(data[4..8]) {
      if Socks4Accept(data) == Ok((host, port)) {
        AcceptedIsRequest(data, host, port);
      }
      if user, name :| NameRequest(data, user, name, host) {
        RequestIsAccepted(data, user, name, host);
      }
    }
  }

  lemma AcceptedIsRequest(data: seq<byte>, host: string, port: int)
    requires |data| >= 8 && IsMarker(data[4..8]) && Socks4Accept(data) == Ok((host, port))
    ensures exists user, name :: NameRequest(data, user, name, host)
  {
    var first := FindNul(data, 8);
    var last := FindNul(data, first + 1);
    assert NameRequest(data, data[8..first], data[first + 1..last], host);
  }

  lemma RequestIsAccepted(data: seq<byte>, user: seq<byte>, name: seq<byte>, host: string)
    requires |data| >= 8 && IsMarker(data[4..8]) && NameRequest(data, user, name, host)
    ensures Socks4Accept(data) == Ok((host, FromBig2(data[2..4])))
  {
    var u, n := |user|, |name|;
    forall k | 8 <= k < 8 + u ensures data[k] != 0 {
      assert data[8..8 + u][k - 8] == user[k - 8];
    }
    forall k | 9 + u <= k < 9 + u + n ensures data[k] != 0 {
      assert data[9 + u..9 + u + n][k - 9 - u] == name[k - 9 - u];
    }
    assert FindNul(data, 8) == 8 + u && FindNul(data, 9 + u) == 9 + u + n;
    var text := AsciiText(name);
    forall i | 0 <= i < n ensures text[i] == host[i] {
      assert text[i] as int == host[i] as int;
    }
    assert text == host;
  }

  /** One `read(1024)` of a request that arrives whole. */
  function Delivered(request: seq<byte>): seq<byte> {
    if |request| <= READ_LIMIT then request else request[..READ_LIMIT]
  }

  /** A canonical quad that is not a marker, or a NUL-free ASCII name that fits the read. */
  ghost predicate Socks4Addressable(pyInt: IntParser, host: string, userid: seq<byte>) {
    var quad := Quad(pyInt, host);
    if quad.Some? then host == Dotted(quad.value) && !(quad.value[..3] == [0, 0, 0] && quad.value[3] > 0)
    else
      (forall i :: 0 <= i < |host| ==> 0 < host[i] as int <= 127) && |userid| + |host| + 10 <= 1024
  }

  lemma Socks4Quad(pyInt: IntParser, host: string, port: int, userid: seq<byte>, ip: seq<byte>)
    requires 0 <= port < 0x1_0000 && 0 !in userid && Quad(pyInt, host) == Some(ip)
    ensures Socks4Request(pyInt, host, port, userid).Ok?
    ensures Socks4Accept(Delivered(Socks4Request(pyInt, host, port, userid).value))
         == if IsMarker(ip) then Err(Malformed) else Ok((Dotted(ip), port))
  {
    hide Quad, Dotted;
    var request := Socks4Request(pyInt, host, port, userid).value;
    var data := Delivered(request);
    assert data[2..4] == Big2(port) && data[4..8] == ip;
    if IsMarker(ip) {
      assert forall k :: 8 <= k < |request| - 1 ==> request[k] == userid[k - 8];
      var first := FindNul(data, 8);
      assert first == |request| - 1 || first == |data|;
    }
  }

  /** A request that carries a name: marker, user id, name, each field ended by NUL. */
  ghost predicate Named(r: seq<byte>, port: int, user: nat, name: seq<byte>) {
    0 <= port < 0x1_0000 && |r| == user + |name| + 10 &&
    r[2..4] == Big2(port) && r[4..8] == [0, 0, 0, 1] &&
    (forall k :: 8 <= k < user + 8 ==> r[k] != 0) && r[user + 8] == 0 &&
    r[user + 9..user + 9 + |name|] == name && r[user + 9 + |name|] == 0
  }

  lemma RequestIsNamed(pyInt: IntParser, host: string, port: int, userid: seq<byte>)
    requires 0 <= port < 0x1_0000 && 0 !in userid && Quad(pyInt, host).None? && IsAscii(host)
    ensures Socks4Request(pyInt, host, port, userid).Ok?
    ensures Named(Socks4Request(pyInt, host, port, userid).value, port, |userid|, AsciiBytes(host))
  {
    hide Quad;
    var r := Socks4Request(pyInt, host, port, userid).value;
    assert forall k :: 8 <= k < |userid| + 8 ==> r[k] == userid[k - 8];
  }

  lemma NamedName(r: seq<byte>, port: int, user: nat, name: seq<byte>, k: nat)
    requires Named(r, port, user, name) && k < |name|
    ensures r[user + 9 + k] == name[k]
  {
    assert r[user + 9..user + 9 + |name|][k] == name[k];
  }

  /** The user id ends at its NUL, provided that much was delivered. */
  lemma NamedFirst(r: seq<byte>, port: int, user: nat, name: seq<byte>, data: seq<byte>)
    requires Named(r, port, user, name) && data <= r && |data| >= 8
    ensures data[2..4] == Big2(port) && data[4..8] == [0, 0, 0, 1]
    ensures FindNul(data, 8) == if |data| <= user + 8 then |data| else user + 8
  {
    assert data[2..4] == r[2..4] && data[4..8] == r[4..8];
  }

  lemma AcceptWhole(r: seq<byte>, port: int, user: nat, host: string)
    requires IsAscii(host) && '\0' !in host && Named(r, port, user, AsciiBytes(host))
    ensures Socks4Accept(r) == Ok((host, port))
  {
    var name := AsciiBytes(host);
    NamedFirst(r, port, user, name, r);
    forall k | user + 9 <= k < user + 9 + |name| ensures r[k] != 0 {
      NamedName(r, port, user, name, k - user - 9);
      assert host[k - user - 9] in host;
    }
    var last := FindNul(r, user + 9);
    assert last == user + 9 + |name|;
    AsciiRoundTrip(host);
    assert r[user + 9..last] == name;
  }

  lemma AcceptCut(r: seq<byte>, port: int, user: nat, name: seq<byte>, data: seq<byte>)
    requires Named(r, port, user, name) && 0 !in name && data <= r && 8 <= |data| < |r|
    ensures Socks4Accept(data).Err?
  {
    NamedFirst(r, port, user, name, data);
    if |data| > user + 8 {
      forall k | user + 9 <= k < |data| ensures data[k] != 0 {
        NamedName(r, port, user, name, k - user - 9);
      }
    }
  }

  lemma AcceptNul(r: seq<byte>, port: int, user: nat, name: seq<byte>, data: seq<byte>)
    requires Named(r, port, user, name) && 0 in name && data <= r && 8 <= |data|
    ensures Socks4Accept(data).Ok? ==> |Socks4Accept(data).value.0| < |name|
  {
    NamedFirst(r, port, user, name, data);
    var k :| 0 <= k < |name| && name[k] == 0;
    NamedName(r, port, user, name, k);
    if |data| > user + 8 {
      var last := FindNul(data, user + 9);
      assert last < |data| ==> last <= user + 9 + k;
    }
  }

  lemma NulInName(host: string)
    requires IsAscii(host)
    ensures 0 in AsciiBytes(host) <==> '\0' in host
  {
    var name := AsciiBytes(host);
    if 0 in name {
      var k :| 0 <= k < |name| && name[k] == 0;
      assert host[k] == '\0';
    }
    if '\0' in host {
      var k :| 0 <= k < |host| && host[k] == '\0';
      assert name[k] == 0;
    }
  }

  lemma Socks4Name(pyInt: IntParser, host: string, port: int, userid: seq<byte>)
    requires 0 <= port < 0x1_0000 && 0 !in userid && Quad(pyInt, host).None? && IsAscii(host)
    ensures Socks4Request(pyInt, host, port, userid).Ok?
    ensures
      var r := Socks4Accept(Delivered(Socks4Request(pyInt, host, port, userid).value));
      r == Ok((host, port)) <==> '\0' !in host && |userid| + |host| + 10 <= READ_LIMIT
  {
    RequestIsNamed(pyInt, host, port, userid);
    hide Quad, Socks4Request, Socks4Accept;
    var r, name := Socks4Request(pyInt, host, port, userid).value, AsciiBytes(host);
    var data := Delivered(r);
    NulInName(host);
    if '\0' in host {
      AcceptNul(r, port, |userid|, name, data);
    } else {
      if |r| <= READ_LIMIT {
        AcceptWhole(r, port, |userid|, host);
      } else {
        AcceptCut(r, port, |userid|, name, data);
      }
    }
  }

  /** `accept` recovers what `connect` was given exactly for those hosts, when the user id has no NUL. */
  lemma Socks4RoundTrip(pyInt: IntParser, host: string, port: int, userid: seq<byte>)
    requires 0 <= port < 0x1_0000 && 0 !in userid
    ensures (Socks4Request(pyInt, host, port, userid).Ok? &&
             Socks4Accept(Delivered(Socks4Request(pyInt, host, port, userid).value)) == Ok((host, port)))
            <==> Socks4Addressable(pyInt, host, userid)
  {
    var quad := Quad(pyInt, host);
    if quad.Some? {
      Socks4Quad(pyInt, host, port, userid, quad.value);
    } else if IsAscii(host) {
      Socks4Name(pyInt, host, port, userid);
    }
  }
}
