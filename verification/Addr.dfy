/** SOCKS5 addresses (section 5 of RFC 1928): parsed from a request, kept as text, encoded again for the next hop. */
module Addr {
  import opened Bytes
  import opened Strings

  /** Text to bytes and back; `decode` answers something for every byte string. */
  datatype Utf8 = Utf8(decode: bytes -> string, encode: string -> bytes)

  // ---- the textual forms ---------------------------------------------------------------

  predicate IsDigit(c: char) {
    '0' <= c <= '9'
  }

  predicate AllDigits(s: string) {
    forall i :: 0 <= i < |s| ==> IsDigit(s[i])
  }

  /** `Number(part)` of a string of digits. */
  function Number(s: string): nat
    requires AllDigits(s)
    decreases |s|
  {
    if s == "" then 0 else Number(s[..|s| - 1]) * 10 + (s[|s| - 1] - '0') as nat
  }

  /** One to three digits, at most 255. */
  predicate IsOctet(part: string) {
    1 <= |part| <= 3 && AllDigits(part) && Number(part) <= 255
  }

  /** The dotted-quad test of the encoder. */
  predicate IsDotted(host: string) {
    var parts := Split(host, '.');
    |parts| == 4 && forall i :: 0 <= i < 4 ==> IsOctet(parts[i])
  }

  function Decimals(b: bytes): (r: seq<string>)
    ensures |r| == |b|
  {
    seq(|b|, i requires 0 <= i < |b| => Decimal(b[i]))
  }

  /** `[...bytes].join(".")` */
  function Dotted(b: bytes): string {
    Join(Decimals(b), '.')
  }

  lemma {:induction false} DecimalIsNumber(n: nat)
    ensures AllDigits(Decimal(n)) && Number(Decimal(n)) == n && |Decimal(n)| >= 1
    ensures n < 1000 ==> |Decimal(n)| <= 3
    decreases n
  {
    if n < 10 {
      LastDigit("", n);
      assert "" + ["0123456789"[n]] == Decimal(n);
    } else {
      DecimalIsNumber(n / 10);
      LastDigit(Decimal(n / 10), n % 10);
      ShortDecimal(n);
    }
  }

  lemma ShortDecimal(n: nat)
    requires 10 <= n
    ensures |Decimal(n)| == |Decimal(n / 10)| + 1
    ensures n < 1000 ==> |Decimal(n / 10)| <= 2
  {
    if n < 100 {
      assert |Decimal(n / 10)| == 1;
    } else if n < 1000 {
      assert |Decimal(n / 10 / 10)| == 1;
    }
  }

  lemma LastDigit(front: string, d: nat)
    requires AllDigits(front) && d < 10
    ensures var s := front + ["0123456789"[d]]; AllDigits(s) && Number(s) == Number(front) * 10 + d
  {
    var s := front + ["0123456789"[d]];
    assert s[..|front|] == front;
    DigitChar(d);
  }

  lemma DigitChar(d: nat)
    requires d < 10
    ensures IsDigit("0123456789"[d]) && ("0123456789"[d] - '0') as nat == d
  {
  }

  lemma DottedIsDotted(b: bytes)
    requires |b| == 4
    ensures IsDotted(Dotted(b)) && Split(Dotted(b), '.') == Decimals(b)
  {
    forall i | 0 <= i < 4
      ensures IsOctet(Decimal(b[i])) && '.' !in Decimal(b[i])
    {
      DecimalIsNumber(b[i]);
    }
    SplitJoin(Decimals(b), '.');
  }

  // ---- hexadecimal groups ---------------------------------------------------------------

  const HEX := "0123456789abcdef"

  function HexValue(c: char): Option<nat> {
    if '0' <= c <= '9' then Some((c - '0') as nat)
    else if 'a' <= c <= 'f' then Some((c - 'a') as nat + 10)
    else if 'A' <= c <= 'F' then Some((c - 'A') as nat + 10)
    else None
  }

  /** `parseInt(part, 16)`: the number its leading digits make, added to what came before; nothing counts as zero. */
  function ParseHex(part: string, sofar: nat): nat
    decreases |part|
  {
    if part == "" || HexValue(part[0]).None? then sofar else ParseHex(part[1..], sofar * 16 + HexValue(part[0]).value)
  }

  /** `toString("hex")` of two bytes. */
  function Group(hi: byte, lo: byte): string {
    [HEX[hi / 16], HEX[hi % 16], HEX[lo / 16], HEX[lo % 16]]
  }

  function GroupsOf(b: bytes): seq<string>
    decreases |b|
  {
    if |b| < 2 then [] else [Group(b[0], b[1])] + GroupsOf(b[2..])
  }

  /** Two groups "0" in a row begin at `i`. */
  predicate ZeroRunAt(groups: seq<string>, i: nat) {
    i + 1 < |groups| && groups[i] == "0" && groups[i + 1] == "0"
  }

  function FirstZeroRun(groups: seq<string>, from: nat): (i: int)
    ensures i == -1 || (i >= 0 && ZeroRunAt(groups, i))
    decreases |groups| - from
  {
    if from >= |groups| then -1 else if ZeroRunAt(groups, from) then from else FirstZeroRun(groups, from + 1)
  }

  function RunEnd(groups: seq<string>, i: nat): (j: nat)
    requires i <= |groups|
    ensures i <= j <= |groups|
    decreases |groups| - i
  {
    if i < |groups| && groups[i] == "0" then RunEnd(groups, i + 1) else i
  }

  /** The joined groups with the first run of two or more groups "0" replaced by a double colon. */
  function Compress(groups: seq<string>): string {
    var i := FirstZeroRun(groups, 0);
    if i == -1 then Join(groups, ':')
    else Join(groups[..i], ':') + "::" + Join(groups[RunEnd(groups, i)..], ':')
  }

  /** An octet is one to three digits that make at most 255. */
  lemma OctetIff(part: string)
    ensures IsOctet(part) <==>
              && 1 <= |part| <= 3 && (forall i :: 0 <= i < |part| ==> '0' <= part[i] <= '9')
              && (if |part| == 3 then 100 * Digit(part[0]) + 10 * Digit(part[1]) + Digit(part[2]) <= 255 else true)
  {
    if 1 <= |part| <= 3 && AllDigits(part) {
      OneDigitMore(part);
      if |part| > 1 {
        OneDigitMore(part[..|part| - 1]);
      }
      if |part| > 2 {
        OneDigitMore(part[..1]);
        assert part[..2][..1] == part[..1];
      }
    }
  }

  function Digit(c: char): int {
    c as int - '0' as int
  }

  lemma OneDigitMore(s: string)
    requires s != "" && AllDigits(s)
    ensures AllDigits(s[..|s| - 1]) && Number(s) == 10 * Number(s[..|s| - 1]) + Digit(s[|s| - 1])
    ensures |s| == 1 ==> Number(s) == Digit(s[0])
  {
  }

  /** Hexadecimal digits may be capitals. */
  lemma KnownDigits()
    ensures HexValue('0') == Some(0) && HexValue('9') == Some(9)
    ensures HexValue('A') == HexValue('a') == Some(10) && HexValue('F') == HexValue('f') == Some(15)
    ensures HexValue('g') == HexValue('G') == HexValue('@') == HexValue('`') == HexValue(':') == HexValue('/') == None
  {
  }

  /** Only whole groups "0" are compressed, two or more of them. */
  lemma KnownCompression()
    ensures Compress(["1", "0", "0", "0", "2"]) == "1::2" && Compress(["0", "a", "0"]) == "0:a:0"
  {
    var groups := ["1", "0", "0", "0", "2"];
    assert !ZeroRunAt(groups, 0) && ZeroRunAt(groups, 1);
    assert FirstZeroRun(groups, 1) == 1;
    assert FirstZeroRun(groups, 0) == FirstZeroRun(groups, 1);
    assert groups[4] == "2" && groups[3] == groups[2] == groups[1] == "0";
    assert RunEnd(groups, 4) == 4;
    assert RunEnd(groups, 3) == RunEnd(groups, 4);
    assert RunEnd(groups, 2) == RunEnd(groups, 3);
    assert RunEnd(groups, 1) == RunEnd(groups, 2);
    assert groups[..1] == ["1"] && groups[4..] == ["2"];
    SingleZerosStay();
  }

  lemma SingleZerosStay()
    ensures Compress(["0", "a", "0"]) == "0:a:0"
  {
    var plain := ["0", "a", "0"];
    assert FirstZeroRun(plain, 3) == -1;
    assert FirstZeroRun(plain, 2) == -1;
    assert FirstZeroRun(plain, 1) == -1;
    assert FirstZeroRun(plain, 0) == -1;
    assert plain[1..] == ["a", "0"] && ["a", "0"][1..] == ["0"];
    assert Join(["0"], ':') == "0";
    assert Join(["a", "0"], ':') == "a:0";
  }

  lemma HexDigit(d: nat)
    requires d < 16
    ensures HexValue(HEX[d]) == Some(d) && HEX[d] != ':' && HEX[d] != '.'
  {
  }

  lemma ParseHexStep(part: string, sofar: nat, d: nat)
    requires part != "" && d < 16 && part[0] == HEX[d]
    ensures ParseHex(part, sofar) == ParseHex(part[1..], sofar * 16 + d)
  {
    HexDigit(d);
  }

  /** Two printed digits and what follows them. */
  lemma ParseHexByte(b: byte, more: string, sofar: nat)
    ensures ParseHex([HEX[b / 16], HEX[b % 16]] + more, sofar) == ParseHex(more, sofar * 256 + b)
  {
    var x, y := HEX[b / 16], HEX[b % 16];
    assert ([x, y] + more)[1..] == [y] + more && ([y] + more)[1..] == more;
    ParseHexStep([x, y] + more, sofar, b / 16);
    ParseHexStep([y] + more, sofar * 16 + b / 16, b % 16);
  }

  /** A printed group is read back as its number. */
  lemma GroupReadsBack(hi: byte, lo: byte)
    ensures ParseHex(Group(hi, lo), 0) == hi * 256 + lo
  {
    var front, back := [HEX[hi / 16], HEX[hi % 16]], [HEX[lo / 16], HEX[lo % 16]];
    assert Group(hi, lo) == front + back && back + [] == back;
    ParseHexByte(hi, back, 0);
    assert ParseHex(Group(hi, lo), 0) == ParseHex(back, hi);
    ParseHexByte(lo, [], hi);
  }

  /** A printed group is never "0", and holds no colon. */
  lemma GroupChars(hi: byte, lo: byte)
    ensures Group(hi, lo) != "0" && ':' !in Group(hi, lo)
  {
    HexDigit(hi / 16);
    HexDigit(hi % 16);
    HexDigit(lo / 16);
    HexDigit(lo % 16);
    assert |Group(hi, lo)| == 4;
  }

  lemma {:induction false} AllGroupsChars(b: bytes)
    ensures forall i :: 0 <= i < |GroupsOf(b)| ==> GroupsOf(b)[i] != "0" && ':' !in GroupsOf(b)[i]
    ensures |GroupsOf(b)| == |b| / 2
    decreases |b|
  {
    if |b| >= 2 {
      GroupChars(b[0], b[1]);
      AllGroupsChars(b[2..]);
    }
  }

  /** The compression never applies to groups of four digits. */
  lemma NeverCompressed(b: bytes)
    ensures Compress(GroupsOf(b)) == Join(GroupsOf(b), ':')
  {
    AllGroupsChars(b);
  }

  // ---- encoding and parsing -----------------------------------------------------------------

  /** The bytes of the numbers the parts spell. */
  function Octets(parts: seq<string>): (r: bytes)
    requires forall i :: 0 <= i < |parts| ==> IsOctet(parts[i])
    ensures |r| == |parts|
  {
    seq(|parts|, i requires 0 <= i < |parts| && IsOctet(parts[i]) => Number(parts[i]))
  }

  function HexBytes(parts: seq<string>): bytes
    decreases |parts|
  {
    if parts == [] then [] else U16(ParseHex(parts[0], 0)) + HexBytes(parts[1..])
  }

  function EncodeAddr(host: string, port: nat, u: Utf8): bytes {
    if IsDotted(host) then [1] + Octets(Split(host, '.')) + U16(port)
    else if ':' in host then [4] + HexBytes(Split(host, ':')) + U16(port)
    else [3, LowByte(|u.encode(host)|)] + u.encode(host) + U16(port)
  }

  datatype Parsed = Parsed(host: string, port: nat, rest: bytes)

  /** The type byte, the address and the port; None where the source throws. */
  function ParseAddr(s: bytes, u: Utf8): Option<Parsed> {
    if s == [] then None
    else if s[0] == 1 then
      if |s| < 7 then None else Some(Parsed(Dotted(s[1..5]), FromU16(s[5], s[6]), s[7..]))
    else if s[0] == 4 then
      if |s| < 19 then None else Some(Parsed(Compress(GroupsOf(s[1..17])), FromU16(s[17], s[18]), s[19..]))
    else if s[0] == 3 then
      if |s| < 2 then None
      else
        var n: nat := s[1];
        if |s| < n + 4 then None else Some(Parsed(u.decode(s[2..n + 2]), FromU16(s[n + 2], s[n + 3]), s[n + 4..]))
    else None
  }

  /** An address literal always survives; a name does if its text encodes to the same bytes and is neither a dotted quad
      nor holds a colon. */
  predicate Survives(s: bytes, u: Utf8)
    requires ParseAddr(s, u).Some?
  {
    s[0] == 3 ==>
      var name := s[2..s[1] as int + 2];
      u.encode(u.decode(name)) == name && !IsDotted(u.decode(name)) && ':' !in u.decode(name)
  }

  lemma PortReadsBack(hi: byte, lo: byte)
    ensures U16(FromU16(hi, lo)) == [hi, lo] && FromU16(hi, lo) < 65536
  {
  }

  lemma DottedEncodes(b: bytes)
    requires |b| == 4
    ensures IsDotted(Dotted(b)) && Octets(Split(Dotted(b), '.')) == b
  {
    DottedIsDotted(b);
    forall i | 0 <= i < 4
      ensures Number(Decimals(b)[i]) == b[i]
    {
      DecimalIsNumber(b[i]);
    }
  }

  lemma {:induction false} GroupsEncode(b: bytes)
    requires |b| % 2 == 0
    ensures HexBytes(GroupsOf(b)) == b
    decreases |b|
  {
    if b != [] {
      GroupsEncode(b[2..]);
      HexBytesCons(Group(b[0], b[1]), GroupsOf(b[2..]));
      GroupEncodes(b[0], b[1]);
      assert b == [b[0], b[1]] + b[2..];
    }
  }

  lemma GroupEncodes(hi: byte, lo: byte)
    ensures U16(ParseHex(Group(hi, lo), 0)) == [hi, lo]
  {
    GroupReadsBack(hi, lo);
    PortReadsBack(hi, lo);
  }

  lemma HexBytesCons(part: string, parts: seq<string>)
    ensures HexBytes([part] + parts) == U16(ParseHex(part, 0)) + HexBytes(parts)
  {
    assert ([part] + parts)[1..] == parts;
  }

  /** The text of eight groups is not mistaken for a dotted quad, and splits into its groups. */
  lemma GroupsText(b: bytes)
    requires |b| == 16
    ensures var host := Join(GroupsOf(b), ':'); Split(host, ':') == GroupsOf(b) && ':' in host && !IsDotted(host)
  {
    var groups := GroupsOf(b);
    AllGroupsChars(b);
    SplitJoin(groups, ':');
    var host := Join(groups, ':');
    assert host[|groups[0]|] == ':';
    if IsDotted(host) {
      JoinSplit(host, '.');
      NoColonInDotted(Split(host, '.'));
    }
  }

  lemma {:induction false} NoColonInDotted(parts: seq<string>)
    requires forall i :: 0 <= i < |parts| ==> IsOctet(parts[i])
    ensures ':' !in Join(parts, '.')
    decreases |parts|
  {
    if |parts| > 1 {
      NoColonInDotted(parts[1..]);
    }
  }

  /** Encoding what was parsed gives the same bytes exactly for the requests that survive. */
  lemma ReencodeIff(s: bytes, u: Utf8)
    requires ParseAddr(s, u).Some?
    ensures var p := ParseAddr(s, u).value; EncodeAddr(p.host, p.port, u) + p.rest == s <==> Survives(s, u)
  {
    if s[0] == 1 {
      ReencodeV4(s, u);
    } else if s[0] == 4 {
      ReencodeV6(s, u);
    } else {
      ReencodeName(s, u);
    }
  }

  lemma ReencodeV4(s: bytes, u: Utf8)
    requires ParseAddr(s, u).Some? && s[0] == 1
    ensures var p := ParseAddr(s, u).value; EncodeAddr(p.host, p.port, u) + p.rest == s
  {
    DottedEncodes(s[1..5]);
    PortReadsBack(s[5], s[6]);
    assert s == [1] + s[1..5] + [s[5], s[6]] + s[7..];
  }

  lemma ReencodeV6(s: bytes, u: Utf8)
    requires ParseAddr(s, u).Some? && s[0] == 4
    ensures var p := ParseAddr(s, u).value; EncodeAddr(p.host, p.port, u) + p.rest == s
  {
    var b, port := s[1..17], FromU16(s[17], s[18]);
    NeverCompressed(b);
    EncodeGroups(b, port, u);
    PortReadsBack(s[17], s[18]);
    V6Parts(s);
    assert ParseAddr(s, u) == Some(Parsed(Join(GroupsOf(b), ':'), port, s[19..]));
  }

  lemma V6Parts(s: bytes)
    requires |s| >= 19 && s[0] == 4
    ensures s == [4] + s[1..17] + [s[17], s[18]] + s[19..]
  {
  }

  lemma EncodeGroups(b: bytes, port: nat, u: Utf8)
    requires |b| == 16
    ensures EncodeAddr(Join(GroupsOf(b), ':'), port, u) == [4] + b + U16(port)
  {
    GroupsText(b);
    GroupsEncode(b);
  }

  lemma ReencodeName(s: bytes, u: Utf8)
    requires ParseAddr(s, u).Some? && s[0] == 3
    ensures var p := ParseAddr(s, u).value; EncodeAddr(p.host, p.port, u) + p.rest == s <==> Survives(s, u)
  {
    var n: nat := s[1];
    var name := s[2..n + 2];
    var p := ParseAddr(s, u).value;
    var head := EncodeAddr(p.host, p.port, u);
    PortReadsBack(s[n + 2], s[n + 3]);
    NameParts(s, n);
    if !IsDotted(p.host) && ':' !in p.host {
      var encoded := u.encode(p.host);
      if head + p.rest == s {
        SameMiddle([3, LowByte(|encoded|)], encoded, [3, n], name, U16(p.port), p.rest);
      }
    } else {
      assert head[0] == 1 || head[0] == 4;
      assert (head + p.rest)[0] == head[0];
    }
  }

  lemma NameParts(s: bytes, n: nat)
    requires |s| >= n + 4 && s[0] == 3 && s[1] == n
    ensures s == [3, n] + s[2..n + 2] + [s[n + 2], s[n + 3]] + s[n + 4..]
  {
  }

  lemma SameMiddle(h: bytes, a: bytes, k: bytes, b: bytes, port: bytes, rest: bytes)
    requires |h| == |k| && h + a + port + rest == k + b + port + rest
    ensures a == b
  {
    var s := h + a + port + rest;
    assert |s| == |h| + |a| + |port| + |rest| == |h| + |b| + |port| + |rest|;
    assert s[|h|..|h| + |a|] == a && (k + b + port + rest)[|h|..|h| + |a|] == b;
  }

  /** So for those requests the other end parses the address the client sent. */
  lemma ParsedAgain(s: bytes, u: Utf8)
    requires ParseAddr(s, u).Some? && Survives(s, u)
    ensures var p := ParseAddr(s, u).value; ParseAddr(EncodeAddr(p.host, p.port, u) + p.rest, u) == Some(p)
  {
    ReencodeIff(s, u);
  }

  /** The texts an address can have: a dotted quad, eight hexadecimal groups, or a name of at most 255 bytes. */
  predicate Encodable(host: string, u: Utf8) {
    IsDotted(host)
    || (':' in host && |Split(host, ':')| == 8)
    || (':' !in host && |u.encode(host)| <= 255 && u.decode(u.encode(host)) == host)
  }

  lemma PortKept(port: nat)
    requires port < 65536
    ensures FromU16(U16(port)[0], U16(port)[1]) == port
  {
    U16ReadsBack(port);
  }

  lemma {:induction false} HexBytesLength(parts: seq<string>)
    ensures |HexBytes(parts)| == 2 * |parts|
  {
    if parts != [] {
      HexBytesLength(parts[1..]);
    }
  }

  lemma Pieces(h: bytes, name: bytes, port: bytes, rest: bytes)
    requires |port| == 2
    ensures var s, k := h + name + port + rest, |h| + |name|;
            s[..|h|] == h && s[|h|..k] == name && s[k] == port[0] && s[k + 1] == port[1] && s[k + 2..] == rest
    ensures forall i :: 0 <= i < |h| ==> (h + name + port + rest)[i] == h[i]
  {
  }

  /** The three request types in pieces: address, two bytes of port, and what follows. */
  lemma V4Parses(b: bytes, port: bytes, rest: bytes, u: Utf8)
    requires |b| == 4 && |port| == 2
    ensures ParseAddr([1] + b + port + rest, u) == Some(Parsed(Dotted(b), FromU16(port[0], port[1]), rest))
  {
    Pieces([1], b, port, rest);
  }

  lemma V6Parses(b: bytes, port: bytes, rest: bytes, u: Utf8)
    requires |b| == 16 && |port| == 2
    ensures ParseAddr([4] + b + port + rest, u) == Some(Parsed(Compress(GroupsOf(b)), FromU16(port[0], port[1]), rest))
  {
    Pieces([4], b, port, rest);
  }

  lemma NameParses(name: bytes, port: bytes, rest: bytes, u: Utf8)
    requires |name| <= 255 && |port| == 2
    ensures ParseAddr([3, |name|] + name + port + rest, u) == Some(Parsed(u.decode(name), FromU16(port[0], port[1]), rest))
  {
    Pieces([3, |name|], name, port, rest);
  }

  /** Parsing undoes encoding: port and rest come back, and the host's text stands for the same address. */
  lemma EncodedParses(host: string, port: nat, rest: bytes, u: Utf8)
    requires port < 65536 && Encodable(host, u)
    ensures var r := ParseAddr(EncodeAddr(host, port, u) + rest, u);
            && r.Some? && r.value.port == port && r.value.rest == rest
            && EncodeAddr(r.value.host, port, u) == EncodeAddr(host, port, u)
  {
    var head := EncodeAddr(host, port, u);
    PortKept(port);
    if IsDotted(host) {
      var b := Octets(Split(host, '.'));
      V4Parses(b, U16(port), rest, u);
      ReencodeV4(head + rest, u);
      Cancel(EncodeAddr(Dotted(b), port, u), head, rest);
    } else if ':' in host {
      var b := HexBytes(Split(host, ':'));
      HexBytesLength(Split(host, ':'));
      V6Parses(b, U16(port), rest, u);
      ReencodeV6(head + rest, u);
      Cancel(EncodeAddr(Compress(GroupsOf(b)), port, u), head, rest);
    } else {
      NameParses(u.encode(host), U16(port), rest, u);
    }
  }

  lemma Cancel(a: bytes, b: bytes, rest: bytes)
    requires a + rest == b + rest
    ensures a == b
  {
    assert |a + rest| == |b + rest|;
    assert (a + rest)[..|a|] == a && (b + rest)[..|a|] == b;
  }

  /** The request reader: the address begins behind version, command and a reserved byte. */
  method ReadSocks5Request(header: bytes, u: Utf8) returns (r: Option<Parsed>)
    ensures r == if |header| < 3 then None else ParseAddr(header[3..], u)
  {
    if |header| < 4 {
      return None;
    }
    var atyp := header[3];
    if atyp == 1 {
      V4Request(header, u);
      if |header| < 10 {
        return None;
      }
      return Some(Parsed(Dotted(header[4..8]), FromU16(header[8], header[9]), header[10..]));
    } else if atyp == 4 {
      V6Request(header, u);
      if |header| < 22 {
        return None;
      }
      var groups := ReadGroups(header);
      return Some(Parsed(Compress(groups), FromU16(header[20], header[21]), header[22..]));
    } else if atyp == 3 {
      if |header| < 5 {
        return None;
      }
      NameRequest(header, u);
      var length: nat := header[4];
      if |header| < length + 7 {
        return None;
      }
      return Some(Parsed(u.decode(header[5..length + 5]), FromU16(header[length + 5], header[length + 6]), header[length + 7..]));
    }
    return None;
  }

  /** An address behind the three bytes, and what follows its port. */
  lemma BehindHead(header: bytes, from: nat, to: nat)
    requires from <= to && to + 5 <= |header|
    ensures header[3..][from..to] == header[from + 3..to + 3] && header[3..][to + 2..] == header[to + 5..]
  {
    assert header[3..][to + 2..] == header[3 + (to + 2)..];
  }

  lemma V4Request(header: bytes, u: Utf8)
    requires |header| >= 4 && header[3] == 1
    ensures ParseAddr(header[3..], u)
            == if |header| < 10 then None
               else Some(Parsed(Dotted(header[4..8]), FromU16(header[8], header[9]), header[10..]))
  {
    if |header| >= 10 {
      BehindHead(header, 1, 5);
    }
  }

  lemma V6Request(header: bytes, u: Utf8)
    requires |header| >= 4 && header[3] == 4
    ensures ParseAddr(header[3..], u)
            == if |header| < 22 then None
               else Some(Parsed(Compress(GroupsOf(header[4..20])), FromU16(header[20], header[21]), header[22..]))
  {
    if |header| >= 22 {
      BehindHead(header, 1, 17);
    }
  }

  lemma NameRequest(header: bytes, u: Utf8)
    requires |header| >= 5 && header[3] == 3
    ensures var n: nat := header[4];
            ParseAddr(header[3..], u)
            == if |header| < n + 7 then None
               else Some(Parsed(u.decode(header[5..n + 5]), FromU16(header[n + 5], header[n + 6]), header[n + 7..]))
  {
    var n: nat := header[4];
    if |header| >= n + 7 {
      BehindHead(header, 2, n + 2);
    }
  }

  method ReadGroups(header: bytes) returns (groups: seq<string>)
    requires |header| >= 22
    ensures groups == GroupsOf(header[4..20])
  {
    groups := [];
    for i := 0 to 8
      invariant groups + GroupsOf(header[i * 2 + 4..20]) == GroupsOf(header[4..20])
    {
      var group := Group(header[i * 2 + 4], header[i * 2 + 5]);
      FirstGroup(header, i * 2 + 4, 20);
      Associate(groups, [group], GroupsOf(header[i * 2 + 6..20]));
      groups := groups + [group];
    }
    assert groups + [] == groups;
  }

  lemma FirstGroup(s: bytes, k: nat, end: nat)
    requires k + 2 <= end <= |s|
    ensures GroupsOf(s[k..end]) == [Group(s[k], s[k + 1])] + GroupsOf(s[k + 2..end])
  {
    assert s[k..end][2..] == s[k + 2..end];
  }
}
