/** The routing decision with the text readers plugged in: what a host that is an address literal is taken for. */
module LiteralHosts {
  import opened Bytes
  import opened JsInt
  import opened Strings
  import A = Addr
  import Cidr
  import Rules
  import T = AddressText

  /** The readers of the routing, with the reader of prefix lengths left open. */
  function TextParsers(integer: string -> Option<int>): Rules.Parsers {
    Rules.Parsers(integer, Read4, Read6)
  }

  function Read4(s: string): Option<u32> {
    match T.Ipv4ToInt(s) case Some(ip) => Some(ip) case None => None
  }

  function Read6(s: string): Option<Cidr.Groups> {
    match T.Ipv6ToGroups(s) case Some(g) => Some(g) case None => None
  }

  function Number4(b: bytes): u32
    requires |b| == 4
  {
    T.FourBytes(b);
    FromBigEndian(b)
  }

  function Groups6(b: bytes): Cidr.Groups
    requires |b| == 16
  {
    T.GroupsSpell(b);
    T.Words(b)
  }

  /** Text that lower-casing and trimming leave alone. */
  predicate Plain(s: string) {
    forall i :: 0 <= i < |s| ==> !('A' <= s[i] <= 'Z') && !IsSpace(s[i])
  }

  lemma PlainStays(s: string)
    requires Plain(s)
    ensures Trim(Lower(s)) == s
  {
    assert Lower(s) == s;
  }

  lemma {:induction false} PlainJoin(parts: seq<string>, c: char)
    requires !('A' <= c <= 'Z') && !IsSpace(c) && forall i :: 0 <= i < |parts| ==> Plain(parts[i])
    ensures Plain(Join(parts, c))
    decreases |parts|
  {
    if |parts| > 1 {
      PlainJoin(parts[1..], c);
    }
  }

  /** A dotted quad is decided as the IPv4 address it spells. */
  lemma DottedHost(b: bytes, integer: string -> Option<int>)
    requires |b| == 4
    ensures Rules.Classify(A.Dotted(b), TextParsers(integer)) == Rules.Address4(Number4(b))
  {
    forall i | 0 <= i < 4
      ensures Plain(A.Decimals(b)[i])
    {
      A.DecimalIsNumber(b[i]);
    }
    PlainJoin(A.Decimals(b), '.');
    PlainStays(A.Dotted(b));
    T.DottedIsNumber(b);
  }

  lemma GroupIsPlain(hi: byte, lo: byte)
    ensures Plain(A.Group(hi, lo))
  {
    HexIsPlain(hi / 16);
    HexIsPlain(hi % 16);
    HexIsPlain(lo / 16);
    HexIsPlain(lo % 16);
  }

  lemma HexIsPlain(d: nat)
    requires d < 16
    ensures !('A' <= A.HEX[d] <= 'Z') && !IsSpace(A.HEX[d])
  {
  }

  lemma {:induction false} GroupsArePlain(b: bytes)
    ensures forall i :: 0 <= i < |A.GroupsOf(b)| ==> Plain(A.GroupsOf(b)[i])
    decreases |b|
  {
    if |b| >= 2 {
      GroupIsPlain(b[0], b[1]);
      GroupsArePlain(b[2..]);
    }
  }

  lemma {:induction false} NoColonInBytes(parts: seq<string>)
    requires forall i :: 0 <= i < |parts| ==> T.IsByteText(parts[i])
    ensures ':' !in Join(parts, '.')
    decreases |parts|
  {
    if |parts| > 1 {
      NoColonInBytes(parts[1..]);
    }
  }

  lemma ColonIsNotIpv4(s: string)
    requires ':' in s
    ensures T.Ipv4ToInt(s) == None
  {
    JoinSplit(s, '.');
    if T.Ipv4ToInt(s).Some? {
      NoColonInBytes(Split(s, '.'));
    }
  }

  /** The host text of an IPv6 request is decided as the address of the request. */
  lemma PrintedIpv6Host(b: bytes, integer: string -> Option<int>)
    requires |b| == 16
    ensures Rules.Classify(A.Compress(A.GroupsOf(b)), TextParsers(integer)) == Rules.Address6(Groups6(b))
  {
    A.NeverCompressed(b);
    GroupsArePlain(b);
    PlainJoin(A.GroupsOf(b), ':');
    PlainStays(Join(A.GroupsOf(b), ':'));
    A.GroupsText(b);
    ColonIsNotIpv4(Join(A.GroupsOf(b), ':'));
    T.PrintedGroupsAreRead(b);
  }

  /** So a SOCKS5 request for an address literal is routed by that address: rules and tables see the request's bytes. */
  lemma LiteralRequestIsRouted(s: bytes, u: A.Utf8, integer: string -> Option<int>)
    requires A.ParseAddr(s, u).Some? && s[0] != 3
    ensures var host := A.ParseAddr(s, u).value.host;
            Rules.Classify(host, TextParsers(integer))
            == if s[0] == 1 then Rules.Address4(Number4(s[1..5])) else Rules.Address6(Groups6(s[1..17]))
  {
    if s[0] == 1 {
      DottedHost(s[1..5], integer);
    } else {
      PrintedIpv6Host(s[1..17], integer);
    }
  }
}
