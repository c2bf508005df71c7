/** Reading address literals: dotted quads of decimal parts, and IPv6 text with or without a double colon. */
module AddressText {
  import opened Bytes
  import opened Strings
  import A = Addr

  // ---- IPv4 ------------------------------------------------------------------------------

  /** A part of decimal digits that fits a byte. */
  predicate IsByteText(part: string) {
    part != "" && A.AllDigits(part) && A.Number(part) <= 255
  }

  /** `ipv4ToInt` on parts of decimal digits. */
  function Ipv4ToInt(ip: string): (r: Option<nat>)
    ensures r.Some? ==> r.value < 0x1_0000_0000
  {
    var parts := Split(ip, '.');
    if |parts| == 4 && forall i :: 0 <= i < 4 ==> IsByteText(parts[i]) then
      Some(((A.Number(parts[0]) * 256 + A.Number(parts[1])) * 256 + A.Number(parts[2])) * 256 + A.Number(parts[3]))
    else None
  }

  /** The text of four bytes is read as the number those bytes make. */
  lemma DottedIsNumber(b: bytes)
    requires |b| == 4
    ensures Ipv4ToInt(A.Dotted(b)) == Some(FromBigEndian(b))
  {
    A.DottedIsDotted(b);
    forall i | 0 <= i < 4
      ensures IsByteText(A.Decimals(b)[i]) && A.Number(A.Decimals(b)[i]) == b[i]
    {
      A.DecimalIsNumber(b[i]);
    }
    FourBytes(b);
  }

  lemma FourBytes(b: bytes)
    requires |b| == 4
    ensures var (x: nat, y: nat, z: nat) := (b[0], b[1], b[2]); FromBigEndian(b) == ((x * 256 + y) * 256 + z) * 256 + b[3]
  {
    assert b[..3][..2] == b[..2] && b[..2][..1] == b[..1] && b[..1][..0] == [];
    var (x: nat, y: nat, z: nat) := (b[0], b[1], b[2]);
    assert FromBigEndian(b[..1]) == x;
    assert FromBigEndian(b[..2]) == x * 256 + y;
    assert FromBigEndian(b[..3]) == (x * 256 + y) * 256 + z;
  }

  // ---- IPv6 ------------------------------------------------------------------------------

  /** `parseInt(part, 16)`; None where it answers NaN. */
  function ReadHex(part: string): Option<nat> {
    if part == "" || A.HexValue(part[0]).None? then None else Some(A.ParseHex(part, 0))
  }

  /** The numbers of all parts; None when one of them is none. */
  function ReadAll(parts: seq<string>): (r: Option<seq<nat>>)
    ensures r.Some? ==> |r.value| == |parts|
    decreases |parts|
  {
    if parts == [] then Some([])
    else
      match (ReadHex(parts[0]), ReadAll(parts[1..]))
      case (Some(v), Some(rest)) => Some([v] + rest)
      case _ => None
  }

  /** `text.length > 0 ? text.split(":").map(…) : []` */
  function ReadSide(text: string): Option<seq<nat>> {
    if text == "" then Some([]) else ReadAll(Split(text, ':'))
  }

  /** `s.indexOf("::", from)` */
  function FindDouble(s: string, from: nat): (i: int)
    ensures i == -1 || (from <= i && At(s, i, "::"))
    ensures forall j: nat :: from <= j && (i == -1 || j < i) ==> !At(s, j, "::")
    decreases |s| - from
  {
    if from >= |s| then -1 else if At(s, from, "::") then from else FindDouble(s, from + 1)
  }

  function Zeros(n: nat): (r: seq<nat>)
    ensures |r| == n
  {
    seq(n, _ => 0)
  }

  /** `split("::")[1]`: a second double colon and what follows it are not looked at. */
  function UpToDouble(s: string): string {
    if FindDouble(s, 0) == -1 then s else s[..FindDouble(s, 0)]
  }

  /** The groups before and behind a double colon, and the zeros between them. */
  function ReadShort(left: string, right: string): (r: Option<seq<nat>>)
    ensures r.Some? ==> |r.value| == 8
  {
    match (ReadSide(left), ReadSide(right))
    case (Some(l), Some(r)) => if |l| + |r| > 7 then None else Some(l + Zeros(8 - |l| - |r|) + r)
    case _ => None
  }

  function Ipv6ToGroups(ip: string): (r: Option<seq<nat>>)
    ensures r.Some? ==> |r.value| == 8
  {
    var d := FindDouble(ip, 0);
    if d != -1 then ReadShort(ip[..d], UpToDouble(ip[d + 2..]))
    else if |Split(ip, ':')| != 8 then None
    else ReadAll(Split(ip, ':'))
  }

  /** Texts of hexadecimal numbers that begin with a digit and hold no colon. */
  predicate Spell(parts: seq<string>, values: seq<nat>) {
    |parts| == |values|
    && forall i :: 0 <= i < |parts| ==> ReadHex(parts[i]) == Some(values[i]) && ':' !in parts[i]
  }

  lemma {:induction false} SpelledAreRead(parts: seq<string>, values: seq<nat>)
    requires Spell(parts, values)
    ensures ReadAll(parts) == Some(values)
    decreases |parts|
  {
    if parts != [] {
      SpelledAreRead(parts[1..], values[1..]);
      assert [values[0]] + values[1..] == values;
    }
  }

  lemma TwoColons(s: string, i: nat)
    ensures At(s, i, "::") <==> i + 1 < |s| && s[i] == ':' && s[i + 1] == ':'
  {
    if i + 2 <= |s| {
      assert s[i..i + 2] == [s[i], s[i + 1]];
    }
  }

  /** Joined parts are read back, and hold no double colon at either end or in between. */
  lemma {:induction false} JoinedText(parts: seq<string>, values: seq<nat>)
    requires Spell(parts, values) && parts != []
    ensures var s := Join(parts, ':'); s != "" && s[0] != ':' && s[|s| - 1] != ':' && forall i: nat :: !At(s, i, "::")
    decreases |parts|
  {
    var s, head := Join(parts, ':'), parts[0];
    if |parts| > 1 {
      JoinedText(parts[1..], values[1..]);
      var rest := Join(parts[1..], ':');
      assert s == head + [':'] + rest;
      forall i: nat
        ensures !At(s, i, "::")
      {
        TwoColons(s, i);
        if i > |head| {
          TwoColons(rest, i - |head| - 1);
        }
      }
    } else {
      forall i: nat
        ensures !At(s, i, "::")
      {
        TwoColons(s, i);
      }
    }
  }

  lemma SideIsRead(parts: seq<string>, values: seq<nat>)
    requires Spell(parts, values)
    ensures ReadSide(Join(parts, ':')) == Some(values)
    ensures FindDouble(Join(parts, ':'), 0) == -1
  {
    if parts != [] {
      JoinedText(parts, values);
      SplitJoin(parts, ':');
      SpelledAreRead(parts, values);
    }
  }

  /** Eight groups without a double colon. */
  lemma FullTextIsRead(parts: seq<string>, values: seq<nat>)
    requires Spell(parts, values) && |parts| == 8
    ensures Ipv6ToGroups(Join(parts, ':')) == Some(values)
  {
    SideIsRead(parts, values);
    JoinedText(parts, values);
    SplitJoin(parts, ':');
  }

  /** The double colon behind a joined text is its first one. */
  lemma DoubleBehind(front: string, back: string)
    requires FindDouble(front, 0) == -1 && (front != "" ==> front[|front| - 1] != ':')
    ensures FindDouble(front + "::" + back, 0) == |front|
  {
    var s := front + "::" + back;
    assert At(s, |front|, "::");
    forall i: nat | i < |front|
      ensures !At(s, i, "::")
    {
      TwoColons(s, i);
      TwoColons(front, i);
    }
  }

  /** A text that can stand on one side of a double colon, and the groups it is read as. */
  predicate Readable(text: string, groups: seq<nat>) {
    ReadSide(text) == Some(groups) && FindDouble(text, 0) == -1 && (text != "" ==> text[|text| - 1] != ':')
  }

  lemma JoinedIsReadable(parts: seq<string>, values: seq<nat>)
    requires Spell(parts, values)
    ensures Readable(Join(parts, ':'), values)
  {
    SideIsRead(parts, values);
    if parts != [] {
      JoinedText(parts, values);
    }
  }

  lemma SplitsAtDouble(front: string, back: string)
    requires FindDouble(front, 0) == -1 && FindDouble(back, 0) == -1 && (front != "" ==> front[|front| - 1] != ':')
    ensures Ipv6ToGroups(front + "::" + back) == ReadShort(front, back)
  {
    var s := front + "::" + back;
    DoubleBehind(front, back);
    assert s[..|front|] == front && s[|front| + 2..] == back;
  }

  /** A double colon stands for as many zero groups as are missing, wherever it is put. */
  lemma ShortTextIsRead(front: string, back: string, l: seq<nat>, r: seq<nat>)
    requires Readable(front, l) && Readable(back, r) && |l| + |r| <= 7
    ensures Ipv6ToGroups(front + "::" + back) == Some(l + Zeros(8 - |l| - |r|) + r)
  {
    SplitsAtDouble(front, back);
    ShortIsRead(front, back, l, r);
  }

  lemma ShortIsRead(front: string, back: string, l: seq<nat>, r: seq<nat>)
    requires ReadSide(front) == Some(l) && ReadSide(back) == Some(r) && |l| + |r| <= 7
    ensures ReadShort(front, back) == Some(l + Zeros(8 - |l| - |r|) + r)
  {
  }

  /** Where no group is missing, a double colon makes the text unreadable. */
  lemma FullTextWithDouble(front: string, back: string, l: seq<nat>, r: seq<nat>)
    requires Readable(front, l) && Readable(back, r) && |l| + |r| >= 8
    ensures Ipv6ToGroups(front + "::" + back) == None
  {
    SplitsAtDouble(front, back);
  }

  /** What stands behind a second double colon is not looked at. */
  lemma SecondDouble(front: string, back: string, more: string, l: seq<nat>, r: seq<nat>)
    requires Readable(front, l) && Readable(back, r)
    ensures Ipv6ToGroups(front + "::" + (back + "::" + more)) == Ipv6ToGroups(front + "::" + back)
  {
    var behind := back + "::" + more;
    SplitsAtDouble(front, back);
    DoubleBehind(front, behind);
    DoubleBehind(back, more);
    var s := front + "::" + behind;
    assert s[..|front|] == front && s[|front| + 2..] == behind && behind[..|back|] == back;
  }

  /** So a double colon in place of any run of zero groups spells the same address. */
  lemma ShorteningKeepsAddress(front: string, back: string, values: seq<nat>, i: nat, j: nat)
    requires |values| == 8 && i < j <= 8 && forall k :: i <= k < j ==> values[k] == 0
    requires Readable(front, values[..i]) && Readable(back, values[j..])
    ensures Ipv6ToGroups(front + "::" + back) == Some(values)
  {
    ZerosBetween(values, i, j);
    ShortTextIsRead(front, back, values[..i], values[j..]);
  }

  /** Any full text may be shortened: a double colon in place of the parts of a zero run is read as the same address. */
  lemma ShortenedText(parts: seq<string>, values: seq<nat>, i: nat, j: nat)
    requires Spell(parts, values) && |parts| == 8 && i < j <= 8 && forall k :: i <= k < j ==> values[k] == 0
    ensures Ipv6ToGroups(Join(parts[..i], ':') + "::" + Join(parts[j..], ':')) == Ipv6ToGroups(Join(parts, ':'))
  {
    FullTextIsRead(parts, values);
    JoinedIsReadable(parts[..i], values[..i]);
    JoinedIsReadable(parts[j..], values[j..]);
    ShorteningKeepsAddress(Join(parts[..i], ':'), Join(parts[j..], ':'), values, i, j);
  }

  lemma ZerosBetween(values: seq<nat>, i: nat, j: nat)
    requires |values| == 8 && i < j <= 8 && forall k :: i <= k < j ==> values[k] == 0
    ensures values[..i] + Zeros(8 - |values[..i]| - |values[j..]|) + values[j..] == values
  {
  }

  /** The 16-bit words of a byte string. */
  function Words(b: bytes): seq<nat>
    decreases |b|
  {
    if |b| < 2 then [] else [FromU16(b[0], b[1])] + Words(b[2..])
  }

  lemma GroupSpells(hi: byte, lo: byte)
    ensures ReadHex(A.Group(hi, lo)) == Some(FromU16(hi, lo)) && ':' !in A.Group(hi, lo)
  {
    A.GroupReadsBack(hi, lo);
    A.GroupChars(hi, lo);
    A.HexDigit(hi / 16);
  }

  lemma {:induction false} GroupsSpell(b: bytes)
    ensures Spell(A.GroupsOf(b), Words(b)) && |Words(b)| == |b| / 2
    decreases |b|
  {
    if |b| >= 2 {
      GroupSpells(b[0], b[1]);
      GroupsSpell(b[2..]);
    }
  }

  /** The host text the SOCKS5 reader makes of an IPv6 address is read by the routing as that address. */
  lemma PrintedGroupsAreRead(b: bytes)
    requires |b| == 16
    ensures Ipv6ToGroups(A.Compress(A.GroupsOf(b))) == Some(Words(b))
  {
    A.NeverCompressed(b);
    GroupsSpell(b);
    FullTextIsRead(A.GroupsOf(b), Words(b));
  }
}
