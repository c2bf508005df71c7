/** Building the embedded IPv4 table: reading the list's lines, sorting the rows, and what the lookup makes of it. */
module CidrTables {
  import opened Bytes
  import opened Strings
  import opened Cidr
  import A = Addr
  import JsInt

  /** The number of four octets. */
  function BaseOf(ip: string): JsInt.u32
    requires A.IsDotted(ip)
  {
    var b := A.Octets(Split(ip, '.'));
    var (w: nat, x: nat, y: nat, z: nat) := (b[0], b[1], b[2], b[3]);
    ((w * 256 + x) * 256 + y) * 256 + z
  }

  /** One line of the list; `integer` reads the prefix as `Number` does and turns down what is no integer. */
  function RowOf(line: string, integer: string -> Option<int>): Option<Row4> {
    var trimmed := Trim(line);
    var slash := IndexOf(trimmed, '/', 0);
    if slash < 0 || !A.IsDotted(trimmed[..slash]) then None
    else
      match integer(trimmed[slash + 1..])
      case Some(prefix) => Some(Row4(BaseOf(trimmed[..slash]), prefix))
      case None => None
  }

  /** A dotted quad and a prefix make a row; a line without a slash does not. */
  lemma DottedLineIsRow(b: bytes, text: string, integer: string -> Option<int>)
    requires |b| == 4 && (text != "" ==> !IsSpace(text[|text| - 1]))
    ensures RowOf(A.Dotted(b) + "/" + text, integer) ==
              match integer(text)
              case Some(prefix) => Some(Row4(((b[0] as int * 256 + b[1]) * 256 + b[2]) * 256 + b[3], prefix))
              case None => None
  {
    A.DottedEncodes(b);
    DottedText(b);
    SlashLine(A.Dotted(b), text, integer);
  }

  lemma SlashLine(ip: string, text: string, integer: string -> Option<int>)
    requires A.IsDotted(ip) && ip != "" && A.IsDigit(ip[0]) && '/' !in ip && (text != "" ==> !IsSpace(text[|text| - 1]))
    ensures RowOf(ip + "/" + text, integer) ==
              match integer(text) case Some(prefix) => Some(Row4(BaseOf(ip), prefix)) case None => None
  {
    var line := ip + "/" + text;
    assert Trim(line) == line by {
      assert line[0] == ip[0] && line[|line| - 1] == if text == "" then '/' else text[|text| - 1];
    }
    IndexOfFirst(line, '/', |ip|);
    assert line[..|ip|] == ip && line[|ip| + 1..] == text;
  }

  /** Digits and dots, beginning with a digit. */
  lemma DottedText(b: bytes)
    requires |b| == 4
    ensures var s := A.Dotted(b); s != "" && A.IsDigit(s[0]) && '/' !in s
  {
    forall i | 0 <= i < 4
      ensures A.Decimals(b)[i] != "" && A.AllDigits(A.Decimals(b)[i])
    {
      A.DecimalIsNumber(b[i]);
    }
    DigitsAndDots(A.Decimals(b));
  }

  lemma {:induction false} DigitsAndDots(parts: seq<string>)
    requires parts != [] && forall i :: 0 <= i < |parts| ==> parts[i] != "" && A.AllDigits(parts[i])
    ensures var s := Join(parts, '.'); s != "" && A.IsDigit(s[0]) && '/' !in s
    decreases |parts|
  {
    assert A.AllDigits(parts[0]) && '/' !in parts[0];
    if |parts| > 1 {
      DigitsAndDots(parts[1..]);
    }
  }

  lemma NoSlashNoRow(line: string, integer: string -> Option<int>)
    requires '/' !in Trim(line)
    ensures RowOf(line, integer) == None
  {
  }

  function RowsOf(lines: seq<string>, integer: string -> Option<int>): seq<Row4>
    decreases |lines|
  {
    if lines == [] then []
    else
      (match RowOf(lines[0], integer) case Some(r) => [r] case None => []) + RowsOf(lines[1..], integer)
  }

  // ---- sorting ------------------------------------------------------------------------------

  /** The comparison of the sort: by base, then by prefix. */
  predicate NotAfter(a: Row4, b: Row4) {
    a.base < b.base || (a.base == b.base && a.prefix <= b.prefix)
  }

  predicate Ordered(rows: seq<Row4>) {
    forall i, j :: 0 <= i < j < |rows| ==> NotAfter(rows[i], rows[j])
  }

  function Insert(r: Row4, rows: seq<Row4>): seq<Row4>
    decreases |rows|
  {
    if rows == [] || NotAfter(r, rows[0]) then [r] + rows else [rows[0]] + Insert(r, rows[1..])
  }

  function Sort(rows: seq<Row4>): seq<Row4>
    decreases |rows|
  {
    if rows == [] then [] else Insert(rows[0], Sort(rows[1..]))
  }

  lemma {:induction false} InsertKeeps(r: Row4, rows: seq<Row4>)
    requires Ordered(rows)
    ensures Ordered(Insert(r, rows)) && multiset(Insert(r, rows)) == multiset(rows)[r := multiset(rows)[r] + 1]
    decreases |rows|
  {
    if rows == [] || NotAfter(r, rows[0]) {
      OrderedCons(r, rows);
    } else {
      var rest := rows[1..];
      assert rows == [rows[0]] + rest;
      InsertKeeps(r, rest);
      forall x | x in Insert(r, rest)
        ensures NotAfter(rows[0], x)
      {
        assert x in multiset(Insert(r, rest));
        assert x == r || x in multiset(rest);
      }
      OrderedCons(rows[0], Insert(r, rest));
    }
  }

  lemma OrderedCons(r: Row4, rows: seq<Row4>)
    requires Ordered(rows) && forall x :: x in rows ==> NotAfter(r, x)
    ensures Ordered([r] + rows)
  {
  }

  lemma {:induction false} SortSorts(rows: seq<Row4>)
    ensures Ordered(Sort(rows)) && multiset(Sort(rows)) == multiset(rows)
    decreases |rows|
  {
    if rows != [] {
      assert rows == [rows[0]] + rows[1..];
      SortSorts(rows[1..]);
      InsertKeeps(rows[0], Sort(rows[1..]));
    }
  }

  /** There is only one sorted order of the same rows, so it does not matter how the library sorts. */
  lemma {:induction false} SortIsDetermined(a: seq<Row4>, b: seq<Row4>)
    requires Ordered(a) && Ordered(b) && multiset(a) == multiset(b)
    ensures a == b
    decreases |a|
  {
    if a == [] {
      assert |multiset(b)| == |b|;
    } else {
      FirstIsLeast(a, b);
      WithoutFirst(a);
      WithoutFirst(b);
      SortIsDetermined(a[1..], b[1..]);
      assert a == [a[0]] + a[1..] && b == [b[0]] + b[1..];
    }
  }

  lemma FirstIsLeast(a: seq<Row4>, b: seq<Row4>)
    requires Ordered(a) && Ordered(b) && multiset(a) == multiset(b) && a != []
    ensures b != [] && a[0] == b[0]
  {
    assert a[0] in multiset(b);
    var i :| 0 <= i < |b| && b[i] == a[0];
    assert b[0] in multiset(a);
    var j :| 0 <= j < |a| && a[j] == b[0];
    assert NotAfter(a[0], a[j]) || j == 0;
    assert NotAfter(b[0], b[i]) || i == 0;
  }

  lemma WithoutFirst(a: seq<Row4>)
    requires a != []
    ensures multiset(a[1..]) == multiset(a) - multiset{a[0]}
  {
    assert a == [a[0]] + a[1..];
  }

  // ---- the table --------------------------------------------------------------------------------

  /** Reading line by line, then sorting. */
  method PackCidrs(lines: seq<string>, integer: string -> Option<int>) returns (rows: seq<Row4>)
    ensures Ordered(rows) && multiset(rows) == multiset(RowsOf(lines, integer))
    ensures rows == Sort(RowsOf(lines, integer))
  {
    rows := [];
    assert lines[0..] == lines && lines[|lines|..] == [];
    assert [] + RowsOf(lines, integer) == RowsOf(lines, integer);
    for k := 0 to |lines|
      invariant rows + RowsOf(lines[k..], integer) == RowsOf(lines, integer)
    {
      assert lines[k..][0] == lines[k] && lines[k..][1..] == lines[k + 1..];
      var row := RowOf(lines[k], integer);
      if row.Some? {
        Associate(rows, [row.value], RowsOf(lines[k + 1..], integer));
        rows := rows + [row.value];
      } else {
        assert [] + RowsOf(lines[k + 1..], integer) == RowsOf(lines[k + 1..], integer);
      }
    }
    assert rows + [] == rows;
    SortSorts(rows);
    rows := Sort(rows);
  }

  lemma {:induction false} RowsAreAccepted(lines: seq<string>, integer: string -> Option<int>, r: Row4)
    ensures r in RowsOf(lines, integer) <==> exists k :: 0 <= k < |lines| && RowOf(lines[k], integer) == Some(r)
    decreases |lines|
  {
    if lines != [] {
      RowsAreAccepted(lines[1..], integer, r);
      if k :| 0 <= k < |lines| - 1 && RowOf(lines[1..][k], integer) == Some(r) {
        assert RowOf(lines[k + 1], integer) == Some(r);
      }
      if k :| 0 < k < |lines| && RowOf(lines[k], integer) == Some(r) {
        assert RowOf(lines[1..][k - 1], integer) == Some(r);
      }
    }
  }

  /** Some accepted line's block holds the address. */
  predicate LineHolds(line: string, integer: string -> Option<int>, ip: JsInt.u32) {
    RowOf(line, integer).Some? && InRow(ip, RowOf(line, integer).value)
  }

  predicate LineFinds(line: string, integer: string -> Option<int>, ip: JsInt.u32) {
    LineHolds(line, integer, ip) && RowOf(line, integer).value.base <= ip
  }

  lemma PackedRows(lines: seq<string>, integer: string -> Option<int>, r: Row4)
    ensures r in Sort(RowsOf(lines, integer)) <==> exists k :: 0 <= k < |lines| && RowOf(lines[k], integer) == Some(r)
  {
    var rows := RowsOf(lines, integer);
    SortSorts(rows);
    RowsAreAccepted(lines, integer, r);
    assert r in Sort(rows) <==> r in multiset(Sort(rows));
    assert r in rows <==> r in multiset(rows);
  }

  /** In the table built from any list, an address is found exactly when the block of an accepted line that starts at or
      below it holds it; so every line that writes its network address finds its whole block. */
  lemma BuildThenLookup(lines: seq<string>, integer: string -> Option<int>, ip: JsInt.u32)
    ensures FoundEarly(ip, Sort(RowsOf(lines, integer))) <==> exists k :: 0 <= k < |lines| && LineFinds(lines[k], integer, ip)
  {
    if FoundEarly(ip, Sort(RowsOf(lines, integer))) {
      FoundHasLine(lines, integer, ip);
    }
    forall k | 0 <= k < |lines| && LineFinds(lines[k], integer, ip)
      ensures FoundEarly(ip, Sort(RowsOf(lines, integer)))
    {
      LineIsFound(lines, integer, ip, k);
    }
  }

  lemma TableIsSorted(lines: seq<string>, integer: string -> Option<int>)
    ensures SortedRows(Sort(RowsOf(lines, integer)))
  {
    SortSorts(RowsOf(lines, integer));
    OrderedIsSorted(Sort(RowsOf(lines, integer)));
  }

  lemma OrderedIsSorted(rows: seq<Row4>)
    requires Ordered(rows)
    ensures SortedRows(rows)
  {
    forall i, j | 0 <= i < j < |rows|
      ensures rows[i].base <= rows[j].base
    {
      assert NotAfter(rows[i], rows[j]);
    }
  }

  lemma FoundHasLine(lines: seq<string>, integer: string -> Option<int>, ip: JsInt.u32)
    requires FoundEarly(ip, Sort(RowsOf(lines, integer)))
    ensures exists k :: 0 <= k < |lines| && LineFinds(lines[k], integer, ip)
  {
    var rows := Sort(RowsOf(lines, integer));
    var i :| 0 <= i < |rows| && InRow(ip, rows[i]) && forall j :: 0 <= j <= i ==> rows[j].base <= ip;
    RowHasLine(lines, integer, ip, rows[i]);
  }

  lemma RowHasLine(lines: seq<string>, integer: string -> Option<int>, ip: JsInt.u32, r: Row4)
    requires r in Sort(RowsOf(lines, integer)) && InRow(ip, r) && r.base <= ip
    ensures exists k :: 0 <= k < |lines| && LineFinds(lines[k], integer, ip)
  {
    PackedRows(lines, integer, r);
    var k :| 0 <= k < |lines| && RowOf(lines[k], integer) == Some(r);
    assert LineFinds(lines[k], integer, ip);
  }

  lemma LineIsFound(lines: seq<string>, integer: string -> Option<int>, ip: JsInt.u32, k: nat)
    requires k < |lines| && LineFinds(lines[k], integer, ip)
    ensures FoundEarly(ip, Sort(RowsOf(lines, integer)))
  {
    var r := RowOf(lines[k], integer).value;
    TableIsSorted(lines, integer);
    PackedRows(lines, integer, r);
    RowIsFound(Sort(RowsOf(lines, integer)), ip, r);
  }

  lemma RowIsFound(rows: seq<Row4>, ip: JsInt.u32, r: Row4)
    requires SortedRows(rows) && r in rows && InRow(ip, r) && r.base <= ip
    ensures FoundEarly(ip, rows)
  {
    var i :| 0 <= i < |rows| && rows[i] == r;
    assert InRow(ip, rows[i]) && rows[i].base <= ip;
    SortedLookupIff(ip, rows);
  }

  /** The whole path from the list's text to the answer. */
  method LookupInList(lines: seq<string>, integer: string -> Option<int>, ip: JsInt.u32) returns (found: bool)
    ensures found <==> exists k :: 0 <= k < |lines| && LineFinds(lines[k], integer, ip)
    ensures (forall k :: 0 <= k < |lines| && RowOf(lines[k], integer).Some? ==> Normalised(RowOf(lines[k], integer).value))
            ==> (found <==> exists k :: 0 <= k < |lines| && LineHolds(lines[k], integer, ip))
  {
    var rows := PackCidrs(lines, integer);
    found := InCnCidr4(rows, ip);
    BuildThenLookup(lines, integer, ip);
    forall k | 0 <= k < |lines| && LineHolds(lines[k], integer, ip) && Normalised(RowOf(lines[k], integer).value)
      ensures LineFinds(lines[k], integer, ip)
    {
      NormalisedBaseIsLeast(ip, RowOf(lines[k], integer).value);
    }
  }
}
