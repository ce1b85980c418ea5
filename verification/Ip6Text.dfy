/**
 IPv6 addresses as text: the printer, which leaves out the first longest run of zero groups (section
 4.2 of RFC 5952), and the parser.  An address is its eight 16-bit groups.
*/
module Ip6Text {
  import opened Basics

  type Group = x: int | 0 <= x < 0x1_0000

  type Address = s: seq<Group> | |s| == 8 witness [0, 0, 0, 0, 0, 0, 0, 0]

  // ---------------------------------------------------------------------------------------------
  // Hexadecimal numbers
  // ---------------------------------------------------------------------------------------------

  function Digit(v: nat): char
    requires v < 16
  {
    if v < 10 then '0' + v as char else 'a' + (v - 10) as char
  }

  /** The digits are those of %x: lower case. */
  lemma DigitsAre(v: nat)
    requires v < 16
    ensures Digit(v) == "0123456789abcdef"[v]
  {
  }

  /** No zero stands in front. */
  lemma {:induction false} NoLeadingZero(v: nat)
    requires 0 < v
    ensures Hex(v)[0] != '0'
  {
    if 16 <= v {
      NoLeadingZero(v / 16);
      assert Hex(v)[0] == Hex(v / 16)[0];
    }
  }

  predicate IsHex(c: char) { 'A' <= c <= 'F' || 'a' <= c <= 'f' || '0' <= c <= '9' }

  function DigitValue(c: char): (v: nat)
    requires IsHex(c)
    ensures v < 16
  {
    if c <= '9' then c as int - '0' as int
    else if c <= 'F' then 10 + (c as int - 'A' as int) else 10 + (c as int - 'a' as int)
  }

  predicate AllHex(s: string) { forall i :: 0 <= i < |s| ==> IsHex(s[i]) }

  /** sprintf with %x */
  function Hex(v: nat): (s: string)
    ensures s != []
  {
    if v < 16 then [Digit(v)] else Hex(v / 16) + [Digit(v % 16)]
  }

  /** hex(): the value of a run of digits. */
  function HexValue(s: string): nat
    requires AllHex(s)
  {
    if s == [] then 0 else HexValue(s[..|s| - 1]) * 16 + DigitValue(s[|s| - 1])
  }

  lemma DigitRoundTrip(v: nat)
    requires v < 16
    ensures IsHex(Digit(v)) && DigitValue(Digit(v)) == v && Digit(v) != ':'
  {
  }

  lemma {:induction false} HexRoundTrip(v: nat)
    ensures AllHex(Hex(v)) && HexValue(Hex(v)) == v && ':' !in Hex(v)
  {
    if v < 16 {
      DigitRoundTrip(v);
      assert Hex(v)[..0] == [];
    } else {
      HexRoundTrip(v / 16);
      DigitRoundTrip(v % 16);
      assert Hex(v)[..|Hex(v)| - 1] == Hex(v / 16);
    }
  }

  lemma HexLength(v: Group)
    ensures |Hex(v)| <= 4
  {
    assert v >= 16 ==> Hex(v) == Hex(v / 16) + [Digit(v % 16)];
    assert v / 16 >= 16 ==> Hex(v / 16) == Hex(v / 16 / 16) + [Digit(v / 16 % 16)];
    assert v / 16 / 16 >= 16 ==> Hex(v / 16 / 16) == Hex(v / 16 / 16 / 16) + [Digit(v / 16 / 16 % 16)];
  }

  // ---------------------------------------------------------------------------------------------
  // The run of zeros that is left out
  // ---------------------------------------------------------------------------------------------

  /** Zero groups from a up to, but without, b. */
  predicate ZeroRun(g: Address, a: nat, b: nat) {
    a < b <= 8 && forall i :: a <= i < b ==> g[i] == 0
  }

  /** start and len are the first longest run of at least two zero groups among the runs that begin
      before n; start is 255 when there is none. */
  ghost predicate BestRun(g: Address, n: nat, start: nat, len: nat) {
    && (start == 255 ==> len == 1)
    && (start != 255 ==> start < n && 2 <= len && ZeroRun(g, start, start + len))
    && (forall a: nat, b: nat {:trigger ZeroRun(g, a, b)} ::
          a < n && ZeroRun(g, a, b) ==> b - a <= len && (b - a == len && len > 1 ==> start <= a))
  }

  /** A run that is ended by a nonzero group or the end decides for all runs that begin inside it. */
  lemma RunDecides(g: Address, n0: nat, n: nat, start: nat, len: nat, start': nat, len': nat)
    requires BestRun(g, n0, start, len) && ZeroRun(g, n0, n) && (n < 8 ==> g[n] != 0)
    requires if n - n0 > len then start' == n0 && len' == n - n0 else start' == start && len' == len
    ensures BestRun(g, n, start', len')
  {
    forall a: nat, b: nat | a < n && ZeroRun(g, a, b)
      ensures b - a <= len' && (b - a == len' && len' > 1 ==> start' <= a)
    {
      if n0 <= a {
        RunEnds(g, n, a, b);
      }
    }
  }

  lemma RunEnds(g: Address, n: nat, a: nat, b: nat)
    requires n <= 8 && (n < 8 ==> g[n] != 0) && a < n && ZeroRun(g, a, b)
    ensures b <= n
  {
  }

  lemma SkipNonzero(g: Address, n: nat, start: nat, len: nat)
    requires n < 8 && g[n] != 0 && BestRun(g, n, start, len)
    ensures BestRun(g, n + 1, start, len)
  {
  }

  /** The scan: an outer loop for the start of a run, an inner one for its end. */
  method FindRun(g: Address) returns (start: nat, len: nat)
    ensures BestRun(g, 8, start, len)
  {
    start, len := 255, 1;
    var n := 0;
    while n < 8
      invariant n <= 8 && BestRun(g, n, start, len)
    {
      if g[n] == 0 {
        var n0 := n;
        n := EndOfRun(g, n0);
        ghost var start0, len0 := start, len;
        if n - n0 > len {
          start, len := n0, n - n0;
        }
        RunDecides(g, n0, n, start0, len0, start, len);
      }
      if n < 8 {
        SkipNonzero(g, n, start, len);
        n := n + 1;
      }
    }
  }

  method EndOfRun(g: Address, n0: nat) returns (n: nat)
    requires n0 < 8 && g[n0] == 0
    ensures ZeroRun(g, n0, n) && (n < 8 ==> g[n] != 0)
  {
    n := n0 + 1;
    while n < 8 && g[n] == 0
      invariant ZeroRun(g, n0, n)
    {
      n := n + 1;
    }
  }

  // ---------------------------------------------------------------------------------------------
  // Printing
  // ---------------------------------------------------------------------------------------------

  /** The text from group n on, with the groups from start to start + len left out. */
  function PrintFrom(g: Address, start: nat, len: nat, n: nat): string
    requires n <= 8 && 0 < len && (start < 8 ==> start + len <= 8)
    decreases 8 - n
  {
    if n == 8 then ""
    else if n == start then (if n == 0 then "::" else ":") + PrintFrom(g, start, len, n + len)
    else Hex(g[n]) + (if n < 7 then ":" else "") + PrintFrom(g, start, len, n + 1)
  }

  /** Groups with a colon between each two. */
  function Joined(g: seq<Group>): string {
    if g == [] then "" else if |g| == 1 then Hex(g[0]) else Hex(g[0]) + ":" + Joined(g[1..])
  }

  lemma {:induction false} PrintedFrom(g: Address, start: nat, len: nat, n: nat)
    requires n <= 8 && 0 < len && (start < n || 8 <= start) && (start < 8 ==> start + len <= 8)
    ensures PrintFrom(g, start, len, n) == Joined(g[n..])
    decreases 8 - n
  {
    if n < 8 {
      PrintedFrom(g, start, len, n + 1);
      assert g[n..][1..] == g[n + 1..];
      assert n == 7 ==> Hex(g[n]) + "" + "" == Hex(g[n]);
    }
  }

  lemma {:induction false} PrintedBefore(g: Address, start: nat, len: nat, n: nat)
    requires n < start < 8 && 0 < len && start + len <= 8
    ensures PrintFrom(g, start, len, n) == Joined(g[n..start]) + "::" + Joined(g[start + len..])
    decreases start - n
  {
    assert g[n..start][1..] == g[n + 1..start];
    if n + 1 == start {
      PrintedFrom(g, start, len, start + len);
      assert PrintFrom(g, start, len, start) == ":" + Joined(g[start + len..]);
      Regroup(Hex(g[n]), Joined(g[start + len..]));
    } else {
      PrintedBefore(g, start, len, n + 1);
      JoinedOn(Hex(g[n]), Joined(g[n + 1..start]), Joined(g[start + len..]));
    }
  }

  lemma Regroup(h: string, rest: string)
    ensures h + ":" + (":" + rest) == h + "::" + rest
  {
  }

  lemma JoinedOn(h: string, a: string, b: string)
    ensures h + ":" + (a + "::" + b) == (h + ":" + a) + "::" + b
  {
  }

  /** The text is all groups with colons between them, or the groups on both sides of the run with two colons for
      the run. */
  lemma PrintedLayout(g: Address, start: nat, len: nat)
    requires 0 < len && (start < 8 ==> start + len <= 8)
    ensures PrintFrom(g, start, len, 0) ==
            if start < 8 then Joined(g[..start]) + "::" + Joined(g[start + len..]) else Joined(g)
  {
    if 8 <= start {
      PrintedFrom(g, start, len, 0);
      assert g[0..] == g;
    } else if start == 0 {
      PrintedFrom(g, start, len, len);
      assert Joined(g[..0]) == "";
      assert "" + "::" == "::";
    } else {
      PrintedBefore(g, start, len, 0);
      assert g[0..start] == g[..start];
    }
  }

  /** ip6tos */
  method Print(g: Address) returns (s: string)
    ensures exists start: nat, len: nat :: BestRun(g, 8, start, len) && s == PrintFrom(g, start, len, 0)
    ensures |s| <= 39
  {
    var start, len := FindRun(g);
    s := "";
    var n: nat := 0;
    while n < 8
      invariant n <= 8 && s + PrintFrom(g, start, len, n) == PrintFrom(g, start, len, 0)
      decreases 8 - n
    {
      if n == start {
        AppendTwice(s, if n == 0 then "::" else ":", PrintFrom(g, start, len, n + len));
        s := s + if n == 0 then "::" else ":";
        n := n + len;
      } else {
        AppendTwice(s, Hex(g[n]) + if n < 7 then ":" else "", PrintFrom(g, start, len, n + 1));
        s := s + (Hex(g[n]) + if n < 7 then ":" else "");
        n := n + 1;
      }
    }
    assert s + "" == s;
    PrintLength(g, start, len, 0);
  }

  lemma {:induction false} PrintLength(g: Address, start: nat, len: nat, n: nat)
    requires n <= 8 && 0 < len && (start < 8 ==> start + len <= 8 && 2 <= len)
    ensures |PrintFrom(g, start, len, n)| <= (if n == 8 then 0 else 5 * (8 - n) - 1)
    decreases 8 - n
  {
    if n < 8 {
      if n == start {
        PrintLength(g, start, len, n + len);
      } else {
        HexLength(g[n]);
        PrintLength(g, start, len, n + 1);
      }
    }
  }

  // ---------------------------------------------------------------------------------------------
  // Parsing
  // ---------------------------------------------------------------------------------------------

  /** The fields read so far, and the number of fields before "::", or -1. */
  datatype Fields = Fields(list: seq<Group>, gap: int)

  /** The length of the text before the first colon. */
  function UpToColon(s: string): (n: nat)
    ensures n <= |s| && ':' !in s[..n] && (n < |s| ==> s[n] == ':')
  {
    if s == [] || s[0] == ':' then 0
    else
      var n := UpToColon(s[1..]);
      assert s[..n + 1] == [s[0]] + s[1..][..n];
      n + 1
  }

  lemma FirstColon(s: string, n: nat)
    requires n <= |s| && ':' !in s[..n] && (n < |s| ==> s[n] == ':')
    ensures UpToColon(s) == n
  {
  }

  function Sixteens(n: nat): nat { if n == 0 then 1 else 16 * Sixteens(n - 1) }

  lemma {:induction false} DigitsBelow(s: string, n: nat)
    requires AllHex(s) && |s| <= n
    ensures HexValue(s) < Sixteens(n)
  {
    if s == [] {
      SixteensPositive(n);
    } else {
      DigitsBelow(s[..|s| - 1], n - 1);
    }
  }

  lemma {:induction false} SixteensPositive(n: nat)
    ensures 0 < Sixteens(n)
  {
    if n != 0 {
      SixteensPositive(n - 1);
    }
  }

  lemma FourDigits(s: string)
    requires AllHex(s) && |s| <= 4
    ensures HexValue(s) < 0x1_0000
  {
    DigitsBelow(s, 4);
    assert Sixteens(1) == 16 && Sixteens(2) == 256 && Sixteens(3) == 4096 && Sixteens(4) == 0x1_0000;
  }

  /** One field in front of s: its value and the text behind it; None when it is not a field. */
  function Field(s: string): Option<Group> {
    var token := s[..UpToColon(s)];
    if AllHex(token) && |token| <= 4 then FourDigits(token); Some(HexValue(token)) else None
  }

  function With(f: Fields, v: Group): Fields { f.(list := f.list + [v]) }

  /** What the colons behind a field that ends at q say: whether to go on, with what, and where. */
  function Onward(s: string, q: nat, f: Fields, v: Group): (r: (bool, Fields, nat))
    requires q <= |s|
    ensures q <= r.2 <= |s| && |r.1.list| == |f.list| + 1 && (q < |s| ==> q < r.2)
  {
    var more := With(f, v);
    if q == |s| then (true, more, q)
    else if q + 1 < |s| && s[q + 1] == ':' then (f.gap == -1, more.(gap := |more.list|), q + 2)
    else (true, more, q + 1)
  }

  function Parse(s: string, f: Fields): Option<Fields>
    decreases |s|
  {
    if s == [] then Some(f)
    else if Field(s) == None || |f.list| == 8 then None
    else
      var (ok, g, next) := Onward(s, UpToColon(s), f, Field(s).value);
      if ok then Parse(s[next..], g) else None
  }

  function Zeros(n: nat): (z: seq<Group>)
    ensures |z| == n
  {
    seq(n, _ => 0)
  }

  /** Zeros go in at the gap; without a gap there must be eight fields. */
  function Complete(f: Fields): Option<Address> {
    if 0 <= f.gap <= |f.list| <= 8 then Some(f.list[..f.gap] + Zeros(8 - |f.list|) + f.list[f.gap..])
    else if |f.list| == 8 then Some(f.list)
    else None
  }

  /** stoip6 */
  function ParseAddress(s: string): Option<Address> {
    if |s| > 39 then None
    else
      var f := Parse(s, Fields([], -1));
      if f == None then None else Complete(f.value)
  }

  // ---------------------------------------------------------------------------------------------
  // Round trip
  // ---------------------------------------------------------------------------------------------

  lemma FieldOf(v: Group, rest: string)
    requires rest == "" || rest[0] == ':'
    ensures UpToColon(Hex(v) + rest) == |Hex(v)| && Field(Hex(v) + rest) == Some(v)
  {
    HexRoundTrip(v);
    HexLength(v);
    var s := Hex(v) + rest;
    assert s[..|Hex(v)|] == Hex(v);
    FirstColon(s, |Hex(v)|);
  }

  /** A printed group does not start with a colon. */
  lemma StartsWithDigit(g: Address, start: nat, len: nat, n: nat)
    requires n < 8 && n != start && 0 < len && (start < 8 ==> start + len <= 8)
    ensures var s := PrintFrom(g, start, len, n); s != [] && s[0] != ':'
  {
    HexRoundTrip(g[n]);
    assert PrintFrom(g, start, len, n)[0] == Hex(g[n])[0];
  }

  lemma ParseLast(v: Group, f: Fields)
    requires |f.list| < 8
    ensures Parse(Hex(v), f) == Some(With(f, v))
  {
    FieldOf(v, "");
    assert Hex(v) + "" == Hex(v);
  }

  lemma ParseColon(v: Group, rest: string, f: Fields)
    requires |f.list| < 8 && (rest == "" || rest[0] != ':')
    ensures Parse(Hex(v) + ":" + rest, f) == Parse(rest, With(f, v))
  {
    FieldOf(v, ":" + rest);
    FieldThenColon(Hex(v), v, rest, f, Hex(v) + ":" + rest);
  }

  lemma FieldThenColon(t: string, v: Group, rest: string, f: Fields, s: string)
    requires |f.list| < 8 && (rest == "" || rest[0] != ':') && s == t + ":" + rest
    requires UpToColon(t + (":" + rest)) == |t| && Field(t + (":" + rest)) == Some(v)
    ensures Parse(s, f) == Parse(rest, With(f, v))
  {
    assert s == t + (":" + rest);
    OneColon(t, rest, f, v);
  }

  lemma OneColon(t: string, rest: string, f: Fields, v: Group)
    requires rest == "" || rest[0] != ':'
    ensures var s := t + ":" + rest;
            Onward(s, |t|, f, v) == (true, With(f, v), |t| + 1) && s[|t| + 1..] == rest
  {
    var s := t + ":" + rest;
    assert rest != "" ==> s[|t| + 1] == rest[0];
  }

  lemma ParseGap(v: Group, rest: string, f: Fields)
    requires |f.list| < 8 && f.gap == -1
    ensures Parse(Hex(v) + "::" + rest, f) == Parse(rest, With(f, v).(gap := |f.list| + 1))
  {
    FieldOf(v, "::" + rest);
    FieldThenGap(Hex(v), v, rest, f, Hex(v) + "::" + rest);
  }

  lemma FieldThenGap(t: string, v: Group, rest: string, f: Fields, s: string)
    requires |f.list| < 8 && f.gap == -1 && s == t + "::" + rest
    requires UpToColon(t + ("::" + rest)) == |t| && Field(t + ("::" + rest)) == Some(v)
    ensures Parse(s, f) == Parse(rest, With(f, v).(gap := |f.list| + 1))
  {
    assert s == t + ("::" + rest);
    assert s[|t|] == ':' && s[|t| + 1] == ':' && s[|t| + 2..] == rest;
  }

  /** A gap at the front is read as an empty first field, which counts as zero. */
  lemma ParseLeadingGap(rest: string)
    ensures Parse("::" + rest, Fields([], -1)) == Parse(rest, Fields([0], 1))
  {
    var s := "::" + rest;
    assert UpToColon(s) == 0 && s[..0] == [] && s[2..] == rest;
    assert Field(s) == Some(0);
    assert [] + [0] == [0];
  }

  ghost predicate Printable(start: nat, len: nat, n: nat) {
    n <= 8 && 0 < len && (start < 8 ==> start + len <= 8)
  }

  lemma PrintGroup(g: Address, start: nat, len: nat, n: nat)
    requires Printable(start, len, n) && n < 7 && n != start
    ensures PrintFrom(g, start, len, n) == Hex(g[n]) + ":" + PrintFrom(g, start, len, n + 1)
  {
  }

  lemma PrintLast(g: Address, start: nat, len: nat)
    requires Printable(start, len, 7) && start != 7
    ensures PrintFrom(g, start, len, 7) == Hex(g[7])
  {
    assert Hex(g[7]) + "" + "" == Hex(g[7]);
  }

  /** A group with another one behind it. */
  lemma ParseOne(g: Address, start: nat, len: nat, n: nat, f: Fields)
    requires Printable(start, len, n) && n < 7 && n != start && n + 1 != start && |f.list| < 8
    ensures Parse(PrintFrom(g, start, len, n), f) == Parse(PrintFrom(g, start, len, n + 1), With(f, g[n]))
  {
    PrintGroup(g, start, len, n);
    StartsWithDigit(g, start, len, n + 1);
    ParseColon(g[n], PrintFrom(g, start, len, n + 1), f);
  }

  lemma MoveOver(list: seq<Group>, g: Address, n: nat)
    requires n < 8
    ensures (list + [g[n]]) + g[n + 1..] == list + g[n..]
  {
  }

  /** Past the gap, the groups come back one by one. */
  lemma {:induction false} ParseTail(g: Address, start: nat, len: nat, n: nat, f: Fields)
    requires Printable(start, len, n) && (start >= 8 || start < n) && |f.list| + (8 - n) <= 8
    ensures Parse(PrintFrom(g, start, len, n), f) == Some(f.(list := f.list + g[n..]))
    decreases 8 - n
  {
    if n == 8 {
      assert f.list + g[8..] == f.list;
    } else if n == 7 {
      PrintLast(g, start, len);
      ParseLast(g[7], f);
      assert g[7..] == [g[7]];
    } else {
      ParseOne(g, start, len, n, f);
      ParseTail(g, start, len, n + 1, With(f, g[n]));
      MoveOver(f.list, g, n);
    }
  }

  /** Up to the gap and through it. */
  lemma {:induction false} ParseHead(g: Address, start: nat, len: nat, n: nat, f: Fields)
    requires Printable(start, len, n) && n < start < 8 && f == Fields(g[..n], -1)
    ensures Parse(PrintFrom(g, start, len, n), f) == Some(Fields(g[..start] + g[start + len..], start))
    decreases start - n
  {
    assert g[..n] + [g[n]] == g[..n + 1];
    if n + 1 == start {
      PrintGroup(g, start, len, n);
      var rest := PrintFrom(g, start, len, start + len);
      assert Hex(g[n]) + ":" + (":" + rest) == Hex(g[n]) + "::" + rest;
      ParseGap(g[n], rest, f);
      ParseTail(g, start, len, start + len, Fields(g[..start], start));
    } else {
      ParseOne(g, start, len, n, f);
      ParseHead(g, start, len, n + 1, With(f, g[n]));
    }
  }

  lemma CompleteRun(g: Address, start: nat, len: nat, head: seq<Group>, gap: nat)
    requires ZeroRun(g, start, start + len) && gap <= 8 && head == g[..gap] && start <= gap <= start + len
    ensures |head + g[start + len..]| <= 8 && Complete(Fields(head + g[start + len..], gap)) == Some(g)
  {
    var list := head + g[start + len..];
    assert list[..gap] == head && list[gap..] == g[start + len..];
    assert g == g[..gap] + Zeros(8 - |list|) + g[start + len..];
  }

  /** Whatever run of zeros is left out, parsing gives the address back. */
  lemma ParsePrinted(g: Address, start: nat, len: nat)
    requires if start < 8 then 2 <= len && ZeroRun(g, start, start + len) else 0 < len
    ensures ParseAddress(PrintFrom(g, start, len, 0)) == Some(g)
  {
    PrintLength(g, start, len, 0);
    if start >= 8 {
      ParseTail(g, start, len, 0, Fields([], -1));
      assert [] + g[0..] == g;
    } else if start == 0 {
      ParseLeadingGap(PrintFrom(g, start, len, len));
      ParseTail(g, start, len, len, Fields([0], 1));
      assert g[..1] == [0];
      CompleteRun(g, 0, len, [0], 1);
    } else {
      ParseHead(g, start, len, 0, Fields([], -1));
      CompleteRun(g, start, len, g[..start], start);
    }
  }

  /** stoip6 of ip6tos gives every address back. */
  lemma AddressRoundTrip(g: Address, start: nat, len: nat)
    requires BestRun(g, 8, start, len)
    ensures ParseAddress(PrintFrom(g, start, len, 0)) == Some(g)
  {
    ParsePrinted(g, start, len);
  }

  // ---------------------------------------------------------------------------------------------
  // The parser's loops
  // ---------------------------------------------------------------------------------------------

  /** hex() */
  method ReadHex(s: string) returns (v: nat)
    requires AllHex(s)
    ensures v == HexValue(s)
  {
    v := 0;
    assert s[..0] == [];
    for i := 0 to |s|
      invariant v == HexValue(s[..i])
    {
      assert s[..i + 1][..i] == s[..i];
      v := v * 16 + DigitValue(s[i]);
    }
    assert s[..|s|] == s;
  }

  /** The inner loop and the checks behind it: the next field of s from p, and where it ends. */
  method ReadField(s: string, p: nat) returns (field: Option<Group>, q: nat)
    requires p < |s|
    ensures field == Field(s[p..]) && p <= q <= |s| && (field.Some? ==> q == p + UpToColon(s[p..]))
  {
    q := p;
    while q < |s| && s[q] != ':'
      invariant p <= q <= |s| && AllHex(s[p..q]) && ':' !in s[p..q]
    {
      if !IsHex(s[q]) {
        NotHex(s[p..], q - p);
        return None, q;
      }
      assert s[p..q + 1] == s[p..q] + [s[q]];
      q := q + 1;
    }
    assert s[p..][..q - p] == s[p..q];
    FirstColon(s[p..], q - p);
    if q - p > 4 {
      return None, q;
    }
    var v := ReadHex(s[p..q]);
    FourDigits(s[p..q]);
    return Some(v), q;
  }

  /** A character before the colon that is no digit spoils the field. */
  lemma NotHex(s: string, k: nat)
    requires k < |s| && !IsHex(s[k]) && ':' !in s[..k] && s[k] != ':'
    ensures Field(s) == None
  {
    var n := UpToColon(s);
    assert k < n;
    assert !IsHex(s[..n][k]);
  }

  lemma OnwardShifts(s: string, p: nat, q: nat, f: Fields, v: Group)
    requires p <= q <= |s|
    ensures var a, b := Onward(s, q, f, v), Onward(s[p..], q - p, f, v);
            a.0 == b.0 && a.1 == b.1 && a.2 == p + b.2 && s[a.2..] == s[p..][b.2..]
  {
  }

  lemma ParseFront(t: string, f: Fields, v: Group, r: (bool, Fields, nat))
    requires t != [] && Field(t) == Some(v) && |f.list| < 8 && r == Onward(t, UpToColon(t), f, v)
    ensures Parse(t, f) == if r.0 then Parse(t[r.2..], r.1) else None
  {
  }

  lemma ParseAt(s: string, p: nat, q: nat, f: Fields, v: Group)
    requires p < |s| && q == p + UpToColon(s[p..]) && Field(s[p..]) == Some(v) && |f.list| < 8
    ensures var (ok, g, next) := Onward(s, q, f, v);
            Parse(s[p..], f) == if ok then Parse(s[next..], g) else None
  {
    ParseFront(s[p..], f, v, Onward(s[p..], q - p, f, v));
    OnwardShifts(s, p, q, f, v);
  }

  /** stoip6 */
  method ParseSteps(s: string) returns (r: Option<Address>)
    ensures r == ParseAddress(s)
  {
    if |s| > 39 {
      return None;
    }
    var f, p := Fields([], -1), 0;
    assert s[0..] == s;
    while p < |s|
      invariant p <= |s| && |f.list| <= 8 && Parse(s[p..], f) == Parse(s, Fields([], -1))
    {
      var field, q := ReadField(s, p);
      if field == None || |f.list| == 8 {
        return None;
      }
      ParseAt(s, p, q, f, field.value);
      var onward := Onward(s, q, f, field.value);
      if !onward.0 {
        return None;
      }
      f, p := onward.1, onward.2;
    }
    return Complete(f);
  }

  // ---------------------------------------------------------------------------------------------
  // Every text with good fields is read
  // ---------------------------------------------------------------------------------------------

  /** One to four digits, of either case, with or without zeros in front. */
  predicate GoodField(t: string) { AllHex(t) && 1 <= |t| <= 4 }

  predicate GoodFields(ts: seq<string>) { forall i :: 0 <= i < |ts| ==> GoodField(ts[i]) }

  function ValueOf(t: string): Group
    requires GoodField(t)
  {
    FourDigits(t);
    HexValue(t)
  }

  function Values(ts: seq<string>): (g: seq<Group>)
    requires GoodFields(ts)
    ensures |g| == |ts|
  {
    if ts == [] then [] else [ValueOf(ts[0])] + Values(ts[1..])
  }

  /** The fields with colons between them. */
  function TextOf(ts: seq<string>): string {
    if ts == [] then "" else if |ts| == 1 then ts[0] else ts[0] + ":" + TextOf(ts[1..])
  }

  lemma FieldOfToken(t: string, rest: string)
    requires GoodField(t) && (rest == "" || rest[0] == ':')
    ensures UpToColon(t + rest) == |t| && Field(t + rest) == Some(ValueOf(t))
  {
    var s := t + rest;
    assert s[..|t|] == t;
    FirstColon(s, |t|);
  }

  /** What stands for `more` behind f. */
  function Behind(f: Fields, more: seq<Group>): Fields { f.(list := f.list + more) }

  lemma BehindOne(f: Fields, v: Group, more: seq<Group>)
    ensures Behind(With(f, v), more) == Behind(f, [v] + more) && With(f, v) == Behind(f, [v])
  {
    assert f.list + [v] + more == f.list + ([v] + more);
  }

  lemma ValuesStep(ts: seq<string>)
    requires GoodFields(ts) && ts != []
    ensures Values(ts) == [ValueOf(ts[0])] + Values(ts[1..])
  {
  }

  lemma OneValue(ts: seq<string>)
    requires GoodFields(ts) && |ts| == 1
    ensures Values(ts) == [ValueOf(ts[0])] && TextOf(ts) == ts[0]
  {
    assert ts[1..] == [] && Values(ts[1..]) == [];
  }

  lemma LastField(t: string, f: Fields)
    requires GoodField(t) && |f.list| < 8
    ensures Parse(t, f) == Some(With(f, ValueOf(t)))
  {
    FieldOfToken(t, "");
    assert t + "" == t;
  }

  lemma FieldOn(t: string, rest: string, f: Fields)
    requires GoodField(t) && |f.list| < 8 && (rest == "" || rest[0] != ':')
    ensures Parse(t + ":" + rest, f) == Parse(rest, With(f, ValueOf(t)))
  {
    FieldOfToken(t, ":" + rest);
    FieldThenColon(t, ValueOf(t), rest, f, t + ":" + rest);
  }

  lemma FieldThenTwo(t: string, rest: string, f: Fields)
    requires GoodField(t) && |f.list| < 8 && f.gap == -1
    ensures Parse(t + "::" + rest, f) == Parse(rest, With(f, ValueOf(t)).(gap := |f.list| + 1))
  {
    FieldOfToken(t, "::" + rest);
    FieldThenGap(t, ValueOf(t), rest, f, t + "::" + rest);
  }

  lemma StartsGood(ts: seq<string>)
    requires GoodFields(ts) && ts != []
    ensures TextOf(ts) != "" && TextOf(ts)[0] == ts[0][0] != ':'
  {
    assert GoodField(ts[0]);
  }

  lemma {:induction false} ParseJoined(ts: seq<string>, f: Fields)
    requires GoodFields(ts) && |f.list| + |ts| <= 8
    ensures Parse(TextOf(ts), f) == Some(Behind(f, Values(ts)))
    decreases |ts|
  {
    if ts == [] {
      assert f.list + [] == f.list;
    } else {
      ValuesStep(ts);
      BehindOne(f, ValueOf(ts[0]), Values(ts[1..]));
      if |ts| == 1 {
        OneValue(ts);
        LastField(ts[0], f);
      } else {
        StartsGood(ts[1..]);
        FieldOn(ts[0], TextOf(ts[1..]), f);
        ParseJoined(ts[1..], With(f, ValueOf(ts[0])));
      }
    }
  }

  /** The text with the two colons behind the fields on the left. */
  function GappedText(left: seq<string>, right: seq<string>): string { TextOf(left) + "::" + TextOf(right) }

  lemma GappedStep(left: seq<string>, right: seq<string>)
    requires 1 < |left|
    ensures GappedText(left, right) == left[0] + ":" + GappedText(left[1..], right)
  {
    JoinedOn(left[0], TextOf(left[1..]), TextOf(right));
  }

  /** What fields, two colons and further fields stand for behind f. */
  function GapBehind(f: Fields, a: seq<Group>, b: seq<Group>): Fields {
    Behind(Behind(f, a).(gap := |f.list| + |a|), b)
  }

  lemma GapBehindStep(f: Fields, v: Group, a: seq<Group>, b: seq<Group>)
    ensures GapBehind(With(f, v), a, b) == GapBehind(f, [v] + a, b)
  {
    BehindOne(f, v, a);
  }

  lemma {:induction false} ParseGapped(left: seq<string>, right: seq<string>, f: Fields)
    requires GoodFields(left) && GoodFields(right) && left != [] && f.gap == -1 && |f.list| + |left| + |right| <= 8
    ensures Parse(GappedText(left, right), f) == Some(GapBehind(f, Values(left), Values(right)))
    decreases |left|
  {
    if |left| == 1 {
      GapBehindOne(left, right, f);
    } else {
      ParseGapped(left[1..], right, With(f, ValueOf(left[0])));
      GapOn(left, right, f, GappedText(left[1..], right));
    }
  }

  lemma GapOn(left: seq<string>, right: seq<string>, f: Fields, rest: string)
    requires GoodFields(left) && GoodFields(right) && 1 < |left| && |f.list| < 8 && rest == GappedText(left[1..], right)
    requires var g := With(f, ValueOf(left[0]));
             Parse(rest, g) == Some(GapBehind(g, Values(left[1..]), Values(right)))
    ensures Parse(GappedText(left, right), f) == Some(GapBehind(f, Values(left), Values(right)))
  {
    GappedStep(left, right);
    GappedStart(left[1..], right);
    FieldOn(left[0], rest, f);
    ValuesStep(left);
    GapBehindStep(f, ValueOf(left[0]), Values(left[1..]), Values(right));
  }

  lemma GappedStart(left: seq<string>, right: seq<string>)
    requires GoodFields(left) && left != []
    ensures GappedText(left, right) != "" && GappedText(left, right)[0] != ':'
  {
    StartsGood(left);
  }

  lemma GapBehindOne(left: seq<string>, right: seq<string>, f: Fields)
    requires GoodFields(left) && GoodFields(right) && |left| == 1 && f.gap == -1 && |f.list| + 1 + |right| <= 8
    ensures Parse(GappedText(left, right), f) == Some(GapBehind(f, Values(left), Values(right)))
  {
    OneValue(left);
    TwoThenRest(left[0], right, f);
    GapAfterOne(f, ValueOf(left[0]), Values(right));
  }

  lemma GapAfterOne(f: Fields, v: Group, b: seq<Group>)
    ensures GapBehind(f, [v], b) == Behind(With(f, v).(gap := |f.list| + 1), b)
  {
  }

  lemma TwoThenRest(t: string, right: seq<string>, f: Fields)
    requires GoodField(t) && GoodFields(right) && f.gap == -1 && |f.list| + 1 + |right| <= 8
    ensures Parse(t + "::" + TextOf(right), f) ==
            Some(Behind(With(f, ValueOf(t)).(gap := |f.list| + 1), Values(right)))
  {
    FieldThenTwo(t, TextOf(right), f);
    ParseJoined(right, With(f, ValueOf(t)).(gap := |f.list| + 1));
  }

  lemma CompletesGap(a: seq<Group>, b: seq<Group>)
    requires |a| + |b| <= 8
    ensures Complete(GapBehind(Fields([], -1), a, b)) == Some(a + Zeros(8 - |a| - |b|) + b)
  {
    assert [] + a == a && (a + b)[..|a|] == a && (a + b)[|a|..] == b;
  }

  /** The parser reads eight fields as the groups they stand for. */
  lemma ParserReads(ts: seq<string>)
    requires GoodFields(ts) && |ts| == 8
    ensures ParseAddress(TextOf(ts)) == Some(Values(ts))
  {
    ParseJoined(ts, Fields([], -1));
    TextLength(ts);
    assert [] + Values(ts) == Values(ts);
  }

  /** And fewer with two colons behind some of them, with zeros in that place. */
  lemma ParserReadsGap(left: seq<string>, right: seq<string>)
    requires GoodFields(left) && GoodFields(right) && left != [] && |left| + |right| <= 8
    ensures |GappedText(left, right)| <= 39 ==>
              ParseAddress(GappedText(left, right)) == Some(Values(left) + Zeros(8 - |left| - |right|) + Values(right))
  {
    ParseGapped(left, right, Fields([], -1));
    CompletesGap(Values(left), Values(right));
  }

  /** Two colons in front leave room for seven fields behind them. */
  lemma ParserReadsFront(right: seq<string>)
    requires GoodFields(right) && |right| <= 7
    ensures |"::" + TextOf(right)| <= 39 ==>
              ParseAddress("::" + TextOf(right)) == Some([0] + Zeros(7 - |right|) + Values(right))
  {
    ParseLeadingGap(TextOf(right));
    ParseJoined(right, Fields([0], 1));
    assert [] + [0] == [0];
    CompletesGap([0], Values(right));
  }

  lemma {:induction false} TextLength(ts: seq<string>)
    requires GoodFields(ts)
    ensures |TextOf(ts)| <= if ts == [] then 0 else 5 * |ts| - 1
  {
    if 1 < |ts| {
      TextLength(ts[1..]);
    }
    assert ts != [] ==> GoodField(ts[0]);
  }
}
