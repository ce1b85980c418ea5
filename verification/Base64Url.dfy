/**
 Base64url without padding (section 5 of RFC 4648): the encoder, which fills its output from the back,
 and the decoder, which gathers four characters into one value.  Shifts and masks of bytes are written
 as division and remainder.
*/
module Base64Url {
  import opened Basics

  /** A group of six bits. */
  type Six = x: int | 0 <= x < 64

  function EncodeSix(v: Six): char {
    if v < 26 then 'A' + v as char
    else if v < 52 then 'a' + (v - 26) as char
    else if v < 62 then '0' + (v - 52) as char
    else if v == 62 then '-' else '_'
  }

  /** The decoding table; 255 marks what is outside the alphabet. */
  function DecodeTable(c: char): int {
    if 'A' <= c <= 'Z' then c as int - 'A' as int
    else if 'a' <= c <= 'z' then c as int - 'a' as int + 26
    else if '0' <= c <= '9' then c as int - '0' as int + 52
    else if c == '-' then 62 else if c == '_' then 63 else 255
  }

  predicate InAlphabet(c: char) { DecodeTable(c) < 64 }

  function DecodeSix(c: char): Six
    requires InAlphabet(c)
  {
    DecodeTable(c)
  }

  lemma SixRoundTrip(v: Six)
    ensures InAlphabet(EncodeSix(v)) && DecodeSix(EncodeSix(v)) == v
  {
  }

  lemma CharRoundTrip(c: char)
    requires InAlphabet(c)
    ensures EncodeSix(DecodeSix(c)) == c
  {
  }

  // Table 2 of RFC 4648, by value.
  const UPPER := "ABCDEFGHIJKLMNOPQRSTUVWXYZ"
  const LOWER := "abcdefghijklmnopqrstuvwxyz"
  const DIGITS := "0123456789"

  lemma LettersAre(i: nat)
    requires i < 26
    ensures UPPER[i] == 'A' + i as char && LOWER[i] == 'a' + i as char
  {
  }

  lemma DigitsAre(i: nat)
    requires i < 10
    ensures DIGITS[i] == '0' + i as char
  {
  }

  /** The encoder writes the alphabet of the standard. */
  lemma AlphabetIs(v: Six)
    ensures EncodeSix(v) ==
            if v < 26 then UPPER[v] else if v < 52 then LOWER[v - 26]
            else if v < 62 then DIGITS[v - 52] else if v == 62 then '-' else '_'
  {
    if v < 26 {
      LettersAre(v);
    } else if v < 52 {
      LettersAre(v - 26);
    } else if v < 62 {
      DigitsAre(v - 52);
    }
  }

  predicate AllInAlphabet(s: string) { forall i :: 0 <= i < |s| ==> InAlphabet(s[i]) }

  // The four groups of three bytes, and the three bytes of four groups.
  function First(a: Byte): Six { a / 4 }
  function Second(a: Byte, b: Byte): Six { (a % 4) * 16 + b / 16 }
  function Third(b: Byte, c: Byte): Six { (b % 16) * 4 + c / 64 }
  function Fourth(c: Byte): Six { c % 64 }

  function High(x: Six, y: Six): Byte { x * 4 + y / 16 }
  function Middle(y: Six, z: Six): Byte { (y % 16) * 16 + z / 4 }
  function Low(z: Six, w: Six): Byte { (z % 4) * 64 + w }

  lemma GroupsRoundTrip(a: Byte, b: Byte, c: Byte)
    ensures High(First(a), Second(a, b)) == a && Middle(Second(a, b), Third(b, c)) == b &&
            Low(Third(b, c), Fourth(c)) == c
  {
  }

  lemma BytesRoundTrip(x: Six, y: Six, z: Six, w: Six)
    ensures First(High(x, y)) == x && Second(High(x, y), Middle(y, z)) == y
    ensures Third(Middle(y, z), Low(z, w)) == z && Fourth(Low(z, w)) == w
  {
  }

  /** The six-bit groups of a byte string; missing bits at the end are zero. */
  function Groups(x: seq<Byte>): (g: seq<Six>) {
    if |x| == 0 then []
    else if |x| == 1 then [First(x[0]), Second(x[0], 0)]
    else if |x| == 2 then [First(x[0]), Second(x[0], x[1]), Third(x[1], 0)]
    else Quad(x[0], x[1], x[2]) + Groups(x[3..])
  }

  function Quad(a: Byte, b: Byte, c: Byte): (g: seq<Six>)
    ensures |g| == 4
  {
    [First(a), Second(a, b), Third(b, c), Fourth(c)]
  }

  /** The 24 bits of three bytes, the first one counting most, are the four groups in order; at the end of the data
      bits that are missing are zero. */
  lemma GroupsAreBits(a: Byte, b: Byte, c: Byte)
    ensures ((First(a) * 64 + Second(a, b)) * 64 + Third(b, c)) * 64 + Fourth(c) == (a * 256 + b) * 256 + c
    ensures First(a) * 64 + Second(a, 0) == a * 16
    ensures (First(a) * 64 + Second(a, b)) * 64 + Third(b, 0) == (a * 256 + b) * 4
  {
  }

  /** The groups of the bytes 3k to 3k + 2 stand at 4k to 4k + 3. */
  lemma {:induction false} GroupsInOrder(x: seq<Byte>, k: nat)
    requires 3 * k + 3 <= |x|
    ensures 4 * k + 4 <= |Groups(x)| && Groups(x)[4 * k..4 * k + 4] == Quad(x[3 * k], x[3 * k + 1], x[3 * k + 2])
    decreases k
  {
    var rest := Groups(x[3..]);
    assert Groups(x) == Quad(x[0], x[1], x[2]) + rest;
    if 0 < k {
      GroupsInOrder(x[3..], k - 1);
      assert Groups(x)[4 * k..4 * k + 4] == rest[4 * (k - 1)..4 * (k - 1) + 4];
    }
  }

  /** The bytes of six-bit groups; bits left over at the end are dropped. */
  function Join(g: seq<Six>): (x: seq<Byte>)
    requires |g| % 4 != 1
  {
    if |g| == 0 then []
    else if |g| == 2 then [High(g[0], g[1])]
    else if |g| == 3 then [High(g[0], g[1]), Middle(g[1], g[2])]
    else Triple(g[0], g[1], g[2], g[3]) + Join(g[4..])
  }

  function Triple(p: Six, q: Six, r: Six, t: Six): (x: seq<Byte>)
    ensures |x| == 3
  {
    [High(p, q), Middle(q, r), Low(r, t)]
  }

  function ToText(g: seq<Six>): (s: string)
    ensures |s| == |g|
  {
    seq(|g|, i requires 0 <= i < |g| => EncodeSix(g[i]))
  }

  function FromText(s: string): (g: seq<Six>)
    requires AllInAlphabet(s)
    ensures |g| == |s|
  {
    seq(|s|, i requires 0 <= i < |s| => DecodeSix(s[i]))
  }

  function Encode(x: seq<Byte>): (s: string) { ToText(Groups(x)) }

  function Decode(s: string): (x: Option<seq<Byte>>) {
    if |s| % 4 != 1 && AllInAlphabet(s) then Some(Join(FromText(s))) else None
  }

  // ---------------------------------------------------------------------------------------------
  // Round trips
  // ---------------------------------------------------------------------------------------------

  lemma TextRoundTrip(g: seq<Six>)
    ensures AllInAlphabet(ToText(g)) && FromText(ToText(g)) == g
  {
    forall i | 0 <= i < |g|
      ensures InAlphabet(ToText(g)[i]) && DecodeSix(ToText(g)[i]) == g[i]
    {
      SixRoundTrip(g[i]);
    }
  }

  lemma FromTextRoundTrip(s: string)
    requires AllInAlphabet(s)
    ensures ToText(FromText(s)) == s
  {
    forall i | 0 <= i < |s|
      ensures ToText(FromText(s))[i] == s[i]
    {
      CharRoundTrip(s[i]);
    }
  }

  function EncodedLength(n: nat): nat { n / 3 * 4 + (if n % 3 == 0 then 0 else n % 3 + 1) }

  lemma LengthStep(n: nat)
    ensures EncodedLength(n + 3) == EncodedLength(n) + 4 && EncodedLength(n) % 4 != 1
  {
  }

  lemma {:induction false} GroupCount(x: seq<Byte>)
    ensures |Groups(x)| == EncodedLength(|x|) && |Groups(x)| % 4 != 1
    decreases |x|
  {
    if |x| >= 3 {
      GroupCount(x[3..]);
      LengthStep(|x| - 3);
    }
    LengthStep(|x|);
  }

  lemma JoinStep(p: Six, q: Six, r: Six, t: Six, g: seq<Six>)
    requires |g| % 4 != 1
    ensures |[p, q, r, t] + g| % 4 != 1 && Join([p, q, r, t] + g) == Triple(p, q, r, t) + Join(g)
  {
    FourMore(|g|);
    assert ([p, q, r, t] + g)[4..] == g;
  }

  lemma JoinQuad(a: Byte, b: Byte, c: Byte, g: seq<Six>)
    requires |g| % 4 != 1
    ensures |Quad(a, b, c) + g| % 4 != 1 && Join(Quad(a, b, c) + g) == [a, b, c] + Join(g)
  {
    GroupsRoundTrip(a, b, c);
    JoinStep(First(a), Second(a, b), Third(b, c), Fourth(c), g);
  }

  lemma OneByte(a: Byte, f: Six, g: Six)
    requires f == a / 4 && g == (a % 4) * 16
    ensures High(f, g) == a
  {
  }

  lemma JoinOne(x: seq<Byte>)
    requires |x| == 1
    ensures |Groups(x)| == 2 && Join(Groups(x)) == x
  {
    var g := Groups(x);
    OneByte(x[0], g[0], g[1]);
    assert Join(g) == [High(g[0], g[1])];
  }

  lemma JoinTwo(a: Byte, b: Byte)
    ensures Join(Groups([a, b])) == [a, b]
  {
    GroupsRoundTrip(a, b, 0);
    var g := Groups([a, b]);
    assert g == [First(a), Second(a, b), Third(b, 0)];
    assert Join(g) == [High(First(a), Second(a, b)), Middle(Second(a, b), Third(b, 0))];
  }

  lemma {:induction false} JoinGroups(x: seq<Byte>)
    ensures |Groups(x)| % 4 != 1 && Join(Groups(x)) == x
    decreases |x|
  {
    GroupCount(x);
    if |x| == 1 {
      JoinOne(x);
    } else if |x| == 2 {
      JoinTwo(x[0], x[1]);
      assert x == [x[0], x[1]];
    } else if |x| >= 3 {
      JoinGroups(x[3..]);
      JoinQuad(x[0], x[1], x[2], Groups(x[3..]));
      assert x == [x[0], x[1], x[2]] + x[3..];
    }
  }

  /** Decoding undoes encoding, for every byte string. */
  lemma DecodeEncode(x: seq<Byte>)
    ensures Decode(Encode(x)) == Some(x)
  {
    JoinGroups(x);
    TextRoundTrip(Groups(x));
  }

  /** The bits of the last group that no byte takes are zero. */
  predicate NoLeftover(g: seq<Six>) {
    && (|g| % 4 == 2 ==> g[|g| - 1] % 16 == 0)
    && (|g| % 4 == 3 ==> g[|g| - 1] % 4 == 0)
  }

  lemma LastGroups(p: Six, q: Six, r: Six)
    ensures First(High(p, q)) == p && (Second(High(p, q), 0) == q <==> q % 16 == 0)
    ensures Second(High(p, q), Middle(q, r)) == q && (Third(Middle(q, r), 0) == r <==> r % 4 == 0)
  {
  }

  lemma GroupsOfTwo(p: Six, q: Six)
    ensures Groups(Join([p, q])) == [p, q] <==> q % 16 == 0
  {
    LastGroups(p, q, 0);
    assert Groups([High(p, q)]) == [p, Second(High(p, q), 0)];
  }

  lemma GroupsOfThree(p: Six, q: Six, r: Six)
    ensures Groups(Join([p, q, r])) == [p, q, r] <==> r % 4 == 0
  {
    LastGroups(p, q, r);
    var a, b := High(p, q), Middle(q, r);
    assert Join([p, q, r]) == [a, b];
    assert Groups([a, b]) == [First(a), Second(a, b), Third(b, 0)];
  }

  lemma GroupsOfFour(p: Six, q: Six, r: Six, t: Six, g: seq<Six>)
    requires |g| % 4 != 1
    ensures |[p, q, r, t] + g| % 4 != 1 && Groups(Join([p, q, r, t] + g)) == [p, q, r, t] + Groups(Join(g))
  {
    BytesRoundTrip(p, q, r, t);
    JoinStep(p, q, r, t, g);
    GroupsStep(Triple(p, q, r, t), Join(g));
  }

  lemma {:induction false} GroupsJoin(g: seq<Six>)
    requires |g| % 4 != 1
    ensures Groups(Join(g)) == g <==> NoLeftover(g)
    decreases |g|
  {
    if |g| == 2 {
      assert g == [g[0], g[1]];
      GroupsEndTwo(g, g[0], g[1]);
    } else if |g| == 3 {
      assert g == [g[0], g[1], g[2]];
      GroupsEndThree(g, g[0], g[1], g[2]);
    } else if |g| > 3 {
      FourMore(|g| - 4);
      GroupsJoin(g[4..]);
      GroupsJoinStep(g, g[4..]);
      NoLeftoverStep(g);
    }
  }

  lemma GroupsEndTwo(g: seq<Six>, p: Six, q: Six)
    requires g == [p, q]
    ensures Groups(Join(g)) == g <==> NoLeftover(g)
  {
    GroupsOfTwo(p, q);
  }

  lemma GroupsEndThree(g: seq<Six>, p: Six, q: Six, r: Six)
    requires g == [p, q, r]
    ensures Groups(Join(g)) == g <==> NoLeftover(g)
  {
    GroupsOfThree(p, q, r);
  }

  lemma GroupsJoinStep(g: seq<Six>, rest: seq<Six>)
    requires |g| % 4 != 1 && |rest| % 4 != 1 && |g| > 3 && rest == g[4..]
    ensures Groups(Join(g)) == g <==> Groups(Join(rest)) == rest
  {
    var head := [g[0], g[1], g[2], g[3]];
    assert g == head + rest;
    GroupsOfFour(g[0], g[1], g[2], g[3], rest);
    SameHead(head, Groups(Join(rest)), rest);
  }

  lemma NoLeftoverStep(g: seq<Six>)
    requires |g| % 4 != 1 && |g| > 3
    ensures NoLeftover(g) <==> NoLeftover(g[4..])
  {
    FourMore(|g| - 4);
    assert |g[4..]| > 0 ==> g[4..][|g| - 5] == g[|g| - 1];
  }

  lemma GroupsStep(t: seq<Byte>, x: seq<Byte>)
    requires |t| == 3
    ensures Groups(t + x) == Quad(t[0], t[1], t[2]) + Groups(x)
  {
    assert (t + x)[3..] == x;
  }

  lemma SameHead(head: seq<Six>, a: seq<Six>, b: seq<Six>)
    ensures head + a == head + b <==> a == b
  {
    assert (head + a)[|head|..] == a && (head + b)[|head|..] == b;
  }

  /** Encoding undoes decoding exactly on the strings whose last character has no bits to spare. */
  lemma EncodeDecode(s: string)
    requires Decode(s).Some?
    ensures Encode(Decode(s).value) == s <==> NoLeftover(FromText(s))
  {
    var g := FromText(s);
    GroupsJoin(g);
    FromTextRoundTrip(s);
    TextRoundTrip(Groups(Join(g)));
  }

  lemma EncodeShape(x: seq<Byte>)
    ensures |Encode(x)| == EncodedLength(|x|) && AllInAlphabet(Encode(x))
  {
    GroupCount(x);
    TextRoundTrip(Groups(x));
  }

  // ---------------------------------------------------------------------------------------------
  // The loops
  // ---------------------------------------------------------------------------------------------

  lemma TextAppend(a: seq<Six>, b: seq<Six>)
    ensures ToText(a + b) == ToText(a) + ToText(b)
  {
  }

  lemma EncodeStep(x: seq<Byte>)
    requires |x| >= 3
    ensures Encode(x) == ToText(Quad(x[0], x[1], x[2])) + Encode(x[3..])
  {
    TextAppend(Quad(x[0], x[1], x[2]), Groups(x[3..]));
  }

  /** The final quantum, and the terminator behind it. */
  method EncodeEnd(x: seq<Byte>, out: array<char>, at: nat) returns (length: nat)
    requires |x| < 3 && at + EncodedLength(|x|) < out.Length
    modifies out
    ensures length == at + EncodedLength(|x|) && out[at..length] == Encode(x) && out[length] == '\0'
    ensures forall i :: 0 <= i < at || length < i < out.Length ==> out[i] == old(out[i])
  {
    if |x| == 1 {
      out[at], out[at + 1] := EncodeSix(First(x[0])), EncodeSix(Second(x[0], 0));
    } else if |x| == 2 {
      out[at], out[at + 1], out[at + 2] :=
          EncodeSix(First(x[0])), EncodeSix(Second(x[0], x[1])), EncodeSix(Third(x[1], 0));
    }
    length := at + EncodedLength(|x|);
    out[length] := '\0';
  }

  method EncodeBlock(a: Byte, b: Byte, c: Byte, out: array<char>, at: nat)
    requires at + 4 <= out.Length
    modifies out
    ensures out[at..at + 4] == ToText(Quad(a, b, c))
    ensures forall i :: 0 <= i < at || at + 4 <= i < out.Length ==> out[i] == old(out[i])
  {
    out[at], out[at + 1], out[at + 2], out[at + 3] :=
      EncodeSix(First(a)), EncodeSix(Second(a, b)), EncodeSix(Third(b, c)), EncodeSix(Fourth(c));
  }

  /** base64urlEncode: the final quantum first, then the full blocks from the last to the first. */
  method EncodeInto(x: seq<Byte>, out: array<char>) returns (length: nat)
    requires EncodedLength(|x|) < out.Length
    modifies out
    ensures length == EncodedLength(|x|) && out[..length] == Encode(x) && out[length] == '\0'
    ensures forall i :: length < i < out.Length ==> out[i] == old(out[i])
  {
    var n := |x| / 3;
    length := EncodeEnd(x[3 * n..], out, 4 * n);
    while n > 0
      invariant 0 <= 3 * n <= |x| && 4 * n <= length == EncodedLength(|x|)
      invariant out[4 * n..length] == Encode(x[3 * n..]) && out[length] == '\0'
      invariant forall i :: length < i < out.Length ==> out[i] == old(out[i])
    {
      n := n - 1;
      TailOfTail(x, 3 * n);
      StepBack(x[3 * n..], out, 4 * n, length);
    }
  }

  lemma TailOfTail(x: seq<Byte>, n: nat)
    requires n + 3 <= |x|
    ensures x[n..][3..] == x[n + 3..]
  {
  }

  method StepBack(x: seq<Byte>, out: array<char>, at: nat, length: nat)
    requires |x| >= 3 && at + 4 <= length < out.Length && out[at + 4..length] == Encode(x[3..])
    modifies out
    ensures out[at..length] == Encode(x)
    ensures forall i :: 0 <= i < at || length <= i < out.Length ==> out[i] == old(out[i])
  {
    ghost var rest := out[at + 4..length];
    EncodeBlock(x[0], x[1], x[2], out, at);
    assert out[at + 4..length] == rest;
    assert out[at..length] == out[at..at + 4] + out[at + 4..length];
    EncodeStep(x);
  }

  /** The characters gathered so far in one value. */
  function Gather(g: seq<Six>): nat { if g == [] then 0 else Gather(g[..|g| - 1]) * 64 + g[|g| - 1] }

  lemma GatherTwo(p: Six, q: Six)
    ensures Gather([p, q]) == 16 * High(p, q) + q % 16
  {
    assert [p, q][..1] == [p] && [p][..0] == [];
    assert Gather([p]) == p;
    assert Gather([p, q]) == Gather([p]) * 64 + q;
  }

  lemma GatherThree(p: Six, q: Six, r: Six)
    ensures Gather([p, q, r]) == 4 * (256 * High(p, q) + Middle(q, r)) + r % 4
  {
    assert [p, q, r][..2] == [p, q];
    GatherTwo(p, q);
    assert Gather([p, q, r]) == Gather([p, q]) * 64 + r;
  }

  lemma GatherFour(p: Six, q: Six, r: Six, t: Six)
    ensures Gather([p, q, r, t]) == 256 * (256 * High(p, q) + Middle(q, r)) + Low(r, t)
  {
    assert [p, q, r, t][..3] == [p, q, r];
    GatherThree(p, q, r);
    assert Gather([p, q, r, t]) == Gather([p, q, r]) * 64 + t;
  }

  // The shifts and masks that take the bytes out of the value.
  lemma OutOfTwo(v: nat, h: Byte, rest: nat)
    requires v == 16 * h + rest && rest < 16
    ensures v / 16 % 256 == h
  {
  }

  lemma OutOfThree(v: nat, h: Byte, m: Byte, rest: nat)
    requires v == 4 * (256 * h + m) + rest && rest < 4
    ensures v / 1024 % 256 == h && v / 4 % 256 == m
  {
  }

  lemma OutOfFour(v: nat, h: Byte, m: Byte, l: Byte)
    requires v == 256 * (256 * h + m) + l
    ensures v / 65536 % 256 == h && v / 256 % 256 == m && v % 256 == l
  {
  }

  lemma {:induction false} JoinAppend(g: seq<Six>, h: seq<Six>)
    requires |g| % 4 == 0 && |h| % 4 != 1
    ensures |g + h| % 4 != 1 && Join(g + h) == Join(g) + Join(h)
    decreases |g|
  {
    if g == [] {
      assert g + h == h;
    } else {
      FourMore(|g| - 4);
      FourMore(|g[4..] + h|);
      JoinAppend(g[4..], h);
      assert g == [g[0], g[1], g[2], g[3]] + g[4..];
      JoinAppendStep(g[0], g[1], g[2], g[3], g[4..], h);
    }
  }

  lemma JoinAppendStep(p: Six, q: Six, r: Six, t: Six, rest: seq<Six>, h: seq<Six>)
    requires |rest| % 4 != 1 && |h| % 4 != 1 && |rest + h| % 4 != 1 && Join(rest + h) == Join(rest) + Join(h)
    ensures var g := [p, q, r, t] + rest;
            |g| % 4 != 1 && |g + h| % 4 != 1 && Join(g + h) == Join(g) + Join(h)
  {
    JoinStep(p, q, r, t, rest);
    JoinStep(p, q, r, t, rest + h);
    var g := [p, q, r, t] + rest;
    assert g + h == [p, q, r, t] + (rest + h);
    AppendTwice(Triple(p, q, r, t), Join(rest), Join(h));
  }

  /** Four characters make three bytes. */
  method Flush(value: nat, ghost h: seq<Six>) returns (x: seq<Byte>)
    requires |h| == 4 && value == Gather(h)
    ensures x == Join(h)
  {
    assert h == [h[0], h[1], h[2], h[3]] + [];
    assert h == [h[0], h[1], h[2], h[3]];
    GatherFour(h[0], h[1], h[2], h[3]);
    OutOfFour(value, High(h[0], h[1]), Middle(h[1], h[2]), Low(h[2], h[3]));
    JoinStep(h[0], h[1], h[2], h[3], []);
    x := [value / 65536 % 256, value / 256 % 256, value % 256];
  }

  /** The last block of two or three characters. */
  method FlushEnd(value: nat, ghost h: seq<Six>, n: nat) returns (x: seq<Byte>)
    requires |h| == n && n in {0, 2, 3} && value == Gather(h)
    ensures x == Join(h)
  {
    x := [];
    if n == 2 {
      assert h == [h[0], h[1]];
      GatherTwo(h[0], h[1]);
      OutOfTwo(value, High(h[0], h[1]), h[1] % 16);
      x := [value / 16 % 256];
    } else if n == 3 {
      assert h == [h[0], h[1], h[2]];
      GatherThree(h[0], h[1], h[2]);
      OutOfThree(value, High(h[0], h[1]), Middle(h[1], h[2]), h[2] % 4);
      x := [value / 1024 % 256, value / 4 % 256];
    }
  }

  /** base64urlDecode */
  method DecodeLoop(s: string) returns (ok: bool, x: seq<Byte>)
    ensures ok == Decode(s).Some? && (ok ==> x == Decode(s).value)
  {
    if |s| % 4 == 1 {
      return false, [];
    }
    x := [];
    var value: nat, i: nat := 0, 0;
    ghost var g: seq<Six>, h: seq<Six> := [], [];
    while i < |s|
      invariant i <= |s| && Read(s, i, g, h) && |h| == i % 4
      invariant x == Join(g) && value == Gather(h)
    {
      if DecodeTable(s[i]) >= 64 {
        assert !InAlphabet(s[i]);
        return false, [];
      }
      var v := DecodeSix(s[i]);
      OneMore(s, i, g, h);
      value := value * 64 + v;
      h := h + [v];
      if i % 4 == 3 {
        var more := Flush(value, h);
        JoinAppend(g, h);
        x := x + more;
        g, h, value := g + h, [], 0;
      }
      NextResidue(i);
      i := i + 1;
    }
    AllRead(s, g, h);
    var end := FlushEnd(value, h, |s| % 4);
    return true, x + end;
  }

  /** i characters are read: g from the full blocks, h from the current one. */
  ghost predicate Read(s: string, i: nat, g: seq<Six>, h: seq<Six>) {
    i <= |s| && AllInAlphabet(s[..i]) && FromText(s[..i]) == g + h && |g| % 4 == 0
  }

  lemma FromTextStep(s: string, i: nat)
    requires i < |s| && AllInAlphabet(s[..i]) && InAlphabet(s[i])
    ensures AllInAlphabet(s[..i + 1]) && FromText(s[..i + 1]) == FromText(s[..i]) + [DecodeSix(s[i])]
  {
    assert s[..i + 1] == s[..i] + [s[i]];
  }

  lemma GatherStep(h: seq<Six>, v: Six)
    ensures Gather(h + [v]) == Gather(h) * 64 + v
  {
    assert (h + [v])[..|h|] == h;
  }

  lemma Regroup(g: seq<Six>, h: seq<Six>, v: Six)
    ensures (g + h) + [v] == g + (h + [v]) && g + (h + [v]) == (g + (h + [v])) + []
  {
  }

  lemma OneMore(s: string, i: nat, g: seq<Six>, h: seq<Six>)
    requires i < |s| && Read(s, i, g, h) && InAlphabet(s[i])
    ensures Read(s, i + 1, g, h + [DecodeSix(s[i])])
    ensures Gather(h + [DecodeSix(s[i])]) == Gather(h) * 64 + DecodeSix(s[i])
    ensures |h| == 3 ==> Read(s, i + 1, g + (h + [DecodeSix(s[i])]), [])
  {
    FromTextStep(s, i);
    GatherStep(h, DecodeSix(s[i]));
    Regroup(g, h, DecodeSix(s[i]));
    FourMore(|g|);
  }

  lemma NextResidue(i: nat)
    ensures (i + 1) % 4 == if i % 4 == 3 then 0 else i % 4 + 1
  {
  }

  lemma FourMore(n: nat)
    ensures (n + 4) % 4 == n % 4
  {
  }

  lemma AllRead(s: string, g: seq<Six>, h: seq<Six>)
    requires Read(s, |s|, g, h) && |h| % 4 != 1 && |s| % 4 != 1
    ensures Decode(s) == Some(Join(g) + Join(h))
  {
    assert s[..|s|] == s;
    JoinAppend(g, h);
  }
}
