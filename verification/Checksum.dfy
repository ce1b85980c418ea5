/**
 The Internet checksum (section 1 of RFC 1071): a one's-complement sum of 16-bit words with the carry
 added back in, over RAM and over the controller's memory, and the packets built with it.
*/
module Checksum {
  import opened Basics

  type Word = x: int | 0 <= x < 0x1_0000

  const ONES := 65535

  // ---------------------------------------------------------------------------------------------
  // One's-complement arithmetic
  // ---------------------------------------------------------------------------------------------

  /** The number modulo 65535, with 0 only for 0. */
  function Folded(n: nat): Word { if n == 0 then 0 else (n - 1) % ONES + 1 }

  /** sum += t; if (sum < t) sum++ */
  function AddWord(sum: Word, t: Word): Word {
    var s: int, u: int := sum, t;
    if s + u < 0x1_0000 then s + u else s + u - ONES
  }

  /** Folded is the only 16-bit value with the same remainder that is zero only for zero. */
  lemma FoldedIs(n: nat, r: Word, q: nat)
    requires r + ONES * q == n && (r == 0 ==> n == 0)
    ensures r == Folded(n)
  {
    if n > 0 {
      assert (n - 1) == (r - 1) + ONES * q;
    }
  }

  lemma FoldedSplits(n: nat) returns (q: nat)
    ensures Folded(n) + ONES * q == n
  {
    q := if n == 0 then 0 else (n - 1) / ONES;
  }

  lemma AddWordFolds(n: nat, t: Word)
    ensures AddWord(Folded(n), t) == Folded(n + t)
  {
    var q := FoldedSplits(n);
    var r := AddWord(Folded(n), t);
    FoldedIs(n + t, r, if Folded(n) + t < 0x1_0000 then q else q + 1);
  }

  lemma FoldedTwice(n: nat, m: nat)
    ensures Folded(Folded(n) + m) == Folded(n + m)
  {
    var q := FoldedSplits(n);
    var p := FoldedSplits(Folded(n) + m);
    FoldedIs(n + m, Folded(Folded(n) + m), q + p);
  }

  // ---------------------------------------------------------------------------------------------
  // Sums over bytes
  // ---------------------------------------------------------------------------------------------

  function WordOf(high: Byte, low: Byte): Word {
    var h: int, l: int := high, low;
    h * 256 + l
  }

  /** The words of the data, the last byte filled up with zero. */
  function WordSum(data: seq<Byte>): nat {
    if |data| == 0 then 0
    else if |data| == 1 then WordOf(data[0], 0)
    else WordOf(data[0], data[1]) + WordSum(data[2..])
  }

  /** The sum of every second byte, from the first on. */
  function EverySecond(data: seq<Byte>): nat {
    if data == [] then 0 else if |data| == 1 then data[0] else data[0] + EverySecond(data[2..])
  }

  /** The bytes at even places count 256 times, those at odd places once; and an odd buffer sums like one with a zero
      byte behind it. */
  lemma {:induction false} SumByPlaces(data: seq<Byte>)
    ensures WordSum(data) == 256 * EverySecond(data) + if data == [] then 0 else EverySecond(data[1..])
    ensures |data| % 2 == 1 ==> WordSum(data) == WordSum(data + [0])
    decreases |data|
  {
    if 2 <= |data| {
      SumByPlaces(data[2..]);
      assert |data| > 2 ==> data[1..][2..] == data[2..][1..];
      assert (data + [0])[2..] == data[2..] + [0];
    } else if |data| == 1 {
      assert data[1..] == [] && (data + [0])[2..] == [];
    }
  }

  /** chksum, as a loop over the buffer. */
  method Sum(seed: Word, data: seq<Byte>) returns (sum: Word)
    ensures sum == Folded(seed + WordSum(data))
  {
    sum := seed;
    var rest := data;
    ghost var total := seed + WordSum(data);
    SeedFolds(seed);
    ghost var n: nat := seed;
    while |rest| > 1
      invariant sum == Folded(n) && n + WordSum(rest) == total
      decreases |rest|
    {
      var t := WordOf(rest[0], rest[1]);
      AddWordFolds(n, t);
      sum := AddWord(sum, t);
      n := n + t;
      rest := rest[2..];
    }
    if |rest| == 1 {
      var t := WordOf(rest[0], 0);
      AddWordFolds(n, t);
      sum := AddWord(sum, t);
    }
  }

  lemma SeedFolds(seed: Word)
    ensures Folded(seed) == seed
  {
    FoldedIs(seed, seed, 0);
  }

  /** The controller's form: a counter runs to one less than the length.  A length of zero would make
      the unsigned bound wrap around, so it must not be zero. */
  method SumInChip(seed: Word, data: seq<Byte>) returns (sum: Word)
    requires 0 < |data| < 0x1_0000
    ensures sum == Folded(seed + WordSum(data))
  {
    var len := |data| - 1;
    sum := seed;
    SeedFolds(seed);
    ghost var n: nat := seed;
    var i := 0;
    assert data[0..] == data;
    while i < len
      invariant 0 <= i <= |data| && i % 2 == 0 && (i <= len || i == |data|)
      invariant sum == Folded(n) && n + WordSum(data[i..]) == seed + WordSum(data)
    {
      assert data[i..][2..] == data[i + 2..];
      var t := WordOf(data[i], data[i + 1]);
      AddWordFolds(n, t);
      sum := AddWord(sum, t);
      n := n + t;
      i := i + 2;
    }
    if i == len {
      var t := WordOf(data[i], 0);
      AddWordFolds(n, t);
      sum := AddWord(sum, t);
    }
  }

  /** The counter after k turns, in 16 bits. */
  function ChipCounter(k: nat): nat { 2 * k % 0x1_0000 }

  /** With length 0 the bound is 65535, and no number of turns reaches it: the loop does not end. */
  lemma EmptySumNeverEnds(k: nat)
    ensures ChipCounter(0) == 0 && ChipCounter(k + 1) == (ChipCounter(k) + 2) % 0x1_0000
    ensures ChipCounter(k) < (0 - 1) % 0x1_0000
  {
    assert 2 * k % 0x1_0000 % 2 == 0;
  }

  lemma {:induction false} WordSumAppend(a: seq<Byte>, b: seq<Byte>)
    requires |a| % 2 == 0
    ensures WordSum(a + b) == WordSum(a) + WordSum(b)
    decreases |a|
  {
    if a == [] {
      assert a + b == b;
    } else {
      assert (a + b)[2..] == a[2..] + b;
      WordSumAppend(a[2..], b);
    }
  }

  /** upper_layer_chksum's sum: pseudo-header, then the header in RAM, then the rest, if any, in the
      controller; it is the sum over the whole segment in one buffer. */
  method SplitSum(pseudo: Word, addresses: seq<Byte>, header: seq<Byte>, rest: seq<Byte>) returns (sum: Word)
    requires |addresses| % 2 == 0 && |header| % 2 == 0 && |rest| < 0x1_0000
    ensures sum == Folded(pseudo + WordSum(addresses + header + rest))
  {
    WholeSum(addresses, header, rest);
    sum := Sum(pseudo, addresses);
    ghost var n := pseudo + WordSum(addresses);
    sum := SumOn(n, sum, header);
    n := n + WordSum(header);
    if rest != [] {
      FoldedTwice(n, WordSum(rest));
      sum := SumInChip(sum, rest);
    }
  }

  /** A sum goes on from a folded one. */
  method SumOn(ghost n: nat, seed: Word, data: seq<Byte>) returns (sum: Word)
    requires seed == Folded(n)
    ensures sum == Folded(n + WordSum(data))
  {
    FoldedTwice(n, WordSum(data));
    sum := Sum(seed, data);
  }

  lemma WholeSum(addresses: seq<Byte>, header: seq<Byte>, rest: seq<Byte>)
    requires |addresses| % 2 == 0 && |header| % 2 == 0
    ensures WordSum(addresses + header + rest) == WordSum(addresses) + WordSum(header) + WordSum(rest)
    ensures rest == [] ==> WordSum(rest) == 0
  {
    WordSumAppend(addresses, header);
    EvenSum(|addresses|, |header|);
    WordSumAppend(addresses + header, rest);
  }

  lemma EvenSum(a: nat, b: nat)
    requires a % 2 == 0 && b % 2 == 0
    ensures (a + b) % 2 == 0
  {
  }

  // ---------------------------------------------------------------------------------------------
  // Packets
  // ---------------------------------------------------------------------------------------------

  /** A word written at an even place that held zero adds its value. */
  lemma {:induction false} WordSumWrite(data: seq<Byte>, at: nat, high: Byte, low: Byte)
    requires at % 2 == 0 && at + 2 <= |data| && data[at] == 0 && data[at + 1] == 0
    ensures WordSum(data[at := high][at + 1 := low]) == WordSum(data) + WordOf(high, low)
    decreases |data|
  {
    var d := data[at := high][at + 1 := low];
    if at > 0 {
      assert d[2..] == data[2..][at - 2 := high][at - 1 := low];
      WordSumWrite(data[2..], at - 2, high, low);
    } else {
      assert d[2..] == data[2..];
    }
  }

  function Complement(sum: Word): Word {
    var s: int := sum;
    ONES - s
  }

  /** What the checksum functions return, in network byte order; a sum of zero is given as all ones. */
  function Returned(sum: Word): Word { if sum == 0 then ONES else Swap(sum) }

  /** The input check: the checksum over the packet, with its pseudo-header, is all ones. */
  predicate Passes(pseudo: Word, data: seq<Byte>) { Returned(Folded(pseudo + WordSum(data))) == ONES }

  /** The value that goes into the field, as its two bytes stand in the packet: the complement of what
      was returned; UDP replaces zero by all ones. */
  function FieldValue(pseudo: Word, data: seq<Byte>, udp: bool): Word { FieldFor(pseudo + WordSum(data), udp) }

  function FieldFor(total: nat, udp: bool): Word {
    var v := Swap(Complement(Returned(Folded(total))));
    if udp && v == 0 then ONES else v
  }

  function Stored(data: seq<Byte>, at: nat, v: Word): seq<Byte>
    requires at + 2 <= |data|
  {
    var x: int := v;
    data[at := x / 256][at + 1 := x % 256]
  }

  lemma StoredSum(data: seq<Byte>, at: nat, v: Word)
    requires at % 2 == 0 && at + 2 <= |data| && data[at] == 0 && data[at + 1] == 0
    ensures WordSum(Stored(data, at, v)) == WordSum(data) + v
  {
    WordSumWrite(data, at, v / 256, v % 256);
  }

  lemma SwapComplement(w: Word)
    ensures Swap(Complement(Swap(w))) == Complement(w) && Swap(Complement(ONES)) == 0
    ensures Swap(w) == ONES <==> w == ONES
  {
  }

  lemma FillsUp(t: nat, v: Word)
    requires t > 0 && (v == Complement(Folded(t)) || (v == ONES && Folded(t) == ONES))
    ensures Folded(t + v) == ONES
  {
    var q := FoldedSplits(t);
    FoldedIs(t + v, ONES, if v == Complement(Folded(t)) then q else q + 1);
  }

  /** The field is the complement of the sum, and never zero in UDP, where zero would mean that there is none. */
  lemma FieldIs(t: nat, udp: bool)
    requires 0 < t
    ensures FieldFor(t, udp) == if udp && Folded(t) == ONES then ONES else Complement(Folded(t))
    ensures udp ==> FieldFor(t, udp) != 0
  {
    SwapComplement(Folded(t));
  }

  /** The field brings any total to all ones, or to the zero that is given as all ones. */
  lemma FieldFills(t: nat, udp: bool, v: Word, total: nat)
    requires v == FieldFor(t, udp) && total == t + v
    ensures Returned(Folded(total)) == ONES
  {
    SwapComplement(Folded(t));
    if t > 0 {
      FillsUp(t, v);
    } else {
      SeedFolds(v);
    }
    SwapComplement(Folded(total));
  }

  lemma PassesWith(pseudo: Word, data: seq<Byte>, at: nat, v: Word, t: nat, total: nat)
    requires at % 2 == 0 && at + 2 <= |data| && data[at] == 0 && data[at + 1] == 0
    requires t == pseudo + WordSum(data) && total == t + v && Returned(Folded(total)) == ONES
    ensures Passes(pseudo, Stored(data, at, v))
  {
    StoredSum(data, at, v);
  }

  /** Every packet built this way, TCP, UDP or IP, passes the stack's own check. */
  lemma BuiltPacketPasses(pseudo: Word, data: seq<Byte>, at: nat, udp: bool)
    requires at % 2 == 0 && at + 2 <= |data| && data[at] == 0 && data[at + 1] == 0
    ensures Passes(pseudo, Stored(data, at, FieldValue(pseudo, data, udp)))
  {
    PassesBuilt(pseudo, data, at, udp, FieldValue(pseudo, data, udp));
  }

  lemma PassesBuilt(pseudo: Word, data: seq<Byte>, at: nat, udp: bool, v: Word)
    requires at % 2 == 0 && at + 2 <= |data| && data[at] == 0 && data[at + 1] == 0
    requires v == FieldValue(pseudo, data, udp)
    ensures Passes(pseudo, Stored(data, at, v))
  {
    var t := pseudo + WordSum(data);
    var total := t + v;
    FieldFills(t, udp, v, total);
    PassesWith(pseudo, data, at, v, t, total);
  }

  // ---------------------------------------------------------------------------------------------
  // ICMP echo
  // ---------------------------------------------------------------------------------------------

  function Swap(w: Word): Word {
    var x: int := w;
    (x % 256) * 256 + x / 256
  }

  /** Swapping the bytes is multiplication by 256 modulo 65535, so it keeps validity. */
  lemma SwapMultiplies(w: Word)
    ensures Swap(Swap(w)) == w && Swap(w) + ONES * (w / 256) == 256 * w
  {
    var x: int := w;
    SwapParts(x / 256, x % 256);
  }

  lemma SwapParts(high: int, low: int)
    requires 0 <= high < 256 && 0 <= low < 256
    ensures Swap(high * 256 + low) == low * 256 + high
  {
    assert (high * 256 + low) / 256 == high && (high * 256 + low) % 256 == low;
  }

  /** The in-place edit of the checksum when the type byte goes from 8 to 0, on the byte-swapped field
      the program adds to. */
  function EchoEdit(swapped: Word): Word {
    var x: int := swapped;
    if x >= Swap(0xffff - 0x0800) then (x + Swap(0x0800) + 1) % 0x1_0000 else x + Swap(0x0800)
  }

  /** The edit adds 8 modulo 65535 to the swapped field. */
  lemma EchoEditAdds(c: Word) returns (q: nat)
    ensures EchoEdit(c) + ONES * q == c + 8
  {
    assert Swap(0x0800) == 8 && Swap(0xffff - 0x0800) == 0xfff7;
    q := if c >= 0xfff7 then 1 else 0;
  }

  /** Sum of the words as the little-endian processor sees them. */
  function SwappedSum(words: seq<Word>): nat {
    if words == [] then 0 else Swap(words[0]) + SwappedSum(words[1..])
  }

  function PlainSum(words: seq<Word>): nat {
    if words == [] then 0 else words[0] + PlainSum(words[1..])
  }

  lemma {:induction false} SwappedIsMultiple(words: seq<Word>) returns (q: nat)
    ensures SwappedSum(words) + ONES * q == 256 * PlainSum(words)
  {
    q := 0;
    if words != [] {
      SwapMultiplies(words[0]);
      var p := SwappedIsMultiple(words[1..]);
      q := p + words[0] / 256;
    }
  }

  /** The first word holds type and code, the second the checksum. */
  function Reply(words: seq<Word>): seq<Word>
    requires |words| >= 2 && words[0] >= 0x0800
  {
    [words[0] - 0x0800, Swap(EchoEdit(Swap(words[1])))] + words[2..]
  }

  predicate ValidSum(words: seq<Word>) { PlainSum(words) % ONES == 0 }

  /** 256 is its own inverse modulo 65535. */
  lemma SameValidity(x: nat, a: nat, p: nat)
    requires a + ONES * p == 256 * x
    ensures x % ONES == 0 <==> a % ONES == 0
  {
    if x % ONES == 0 {
      assert a == ONES * (256 * (x / ONES) - p);
    }
    if a % ONES == 0 {
      assert 256 * x == ONES * (a / ONES + p);
      assert 256 * (256 * x) == ONES * (256 * (a / ONES + p));
      assert x == ONES * (256 * (a / ONES + p) - x);
    }
  }

  lemma SwappedEdit(words: seq<Word>) returns (q: nat)
    requires |words| >= 2 && words[0] >= 0x0800
    ensures SwappedSum(Reply(words)) + ONES * q == SwappedSum(words)
  {
    var r := Reply(words);
    assert words[1..][1..] == words[2..] && r[1..][1..] == words[2..];
    SwapMultiplies(EchoEdit(Swap(words[1])));
    q := EchoEditAdds(Swap(words[1]));
    TypeCleared(words[0]);
  }

  lemma TypeCleared(w: Word)
    requires w >= 0x0800
    ensures Swap(w - 0x0800) + 8 == Swap(w)
  {
  }

  /** The reply's checksum is right exactly when the request's was, in one's-complement terms. */
  lemma EchoReplyValid(words: seq<Word>)
    requires |words| >= 2 && words[0] >= 0x0800
    ensures ValidSum(Reply(words)) <==> ValidSum(words)
  {
    var p := SwappedIsMultiple(words);
    var q := SwappedIsMultiple(Reply(words));
    SameValidity(PlainSum(words), SwappedSum(words), p);
    SameValidity(PlainSum(Reply(words)), SwappedSum(Reply(words)), q);
    var k := SwappedEdit(words);
    MultipleKeeps(SwappedSum(Reply(words)), SwappedSum(words), k);
  }

  lemma MultipleKeeps(a: nat, b: nat, k: nat)
    requires a + ONES * k == b
    ensures a % ONES == 0 <==> b % ONES == 0
  {
    if a % ONES == 0 {
      assert b == ONES * (a / ONES + k);
    }
    if b % ONES == 0 {
      assert a == ONES * (b / ONES - k);
    }
  }

  predicate AllZero(words: seq<Word>) { forall i :: 0 <= i < |words| ==> words[i] == 0 }

  lemma {:induction false} ZeroSum(words: seq<Word>)
    ensures PlainSum(words) == 0 <==> AllZero(words)
  {
    if words != [] {
      ZeroSum(words[1..]);
      assert forall i :: 0 < i < |words| ==> words[i] == words[1..][i - 1];
    }
  }

  /** An echo request with nothing in it but its type and checksum. */
  predicate EmptyEcho(words: seq<Word>) {
    |words| >= 2 && words[0] == 0x0800 && words[1] == 0xf7ff && AllZero(words[2..])
  }

  lemma EditedToZero(c: Word)
    ensures Swap(EchoEdit(Swap(c))) == 0 <==> c == 0xf7ff
  {
    SwapMultiplies(c);
    SwapMultiplies(EchoEdit(Swap(c)));
    assert Swap(0x0800) == 8 && Swap(0xf7ff) == 0xfff7 && Swap(0) == 0;
    assert EchoEdit(Swap(c)) == 0 <==> Swap(c) == 0xfff7;
  }

  lemma ReplyAllZero(words: seq<Word>)
    requires |words| >= 2 && words[0] >= 0x0800
    ensures AllZero(Reply(words)) <==> EmptyEcho(words)
  {
    var r := Reply(words);
    EditedToZero(words[1]);
    assert r[0] == words[0] - 0x0800 && r[1] == Swap(EchoEdit(Swap(words[1])));
    assert r[2..] == words[2..];
    if AllZero(r) {
      assert forall i :: 0 <= i < |r[2..]| ==> r[2..][i] == r[i + 2];
    }
    if EmptyEcho(words) {
      assert forall i :: 2 <= i < |r| ==> r[i] == words[2..][i - 2];
    }
  }

  lemma AllOnes(n: nat)
    ensures Folded(n) == ONES <==> n > 0 && n % ONES == 0
  {
    var q := FoldedSplits(n);
    if n > 0 && n % ONES == 0 {
      MultipleKeeps(Folded(n), n, q);
    }
    if Folded(n) == ONES {
      assert n == ONES * (q + 1);
    }
  }

  /** Zero has two forms, and a receiver that wants all ones tells them apart: the reply passes such a
      receiver exactly when the request was right and was not an empty echo. */
  lemma StrictEchoReply(words: seq<Word>)
    requires |words| >= 2 && words[0] >= 0x0800
    ensures Folded(PlainSum(Reply(words))) == ONES <==> ValidSum(words) && !EmptyEcho(words)
  {
    AllOnes(PlainSum(Reply(words)));
    EchoReplyValid(words);
    ZeroSum(Reply(words));
    ReplyAllZero(words);
  }

  /** Every empty echo request is itself right, and its reply sums to 0. */
  lemma EmptyEchoReply(words: seq<Word>)
    requires EmptyEcho(words)
    ensures PlainSum(words) == ONES && PlainSum(Reply(words)) == 0
  {
    ReplyAllZero(words);
    ZeroSum(Reply(words));
    ZeroSum(words[2..]);
    assert words[1..][1..] == words[2..];
  }
}
