/** The Internet checksum as net/ipv4.c, net/tcp.c and net/udp.c compute it, and RFC 1071. */
module Checksum {
  import opened Bits

  /** A 16-bit load of the little-endian host. */
  function Word(lo: byte, hi: byte): u16 {
    lo + 256 * hi
  }

  function LowByte(w: u16): byte { w % 256 }

  function HighByte(w: u16): byte { w / 256 }

  /** The plain sum of the 16-bit words, an odd last byte counting as a word. */
  function SumWords(d: seq<byte>): (n: nat)
    ensures n <= 65535 * ((|d| + 1) / 2)
  {
    if d == [] then 0
    else if |d| == 1 then d[0]
    else Word(d[0], d[1]) + SumWords(d[2..])
  }

  /** One round of carry folding: (sum & 0xFFFF) + (sum >> 16). */
  function FoldOnce(sum: nat): nat {
    sum % U16 + sum / U16
  }

  function Fold(sum: nat): (r: u16)
    ensures r % 65535 == sum % 65535
    ensures r == 0 <==> sum == 0
  {
    if sum < U16 then sum
    else
      FoldOnceKeeps(sum);
      Fold(FoldOnce(sum))
  }

  lemma {:induction false} FoldOnceKeeps(sum: nat)
    requires sum >= U16
    ensures 0 < FoldOnce(sum) < sum && FoldOnce(sum) % 65535 == sum % 65535
  {
    var q, r := sum / 0x1_0000, sum % 0x1_0000;
    assert sum == 65535 * q + (q + r);
    AddMultiple(q + r, q);
  }

  lemma {:induction false} AddMultiple(x: nat, q: nat)
    ensures (x + 65535 * q) % 65535 == x % 65535
  {
    DivModUnique(x + 65535 * q, 65535, x / 65535 + q, x % 65535);
  }

  /** At most two rounds of folding bring a 32-bit sum below 2^16. */
  lemma {:induction false} TwoRounds(sum: u32)
    ensures FoldOnce(FoldOnce(sum)) < U16
    ensures Fold(sum) == FoldOnce(FoldOnce(sum))
  {
    assert FoldOnce(sum) <= 0x1_FFFE;
  }

  /** ~sum truncated to 16 bits. */
  function Complement(x: u16): u16 { 0xFFFF - x }

  /** The source's result, with the 32-bit accumulator. */
  function HostChecksum(sum: nat): u16 {
    Complement(Fold(Acc(sum)))
  }

  /** One's complement addition (RFC 1071 section 1): the carry out of bit 15 is added back. */
  function OnesAdd(a: u16, b: u16): u16 {
    if a + b < U16 then a + b else a + b - 0xFFFF
  }

  function OnesSum(d: seq<byte>): u16 {
    if d == [] then 0
    else if |d| == 1 then d[0]
    else OnesAdd(Word(d[0], d[1]), OnesSum(d[2..]))
  }

  /** RFC 1071: the one's complement of the one's complement sum of the words. */
  function InternetChecksum(d: seq<byte>): u16 {
    Complement(OnesSum(d))
  }

  /** A 16-bit value is determined by its residue modulo 65535 and by being zero or not. */
  lemma {:induction false} OnesUnique(a: u16, b: u16)
    requires a % 65535 == b % 65535 && (a == 0 <==> b == 0)
    ensures a == b
  {}

  lemma {:induction false} AddMod(a: nat, b: nat)
    ensures (a + b) % 65535 == (a % 65535 + b % 65535) % 65535
  {
    AddMultiple(a % 65535 + b % 65535, a / 65535 + b / 65535);
    assert a + b == a % 65535 + b % 65535 + 65535 * (a / 65535 + b / 65535);
  }

  lemma {:induction false} OnesAddMod(a: u16, b: u16)
    ensures OnesAdd(a, b) % 65535 == (a % 65535 + b % 65535) % 65535
    ensures OnesAdd(a, b) == 0 <==> a == 0 && b == 0
  {
    AddMod(a, b);
    if a + b >= U16 {
      AddMultiple(a + b - 0xFFFF, 1);
    }
  }

  lemma {:induction false} OnesSumMod(d: seq<byte>)
    ensures OnesSum(d) % 65535 == SumWords(d) % 65535
    ensures OnesSum(d) == 0 <==> SumWords(d) == 0
    decreases |d|
  {
    hide OnesAdd, Word;
    if |d| >= 2 {
      OnesSumMod(d[2..]);
      OnesAddMod(Word(d[0], d[1]), OnesSum(d[2..]));
      AddMod(Word(d[0], d[1]), SumWords(d[2..]));
    }
  }

  /** Up to 131074 bytes the accumulator cannot overflow. */
  lemma {:induction false} NoOverflow(d: seq<byte>)
    requires |d| <= 131074
    ensures SumWords(d) < U32
  {
    hide SumWords;
    assert (|d| + 1) / 2 <= 65537;
  }

  /** Summing first and folding at the end is the RFC 1071 checksum. */
  lemma {:induction false} HostChecksumIsInternet(d: seq<byte>)
    requires |d| <= 131074
    ensures HostChecksum(SumWords(d)) == InternetChecksum(d)
  {
    hide Fold, OnesSum, SumWords;
    NoOverflow(d);
    DivModUnique(SumWords(d), U32, 0, SumWords(d));
    OnesSumMod(d);
    OnesUnique(Fold(SumWords(d)), OnesSum(d));
  }

  lemma {:induction false} SumWordsConcat(a: seq<byte>, b: seq<byte>)
    requires |a| % 2 == 0
    ensures SumWords(a + b) == SumWords(a) + SumWords(b)
    decreases |a|
  {
    if a == [] {
      assert a + b == b;
    } else {
      assert (a + b)[2..] == a[2..] + b;
      SumWordsConcat(a[2..], b);
    }
  }

  lemma {:induction false} SumWordsSnoc(d: seq<byte>, i: nat)
    requires i % 2 == 0 && i + 2 <= |d|
    ensures SumWords(d[..i + 2]) == SumWords(d[..i]) + Word(d[i], d[i + 1])
  {
    SumWordsConcat(d[..i], d[i..i + 2]);
    assert d[..i] + d[i..i + 2] == d[..i + 2];
    assert d[i..i + 2] == [d[i], d[i + 1]];
    assert SumWords([d[i], d[i + 1]][2..]) == 0;
  }

  lemma {:induction false} SumOne(b: byte)
    ensures SumWords([b]) == b
  {}

  lemma {:induction false} SumWordsLast(d: seq<byte>)
    requires |d| % 2 == 1
    ensures SumWords(d) == SumWords(d[..|d| - 1]) + d[|d| - 1]
  {
    hide SumWords;
    SumWordsConcat(d[..|d| - 1], [d[|d| - 1]]);
    SumOne(d[|d| - 1]);
    assert d[..|d| - 1] + [d[|d| - 1]] == d;
  }

  /** A sum as the 32-bit accumulator holds it. */
  function Acc(sum: nat): u32 {
    sum % U32
  }

  lemma {:induction false} SumStep(a: nat, w: u32)
    ensures Add32(Acc(a), w) == Acc(a + w)
  {
    var q, b := a / U32, a % U32;
    if b + w < U32 {
      DivModUnique(a + w, U32, q, b + w);
    } else {
      DivModUnique(a + w, U32, q + 1, b + w - U32);
    }
  }

  lemma {:induction false} AccZero()
    ensures Acc(0) == 0
  {}

  lemma {:induction false} SumNone(d: seq<byte>)
    ensures SumWords(d[..0]) == 0
  {
    assert d[..0] == [];
  }

  /** Adds the words of data to an accumulator, in 32 bits. */
  method AddWords(data: seq<byte>, start: u32, ghost before: nat) returns (sum: u32)
    requires start == Acc(before)
    ensures sum == Acc(before + SumWords(data))
  {
    hide Acc, SumWords, Add32, Word;
    sum := start;
    var i := 0;
    SumNone(data);
    while |data| - i > 1
      invariant 0 <= i <= |data| && i % 2 == 0
      invariant sum == Acc(before + SumWords(data[..i]))
    {
      SumWordsSnoc(data, i);
      SumStep(before + SumWords(data[..i]), Word(data[i], data[i + 1]));
      sum := Add32(sum, Word(data[i], data[i + 1]));
      i := i + 2;
    }
    if |data| - i > 0 {
      SumWordsLast(data);
      SumStep(before + SumWords(data[..i]), data[i]);
      sum := Add32(sum, data[i]);
    } else {
      assert data[..i] == data;
    }
  }

  /** The folding loop and the final complement; `rounds` counts its iterations. */
  method FoldAndComplement(total: u32) returns (c: u16, ghost rounds: nat)
    ensures c == Complement(Fold(total)) && rounds <= 2
  {
    hide And, Shr;
    var sum: u32 := total;
    rounds := 0;
    TwoRounds(total);
    while Shr(sum, 16) != 0
      invariant Fold(sum) == Fold(total) && rounds <= 2
      invariant sum == if rounds == 0 then total else if rounds == 1 then FoldOnce(total) else FoldOnce(FoldOnce(total))
      decreases sum
    {
      FoldBits(sum);
      FoldOnceKeeps(sum);
      sum := And(sum, 0xFFFF) + Shr(sum, 16);
      rounds := rounds + 1;
    }
    FoldBits(sum);
    c := 0xFFFF - sum;
  }

  lemma {:induction false} FoldBits(sum: u32)
    ensures And(sum, 0xFFFF) + Shr(sum, 16) == FoldOnce(sum)
    ensures Shr(sum, 16) != 0 <==> sum >= U16
  {
    hide And, Shr;
    assert Pow2(16) == U16 by {
      Pow2Values();
    }
    AndIsLowBits(sum, 16);
    ShrIsDiv(sum, 16);
  }

  /** ipv4_checksum. */
  method Ipv4Checksum(data: seq<byte>) returns (c: u16)
    ensures c == HostChecksum(SumWords(data))
    ensures |data| <= 131074 ==> c == InternetChecksum(data)
  {
    hide Acc, SumWords, OnesSum, Fold;
    AccZero();
    var sum := AddWords(data, 0, 0);
    ghost var rounds;
    c, rounds := FoldAndComplement(sum);
    if |data| <= 131074 {
      HostChecksumIsInternet(data);
    }
  }

  /** ipv4_pseudo_checksum: the pseudo header's words, then the payload's. */
  method PseudoChecksum(pseudo: seq<byte>, data: seq<byte>) returns (c: u16)
    requires |pseudo| == 12
    ensures c == HostChecksum(SumWords(pseudo + data))
    ensures |data| <= 131062 ==> c == InternetChecksum(pseudo + data)
  {
    hide Acc, SumWords, OnesSum, Fold;
    AccZero();
    var sum := AddWords(pseudo, 0, 0);
    sum := AddWords(data, sum, SumWords(pseudo));
    SumWordsConcat(pseudo, data);
    ghost var rounds;
    c, rounds := FoldAndComplement(sum);
    if |data| <= 131062 {
      HostChecksumIsInternet(pseudo + data);
    }
  }

  /** The pseudo header tcp_checksum and udp_checksum lay out, length truncated to 16 bits. */
  function PseudoHeader(src: seq<byte>, dest: seq<byte>, protocol: byte, length: nat): (p: seq<byte>)
    requires |src| == 4 && |dest| == 4
    ensures |p| == 12
  {
    var n := length % U16;
    src + dest + [0, protocol, LowByte(n), HighByte(n)]
  }

  /** The twelve bytes of the pseudo header, and what they add to a sum. */
  lemma {:induction false} PseudoLayout(src: seq<byte>, dest: seq<byte>, protocol: byte, length: nat)
    requires |src| == 4 && |dest| == 4
    ensures var p := PseudoHeader(src, dest, protocol, length);
      && p[0..4] == src && p[4..8] == dest && p[8] == 0 && p[9] == protocol
      && p[10] == length % 0x100 && p[11] == length / 0x100 % 0x100
      && SumWords(p) == SumWords(src) + SumWords(dest) + 0x100 * (protocol as nat) + length % 0x1_0000
  {
    hide SumWords;
    var n := length % 0x1_0000;
    var tail := [0, protocol, LowByte(n), HighByte(n)];
    assert PseudoHeader(src, dest, protocol, length) == src + (dest + tail);
    SumWordsConcat(src, dest + tail);
    SumWordsConcat(dest, tail);
    FourBytesSum(tail);
    LowHigh(n);
    LowOfLength(length);
  }

  lemma {:induction false} LowOfLength(length: nat)
    ensures length % 0x1_0000 % 0x100 == length % 0x100 && length % 0x1_0000 / 0x100 == length / 0x100 % 0x100
  {
    var q, r := length / 0x1_0000, length % 0x1_0000;
    DivModUnique(length, 0x100, 0x100 * q + r / 0x100, r % 0x100);
    DivModUnique(length / 0x100, 0x100, q, r / 0x100);
  }

  lemma {:induction false} LowHigh(w: u16)
    ensures Word(LowByte(w), HighByte(w)) == w
  {}

  lemma {:induction false} FourBytesSum(d: seq<byte>)
    requires |d| == 4
    ensures SumWords(d) == Word(d[0], d[1]) + Word(d[2], d[3])
  {
    assert d[2..][2..] == [] && SumWords(d[2..]) == Word(d[2], d[3]) + SumWords(d[2..][2..]);
  }

  /** tcp_checksum (protocol 6) and udp_checksum (protocol 17) over a whole segment: the same
      value as ipv4_pseudo_checksum of their pseudo header. */
  method TransportChecksum(src: seq<byte>, dest: seq<byte>, protocol: byte, segment: seq<byte>) returns (c: u16)
    requires |src| == 4 && |dest| == 4
    ensures c == HostChecksum(SumWords(PseudoHeader(src, dest, protocol, |segment|) + segment))
    ensures |segment| <= 131062 ==> c == InternetChecksum(PseudoHeader(src, dest, protocol, |segment|) + segment)
  {
    hide Acc, SumWords, Add32, Word, OnesSum, Fold;
    var pseudo := PseudoHeader(src, dest, protocol, |segment|);
    AccZero();
    var sum := AddWords(pseudo, 0, 0);
    var words := |segment| / 2;
    var i := 0;
    SumNone(segment);
    while i < words
      invariant 0 <= i <= words
      invariant sum == Acc(SumWords(pseudo) + SumWords(segment[..2 * i]))
    {
      SumWordsSnoc(segment, 2 * i);
      SumStep(SumWords(pseudo) + SumWords(segment[..2 * i]), Word(segment[2 * i], segment[2 * i + 1]));
      sum := Add32(sum, Word(segment[2 * i], segment[2 * i + 1]));
      i := i + 1;
    }
    if |segment| % 2 == 1 {
      SumWordsLast(segment);
      SumStep(SumWords(pseudo) + SumWords(segment[..2 * i]), segment[|segment| - 1]);
      sum := Add32(sum, segment[|segment| - 1]);
    } else {
      assert segment[..2 * i] == segment;
    }
    SumWordsConcat(pseudo, segment);
    ghost var rounds;
    c, rounds := FoldAndComplement(sum);
    if |segment| <= 131062 {
      HostChecksumIsInternet(pseudo + segment);
    }
  }

  /** d with the 16-bit field at even offset k set to w. */
  function SetWord(d: seq<byte>, k: nat, w: u16): (r: seq<byte>)
    requires k + 2 <= |d|
    ensures |r| == |d|
  {
    d[k := LowByte(w)][k + 1 := HighByte(w)]
  }

  lemma {:induction false} SetWordSum(d: seq<byte>, k: nat, w: u16)
    requires k % 2 == 0 && k + 2 <= |d|
    ensures SumWords(SetWord(d, k, w)) == SumWords(SetWord(d, k, 0)) + w
  {
    var a, b := d[..k], d[k + 2..];
    forall x: u16
      ensures SumWords(SetWord(d, k, x)) == SumWords(a) + x + SumWords(b)
    {
      var mid := [LowByte(x), HighByte(x)];
      assert SetWord(d, k, x) == a + (mid + b);
      SumWordsConcat(a, mid + b);
      SumWordsConcat(mid, b);
      assert SumWords(mid[2..]) == 0;
    }
  }

  /** Storing the checksum in its zeroed field makes the checksum of the whole data zero. */
  lemma {:induction false} StoredChecksumVerifies(d: seq<byte>, k: nat)
    requires k % 2 == 0 && k + 2 <= |d| <= 131074
    ensures InternetChecksum(SetWord(d, k, InternetChecksum(SetWord(d, k, 0)))) == 0
  {
    WholeSumIsZero(d, k, InternetChecksum(SetWord(d, k, 0)));
  }

  /** The receiver of RFC 1071 checks that the whole sum is zero; the source recomputes the field
      and compares. The two tests differ exactly on a stored 0xFFFF where 0 was computed. */
  lemma {:induction false} WholeSumIsZero(d: seq<byte>, k: nat, stored: u16)
    requires k % 2 == 0 && k + 2 <= |d| <= 131074
    ensures InternetChecksum(SetWord(d, k, stored)) == 0 <==>
      InternetChecksum(SetWord(d, k, 0)) == stored || (InternetChecksum(SetWord(d, k, 0)) == 0 && stored == 0xFFFF)
  {
    hide OnesSum, SumWords;
    var zeroed, whole := SetWord(d, k, 0), SetWord(d, k, stored);
    OnesSumMod(zeroed);
    OnesSumMod(whole);
    SetWordSum(d, k, stored);
    AddMod(SumWords(zeroed), stored);
    AddMod(OnesSum(zeroed), stored);
    OnesTotal(OnesSum(zeroed), stored, OnesSum(whole));
  }

  lemma {:induction false} OnesTotal(a: u16, b: u16, sum: u16)
    requires sum % 65535 == (a + b) % 65535 && (sum == 0 <==> a == 0 && b == 0)
    ensures sum == 0xFFFF <==> a + b == 0xFFFF || (a == 0xFFFF && b == 0xFFFF)
  {
    if a + b >= 0xFFFF {
      AddMultiple(a + b - 0xFFFF, 1);
    }
  }
}
