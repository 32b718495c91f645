/** The Internet checksum (section 1 of RFC 1071) as the network code computes it. */
module Checksum {
  import opened Common
  import opened Arith

  const IPPROTO_TCP: nat := 6

  function Pair(high: nat, low: nat): nat { high * 256 + low }

  /** The sum of the 16-bit big-endian words; an odd last byte counts as a word's high half. */
  ghost function Sum(p: seq<Octet>): nat
  {
    if p == [] then 0 else if |p| == 1 then Pair(p[0], 0) else Pair(p[0], p[1]) + Sum(p[2..])
  }

  /** Ones' complement addition has two zeros: 0 only for the sum 0, 65535 for its other multiples. */
  function Residue(s: nat): (r: nat)
    ensures r <= 0xFFFF && (r == 0 <==> s == 0)
  {
    if s == 0 then 0 else 1 + (s - 1) % 0xFFFF
  }

  /** The example in section 3 of RFC 1071. */
  lemma Example()
    ensures 0xFFFF - Residue(Sum([0x00, 0x01, 0xf2, 0x03, 0xf4, 0xf5, 0xf6, 0xf7])) == 0x220d
  {
    var p: seq<Octet> := [0x00, 0x01, 0xf2, 0x03, 0xf4, 0xf5, 0xf6, 0xf7];
    assert p[2..] == [0xf2, 0x03, 0xf4, 0xf5, 0xf6, 0xf7] && p[2..][2..] == [0xf4, 0xf5, 0xf6, 0xf7];
    assert p[2..][2..][2..] == [0xf6, 0xf7] && p[2..][2..][2..][2..] == [];
    assert Sum([0xf4, 0xf5, 0xf6, 0xf7]) == 0xf4f5 + 0xf6f7;
  }

  /** One end-around carry does not change the residue. */
  lemma CarryKeeps(s: nat)
    requires s > 0xFFFF
    ensures s % 0x10000 + s / 0x10000 < s && Residue(s % 0x10000 + s / 0x10000) == Residue(s)
  {
    var q, t := s / 0x10000, s % 0x10000 + s / 0x10000;
    assert s == t + 0xFFFF * q && t > 0;
    AddMultiple(t - 1, q, 0xFFFF);
  }

  method Fold(start: nat) returns (c: nat)
    ensures c == 0xFFFF - Residue(start)
  {
    var sum := start;
    while sum / 0x10000 != 0
      invariant Residue(sum) == Residue(start)
      decreases sum
    {
      CarryKeeps(sum);
      sum := sum % 0x10000 + sum / 0x10000;
    }
    c := 0xFFFF - sum;
  }

  lemma {:induction false} SumBound(p: seq<Octet>)
    ensures Sum(p) <= (|p| + 1) / 2 * 0xFFFF
  {
    if |p| >= 2 { SumBound(p[2..]); }
  }

  /** The loop over the words, in 32-bit arithmetic. */
  method AddWords(start: nat, p: seq<Octet>) returns (sum: nat)
    ensures |p| < 0x10000 && start < 0x10_0000 ==> sum == start + Sum(p)
  {
    sum := start;
    var rest := p;
    SumBound(p);
    while |rest| > 1
      invariant |p| < 0x10000 && start < 0x10_0000 ==> sum + Sum(rest) == start + Sum(p) < U32
    {
      sum := (sum + Pair(rest[0], rest[1])) % U32;
      rest := rest[2..];
    }
    if |rest| > 0 {
      sum := (sum + Pair(rest[0], 0)) % U32;
    }
  }

  /** `ip_checksum`. */
  method IpChecksum(p: seq<Octet>) returns (c: nat)
    ensures |p| < 0x10000 ==> c == 0xFFFF - Residue(Sum(p))
  {
    var sum := AddWords(0, p);
    c := Fold(sum);
  }

  /** `tcp_checksum`: the checksum of the pseudo-header followed by the segment. */
  method TcpChecksum(src: seq<Octet>, dst: seq<Octet>, segment: seq<Octet>) returns (c: nat)
    requires |src| == 4 && |dst| == 4
    ensures |segment| < 0x10000 ==> c == 0xFFFF - Residue(Sum(Pseudo(src, dst, |segment|) + segment))
  {
    hide Sum, Residue;
    var sum := 0;
    var i := 0;
    while i < 4
      invariant i <= 4 && i % 2 == 0
      invariant sum == (if i >= 2 then Word(src, 0) + Word(dst, 0) else 0) + (if i >= 4 then Word(src, 2) + Word(dst, 2) else 0)
    {
      sum := sum + Pair(src[i], src[i + 1]);
      sum := sum + Pair(dst[i], dst[i + 1]);
      i := i + 2;
    }
    sum := sum + IPPROTO_TCP;
    sum := sum + |segment| % U32;
    if |segment| < 0x10000 { PseudoSum(src, dst, segment); }
    sum := AddWords(sum, segment);
    c := Fold(sum);
  }

  function Word(p: seq<Octet>, i: nat): nat
    requires i + 1 < |p|
  {
    Pair(p[i], p[i + 1])
  }

  /** The pseudo-header of section 3.1 of RFC 9293. */
  function Pseudo(src: seq<Octet>, dst: seq<Octet>, len: nat): seq<Octet>
    requires len < 0x10000
  {
    src + dst + [0, IPPROTO_TCP, len / 256, len % 256]
  }

  /** The pseudo-header of section 3.1 of RFC 793: addresses, a zero, protocol 6 and the length, high byte first. */
  lemma PseudoParts(src: seq<Octet>, dst: seq<Octet>, len: nat)
    requires |src| == |dst| == 4 && len < 0x10000
    ensures var p := Pseudo(src, dst, len);
      |p| == 12 && p[..4] == src && p[4..8] == dst && p[8] == 0 && p[9] == 6 && Pair(p[10], p[11]) == len
  {
  }

  /** An even prefix can be summed on its own. */
  lemma {:induction false} SumSplit(a: seq<Octet>, b: seq<Octet>)
    requires |a| % 2 == 0
    ensures Sum(a + b) == Sum(a) + Sum(b)
  {
    if a == [] {
      assert a + b == b;
    } else {
      SumSplit(a[2..], b);
      assert (a + b)[2..] == a[2..] + b;
    }
  }

  lemma SumFour(p: seq<Octet>)
    requires |p| == 4
    ensures Sum(p) == Word(p, 0) + Word(p, 2)
  {
    SumTwo(p[2..]);
  }

  lemma SumTwo(p: seq<Octet>)
    requires |p| == 2
    ensures Sum(p) == Word(p, 0)
  {
    assert p[2..] == [];
  }

  lemma PseudoSum(src: seq<Octet>, dst: seq<Octet>, segment: seq<Octet>)
    requires |src| == 4 && |dst| == 4 && |segment| < 0x10000
    ensures Sum(Pseudo(src, dst, |segment|) + segment) ==
      Word(src, 0) + Word(src, 2) + Word(dst, 0) + Word(dst, 2) + IPPROTO_TCP + |segment| + Sum(segment)
  {
    hide Sum;
    var tail: seq<Octet> := [0, IPPROTO_TCP, |segment| / 256, |segment| % 256];
    SumSplit(src + dst + tail, segment);
    SumSplit(src + dst, tail);
    SumSplit(src, dst);
    SumFour(src);
    SumFour(dst);
    SumFour(tail);
  }

  /** A buffer whose 16-bit field at the even position `i` holds `c`. */
  function Stored(p: seq<Octet>, i: nat, c: nat): seq<Octet>
    requires i + 1 < |p| && c <= 0xFFFF
  {
    p[i := c / 256][i + 1 := c % 256]
  }

  lemma StoredParts(p: seq<Octet>, i: nat, c: nat)
    requires i + 1 < |p| && c <= 0xFFFF
    ensures Stored(p, i, c) == p[..i] + ([c / 256, c % 256] + p[i + 2..])
  {
  }

  lemma SameStored(p: seq<Octet>, i: nat)
    requires i + 1 < |p| && p[i] == p[i + 1] == 0
    ensures Stored(p, i, 0) == p
  {
  }

  lemma StoredSum(p: seq<Octet>, i: nat, c: nat)
    requires i % 2 == 0 && i + 1 < |p| && p[i] == p[i + 1] == 0 && c <= 0xFFFF
    ensures Sum(Stored(p, i, c)) == Sum(p) + c
  {
    hide Sum, Stored;
    var a, b, f: seq<Octet> := p[..i], p[i + 2..], [c / 256, c % 256];
    StoredParts(p, i, c);
    assert p == Stored(p, i, 0) == a + ([0, 0] + b) by { StoredParts(p, i, 0); SameStored(p, i); }
    SumSplit(a, [0, 0] + b);
    SumSplit(a, f + b);
    SumSplit([0, 0], b);
    SumSplit(f, b);
    SumTwo(f);
    SumTwo([0, 0]);
  }

  /** A receiver that sums a buffer with its own checksum stored in it gets zero. */
  lemma ChecksumVerifies(p: seq<Octet>, i: nat)
    requires i % 2 == 0 && i + 1 < |p| && p[i] == p[i + 1] == 0
    ensures 0xFFFF - Residue(Sum(Stored(p, i, 0xFFFF - Residue(Sum(p))))) == 0
  {
    var s := Sum(p);
    var c := 0xFFFF - Residue(s);
    StoredSum(p, i, c);
    if s > 0 {
      var q := (s - 1) / 0xFFFF;
      assert s + c - 1 == 0xFFFE + 0xFFFF * (q + 0) + 0;
      AddMultiple(0xFFFE, q, 0xFFFF);
    }
  }
}
