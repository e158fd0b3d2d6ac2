/** The internet checksum: ones-complement sums taken in pieces on a little-endian machine. */
module Checksum {
  import opened Addresses

  // ----- sums of 16-bit words and their fold

  /** The words as a little-endian machine loads them; an odd last byte is a word by itself. */
  function SumLE(s: seq<Byte>): nat {
    if s == [] then 0
    else if |s| == 1 then s[0]
    else WordLE(s[0], s[1]) + SumLE(s[2..])
  }

  /** The words in network byte order, an odd last byte padded with zero. */
  function SumBE(s: seq<Byte>): nat {
    if s == [] then 0
    else if |s| == 1 then WordBE(s[0], 0)
    else WordBE(s[0], s[1]) + SumBE(s[2..])
  }

  function WordLE(a: Byte, b: Byte): nat {
    var lo: nat, hi: nat := a, b;
    lo + 256 * hi
  }

  function WordBE(a: Byte, b: Byte): nat {
    WordLE(b, a)
  }

  /** Adding the carries back until none is left. */
  function Fold(x: nat): (r: nat)
    ensures r <= 65535
  {
    if x < 65536 then x else Fold(x % 65536 + x / 65536)
  }

  /** The fold is the representative of x modulo 65535 in 1..65535, or 0 for 0 alone. */
  lemma {:induction false} FoldMeaning(x: nat) returns (k: nat)
    ensures x == Fold(x) + 65535 * k && (Fold(x) == 0 <==> x == 0)
  {
    if x < 65536 {
      k := 0;
    } else {
      var j := FoldMeaning(x % 65536 + x / 65536);
      k := j + x / 65536;
    }
  }

  lemma {:induction false} FoldUnique(x: nat, r: nat, k: int)
    requires x == r + 65535 * k && r <= 65535 && (r == 0 <==> x == 0)
    ensures Fold(x) == r
  {
    hide Fold;
    var j := FoldMeaning(x);
  }

  /** inchksum; for a 16-bit length the accumulator stays below 2^31. */
  method Inchksum(data: seq<Byte>) returns (r: nat)
    ensures r == Fold(SumLE(data))
  {
    hide Fold;
    var sum, off, slen: int := 0, 0, |data|;
    while slen >= 2
      invariant 0 <= slen && off + slen == |data| && off % 2 == 0
      invariant sum + SumLE(data[off..]) == SumLE(data)
      invariant 0 <= sum <= 65535 * (off / 2)
      invariant |data| <= 65535 ==> sum < 0x8000_0000
    {
      assert data[off..][2..] == data[off + 2..];
      sum := sum + WordLE(data[off], data[off + 1]);
      off := off + 2;
      slen := slen - 2;
    }
    if slen > 0 {
      sum := sum + data[off];
    }
    ghost var total := sum;
    while sum / 65536 != 0
      invariant 0 <= sum && Fold(sum) == Fold(total)
      decreases sum
    {
      FoldStep(sum);
      sum := sum % 65536 + sum / 65536;
    }
    FoldStep(sum);
    r := sum % 65536;
  }

  lemma {:induction false} FoldStep(x: nat)
    ensures Fold(x) == if x < 65536 then x else Fold(x % 65536 + x / 65536)
  {
  }

  // ----- byte order

  function Swap(x: nat): nat
    requires x <= 65535
  {
    x % 256 * 256 + x / 256
  }

  lemma {:induction false} SwapSum(s: seq<Byte>) returns (k: nat)
    ensures 256 * SumBE(s) == SumLE(s) + 65535 * k
    ensures SumBE(s) == 0 <==> SumLE(s) == 0
  {
    if s == [] {
      k := 0;
    } else if |s| == 1 {
      k := s[0];
    } else {
      var j := SwapSum(s[2..]);
      k := j + s[0];
    }
  }

  lemma {:induction false} SwapWord(x: nat)
    requires x <= 65535
    ensures 256 * x == Swap(x) + 65535 * (x / 256) && Swap(x) <= 65535 && (Swap(x) == 0 <==> x == 0)
    ensures Swap(65535 - x) == 65535 - Swap(x)
  {
  }

  /** Byte-order independence (section 2(B) of RFC 1071): summing the words byte-swapped and
      folding gives the byte swap of the folded sum. */
  lemma {:induction false} ByteOrder(s: seq<Byte>)
    ensures Fold(SumLE(s)) == Swap(Fold(SumBE(s)))
  {
    hide Fold, SumLE, SumBE;
    var be, le := SumBE(s), SumLE(s);
    var k := SwapSum(s);
    var j := FoldMeaning(be);
    var f := Fold(be);
    SwapWord(f);
    var q := f / 256;
    assert le == Swap(f) + 65535 * (q + 256 * j - k);
    FoldUnique(le, Swap(f), q + 256 * j - k);
  }

  // ----- the checksum of an upper-layer packet

  /** The pseudo-header of section 8.1 of RFC 8200. */
  function PseudoHeader(src: seq<Byte>, dst: seq<Byte>, length: nat, protocol: Byte): seq<Byte>
    requires length <= 65535
  {
    src + dst + [0, 0, length / 256, length % 256] + [0, 0, 0, protocol]
  }

  /** Ones complement, with 0 replaced by 0xffff. */
  function Complement(x: nat): nat
    requires x <= 65535
  {
    if x == 65535 then 65535 else 65535 - x
  }

  /** ipv6_checksum */
  method Ipv6Checksum(src: seq<Byte>, dst: seq<Byte>, protocol: Byte, data: seq<Byte>) returns (r: nat)
    requires |src| == 16 && |dst| == 16 && |data| <= 65535
    ensures var whole := PseudoHeader(src, dst, |data|, protocol) + data;
            r == Complement(Fold(SumLE(whole)))
  {
    hide Fold, SumLE;
    var length := |data|;
    var pseudo: seq<Byte> := [length / 256, length % 256, 0, 0, 0, protocol];
    var a := Inchksum(src + dst);
    var b := Inchksum(pseudo);
    var c := Inchksum(data);
    var chksum := a + b + c;
    chksum := chksum / 65536 + chksum % 65536;
    chksum := chksum + chksum / 65536;
    r := 65535 - chksum % 65536;
    if r == 0 {
      r := 65535;
    }
    ghost var whole := PseudoHeader(src, dst, |data|, protocol) + data;
    PiecesFold(src + dst, pseudo, data, a, b, c);
    WholeSum(src, dst, protocol, data);
    ghost var k := FoldMeaning(SumLE(whole));
    assert Fold(SumLE(whole)) == chksum % 65536;
  }

  lemma {:induction false} SumAppend(s: seq<Byte>, t: seq<Byte>)
    requires |s| % 2 == 0
    ensures SumLE(s + t) == SumLE(s) + SumLE(t)
    decreases |s|
  {
    if s == [] {
      assert s + t == t;
    } else {
      assert (s + t)[2..] == s[2..] + t && (s + t)[0] == s[0] && (s + t)[1] == s[1];
      SumAppend(s[2..], t);
    }
  }

  /** Folding the pieces separately and wrapping the carries twice is the fold of the total. */
  lemma {:induction false} PiecesFold(x: seq<Byte>, y: seq<Byte>, z: seq<Byte>, a: nat, b: nat, c: nat)
    requires a == Fold(SumLE(x)) && b == Fold(SumLE(y)) && c == Fold(SumLE(z))
    ensures var s := a + b + c;
            var t := s / 65536 + s % 65536;
            Fold(SumLE(x) + SumLE(y) + SumLE(z)) == (t + t / 65536) % 65536
  {
    hide Fold, SumLE;
    var i := FoldMeaning(SumLE(x));
    var j := FoldMeaning(SumLE(y));
    var k := FoldMeaning(SumLE(z));
    var r, n := WrapTwice(a + b + c);
    FoldUnique(SumLE(x) + SumLE(y) + SumLE(z), r, i + j + k + n);
  }

  lemma {:induction false} WrapTwice(s: nat) returns (r: nat, n: nat)
    requires s <= 3 * 65535
    ensures var t := s / 65536 + s % 65536; r == (t + t / 65536) % 65536
    ensures s == r + 65535 * n && r <= 65535 && (r == 0 <==> s == 0)
  {
    var t := s / 65536 + s % 65536;
    r := (t + t / 65536) % 65536;
    n := s / 65536 + t / 65536;
  }

  /** The six bytes the code sums for the length and protocol stand for the eight of the standard. */
  lemma {:induction false} WholeSum(src: seq<Byte>, dst: seq<Byte>, protocol: Byte, data: seq<Byte>)
    requires |src| == 16 && |dst| == 16 && |data| <= 65535
    ensures var length := |data|;
            SumLE(PseudoHeader(src, dst, length, protocol) + data) ==
              SumLE(src + dst) + SumLE([length / 256, length % 256, 0, 0, 0, protocol]) + SumLE(data)
  {
    var length := |data|;
    hide SumLE;
    var h: Byte, w: Byte := length / 256, length % 256;
    var l: seq<Byte>, p: seq<Byte> := [0, 0, h, w], [0, 0, 0, protocol];
    SumAppend(src + dst + l + p, data);
    SumAppend(src + dst + l, p);
    SumAppend(src + dst, l);
    SumFour(0, 0, h, w);
    SumFour(0, 0, 0, protocol);
    SumAppend([h, w], p);
    SumPair(h, w);
    assert [h, w] + p == [h, w, 0, 0, 0, protocol];
  }

  lemma {:induction false} SumPair(a: Byte, b: Byte)
    ensures SumLE([a, b]) == WordLE(a, b)
  {
    assert [a, b][2..] == [];
  }

  lemma {:induction false} SumFour(a: Byte, b: Byte, c: Byte, d: Byte)
    ensures SumLE([a, b, c, d]) == WordLE(a, b) + WordLE(c, d)
  {
    assert [a, b, c, d][2..] == [c, d];
    SumPair(c, d);
  }

  /** Stored by a little-endian machine, the result is the checksum of the standard, which is
      computed and sent in network byte order. */
  lemma {:induction false} OnTheWire(whole: seq<Byte>, r: nat)
    requires r == Complement(Fold(SumLE(whole)))
    ensures var rfc := Complement(Fold(SumBE(whole)));
            rfc <= 65535 && r % 256 == rfc / 256 && r / 256 == rfc % 256
  {
    hide Fold, SumLE, SumBE;
    ByteOrder(whole);
    SwapWord(Fold(SumBE(whole)));
    SwapBytes(Complement(Fold(SumBE(whole))));
  }

  lemma {:induction false} SwapBytes(x: nat)
    requires x <= 65535
    ensures Swap(x) % 256 == x / 256 && Swap(x) / 256 == x % 256
  {
  }

  lemma {:induction false} SumUpdate(s: seq<Byte>, off: nat, a: Byte, b: Byte)
    requires off % 2 == 0 && off + 1 < |s|
    ensures SumLE(s[off := a][off + 1 := b]) + WordLE(s[off], s[off + 1]) == SumLE(s) + WordLE(a, b)
    decreases off
  {
    var t := s[off := a][off + 1 := b];
    if off == 0 {
      assert t[2..] == s[2..];
    } else {
      SumUpdate(s[2..], off - 2, a, b);
      assert t[2..] == s[2..][off - 2 := a][off - 1 := b];
    }
  }

  /** Put into its zeroed field, the result makes the sum over the whole packet fold to 0xffff,
      also when 0 had to be replaced. */
  lemma {:induction false} StoredVerifies(whole: seq<Byte>, off: nat, r: nat)
    requires off % 2 == 0 && off + 1 < |whole| && whole[off] == 0 && whole[off + 1] == 0
    requires r == Complement(Fold(SumLE(whole)))
    ensures Fold(SumLE(whole[off := r % 256][off + 1 := r / 256])) == 65535
  {
    hide Fold, SumLE;
    SumUpdate(whole, off, r % 256, r / 256);
    var k := FoldMeaning(SumLE(whole));
    var f := Fold(SumLE(whole));
    var n := k + (if f == 65535 then 1 else 0);
    FoldUnique(SumLE(whole) + r, 65535, n);
  }
}
