/** The wire format of an MLDv2 report (section 5.2 of RFC 3810) and the walk that reads it. */
module Wire {
  import opened Addresses
  import opened Database
  import opened Handlers

  const REPORT_HEADER := 8
  const RECORD_HEADER := 20
  const ADDR_SIZE := 16

  // ----- numbers in network byte order

  function Pow256(n: nat): (r: nat)
    ensures r > 0
  {
    if n == 0 then 1 else 256 * Pow256(n - 1)
  }

  function ToBytes(x: nat, n: nat): (s: seq<Byte>)
    ensures |s| == n
  {
    if n == 0 then [] else ToBytes(x / 256, n - 1) + [x % 256]
  }

  function FromBytes(s: seq<Byte>): nat {
    if s == [] then 0 else FromBytes(s[..|s| - 1]) * 256 + s[|s| - 1]
  }

  lemma {:induction false} FromBytesBound(s: seq<Byte>)
    ensures FromBytes(s) < Pow256(|s|)
  {
    if s != [] {
      FromBytesBound(s[..|s| - 1]);
    }
  }

  lemma {:induction false} BytesRoundTrip(x: nat, n: nat)
    requires x < Pow256(n)
    ensures FromBytes(ToBytes(x, n)) == x
  {
    if n > 0 {
      BytesRoundTrip(x / 256, n - 1);
      assert ToBytes(x, n)[..n - 1] == ToBytes(x / 256, n - 1);
    }
  }

  lemma {:induction false} AddrBytes()
    ensures Pow256(ADDR_SIZE) == ADDR_LIMIT && Pow256(2) == 65536
  {
    assert Pow256(4) == 0x1_0000_0000;
    assert Pow256(8) == 0x1_0000_0000_0000_0000;
    assert Pow256(12) == 0x1_0000_0000_0000_0000_0000_0000;
  }

  lemma {:induction false} DivTwice(x: nat, p: nat)
    requires p > 0
    ensures x / 256 / p == x / (256 * p)
  {
    var y := x / 256;
    var q, s := y / p, y % p;
    assert y == q * p + s;
    Regroup(q, p);
    QuotientIs(x, q, 256 * s + x % 256, 256 * p);
  }

  lemma {:induction false} Regroup(q: nat, p: nat)
    ensures q * (256 * p) == 256 * (q * p)
  {
  }

  lemma {:induction false} QuotientIs(x: nat, q: nat, r: int, c: nat)
    requires c > 0 && x == q * c + r && 0 <= r < c
    ensures x / c == q
  {
    var d := x / c - q;
    assert d * c == r - x % c;
    Multiples(d, c);
  }

  lemma {:induction false} Multiples(d: int, c: nat)
    ensures d >= 1 ==> d * c >= c
    ensures d <= -1 ==> d * c + c <= 0
  {
  }

  /** The most significant byte comes first. */
  lemma {:induction false} ByteAt(x: nat, n: nat, k: nat)
    requires k < n
    ensures ToBytes(x, n)[k] == x / Pow256(n - 1 - k) % 256
    decreases n
  {
    if k < n - 1 {
      var p := Pow256(n - 2 - k);
      ByteAt(x / 256, n - 1, k);
      DivTwice(x, p);
    }
  }

  /** The address classes, by the bytes of the address: ff00::/8, its scopes 1 and 2, and fe80::/10. */
  lemma {:induction false} ClassesByBytes(a: Addr)
    ensures var b := ToBytes(a, 16);
            && (IsMulticast(a) <==> b[0] == 0xff)
            && (IsMcNodeLocal(a) <==> b[0] == 0xff && b[1] % 16 == 1)
            && (IsMcLinkLocal(a) <==> b[0] == 0xff && b[1] % 16 == 2)
            && (IsLinkLocal(a) <==> b[0] == 0xfe && 0x80 <= b[1] <= 0xbf)
            && (IsLocalGroup(a) <==> b[0] == 0xff && (b[1] % 16 == 1 || b[1] % 16 == 2))
  {
    hide ToBytes, Pow256;
    ByteAt(a, 16, 0);
    ByteAt(a, 16, 1);
    TopPowers();
  }

  lemma {:induction false} TopPowers()
    ensures Pow256(15) == 0x100_0000_0000_0000_0000_0000_0000_0000
    ensures Pow256(14) == 0x1_0000_0000_0000_0000_0000_0000_0000
  {
    assert Pow256(4) == 0x1_0000_0000;
    assert Pow256(8) == 0x1_0000_0000_0000_0000;
    assert Pow256(12) == 0x1_0000_0000_0000_0000_0000_0000;
  }

  function ReadAddr(p: seq<Byte>, off: nat): Addr
    requires off + ADDR_SIZE <= |p|
  {
    AddrBytes();
    FromBytesBound(p[off..off + ADDR_SIZE]);
    FromBytes(p[off..off + ADDR_SIZE])
  }

  function ReadWord(p: seq<Byte>, off: nat): nat
    requires off + 2 <= |p|
  {
    var hi: nat, lo: nat := p[off], p[off + 1];
    256 * hi + lo
  }

  function ReadAddrs(p: seq<Byte>, off: nat, n: nat): (r: seq<Addr>)
    requires off + ADDR_SIZE * n <= |p|
    ensures |r| == n
    decreases n
  {
    if n == 0 then [] else [ReadAddr(p, off)] + ReadAddrs(p, off + ADDR_SIZE, n - 1)
  }

  lemma {:induction false} ReadAddrsAt(p: seq<Byte>, off: nat, n: nat, k: nat)
    requires off + ADDR_SIZE * n <= |p| && k < n
    ensures ReadAddrs(p, off, n)[k] == ReadAddr(p, off + ADDR_SIZE * k)
    decreases n
  {
    hide ReadAddr;
    if k > 0 {
      ReadAddrsAt(p, off + ADDR_SIZE, n - 1, k - 1);
    }
  }

  // ----- the walk

  datatype End = Complete | TooManyRecords | OutsidePacket | PastEnd | UnknownKind | TooManySources

  /** What a walk visited: the records handled in full, the group of a record given up on after
      its group was looked up, and how the walk ended. */
  datatype Visit = Visit(recs: seq<Record>, partial: Option<Addr>, end: End)

  function Parse(p: seq<Byte>, off: nat, ngrec: nat): Visit
    decreases ngrec
  {
    if ngrec == 0 then Visit([], None, Complete)
    else if off > |p| then Visit([], None, OutsidePacket)
    else if off + RECORD_HEADER > |p| then Visit([], None, PastEnd)
    else
      var kind, aux, nsrcs, mca := p[off], p[off + 1], ReadWord(p, off + 2), ReadAddr(p, off + 4);
      var src := off + RECORD_HEADER;
      if !KnownKind(kind) then Visit([], None, UnknownKind)
      else if src + ADDR_SIZE * nsrcs > |p| then Visit([], Some(mca), TooManySources)
      else
        var rest := Parse(p, src + ADDR_SIZE * nsrcs + aux, ngrec - 1);
        rest.(recs := [Record(kind, mca, ReadAddrs(p, src, nsrcs))] + rest.recs)
  }

  function ParseReport(p: seq<Byte>): Visit {
    if |p| < REPORT_HEADER then Visit([], None, PastEnd)
    else
      var ngrec := ReadWord(p, 6);
      if REPORT_HEADER + ngrec * RECORD_HEADER > |p| then Visit([], None, TooManyRecords)
      else Parse(p, REPORT_HEADER, ngrec)
  }

  // ----- the encoding of section 5.2 of RFC 3810

  /** A record with its auxiliary data, which the length field counts in 32-bit words. */
  datatype Item = Item(rec: Record, aux: seq<Byte>)

  ghost predicate ItemOk(it: Item) {
    1 <= it.rec.kind <= 6 && |it.rec.srcs| < 65536 && |it.aux| % 4 == 0 && |it.aux| / 4 < 256
  }

  function EncodeAddrs(srcs: seq<Addr>): (s: seq<Byte>)
    ensures |s| == ADDR_SIZE * |srcs|
  {
    if srcs == [] then [] else ToBytes(srcs[0], ADDR_SIZE) + EncodeAddrs(srcs[1..])
  }

  function EncodeHeader(rec: Record, words: Byte): (s: seq<Byte>)
    requires 1 <= rec.kind <= 6
    ensures |s| == RECORD_HEADER
  {
    [rec.kind, words] + ToBytes(|rec.srcs|, 2) + ToBytes(rec.mca, ADDR_SIZE)
  }

  function EncodeItem(it: Item): (s: seq<Byte>)
    requires ItemOk(it)
    ensures |s| == RECORD_HEADER + ADDR_SIZE * |it.rec.srcs| + |it.aux|
  {
    EncodeHeader(it.rec, |it.aux| / 4) + EncodeAddrs(it.rec.srcs) + it.aux
  }

  function EncodeItems(items: seq<Item>): (s: seq<Byte>)
    requires forall it | it in items :: ItemOk(it)
    ensures |s| >= RECORD_HEADER * |items|
  {
    if items == [] then [] else EncodeItem(items[0]) + EncodeItems(items[1..])
  }

  /** The header fields other than the record count are of no interest to the walk. */
  function EncodeReport(header: seq<Byte>, items: seq<Item>): seq<Byte>
    requires |header| == 6 && |items| < 65536 && forall it | it in items :: ItemOk(it)
  {
    header + ToBytes(|items|, 2) + EncodeItems(items)
  }

  function RecordsOf(items: seq<Item>): seq<Record> {
    seq(|items|, k requires 0 <= k < |items| => items[k].rec)
  }

  // ----- reading back what was written

  /** `p` holds the bytes `s` at position `off`. */
  ghost predicate Holds(p: seq<Byte>, off: nat, s: seq<Byte>) {
    off + |s| <= |p| && p[off..off + |s|] == s
  }

  lemma {:induction false} HoldsParts(p: seq<Byte>, off: nat, a: seq<Byte>, b: seq<Byte>)
    ensures Holds(p, off, a + b) <==> Holds(p, off, a) && Holds(p, off + |a|, b)
  {
    if off + |a| + |b| <= |p| {
      assert p[off..off + |a + b|] == p[off..off + |a|] + p[off + |a|..off + |a| + |b|];
      assert (a + b)[..|a|] == a && (a + b)[|a|..] == b;
    }
  }

  lemma {:induction false} ReadAddrBack(p: seq<Byte>, off: nat, a: Addr)
    requires Holds(p, off, ToBytes(a, ADDR_SIZE))
    ensures ReadAddr(p, off) == a
  {
    AddrBytes();
    BytesRoundTrip(a, ADDR_SIZE);
  }

  lemma {:induction false} ReadAddrsBack(p: seq<Byte>, off: nat, srcs: seq<Addr>)
    requires Holds(p, off, EncodeAddrs(srcs))
    ensures ReadAddrs(p, off, |srcs|) == srcs
    decreases |srcs|
  {
    if srcs != [] {
      HoldsParts(p, off, ToBytes(srcs[0], ADDR_SIZE), EncodeAddrs(srcs[1..]));
      ReadAddrBack(p, off, srcs[0]);
      ReadAddrsBack(p, off + ADDR_SIZE, srcs[1..]);
    }
  }

  lemma {:induction false} ReadWordBack(p: seq<Byte>, off: nat, x: nat)
    requires x < 65536 && Holds(p, off, ToBytes(x, 2))
    ensures ReadWord(p, off) == x
  {
    var s := ToBytes(x, 2);
    assert ToBytes(x / 256, 1) == [x / 256 % 256];
    assert s == [x / 256 % 256, x % 256];
    assert p[off] == s[0] && p[off + 1] == s[1];
  }

  lemma {:induction false} ReadHeaderBack(p: seq<Byte>, off: nat, rec: Record, words: Byte)
    requires 1 <= rec.kind <= 6 && |rec.srcs| < 65536 && Holds(p, off, EncodeHeader(rec, words))
    ensures off + RECORD_HEADER <= |p|
    ensures p[off] == rec.kind && p[off + 1] == words
    ensures ReadWord(p, off + 2) == |rec.srcs| && ReadAddr(p, off + 4) == rec.mca
  {
    var a, b, c := [rec.kind, words], ToBytes(|rec.srcs|, 2), ToBytes(rec.mca, ADDR_SIZE);
    HoldsParts(p, off, a + b, c);
    HoldsParts(p, off, a, b);
    ReadWordBack(p, off + 2, |rec.srcs|);
    ReadAddrBack(p, off + 4, rec.mca);
    assert p[off..off + 2][0] == rec.kind && p[off..off + 2][1] == words;
  }

  /** Auxiliary data is stepped over one byte per word; only the last record may have any. */
  ghost predicate AuxAtEndOnly(items: seq<Item>) {
    forall k | 0 <= k < |items| - 1 :: items[k].aux == []
  }

  /** One round of the walk on an encoded record. */
  lemma {:induction false} ParseStep(p: seq<Byte>, off: nat, it: Item, n: nat)
    requires ItemOk(it) && Holds(p, off, EncodeItem(it))
    ensures var rest := Parse(p, off + RECORD_HEADER + ADDR_SIZE * |it.rec.srcs| + |it.aux| / 4, n);
            Parse(p, off, n + 1) == rest.(recs := [it.rec] + rest.recs)
  {
    hide ReadAddr, ReadWord, EncodeHeader, ReadAddrs, EncodeAddrs, ToBytes;
    var head := EncodeHeader(it.rec, |it.aux| / 4);
    HoldsParts(p, off, head + EncodeAddrs(it.rec.srcs), it.aux);
    HoldsParts(p, off, head, EncodeAddrs(it.rec.srcs));
    hide Holds;
    ReadHeaderBack(p, off, it.rec, |it.aux| / 4);
    HoldsBound(p, off + RECORD_HEADER, EncodeAddrs(it.rec.srcs));
    ReadAddrsBack(p, off + RECORD_HEADER, it.rec.srcs);
  }

  lemma {:induction false} ParseNone(p: seq<Byte>, off: nat)
    ensures Parse(p, off, 0) == Visit([], None, Complete)
  {
  }

  lemma {:induction false} HoldsBound(p: seq<Byte>, off: nat, s: seq<Byte>)
    requires Holds(p, off, s)
    ensures off + |s| <= |p|
  {
  }

  lemma {:induction false} ParseInverts(p: seq<Byte>, off: nat, items: seq<Item>)
    requires forall it | it in items :: ItemOk(it)
    requires AuxAtEndOnly(items) && Holds(p, off, EncodeItems(items))
    ensures Parse(p, off, |items|) == Visit(RecordsOf(items), None, Complete)
    decreases |items|
  {
    hide EncodeItem, Holds, Parse;
    ParseNone(p, off);
    if items == [] {
      return;
    }
    var it, rest := items[0], items[1..];
    assert it in items;
    HoldsParts(p, off, EncodeItem(it), EncodeItems(rest));
    ParseStep(p, off, it, |rest|);
    var next := off + RECORD_HEADER + ADDR_SIZE * |it.rec.srcs| + |it.aux| / 4;
    if rest != [] {
      assert it.aux == [];
      assert forall k | 0 <= k < |rest| :: rest[k] == items[k + 1];
      ParseInverts(p, next, rest);
    } else {
      ParseNone(p, next);
    }
    assert RecordsOf(items) == [it.rec] + RecordsOf(rest);
  }

  /** The walk inverts the encoding: it visits exactly the records and sources sent, in order,
      and reads inside the payload only. */
  lemma {:induction false} WalkInverts(header: seq<Byte>, items: seq<Item>)
    requires |header| == 6 && |items| < 65536 && forall it | it in items :: ItemOk(it)
    requires AuxAtEndOnly(items)
    ensures ParseReport(EncodeReport(header, items)) == Visit(RecordsOf(items), None, Complete)
  {
    var p := EncodeReport(header, items);
    var count := ToBytes(|items|, 2);
    assert Holds(p, 0, p);
    HoldsParts(p, 0, header + count, EncodeItems(items));
    HoldsParts(p, 0, header, count);
    ReadWordBack(p, 6, |items|);
    ParseInverts(p, REPORT_HEADER, items);
  }

  // ----- malformed reports

  /** Records without auxiliary data are visited whatever comes behind them. */
  lemma {:induction false} ParsePrefix(p: seq<Byte>, off: nat, items: seq<Item>, n: nat)
    requires forall it | it in items :: ItemOk(it) && it.aux == []
    requires Holds(p, off, EncodeItems(items))
    ensures var rest := Parse(p, off + |EncodeItems(items)|, n);
            Parse(p, off, |items| + n) == rest.(recs := RecordsOf(items) + rest.recs)
    decreases |items|
  {
    hide EncodeItem, Holds, Parse, ItemOk;
    if items == [] {
      assert RecordsOf(items) + Parse(p, off, n).recs == Parse(p, off, n).recs;
    } else {
      var it, tail := items[0], items[1..];
      assert it in items;
      HoldsFirst(p, off, items);
      ParseStep(p, off, it, |tail| + n);
      var next := off + |EncodeItem(it)|;
      ParsePrefix(p, next, tail, n);
      assert RecordsOf(items) == [it.rec] + RecordsOf(tail);
      var r := Parse(p, next + |EncodeItems(tail)|, n).recs;
      assert [it.rec] + (RecordsOf(tail) + r) == RecordsOf(items) + r;
    }
  }

  /** A bad record ends the walk.  A type other than 1 to 6 ends it at once; a source count that reaches
      beyond the payload ends it after the group has been looked up; the records in front are handled. */
  lemma {:induction false} BadRecord(header: seq<Byte>, items: seq<Item>, bad: seq<Byte>, count: nat)
    requires |header| == 6 && (forall it | it in items :: ItemOk(it) && it.aux == [])
    requires |items| < count < 65536 && |bad| >= 20
    requires var p := header + ToBytes(count, 2) + EncodeItems(items) + bad; 8 + 20 * count <= |p|
    ensures var p, recs := header + ToBytes(count, 2) + EncodeItems(items) + bad, RecordsOf(items);
            && (!(1 <= bad[0] <= 6) ==> ParseReport(p) == Visit(recs, None, UnknownKind))
            && (1 <= bad[0] <= 6 && 20 + 16 * ReadWord(bad, 2) > |bad| ==>
                  ParseReport(p) == Visit(recs, Some(ReadAddr(bad, 4)), TooManySources))
  {
    hide EncodeItems, ToBytes, Holds, ReadAddr, ReadWord, ItemOk;
    var c, e := ToBytes(count, 2), EncodeItems(items);
    var p := header + c + e + bad;
    HoldsAll(p);
    HoldsParts(p, 0, header + c + e, bad);
    HoldsParts(p, 0, header + c, e);
    HoldsParts(p, 0, header, c);
    ReadWordBack(p, 6, count);
    ParsePrefix(p, 8, items, count - |items|);
    SameRead(p, 8 + |e|, bad);
    BadParse(p, 8 + |e|, count - |items|);
    assert RecordsOf(items) + [] == RecordsOf(items);
  }

  lemma {:induction false} BadParse(p: seq<Byte>, off: nat, n: nat)
    requires n > 0 && off + 20 <= |p|
    ensures !(1 <= p[off] <= 6) ==> Parse(p, off, n) == Visit([], None, UnknownKind)
    ensures 1 <= p[off] <= 6 && off + 20 + 16 * ReadWord(p, off + 2) > |p| ==>
              Parse(p, off, n) == Visit([], Some(ReadAddr(p, off + 4)), TooManySources)
  {
    hide ReadAddr, ReadWord;
  }

  lemma {:induction false} SameRead(p: seq<Byte>, off: nat, s: seq<Byte>)
    requires |s| >= 20 && Holds(p, off, s)
    ensures off + |s| <= |p| && p[off] == s[0]
    ensures ReadWord(p, off + 2) == ReadWord(s, 2) && ReadAddr(p, off + 4) == ReadAddr(s, 4)
  {
    assert forall k | 0 <= k < |s| :: p[off + k] == p[off..off + |s|][k] == s[k];
    assert p[off + 4..off + 20] == s[4..20];
  }

  /** A report that claims more records than it has room for is ignored as a whole. */
  lemma {:induction false} TooManyClaimed(p: seq<Byte>)
    requires |p| >= 8 && 8 + 20 * (256 * p[6] + p[7]) > |p|
    ensures ParseReport(p) == Visit([], None, TooManyRecords)
  {
  }

  /** Where the records of an encoded list start. */
  function Positions(items: seq<Item>, off: nat): (r: seq<nat>)
    requires forall it | it in items :: ItemOk(it)
    ensures |r| == |items|
  {
    if items == [] then [] else [off] + Positions(items[1..], off + |EncodeItem(items[0])|)
  }

  /** Where the walk's stepping rule looks for them. */
  function StepPositions(items: seq<Item>, off: nat): (r: seq<nat>)
    ensures |r| == |items|
  {
    if items == [] then []
    else
      var it := items[0];
      [off] + StepPositions(items[1..], off + RECORD_HEADER + ADDR_SIZE * |it.rec.srcs| + |it.aux| / 4)
  }

  /** The walk looks for every record where it starts, exactly when no record but the last has
      auxiliary data. */
  lemma {:induction false} SkipExactly(items: seq<Item>, off: nat)
    requires forall it | it in items :: ItemOk(it)
    ensures StepPositions(items, off) == Positions(items, off) <==> AuxAtEndOnly(items)
    decreases |items|
  {
    hide EncodeItem;
    if items != [] {
      var it, rest := items[0], items[1..];
      assert it in items;
      var a := off + RECORD_HEADER + ADDR_SIZE * |it.rec.srcs| + |it.aux| / 4;
      var b := off + |EncodeItem(it)|;
      var p, q := StepPositions(rest, a), Positions(rest, b);
      assert StepPositions(items, off) == [off] + p && Positions(items, off) == [off] + q;
      assert ([off] + p)[1..] == p && ([off] + q)[1..] == q;
      assert forall k | 0 <= k < |rest| :: rest[k] == items[k + 1];
      if it.aux == [] {
        SkipExactly(rest, a);
        assert AuxAtEndOnly(items) <==> AuxAtEndOnly(rest) by {
          assert forall k | 1 <= k < |items| :: items[k] == rest[k - 1];
        }
      } else if rest != [] {
        assert p[0] == a && q[0] == b && a != b;
      }
    }
  }

  /** What the walk then does: with `m` the first record that has auxiliary data and is not the last
      one, it visits the records up to `m` and goes on too early, inside that data, by three bytes for
      each word. */
  lemma {:induction false} AuxDiverts(p: seq<Byte>, off: nat, items: seq<Item>, m: nat)
    requires forall it | it in items :: ItemOk(it)
    requires Holds(p, off, EncodeItems(items))
    requires m < |items| - 1 && items[m].aux != [] && forall k | 0 <= k < m :: items[k].aux == []
    ensures var next := StepPositions(items, off)[m + 1];
            var rest := Parse(p, next, |items| - m - 1);
            && Parse(p, off, |items|) == rest.(recs := RecordsOf(items[..m + 1]) + rest.recs)
            && next == Positions(items, off)[m + 1] - 3 * (|items[m].aux| / 4)
            && next < Positions(items, off)[m + 1]
    decreases |items|
  {
    hide EncodeItem, EncodeItems, Holds, Parse, Positions, StepPositions, ItemOk;
    var it, tail := items[0], items[1..];
    assert it in items && items[m] in items;
    HoldsFirst(p, off, items);
    ParseStep(p, off, it, |tail|);
    var a := off + RECORD_HEADER + ADDR_SIZE * |it.rec.srcs| + |it.aux| / 4;
    var b := off + |EncodeItem(it)|;
    PositionsStep(items, off, m);
    if m == 0 {
      FirstPosition(tail, a);
      FirstPosition(tail, b);
      WordsPositive(it);
      assert RecordsOf(items[..1]) == [it.rec];
    } else {
      assert forall k | 0 <= k < |tail| :: tail[k] == items[k + 1];
      var n := m - 1;
      AuxDiverts(p, b, tail, n);
      assert RecordsOf(items[..m + 1]) == [it.rec] + RecordsOf(tail[..n + 1]);
      var r := Parse(p, StepPositions(tail, b)[n + 1], |tail| - n - 1).recs;
      assert [it.rec] + (RecordsOf(tail[..n + 1]) + r) == RecordsOf(items[..m + 1]) + r;
    }
  }

  lemma {:induction false} WordsPositive(it: Item)
    requires ItemOk(it) && it.aux != []
    ensures |it.aux| == 4 * (|it.aux| / 4) && |it.aux| / 4 > 0
  {
  }

  lemma {:induction false} HoldsFirst(p: seq<Byte>, off: nat, items: seq<Item>)
    requires items != [] && (forall it | it in items :: ItemOk(it)) && Holds(p, off, EncodeItems(items))
    ensures Holds(p, off, EncodeItem(items[0]))
    ensures Holds(p, off + |EncodeItem(items[0])|, EncodeItems(items[1..]))
  {
    hide Holds, EncodeItem;
    assert items[0] in items;
    HoldsParts(p, off, EncodeItem(items[0]), EncodeItems(items[1..]));
  }

  lemma {:induction false} PositionsStep(items: seq<Item>, off: nat, k: nat)
    requires k < |items| - 1 && forall it | it in items :: ItemOk(it)
    ensures var it := items[0];
            StepPositions(items, off)[k + 1] ==
              StepPositions(items[1..], off + RECORD_HEADER + ADDR_SIZE * |it.rec.srcs| + |it.aux| / 4)[k]
    ensures Positions(items, off)[k + 1] == Positions(items[1..], off + |EncodeItem(items[0])|)[k]
  {
    hide EncodeItem, ItemOk;
    assert items[0] in items;
  }

  lemma {:induction false} FirstPosition(items: seq<Item>, off: nat)
    requires items != [] && forall it | it in items :: ItemOk(it)
    ensures StepPositions(items, off)[0] == off && Positions(items, off)[0] == off
  {
  }

  /** Any one word of auxiliary data in front of a second record loses that record: the walk takes the
      word's second byte for a type, and its last one for the high byte of a source count. */
  lemma {:induction false} AuxMisleads(header: seq<Byte>, mca: Addr, word: seq<Byte>)
    requires |header| == 6 && |word| == 4
    ensures var rec := Record(IS_EXCLUDE, mca, []);
            var items := [Item(rec, word), Item(rec, [])];
            (forall it | it in items :: ItemOk(it)) &&
            var p := EncodeReport(header, items);
            |p| == 52 && ParseReport(p) ==
              if 1 <= word[1] <= 6 then Visit([rec], Some(ReadAddr(p, 33)), TooManySources)
              else Visit([rec], None, UnknownKind)
  {
    hide ToBytes, ReadAddr, EncodeHeader, EncodeAddrs, EncodeItem, Parse, Holds, ReadWord;
    var rec := Record(IS_EXCLUDE, mca, []);
    var first, second := Item(rec, word), Item(rec, []);
    var items := [first, second];
    var p := EncodeReport(header, items);
    var count := ToBytes(2, 2);
    assert items[1..] == [second] && [second][1..] == [];
    HoldsAll(p);
    HoldsParts(p, 0, header + count, EncodeItems(items));
    HoldsParts(p, 0, header, count);
    ReadWordBack(p, 6, 2);
    HoldsFirst(p, 8, items);
    HoldsFirst(p, 32, [second]);
    ParseStep(p, 8, first, 1);
    WordRead(p, first, second);
    assert [rec] + [] == [rec];
  }

  lemma {:induction false} HoldsAll(p: seq<Byte>)
    ensures Holds(p, 0, p)
  {
  }

  lemma {:induction false} WordRead(p: seq<Byte>, first: Item, second: Item)
    requires ItemOk(first) && ItemOk(second) && first.rec.srcs == [] && |first.aux| == 4
    requires second.rec.srcs == [] && second.aux == [] && |p| == 52
    requires Holds(p, 8, EncodeItem(first)) && Holds(p, 32, EncodeItem(second))
    ensures Parse(p, 29, 1) ==
            if 1 <= first.aux[1] <= 6 then Visit([], Some(ReadAddr(p, 33)), TooManySources)
            else Visit([], None, UnknownKind)
  {
    hide ToBytes, ReadAddr, EncodeHeader, EncodeAddrs;
    var a, b := EncodeHeader(first.rec, 1), EncodeHeader(second.rec, 0);
    HoldsParts(p, 8, a + EncodeAddrs([]), first.aux);
    assert b + EncodeAddrs([]) + [] == b;
    ReadHeaderBack(p, 32, second.rec, 0);
    assert p[28..32] == first.aux;
    assert p[29] == first.aux[1] && p[31] == p[28..32][3];
    assert ReadWord(p, 31) >= 1;
  }
}
