/** The walk over IPv6 extension headers that finds the payload of a packet. */
module ExtHeaders {
  import opened Addresses

  const FIXED_HEADER := 40

  const HOPOPTS: Byte := 0
  const ROUTING: Byte := 43
  const AUTH: Byte := 51
  const DSTOPTS: Byte := 60

  predicate IsSkipped(kind: Byte) {
    kind == HOPOPTS || kind == ROUTING || kind == DSTOPTS || kind == AUTH
  }

  /** Where the payload starts and how many bytes of it are left, as a 16-bit number. */
  datatype Found = Payload(kind: Byte, off: nat, plen: nat) | Corrupt | PastEnd

  function HeaderLength(units: Byte): nat {
    units * 8 + 8
  }

  /** The walk from position `off` of a packet, as a function. */
  function Walk(p: seq<Byte>, kind: Byte, off: nat, plen: nat): Found
    decreases |p| - off
  {
    if !IsSkipped(kind) then Payload(kind, off, plen)
    else if off + 2 > |p| then PastEnd
    else
      var l := HeaderLength(p[off + 1]);
      if off + l > |p| then Corrupt else Walk(p, p[off], off + l, (plen - l) % 65536)
  }

  /** The loop in l3_ipv6; `kind` and `plen` come from the fixed header. */
  method SkipHeaders(p: seq<Byte>, kind: Byte, plen: nat) returns (r: Found)
    requires |p| >= FIXED_HEADER && plen < 65536
    ensures r == Walk(p, kind, FIXED_HEADER, plen)
  {
    var k, off, left: int := kind, FIXED_HEADER, plen;
    while IsSkipped(k)
      invariant FIXED_HEADER <= off <= |p| && 0 <= left < 65536
      invariant Walk(p, k, off, left) == Walk(p, kind, FIXED_HEADER, plen)
      decreases |p| - off
    {
      if off + 2 > |p| {
        return PastEnd;
      }
      k := p[off];
      var l: int := HeaderLength(p[off + 1]);
      left := (left - l) % 65536;
      off := off + l;
      if off > |p| {
        return Corrupt;
      }
    }
    r := Payload(k, off, left);
  }

  // ----- the encoding of section 4 of RFC 8200

  /** A hop-by-hop, routing or destination options header; `body` is what follows its two fields. */
  datatype Ext = Ext(kind: Byte, body: seq<Byte>)

  predicate ExtOk(e: Ext) {
    && (e.kind == 0 || e.kind == 43 || e.kind == 60)
    && |e.body| % 8 == 6 && |e.body| <= 8 * 255 + 6
  }

  /** A next header value that is not one of those stepped over. */
  predicate IsUpper(kind: Byte) {
    kind != 0 && kind != 43 && kind != 51 && kind != 60
  }

  function FirstKind(exts: seq<Ext>, payload: Byte): Byte {
    if exts == [] then payload else exts[0].kind
  }

  function EncodeExt(e: Ext, next: Byte): (s: seq<Byte>)
    requires ExtOk(e)
    ensures |s| == |e.body| + 2
  {
    [next, (|e.body| - 6) / 8] + e.body
  }

  function EncodeChain(exts: seq<Ext>, payload: Byte): seq<Byte>
    requires forall e | e in exts :: ExtOk(e)
  {
    if exts == [] then [] else EncodeExt(exts[0], FirstKind(exts[1..], payload)) + EncodeChain(exts[1..], payload)
  }

  /** From wherever the chain starts, position plus remaining length stays the packet length, so
      the 16-bit subtraction never wraps. */
  lemma {:induction false} WalkChain(p: seq<Byte>, off: nat, exts: seq<Ext>, kind: Byte, data: seq<Byte>)
    requires (forall e | e in exts :: ExtOk(e)) && IsUpper(kind)
    requires off <= |p| && p[off..] == EncodeChain(exts, kind) + data && |p| - off < 65536
    ensures Walk(p, FirstKind(exts, kind), off, |p| - off) == Payload(kind, |p| - |data|, |data|)
    decreases |exts|
  {
    hide EncodeExt, Walk;
    if exts == [] {
      WalkEnds(p, kind, off, |p| - off);
    } else {
      var e, rest := exts[0], exts[1..];
      assert e in exts;
      var next := FirstKind(rest, kind);
      var tail := EncodeChain(rest, kind) + data;
      assert p[off..] == EncodeExt(e, next) + tail;
      WalkExt(p, off, e, next, tail);
      WalkChain(p, off + |e.body| + 2, rest, kind, data);
    }
  }

  lemma {:induction false} WalkEnds(p: seq<Byte>, kind: Byte, off: nat, plen: nat)
    requires IsUpper(kind)
    ensures Walk(p, kind, off, plen) == Payload(kind, off, plen)
  {
  }

  /** One round of the walk on an encoded header. */
  lemma {:induction false} WalkExt(p: seq<Byte>, off: nat, e: Ext, next: Byte, tail: seq<Byte>)
    requires ExtOk(e) && off <= |p| && p[off..] == EncodeExt(e, next) + tail && |p| - off < 65536
    ensures var n := off + |e.body| + 2;
            && n <= |p| && p[n..] == tail
            && Walk(p, e.kind, off, |p| - off) == Walk(p, next, n, |p| - n)
  {
    var s := EncodeExt(e, next);
    assert p[off] == p[off..][0] == s[0] && p[off + 1] == p[off..][1] == s[1];
    assert HeaderLength(p[off + 1]) == |s|;
    assert p[off + |s|..] == p[off..][|s|..] == tail;
  }

  /** The walk inverts the encoding: it ends at the payload, with its type and its length. */
  lemma {:induction false} WalkInverts(fixed: seq<Byte>, exts: seq<Ext>, kind: Byte, data: seq<Byte>)
    requires |fixed| == FIXED_HEADER && (forall e | e in exts :: ExtOk(e)) && IsUpper(kind)
    requires |EncodeChain(exts, kind)| + |data| < 65536
    ensures var p := fixed + EncodeChain(exts, kind) + data;
            var r := Walk(p, FirstKind(exts, kind), FIXED_HEADER, |p| - FIXED_HEADER);
            r.Payload? && r.kind == kind && r.plen == |data| && r.off <= |p| && p[r.off..] == data
  {
    var p := fixed + EncodeChain(exts, kind) + data;
    assert p[FIXED_HEADER..] == EncodeChain(exts, kind) + data;
    WalkChain(p, FIXED_HEADER, exts, kind, data);
  }

  /** An Authentication Header, number 51, counts its length in 4-byte units less two (section 2.2 of
      RFC 4302).  The walk steps over it in 8-byte units less one, which ends where the header ends exactly
      when the field is 0. */
  lemma {:induction false} AuthSkip(p: seq<Byte>, off: nat, units: nat, plen: nat)
    requires off + 2 <= |p| && p[off + 1] == units && off + 8 * units + 8 <= |p|
    ensures var next := off + 8 * units + 8;
            && Walk(p, 51, off, plen) == Walk(p, p[off], next, (plen - (8 * units + 8)) % 65536)
            && (next == off + 4 * (units + 2) <==> units == 0)
  {
  }

  /** A header that reaches beyond the packet makes it corrupt. */
  lemma {:induction false} BeyondPacket(p: seq<Byte>, kind: Byte, off: nat, units: nat, plen: nat)
    requires kind == 0 || kind == 43 || kind == 51 || kind == 60
    requires off + 2 <= |p| && p[off + 1] == units && off + 8 * units + 8 > |p|
    ensures Walk(p, kind, off, plen) == Corrupt
  {
  }
}
