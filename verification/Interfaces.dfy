/** The growable interface table and the MLD version kept for each interface. */
module Interfaces {
  import opened Database

  const MIN_MTU := 1280

  /** The two exclusive command line modes. */
  datatype Mode = Both | Mld1Only | Mld2Only

  /** The MLD version detected on a link; `lastV1` is 0 when no MLDv1 time is remembered. */
  datatype Mld = Mld(version: nat, lastV1: int)

  /** A slot of the table; MTU 0 means that the slot is not in use. */
  datatype Intf = Intf(ifindex: nat, mtu: nat, mld: Mld, upstream: bool)

  const NO_INTF := Intf(0, 0, Mld(0, 0), false)

  // ----- the version machine

  /** int_set_mld_version, called with version 1 or 2 */
  function SetVersion(m: Mld, newversion: nat, mode: Mode, now: int): Mld {
    if newversion == 1 then
      if mode.Mld2Only? || m.version != 0 then m else Mld(1, now)
    else
      var m1 := if m.lastV1 != 0 && now > m.lastV1 + SUBSCRIPTION_TIMEOUT then Mld(0, 0) else m;
      if mode.Mld1Only? || m1.version != 0 then m1 else m1.(version := newversion)
  }

  /** An MLD packet seen on the link at some time. */
  datatype Seen = Seen(now: int, version: nat)

  ghost predicate SeenOk(h: seq<Seen>) {
    && (forall k | 0 <= k < |h| :: h[k].now > 0 && (h[k].version == 1 || h[k].version == 2))
    && (forall j, k | 0 <= j < k < |h| :: h[j].now <= h[k].now)
  }

  function Detect(h: seq<Seen>, mode: Mode): Mld {
    if h == [] then Mld(0, 0)
    else
      var n := |h| - 1;
      SetVersion(Detect(h[..n], mode), h[n].version, mode, h[n].now)
  }

  /** What holds of the machine in every reachable state. */
  predicate MldOk(m: Mld, mode: Mode) {
    && m.version <= 2 && (m.lastV1 != 0 <==> m.version == 1)
    && (mode.Mld1Only? ==> m.version != 2) && (mode.Mld2Only? ==> m.version != 1)
  }

  lemma {:induction false} DetectOk(h: seq<Seen>, mode: Mode)
    requires SeenOk(h)
    ensures MldOk(Detect(h, mode), mode)
  {
    if h != [] {
      DetectOk(h[..|h| - 1], mode);
    }
  }

  /** Version 1 was set by the MLDv1 packet `k` and has not been left since. */
  ghost predicate SetsV1(h: seq<Seen>, k: nat, mode: Mode) {
    && k < |h| && h[k].version == 1 && !mode.Mld2Only? && Detect(h[..k], mode).version == 0
    && forall j | k < j < |h| && h[j].version == 2 :: h[j].now <= h[k].now + 125
  }

  lemma {:induction false} SetsV1Step(h: seq<Seen>, k: nat, mode: Mode)
    requires h != []
    ensures var n := |h| - 1;
            SetsV1(h, k, mode) <==>
              if k == n then h[n].version == 1 && !mode.Mld2Only? && Detect(h[..n], mode).version == 0
              else SetsV1(h[..n], k, mode) && (h[n].version == 2 ==> h[n].now <= h[k].now + 125)
    ensures SetsV1(h, k, mode) ==> k < |h|
  {
    hide Detect;
    var n := |h| - 1;
    if k < n {
      assert h[..n][..k] == h[..k];
    }
    assert forall j | 0 <= j < n :: h[..n][j] == h[j];
  }

  lemma {:induction false} SetsV1Never(mode: Mode)
    ensures Detect([], mode) == Mld(0, 0) && forall k: nat :: !SetsV1([], k, mode)
  {
  }

  lemma {:induction false} DetectStep(h: seq<Seen>, mode: Mode)
    requires h != []
    ensures var n := |h| - 1; Detect(h, mode) == SetVersion(Detect(h[..n], mode), h[n].version, mode, h[n].now)
  {
  }

  /** The version is 1 exactly when an MLDv1 packet found it unset and no MLDv2 packet came more
      than 125 seconds after that one; later MLDv1 packets do not extend the period. */
  lemma {:induction false} VersionOneExactly(h: seq<Seen>, mode: Mode)
    requires SeenOk(h)
    ensures Detect(h, mode).version == 1 <==> exists k: nat :: SetsV1(h, k, mode)
    ensures forall k: nat | SetsV1(h, k, mode) :: k < |h| && Detect(h, mode).lastV1 == h[k].now
  {
    hide Detect, SetsV1;
    if h == [] {
      SetsV1Never(mode);
      return;
    }
    var n := |h| - 1;
    var m := Detect(h[..n], mode);
    DetectOk(h[..n], mode);
    DetectStep(h, mode);
    VersionOneExactly(h[..n], mode);
    if m.version == 1 {
      var k: nat :| SetsV1(h[..n], k, mode);
      SetsV1Step(h, k, mode);
    }
    SetsV1Step(h, n, mode);
    forall k: nat | SetsV1(h, k, mode)
      ensures Detect(h, mode).version == 1 && k < |h| && Detect(h, mode).lastV1 == h[k].now
    {
      SetsV1Step(h, k, mode);
    }
  }

  /** The intention written beside the code is to fall back when an older version shows up.  An
      MLDv1 packet takes effect exactly when the daemon is not restricted to MLDv2 and no version is
      known: with both versions allowed, when it is the first packet on the link; restricted to MLDv1,
      when no earlier MLDv1 packet still counts. */
  lemma {:induction false} MldV1TakesEffect(h: seq<Seen>, now: int, mode: Mode)
    requires SeenOk(h + [Seen(now, 1)])
    ensures var before, after := Detect(h, mode), Detect(h + [Seen(now, 1)], mode);
            && (after != before <==> !mode.Mld2Only? && before.version == 0)
            && (after != before ==> after == Mld(1, now))
    ensures mode.Both? ==> (Detect(h, mode).version == 0 <==> h == [])
    ensures mode.Mld1Only? ==> (Detect(h, mode).version == 0 <==> !exists k: nat :: SetsV1(h, k, mode))
  {
    hide SetsV1;
    var h' := h + [Seen(now, 1)];
    assert h'[..|h|] == h;
    assert forall k | 0 <= k < |h| :: h[k] == h'[k];
    DetectOk(h, mode);
    VersionOneExactly(h, mode);
    if h != [] {
      QueryAnswered(h, mode);
    }
  }

  /** An MLDv1 packet after an MLDv2 packet has no effect. */
  lemma {:induction false} SecondPacketIgnored()
    ensures Detect([Seen(1, 2), Seen(2, 1)], Both) == Detect([Seen(1, 2)], Both) == Mld(2, 0)
  {
    assert [Seen(1, 2), Seen(2, 1)][..1] == [Seen(1, 2)];
    assert [Seen(1, 2)][..0] == [];
  }

  /** Version 2 is final. */
  lemma {:induction false} NoDowngrade(h: seq<Seen>, j: nat, mode: Mode)
    requires SeenOk(h) && j <= |h| && Detect(h[..j], mode).version == 2
    ensures Detect(h, mode).version == 2
    decreases |h|
  {
    DetectOk(h[..j], mode);
    if j == |h| {
      assert h[..j] == h;
    } else {
      var n := |h| - 1;
      assert h[..n][..j] == h[..j];
      NoDowngrade(h[..n], j, mode);
      DetectOk(h[..n], mode);
    }
  }

  /** The version is 2 exactly when the daemon is not restricted to MLDv1, some packet was seen, of MLDv2 if
      the daemon is restricted to that, and version 1 is not in force. */
  lemma {:induction false} VersionTwoExactly(h: seq<Seen>, mode: Mode)
    requires SeenOk(h)
    ensures mode.Both? ==> (Detect(h, mode).version == 2 <==> h != [] && !exists k: nat :: SetsV1(h, k, mode))
    ensures mode.Mld1Only? ==> Detect(h, mode).version != 2
    ensures mode.Mld2Only? ==> (Detect(h, mode).version == 2 <==> exists k | 0 <= k < |h| :: h[k].version == 2)
    decreases |h|
  {
    hide SetsV1, Detect;
    DetectOk(h, mode);
    VersionOneExactly(h, mode);
    if h == [] {
      SetsV1Never(mode);
    } else {
      var n := |h| - 1;
      DetectStep(h, mode);
      DetectOk(h[..n], mode);
      VersionTwoExactly(h[..n], mode);
      assert forall k | 0 <= k < n :: h[..n][k] == h[k];
      if mode.Both? {
        QueryAnswered(h, mode);
      }
    }
  }

  datatype Answer = OneByOne | AllAtOnce | NoAnswer

  /** The three-way choice at the end of the query handler. */
  function QueryAnswer(m: Mld, mode: Mode): Answer {
    if !mode.Mld2Only? && (mode.Mld1Only? || m.version == 0 || m.version == 1) then OneByOne
    else if !mode.Mld1Only? && (mode.Mld2Only? || m.version == 2) then AllAtOnce
    else NoAnswer
  }

  predicate SendsV1(i: Intf, mode: Mode) {
    !mode.Mld2Only? && (mode.Mld1Only? || (i.mld.version == 0 && !i.upstream) || i.mld.version == 1)
  }

  predicate SendsV2(i: Intf, mode: Mode) {
    !mode.Mld1Only? && (mode.Mld2Only? || i.mld.version == 0 || i.mld.version == 2)
  }

  /** Every query is answered, and in the version then on record for the link. */
  lemma {:induction false} QueryAnswered(h: seq<Seen>, mode: Mode)
    requires SeenOk(h) && h != []
    ensures QueryAnswer(Detect(h, mode), mode) != NoAnswer
    ensures mode.Both? ==> Detect(h, mode).version != 0
    ensures QueryAnswer(Detect(h, mode), mode) == OneByOne <==>
            mode.Mld1Only? || (mode.Both? && Detect(h, mode).version == 1)
  {
    DetectOk(h, mode);
    DetectOk(h[..|h| - 1], mode);
  }

  /** A report goes out in exactly one version, unless no version is known on a link that is not
      upstream; there it goes out in both. */
  lemma {:induction false} ReportVersion(h: seq<Seen>, i: Intf, mode: Mode)
    requires SeenOk(h) && i.mld == Detect(h, mode)
    ensures SendsV1(i, mode) || SendsV2(i, mode)
    ensures SendsV1(i, mode) && SendsV2(i, mode) <==> mode.Both? && i.mld.version == 0 && !i.upstream
    ensures !SendsV2(i, mode) <==> mode.Mld1Only? || i.mld.version == 1
    ensures !SendsV1(i, mode) <==> mode.Mld2Only? || i.mld.version == 2 || (mode.Both? && i.mld.version == 0 && i.upstream)
  {
    DetectOk(h, mode);
  }

  // ----- the table

  /** What the system calls in int_create report about a link. */
  datatype Probe =
    | NoSocket
    | NoName
    | NoMtu
    | NoHwaddr(mtu: int)
    | Device(mtu: int, loopback: bool, upstream: bool)
  {
    predicate Usable() {
      Device? && mtu >= MIN_MTU && !loopback
    }
  }

  datatype SendResult = Sent | Failed | NoDevice

  /** The interfaces among `sent` whose device turned out to be gone. */
  function Gone(sent: seq<nat>, result: nat -> SendResult): set<nat> {
    set i | i in sent && result(i).NoDevice?
  }

  lemma {:induction false} GoneSnoc(sent: seq<nat>, i: nat, result: nat -> SendResult)
    ensures Gone(sent + [i], result) == Gone(sent, result) + Gone([i], result)
    ensures Gone([i], result) == if result(i).NoDevice? then {i} else {}
  {
  }

  type Table = map<nat, Intf>

  function Created(t: Table, ifindex: nat, probe: Probe): Table {
    if probe.Usable() then t[ifindex := Intf(ifindex, probe.mtu, Mld(0, 0), probe.upstream)]
    else if probe.NoSocket? then t
    else t - {ifindex}
  }

  ghost predicate TableOk(t: Table) {
    forall i | i in t :: t[i].ifindex == i && t[i].mtu >= 1280
  }

  /** The slots of a table in use. */
  ghost function LiveOf(s: seq<Intf>): Table {
    map i: nat | i < |s| && s[i].mtu != 0 :: s[i]
  }

  lemma {:induction false} LiveUpdate(s: seq<Intf>, i: nat, x: Intf)
    requires i < |s|
    ensures LiveOf(s[i := x]) == if x.mtu != 0 then LiveOf(s)[i := x] else LiveOf(s) - {i}
  {
  }

  lemma {:induction false} LiveGrown(s: seq<Intf>, bigger: seq<Intf>)
    requires |s| <= |bigger| && bigger[..|s|] == s && forall j | |s| <= j < |bigger| :: bigger[j] == NO_INTF
    ensures LiveOf(bigger) == LiveOf(s)
  {
    assert forall j | 0 <= j < |s| :: bigger[j] == bigger[..|s|][j];
  }

  class IntTable {
    var ints: array<Intf>

    ghost function Live(): Table
      reads this, ints
    {
      LiveOf(ints[..])
    }

    ghost predicate Valid()
      reads this, ints
    {
      TableOk(Live())
    }

    constructor ()
      ensures Valid() && Live() == map[] && fresh(ints)
    {
      ints := new Intf[0];
    }

    /** The realloc and clearing at the head of int_create. */
    method Grow(n: nat)
      requires n > ints.Length
      modifies this
      ensures fresh(ints) && ints.Length == n && Live() == old(Live())
    {
      var before := ints;
      var bigger := new Intf[n](_ => NO_INTF);
      var i := 0;
      while i < before.Length
        invariant i <= before.Length && bigger.Length == n
        invariant forall j | 0 <= j < i :: bigger[j] == before[j]
        invariant forall j | i <= j < n :: bigger[j] == NO_INTF
        modifies bigger
      {
        bigger[i] := before[i];
        i := i + 1;
      }
      LiveGrown(before[..], bigger[..]);
      ints := bigger;
    }

    method SetSlot(ifindex: nat, x: Intf)
      requires ifindex < ints.Length
      modifies ints
      ensures ints[ifindex] == x
      ensures Live() == if x.mtu != 0 then old(Live())[ifindex := x] else old(Live()) - {ifindex}
    {
      hide LiveOf;
      LiveUpdate(ints[..], ifindex, x);
      ints[ifindex] := x;
      assert ints[..] == old(ints[..])[ifindex := x];
    }

    /** int_create */
    method Create(ifindex: nat, probe: Probe) returns (ok: bool)
      requires Valid()
      modifies this, ints
      ensures ok <==> probe.Usable()
      ensures Live() == Created(old(Live()), ifindex, probe)
      ensures Valid() && (ints == old(ints) || fresh(ints))
    {
      hide LiveOf;
      if ifindex + 1 > ints.Length {
        Grow(ifindex + 1);
      }
      if probe.NoSocket? {
        return false;
      }
      SetSlot(ifindex, NO_INTF.(ifindex := ifindex));
      if probe.NoName? || probe.NoMtu? || probe.mtu < MIN_MTU {
        Destroy(ifindex);
        return false;
      }
      SetSlot(ifindex, ints[ifindex].(mtu := probe.mtu));
      if probe.NoHwaddr? || probe.loopback {
        Destroy(ifindex);
        return false;
      }
      SetSlot(ifindex, ints[ifindex].(upstream := probe.upstream));
      return true;
    }

    /** int_destroy */
    method Destroy(ifindex: nat)
      requires ifindex < ints.Length
      modifies ints
      ensures Live() == old(Live()) - {ifindex}
    {
      SetSlot(ifindex, ints[ifindex].(mtu := 0));
    }

    /** int_find */
    method Find(ifindex: nat) returns (found: bool)
      ensures found <==> ifindex in Live()
      ensures found ==> ifindex < ints.Length && ints[ifindex] == Live()[ifindex]
    {
      found := ifindex < ints.Length && ints[ifindex].mtu != 0;
    }

    lemma {:induction false} Slot(ifindex: nat)
      requires ifindex in Live()
      ensures ifindex < ints.Length && ints[ifindex] == Live()[ifindex]
    {
    }

    /** int_set_mld_version */
    method SetMldVersion(ifindex: nat, newversion: nat, mode: Mode, now: int)
      requires Valid() && ifindex in Live()
      modifies ints
      ensures Valid()
      ensures Live() == old(Live())[ifindex := old(Live())[ifindex].(
                mld := SetVersion(old(Live())[ifindex].mld, newversion, mode, now))]
    {
      hide LiveOf;
      Slot(ifindex);
      var m := ints[ifindex].mld;
      if newversion == 1 {
        if mode.Mld2Only? {
          return;
        }
        if m.version == 0 {
          SetSlot(ifindex, ints[ifindex].(mld := Mld(1, now)));
        }
      } else {
        if m.lastV1 != 0 && now > m.lastV1 + SUBSCRIPTION_TIMEOUT {
          m := Mld(0, 0);
          SetSlot(ifindex, ints[ifindex].(mld := m));
        }
        if mode.Mld1Only? {
          return;
        }
        if m.version == 0 {
          SetSlot(ifindex, ints[ifindex].(mld := m.(version := newversion)));
        }
      }
    }

    /** The end of sendpacket6: a send that finds the device gone destroys the interface. */
    method Send(ifindex: nat, result: SendResult)
      requires Valid() && ifindex in Live()
      modifies ints
      ensures Valid()
      ensures Live() == if result.NoDevice? then old(Live()) - {ifindex} else old(Live())
    {
      hide LiveOf;
      Slot(ifindex);
      if result.NoDevice? {
        Destroy(ifindex);
      }
    }
  }

  datatype TableOp =
    | Create(ifindex: nat, probe: Probe)
    | Destroy(ifindex: nat)
    | SetVersionOf(ifindex: nat, newversion: nat, mode: Mode, now: int)

  function TableStep(t: Table, op: TableOp): Table {
    match op
    case Create(i, probe) => Created(t, i, probe)
    case Destroy(i) => t - {i}
    case SetVersionOf(i, v, mode, now) =>
      if i in t then t[i := t[i].(mld := SetVersion(t[i].mld, v, mode, now))] else t
  }

  function TableRun(ops: seq<TableOp>): Table {
    if ops == [] then map[] else TableStep(TableRun(ops[..|ops| - 1]), ops[|ops| - 1])
  }

  /** After any sequence of creations, failed creations, destructions and version changes, every
      live slot has its own index and an MTU of at least 1280. */
  lemma {:induction false} TableRunOk(ops: seq<TableOp>)
    ensures TableOk(TableRun(ops))
  {
    if ops != [] {
      TableRunOk(ops[..|ops| - 1]);
    }
  }
}
