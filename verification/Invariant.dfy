/** What every database step keeps, and what it does to each single entry.

    The database is a list of lists of lists searched front to back.  `EntryAfter` and
    `LookupAfter` show that it nevertheless behaves as a flat table: what a step does to the
    row of one group, interface and source depends on that row alone. */
module Invariant {
  import opened Addresses
  import opened Database

  predicate ValidMode(mode: nat) {
    mode == INCLUDE || mode == EXCLUDE
  }

  predicate SubOk(s: Sub, now: int) {
    ValidMode(s.mode) && (s.src == ANY ==> s.mode == INCLUDE) && s.refresh <= now
  }

  ghost predicate SubsOk(subs: seq<Sub>, now: int) {
    && (forall a, b | 0 <= a < b < |subs| :: subs[a].src != subs[b].src)
    && (forall a | 0 <= a < |subs| :: SubOk(subs[a], now))
  }

  /** The counter is the length of a non-empty list, and 0 or -2 for an empty one. */
  ghost predicate IntOk(gi: GrpInt, now: int) {
    && SubsOk(gi.subs, now)
    && (gi.subs != [] ==> gi.count == |gi.subs|)
    && (gi.subs == [] ==> gi.count == 0 || gi.count == -2)
  }

  ghost predicate IntsOk(ints: seq<GrpInt>, now: int) {
    && (forall a, b | 0 <= a < b < |ints| :: ints[a].ifindex != ints[b].ifindex)
    && (forall a | 0 <= a < |ints| :: IntOk(ints[a], now))
  }

  ghost predicate GroupOk(g: Group, now: int) {
    !IsLocalGroup(g.mca) && g.ints != [] && IntsOk(g.ints, now) && g.lastForward <= now
  }

  /** The database invariant; `now` bounds every time stamp in it. */
  ghost predicate Inv(db: DB, now: int) {
    && (forall a, b | 0 <= a < b < |db| :: db[a].mca != db[b].mca)
    && (forall a | 0 <= a < |db| :: GroupOk(db[a], now))
  }

  /** What the message handlers guarantee of the steps they make. */
  ghost predicate OpOk(op: Op) {
    op.Join? ==> !IsLocalGroup(op.mca) && forall w | w in op.writes :: ValidMode(w.mode)
  }

  // ----- preservation

  lemma {:induction false} RefreshOk(gi: GrpInt, src: Addr, mode: nat, now: int)
    requires IntOk(gi, now) && ValidMode(mode)
    ensures IntOk(Refresh(gi, src, mode, now), now)
    ensures Refresh(gi, src, mode, now).ifindex == gi.ifindex
  {
  }

  lemma {:induction false} RefreshAllOk(gi: GrpInt, writes: seq<Write>, now: int)
    requires IntOk(gi, now) && forall w | w in writes :: ValidMode(w.mode)
    ensures IntOk(RefreshAll(gi, writes, now), now)
    ensures RefreshAll(gi, writes, now).ifindex == gi.ifindex
    decreases |writes|
  {
    if writes != [] {
      assert writes[0] in writes;
      RefreshOk(gi, writes[0].src, writes[0].mode, now);
      RefreshAllOk(Refresh(gi, writes[0].src, writes[0].mode, now), writes[1..], now);
    }
  }

  lemma {:induction false} InvLater(db: DB, t: int, now: int)
    requires Inv(db, t) && t <= now
    ensures Inv(db, now)
  {
    forall a | 0 <= a < |db| ensures GroupOk(db[a], now) {
      assert GroupOk(db[a], t);
      forall b | 0 <= b < |db[a].ints| ensures IntOk(db[a].ints[b], now) {
        assert IntOk(db[a].ints[b], t);
        assert forall c | 0 <= c < |db[a].ints[b].subs| :: SubOk(db[a].ints[b].subs[c], t);
      }
    }
  }

  lemma {:induction false} WithIntOk(ints: seq<GrpInt>, ifindex: nat, now: int)
    requires IntsOk(ints, now)
    ensures IntsOk(WithInt(ints, ifindex), now) && WithInt(ints, ifindex) != []
  {
  }

  lemma {:induction false} ReplaceGroupOk(db: DB, k: nat, g: Group, now: int)
    requires Inv(db, now) && k < |db| && g.mca == db[k].mca && GroupOk(g, now)
    ensures Inv(db[k := g], now)
  {
    assert forall a | 0 <= a < |db| :: db[k := g][a].mca == db[a].mca;
  }

  lemma {:induction false} GetOk(db: DB, mca: Addr, ifindex: nat, now: int)
    requires Inv(db, now) && !IsLocalGroup(mca)
    ensures Inv(GroupintGet(db, mca, ifindex, now), now)
  {
    var k := FindGroup(db, mca);
    if k < |db| {
      assert GroupOk(db[k], now);
      WithIntOk(db[k].ints, ifindex, now);
      ReplaceGroupOk(db, k, Group(mca, WithInt(db[k].ints, ifindex), now), now);
    } else {
      WithIntOk([], ifindex, now);
      assert GroupOk(Group(mca, [GrpInt(ifindex, [], 0)], now), now);
    }
  }

  // ----- searching after an append or a replacement

  lemma {:induction false} FindGroupAppend(db: DB, x: Group, g: Addr)
    ensures FindGroup(db + [x], g) ==
            if FindGroup(db, g) < |db| then FindGroup(db, g) else if x.mca == g then |db| else |db| + 1
  {
    hide FindGroup;
    var r := db + [x];
    assert r[|db|] == x && forall j | 0 <= j < |db| :: r[j] == db[j];
    var k := FindGroup(r, g);
  }

  lemma {:induction false} FindGroupReplace(db: DB, k: nat, x: Group, g: Addr)
    requires k < |db| && x.mca == db[k].mca
    ensures FindGroup(db[k := x], g) == FindGroup(db, g)
  {
    hide FindGroup;
    var r := db[k := x];
    assert forall j | 0 <= j < |db| :: r[j].mca == db[j].mca;
    var a := FindGroup(r, g);
  }

  lemma {:induction false} EntryOfWithInt(ints: seq<GrpInt>, ifindex: nat, i: nat)
    ensures EntryOf(WithInt(ints, ifindex), i) ==
            if i == ifindex then Some(EntryOrEmpty(EntryOf(ints, i), i)) else EntryOf(ints, i)
  {
    hide FindInt;
    var r := WithInt(ints, ifindex);
    assert forall j | 0 <= j < |ints| :: r[j] == ints[j];
    assert |r| > |ints| ==> r[|ints|] == GrpInt(ifindex, [], 0);
    var a, b := FindInt(ints, i), FindInt(r, i);
  }

  lemma {:induction false} EntryOfReplace(ints: seq<GrpInt>, j: nat, gi: GrpInt, i: nat)
    requires j == FindInt(ints, gi.ifindex) && j < |ints|
    ensures EntryOf(ints[j := gi], i) == if i == gi.ifindex then Some(gi) else EntryOf(ints, i)
  {
    hide FindInt;
    var r := ints[j := gi];
    assert forall a | 0 <= a < |ints| :: r[a].ifindex == ints[a].ifindex;
    var a, b := FindInt(ints, i), FindInt(r, i);
  }

  /** groupint_get always leaves an entry for the interface, a new one being empty. */
  lemma {:induction false} GetEntry(db: DB, mca: Addr, ifindex: nat, now: int, g: Addr, i: nat)
    ensures Entry(GroupintGet(db, mca, ifindex, now), g, i) ==
            if g == mca && i == ifindex then Some(EntryOrEmpty(Entry(db, g, i), i)) else Entry(db, g, i)
  {
    hide FindGroup, FindInt;
    var k := FindGroup(db, mca);
    if k == |db| {
      FindGroupAppend(db, Group(mca, [GrpInt(ifindex, [], 0)], now), g);
      EntryOfWithInt([], ifindex, i);
      var empty: seq<GrpInt> := [];
      assert WithInt(empty, ifindex) == [GrpInt(ifindex, [], 0)];
    } else {
      FindGroupReplace(db, k, Group(mca, WithInt(db[k].ints, ifindex), now), g);
      EntryOfWithInt(db[k].ints, ifindex, i);
    }
  }

  function EntryOrEmpty(e: Option<GrpInt>, ifindex: nat): GrpInt {
    if e.Some? then e.value else GrpInt(ifindex, [], 0)
  }

  lemma {:induction false} UpdateEntry(db: DB, mca: Addr, ifindex: nat, gi: GrpInt, g: Addr, i: nat)
    requires Entry(db, mca, ifindex).Some? && gi.ifindex == ifindex
    ensures Entry(UpdateInt(db, mca, ifindex, gi), g, i) ==
            if g == mca && i == ifindex then Some(gi) else Entry(db, g, i)
  {
    hide FindGroup, FindInt;
    var k := FindGroup(db, mca);
    var j := FindInt(db[k].ints, ifindex);
    FindGroupReplace(db, k, db[k].(ints := db[k].ints[j := gi]), g);
    EntryOfReplace(db[k].ints, j, gi, i);
  }

  lemma {:induction false} UpdateOk(db: DB, mca: Addr, ifindex: nat, gi: GrpInt, now: int)
    requires Inv(db, now) && gi.ifindex == ifindex && IntOk(gi, now)
    ensures Inv(UpdateInt(db, mca, ifindex, gi), now)
  {
    var k := FindGroup(db, mca);
    if k < |db| {
      assert GroupOk(db[k], now);
    }
  }

  lemma {:induction false} EntryOk(db: DB, mca: Addr, ifindex: nat, now: int)
    requires Inv(db, now) && Entry(db, mca, ifindex).Some?
    ensures IntOk(Entry(db, mca, ifindex).value, now)
    ensures Entry(db, mca, ifindex).value.ifindex == ifindex
  {
    assert GroupOk(db[FindGroup(db, mca)], now);
  }

  lemma {:induction false} UnsubscribeOk(gi: GrpInt, now: int)
    requires IntOk(gi, now)
    ensures IntOk(Unsubscribe(gi), now)
  {
  }

  lemma {:induction false} ExpireSubsIn(subs: seq<Sub>, now: int)
    ensures forall s :: s in ExpireSubs(subs, now) <==> s in subs && !Stale(s, now)
  {
    if subs != [] {
      hide Stale;
      ExpireSubsIn(subs[1..], now);
      assert subs == [subs[0]] + subs[1..];
    }
  }

  lemma {:induction false} SubsCons(x: Sub, subs: seq<Sub>, now: int)
    requires SubOk(x, now) && SubsOk(subs, now) && forall s | s in subs :: s.src != x.src
    ensures SubsOk([x] + subs, now)
  {
    hide SubOk;
    var r := [x] + subs;
    assert forall a | 1 <= a < |r| :: r[a] == subs[a - 1] && r[a] in subs;
  }

  lemma {:induction false} ExpireSubsOk(subs: seq<Sub>, now: int)
    requires SubsOk(subs, now)
    ensures SubsOk(ExpireSubs(subs, now), now)
  {
    if subs != [] {
      hide Stale, SubOk;
      var rest := subs[1..];
      assert forall a | 0 <= a < |rest| :: rest[a] == subs[a + 1];
      ExpireSubsOk(rest, now);
      ExpireSubsIn(rest, now);
      SubsCons(subs[0], ExpireSubs(rest, now), now);
      assert [] + ExpireSubs(rest, now) == ExpireSubs(rest, now);
    }
  }

  lemma {:induction false} ExpireIntOk(gi: GrpInt, now: int)
    requires IntOk(gi, now)
    ensures IntOk(ExpireInt(gi, now), now)
    ensures ExpireInt(gi, now).count <= -2 <==> gi.count == -2
  {
    ExpireSubsOk(gi.subs, now);
  }

  lemma {:induction false} ExpireIntsFrom(ints: seq<GrpInt>, now: int, gi: GrpInt)
    requires gi in ExpireInts(ints, now)
    ensures exists a | 0 <= a < |ints| :: ints[a].ifindex == gi.ifindex
  {
    var x := ExpireInt(ints[0], now);
    if gi == x {
      assert ints[0].ifindex == gi.ifindex;
    } else {
      ExpireIntsFrom(ints[1..], now, gi);
      var a :| 0 <= a < |ints[1..]| && ints[1..][a].ifindex == gi.ifindex;
      assert ints[a + 1].ifindex == gi.ifindex;
    }
  }

  lemma {:induction false} IntsCons(x: GrpInt, ints: seq<GrpInt>, now: int)
    requires IntOk(x, now) && IntsOk(ints, now) && forall gi | gi in ints :: gi.ifindex != x.ifindex
    ensures IntsOk([x] + ints, now)
  {
    hide IntOk;
    var r := [x] + ints;
    assert forall a | 1 <= a < |r| :: r[a] == ints[a - 1] && r[a] in ints;
  }

  lemma {:induction false} ExpireIntsOk(ints: seq<GrpInt>, now: int)
    requires IntsOk(ints, now)
    ensures IntsOk(ExpireInts(ints, now), now)
  {
    if ints != [] {
      var rest := ints[1..];
      var r := ExpireInts(rest, now);
      assert IntsOk(rest, now) && forall a | 0 <= a < |rest| :: rest[a].ifindex != ints[0].ifindex by {
        hide IntOk;
        assert forall a | 0 <= a < |rest| :: rest[a] == ints[a + 1];
      }
      hide IntOk, ExpireInt;
      ExpireIntsOk(rest, now);
      ExpireIntOk(ints[0], now);
      forall gi | gi in r ensures gi.ifindex != ints[0].ifindex {
        ExpireIntsFrom(rest, now, gi);
      }
      IntsCons(ExpireInt(ints[0], now), r, now);
      assert [] + r == r;
    }
  }

  lemma {:induction false} ExpireGroupsFrom(db: DB, now: int, g: Group)
    requires g in ExpireGroups(db, now)
    ensures exists a | 0 <= a < |db| :: db[a].mca == g.mca
  {
    var x := db[0].(ints := ExpireInts(db[0].ints, now));
    if g == x {
      assert db[0].mca == g.mca;
    } else {
      ExpireGroupsFrom(db[1..], now, g);
      var a :| 0 <= a < |db[1..]| && db[1..][a].mca == g.mca;
      assert db[a + 1].mca == g.mca;
    }
  }

  lemma {:induction false} GroupsCons(x: Group, db: DB, now: int)
    requires GroupOk(x, now) && Inv(db, now) && forall g | g in db :: g.mca != x.mca
    ensures Inv([x] + db, now)
  {
    hide GroupOk;
    var r := [x] + db;
    assert forall a | 1 <= a < |r| :: r[a] == db[a - 1] && r[a] in db;
  }

  lemma {:induction false} ExpireGroupsOk(db: DB, now: int)
    requires Inv(db, now)
    ensures Inv(ExpireGroups(db, now), now)
  {
    if db != [] {
      var rest := db[1..];
      var r := ExpireGroups(rest, now);
      assert Inv(rest, now) && forall a | 0 <= a < |rest| :: rest[a].mca != db[0].mca by {
        hide GroupOk;
        assert forall a | 0 <= a < |rest| :: rest[a] == db[a + 1];
      }
      ExpireGroupsOk(rest, now);
      assert GroupOk(db[0], now);
      hide IntsOk, ExpireInts;
      ExpireIntsOk(db[0].ints, now);
      var x := db[0].(ints := ExpireInts(db[0].ints, now));
      if x.ints == [] {
        assert [] + r == r;
      } else {
        forall g | g in r ensures g.mca != x.mca {
          ExpireGroupsFrom(rest, now, g);
        }
        GroupsCons(x, r, now);
      }
    }
  }

  /** Every step keeps the database invariant. */
  lemma {:induction false} ApplyOk(db: DB, op: Op, t: int, now: int)
    requires Inv(db, t) && t <= now && OpOk(op)
    ensures Inv(Apply(db, op, now), now)
  {
    InvLater(db, t, now);
    match op
    case Join(mca, ifindex, writes) =>
      GetOk(db, mca, ifindex, now);
      GetEntry(db, mca, ifindex, now, mca, ifindex);
      var db1 := GroupintGet(db, mca, ifindex, now);
      EntryOk(db1, mca, ifindex, now);
      var gi := Entry(db1, mca, ifindex).value;
      RefreshAllOk(gi, writes, now);
      UpdateOk(db1, mca, ifindex, RefreshAll(gi, writes, now), now);
    case Leave(mca, ifindex) =>
      if Entry(db, mca, ifindex).Some? {
        EntryOk(db, mca, ifindex, now);
        var gi := Entry(db, mca, ifindex).value;
        UnsubscribeOk(gi, now);
        UpdateOk(db, mca, ifindex, Unsubscribe(gi), now);
      }
    case Expire =>
      ExpireGroupsOk(db, now);
  }

  // ----- the row of one group and interface

  /** What a step does to the row of group `g` and interface `i`. */
  function EntryEffect(op: Op, g: Addr, i: nat, e: Option<GrpInt>, now: int): Option<GrpInt> {
    match op
    case Join(mca, ifindex, writes) =>
      if g == mca && i == ifindex then Some(RefreshAll(EntryOrEmpty(e, i), writes, now)) else e
    case Leave(mca, ifindex) =>
      if g == mca && i == ifindex && e.Some? then Some(Unsubscribe(e.value)) else e
    case Expire =>
      if e.Some? && e.value.count != -2 then Some(ExpireInt(e.value, now)) else None
  }

  // A search looks at the first element, then at the rest; keys being distinct, it finds at
  // most one of the two.

  lemma {:induction false} EntryOfCons(x: GrpInt, ints: seq<GrpInt>, i: nat)
    ensures EntryOf([x] + ints, i) == if x.ifindex == i then Some(x) else EntryOf(ints, i)
  {
    assert ([x] + ints)[1..] == ints;
  }

  lemma {:induction false} IntsTail(ints: seq<GrpInt>, now: int)
    requires IntsOk(ints, now) && ints != []
    ensures IntsOk(ints[1..], now) && EntryOf(ints[1..], ints[0].ifindex) == None
  {
    assert forall a | 0 <= a < |ints[1..]| :: ints[1..][a] == ints[a + 1];
  }

  lemma {:induction false} ExpireIntsEntry(ints: seq<GrpInt>, i: nat, now: int)
    requires IntsOk(ints, now)
    ensures EntryOf(ExpireInts(ints, now), i) == EntryEffect(Expire, ANY, i, EntryOf(ints, i), now)
  {
    if ints != [] {
      var rest := ints[1..];
      IntsTail(ints, now);
      ExpireIntsEntry(rest, i, now);
      ExpireIntOk(ints[0], now);
      EntryOfCons(ints[0], rest, i);
      EntryOfCons(ExpireInt(ints[0], now), ExpireInts(rest, now), i);
      assert ints == [ints[0]] + rest;
      assert [] + ExpireInts(rest, now) == ExpireInts(rest, now);
    }
  }

  lemma {:induction false} EntryCons(x: Group, db: DB, g: Addr, i: nat)
    ensures Entry([x] + db, g, i) == if x.mca == g then EntryOf(x.ints, i) else Entry(db, g, i)
  {
    assert ([x] + db)[1..] == db;
  }

  lemma {:induction false} GroupsTail(db: DB, i: nat, now: int)
    requires Inv(db, now) && db != []
    ensures Inv(db[1..], now) && Entry(db[1..], db[0].mca, i) == None
  {
    assert forall a | 0 <= a < |db[1..]| :: db[1..][a] == db[a + 1];
  }

  lemma {:induction false} ExpireGroupsEntry(db: DB, g: Addr, i: nat, now: int)
    requires Inv(db, now)
    ensures Entry(ExpireGroups(db, now), g, i) == EntryEffect(Expire, g, i, Entry(db, g, i), now)
  {
    if db != [] {
      var rest := db[1..];
      GroupsTail(db, i, now);
      ExpireGroupsEntry(rest, g, i, now);
      assert GroupOk(db[0], now);
      ExpireIntsEntry(db[0].ints, i, now);
      EntryCons(db[0], rest, g, i);
      EntryCons(db[0].(ints := ExpireInts(db[0].ints, now)), ExpireGroups(rest, now), g, i);
      assert db == [db[0]] + rest;
      assert [] + ExpireGroups(rest, now) == ExpireGroups(rest, now);
    }
  }

  lemma {:induction false} EntryAfter(db: DB, op: Op, g: Addr, i: nat, t: int, now: int)
    requires Inv(db, t) && t <= now && OpOk(op)
    ensures Entry(Apply(db, op, now), g, i) == EntryEffect(op, g, i, Entry(db, g, i), now)
  {
    InvLater(db, t, now);
    match op
    case Join(mca, ifindex, writes) =>
      GetEntry(db, mca, ifindex, now, g, i);
      GetEntry(db, mca, ifindex, now, mca, ifindex);
      var db1 := GroupintGet(db, mca, ifindex, now);
      GetOk(db, mca, ifindex, now);
      EntryOk(db1, mca, ifindex, now);
      RefreshAllOk(Entry(db1, mca, ifindex).value, writes, now);
      UpdateEntry(db1, mca, ifindex, RefreshAll(Entry(db1, mca, ifindex).value, writes, now), g, i);
    case Leave(mca, ifindex) =>
      if Entry(db, mca, ifindex).Some? {
        EntryOk(db, mca, ifindex, now);
        UpdateEntry(db, mca, ifindex, Unsubscribe(Entry(db, mca, ifindex).value), g, i);
      }
    case Expire =>
      ExpireGroupsEntry(db, g, i, now);
  }

  // ----- the row of one source

  function LookupSub(subs: seq<Sub>, src: Addr): (r: Option<Sub>)
    ensures r.Some? ==> r.value.src == src && r.value in subs
  {
    var k := FindSub(subs, src);
    if k == |subs| then None else Some(subs[k])
  }

  function Lookup(db: DB, g: Addr, i: nat, s: Addr): Option<Sub> {
    match Entry(db, g, i)
    case None => None
    case Some(gi) => LookupSub(gi.subs, s)
  }

  /** The mode a list of writes leaves source `s` with, if it says anything about it. */
  function LastWrite(writes: seq<Write>, s: Addr): Option<nat> {
    if writes == [] then
      None
    else
      var w := writes[|writes| - 1];
      if w.src == s && (s != ANY || w.mode != EXCLUDE) then Some(w.mode)
      else LastWrite(writes[..|writes| - 1], s)
  }

  function LookupEffect(op: Op, g: Addr, i: nat, s: Addr, e: Option<Sub>, now: int): Option<Sub> {
    match op
    case Join(mca, ifindex, writes) =>
      if g == mca && i == ifindex && LastWrite(writes, s).Some?
      then Some(Sub(s, LastWrite(writes, s).value, now))
      else e
    case Leave(mca, ifindex) =>
      if g == mca && i == ifindex && s == ANY then None else e
    case Expire =>
      if e.Some? && now - e.value.refresh <= 250 then e else None
  }

  lemma {:induction false} FirstSub(subs: seq<Sub>, s: Addr, k: nat)
    requires k < |subs| && subs[k].src == s && forall j | 0 <= j < k :: subs[j].src != s
    ensures LookupSub(subs, s) == Some(subs[k])
  {
  }

  lemma {:induction false} NoSub(subs: seq<Sub>, s: Addr)
    requires forall j | 0 <= j < |subs| :: subs[j].src != s
    ensures LookupSub(subs, s) == None
  {
  }

  lemma {:induction false} RefreshLookup(gi: GrpInt, src: Addr, mode: nat, now: int, s: Addr)
    ensures LookupSub(Refresh(gi, src, mode, now).subs, s) ==
            if s == src && (s != ANY || mode != EXCLUDE) then Some(Sub(s, mode, now)) else LookupSub(gi.subs, s)
  {
    var r := Refresh(gi, src, mode, now).subs;
    assert forall j | 0 <= j < |gi.subs| :: r[j].src == gi.subs[j].src;
    var k := FindSub(gi.subs, s);
    if k < |r| && r[k].src == s {
      FirstSub(r, s, k);
    } else {
      NoSub(r, s);
    }
  }

  lemma {:induction false} RefreshAllLookup(gi: GrpInt, writes: seq<Write>, now: int, s: Addr)
    ensures LookupSub(RefreshAll(gi, writes, now).subs, s) ==
            if LastWrite(writes, s).Some? then Some(Sub(s, LastWrite(writes, s).value, now))
            else LookupSub(gi.subs, s)
    decreases |writes|
  {
    if writes != [] {
      var w := writes[0];
      RefreshLookup(gi, w.src, w.mode, now, s);
      RefreshAllLookup(Refresh(gi, w.src, w.mode, now), writes[1..], now, s);
      LastWriteCons(w, writes[1..], s);
      assert writes == [w] + writes[1..];
    }
  }

  lemma {:induction false} LastWriteCons(w: Write, writes: seq<Write>, s: Addr)
    ensures LastWrite([w] + writes, s) ==
            if LastWrite(writes, s).Some? then LastWrite(writes, s)
            else if w.src == s && (s != ANY || w.mode != EXCLUDE) then Some(w.mode) else None
    decreases |writes|
  {
    if writes == [] {
      assert ([w] + writes)[..0] == [];
    } else {
      LastWriteCons(w, writes[..|writes| - 1], s);
      assert ([w] + writes)[..|writes|] == [w] + writes[..|writes| - 1];
    }
  }

  lemma {:induction false} UnsubscribeLookup(gi: GrpInt, now: int, s: Addr)
    requires IntOk(gi, now)
    ensures LookupSub(Unsubscribe(gi).subs, s) == if s == ANY then None else LookupSub(gi.subs, s)
  {
    hide FindSub, LookupSub, SubOk;
    var subs := gi.subs;
    var k := FindSub(subs, ANY);
    if k == |subs| {
      NoSub(subs, ANY);
    } else {
      var r := subs[..k] + subs[k + 1..];
      assert forall j | 0 <= j < |r| :: r[j] == subs[if j < k then j else j + 1];
      var a := FindSub(subs, s);
      if s != ANY && a < |subs| {
        FirstSub(subs, s, a);
        FirstSub(r, s, if a < k then a else a - 1);
      } else {
        NoSub(r, s);
        if s != ANY {
          NoSub(subs, s);
        }
      }
    }
  }

  lemma {:induction false} LookupCons(x: Sub, subs: seq<Sub>, s: Addr)
    ensures LookupSub([x] + subs, s) == if x.src == s then Some(x) else LookupSub(subs, s)
  {
    assert ([x] + subs)[1..] == subs;
  }

  lemma {:induction false} ExpireLookup(subs: seq<Sub>, now: int, s: Addr)
    requires SubsOk(subs, now)
    ensures LookupSub(ExpireSubs(subs, now), s) ==
            if LookupSub(subs, s).Some? && !Stale(LookupSub(subs, s).value, now) then LookupSub(subs, s) else None
  {
    hide Stale, SubOk, LookupSub;
    if subs == [] {
      NoSub([], s);
    } else {
      var rest := subs[1..];
      assert forall a | 0 <= a < |rest| :: rest[a] == subs[a + 1];
      ExpireLookup(rest, now, s);
      assert subs == [subs[0]] + rest;
      LookupCons(subs[0], rest, s);
      LookupCons(subs[0], ExpireSubs(rest, now), s);
      if subs[0].src == s {
        NoSub(rest, s);
      }
      assert [] + ExpireSubs(rest, now) == ExpireSubs(rest, now);
    }
  }

  /** The timeout keeps a subscription exactly as long as it is at most 250 seconds old. */
  lemma {:induction false} TimeoutMeaning(db: DB, g: Addr, i: nat, s: Addr, now: int)
    requires Inv(db, now)
    ensures var e := Lookup(db, g, i, s);
            Lookup(ExpireGroups(db, now), g, i, s) == if e.Some? && now - e.value.refresh <= 250 then e else None
  {
    hide Inv, Lookup, ExpireGroups;
    LookupAfter(db, Expire, g, i, s, now, now);
  }

  /** A list marked for deletion is empty, so deleting it loses no source. */
  lemma {:induction false} LookupAfter(db: DB, op: Op, g: Addr, i: nat, s: Addr, t: int, now: int)
    requires Inv(db, t) && t <= now && OpOk(op)
    ensures Lookup(Apply(db, op, now), g, i, s) == LookupEffect(op, g, i, s, Lookup(db, g, i, s), now)
  {
    hide Inv, Apply, Entry, RefreshAll, Unsubscribe, ExpireSubs, LookupSub, LastWrite, SubsOk;
    InvLater(db, t, now);
    EntryAfter(db, op, g, i, t, now);
    NoSub([], s);
    var e := Entry(db, g, i);
    if e.Some? {
      EntryOk(db, g, i, now);
      UnsubscribeLookup(e.value, now, s);
      ExpireLookup(e.value.subs, now, s);
      LookupTime(e.value.subs, s, now);
    }
    if op.Join? {
      RefreshAllLookup(EntryOrEmpty(e, i), op.writes, now, s);
    }
  }

  lemma {:induction false} LookupTime(subs: seq<Sub>, s: Addr, now: int)
    requires SubsOk(subs, now)
    ensures LookupSub(subs, s).Some? ==> LookupSub(subs, s).value.refresh <= now
  {
  }
}
