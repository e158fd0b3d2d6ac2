/** The subscription database as a value: groups, the interfaces of a group, and the
    sources of an interface.  The functions here are the transitions the daemon's C
    functions make; `Hub.dfy` proves that the linked-list code makes exactly these. */
module Database {
  import opened Addresses

  const SUBSCRIPTION_TIMEOUT := 125
  const ROBUSTNESS_FACTOR := 2

  const INCLUDE: nat := 1
  const EXCLUDE: nat := 2

  datatype Option<+T> = None | Some(value: T)

  datatype Sub = Sub(src: Addr, mode: nat, refresh: int)

  /** `count` is the list's own counter, which doubles as the "delete me" marker -2. */
  datatype GrpInt = GrpInt(ifindex: nat, subs: seq<Sub>, count: int)

  datatype Group = Group(mca: Addr, ints: seq<GrpInt>, lastForward: int)

  type DB = seq<Group>

  // ----- the three list searches; a result equal to the length means "not found"

  function FindSub(subs: seq<Sub>, src: Addr): (k: nat)
    ensures k <= |subs|
    ensures k < |subs| ==> subs[k].src == src
    ensures forall j | 0 <= j < k :: subs[j].src != src
  {
    if subs == [] || subs[0].src == src then 0 else 1 + FindSub(subs[1..], src)
  }

  function FindInt(ints: seq<GrpInt>, ifindex: nat): (k: nat)
    ensures k <= |ints|
    ensures k < |ints| ==> ints[k].ifindex == ifindex
    ensures forall j | 0 <= j < k :: ints[j].ifindex != ifindex
  {
    if ints == [] || ints[0].ifindex == ifindex then 0 else 1 + FindInt(ints[1..], ifindex)
  }

  function FindGroup(db: DB, mca: Addr): (k: nat)
    ensures k <= |db|
    ensures k < |db| ==> db[k].mca == mca
    ensures forall j | 0 <= j < k :: db[j].mca != mca
  {
    if db == [] || db[0].mca == mca then 0 else 1 + FindGroup(db[1..], mca)
  }

  // ----- grpint_refresh

  /** "Exclude every source" is a request the daemon answers by doing nothing. */
  predicate IsExcludeAll(src: Addr, mode: nat) {
    mode == EXCLUDE && src == ANY
  }

  function Refresh(gi: GrpInt, src: Addr, mode: nat, now: int): GrpInt {
    var k := FindSub(gi.subs, src);
    if IsExcludeAll(src, mode) then
      gi
    else if k < |gi.subs| then
      gi.(subs := gi.subs[k := Sub(src, mode, now)])
    else
      gi.(subs := gi.subs + [Sub(src, mode, now)], count := (if gi.count < 0 then 0 else gi.count) + 1)
  }

  /** One source named by a report, with the mode it is to get. */
  datatype Write = Write(src: Addr, mode: nat)

  function RefreshAll(gi: GrpInt, writes: seq<Write>, now: int): GrpInt
    decreases |writes|
  {
    if writes == [] then
      gi
    else
      RefreshAll(Refresh(gi, writes[0].src, writes[0].mode, now), writes[1..], now)
  }

  // ----- groupint_get

  function WithInt(ints: seq<GrpInt>, ifindex: nat): seq<GrpInt> {
    if FindInt(ints, ifindex) < |ints| then ints else ints + [GrpInt(ifindex, [], 0)]
  }

  function GroupintGet(db: DB, mca: Addr, ifindex: nat, now: int): DB {
    var k := FindGroup(db, mca);
    if k == |db| then
      db + [Group(mca, [GrpInt(ifindex, [], 0)], now)]
    else
      db[k := Group(mca, WithInt(db[k].ints, ifindex), now)]
  }

  /** The answer `groupint_get` gives through `*isnew`. */
  predicate IsNew(db: DB, mca: Addr, now: int) {
    var k := FindGroup(db, mca);
    k == |db| || now - db[k].lastForward >= SUBSCRIPTION_TIMEOUT
  }

  // ----- the three kinds of database step

  /** `Join` is one MLDv1 report or one MLDv2 group record; `Leave` is an MLDv1 reduction;
      `Expire` is the periodic timeout. */
  datatype Op =
    | Join(mca: Addr, ifindex: nat, writes: seq<Write>)
    | Leave(mca: Addr, ifindex: nat)
    | Expire

  function UpdateInt(db: DB, mca: Addr, ifindex: nat, gi: GrpInt): DB {
    var k := FindGroup(db, mca);
    if k == |db| then db else
    var j := FindInt(db[k].ints, ifindex);
    if j == |db[k].ints| then db else
    db[k := db[k].(ints := db[k].ints[j := gi])]
  }

  function Entry(db: DB, mca: Addr, ifindex: nat): Option<GrpInt> {
    var k := FindGroup(db, mca);
    if k == |db| then None else EntryOf(db[k].ints, ifindex)
  }

  function EntryOf(ints: seq<GrpInt>, ifindex: nat): Option<GrpInt> {
    var j := FindInt(ints, ifindex);
    if j == |ints| then None else Some(ints[j])
  }

  function JoinStep(db: DB, mca: Addr, ifindex: nat, writes: seq<Write>, now: int): DB {
    var db1 := GroupintGet(db, mca, ifindex, now);
    match Entry(db1, mca, ifindex)
    case None => db1
    case Some(gi) => UpdateInt(db1, mca, ifindex, RefreshAll(gi, writes, now))
  }

  /** subscr_unsub on `::`, followed by the marking of a list that became empty. */
  function Unsubscribe(gi: GrpInt): GrpInt {
    var k := FindSub(gi.subs, ANY);
    if k == |gi.subs| then
      gi
    else
      gi.(subs := gi.subs[..k] + gi.subs[k + 1..],
          count := if gi.count - 1 <= 0 then -ROBUSTNESS_FACTOR else gi.count - 1)
  }

  /** Unsubscribing takes the last source of the list. */
  predicate Empties(gi: GrpInt) {
    FindSub(gi.subs, ANY) < |gi.subs| && gi.count - 1 <= 0
  }

  predicate LeaveEmpties(db: DB, mca: Addr, ifindex: nat) {
    Entry(db, mca, ifindex).Some? && Empties(Entry(db, mca, ifindex).value)
  }

  function LeaveStep(db: DB, mca: Addr, ifindex: nat): DB {
    match Entry(db, mca, ifindex)
    case None => db
    case Some(gi) => UpdateInt(db, mca, ifindex, Unsubscribe(gi))
  }

  function Abs(x: int): nat {
    if x < 0 then -x else x
  }

  predicate Stale(s: Sub, now: int) {
    Abs(now - s.refresh) > SUBSCRIPTION_TIMEOUT * ROBUSTNESS_FACTOR
  }

  function ExpireSubs(subs: seq<Sub>, now: int): (r: seq<Sub>)
    ensures |r| <= |subs|
  {
    if subs == [] then []
    else (if Stale(subs[0], now) then [] else [subs[0]]) + ExpireSubs(subs[1..], now)
  }

  function ExpireInt(gi: GrpInt, now: int): GrpInt {
    var subs := ExpireSubs(gi.subs, now);
    gi.(subs := subs, count := gi.count - (|gi.subs| - |subs|))
  }

  function ExpireInts(ints: seq<GrpInt>, now: int): seq<GrpInt> {
    if ints == [] then []
    else
      var gi := ExpireInt(ints[0], now);
      (if gi.count <= -ROBUSTNESS_FACTOR then [] else [gi]) + ExpireInts(ints[1..], now)
  }

  function ExpireGroups(db: DB, now: int): DB {
    if db == [] then []
    else
      var g := db[0].(ints := ExpireInts(db[0].ints, now));
      (if g.ints == [] then [] else [g]) + ExpireGroups(db[1..], now)
  }

  function Apply(db: DB, op: Op, now: int): DB {
    match op
    case Join(mca, ifindex, writes) => JoinStep(db, mca, ifindex, writes, now)
    case Leave(mca, ifindex) => LeaveStep(db, mca, ifindex)
    case Expire => ExpireGroups(db, now)
  }
}
