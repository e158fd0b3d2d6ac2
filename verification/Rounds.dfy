/** Rounds of reports and queries as values: on which interfaces a packet leaves, and which
    interfaces turn out to be gone. */
module Rounds {
  import opened Addresses
  import opened Database
  import opened Handlers
  import opened Interfaces
  import opened Reporting

  /** What left, and on which interfaces: reports for one group, a query, or one report for all groups. */
  datatype Round =
    | Report(mca: Addr, on: set<nat>)
    | Query(mca: Addr, on: set<nat>)
    | FullReport(on: set<nat>)

  /** The interface table afterwards and the rounds so far. */
  datatype Aired = Aired(table: Table, rounds: seq<Round>)

  function Lost(on: set<nat>, result: nat -> SendResult): set<nat> {
    set j | j in on && result(j).NoDevice?
  }

  /** The interfaces other than `i` on which a report for the group leaves. */
  function Emitters(t: Table, i: nat, s: Sending, mode: Mode): set<nat> {
    set j | j in t && j != i && Emits(s.db, s.mca, t[j], mode)
  }

  /** One round of reports for each re-broadcast; `result(n)` is what the sends of round n meet with. */
  function Broadcast(t: Table, i: nat, sent: seq<Sending>, mode: Mode, result: nat -> (nat -> SendResult)): Aired {
    if sent == [] then Aired(t, [])
    else
      var n := |sent| - 1;
      var a := Broadcast(t, i, sent[..n], mode, result);
      var on := Emitters(a.table, i, sent[n], mode);
      Aired(a.table - Lost(on, result(n)), a.rounds + [Report(sent[n].mca, on)])
  }

  /** Queries do not go upstream. */
  function Queried(t: Table): set<nat> {
    set j | j in t && !t[j].upstream
  }

  function QueryAll(t: Table, result: nat -> SendResult): Aired {
    Aired(t - Lost(Queried(t), result), [Query(ANY, Queried(t))])
  }

  /** The query for a group that lost its last listener on `i`. */
  function QueryOne(t: Table, i: nat, mca: Addr, result: nat -> SendResult): Aired {
    if i in Queried(t) then Aired(t - Lost({i}, result), [Query(mca, {i})]) else Aired(t, [])
  }

  /** One report after the other on `i`, each a round of its own; the slot `port` keeps its version fields when a send
      destroys the interface; then only MLDv1 reports still leave. */
  function AnswerEach(db: DB, t: Table, i: nat, port: Intf, mcas: seq<Addr>, mode: Mode,
                      result: nat -> (nat -> SendResult)): Aired {
    if mcas == [] then Aired(t, [])
    else
      var n := |mcas| - 1;
      var a := AnswerEach(db, t, i, port, mcas[..n], mode, result);
      if SendsV1(port, mode) || (i in a.table && Emits(db, mcas[n], port, mode))
      then Aired(a.table - Lost({i}, result(|a.rounds|)), a.rounds + [Report(mcas[n], {i})])
      else a
  }

  function AnswerAll(db: DB, t: Table, i: nat, result: nat -> SendResult): Aired {
    if Reports(db, None, i) then Aired(t - Lost({i}, result), [FullReport({i})]) else Aired(t, [])
  }

  /** The answer to a query on `i`. */
  function Answered(db: DB, t: Table, i: nat, mode: Mode, result: nat -> (nat -> SendResult)): Aired
    requires i in t
  {
    match QueryAnswer(t[i].mld, mode)
    case OneByOne => AnswerEach(db, t, i, t[i], Members(db, i), mode, result)
    case AllAtOnce => AnswerAll(db, t, i, result(0))
    case NoAnswer => Aired(t, [])
  }

  lemma {:induction false} BroadcastNone(t: Table, i: nat, mode: Mode, result: nat -> (nat -> SendResult))
    ensures Broadcast(t, i, [], mode, result) == Aired(t, [])
  {
  }

  lemma {:induction false} BroadcastSnoc(t: Table, i: nat, sent: seq<Sending>, s: Sending, mode: Mode,
                                         result: nat -> (nat -> SendResult))
    ensures var a := Broadcast(t, i, sent, mode, result);
            var on := Emitters(a.table, i, s, mode);
            Broadcast(t, i, sent + [s], mode, result) ==
              Aired(a.table - Lost(on, result(|sent|)), a.rounds + [Report(s.mca, on)])
  {
    hide Emitters, Lost;
    assert (sent + [s])[..|sent|] == sent;
  }

  lemma {:induction false} AnswerEachNone(db: DB, t: Table, i: nat, port: Intf, mode: Mode,
                                          result: nat -> (nat -> SendResult))
    ensures AnswerEach(db, t, i, port, [], mode, result) == Aired(t, [])
  {
  }

  lemma {:induction false} AnswerEachStep(db: DB, t: Table, i: nat, port: Intf, mcas: seq<Addr>, n: nat, mode: Mode,
                                          result: nat -> (nat -> SendResult))
    requires n < |mcas|
    ensures var a := AnswerEach(db, t, i, port, mcas[..n], mode, result);
            AnswerEach(db, t, i, port, mcas[..n + 1], mode, result) ==
              if SendsV1(port, mode) || (i in a.table && Emits(db, mcas[n], port, mode))
              then Aired(a.table - Lost({i}, result(|a.rounds|)), a.rounds + [Report(mcas[n], {i})])
              else a
  {
    hide Emits, Lost;
    assert mcas[..n + 1][..n] == mcas[..n];
  }
}
