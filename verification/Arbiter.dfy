/** The memory topology without caches: one memory, one waiting place for a data access and
    one for an instruction access, and an arbiter that prefers data. Every data access that
    is accepted is reported finished exactly once, and in time. */
module Arbiter {
  import opened Reports
  import opened CyclingMemory

  /** Access identifiers are 32 bits wide; 0 means no access. */
  const MAX_ID: nat := 0xFFFF_FFFF

  datatype Access = Access(id: nat, request: Request, numWords: nat)

  datatype Topology = Topology(memory: Memory, instructionQueue: seq<Access>, dataQueue: seq<Access>,
                               currentId: nat, currentIdAccessed: nat, finishedAccess: nat,
                               currentIdAccessesInstr: bool, waitingForJoin: bool)

  function IncrementId(id: nat): nat {
    if id >= MAX_ID then 1 else id + 1
  }

  /** A new instruction access replaces one that still waits. */
  function AccessInstr(t: Topology, address: nat, numWords: nat): Topology {
    t.(instructionQueue := (if |t.instructionQueue| > 0 then t.instructionQueue[1..] else [])
                           + [Access(t.currentId, Request(address, Load), numWords)],
       currentId := IncrementId(t.currentId))
  }

  /** A data access is turned away while another waits. */
  function AccessData(t: Topology, r: Request, numWords: nat): (Topology, Option<nat>) {
    if t.dataQueue == [] then
      (t.(dataQueue := [Access(t.currentId, r, numWords)], currentId := IncrementId(t.currentId)), Some(t.currentId))
    else (t, None)
  }

  function AccessMemory(c: Config, t: Topology, a: Access): (r: seq<Topology>)
    requires !Busy(t.memory) && Latency(c, a.numWords) > 0
  {
    var ms := Announce(c, t.memory, a.request, a.numWords);
    seq(|ms|, i requires 0 <= i < |ms| => t.(currentIdAccessed := a.id, memory := ms[i]))
  }

  /** The access the arbiter starts: a waiting data access, or a waiting instruction access
      unless it has to wait for data misses that may be to come. */
  function Started(c: Config, t: Topology, dataMissesPending: bool, strict: bool): (r: seq<Topology>)
    requires TopologyValid(c, t)
  {
    if t.currentIdAccessed != 0 then [t]
    else if t.dataQueue != [] then
      var rs := AccessMemory(c, t, t.dataQueue[0]);
      seq(|rs|, i requires 0 <= i < |rs| => rs[i].(dataQueue := t.dataQueue[1..], currentIdAccessesInstr := false))
    else if t.instructionQueue != [] && (!strict || !dataMissesPending) then
      var rs := AccessMemory(c, t, t.instructionQueue[0]);
      seq(|rs|, i requires 0 <= i < |rs| =>
        rs[i].(instructionQueue := t.instructionQueue[1..], currentIdAccessesInstr := true))
    else [t]
  }

  function FinishAccess(t: Topology): Topology {
    t.(finishedAccess := t.currentIdAccessed, waitingForJoin := true, currentIdAccessed := 0)
  }

  function Advanced(t: Topology, m: Memory): Topology {
    var n := t.(memory := m, finishedAccess := 0, waitingForJoin := false);
    if n.currentIdAccessed > 0 && !Busy(m) then FinishAccess(n) else n
  }

  function AllAdvanced(c: Config, ts: seq<Topology>): (r: seq<Topology>)
    requires ConfigValid(c)
  {
    if ts == [] then []
    else
      var ms := Cycle(c, ts[0].memory);
      seq(|ms|, i requires 0 <= i < |ms| => Advanced(ts[0], ms[i])) + AllAdvanced(c, ts[1..])
  }

  /** One clock cycle. Where arbitration is not strict, the program asserts that no data misses
      are pending when an instruction is started; without assertions it goes on like this. */
  function Clocked(c: Config, t: Topology, dataMissesPending: bool, strict: bool): (r: seq<Topology>)
    requires TopologyValid(c, t)
  {
    AllAdvanced(c, Started(c, t, dataMissesPending, strict))
  }

  function Forwarded(c: Config, t: Topology): (r: seq<Topology>)
    requires TopologyValid(c, t) && (Busy(t.memory) ==> CanForward(c, t.memory))
  {
    if Busy(t.memory) then
      var ms := FastForward(c, t.memory);
      seq(|ms|, i requires 0 <= i < |ms| => t.(memory := ms[i]))
    else [t]
  }

  // ---- what every step keeps ----------------------------------------------------

  predicate IdValid(id: nat) {
    1 <= id <= MAX_ID
  }

  predicate QueueValid(q: seq<Access>) {
    |q| <= 1 && (|q| == 1 ==> IdValid(q[0].id))
  }

  /** At most one access waits on each side, and the memory is busy exactly while there is an
      access in progress. */
  predicate TopologyValid(c: Config, t: Topology) {
    && c.latency >= 1 && MemoryValid(c, t.memory)
    && QueueValid(t.instructionQueue) && QueueValid(t.dataQueue)
    && IdValid(t.currentId) && t.currentIdAccessed <= MAX_ID
    && (Busy(t.memory) <==> t.currentIdAccessed != 0)
    && (t.waitingForJoin ==> t.currentIdAccessed == 0)
  }

  /** What the pipeline does with the topology. */
  datatype Action =
    | AskInstr(address: nat, words: nat)
    | AskData(request: Request, words: nat)
    | Query(id: nat)
    | Clock(dataMissesPending: bool)
    | Forward

  ghost predicate Performs(c: Config, strict: bool, t: Topology, move: Action, n: Topology)
    requires TopologyValid(c, t)
  {
    match move
    case AskInstr(address, words) => n == AccessInstr(t, address, words)
    case AskData(r, words) => n == AccessData(t, r, words).0
    case Query(id) => n == if t.finishedAccess == id then t.(finishedAccess := 0) else t
    case Clock(pending) => n in Clocked(c, t, pending, strict)
    case Forward => (Busy(t.memory) ==> CanForward(c, t.memory)) && n in Forwarded(c, t)
  }

  /** A clock cycle starts at most one access and then advances the memory. */
  lemma ClockedIs(c: Config, t: Topology, pending: bool, strict: bool, n: Topology)
    requires TopologyValid(c, t) && n in Clocked(c, t, pending, strict)
    ensures |Started(c, t, pending, strict)| == 1
    ensures var s := Started(c, t, pending, strict)[0];
      TopologyValid(c, s.(waitingForJoin := false)) && n.memory in Cycle(c, s.memory) && n == Advanced(s, n.memory)
  {
    var s := Started(c, t, pending, strict);
    assert |s| == 1;
    assert AllAdvanced(c, s[1..]) == [];
    var ms := Cycle(c, s[0].memory);
    var i :| 0 <= i < |ms| && n == Advanced(s[0], ms[i]);
    StartedMemory(c, t, pending, strict);
  }

  lemma StartedMemory(c: Config, t: Topology, pending: bool, strict: bool)
    requires TopologyValid(c, t)
    ensures |Started(c, t, pending, strict)| == 1
    ensures TopologyValid(c, Started(c, t, pending, strict)[0].(waitingForJoin := false))
  {
  }

  lemma StepKeepsValid(c: Config, strict: bool, t: Topology, move: Action, n: Topology)
    requires TopologyValid(c, t) && Performs(c, strict, t, move, n)
    ensures TopologyValid(c, n)
  {
    match move
    case AskInstr(address, words) => AskedValid(c, t, n, address, words);
    case AskData(r, words) => AskedDataValid(c, t, n, r, words);
    case Query(_) =>
    case Clock(pending) =>
      ClockedIs(c, t, pending, strict, n);
      AdvancedValid(c, Started(c, t, pending, strict)[0], n);
    case Forward => ForwardedValid(c, t, n);
  }

  lemma AskedValid(c: Config, t: Topology, n: Topology, address: nat, words: nat)
    requires TopologyValid(c, t) && n == AccessInstr(t, address, words)
    ensures TopologyValid(c, n)
  {
  }

  lemma AskedDataValid(c: Config, t: Topology, n: Topology, r: Request, words: nat)
    requires TopologyValid(c, t) && n == AccessData(t, r, words).0
    ensures TopologyValid(c, n)
  {
  }

  lemma AdvancedValid(c: Config, s: Topology, n: Topology)
    requires TopologyValid(c, s.(waitingForJoin := false))
    requires n.memory in Cycle(c, s.memory) && n == Advanced(s, n.memory)
    ensures TopologyValid(c, n)
  {
    StepsAreValid(c, s.memory);
    AdvancedBusy(c, s.memory, n.memory);
  }

  lemma ForwardedValid(c: Config, t: Topology, n: Topology)
    requires TopologyValid(c, t) && (Busy(t.memory) ==> CanForward(c, t.memory)) && n in Forwarded(c, t)
    ensures TopologyValid(c, n)
  {
    StepsAreValid(c, t.memory);
    if Busy(t.memory) {
      var ms := FastForward(c, t.memory);
      var i :| 0 <= i < |ms| && n == t.(memory := ms[i]);
      MemoryForwardBounds(c, t.memory, ms[i]);
    }
  }

  lemma ForwardedIs(c: Config, t: Topology, n: Topology)
    requires TopologyValid(c, t) && (Busy(t.memory) ==> CanForward(c, t.memory)) && n in Forwarded(c, t)
    ensures n == t.(memory := n.memory)
  {
  }

  lemma AdvancedBusy(c: Config, m: Memory, n: Memory)
    requires ConfigValid(c) && n in Cycle(c, m)
    ensures Busy(n) ==> Busy(m)
  {
  }

  // ---- one data access ---------------------------------------------------------------

  /** The access waits, or is in progress. */
  predicate Waiting(t: Topology, id: nat) {
    |t.dataQueue| == 1 && t.dataQueue[0].id == id
  }

  predicate InProgress(t: Topology, id: nat) {
    t.currentIdAccessed == id && !Waiting(t, id)
  }

  predicate Pending(t: Topology, id: nat) {
    Waiting(t, id) || InProgress(t, id)
  }

  /** Nothing else goes by that identifier. */
  predicate Unshared(t: Topology, id: nat) {
    && (|t.instructionQueue| == 1 ==> t.instructionQueue[0].id != id)
    && (Waiting(t, id) ==> t.currentIdAccessed != id)
  }

  predicate Gone(t: Topology, id: nat) {
    !Pending(t, id) && (|t.instructionQueue| == 1 ==> t.instructionQueue[0].id != id)
  }

  /** Identifiers drawn until this one comes up. */
  function Ahead(current: nat, id: nat): int {
    if id >= current then id - current else id - current + MAX_ID
  }

  predicate Draws(move: Action) {
    move.AskInstr? || move.AskData?
  }

  lemma DrawOnce(current: nat, id: nat)
    requires IdValid(current) && IdValid(id) && Ahead(current, id) > 0
    ensures current != id && Ahead(IncrementId(current), id) == Ahead(current, id) - 1
  {
  }

  function Words(t: Topology, id: nat): nat {
    if Waiting(t, id) then t.dataQueue[0].numWords else 0
  }

  /** The earliest and the latest total at which the access can be reported, counting cycles
      that were fast-forwarded: what is in progress, and the access itself if it waits. */
  function Earliest(c: Config, t: Topology, id: nat): int {
    Skipped(t.memory).lb + Left(t.memory) + (if Waiting(t, id) then Latency(c, Words(t, id)) else 0)
  }

  function Latest(c: Config, t: Topology, id: nat): int {
    Skipped(t.memory).ub + Left(t.memory) + Slack(c, t.memory)
    + (if Waiting(t, id) then Latency(c, Words(t, id)) + (if c.compositional then 0 else c.maxBlocking) else 0)
  }

  lemma MemoryCycleBounds(c: Config, m: Memory, n: Memory)
    requires MemoryValid(c, m) && Busy(m) && n in Cycle(c, m)
    ensures Skipped(n) == Skipped(m)
    ensures Left(n) + 1 >= Left(m)
    ensures Left(n) + Slack(c, n) + 1 <= Left(m) + Slack(c, m)
  {
  }

  lemma MemoryForwardBounds(c: Config, m: Memory, n: Memory)
    requires MemoryValid(c, m) && CanForward(c, m) && n in FastForward(c, m)
    ensures Busy(n)
    ensures Skipped(n).lb + Left(n) == Skipped(m).lb + Left(m)
    ensures Skipped(n).ub + Left(n) + Slack(c, n) == Skipped(m).ub + Left(m) + Slack(c, m)
  {
  }

  /** A clock cycle takes a cycle off both bounds, or the access is reported in it. */
  lemma ClockBounds(c: Config, strict: bool, t: Topology, pending: bool, n: Topology, id: nat)
    requires TopologyValid(c, t) && IdValid(id) && Pending(t, id) && Unshared(t, id)
    requires Performs(c, strict, t, Clock(pending), n)
    ensures Unshared(n, id)
    ensures Earliest(c, n, id) + 1 >= Earliest(c, t, id) && Latest(c, n, id) + 1 <= Latest(c, t, id)
    ensures Pending(n, id) <==> n.finishedAccess != id
    ensures !Pending(n, id) ==>
      Earliest(c, n, id) == Skipped(n.memory).lb && Latest(c, n, id) == Skipped(n.memory).ub
  {
    ClockedIs(c, t, pending, strict, n);
    StartBounds(c, t, pending, strict, id);
    AdvanceBounds(c, Started(c, t, pending, strict)[0], n, id);
  }

  /** A waiting access is started as soon as the memory is free; that changes no bound. */
  lemma StartBounds(c: Config, t: Topology, pending: bool, strict: bool, id: nat)
    requires TopologyValid(c, t) && IdValid(id) && Pending(t, id) && Unshared(t, id)
    ensures |Started(c, t, pending, strict)| == 1
    ensures var s := Started(c, t, pending, strict)[0];
      && Busy(s.memory) && Pending(s, id) && Unshared(s, id)
      && Earliest(c, s, id) == Earliest(c, t, id) && Latest(c, s, id) == Latest(c, t, id)
  {
  }

  lemma AdvanceBounds(c: Config, s: Topology, n: Topology, id: nat)
    requires TopologyValid(c, s.(waitingForJoin := false)) && IdValid(id) && Busy(s.memory)
    requires Pending(s, id) && Unshared(s, id)
    requires n.memory in Cycle(c, s.memory) && n == Advanced(s, n.memory)
    ensures Unshared(n, id)
    ensures Earliest(c, n, id) + 1 >= Earliest(c, s, id) && Latest(c, n, id) + 1 <= Latest(c, s, id)
    ensures Pending(n, id) <==> n.finishedAccess != id
    ensures !Pending(n, id) ==>
      Earliest(c, n, id) == Skipped(n.memory).lb && Latest(c, n, id) == Skipped(n.memory).ub
  {
    MemoryCycleBounds(c, s.memory, n.memory);
    assert Waiting(n, id) <==> Waiting(s, id);
  }

  lemma ForwardedBounds(c: Config, t: Topology, n: Topology, id: nat)
    requires TopologyValid(c, t) && Pending(t, id) && Unshared(t, id)
    requires (Busy(t.memory) ==> CanForward(c, t.memory)) && n in Forwarded(c, t)
    ensures Pending(n, id) && Unshared(n, id)
    ensures Earliest(c, n, id) == Earliest(c, t, id) && Latest(c, n, id) == Latest(c, t, id)
  {
    ForwardedIs(c, t, n);
    if Busy(t.memory) {
      MemoryForwardBounds(c, t.memory, n.memory);
    }
  }

  /** What is asked of the topology changes nothing for an access that has its identifier. */
  lemma AskedBounds(c: Config, t: Topology, n: Topology, id: nat)
    requires TopologyValid(c, t) && IdValid(id) && Pending(t, id) && Unshared(t, id)
    requires n.memory == t.memory && n.currentIdAccessed == t.currentIdAccessed
    requires |n.instructionQueue| == 1 ==> n.instructionQueue == t.instructionQueue || n.instructionQueue[0].id != id
    requires n.dataQueue == t.dataQueue || (t.dataQueue == [] && |n.dataQueue| == 1 && n.dataQueue[0].id != id)
    ensures Pending(n, id) && Unshared(n, id)
    ensures Earliest(c, n, id) == Earliest(c, t, id) && Latest(c, n, id) == Latest(c, t, id)
  {
  }

  lemma OtherBounds(c: Config, strict: bool, t: Topology, move: Action, n: Topology, id: nat)
    requires TopologyValid(c, t) && IdValid(id) && Pending(t, id) && Unshared(t, id) && !move.Clock?
    requires Performs(c, strict, t, move, n)
    requires Draws(move) ==> t.currentId != id
    ensures Pending(n, id) && Unshared(n, id)
    ensures Earliest(c, n, id) == Earliest(c, t, id) && Latest(c, n, id) == Latest(c, t, id)
  {
    if move.Forward? {
      ForwardedBounds(c, t, n, id);
    } else {
      AskedBounds(c, t, n, id);
    }
  }

  lemma StartedGone(c: Config, t: Topology, pending: bool, strict: bool, id: nat)
    requires TopologyValid(c, t) && IdValid(id) && Gone(t, id)
    ensures |Started(c, t, pending, strict)| == 1
    ensures Gone(Started(c, t, pending, strict)[0], id)
  {
  }

  lemma AdvancedGone(s: Topology, n: Topology, id: nat)
    requires IdValid(id) && Gone(s, id) && n == Advanced(s, n.memory)
    ensures Gone(n, id) && n.finishedAccess != id
  {
  }

  /** Once reported, it is not reported again. */
  lemma StaysGone(c: Config, strict: bool, t: Topology, move: Action, n: Topology, id: nat)
    requires TopologyValid(c, t) && IdValid(id) && Gone(t, id)
    requires Performs(c, strict, t, move, n)
    requires Draws(move) ==> t.currentId != id
    ensures Gone(n, id) && (move.Clock? ==> n.finishedAccess != id)
  {
    match move
    case Clock(pending) =>
      ClockedIs(c, t, pending, strict, n);
      StartedGone(c, t, pending, strict, id);
      AdvancedGone(Started(c, t, pending, strict)[0], n, id);
    case Forward => ForwardedIs(c, t, n);
    case _ =>
  }

  // ---- runs ------------------------------------------------------------------------------

  ghost predicate IsHistory(c: Config, strict: bool, ts: seq<Topology>, moves: seq<Action>) {
    && |ts| == |moves| + 1
    && TopologyValid(c, ts[0])
    && (moves != [] ==> Performs(c, strict, ts[0], moves[0], ts[1]) && IsHistory(c, strict, ts[1..], moves[1..]))
  }

  function Clocks(moves: seq<Action>): (n: nat) {
    if moves == [] then 0 else (if moves[0].Clock? then 1 else 0) + Clocks(moves[1..])
  }

  function DrawCount(moves: seq<Action>): (n: nat) {
    if moves == [] then 0 else (if Draws(moves[0]) then 1 else 0) + DrawCount(moves[1..])
  }

  /** The clock cycles in which the access is reported finished. */
  function Reported(ts: seq<Topology>, moves: seq<Action>, id: nat): (n: nat)
    requires |ts| == |moves| + 1
  {
    if moves == [] then 0
    else (if moves[0].Clock? && ts[1].finishedAccess == id then 1 else 0) + Reported(ts[1..], moves[1..], id)
  }

  lemma {:induction false} NeverAgain(c: Config, strict: bool, ts: seq<Topology>, moves: seq<Action>, id: nat)
    requires IsHistory(c, strict, ts, moves) && IdValid(id) && Gone(ts[0], id)
    requires DrawCount(moves) <= Ahead(ts[0].currentId, id)
    ensures Reported(ts, moves, id) == 0
    decreases moves
  {
    if moves != [] {
      DrawStep(c, strict, ts[0], moves[0], ts[1], id);
      StaysGone(c, strict, ts[0], moves[0], ts[1], id);
      NeverAgain(c, strict, ts[1..], moves[1..], id);
    }
  }

  lemma ClockDrawsNone(c: Config, t: Topology, pending: bool, strict: bool, n: Topology)
    requires TopologyValid(c, t) && n in Clocked(c, t, pending, strict)
    ensures n.currentId == t.currentId
  {
    ClockedIs(c, t, pending, strict, n);
  }

  lemma DrawStep(c: Config, strict: bool, t: Topology, move: Action, n: Topology, id: nat)
    requires TopologyValid(c, t) && IdValid(id) && Performs(c, strict, t, move, n)
    requires Draws(move) ==> Ahead(t.currentId, id) > 0
    ensures Draws(move) ==> t.currentId != id
    ensures Ahead(n.currentId, id) >= Ahead(t.currentId, id) - (if Draws(move) then 1 else 0)
  {
    match move
    case Clock(pending) => ClockDrawsNone(c, t, pending, strict, n);
    case Forward => ForwardedIs(c, t, n);
    case Query(_) =>
    case _ => DrawOnce(t.currentId, id);
  }

  function Ticks(move: Action): nat {
    if move.Clock? then 1 else 0
  }

  /** One step of a run: only a clock cycle reports the access or takes time off its bounds. */
  lemma OneStep(c: Config, strict: bool, t: Topology, move: Action, n: Topology, id: nat)
    requires TopologyValid(c, t) && IdValid(id) && Pending(t, id) && Unshared(t, id)
    requires Performs(c, strict, t, move, n)
    requires Draws(move) ==> t.currentId != id
    ensures TopologyValid(c, n) && Unshared(n, id)
    ensures Earliest(c, n, id) + Ticks(move) >= Earliest(c, t, id)
    ensures Latest(c, n, id) + Ticks(move) <= Latest(c, t, id)
    ensures Pending(n, id) <==> !(move.Clock? && n.finishedAccess == id)
    ensures !Pending(n, id) ==>
      Earliest(c, n, id) == Skipped(n.memory).lb && Latest(c, n, id) == Skipped(n.memory).ub
  {
    StepKeepsValid(c, strict, t, move, n);
    if move.Clock? {
      ClockBounds(c, strict, t, move.dataMissesPending, n, id);
    } else {
      OtherBounds(c, strict, t, move, n, id);
    }
  }

  /** A pending access is reported at most once; as long as it is not, the clock cycles so far
      stay below the latest time. */
  lemma {:induction false} ReportedInTime(c: Config, strict: bool, ts: seq<Topology>, moves: seq<Action>, id: nat)
    requires IsHistory(c, strict, ts, moves) && IdValid(id) && Pending(ts[0], id) && Unshared(ts[0], id)
    requires DrawCount(moves) <= Ahead(ts[0].currentId, id)
    ensures Reported(ts, moves, id) <= 1
    ensures Reported(ts, moves, id) == 0 ==>
      && Pending(ts[|moves|], id) && TopologyValid(c, ts[|moves|])
      && Clocks(moves) + Latest(c, ts[|moves|], id) <= Latest(c, ts[0], id)
    decreases moves
  {
    if moves != [] {
      var t, n := ts[0], ts[1];
      DrawStep(c, strict, t, moves[0], n, id);
      OneStep(c, strict, t, moves[0], n, id);
      if Pending(n, id) {
        ReportedInTime(c, strict, ts[1..], moves[1..], id);
      } else {
        NeverAgain(c, strict, ts[1..], moves[1..], id);
      }
    }
  }

  lemma FirstClocks(moves: seq<Action>, k: nat)
    requires k < |moves|
    ensures Clocks(moves[..k + 1]) == Ticks(moves[0]) + Clocks(moves[1..][..k])
  {
    assert moves[..k + 1][1..] == moves[1..][..k];
  }

  lemma FirstReported(ts: seq<Topology>, moves: seq<Action>, k: nat, id: nat)
    requires |ts| == |moves| + 1 && 0 < k < |moves| && Reported(ts[..k + 1], moves[..k], id) == 0
    ensures !(moves[0].Clock? && ts[1].finishedAccess == id)
    ensures Reported(ts[1..][..k], moves[1..][..k - 1], id) == 0
  {
    assert moves[..k][1..] == moves[1..][..k - 1];
    assert ts[..k + 1][1..] == ts[1..][..k];
  }

  /** The report comes at a total between the earliest and the latest, counting the clock
      cycles up to it and what was fast-forwarded. */
  lemma {:induction false} ReportTime(c: Config, strict: bool, ts: seq<Topology>, moves: seq<Action>, id: nat, k: nat)
    requires IsHistory(c, strict, ts, moves) && IdValid(id) && Pending(ts[0], id) && Unshared(ts[0], id)
    requires DrawCount(moves) <= Ahead(ts[0].currentId, id)
    requires k < |moves| && moves[k].Clock? && ts[k + 1].finishedAccess == id
    requires Reported(ts[..k + 1], moves[..k], id) == 0
    ensures Clocks(moves[..k + 1]) + Skipped(ts[k + 1].memory).lb >= Earliest(c, ts[0], id)
    ensures Clocks(moves[..k + 1]) + Skipped(ts[k + 1].memory).ub <= Latest(c, ts[0], id)
    decreases moves
  {
    var t, n := ts[0], ts[1];
    DrawStep(c, strict, t, moves[0], n, id);
    OneStep(c, strict, t, moves[0], n, id);
    FirstClocks(moves, k);
    if k > 0 {
      FirstReported(ts, moves, k, id);
      ReportTime(c, strict, ts[1..], moves[1..], id, k - 1);
    }
  }

  /** A data access that is accepted is reported finished in exactly one clock cycle, at the
      latest after what remained of the access in progress, its own latency and the largest
      blocking, however many instruction accesses come in meanwhile. (As long as identifiers
      are not drawn all the way round.) */
  lemma AcceptedIsReported(c: Config, strict: bool, t: Topology, r: Request, numWords: nat,
                           ts: seq<Topology>, moves: seq<Action>)
    requires TopologyValid(c, t) && AccessData(t, r, numWords).1.Some?
    requires |t.instructionQueue| == 1 ==> t.instructionQueue[0].id != t.currentId
    requires t.currentIdAccessed != t.currentId
    requires IsHistory(c, strict, ts, moves) && ts[0] == AccessData(t, r, numWords).0
    requires DrawCount(moves) < MAX_ID
    requires Clocks(moves) >= Skipped(t.memory).ub + Left(t.memory) + Slack(c, t.memory) + Latency(c, numWords)
                              + (if c.compositional then 0 else c.maxBlocking)
    ensures Reported(ts, moves, t.currentId) == 1
  {
    var id := t.currentId;
    assert Waiting(ts[0], id);
    ReportedInTime(c, strict, ts, moves, id);
    if Reported(ts, moves, id) == 0 {
      LatestIsPositive(c, ts[|moves|], id);
      assert false;
    }
  }

  lemma LatestIsPositive(c: Config, t: Topology, id: nat)
    requires TopologyValid(c, t) && IdValid(id) && Pending(t, id)
    ensures Latest(c, t, id) >= 1
  {
  }

  // ---- from the start ------------------------------------------------------------------------

  function Initial(m: Memory): Topology {
    Topology(m, [], [], 1, 0, 0, false, false)
  }

  /** No identifier in use is to be drawn yet. */
  predicate IdsBelow(t: Topology) {
    && (forall i :: 0 <= i < |t.instructionQueue| ==> t.instructionQueue[i].id < t.currentId)
    && (forall i :: 0 <= i < |t.dataQueue| ==> t.dataQueue[i].id < t.currentId)
    && t.currentIdAccessed < t.currentId
  }

  lemma StartedIds(c: Config, t: Topology, pending: bool, strict: bool)
    requires TopologyValid(c, t) && IdsBelow(t)
    ensures |Started(c, t, pending, strict)| == 1
    ensures IdsBelow(Started(c, t, pending, strict)[0])
    ensures Started(c, t, pending, strict)[0].currentId == t.currentId
  {
  }

  lemma AdvancedIds(s: Topology, n: Topology)
    requires IdsBelow(s) && n == Advanced(s, n.memory)
    ensures IdsBelow(n) && n.currentId == s.currentId
  {
  }

  lemma AskedIds(t: Topology, n: Topology, address: nat, words: nat)
    requires IdsBelow(t) && t.currentId < MAX_ID && QueueValid(t.instructionQueue)
    requires n == AccessInstr(t, address, words)
    ensures IdsBelow(n) && n.currentId == t.currentId + 1
  {
  }

  lemma AskedDataIds(t: Topology, n: Topology, r: Request, words: nat)
    requires IdsBelow(t) && t.currentId < MAX_ID && n == AccessData(t, r, words).0
    ensures IdsBelow(n) && n.currentId <= t.currentId + 1
  {
  }

  lemma IdsStep(c: Config, strict: bool, t: Topology, move: Action, n: Topology)
    requires TopologyValid(c, t) && IdsBelow(t) && Performs(c, strict, t, move, n)
    requires Draws(move) ==> t.currentId < MAX_ID
    ensures IdsBelow(n) && n.currentId <= t.currentId + if Draws(move) then 1 else 0
  {
    match move
    case AskInstr(address, words) => AskedIds(t, n, address, words);
    case AskData(r, words) => AskedDataIds(t, n, r, words);
    case Query(_) =>
    case Clock(pending) =>
      ClockedIs(c, t, pending, strict, n);
      StartedIds(c, t, pending, strict);
      AdvancedIds(Started(c, t, pending, strict)[0], n);
    case Forward => ForwardedIs(c, t, n);
  }

  lemma {:induction false} IdsStayBelow(c: Config, strict: bool, ts: seq<Topology>, moves: seq<Action>)
    requires IsHistory(c, strict, ts, moves) && IdsBelow(ts[0])
    requires ts[0].currentId + DrawCount(moves) <= MAX_ID
    ensures TopologyValid(c, ts[|moves|]) && IdsBelow(ts[|moves|])
    decreases moves
  {
    if moves != [] {
      IdsStep(c, strict, ts[0], moves[0], ts[1]);
      IdsStayBelow(c, strict, ts[1..], moves[1..]);
    }
  }

  /** The same for every access accepted after any history from the start, in which fewer
      identifiers were drawn than there are. */
  lemma AcceptedIsReportedFromTheStart(c: Config, strict: bool, m: Memory, ts0: seq<Topology>, moves0: seq<Action>,
                                       r: Request, numWords: nat, ts: seq<Topology>, moves: seq<Action>)
    requires IsHistory(c, strict, ts0, moves0) && ts0[0] == Initial(m) && DrawCount(moves0) < MAX_ID
    requires var t := ts0[|moves0|];
      && AccessData(t, r, numWords).1.Some?
      && IsHistory(c, strict, ts, moves) && ts[0] == AccessData(t, r, numWords).0 && DrawCount(moves) < MAX_ID
      && Clocks(moves) >= Skipped(t.memory).ub + Left(t.memory) + Slack(c, t.memory) + Latency(c, numWords)
                          + (if c.compositional then 0 else c.maxBlocking)
    ensures Reported(ts, moves, ts0[|moves0|].currentId) == 1
  {
    IdsStayBelow(c, strict, ts0, moves0);
    AcceptedIsReported(c, strict, ts0[|moves0|], r, numWords, ts, moves);
  }

  // ---- one instruction access ----------------------------------------------------------------

  predicate InstrWaiting(t: Topology, id: nat) {
    |t.instructionQueue| == 1 && t.instructionQueue[0].id == id
  }

  /** Nothing else goes by the identifier of a waiting instruction access. */
  predicate InstrUnshared(t: Topology, id: nat) {
    t.currentIdAccessed != id && (|t.dataQueue| == 1 ==> t.dataQueue[0].id != id)
  }

  /** A waiting instruction access is held back by an access in progress, by a waiting data access,
      or, under strict arbitration, by data misses that may be to come. */
  predicate Held(t: Topology, pending: bool, strict: bool) {
    t.currentIdAccessed != 0 || t.dataQueue != [] || (strict && pending)
  }

  lemma AdvancedKeeps(s: Topology, n: Topology)
    requires n == Advanced(s, n.memory)
    ensures n.instructionQueue == s.instructionQueue && n.dataQueue == s.dataQueue && n.currentId == s.currentId
    ensures n.currentIdAccessed == s.currentIdAccessed
      || (n.currentIdAccessed == 0 && n.finishedAccess == s.currentIdAccessed)
    ensures n.finishedAccess == 0 || n.finishedAccess == s.currentIdAccessed
    ensures n.currentIdAccessed != 0 ==> n.finishedAccess == 0
  {
  }

  /** In the very next clock cycle in which nothing holds it back it is started, and else it
      waits on. */
  lemma InstrStartsIff(c: Config, strict: bool, t: Topology, pending: bool, n: Topology, id: nat)
    requires TopologyValid(c, t) && IdValid(id) && InstrWaiting(t, id) && InstrUnshared(t, id)
    requires Performs(c, strict, t, Clock(pending), n)
    ensures Held(t, pending, strict) ==> InstrWaiting(n, id) && InstrUnshared(n, id) && n.finishedAccess != id
    ensures !Held(t, pending, strict) ==>
      && n.instructionQueue == [] && n.dataQueue == []
      && if n.finishedAccess == id then n.currentIdAccessed == 0 else n.currentIdAccessed == id
  {
    ClockedIs(c, t, pending, strict, n);
    var s := Started(c, t, pending, strict)[0];
    StartedInstr(c, t, pending, strict, id);
    AdvancedKeeps(s, n);
  }

  lemma StartedInstr(c: Config, t: Topology, pending: bool, strict: bool, id: nat)
    requires TopologyValid(c, t) && IdValid(id) && InstrWaiting(t, id) && InstrUnshared(t, id)
    ensures |Started(c, t, pending, strict)| == 1
    ensures var s := Started(c, t, pending, strict)[0];
      if Held(t, pending, strict) then InstrWaiting(s, id) && InstrUnshared(s, id)
      else s.instructionQueue == [] && s.dataQueue == [] && s.currentIdAccessed == id
  {
  }

  /** An instruction access that still waits when the next one comes is never reported. */
  lemma ReplacedIsNeverReported(c: Config, strict: bool, t: Topology, address: nat, words: nat, id: nat,
                                ts: seq<Topology>, moves: seq<Action>)
    requires TopologyValid(c, t) && IdValid(id) && InstrWaiting(t, id) && InstrUnshared(t, id) && t.currentId != id
    requires IsHistory(c, strict, ts, moves) && ts[0] == AccessInstr(t, address, words)
    requires DrawCount(moves) <= Ahead(ts[0].currentId, id)
    ensures Reported(ts, moves, id) == 0
  {
    NeverAgain(c, strict, ts, moves, id);
  }

  function Blocking(c: Config): nat {
    if c.compositional then 0 else c.maxBlocking
  }

  /** The latest total at which a waiting instruction access can be reported if nothing else
      arrives: what is in progress, the data access that waits, and the access itself. */
  function InstrLatest(c: Config, t: Topology): int {
    Skipped(t.memory).ub + Left(t.memory) + Slack(c, t.memory)
    + (if t.dataQueue == [] then 0 else Latency(c, t.dataQueue[0].numWords) + Blocking(c))
    + (if t.instructionQueue == [] then 0 else Latency(c, t.instructionQueue[0].numWords) + Blocking(c))
  }

  /** Moves that bring no access, and no cycle in which it is held back for data misses. */
  predicate Quiet(strict: bool, move: Action) {
    !Draws(move) && (move.Clock? ==> !(strict && move.dataMissesPending))
  }

  lemma StartedInstrBounds(c: Config, t: Topology, pending: bool, strict: bool, id: nat)
    requires TopologyValid(c, t) && IdValid(id) && InstrWaiting(t, id) && InstrUnshared(t, id)
    requires !(strict && pending)
    ensures |Started(c, t, pending, strict)| == 1
    ensures var s := Started(c, t, pending, strict)[0];
      Busy(s.memory) && InstrLatest(c, s) == InstrLatest(c, t)
  {
  }

  lemma AdvancedInstrBounds(c: Config, s: Topology, n: Topology)
    requires TopologyValid(c, s.(waitingForJoin := false)) && Busy(s.memory)
    requires n.memory in Cycle(c, s.memory) && n == Advanced(s, n.memory)
    ensures InstrLatest(c, n) + 1 <= InstrLatest(c, s)
  {
    MemoryCycleBounds(c, s.memory, n.memory);
    AdvancedKeeps(s, n);
  }

  lemma QuietClock(c: Config, strict: bool, t: Topology, pending: bool, n: Topology, id: nat)
    requires TopologyValid(c, t) && IdValid(id) && InstrWaiting(t, id) && InstrUnshared(t, id)
    requires Performs(c, strict, t, Clock(pending), n) && !(strict && pending)
    ensures InstrLatest(c, n) + 1 <= InstrLatest(c, t)
  {
    ClockedIs(c, t, pending, strict, n);
    StartedInstrBounds(c, t, pending, strict, id);
    AdvancedInstrBounds(c, Started(c, t, pending, strict)[0], n);
  }

  lemma QuietForward(c: Config, strict: bool, t: Topology, n: Topology)
    requires TopologyValid(c, t) && Performs(c, strict, t, Action.Forward, n)
    ensures n == t.(memory := n.memory) && InstrLatest(c, n) == InstrLatest(c, t)
  {
    ForwardedIs(c, t, n);
    if Busy(t.memory) {
      MemoryForwardBounds(c, t.memory, n.memory);
    }
  }

  /** While it waits and nothing arrives, every clock cycle takes one off its time; then it is in
      progress or reported. */
  lemma QuietStep(c: Config, strict: bool, t: Topology, move: Action, n: Topology, id: nat)
    requires TopologyValid(c, t) && IdValid(id) && InstrWaiting(t, id) && InstrUnshared(t, id)
    requires Performs(c, strict, t, move, n) && Quiet(strict, move)
    ensures InstrLatest(c, n) + Ticks(move) <= InstrLatest(c, t) && n.currentId == t.currentId
    ensures InstrWaiting(n, id) ==> InstrUnshared(n, id)
    ensures !(move.Clock? && n.finishedAccess == id) ==> InstrWaiting(n, id) || StartedAlone(n, id)
    ensures move.Clock? && n.finishedAccess == id ==> Gone(n, id)
  {
    match move
    case Clock(pending) =>
      QuietClock(c, strict, t, pending, n, id);
      InstrStartsIff(c, strict, t, pending, n, id);
      ClockDrawsNone(c, t, pending, strict, n);
    case Forward => QuietForward(c, strict, t, n);
    case Query(_) =>
  }

  predicate StartedAlone(t: Topology, id: nat) {
    t.instructionQueue == [] && t.dataQueue == [] && t.currentIdAccessed == id
  }

  lemma StartedAloneIs(c: Config, t: Topology, id: nat)
    requires StartedAlone(t, id)
    ensures Pending(t, id) && Unshared(t, id) && Latest(c, t, id) == InstrLatest(c, t)
  {
  }

  /** Nothing arrives as long as the instruction access waits. */
  ghost predicate QuietWhileWaiting(strict: bool, ts: seq<Topology>, moves: seq<Action>, id: nat)
    requires |ts| == |moves| + 1
  {
    moves == [] || ((InstrWaiting(ts[0], id) ==> Quiet(strict, moves[0]))
                    && QuietWhileWaiting(strict, ts[1..], moves[1..], id))
  }

  lemma {:induction false} InstrReportedInTime(c: Config, strict: bool, ts: seq<Topology>, moves: seq<Action>, id: nat)
    requires IsHistory(c, strict, ts, moves) && IdValid(id) && QuietWhileWaiting(strict, ts, moves, id)
    requires InstrWaiting(ts[0], id) && InstrUnshared(ts[0], id)
    requires DrawCount(moves) <= Ahead(ts[0].currentId, id)
    ensures Reported(ts, moves, id) <= 1
    ensures Reported(ts, moves, id) == 0 ==> Clocks(moves) < InstrLatest(c, ts[0])
    decreases moves
  {
    if moves == [] {
      InstrLatestIsPositive(c, ts[0], id);
    } else {
      var t, n := ts[0], ts[1];
      StepKeepsValid(c, strict, t, moves[0], n);
      QuietStep(c, strict, t, moves[0], n, id);
      if moves[0].Clock? && n.finishedAccess == id {
        NeverAgain(c, strict, ts[1..], moves[1..], id);
      } else if InstrWaiting(n, id) {
        InstrReportedInTime(c, strict, ts[1..], moves[1..], id);
      } else {
        StartedInTime(c, strict, ts[1..], moves[1..], id);
      }
    }
  }

  lemma StartedInTime(c: Config, strict: bool, ts: seq<Topology>, moves: seq<Action>, id: nat)
    requires IsHistory(c, strict, ts, moves) && IdValid(id) && StartedAlone(ts[0], id)
    requires DrawCount(moves) <= Ahead(ts[0].currentId, id)
    ensures Reported(ts, moves, id) <= 1
    ensures Reported(ts, moves, id) == 0 ==> Clocks(moves) < InstrLatest(c, ts[0])
  {
    StartedAloneIs(c, ts[0], id);
    ReportedInTime(c, strict, ts, moves, id);
    if Reported(ts, moves, id) == 0 {
      LatestIsPositive(c, ts[|moves|], id);
    }
  }

  lemma InstrLatestIsPositive(c: Config, t: Topology, id: nat)
    requires TopologyValid(c, t) && InstrWaiting(t, id)
    ensures InstrLatest(c, t) >= 1
  {
  }

  /** An instruction access is reported in exactly one clock cycle, if nothing arrives and no data
      misses hold it back while it waits: at the latest after what is in progress, the data access
      that waits, and its own latency and blocking. */
  lemma InstructionIsReported(c: Config, strict: bool, t: Topology, address: nat, words: nat,
                              ts: seq<Topology>, moves: seq<Action>)
    requires TopologyValid(c, t) && InstrUnshared(t, t.currentId)
    requires IsHistory(c, strict, ts, moves) && ts[0] == AccessInstr(t, address, words)
    requires QuietWhileWaiting(strict, ts, moves, t.currentId) && DrawCount(moves) < MAX_ID
    requires Clocks(moves) >= Skipped(t.memory).ub + Left(t.memory) + Slack(c, t.memory)
                              + (if t.dataQueue == [] then 0 else Latency(c, t.dataQueue[0].numWords) + Blocking(c))
                              + Latency(c, words) + Blocking(c)
    ensures Reported(ts, moves, t.currentId) == 1
  {
    assert InstrWaiting(ts[0], t.currentId);
    InstrReportedInTime(c, strict, ts, moves, t.currentId);
  }

  /** The same after any history from the start in which fewer identifiers were drawn than there
      are. */
  lemma InstructionIsReportedFromTheStart(c: Config, strict: bool, m: Memory, ts0: seq<Topology>, moves0: seq<Action>,
                                          address: nat, words: nat, ts: seq<Topology>, moves: seq<Action>)
    requires IsHistory(c, strict, ts0, moves0) && ts0[0] == Initial(m) && DrawCount(moves0) < MAX_ID
    requires var t := ts0[|moves0|];
      && IsHistory(c, strict, ts, moves) && ts[0] == AccessInstr(t, address, words)
      && QuietWhileWaiting(strict, ts, moves, t.currentId) && DrawCount(moves) < MAX_ID
      && Clocks(moves) >= Skipped(t.memory).ub + Left(t.memory) + Slack(c, t.memory)
                          + (if t.dataQueue == [] then 0 else Latency(c, t.dataQueue[0].numWords) + Blocking(c))
                          + Latency(c, words) + Blocking(c)
    ensures Reported(ts, moves, ts0[|moves0|].currentId) == 1
  {
    IdsStayBelow(c, strict, ts0, moves0);
    InstructionIsReported(c, strict, ts0[|moves0|], address, words, ts, moves);
  }

  /** After fast-forwarding, the next clock cycle reports the access in progress. */
  lemma ForwardedIsReported(c: Config, strict: bool, t: Topology, n: Topology, pending: bool, r: Topology)
    requires TopologyValid(c, t) && Busy(t.memory) && Performs(c, strict, t, Action.Forward, n)
    requires TopologyValid(c, n) && Performs(c, strict, n, Clock(pending), r)
    ensures r.finishedAccess == t.currentIdAccessed && r.currentIdAccessed == 0 && !Busy(r.memory)
  {
    ForwardedIs(c, t, n);
    ClockedIs(c, n, pending, strict, r);
    ForwardedCompletes(c, t.memory, n.memory, r.memory);
  }

  /** The pipeline is told once, and a clock cycle that finishes an access waits for a join. */
  lemma ToldOnce(c: Config, strict: bool, t: Topology, pending: bool, n: Topology, id: nat, r: Topology)
    requires TopologyValid(c, t) && Performs(c, strict, t, Clock(pending), n) && IdValid(id)
    requires TopologyValid(c, n) && Performs(c, strict, n, Query(id), r)
    ensures r.finishedAccess != id && (n.finishedAccess != id ==> r == n)
    ensures n.waitingForJoin <==> n.finishedAccess != 0
  {
    ClockedIs(c, t, pending, strict, n);
  }

  /** The access in progress is on the side that the flag tells. */
  lemma SideIs(c: Config, strict: bool, t: Topology, pending: bool, n: Topology)
    requires TopologyValid(c, t) && Performs(c, strict, t, Clock(pending), n)
    ensures n.currentIdAccessesInstr
         == if t.currentIdAccessed == 0 && t.dataQueue != [] then false
            else if t.currentIdAccessed == 0 && t.instructionQueue != [] && !(strict && pending) then true
            else t.currentIdAccessesInstr
  {
    ClockedIs(c, t, pending, strict, n);
  }

  /** A data access is turned away exactly while another waits; while nothing is in progress, the
      next clock cycle starts the one that waits, and then it is accepted. */
  lemma DataAcceptedIff(c: Config, strict: bool, t: Topology, pending: bool, n: Topology, r: Request, words: nat)
    requires TopologyValid(c, t) && Performs(c, strict, t, Clock(pending), n)
    ensures AccessData(n, r, words).1.Some? <==> t.dataQueue == [] || t.currentIdAccessed == 0
    ensures AccessData(n, r, words).1.Some? ==> Waiting(AccessData(n, r, words).0, n.currentId)
    ensures AccessData(n, r, words).1.None? ==> AccessData(n, r, words).0 == n
  {
    ClockedIs(c, t, pending, strict, n);
    AdvancedKeeps(Started(c, t, pending, strict)[0], n);
  }
}
