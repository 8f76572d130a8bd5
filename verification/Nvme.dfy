/**
 The I/O queue pair of `file/nvme.c` as a protocol between the host, which issues one command at a
 time from `nvme_read` or `nvme_write`, and the device, which fetches and completes commands at its
 own pace. Host and device take turns in any order. The device follows section 4.2 (Completion Queue
 Entry) of the NVM Express Base Specification 2.1: it inverts the phase bit on each pass of the ring.
 What it takes a command for follows the Read and Write commands of the NVM Command Set Specification.
 */
module Nvme {
  import opened Basics

  const RING := 64

  // ---------------------------------------------------------------- commands

  /** A call of `nvme_read` or `nvme_write`: first block, number of blocks, and the physical address of the buffer. */
  datatype Call = Read(lba: nat, count: nat, data: nat) | Write(lba: nat, count: nat, data: nat)

  /** The arguments have the widths of the parameters. */
  predicate Fits(call: Call) {
    call.lba < 0x1_0000_0000_0000_0000 && call.count < 0x1_0000 && call.data < 0x1_0000_0000_0000_0000
  }

  datatype Command = Command(
    opcode: nat, identifier: nat, nsid: nat, dword10: nat, dword11: nat, dword12: nat, prp1: nat)

  /** The entry that a call fills in; both calls use the opcode as the identifier. */
  function Build(call: Call): Command {
    var opcode := if call.Read? then 2 else 1;
    Command(opcode, opcode, 1, call.lba % 0x1_0000_0000, (call.lba / 0x1_0000_0000) % 0x1_0000_0000,
            (call.count - 1) % 0x1_0000_0000, call.data)
  }

  /**
   What the device takes a command for: opcode 2 reads and opcode 1 writes in namespace 1, from the block
   in dwords 10 and 11 on, one block more than the low half of dword 12 says, at the address in PRP entry 1.
   */
  function Decode(c: Command): Option<Call> {
    var lba, count := c.dword10 + c.dword11 * 0x1_0000_0000, c.dword12 % 0x1_0000 + 1;
    if c.nsid != 1 then None
    else if c.opcode == 2 then Some(Read(lba, count, c.prp1))
    else if c.opcode == 1 then Some(Write(lba, count, c.prp1))
    else None
  }

  /** What the device makes of a call: a count of no blocks comes out as 65536. */
  function Meant(call: Call): Call { if call.count == 0 then call.(count := 0x1_0000) else call }

  /** The device sees the call that was made, and sets no other bit of dword 12, exactly when it is for some blocks. */
  lemma BuildDecodes(call: Call)
    requires Fits(call)
    ensures Decode(Build(call)) == Some(Meant(call))
    ensures Decode(Build(call)) == Some(call) <==> call.count != 0
    ensures Build(call).dword12 < 0x1_0000 <==> call.count != 0
  {
    assert call.lba % 0x1_0000_0000 + (call.lba / 0x1_0000_0000) * 0x1_0000_0000 == call.lba;
  }

  // ---------------------------------------------------------------- completions

  /** The phase bit of dword 3 of a completion entry. */
  predicate Phase(dword3: nat) { (dword3 / 0x1_0000) % 2 == 1 }

  /** `completion_check_success`: status code type and status code are both zero. */
  predicate Success(dword3: nat) { (dword3 / 0x200_0000) % 8 == 0 && (dword3 / 0x2_0000) % 256 == 0 }

  lemma PhaseField(low: nat, bit: nat, high: nat)
    requires low < 0x1_0000 && bit < 2
    ensures ((low + 0x1_0000 * bit + 0x2_0000 * high) / 0x1_0000) % 2 == bit
  {
    assert (low + 0x1_0000 * bit + 0x2_0000 * high) / 0x1_0000 == bit + 2 * high;
  }

  lemma CodeField(low: nat, code: nat, high: nat)
    requires low < 0x2_0000 && code < 256
    ensures ((low + 0x2_0000 * code + 0x200_0000 * high) / 0x2_0000) % 256 == code
  {
    assert (low + 0x2_0000 * code + 0x200_0000 * high) / 0x2_0000 == code + 256 * high;
  }

  lemma TypeField(low: nat, codeType: nat, high: nat)
    requires low < 0x200_0000 && codeType < 8
    ensures ((low + 0x200_0000 * codeType + 0x1000_0000 * high) / 0x200_0000) % 8 == codeType
  {
    assert (low + 0x200_0000 * codeType + 0x1000_0000 * high) / 0x200_0000 == codeType + 8 * high;
  }

  /** The phase bit is bit 16; the status code and its type are the eight and the three bits above it. */
  lemma StatusFields(identifier: nat, phase: bool, code: nat, codeType: nat, rest: nat)
    requires identifier < 0x1_0000 && code < 256 && codeType < 8
    ensures var dword3 := identifier + 0x1_0000 * (if phase then 1 else 0) + 0x2_0000 * code
                          + 0x200_0000 * codeType + 0x1000_0000 * rest;
            Phase(dword3) == phase && (Success(dword3) <==> code == 0 && codeType == 0)
  {
    var bit := if phase then 1 else 0;
    var low := identifier + 0x1_0000 * bit;
    PhaseField(identifier, bit, code + 256 * codeType + 2048 * rest);
    CodeField(low, code, codeType + 8 * rest);
    TypeField(low + 0x2_0000 * code, codeType, rest);
  }

  // ---------------------------------------------------------------- the protocol

  /** Where the host is in a call: between calls, entry filled, phase read, waiting, seen, head advanced. */
  datatype Pc = Idle | Filled | Armed(phase: bool) | Waiting(phase: bool) | Seen | Advanced

  /**
   The rings, the indices and doorbells of both sides, and what has happened so far: the calls made, the
   commands submitted, fetched and completed, the dword 3 of every completion posted, the number of completions
   the host has taken, and the results its calls returned.
   */
  datatype State = State(
    sq: seq<Command>, cq: seq<nat>,
    pc: Pc, tail: nat, head: nat, sqDoorbell: nat, cqDoorbell: nat,
    sqHead: nat, inflight: seq<Command>, cqTail: nat, devicePhase: bool,
    calls: seq<Call>, submitted: seq<Command>, fetched: seq<Command>, completed: seq<Command>,
    posted: seq<nat>, taken: nat, results: seq<bool>)

  /** The queues as `nvme_init` leaves them: zeroed rings, all indices zero. */
  ghost predicate Init(s: State) {
    && |s.sq| == RING && |s.cq| == RING && (forall j :: 0 <= j < RING ==> s.cq[j] == 0)
    && s.pc == Idle && s.tail == 0 && s.head == 0 && s.sqDoorbell == 0 && s.cqDoorbell == 0
    && s.sqHead == 0 && s.inflight == [] && s.cqTail == 0 && s.devicePhase
    && s.calls == [] && s.submitted == [] && s.fetched == [] && s.completed == []
    && s.posted == [] && s.taken == 0 && s.results == []
  }

  datatype Step =
    | Fill(call: Call) | ReadPhase | Ring | Poll | Advance | Check
    | Fetch | Post(index: nat, dword3: nat)

  ghost predicate Enabled(s: State, step: Step) {
    && |s.sq| == RING && |s.cq| == RING && s.tail < RING && s.head < RING && s.sqHead < RING && s.cqTail < RING
    && match step
       case Fill(call) => s.pc.Idle? && Fits(call)
       case ReadPhase => s.pc.Filled?
       case Ring => s.pc.Armed?
       case Poll => s.pc.Waiting?
       case Advance => s.pc.Seen?
       case Check => s.pc.Advanced?
       case Fetch => s.sqHead != s.sqDoorbell
       // A completion may be posted for any command in flight, while the ring is not full.
       case Post(index, dword3) =>
         index < |s.inflight| && Phase(dword3) == s.devicePhase && (s.cqTail + 1) % RING != s.cqDoorbell
  }

  function Apply(s: State, step: Step): State
    requires Enabled(s, step)
  {
    match step
    case Fill(call) => s.(sq := s.sq[s.tail := Build(call)], pc := Filled, calls := s.calls + [call])
    case ReadPhase => s.(pc := Armed(Phase(s.cq[s.head])))
    case Ring =>
      var tail := (s.tail + 1) % RING;
      s.(tail := tail, sqDoorbell := tail, pc := Waiting(s.pc.phase), submitted := s.submitted + [s.sq[s.tail]])
    case Poll => if Phase(s.cq[s.head]) == s.pc.phase then s else s.(pc := Seen)
    case Advance =>
      var head := (s.head + 1) % RING;
      s.(head := head, cqDoorbell := head, pc := Advanced, taken := s.taken + 1)
    case Check => s.(pc := Idle, results := s.results + [Success(s.cq[s.head])])
    case Fetch =>
      var command := s.sq[s.sqHead];
      s.(sqHead := (s.sqHead + 1) % RING, inflight := s.inflight + [command], fetched := s.fetched + [command])
    case Post(index, dword3) =>
      var cqTail := (s.cqTail + 1) % RING;
      s.(cq := s.cq[s.cqTail := dword3], cqTail := cqTail,
         devicePhase := if cqTail == 0 then !s.devicePhase else s.devicePhase,
         inflight := Without(s.inflight, index), completed := s.completed + [s.inflight[index]],
         posted := s.posted + [dword3])
  }

  ghost predicate Next(s: State, t: State) {
    exists step :: Enabled(s, step) && t == Apply(s, step)
  }

  // ---------------------------------------------------------------- the invariant

  /** How often slot `j` has been written once `n` completions have been posted. */
  function Writes(j: nat, n: nat): nat
    requires j < RING
  {
    (n + RING - 1 - j) / RING
  }

  /** The pass over the ring in which completion `i` is posted sets this phase. */
  predicate PassPhase(i: nat) { (i / RING) % 2 == 0 }

  /** Each slot of the completion ring holds the last completion posted to it, or zero. */
  ghost predicate RingHolds(cq: seq<nat>, posted: seq<nat>) {
    && |cq| == RING
    && forall j :: 0 <= j < RING ==>
         cq[j] == if Writes(j, |posted|) == 0 then 0 else posted[RING * (Writes(j, |posted|) - 1) + j]
  }

  /** What the status check of call `i` looks at: the completion 63 calls earlier, or a zeroed entry. */
  function Looked(posted: seq<nat>, i: nat): nat
    requires i < RING - 1 || i - (RING - 1) < |posted|
  {
    if i < RING - 1 then 0 else posted[i - (RING - 1)]
  }

  ghost predicate Counts(s: State) {
    && |s.sq| == RING
    && s.tail == s.sqDoorbell == |s.submitted| % RING && s.sqHead == |s.fetched| % RING
    && s.cqTail == |s.posted| % RING && s.head == s.cqDoorbell == s.taken % RING
    && s.devicePhase == PassPhase(|s.posted|)
    && |s.completed| == |s.posted| && |s.fetched| == |s.posted| + |s.inflight|
    && s.taken <= |s.posted| <= |s.fetched| <= |s.submitted|
    && |s.submitted| == (if s.pc.Waiting? || s.pc.Seen? then s.taken + 1 else s.taken)
    && (s.pc.Seen? ==> |s.posted| == |s.submitted|)
    && |s.results| == (if s.pc.Advanced? then s.taken - 1 else s.taken)
  }

  ghost predicate Contents(s: State)
    requires Counts(s)
  {
    && RingHolds(s.cq, s.posted)
    && (forall i :: 0 <= i < |s.posted| ==> Phase(s.posted[i]) == PassPhase(i))
    && s.fetched <= s.submitted && s.completed + s.inflight == s.fetched
    && (|s.fetched| < |s.submitted| ==> s.sq[s.sqHead] == s.submitted[|s.fetched|])
    && (s.pc.Armed? || s.pc.Waiting? ==> s.pc.phase == !PassPhase(s.taken))
    && (forall i :: 0 <= i < |s.results| ==> s.results[i] == Success(Looked(s.posted, i)))
  }

  /** The commands submitted, and the one about to be, are those of the calls made. */
  ghost predicate Issued(s: State)
    requires Counts(s)
  {
    && |s.calls| == |s.submitted| + (if s.pc.Filled? || s.pc.Armed? then 1 else 0)
    && (forall i :: 0 <= i < |s.calls| ==> Fits(s.calls[i]))
    && (forall i :: 0 <= i < |s.submitted| ==> s.submitted[i] == Build(s.calls[i]))
    && (s.pc.Filled? || s.pc.Armed? ==> s.sq[s.tail] == Build(s.calls[|s.submitted|]))
  }

  ghost predicate Inv(s: State) { Counts(s) && Contents(s) && Issued(s) }

  lemma InitInv(s: State)
    requires Init(s)
    ensures Inv(s)
  {
  }

  // ---------------------------------------------------------------- the ring

  /** A slot's phase: that of the pass in which it was last written. */
  lemma SlotPhase(cq: seq<nat>, posted: seq<nat>, j: nat)
    requires RingHolds(cq, posted) && j < RING
    requires forall i :: 0 <= i < |posted| ==> Phase(posted[i]) == PassPhase(i)
    ensures Phase(cq[j]) == (Writes(j, |posted|) % 2 == 1)
  {
    var w := Writes(j, |posted|);
    if w > 0 {
      var i := RING * (w - 1) + j;
      assert i < |posted| && i / RING == w - 1;
    }
  }

  /** The slot for the next completion still shows the other phase; once it is posted, the slot shows its phase. */
  lemma HeadPhase(cq: seq<nat>, posted: seq<nat>, taken: nat)
    requires RingHolds(cq, posted) && taken <= |posted| <= taken + 1
    requires forall i :: 0 <= i < |posted| ==> Phase(posted[i]) == PassPhase(i)
    ensures Phase(cq[taken % RING]) == if |posted| == taken then !PassPhase(taken) else PassPhase(taken)
  {
    var j, q := taken % RING, taken / RING;
    SlotPhase(cq, posted, j);
    assert taken == RING * q + j;
    assert Writes(j, |posted|) == if |posted| == taken then q else q + 1;
  }

  /** Posting writes the next slot round the ring and leaves the others. */
  lemma PostHolds(cq: seq<nat>, posted: seq<nat>, dword3: nat)
    requires RingHolds(cq, posted)
    ensures RingHolds(cq[|posted| % RING := dword3], posted + [dword3])
  {
    var n := |posted|;
    var k, q := n % RING, n / RING;
    assert n == RING * q + k;
    forall j | 0 <= j < RING
      ensures Writes(j, n + 1) == if j == k then q + 1 else Writes(j, n)
    {
      assert j < k ==> (RING * q + k + RING - 1 - j) / RING == q + 1;
      assert j > k ==> (RING * q + k + RING - 1 - j) / RING == q;
    }
    forall j | 0 <= j < RING && Writes(j, n) > 0
      ensures RING * (Writes(j, n) - 1) + j < n
    {
    }
  }

  /** The entry at the new head is the one posted 63 completions before the last. */
  lemma StaleSlot(cq: seq<nat>, posted: seq<nat>, taken: nat)
    requires RingHolds(cq, posted) && 0 < taken == |posted|
    ensures cq[taken % RING] == Looked(posted, taken - 1)
  {
    var j, q := taken % RING, taken / RING;
    assert taken == RING * q + j;
    assert Writes(j, taken) == q;
  }

  /** Counting round the ring is counting modulo its size. */
  lemma Round(n: nat)
    ensures (n % RING + 1) % RING == (n + 1) % RING
  {
  }

  /** The phase changes with every pass. */
  lemma PassEnds(n: nat)
    ensures PassPhase(n + 1) == if (n + 1) % RING == 0 then !PassPhase(n) else PassPhase(n)
  {
    assert (n + 1) % RING == 0 <==> (n + 1) / RING == n / RING + 1;
  }

  // ---------------------------------------------------------------- every step keeps the invariant

  lemma FillKeeps(s: State, call: Call)
    requires Inv(s) && Enabled(s, Fill(call))
    ensures Inv(Apply(s, Fill(call)))
  {
  }

  lemma ReadPhaseKeeps(s: State)
    requires Inv(s) && Enabled(s, ReadPhase)
    ensures Inv(Apply(s, ReadPhase))
  {
    HeadPhase(s.cq, s.posted, s.taken);
  }

  lemma RingKeeps(s: State)
    requires Inv(s) && Enabled(s, Ring)
    ensures Inv(Apply(s, Ring))
  {
    assert |s.fetched| == |s.submitted|;
    Round(|s.submitted|);
  }

  lemma PollKeeps(s: State)
    requires Inv(s) && Enabled(s, Poll)
    ensures Inv(Apply(s, Poll))
  {
    HeadPhase(s.cq, s.posted, s.taken);
  }

  lemma AdvanceKeeps(s: State)
    requires Inv(s) && Enabled(s, Advance)
    ensures Inv(Apply(s, Advance))
  {
    Round(s.taken);
  }

  lemma CheckKeeps(s: State)
    requires Inv(s) && Enabled(s, Check)
    ensures Inv(Apply(s, Check))
  {
    StaleSlot(s.cq, s.posted, s.taken);
  }

  lemma FetchKeeps(s: State)
    requires Inv(s) && Enabled(s, Fetch)
    ensures Inv(Apply(s, Fetch))
  {
    assert |s.fetched| + 1 == |s.submitted|;
    assert s.fetched + [s.submitted[|s.fetched|]] == s.submitted;
    Round(|s.fetched|);
  }

  lemma PostCounts(s: State, index: nat, dword3: nat)
    requires Inv(s) && Enabled(s, Post(index, dword3))
    ensures Counts(Apply(s, Post(index, dword3)))
  {
    PassEnds(|s.posted|);
    Round(|s.posted|);
  }

  lemma PostKeeps(s: State, index: nat, dword3: nat)
    requires Inv(s) && Enabled(s, Post(index, dword3))
    ensures Inv(Apply(s, Post(index, dword3)))
  {
    var t := Apply(s, Post(index, dword3));
    assert RingHolds(t.cq, t.posted) by { PostHolds(s.cq, s.posted, dword3); }
    PostCounts(s, index, dword3);
    assert forall i :: 0 <= i < |s.posted| ==> t.posted[i] == s.posted[i];
  }

  lemma StepKeeps(s: State, step: Step)
    requires Inv(s) && Enabled(s, step)
    ensures Inv(Apply(s, step))
  {
    match step {
      case Fill(call) => FillKeeps(s, call);
      case ReadPhase => ReadPhaseKeeps(s);
      case Ring => RingKeeps(s);
      case Poll => PollKeeps(s);
      case Advance => AdvanceKeeps(s);
      case Check => CheckKeeps(s);
      case Fetch => FetchKeeps(s);
      case Post(index, dword3) => PostKeeps(s, index, dword3);
    }
  }

  /** Every state of every run of host and device satisfies the invariant. */
  lemma {:induction false} RunInv(run: seq<State>, i: nat)
    requires i < |run| && Init(run[0]) && forall j :: 0 <= j < |run| - 1 ==> Next(run[j], run[j + 1])
    ensures Inv(run[i])
  {
    if i == 0 {
      InitInv(run[0]);
    } else {
      RunInv(run, i - 1);
      assert Next(run[i - 1], run[i - 1 + 1]);
      var step :| Enabled(run[i - 1], step) && run[i] == Apply(run[i - 1], step);
      StepKeeps(run[i - 1], step);
    }
  }

  // ---------------------------------------------------------------- what every run promises

  ghost predicate Reachable(s: State) {
    exists run: seq<State>, i: nat ::
      i < |run| && run[i] == s && Init(run[0]) && forall j :: 0 <= j < |run| - 1 ==> Next(run[j], run[j + 1])
  }

  lemma ReachableInv(s: State)
    requires Reachable(s)
    ensures Inv(s)
  {
    var run: seq<State>, i: nat :|
      i < |run| && run[i] == s && Init(run[0]) && forall j :: 0 <= j < |run| - 1 ==> Next(run[j], run[j + 1]);
    RunInv(run, i);
  }

  /** The commands completed are the first ones submitted. */
  lemma CompletedPrefix(s: State)
    requires Inv(s)
    ensures s.completed <= s.fetched <= s.submitted
    ensures |s.completed| == |s.submitted| ==> s.completed == s.submitted
  {
    assert s.fetched[..|s.completed|] == s.completed;
  }

  /**
   Over any number of passes of the ring, a waiting host sees the phase change exactly when the command
   it submitted last has been completed: a stale entry is never taken for new, a new one never missed.
   */
  lemma PollIsExact(s: State)
    requires Reachable(s) && s.pc.Waiting?
    ensures s.head < |s.cq| && s.submitted != [] && s.submitted[..|s.submitted| - 1] <= s.completed
    ensures Phase(s.cq[s.head]) != s.pc.phase <==> s.completed == s.submitted
  {
    ReachableInv(s);
    HeadPhase(s.cq, s.posted, s.taken);
    CompletedPrefix(s);
  }

  /**
   The device has fetched a prefix of the commands submitted, once each and in order, and completed a
   prefix of those. When the host fills an entry it has completed all of them, so no entry is overwritten
   before it is fetched.
   */
  lemma FetchesInOrder(s: State)
    requires Reachable(s)
    ensures s.completed <= s.fetched <= s.submitted
    ensures s.pc.Idle? ==> s.completed == s.fetched == s.submitted && s.inflight == []
  {
    ReachableInv(s);
    CompletedPrefix(s);
  }

  /**
   The device carries out the calls that were made, in the order in which they were made: read or write,
   block, count and data address. Only a count of no blocks is taken for 65536. Between calls all are done.
   */
  lemma CallsCarriedOut(s: State)
    requires Reachable(s)
    ensures |s.completed| <= |s.calls|
    ensures forall i :: 0 <= i < |s.completed| ==>
              var call := s.calls[i];
              Decode(s.completed[i]) == Some(if call.count == 0 then call.(count := 0x1_0000) else call)
    ensures s.pc.Idle? ==> |s.completed| == |s.calls| == |s.results|
  {
    ReachableInv(s);
    CompletedPrefix(s);
    forall i | 0 <= i < |s.completed|
      ensures Decode(s.completed[i]) == Some(Meant(s.calls[i]))
    {
      assert s.completed[i] == s.submitted[i];
      BuildDecodes(s.calls[i]);
    }
  }

  /** The completion ring never fills: a device with a command in flight may always post its completion. */
  lemma NeverFull(s: State)
    requires Reachable(s) && s.inflight != []
    ensures (s.cqTail + 1) % RING != s.cqDoorbell
  {
    ReachableInv(s);
  }

  /** The completion that a device in this phase posts for a command that succeeded. */
  function Done(s: State): nat { if s.devicePhase then 0x1_0000 else 0 }

  lemma MayPost(s: State)
    requires Reachable(s) && s.inflight != []
    ensures Enabled(s, Post(0, Done(s)))
  {
    ReachableInv(s);
    NeverFull(s);
  }

  lemma MayFetch(s: State)
    requires Reachable(s) && s.inflight == [] && s.completed != s.submitted
    ensures Enabled(s, Fetch)
  {
    ReachableInv(s);
    CompletedPrefix(s);
    assert |s.submitted| == |s.fetched| + 1;
  }

  /** The protocol does not get stuck: a waiting host has its completion, or the device has a step to take. */
  lemma NeverStuck(s: State)
    requires Reachable(s) && s.pc.Waiting?
    ensures s.head < |s.cq|
    ensures || Phase(s.cq[s.head]) != s.pc.phase
            || Enabled(s, Fetch)
            || Enabled(s, Post(0, Done(s)))
  {
    PollIsExact(s);
    if s.inflight != [] {
      MayPost(s);
    } else if s.completed != s.submitted {
      MayFetch(s);
    }
  }

  /**
   A call does not report on its own command: the status it checks is that of the completion 63 calls
   earlier, and the first 63 calls check a zeroed entry and always report success.
   */
  lemma ResultIsStale(s: State, i: nat)
    requires Reachable(s) && i < |s.results|
    ensures i < RING - 1 ==> s.results[i]
    ensures i >= RING - 1 ==> i - (RING - 1) < |s.posted| && s.results[i] == Success(s.posted[i - (RING - 1)])
  {
    ReachableInv(s);
    assert s.results[i] == Success(Looked(s.posted, i));
  }

  lemma ReachStep(s: State, step: Step)
    requires Reachable(s) && Enabled(s, step)
    ensures Reachable(Apply(s, step))
  {
    var run: seq<State>, i: nat :|
      i < |run| && run[i] == s && Init(run[0]) && forall j :: 0 <= j < |run| - 1 ==> Next(run[j], run[j + 1]);
    var longer := run[..i + 1] + [Apply(s, step)];
    assert Next(s, Apply(s, step));
    forall j | 0 <= j < |longer| - 1
      ensures Next(longer[j], longer[j + 1])
    {
      assert j < i ==> longer[j] == run[j] && longer[j + 1] == run[j + 1];
    }
    assert longer[i + 1] == Apply(s, step);
  }

  /** The first command, fetched by the device and not yet completed. */
  ghost predicate FirstFetched(s: State) {
    && |s.sq| == RING && |s.cq| == RING && (forall j :: 0 <= j < RING ==> s.cq[j] == 0)
    && s.pc == Waiting(false) && s.tail == 1 && s.head == 0 && s.cqDoorbell == 0 && s.sqHead == 1
    && |s.inflight| == 1 && s.cqTail == 0 && s.devicePhase && s.posted == [] && s.results == []
  }

  lemma SubmitFirst(s: State, call: Call) returns (t: State)
    requires Init(s) && Fits(call)
    ensures Reachable(t) && FirstFetched(t)
  {
    assert Reachable(s) by { assert [s][0] == s; }
    t := s;
    ReachStep(t, Fill(call)); t := Apply(t, Fill(call));
    ReachStep(t, ReadPhase); t := Apply(t, ReadPhase);
    ReachStep(t, Ring); t := Apply(t, Ring);
    ReachStep(t, Fetch); t := Apply(t, Fetch);
  }

  /** A first command that fails is reported as a success. */
  lemma FailureUnnoticed(s: State, call: Call) returns (t: State)
    requires Init(s) && Fits(call)
    ensures Reachable(t) && |t.results| == |t.posted| == 1 && t.results[0] && !Success(t.posted[0])
  {
    var failed := Post(0, 0x3_0000);
    t := SubmitFirst(s, call);
    ReachStep(t, failed); t := Apply(t, failed);
    ReachStep(t, Poll); t := Apply(t, Poll);
    ReachStep(t, Advance); t := Apply(t, Advance);
    ReachStep(t, Check); t := Apply(t, Check);
  }
}
