/** The transmit direction of the NTR driver (source/arm7/ntr/tx_queue.c).  Its reader moves the read index
    to 0 at a wrap marker (step Rewind of RingModel), and steps over the size word only of a packet that is
    too large for the destination. */
module RingTransmit {
  import opened LittleEndian
  import opened RingModel
  import opened RingTheorems

  datatype TxStep = Plain(step: Step) | Skip

  /** The size of the destination of each packet, in the order of transmission. */
  type Limits = nat -> nat

  /** Wifi_TxArm9QueueCopyFirstData with a packet longer than the destination: read_idx moves on by the
      size word alone. */
  ghost predicate SkipStep(s: State, limit: Limits, s': State) {
    && s.cons.Handling? && s.cons.got == [] && s.cons.size > limit(|s.delivered|)
    && s' == s.(read := s.cons.at + 4, cons := Resting)
  }

  ghost predicate NextTx(s: State, limit: Limits, l: TxStep, s': State) {
    match l
    case Plain(step) =>
      && Next(s, step, s')
      && (step.Fetch? || step.Finish? ==> s.cons.Handling? && s.cons.size <= limit(|s.delivered|))
    case Skip => SkipStep(s, limit, s')
  }

  ghost predicate TxStepAt(run: seq<State>, steps: seq<TxStep>, limit: Limits, k: nat)
    requires k < |steps| && |run| == |steps| + 1
  {
    NextTx(run[k], limit, steps[k], run[k + 1])
  }

  ghost predicate IsTxRun(run: seq<State>, steps: seq<TxStep>, limit: Limits) {
    |run| == |steps| + 1 && Init(run[0]) && forall k :: 0 <= k < |steps| ==> TxStepAt(run, steps, limit, k)
  }

  ghost predicate Skipped(steps: seq<TxStep>, n: nat)
    requires n <= |steps|
  {
    exists k :: 0 <= k < n && steps[k].Skip?
  }

  // ---------------------------------------------------------------- what the producers write

  predicate ZeroHeaded(pkt: Packet) { 4 <= |pkt| && U32(pkt, 0) == 0 }

  /** Every packet committed so far starts with a zero word. */
  ghost predicate Headed(s: State) {
    forall i :: 0 <= i < |s.committed| ==> ZeroHeaded(s.committed[i])
  }

  function U16Bytes(v: nat): (r: seq<byte>) { [v % 256, v / 256 % 256] }

  /** Wifi_TxHeader as every producer of this ring fills it in: enable_flags, client_bits, countup and
      beaconfreq are 0; only tx_rate and the low half of tx_length are set. */
  function TxHeader(rate: nat, length: nat): (r: seq<byte>)
    ensures |r| == 12
  {
    [0, 0, 0, 0, 0, 0, 0, 0] + U16Bytes(rate) + U16Bytes(length)
  }

  /** The packet of Wifi_RawTxFrame: header, data, and four bytes of room for the checksum. */
  function RawTxFrame(rate: nat, data: seq<byte>, fcs: seq<byte>): (r: Packet)
    requires |fcs| == 4
    ensures |r| == 16 + |data| && ZeroHeaded(r)
  {
    TxHeader(rate, |data| + 4) + data + fcs
  }

  // ---------------------------------------------------------------- the reader after a skip

  /** The word under the read index is 0, and the producer is clear of it. */
  ghost predicate Clear(prod: Producer, m: seq<byte>, cap: nat, read: nat, write: nat) {
    var front := Front(prod, write);
    var ok :=
      && Basics(cap, m, read, write, front) && 4 <= read && U32(m, read) == 0
      && (front + 4 <= read || read + 4 <= front)
      && ProducerOk(prod, m, cap, read, write, front < read);
    ok
  }

  /** The next packet is longer than its destination. */
  ghost predicate Held(s: State, limit: Limits) {
    && s.delivered <= s.committed && |s.delivered| < |s.committed|
    && |s.committed[|s.delivered|]| > limit(|s.delivered|)
  }

  /** The reader stands on a zero word inside a packet that it could not copy. */
  ghost predicate Jammed(s: State, limit: Limits) {
    && Clear(s.prod, s.mem, s.cap, s.read, s.write) && (s.cons.Resting? || s.cons.Looking?)
    && Held(s, limit)
  }

  /** The first word of the record at the head. */
  lemma FirstWord(s: State, sh: Shape)
    requires Inv(s, sh) && s.cons.Handling? && Headed(s)
    ensures var at, front := s.cons.at, Front(s.prod, s.write);
      && at % 4 == 0 && at + 8 <= |s.mem| && U32(s.mem, at + 4) == 0
      && (if sh.Wrapped? && sh.first != [] then front + 4 <= at else at + 8 <= front)
      && (at == if sh.Wrapped? && sh.first == [] then 0 else s.read)
    ensures |s.delivered| < |s.committed| && s.cons.size == |s.committed[|s.delivered|]|
  {
    Head(s, sh);
    var at, pkt, front := s.cons.at, Current(sh)[0], Front(s.prod, s.write);
    assert ZeroHeaded(s.committed[|s.delivered|]);
    HeadRecord(s.mem, s.read, front, sh, at);
    forall i | 0 <= i < 4 ensures s.mem[at + 4 + i] == pkt[i] {
      assert s.mem[at + 4 + i] == s.mem[at + 4..at + 4 + |pkt|][i];
    }
    LayoutFrame(s.mem, s.mem, s.read, front, sh);
    RecordEnds(s.mem, s.read, front, sh, at);
  }

  /** Stepping over a packet leaves the read index on the packet's own first word, which is 0. */
  lemma SkipJams(s: State, sh: Shape, limit: Limits, s': State)
    requires Inv(s, sh) && SkipStep(s, limit, s') && Headed(s)
    ensures Jammed(s', limit)
  {
    FirstWord(s, sh);
    ProducerAfterRead(s.prod, s.mem, s.cap, s.read, s'.read, s.write, sh.Wrapped?,
                      Front(s.prod, s.write) < s'.read);
  }

  lemma ClearAllocation(s: State, s': State)
    requires Clear(s.prod, s.mem, s.cap, s.read, s.write) && (DecideStep(s, s') || MarkWrapStep(s, s'))
    ensures Clear(s'.prod, s'.mem, s'.cap, s'.read, s'.write)
  {
    if s.prod.Loaded? {
      ChoiceIsSafe(s.cap, s.read, s.write, s.write < s.read, s.prod.pkt, s.prod.seen);
    }
  }

  lemma ClearScribble(s: State, m: seq<byte>, s': State)
    requires Clear(s.prod, s.mem, s.cap, s.read, s.write) && ScribbleStep(s, m, s')
    ensures Clear(s'.prod, s'.mem, s'.cap, s'.read, s'.write)
  {}

  lemma ClearTrail(s: State, s': State)
    requires Clear(s.prod, s.mem, s.cap, s.read, s.write) && TrailStep(s, s')
    ensures Clear(s'.prod, s'.mem, s'.cap, s'.read, s'.write)
  {
    var at, pkt := s.prod.at, s.prod.pkt;
    assert s'.mem[at + 4..at + 4 + |pkt|] == s.mem[at + 4..at + 4 + |pkt|];
  }

  lemma ClearCommit(s: State, s': State)
    requires Clear(s.prod, s.mem, s.cap, s.read, s.write) && (IndexStep(s, s') || PublishStep(s, s'))
    ensures Clear(s'.prod, s'.mem, s'.cap, s'.read, s'.write)
  {
    if PublishStep(s, s') { SizeWord(s.mem, s'.mem, s.prod.at, s.prod.pkt); }
  }

  /** From then on the producer may go on, and the reader only looks and rests. */
  lemma JammedStep(s: State, limit: Limits, l: TxStep, s': State)
    requires Jammed(s, limit) && NextTx(s, limit, l, s')
    ensures Jammed(s', limit) && s'.delivered == s.delivered && l.Plain?
  {
    match l.step
    case Decide | MarkWrap => ClearAllocation(s, s');
    case Scribble(m) => ClearScribble(s, m, s');
    case Trail => ClearTrail(s, s');
    case Index | Publish => ClearCommit(s, s');
    case _ =>
  }

  // ---------------------------------------------------------------- over every run

  /** Each of the packets fits its destination. */
  ghost predicate Fits(pks: seq<Packet>, limit: Limits) {
    forall i :: 0 <= i < |pks| ==> |pks[i]| <= limit(i)
  }

  lemma CommittedGrows(s: State, limit: Limits, l: TxStep, s': State)
    requires NextTx(s, limit, l, s')
    ensures s.committed <= s'.committed && s.delivered <= s'.delivered
    ensures Fits(s.delivered, limit) ==> Fits(s'.delivered, limit)
  {}

  lemma EarlierHeaded(s: State, s': State)
    requires s.committed <= s'.committed && Headed(s')
    ensures Headed(s)
  {
    forall i | 0 <= i < |s.committed| ensures ZeroHeaded(s.committed[i]) {
      assert s.committed[i] == s'.committed[i];
    }
  }

  /** Before a packet is stepped over the ring is as in RingModel; from then on the reader is jammed. */
  ghost predicate TxInv(s: State, sh: Shape, limit: Limits, skipped: bool) {
    var ok :=
      && s.delivered <= s.committed && Fits(s.delivered, limit)
      && if skipped then Jammed(s, limit) else Inv(s, sh);
    ok
  }

  lemma TxNextKeeps(s: State, sh: Shape, limit: Limits, skipped: bool, l: TxStep, s': State) returns (sh': Shape)
    requires NextTx(s, limit, l, s') && Headed(s') && TxInv(s, sh, limit, skipped)
    ensures TxInv(s', sh', limit, skipped || l.Skip?)
  {
    sh' := sh;
    CommittedGrows(s, limit, l, s');
    EarlierHeaded(s, s');
    if skipped {
      JammedStep(s, limit, l, s');
    } else if l.Skip? {
      SkipJams(s, sh, limit, s');
    } else {
      sh' := NextKeeps(s, sh, l.step, s');
    }
  }

  lemma SkippedNext(steps: seq<TxStep>, n: nat)
    requires n < |steps|
    ensures Skipped(steps, n + 1) <==> Skipped(steps, n) || steps[n].Skip?
  {}

  /** In every run the packets sent are, in order and exactly once each, a prefix of the packets committed,
      and each fits its destination, whatever the lengths of the packets committed. */
  lemma {:induction false} TxRunKeeps(run: seq<State>, steps: seq<TxStep>, limit: Limits, n: nat) returns (sh: Shape)
    requires IsTxRun(run, steps, limit) && n < |run| && Headed(run[n])
    ensures run[n].delivered <= run[n].committed && Fits(run[n].delivered, limit)
    ensures TxInv(run[n], sh, limit, Skipped(steps, n))
    decreases n
  {
    if n == 0 {
      InitInv(run[0]);
      sh := Flat([]);
    } else {
      Earlier(run, steps, limit, n - 1);
      sh := TxRunKeeps(run, steps, limit, n - 1);
      sh := TxNextKeeps(run[n - 1], sh, limit, Skipped(steps, n - 1), steps[n - 1], run[n]);
      SkippedNext(steps, n - 1);
    }
  }

  lemma Earlier(run: seq<State>, steps: seq<TxStep>, limit: Limits, k: nat)
    requires IsTxRun(run, steps, limit) && k < |steps| && Headed(run[k + 1])
    ensures NextTx(run[k], limit, steps[k], run[k + 1]) && Headed(run[k])
  {
    assert TxStepAt(run, steps, limit, k);
    CommittedGrows(run[k], limit, steps[k], run[k + 1]);
    EarlierHeaded(run[k], run[k + 1]);
  }

  /** The reader looks at a stop marker although packets are left. */
  ghost predicate Stuck(s: State) {
    s.read + 4 <= |s.mem| && U32(s.mem, s.read) == 0 && s.delivered != s.committed
  }

  /** In every run the reader is stuck exactly when it has stepped over a packet; then that packet is the next
      one and is too long.  So it is never stuck as long as all packets fit. */
  lemma StuckExactly(run: seq<State>, steps: seq<TxStep>, limit: Limits, n: nat)
    requires IsTxRun(run, steps, limit) && n < |run| && Headed(run[n])
    ensures Stuck(run[n]) <==> Skipped(steps, n)
    ensures Stuck(run[n]) ==> Held(run[n], limit)
    ensures Fits(run[n].committed, limit) ==> !Skipped(steps, n)
  {
    var sh := TxRunKeeps(run, steps, limit, n);
    var s := run[n];
    if !Skipped(steps, n) {
      Head(s, sh);
      LookFacts(s.mem, s.read, Front(s.prod, s.write), sh);
      if s.delivered != s.committed { assert ZeroHeaded(s.committed[|s.delivered|]); }
    }
  }

  /** After a packet is stepped over nothing is sent any more. */
  lemma {:induction false} SkipIsFinal(run: seq<State>, steps: seq<TxStep>, limit: Limits, k: nat, n: nat)
    requires IsTxRun(run, steps, limit) && k < n < |run| && steps[k].Skip? && Headed(run[n])
    ensures run[n].delivered == run[k].delivered && Stuck(run[n])
    decreases n
  {
    Earlier(run, steps, limit, n - 1);
    StuckExactly(run, steps, limit, n);
    if k < n - 1 {
      SkipIsFinal(run, steps, limit, k, n - 1);
      var _ := TxRunKeeps(run, steps, limit, n - 1);
      JammedStep(run[n - 1], limit, steps[n - 1], run[n]);
    }
  }

  // ---------------------------------------------------------------- a packet that is too long

  function Plains(steps: seq<Step>): (r: seq<TxStep>)
    ensures |r| == |steps| && forall i :: 0 <= i < |r| ==> r[i] == Plain(steps[i])
  {
    seq(|steps|, i requires 0 <= i < |steps| => Plain(steps[i]))
  }

  lemma Lift(run: seq<State>, steps: seq<Step>, limit: Limits)
    requires IsRun(run, steps) && forall k :: 0 <= k < |steps| ==> !steps[k].Fetch? && !steps[k].Finish?
    ensures IsTxRun(run, Plains(steps), limit)
  {
    forall k | 0 <= k < |steps| ensures TxStepAt(run, Plains(steps), limit, k) {
      assert Next(run[k], steps[k], run[k + 1]);
    }
  }

  lemma ExtendTx(run: seq<State>, steps: seq<TxStep>, limit: Limits, l: TxStep, s': State)
    requires IsTxRun(run, steps, limit) && NextTx(run[|run| - 1], limit, l, s')
    ensures IsTxRun(run + [s'], steps + [l], limit)
  {
    var run', steps' := run + [s'], steps + [l];
    forall k | 0 <= k < |steps'| ensures TxStepAt(run', steps', limit, k) {
      if k < |steps| { assert TxStepAt(run, steps, limit, k); }
    }
  }

  /** A packet reaches the reader. */
  lemma OneRun(pkt: Packet, cap: nat) returns (run: seq<State>, steps: seq<Step>)
    requires pkt != [] && cap % 4 == 0 && Total(pkt) < cap < WRAP && |pkt| + 16 + cap <= WORD
    ensures IsRun(run, steps) && Onward([], steps)
    ensures var s := run[|run| - 1];
      s.cons == Handling(0, |pkt|, []) && s.committed == [pkt] && s.delivered == []
  {
    var start := EmptyRun(cap);
    run, steps := Enqueue(start, [], pkt);
    var s := run[|run| - 1];
    var s1, s2 := s.(cons := Looking), s.(cons := Handling(0, |pkt|, []));
    Extend(run, steps, Wake, s1);
    run, steps := run + [s1], steps + [Wake];
    Extend(run, steps, Look, s2);
    run, steps := run + [s2], steps + [Look];
  }

  /** Every frame that Wifi_RawTxFrame can queue but its destination cannot hold has a run in which it is
      stepped over and the reader is stuck. */
  lemma JammingRun(limit: Limits, rate: nat, data: seq<byte>, fcs: seq<byte>, cap: nat)
    returns (run: seq<State>, steps: seq<TxStep>)
    requires |fcs| == 4 && 16 + |data| > limit(0) && cap % 4 == 0
    requires Total(RawTxFrame(rate, data, fcs)) < cap < WRAP && |data| + 32 + cap <= WORD
    ensures IsTxRun(run, steps, limit)
    ensures var s := run[|run| - 1];
      s.committed == [RawTxFrame(rate, data, fcs)] && s.delivered == [] && Headed(s) && Stuck(s)
  {
    var pkt := RawTxFrame(rate, data, fcs);
    var run0, steps0 := OneRun(pkt, cap);
    Lift(run0, steps0, limit);
    var s := run0[|run0| - 1];
    var s' := s.(read := 4, cons := Resting);
    ExtendTx(run0, Plains(steps0), limit, Skip, s');
    run, steps := run0 + [s'], Plains(steps0) + [Skip];
    assert steps[|steps| - 1].Skip?;
    StuckExactly(run, steps, limit, |steps|);
  }
}
