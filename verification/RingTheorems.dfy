/** What the ring's invariant gives, over every run and every interleaving. */
module RingTheorems {
  import opened LittleEndian
  import opened RingModel

  /** Every step of either program keeps the invariant. */
  lemma NextKeeps(s: State, sh: Shape, l: Step, s': State) returns (sh': Shape)
    requires Inv(s, sh) && Next(s, l, s')
    ensures Inv(s', sh')
  {
    sh' := sh;
    match l
    case Begin(pkt) => LayoutFrame(s.mem, s.mem, s.read, s.write, sh);
    case Decide => DecideKeeps(s, sh, s');
    case MarkWrap => sh' := MarkWrapKeeps(s, sh, s');
    case Scribble(m) => ScribbleKeeps(s, sh, m, s');
    case Trail => TrailKeeps(s, sh, s');
    case Index => IndexKeeps(s, sh, s');
    case Publish => sh' := PublishKeeps(s, sh, s');
    case Wake =>
    case Look => LookKeeps(s, sh, s');
    case LookAtZero => LookAtZeroKeeps(s, sh, s');
    case Rewind => sh' := RewindKeeps(s, sh, s');
    case Fetch => FetchKeeps(s, sh, s');
    case Finish(more) => sh' := FinishKeeps(s, sh, more, s');
  }

  /** A run: any interleaving of the two programs from an empty ring. */
  ghost predicate IsRun(run: seq<State>, steps: seq<Step>) {
    && |run| == |steps| + 1 && Init(run[0])
    && forall i {:trigger steps[i]} :: 0 <= i < |steps| ==> Next(run[i], steps[i], run[i + 1])
  }

  lemma {:induction false} RunKeeps(run: seq<State>, steps: seq<Step>, n: nat) returns (sh: Shape)
    requires IsRun(run, steps) && n < |run|
    ensures Inv(run[n], sh)
  {
    if n == 0 {
      InitInv(run[0]);
      sh := Flat([]);
    } else {
      var was := RunKeeps(run, steps, n - 1);
      assert Next(run[n - 1], steps[n - 1], run[n]);
      sh := NextKeeps(run[n - 1], was, steps[n - 1], run[n]);
    }
  }

  /** At every moment of every run the packets delivered are, in order and exactly once each, a prefix
      of the packets committed. */
  lemma DeliveredIsPrefix(run: seq<State>, steps: seq<Step>, n: nat)
    requires IsRun(run, steps) && n < |run|
    ensures run[n].delivered <= run[n].committed
  {
    var sh := RunKeeps(run, steps, n);
  }

  /** The bytes the consumer may read before the next size word is published. */
  ghost predicate MayBeRead(s: State, sh: Shape, j: nat) {
    match sh
    case Flat(_) => s.read <= j < Front(s.prod, s.write) + 4
    case Wrapped(wp, _, _) => s.read <= j < wp + 4 || j < Front(s.prod, s.write) + 4
  }

  /** The consumer's next access touches byte `j`. */
  ghost predicate Touches(s: State, j: nat) {
    match s.cons
    case Resting => false
    case Looking => s.read <= j < s.read + 4
    case AtZero => j < 4
    case Handling(at, size, got) => |got| < size && j == at + 4 + |got|
  }

  /** The consumer reads nothing else: every byte that its looks and its handlers touch is one it may
      read. */
  lemma TouchesMayBeRead(s: State, sh: Shape, j: nat)
    requires Inv(s, sh) && Touches(s, j)
    ensures MayBeRead(s, sh, j)
  {
    var front := Front(s.prod, s.write);
    LayoutFrame(s.mem, s.mem, s.read, front, sh);
    if s.cons.Handling? { RecordEnds(s.mem, s.read, front, sh, s.cons.at); }
  }

  /** The record at the head of the stretch being read ends before that stretch does. */
  lemma RecordEnds(m: seq<byte>, read: nat, front: nat, sh: Shape, at: nat)
    requires Laid(m, read, front, sh) && Current(sh) != [] && at % 4 == 0
    requires at == if sh.Wrapped? && sh.first == [] then 0 else read
    ensures var e := Trailer(at, |Current(sh)[0]|);
      if sh.Wrapped? && sh.first != [] then e <= sh.wp else e <= front
  {
    assert Asked(true);
    var pks := Current(sh);
    var end := if sh.Wrapped? && sh.first != [] then sh.wp else front;
    LinearFrame(m, m, Trailer(at, |pks[0]|), pks[1..], end);
  }

  /** The allocated region lies in the buffer, and nothing in it but its own size word is a byte the
      consumer may be reading: not an unread record, not the marker it rests on, not the wrap marker. */
  lemma RegionIsFree(run: seq<State>, steps: seq<Step>, n: nat) returns (sh: Shape)
    requires IsRun(run, steps) && n < |run|
    requires run[n].prod.Filling? || run[n].prod.Trailed? || run[n].prod.Indexed?
    ensures Inv(run[n], sh)
    ensures var at, pkt := run[n].prod.at, run[n].prod.pkt;
      && at % 4 == 0 && Trailer(at, |pkt|) + 4 <= run[n].cap
      && (forall j {:trigger MayBeRead(run[n], sh, j)} ::
            at + 4 <= j < Trailer(at, |pkt|) + 4 ==> !MayBeRead(run[n], sh, j))
      && (forall j {:trigger Touches(run[n], j)} :: at + 4 <= j < Trailer(at, |pkt|) + 4 ==> !Touches(run[n], j))
  {
    sh := RunKeeps(run, steps, n);
    LayoutFrame(run[n].mem, run[n].mem, run[n].read, Front(run[n].prod, run[n].write), sh);
    forall j {:trigger Touches(run[n], j)} | Touches(run[n], j) ensures MayBeRead(run[n], sh, j) {
      TouchesMayBeRead(run[n], sh, j);
    }
  }

  /** The assertions of the C code hold: indices stay aligned and leave room for a size word, and what the
      handler reads is the next packet, inside the buffer. */
  lemma IndicesStayInside(run: seq<State>, steps: seq<Step>, n: nat)
    requires IsRun(run, steps) && n < |run|
    ensures run[n].read % 4 == 0 && run[n].read <= run[n].cap - 4
    ensures run[n].write % 4 == 0 && run[n].write <= run[n].cap - 4
    ensures run[n].cons.Handling? ==>
      var s := run[n];
      && s.cons.at + 4 + s.cons.size <= s.cap && |s.delivered| < |s.committed|
      && s.cons.size == |s.committed[|s.delivered|]| && s.cons.got <= s.committed[|s.delivered|]
      && s.cons.at + 4 + s.cons.size <= |s.mem|
      && s.mem[s.cons.at + 4..s.cons.at + 4 + s.cons.size] == s.committed[|s.delivered|]
  {
    var sh := RunKeeps(run, steps, n);
    if run[n].cons.Handling? {
      Head(run[n], sh);
      HeadRecord(run[n].mem, run[n].read, Front(run[n].prod, run[n].write), sh, run[n].cons.at);
    }
  }

  // ---------------------------------------------------------------- coming to rest

  /** The next packet to deliver exists and is empty: its size word is the stop marker. */
  ghost predicate Blocked(s: State) {
    |s.delivered| < |s.committed| && s.committed[|s.delivered|] == []
  }

  lemma Behind(done: seq<Packet>, rest: seq<Packet>)
    ensures done == done + rest <==> rest == []
    ensures rest != [] ==> |done| < |done + rest| && rest[0] == (done + rest)[|done|]
  {}

  lemma Head(s: State, sh: Shape)
    requires Inv(s, sh)
    ensures s.delivered == s.committed <==> Unread(sh) == []
    ensures Unread(sh) != [] ==> |s.delivered| < |s.committed| && Unread(sh)[0] == s.committed[|s.delivered|]
    ensures Unread(sh) != [] ==> Current(sh) != [] && Current(sh)[0] == Unread(sh)[0]
  {
    Behind(s.delivered, Unread(sh));
  }

  lemma LookRests(s: State, sh: Shape, l: Step, s': State)
    requires Inv(s, sh) && Next(s, l, s') && (l.Look? || l.LookAtZero?) && !s'.cons.AtZero?
    ensures s'.cons.Resting? <==> s.delivered == s.committed || Blocked(s)
  {
    Head(s, sh);
    LookFacts(s.mem, s.read, Front(s.prod, s.write), sh);
  }

  /** In every run a look at the markers comes to rest, rather than at a record or at offset 0, exactly
      when everything committed has been delivered or the next packet is empty.  So it rests with packets
      left over exactly when the next one is empty. */
  lemma RestsExactly(run: seq<State>, steps: seq<Step>, n: nat)
    requires IsRun(run, steps) && n < |steps| && (steps[n].Look? || steps[n].LookAtZero?) && !run[n + 1].cons.AtZero?
    ensures run[n + 1].cons.Resting? <==> run[n].delivered == run[n].committed || Blocked(run[n])
    ensures run[n + 1].cons.Resting? ==> (run[n].delivered != run[n].committed <==> Blocked(run[n]))
  {
    var sh := RunKeeps(run, steps, n);
    assert Next(run[n], steps[n], run[n + 1]);
    LookRests(run[n], sh, steps[n], run[n + 1]);
  }

  lemma BlockedStep(s: State, sh: Shape, l: Step, s': State)
    requires Inv(s, sh) && Next(s, l, s') && Blocked(s)
    ensures s'.delivered == s.delivered && Blocked(s')
  {
    Head(s, sh);
  }

  /** An empty packet stops delivery for good: in no later state of the run has it, or anything behind it,
      been delivered. */
  lemma {:induction false} EmptyPacketBlocks(run: seq<State>, steps: seq<Step>, n: nat, m: nat)
    requires IsRun(run, steps) && n <= m < |run| && Blocked(run[n])
    ensures run[m].delivered == run[n].delivered && Blocked(run[m])
    decreases m - n
  {
    if n < m {
      EmptyPacketBlocks(run, steps, n, m - 1);
      var sh := RunKeeps(run, steps, m - 1);
      assert Next(run[m - 1], steps[m - 1], run[m]);
      BlockedStep(run[m - 1], sh, steps[m - 1], run[m]);
    }
  }

  /** A drained ring with an idle producer has its two indices in the same place, wherever that is: it takes
      a packet exactly if the packet fits behind them or in front of them, so any that needs less than half
      of the buffer. */
  lemma DrainedAccepts(s: State, sh: Shape, pkt: Packet)
    requires Inv(s, sh) && s.prod.Idle? && s.delivered == s.committed && Honest(s.cap, s.read, s.write, pkt)
    ensures s.read == s.write
    ensures Choose(s.cap, s.read, s.write, Total(pkt)) != Full <==>
      Total(pkt) < s.cap - s.write || Total(pkt) < s.read
    ensures 2 * Total(pkt) < s.cap ==> Choose(s.cap, s.read, s.write, Total(pkt)) != Full
  {
    Head(s, sh);
    assert Asked(true);
  }

  // ---------------------------------------------------------------- making runs

  lemma Extend(run: seq<State>, steps: seq<Step>, l: Step, s': State)
    requires IsRun(run, steps) && Next(run[|run| - 1], l, s')
    ensures IsRun(run + [s'], steps + [l])
  {
    var run', steps' := run + [s'], steps + [l];
    forall i {:trigger steps'[i]} | 0 <= i < |steps'| ensures Next(run'[i], steps'[i], run'[i + 1]) {
      if i < |steps| { assert steps'[i] == steps[i]; }
    }
  }

  /** `m` with `pkt` written at `at`. */
  function Filled(m: seq<byte>, at: nat, pkt: Packet): (m': seq<byte>)
    requires at + |pkt| <= |m|
    ensures |m'| == |m|
  {
    m[..at] + pkt + m[at + |pkt|..]
  }

  /** `steps'` goes on from `steps` without a step of a packet handler. */
  ghost predicate Onward(steps: seq<Step>, steps': seq<Step>) {
    && steps <= steps'
    && forall k :: |steps| <= k < |steps'| ==> !steps'[k].Fetch? && !steps'[k].Finish?
  }

  lemma Three(run: seq<State>, steps: seq<Step>, a: Step, s1: State, b: Step, s2: State, c: Step, s3: State)
    returns (run': seq<State>, steps': seq<Step>)
    requires IsRun(run, steps) && Next(run[|run| - 1], a, s1) && Next(s1, b, s2) && Next(s2, c, s3)
    ensures IsRun(run', steps') && run'[|run'| - 1] == s3 && steps' == steps + [a, b, c]
  {
    Extend(run, steps, a, s1);
    var r1, t1 := run + [s1], steps + [a];
    Extend(r1, t1, b, s2);
    var r2, t2 := r1 + [s2], t1 + [b];
    Extend(r2, t2, c, s3);
    run', steps' := r2 + [s3], t2 + [c];
    assert steps + [a] + [b] + [c] == steps + [a, b, c];
  }

  ghost predicate RoomFor(s: State, pkt: Packet) {
    && s.prod.Idle? && s.write % 4 == 0 && |pkt| + 16 + s.cap <= WORD && |pkt| < WORD
    && 4 <= |s.mem| && Trailer(s.write, |pkt|) + 4 <= |s.mem| && Choose(s.cap, s.read, s.write, Total(pkt)) == AtEnd
  }

  /** A packet that fits behind the others can be written in three steps, */
  lemma Write(run: seq<State>, steps: seq<Step>, pkt: Packet) returns (run': seq<State>, steps': seq<Step>)
    requires IsRun(run, steps) && RoomFor(run[|run| - 1], pkt)
    ensures IsRun(run', steps') && Onward(steps, steps')
    ensures var s := run[|run| - 1];
      run'[|run'| - 1] == s.(mem := Filled(s.mem, s.write + 4, pkt), prod := Filling(pkt, s.write))
  {
    var s := run[|run| - 1];
    var s1 := s.(prod := Loaded(pkt, s.read));
    var s2 := s.(prod := Filling(pkt, s.write));
    var m := Filled(s.mem, s.write + 4, pkt);
    var s3 := s2.(mem := m);
    run', steps' := Three(run, steps, Begin(pkt), s1, Decide, s2, Scribble(m), s3);
  }

  /** and committed in three more. */
  lemma Enqueue(run: seq<State>, steps: seq<Step>, pkt: Packet) returns (run': seq<State>, steps': seq<Step>)
    requires IsRun(run, steps) && RoomFor(run[|run| - 1], pkt)
    ensures IsRun(run', steps') && Onward(steps, steps')
    ensures var s, e := run[|run| - 1], Trailer(run[|run| - 1].write, |pkt|);
      run'[|run'| - 1] == s.(mem := Put32(Put32(Filled(s.mem, s.write + 4, pkt), e, 0), s.write, |pkt|),
                             write := e, committed := s.committed + [pkt])
  {
    var r, t := Write(run, steps, pkt);
    var s3 := r[|r| - 1];
    var at, e := s3.write, Trailer(s3.write, |pkt|);
    assert s3.mem[at + 4..at + 4 + |pkt|] == pkt;
    var s4 := s3.(mem := Put32(s3.mem, e, 0), prod := Trailed(pkt, at));
    var s5 := s4.(write := e, prod := Indexed(pkt, at));
    var s6 := s5.(mem := Put32(s5.mem, at, |pkt|), prod := Idle, committed := s3.committed + [pkt]);
    run', steps' := Three(r, t, Trail, s4, Index, s5, Publish, s6);
  }

  lemma EmptyRun(cap: nat) returns (run: seq<State>)
    requires cap % 4 == 0 && 8 <= cap < WRAP
    ensures IsRun(run, []) && run == [State(cap, seq(cap, _ => 0), 0, 0, Idle, Resting, [], [])]
  {
    run := [State(cap, seq(cap, _ => 0), 0, 0, Idle, Resting, [], [])];
  }

  /** A run in which an empty packet is committed, and the reader comes to rest in front of it. */
  lemma EmptyPacketRun() returns (run: seq<State>, steps: seq<Step>)
    ensures IsRun(run, steps) && run[|run| - 1].cons.Resting? && Blocked(run[|run| - 1])
  {
    var start := EmptyRun(16);
    run, steps := Enqueue(start, [], []);
    var s := run[|run| - 1];
    var s' := s.(cons := Looking);
    Extend(run, steps, Wake, s');
    run, steps := run + [s'], steps + [Wake];
    assert U32(s'.mem, 0) == 0;
    Extend(run, steps, Look, s);
    run, steps := run + [s], steps + [Look];
  }

  /** Reading a whole record without interference. */
  lemma TakeOne(s: State, sh: Shape, at: nat, size: nat, s': State) returns (sh': Shape)
    requires Inv(s, sh) && s.cons.Resting? && size != 0 && Current(sh) != [] && size == |Current(sh)[0]|
    requires at == if sh.Wrapped? && sh.first == [] then 0 else s.read
    requires at % 4 == 0 && s' == s.(read := Trailer(at, size), delivered := s.delivered + [Current(sh)[0]])
    ensures Inv(s', sh') && Unread(sh) == [Current(sh)[0]] + Unread(sh')
  {
    var h := s.(cons := Handling(at, size, Current(sh)[0]));
    assert Inv(h, sh);
    sh' := FinishKeeps(h, sh, false, s');
  }

  /** Completing a filled record without interference. */
  lemma CommitOne(s: State, sh: Shape, pkt: Packet, at: nat, s': State) returns (sh': Shape)
    requires Inv(s, sh) && s.prod == Filling(pkt, at)
    requires at + 4 + |pkt| <= |s.mem| && s.mem[at + 4..at + 4 + |pkt|] == pkt
    requires at % 4 == 0 && Trailer(at, |pkt|) + 4 <= |s.mem| && |pkt| < WORD
    requires s' == s.(mem := Put32(Put32(s.mem, Trailer(at, |pkt|), 0), at, |pkt|),
                      write := Trailer(at, |pkt|), prod := Idle, committed := s.committed + [pkt])
    ensures Inv(s', sh') && Unread(sh') == Unread(sh) + [pkt]
  {
    var s1 := s.(mem := Put32(s.mem, Trailer(at, |pkt|), 0), prod := Trailed(pkt, at));
    TrailKeeps(s, sh, s1);
    var s2 := s1.(write := Trailer(at, |pkt|), prod := Indexed(pkt, at));
    IndexKeeps(s1, sh, s2);
    assert PublishStep(s2, s');
    sh' := PublishKeeps(s2, sh, s');
  }

  /** Allocating without interference. */
  lemma ReserveOne(s: State, sh: Shape, pkt: Packet, s': State) returns (sh': Shape)
    requires Inv(s, sh) && s.prod == Idle && Honest(s.cap, s.read, s.write, pkt)
    requires 4 <= |s.mem| && s.write + 4 <= |s.mem|
    requires match Choose(s.cap, s.read, s.write, Total(pkt))
      case Full => s' == s
      case AtEnd => s' == s.(prod := Filling(pkt, s.write))
      case AtStart => s' == s.(mem := Put32(Put32(s.mem, 0, 0), s.write, WRAP), prod := Filling(pkt, 0))
    ensures Inv(s', sh') && Unread(sh') == Unread(sh)
  {
    sh' := sh;
    var s1 := s.(prod := Loaded(pkt, s.read));
    LayoutFrame(s.mem, s.mem, s.read, s.write, sh);
    match Choose(s.cap, s.read, s.write, Total(pkt))
    case Full =>
    case AtEnd => DecideKeeps(s1, sh, s');
    case AtStart =>
      var s2 := s1.(mem := Put32(s1.mem, 0, 0), prod := Stopped(pkt));
      DecideKeeps(s1, sh, s2);
      sh' := MarkWrapKeeps(s2, sh, s');
  }
}
