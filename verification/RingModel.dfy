/** The packet ring between the two CPUs (ipc.c, rx_queue.c, wifi_arm9.c): a single producer and a
    single consumer share a byte buffer and two indices without a lock.  A record is a size word,
    the data padded to a word, and the size word of the record to come.  Size 0 stops the reader,
    WIFI_SIZE_WRAP sends it back to offset 0.  The two programs are modelled one memory access at a
    time, in any interleaving. */
module RingModel {
  import opened LittleEndian

  const WRAP := 0xFFFF_FFFF // WIFI_SIZE_WRAP

  type Packet = seq<byte>

  function Pad(n: nat): (r: nat) // round_up_32
    ensures r % 4 == 0 && n <= r < n + 4
  {
    (n + 3) / 4 * 4
  }

  /** Where the record of `n` data bytes at `at` has its trailing word. */
  function Trailer(at: nat, n: nat): (e: nat)
    requires at % 4 == 0
    ensures e % 4 == 0 && at + 4 + n <= e < at + 8 + n
  {
    at + 4 + Pad(n)
  }

  // ---------------------------------------------------------------- layout

  /** The packets `pks` lie one after the other from offset `r`; the next record starts at `w`. */
  ghost predicate Linear(m: seq<byte>, r: nat, pks: seq<Packet>, w: nat)
    decreases |pks|
  {
    r % 4 == 0 && r + 4 <= |m| &&
    if pks == [] then r == w
    else
      var n := |pks[0]|;
      && n < WRAP && Trailer(r, n) + 4 <= |m|
      && U32(m, r) == n && m[r + 4..r + 4 + n] == pks[0]
      && Linear(m, Trailer(r, n), pks[1..], w)
  }

  ghost predicate SameOn(m: seq<byte>, m': seq<byte>, lo: nat, hi: nat) {
    |m| == |m'| && forall j :: lo <= j < hi && j < |m| ==> m'[j] == m[j]
  }

  lemma {:induction false} LinearFrame(m: seq<byte>, m': seq<byte>, r: nat, pks: seq<Packet>, w: nat)
    requires Linear(m, r, pks, w) && SameOn(m, m', r, w)
    ensures r <= w && w % 4 == 0 && w + 4 <= |m| && Linear(m', r, pks, w)
    decreases |pks|
  {
    if pks != [] {
      var e := Trailer(r, |pks[0]|);
      LinearFrame(m, m, e, pks[1..], w);
      LinearFrame(m, m', e, pks[1..], w);
    }
  }

  lemma {:induction false} LinearAppend(m: seq<byte>, r: nat, pks: seq<Packet>, w: nat, pkt: Packet)
    requires Linear(m, r, pks, w) && |pkt| < WRAP && w % 4 == 0 && Trailer(w, |pkt|) + 4 <= |m|
    requires U32(m, w) == |pkt| && m[w + 4..w + 4 + |pkt|] == pkt
    ensures Linear(m, r, pks + [pkt], Trailer(w, |pkt|))
    decreases |pks|
  {
    if pks == [] {
      assert Linear(m, Trailer(w, |pkt|), [], Trailer(w, |pkt|));
      assert ([pkt])[1..] == [];
    } else {
      LinearAppend(m, Trailer(r, |pks[0]|), pks[1..], w, pkt);
      assert (pks + [pkt])[1..] == pks[1..] + [pkt];
    }
  }

  // ---------------------------------------------------------------- the two programs

  datatype Choice = Full | AtEnd | AtStart

  /** The decision of Wifi_RxBufferAllocBuffer / Wifi_TxBufferAllocBuffer, in 32-bit arithmetic. */
  function Choose(cap: nat, read: nat, write: nat, total: nat): Choice {
    if read <= write then
      if (write + total) % WORD >= cap then (if total >= read then Full else AtStart) else AtEnd
    else
      if (write + total) % WORD >= read then Full else AtEnd
  }

  /** What the producer does next. */
  datatype Producer =
    | Idle
    | Loaded(pkt: Packet, seen: nat)  // has read the indices; `seen` may go stale
    | Stopped(pkt: Packet)            // wrote 0 at offset 0, about to write the wrap marker
    | Filling(pkt: Packet, at: nat)   // writing the data of the record at `at`
    | Trailed(pkt: Packet, at: nat)   // data and trailing 0 are in place
    | Indexed(pkt: Packet, at: nat)   // the write index has moved, about to publish the size word

  /** What the consumer does next. */
  datatype Consumer =
    | Resting
    | Looking                                        // about to read the word at the read index
    | AtZero                                         // saw the wrap marker, about to read the word at 0
    | Handling(at: nat, size: nat, got: Packet)      // the handler is reading the record at `at`

  datatype State = State(cap: nat, mem: seq<byte>, write: nat, read: nat, prod: Producer, cons: Consumer,
                         committed: seq<Packet>, delivered: seq<Packet>)

  datatype Step =
    | Begin(pkt: Packet) | Decide | MarkWrap | Scribble(mem: seq<byte>) | Trail | Index | Publish
    | Wake | Look | LookAtZero | Rewind | Fetch | Finish(more: bool)

  /** The two size words, and the data in whole words. */
  function Total(pkt: Packet): (n: nat)
    ensures n % 4 == 0 && |pkt| + 8 <= n < |pkt| + 12
  {
    8 + Pad(|pkt|)
  }

  ghost predicate DecideStep(s: State, s': State) {
    && s.prod.Loaded? && 4 <= |s.mem|
    && var pkt := s.prod.pkt;
       match Choose(s.cap, s.prod.seen, s.write, Total(pkt))
       case Full => s' == s.(prod := Idle)
       case AtEnd => s' == s.(prod := Filling(pkt, s.write))
       case AtStart => s' == s.(mem := Put32(s.mem, 0, 0), prod := Stopped(pkt))
  }

  ghost predicate MarkWrapStep(s: State, s': State) {
    && s.prod.Stopped? && s.write + 4 <= |s.mem|
    && s' == s.(mem := Put32(s.mem, s.write, WRAP), prod := Filling(s.prod.pkt, 0))
  }

  /** Any write inside the data area of the record. */
  ghost predicate ScribbleStep(s: State, m: seq<byte>, s': State) {
    && s.prod.Filling? && s.prod.at % 4 == 0 && |m| == |s.mem|
    && (forall j :: 0 <= j < |m| && !(s.prod.at + 4 <= j < Trailer(s.prod.at, |s.prod.pkt|)) ==> m[j] == s.mem[j])
    && s' == s.(mem := m)
  }

  /** The data is complete; the next record is marked as empty. */
  ghost predicate TrailStep(s: State, s': State) {
    && s.prod.Filling? && s.prod.at % 4 == 0
    && Trailer(s.prod.at, |s.prod.pkt|) + 4 <= |s.mem|
    && s.mem[s.prod.at + 4..s.prod.at + 4 + |s.prod.pkt|] == s.prod.pkt
    && s' == s.(mem := Put32(s.mem, Trailer(s.prod.at, |s.prod.pkt|), 0), prod := Trailed(s.prod.pkt, s.prod.at))
  }

  ghost predicate IndexStep(s: State, s': State) {
    && s.prod.Trailed? && s.prod.at % 4 == 0
    && s' == s.(write := Trailer(s.prod.at, |s.prod.pkt|), prod := Indexed(s.prod.pkt, s.prod.at))
  }

  ghost predicate PublishStep(s: State, s': State) {
    && s.prod.Indexed? && s.prod.at + 4 <= |s.mem| && |s.prod.pkt| < WORD
    && s' == s.(mem := Put32(s.mem, s.prod.at, |s.prod.pkt|), prod := Idle, committed := s.committed + [s.prod.pkt])
  }

  ghost predicate LookStep(s: State, s': State) {
    && s.cons.Looking? && s.read + 4 <= |s.mem|
    && var v := U32(s.mem, s.read);
       s' == s.(cons := if v == 0 then Resting else if v == WRAP then AtZero else Handling(s.read, v, []))
  }

  ghost predicate LookAtZeroStep(s: State, s': State) {
    && s.cons.AtZero? && 4 <= |s.mem|
    && var v := U32(s.mem, 0);
       s' == s.(cons := if v == 0 then Resting else Handling(0, v, []))
  }

  /** The transmit reader of the NTR driver moves the shared read index to 0 before it looks there. */
  ghost predicate RewindStep(s: State, s': State) {
    s.cons.AtZero? && s' == s.(read := 0, cons := Looking)
  }

  ghost predicate FetchStep(s: State, s': State) {
    && s.cons.Handling? && |s.cons.got| < s.cons.size && s.cons.at + 4 + |s.cons.got| < |s.mem|
    && s' == s.(cons := s.cons.(got := s.cons.got + [s.mem[s.cons.at + 4 + |s.cons.got|]]))
  }

  ghost predicate FinishStep(s: State, more: bool, s': State) {
    && s.cons.Handling? && |s.cons.got| == s.cons.size && s.cons.at % 4 == 0
    && s' == s.(read := Trailer(s.cons.at, s.cons.size), delivered := s.delivered + [s.cons.got],
                cons := if more then Looking else Resting)
  }

  /** `s'` follows from `s` by one access of one of the two programs. */
  ghost predicate Next(s: State, l: Step, s': State) {
    match l
    case Begin(pkt) => s.prod.Idle? && |pkt| + 16 + s.cap <= WORD && s' == s.(prod := Loaded(pkt, s.read))
    case Decide => DecideStep(s, s')
    case MarkWrap => MarkWrapStep(s, s')
    case Scribble(m) => ScribbleStep(s, m, s')
    case Trail => TrailStep(s, s')
    case Index => IndexStep(s, s')
    case Publish => PublishStep(s, s')
    case Wake => s.cons.Resting? && s' == s.(cons := Looking)
    case Look => LookStep(s, s')
    case LookAtZero => LookAtZeroStep(s, s')
    case Rewind => RewindStep(s, s')
    case Fetch => FetchStep(s, s')
    case Finish(more) => FinishStep(s, more, s')
  }

  ghost predicate Init(s: State) {
    && s.cap % 4 == 0 && 8 <= s.cap < WRAP && |s.mem| == s.cap && U32(s.mem, 0) == 0
    && s.write == 0 && s.read == 0 && s.prod.Idle? && s.cons.Resting? && s.committed == [] && s.delivered == []
  }

  // ---------------------------------------------------------------- invariant

  /** The unread packets: either they run from the read index to the frontier, or `first` runs up to a
      wrap marker at `wp` and `second` goes on from offset 0. */
  datatype Shape = Flat(all: seq<Packet>) | Wrapped(wp: nat, first: seq<Packet>, second: seq<Packet>)

  function Unread(sh: Shape): seq<Packet> {
    match sh
    case Flat(all) => all
    case Wrapped(_, first, second) => first + second
  }

  /** The packets in the stretch the reader will take its next packet from. */
  function Current(sh: Shape): seq<Packet> {
    match sh
    case Flat(all) => all
    case Wrapped(_, first, second) => if first != [] then first else second
  }

  /** The word the next record's size will be published in. */
  function Front(prod: Producer, write: nat): nat {
    if prod.Idle? || prod.Loaded? || prod.Stopped? then write else prod.at
  }

  ghost predicate Layout(m: seq<byte>, read: nat, front: nat, sh: Shape) {
    match sh
    case Flat(all) => Linear(m, read, all, front)
    case Wrapped(wp, first, second) =>
      && wp + 4 <= |m| && U32(m, wp) == WRAP && front + 4 <= read
      && Linear(m, read, first, wp) && Linear(m, 0, second, front)
  }

  // The steps know the layout only by the lemmas about it, which ask for it.

  predicate Asked(b: bool) { true }

  ghost predicate Laid(m: seq<byte>, read: nat, front: nat, sh: Shape) {
    forall b {:trigger Asked(b)} :: Asked(b) ==> Layout(m, read, front, sh)
  }

  /** The region from `at` to the trailing word included is free. */
  ghost predicate RegionOk(cap: nat, read: nat, wrapped: bool, pkt: Packet, at: nat) {
    && at % 4 == 0 && |pkt| + 16 + cap <= WORD
    && Trailer(at, |pkt|) + 4 <= cap
    && (wrapped ==> Trailer(at, |pkt|) + 4 <= read)
  }

  /** The record at `at` is complete but for its size word. */
  ghost predicate Written(m: seq<byte>, pkt: Packet, at: nat) {
    && at % 4 == 0 && Trailer(at, |pkt|) + 4 <= |m|
    && U32(m, Trailer(at, |pkt|)) == 0 && m[at + 4..at + 4 + |pkt|] == pkt
  }

  ghost predicate ProducerOk(prod: Producer, m: seq<byte>, cap: nat, read: nat, write: nat, wrapped: bool) {
    match prod
    case Idle => true
    case Loaded(pkt, seen) =>
      && |pkt| + 16 + cap <= WORD && seen + 4 <= cap
      && (seen <= write ==> !wrapped && seen <= read)
      && (seen > write && wrapped ==> seen <= read)
    case Stopped(pkt) =>
      !wrapped && |pkt| + 16 + cap <= WORD && Total(pkt) <= read && 4 <= |m| && U32(m, 0) == 0
    case Filling(pkt, at) => RegionOk(cap, read, wrapped, pkt, at)
    case Trailed(pkt, at) => RegionOk(cap, read, wrapped, pkt, at) && Written(m, pkt, at)
    case Indexed(pkt, at) => RegionOk(cap, read, wrapped, pkt, at) && Written(m, pkt, at) && write == Trailer(at, |pkt|)
  }

  ghost predicate ConsumerOk(cons: Consumer, read: nat, sh: Shape) {
    match cons
    case Resting => true
    case Looking => true
    case AtZero => sh.Wrapped? && sh.first == [] && read == sh.wp
    case Handling(at, size, got) =>
      && size > 0 && Current(sh) != [] && size == |Current(sh)[0]| && got <= Current(sh)[0]
      && (at == if sh.Wrapped? && sh.first == [] then 0 else read)
  }

  ghost predicate Basics(cap: nat, m: seq<byte>, read: nat, write: nat, front: nat) {
    && cap % 4 == 0 && 8 <= cap < WRAP && |m| == cap
    && read % 4 == 0 && read + 4 <= cap && write % 4 == 0 && write + 4 <= cap
    && front + 4 <= cap && U32(m, front) == 0
  }

  /** Nothing follows the wrap marker only while the record behind it is being written. */
  ghost predicate MarkerUsed(prod: Producer, sh: Shape) {
    sh.Wrapped? && sh.second == [] ==> prod.Filling? || prod.Trailed? || prod.Indexed?
  }

  ghost predicate Inv(s: State, sh: Shape) {
    var front := Front(s.prod, s.write);
    var ok :=
      && Basics(s.cap, s.mem, s.read, s.write, front)
      && s.committed == s.delivered + Unread(sh)
      && Laid(s.mem, s.read, front, sh)
      && ProducerOk(s.prod, s.mem, s.cap, s.read, s.write, sh.Wrapped?)
      && ConsumerOk(s.cons, s.read, sh)
      && MarkerUsed(s.prod, sh);
    ok
  }

  lemma InitInv(s: State)
    requires Init(s)
    ensures Inv(s, Flat([]))
  {
    assert Layout(s.mem, 0, 0, Flat([]));
  }

  lemma LayoutOf(m: seq<byte>, m': seq<byte>, read: nat, front: nat, sh: Shape)
    requires Layout(m, read, front, sh) && |m| == |m'|
    requires sh.Flat? ==> SameOn(m, m', read, front)
    requires sh.Wrapped? ==> SameOn(m, m', read, sh.wp + 4) && SameOn(m, m', 0, front)
    ensures Layout(m', read, front, sh) && front % 4 == 0
    ensures if sh.Flat? then read <= front else front + 4 <= read <= sh.wp && sh.wp % 4 == 0
  {
    match sh
    case Flat(all) => LinearFrame(m, m', read, all, front);
    case Wrapped(wp, first, second) =>
      LinearFrame(m, m', read, first, wp);
      LinearFrame(m, m', 0, second, front);
  }

  /** Writes that miss the unread records and the marker leave the layout alone. */
  lemma LayoutFrame(m: seq<byte>, m': seq<byte>, read: nat, front: nat, sh: Shape)
    requires Laid(m, read, front, sh) && |m| == |m'|
    requires sh.Flat? ==> SameOn(m, m', read, front)
    requires sh.Wrapped? ==> SameOn(m, m', read, sh.wp + 4) && SameOn(m, m', 0, front)
    ensures Laid(m', read, front, sh) && front % 4 == 0
    ensures if sh.Flat? then read <= front else front + 4 <= read <= sh.wp && sh.wp % 4 == 0
  {
    assert Asked(true);
    LayoutOf(m, m', read, front, sh);
  }

  /** Every request but one that is granted only because the 32-bit sum may wrap. */
  predicate Honest(cap: nat, read: nat, write: nat, pkt: Packet) {
    |pkt| + 16 + cap <= WORD || (Total(pkt) < WORD && Choose(cap, read, write, Total(pkt)) == Full)
  }

  /** A record of `total` bytes goes behind the write index or to the start of the buffer; either way a word
      in front of the read index, or at the end of the buffer, stays unused. */
  predicate RoomBehind(cap: nat, read: nat, write: nat, total: nat) {
    write + total < (if read <= write then cap else read)
  }

  predicate RoomAtStart(read: nat, write: nat, total: nat) { read <= write && total < read }

  /** A packet is refused exactly when it fits in no free stretch; it goes behind the write index whenever it
      fits there. */
  lemma ChoiceIsExact(cap: nat, read: nat, write: nat, pkt: Packet)
    requires read + 4 <= cap && write + 4 <= cap && Honest(cap, read, write, pkt)
    ensures var c, total := Choose(cap, read, write, Total(pkt)), Total(pkt);
      && (c == AtEnd <==> RoomBehind(cap, read, write, total))
      && (c == AtStart <==> !RoomBehind(cap, read, write, total) && RoomAtStart(read, write, total))
      && (c == Full <==> !RoomBehind(cap, read, write, total) && !RoomAtStart(read, write, total))
  {}

  /** What the choice guarantees, even if the consumer moved on since the read index was taken. */
  lemma ChoiceIsSafe(cap: nat, read: nat, write: nat, wrapped: bool, pkt: Packet, seen: nat)
    requires write % 4 == 0 && (!wrapped ==> read <= write) && (wrapped ==> write + 4 <= read)
    requires write + 4 <= cap && |pkt| + 16 + cap <= WORD && seen + 4 <= cap
    requires seen <= write ==> !wrapped && seen <= read
    requires seen > write && wrapped ==> seen <= read
    ensures var c := Choose(cap, seen, write, Total(pkt));
      && (c.AtEnd? ==> RegionOk(cap, read, wrapped, pkt, write))
      && (c.AtStart? ==> !wrapped && Total(pkt) < read && RegionOk(cap, read, true, pkt, 0))
  {}

  /** A request larger than the whole buffer is granted exactly when the 32-bit sum wraps to a value in
      front of the limit it is compared with; a packet that leaves room below 2^32 never is. */
  lemma OversizedGranted(cap: nat, read: nat, write: nat, total: nat)
    requires read + 4 <= cap && write + 4 <= cap && cap <= total < WORD
    ensures Choose(cap, read, write, total) != Full <==>
      write + total >= WORD && write + total - WORD < (if read <= write then cap else read)
    ensures cap + total <= WORD ==> Choose(cap, read, write, total) == Full
  {}

  lemma DecideKeeps(s: State, sh: Shape, s': State)
    requires Inv(s, sh) && DecideStep(s, s')
    ensures Inv(s', sh)
  {
    LayoutFrame(s.mem, s.mem, s.read, s.write, sh);
    ChoiceIsSafe(s.cap, s.read, s.write, sh.Wrapped?, s.prod.pkt, s.prod.seen);
    if Choose(s.cap, s.prod.seen, s.write, Total(s.prod.pkt)).AtStart? {
      LayoutFrame(s.mem, s'.mem, s.read, s.write, sh);
    }
  }

  lemma MarkWrapKeeps(s: State, sh: Shape, s': State) returns (sh': Shape)
    requires Inv(s, sh) && MarkWrapStep(s, s')
    ensures Inv(s', sh') && Unread(sh') == Unread(sh)
  {
    LayoutFrame(s.mem, s.mem, s.read, s.write, sh);
    LayoutFrame(s.mem, s'.mem, s.read, s.write, sh);
    sh' := Wrapped(s.write, sh.all, []);
    MarkedLayout(s'.mem, s.read, s.write, sh.all);
    assert sh.all + [] == sh.all;
  }

  /** With the wrap marker in place the stretch goes on, empty, at offset 0. */
  lemma MarkedLayout(m: seq<byte>, read: nat, write: nat, all: seq<Packet>)
    requires Laid(m, read, write, Flat(all)) && write + 4 <= |m| && U32(m, write) == WRAP && 4 <= read
    ensures Laid(m, read, 0, Wrapped(write, all, []))
  {
    assert Asked(true);
  }

  /** Writes inside the allocated region, its first word excepted. */
  lemma RegionFrame(m: seq<byte>, m': seq<byte>, read: nat, at: nat, end: nat, sh: Shape)
    requires Laid(m, read, at, sh) && |m| == |m'| && at + 4 <= |m|
    requires forall j :: 0 <= j < |m| && !(at + 4 <= j < end) ==> m'[j] == m[j]
    requires sh.Wrapped? ==> end <= read
    ensures Laid(m', read, at, sh) && U32(m', at) == U32(m, at)
  {
    LayoutFrame(m, m, read, at, sh);
    LayoutFrame(m, m', read, at, sh);
  }

  lemma ScribbleKeeps(s: State, sh: Shape, m: seq<byte>, s': State)
    requires Inv(s, sh) && ScribbleStep(s, m, s')
    ensures Inv(s', sh)
  {
    RegionFrame(s.mem, m, s.read, s.prod.at, Trailer(s.prod.at, |s.prod.pkt|), sh);
  }

  lemma TrailLayout(m: seq<byte>, m': seq<byte>, read: nat, at: nat, pkt: Packet, sh: Shape)
    requires at % 4 == 0 && Trailer(at, |pkt|) + 4 <= |m| && m[at + 4..at + 4 + |pkt|] == pkt
    requires Laid(m, read, at, sh) && (sh.Wrapped? ==> Trailer(at, |pkt|) + 4 <= read)
    requires m' == Put32(m, Trailer(at, |pkt|), 0)
    ensures Written(m', pkt, at) && Laid(m', read, at, sh) && U32(m', at) == U32(m, at)
  {
    RegionFrame(m, m', read, at, Trailer(at, |pkt|) + 4, sh);
    assert m'[at + 4..at + 4 + |pkt|] == m[at + 4..at + 4 + |pkt|];
  }

  lemma TrailKeeps(s: State, sh: Shape, s': State)
    requires Inv(s, sh) && TrailStep(s, s')
    ensures Inv(s', sh)
  {
    TrailLayout(s.mem, s'.mem, s.read, s.prod.at, s.prod.pkt, sh);
  }

  lemma IndexKeeps(s: State, sh: Shape, s': State)
    requires Inv(s, sh) && IndexStep(s, s')
    ensures Inv(s', sh)
  {}

  /** Writing the size word completes the record and leaves its data and trailing word alone. */
  lemma SizeWord(m: seq<byte>, m': seq<byte>, at: nat, pkt: Packet)
    requires Written(m, pkt, at) && |pkt| < WRAP && m' == Put32(m, at, |pkt|)
    ensures U32(m', at) == |pkt| && U32(m', Trailer(at, |pkt|)) == 0
    ensures m'[at + 4..at + 4 + |pkt|] == pkt
  {
    assert m'[at + 4..at + 4 + |pkt|] == m[at + 4..at + 4 + |pkt|];
  }

  /** Publishing extends the stretch that ends at the frontier. */
  lemma PublishLayout(m: seq<byte>, m': seq<byte>, read: nat, at: nat, sh: Shape, pkt: Packet) returns (sh': Shape)
    requires Laid(m, read, at, sh) && Written(m, pkt, at) && |pkt| < WRAP && m' == Put32(m, at, |pkt|)
    requires sh.Wrapped? ==> Trailer(at, |pkt|) + 4 <= read
    ensures Laid(m', read, Trailer(at, |pkt|), sh') && U32(m', Trailer(at, |pkt|)) == 0
    ensures Unread(sh') == Unread(sh) + [pkt] && sh'.Wrapped? == sh.Wrapped?
    ensures sh.Wrapped? ==> sh'.first == sh.first && sh'.wp == sh.wp
    ensures Current(sh) != [] ==> Current(sh') != [] && Current(sh')[0] == Current(sh)[0]
  {
    LayoutFrame(m, m, read, at, sh);
    LayoutFrame(m, m', read, at, sh);
    SizeWord(m, m', at, pkt);
    assert Asked(true);
    match sh {
      case Flat(all) =>
        LinearAppend(m', read, all, at, pkt);
        sh' := Flat(all + [pkt]);
      case Wrapped(wp, first, second) =>
        LinearAppend(m', 0, second, at, pkt);
        sh' := Wrapped(wp, first, second + [pkt]);
        assert first + (second + [pkt]) == first + second + [pkt];
    }
  }

  lemma PublishKeeps(s: State, sh: Shape, s': State) returns (sh': Shape)
    requires Inv(s, sh) && PublishStep(s, s')
    ensures Inv(s', sh') && Unread(sh') == Unread(sh) + [s.prod.pkt]
  {
    sh' := PublishLayout(s.mem, s'.mem, s.read, s.prod.at, sh, s.prod.pkt);
    MoveTail(s.delivered, Unread(sh), s.prod.pkt);
  }

  /** What the words at the read index and at offset 0 tell the reader. */
  lemma LookFacts(m: seq<byte>, read: nat, front: nat, sh: Shape)
    requires Laid(m, read, front, sh) && front + 4 <= |m| && U32(m, front) == 0
    ensures read + 4 <= |m|
    ensures sh.Flat? || sh.first != [] ==>
      var pks := if sh.Flat? then sh.all else sh.first;
      U32(m, read) == if pks == [] then 0 else |pks[0]|
    ensures sh.Wrapped? && sh.first == [] ==> U32(m, read) == WRAP && read == sh.wp
    ensures sh.Wrapped? ==> U32(m, 0) == if sh.second == [] then 0 else |sh.second[0]|
    ensures Current(sh) != [] ==> |Current(sh)[0]| < WRAP
  {
    assert Asked(true);
  }

  lemma LookKeeps(s: State, sh: Shape, s': State)
    requires Inv(s, sh) && LookStep(s, s')
    ensures Inv(s', sh)
  {
    LookFacts(s.mem, s.read, Front(s.prod, s.write), sh);
  }

  lemma LookAtZeroKeeps(s: State, sh: Shape, s': State)
    requires Inv(s, sh) && LookAtZeroStep(s, s')
    ensures Inv(s', sh)
  {
    LookFacts(s.mem, s.read, Front(s.prod, s.write), sh);
  }

  /** The record being handled lies in memory as it was committed. */
  lemma HeadRecord(m: seq<byte>, read: nat, front: nat, sh: Shape, at: nat)
    requires Laid(m, read, front, sh) && Current(sh) != []
    requires at == if sh.Wrapped? && sh.first == [] then 0 else read
    ensures at + 4 + |Current(sh)[0]| <= |m| && m[at + 4..at + 4 + |Current(sh)[0]|] == Current(sh)[0]
  {
    assert Asked(true);
  }

  lemma FetchKeeps(s: State, sh: Shape, s': State)
    requires Inv(s, sh) && FetchStep(s, s')
    ensures Inv(s', sh)
  {
    var at, got, pkt := s.cons.at, s.cons.got, Current(sh)[0];
    HeadRecord(s.mem, s.read, Front(s.prod, s.write), sh, at);
    assert s.mem[at + 4 + |got|] == s.mem[at + 4..at + 4 + |pkt|][|got|];
    PrefixGrows(got, pkt);
  }

  lemma MoveTail(done: seq<Packet>, rest: seq<Packet>, pkt: Packet)
    ensures (done + rest) + [pkt] == done + (rest + [pkt])
  {}

  lemma MoveHead(done: seq<Packet>, pkt: Packet, rest: seq<Packet>)
    ensures done + ([pkt] + rest) == (done + [pkt]) + rest
  {}

  lemma PrefixFull(got: Packet, pkt: Packet)
    requires got <= pkt && |got| == |pkt|
    ensures got == pkt
  {}

  lemma PrefixGrows(got: Packet, pkt: Packet)
    requires got <= pkt && |got| < |pkt|
    ensures got + [pkt[|got|]] <= pkt
  {}

  /** Taking a packet off the stretch being read. */
  lemma FinishLayout(m: seq<byte>, read: nat, front: nat, sh: Shape, at: nat) returns (sh': Shape)
    requires Laid(m, read, front, sh) && Current(sh) != [] && at % 4 == 0
    requires at == if sh.Wrapped? && sh.first == [] then 0 else read
    ensures var e := Trailer(at, |Current(sh)[0]|);
      && Laid(m, e, front, sh') && e + 4 <= |m|
      && (sh.Wrapped? && sh.first != [] <==> sh'.Wrapped?)
      && (sh'.Wrapped? ==> sh'.second == sh.second)
      && (at == read ==> e > read)
    ensures Unread(sh) == [Current(sh)[0]] + Unread(sh')
  {
    LayoutFrame(m, m, read, front, sh);
    if sh.Wrapped? && sh.first != [] {
      FinishFirst(m, read, front, sh);
      sh' := Wrapped(sh.wp, sh.first[1..], sh.second);
      TakeFirst(sh.first, sh.second);
    } else {
      FinishLast(m, read, front, sh, at);
      sh' := Flat(Current(sh)[1..]);
      if sh.Wrapped? { NoneFirst(m, read, front, sh); }
    }
  }

  lemma TakeFirst(first: seq<Packet>, second: seq<Packet>)
    requires first != []
    ensures first + second == [first[0]] + (first[1..] + second)
  {}

  lemma FinishFirst(m: seq<byte>, read: nat, front: nat, sh: Shape)
    requires Laid(m, read, front, sh) && sh.Wrapped? && sh.first != [] && read % 4 == 0
    ensures var e := Trailer(read, |sh.first[0]|);
      Laid(m, e, front, Wrapped(sh.wp, sh.first[1..], sh.second)) && e + 4 <= |m|
  {
    assert Asked(true);
  }

  lemma FinishLast(m: seq<byte>, read: nat, front: nat, sh: Shape, at: nat)
    requires Laid(m, read, front, sh) && (sh.Wrapped? ==> sh.first == []) && Current(sh) != [] && at % 4 == 0
    requires at == if sh.Wrapped? then 0 else read
    ensures var e := Trailer(at, |Current(sh)[0]|); Laid(m, e, front, Flat(Current(sh)[1..])) && e + 4 <= |m|
  {
    assert Asked(true);
  }

  /** A read index that moves on, or past the wrap, never takes space back from the producer. */
  lemma ProducerAfterRead(prod: Producer, m: seq<byte>, cap: nat, read: nat, read': nat, write: nat, wrapped: bool,
                          wrapped': bool)
    requires ProducerOk(prod, m, cap, read, write, wrapped)
    requires wrapped' ==> wrapped
    requires wrapped' == wrapped ==> read <= read'
    ensures ProducerOk(prod, m, cap, read', write, wrapped')
  {}

  lemma RewindKeeps(s: State, sh: Shape, s': State) returns (sh': Shape)
    requires Inv(s, sh) && RewindStep(s, s')
    ensures Inv(s', sh') && Unread(sh') == Unread(sh)
  {
    sh' := Flat(sh.second);
    ProducerAfterRead(s.prod, s.mem, s.cap, s.read, 0, s.write, true, false);
    NoneFirst(s.mem, s.read, Front(s.prod, s.write), sh);
    assert Basics(s'.cap, s'.mem, s'.read, s'.write, Front(s'.prod, s'.write));
  }

  lemma NoneFirst(m: seq<byte>, read: nat, front: nat, sh: Shape)
    requires Laid(m, read, front, sh) && sh.Wrapped? && sh.first == []
    ensures Unread(sh) == sh.second && Laid(m, 0, front, Flat(sh.second))
  {
    assert Asked(true);
  }

  lemma FinishKeeps(s: State, sh: Shape, more: bool, s': State) returns (sh': Shape)
    requires Inv(s, sh) && FinishStep(s, more, s')
    ensures Inv(s', sh') && Unread(sh) == [s.cons.got] + Unread(sh')
  {
    var got := s.cons.got;
    PrefixFull(got, Current(sh)[0]);
    sh' := FinishLayout(s.mem, s.read, Front(s.prod, s.write), sh, s.cons.at);
    ProducerAfterRead(s.prod, s.mem, s.cap, s.read, s'.read, s.write, sh.Wrapped?, sh'.Wrapped?);
    MoveHead(s.delivered, got, Unread(sh'));
    assert s'.committed == s'.delivered + Unread(sh');
    assert Basics(s'.cap, s'.mem, s'.read, s'.write, Front(s'.prod, s'.write));
  }
}
