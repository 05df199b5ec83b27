/** The ring's code run on its own CPU without interference: Wifi_RxBufferAllocBuffer, the packet
    writer that calls it, and the reader's update loop, on the shared buffer itself. */
module Ring {
  import opened LittleEndian
  import opened RingModel
  import opened RingTheorems

  class PacketRing {
    const data: array<byte> // rxbufData
    var write: nat          // rxbufWrite
    var read: nat           // rxbufRead
    ghost var committed: seq<Packet>
    ghost var delivered: seq<Packet>
    ghost var sh: Shape

    ghost function S(prod: Producer): State reads this, data {
      State(data.Length, data[..], write, read, prod, Resting, committed, delivered)
    }

    ghost predicate Valid() reads this, data { Inv(S(Idle), sh) }

    /** The packets in the ring. */
    ghost function Contents(): seq<Packet> reads this { Unread(sh) }

    constructor (size: nat)
      requires size % 4 == 0 && 8 <= size < WRAP
      ensures Valid() && data.Length == size && Contents() == [] && fresh(data)
    {
      data := new byte[size](_ => 0);
      write, read, committed, delivered, sh := 0, 0, [], [], Flat([]);
      new;
      InitInv(S(Idle));
    }

    /** Wifi_RxBufferAllocBuffer: where a record of `total` bytes may go, or -1.  Before answering 0 it
        leaves the stop and the wrap marker. */
    method AllocBuffer(total: nat) returns (idx: int)
      requires 4 <= data.Length && write + 4 <= data.Length && total < WORD
      modifies data
      ensures var c := Choose(data.Length, read, write, total);
        && (idx == -1 <==> c == Full)
        && (c != AtStart ==> data[..] == old(data[..]))
        && (c == AtEnd ==> idx == write)
        && (c == AtStart ==> idx == 0 && data[..] == Put32(Put32(old(data[..]), 0, 0), write, WRAP))
      ensures write + total < WORD ==>
        idx == if RoomBehind(data.Length, read, write, total) then write
               else if RoomAtStart(read, write, total) then 0 else -1
    {
      var write_idx, read_idx := write, read;
      if read_idx <= write_idx {
        if (write_idx + total) % WORD >= data.Length {
          if total >= read_idx { return -1; }
          StoreU32(data, 0, 0);
          StoreU32(data, write_idx, WRAP);
          write_idx := 0;
        }
      } else {
        if (write_idx + total) % WORD >= read_idx { return -1; }
      }
      return write_idx;
    }

    /** Room for `pkt` at `at`: allocate it, as one step of the model after the other. */
    method Reserve(pkt: Packet) returns (at: int)
      requires Valid() && Honest(data.Length, read, write, pkt)
      modifies data, this`sh
      ensures at == -1 <==> Choose(data.Length, read, write, Total(pkt)) == Full
      ensures at == -1 ==> Valid()
      ensures at != -1 ==> at == if Choose(data.Length, read, write, Total(pkt)) == AtEnd then write else 0
      ensures at != -1 ==> at >= 0 && Inv(S(Filling(pkt, at)), sh)
      ensures Contents() == old(Contents())
    {
      ghost var s, before := S(Idle), sh;
      at := AllocBuffer(Total(pkt));
      sh := ReserveOne(s, before, pkt, S(if at == -1 then Idle else Filling(pkt, at)));
    }

    /** The data goes in behind the size word, which is left alone. */
    method CopyData(pkt: Packet, at: nat)
      requires Inv(S(Filling(pkt, at)), sh)
      modifies data
      ensures Inv(S(Filling(pkt, at)), sh)
      ensures at + 4 + |pkt| <= data.Length && data[at + 4..at + 4 + |pkt|] == pkt
    {
      ghost var s := S(Filling(pkt, at));
      var write_idx := at + 4;
      for i := 0 to |pkt|
        invariant forall j :: 0 <= j < data.Length && !(at + 4 <= j < at + 4 + i) ==> data[j] == s.mem[j]
        invariant forall j :: 0 <= j < i ==> data[at + 4 + j] == pkt[j]
      {
        data[write_idx + i] := pkt[i];
      }
      ScribbleKeeps(s, sh, data[..], S(Filling(pkt, at)));
    }

    /** Trailing stop marker, then the write index, then the size word that makes the packet visible. */
    method Commit(pkt: Packet, at: nat)
      requires Inv(S(Filling(pkt, at)), sh)
      requires at + 4 + |pkt| <= data.Length && data[at + 4..at + 4 + |pkt|] == pkt
      modifies data, this`write, this`committed, this`sh
      ensures Valid() && Contents() == old(Contents()) + [pkt]
      ensures write == at + 4 + Pad(|pkt|) && write + 4 <= data.Length && data[at + 4..at + 4 + |pkt|] == pkt
    {
      ghost var s, before := S(Filling(pkt, at)), sh;
      var write_idx := at + 4 + Pad(|pkt|);
      StoreU32(data, write_idx, 0);
      write := write_idx;
      StoreU32(data, at, |pkt|);
      committed := committed + [pkt];
      assert data[at + 4..at + 4 + |pkt|] == pkt;
      sh := CommitOne(s, before, pkt, at, S(Idle));
    }

    /** The record of `pkt` is at `at`, and the next one will be behind it. */
    ghost predicate Placed(pkt: Packet, at: nat)
      reads this`write, data
    {
      var ok := write == at + Total(pkt) - 4 && write + 4 <= data.Length && data[at + 4..at + 4 + |pkt|] == pkt;
      ok
    }

    method Fill(pkt: Packet, at: nat)
      requires Inv(S(Filling(pkt, at)), sh)
      modifies data, this`write, this`committed, this`sh
      ensures Valid() && Contents() == old(Contents()) + [pkt] && Placed(pkt, at)
    {
      CopyData(pkt, at);
      Commit(pkt, at);
    }

    /** Wifi_TWL_RxAddPacketToQueue / Wifi_RxArm9QueueAdd: the packet is queued behind the write index if it
        fits there, at the start of the buffer if it fits there, and refused otherwise.  A drained ring takes
        every packet that needs less than half of the buffer. */
    method AddPacket(pkt: Packet) returns (ret: int)
      requires Valid() && Honest(data.Length, read, write, pkt)
      modifies data, this`sh, this`write, this`committed
      ensures Valid()
      ensures ret == -1 <==>
        !RoomBehind(data.Length, old(read), old(write), Total(pkt)) && !RoomAtStart(old(read), old(write), Total(pkt))
      ensures ret != -1 ==>
        && ret == 0 && Contents() == old(Contents()) + [pkt]
        && Placed(pkt, if RoomBehind(data.Length, old(read), old(write), Total(pkt)) then old(write) else 0)
      ensures ret == -1 ==> Contents() == old(Contents())
      ensures old(Contents()) == [] ==>
        && (ret == 0 <==> Total(pkt) < data.Length - old(write) || Total(pkt) < read)
        && (2 * Total(pkt) < data.Length ==> ret == 0)
    {
      ChoiceIsExact(data.Length, read, write, pkt);
      if Contents() == [] { DrainedAccepts(S(Idle), sh, pkt); }
      var at := Reserve(pkt);
      if at == -1 { return -1; }
      Fill(pkt, at);
      ret := 0;
    }

    /** Where the next record starts and its size, 0 when there is none: past the wrap marker if need be. */
    method Peek() returns (at: nat, size: nat)
      requires Valid()
      ensures size == 0 <==> Contents() == [] || Contents()[0] == []
      ensures size != 0 ==>
        && Current(sh) != [] && Current(sh)[0] == Contents()[0] && size == |Contents()[0]|
        && at == (if sh.Wrapped? && sh.first == [] then 0 else read)
    {
      LookFacts(data[..], read, write, sh);
      at := read;
      size := LoadU32(data, at);
      if size != 0 && size == WRAP {
        at := 0;
        size := LoadU32(data, 0);
      }
    }

    /** One record leaves the ring. */
    method TakePacket(at: nat, size: nat) returns (pkt: Packet)
      requires Valid() && size != 0 && Current(sh) != [] && size == |Current(sh)[0]|
      requires at == if sh.Wrapped? && sh.first == [] then 0 else read
      modifies this`read, this`delivered, this`sh
      ensures Valid() && old(Contents()) == [pkt] + Contents() && delivered == old(delivered) + [pkt]
    {
      ghost var s, before := S(Idle), sh;
      HeadRecord(s.mem, read, write, sh, at);
      pkt := data[at + 4..at + 4 + size]; // what the packet handler is given
      read := at + 4 + Pad(size);
      delivered := delivered + [pkt];
      sh := TakeOne(s, before, at, size, S(Idle));
    }

    /** Wifi_NTR_Update / Wifi_TWL_Update: hands over the packets in order, up to 22 of them; it stops
        early only when the ring is drained or the next packet is empty. */
    method Update() returns (handled: seq<Packet>)
      requires Valid()
      modifies this`read, this`delivered, this`sh
      ensures Valid()
      ensures old(Contents()) == handled + Contents() && delivered == old(delivered) + handled
      ensures |handled| <= 22 && (|handled| == 22 || Contents() == [] || Contents()[0] == [])
    {
      handled := [];
      var cnt := 0;
      while true
        invariant Valid() && cnt == |handled| <= 21
        invariant old(Contents()) == handled + Contents() && delivered == old(delivered) + handled
        decreases 22 - cnt
      {
        var at, size := Peek();
        if size == 0 { break; }
        var pkt := TakePacket(at, size);
        ghost var before := handled;
        handled := handled + [pkt];
        MoveHead(before, pkt, Contents());
        MoveTail(old(delivered), before, pkt);
        if cnt > 20 { break; }
        cnt := cnt + 1;
      }
    }
  }
}
