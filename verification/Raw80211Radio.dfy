/** The raw 802.11 packet radio object: Send, the receive callback and DrainInbound, each run without interruption.
    RadioRing treats the same accesses to the ring under every interleaving. */
module Raw80211Radio {
  import opened Bytes
  import opened Modular
  import opened Wrappers
  import opened RadioFrame
  import opened RadioRing
  import opened RadioTimestamp

  datatype SendStatus = NotStarted | InvalidAddress | PayloadTooLarge | NoMemory | NativeFailure | Accepted

  /** What `esp_wifi_80211_tx` reports. */
  datatype TransmitResult = TransmitOk | TransmitNoMemory | TransmitFailed

  class Raw80211Radio {
    const receiveQueue: array<Slot>
    var localAddress: Mac
    var started: bool
    var writeIndex: nat
    var readIndex: nat
    var receiverAttached: bool
    var signalAttached: bool
    /** Packets given to the attached receiver, work signals raised and frames given to the driver, in order. */
    var handed: seq<Packet>
    var signals: nat
    var transmitted: seq<seq<byte>>

    ghost predicate Valid()
      reads this, receiveQueue
    {
      QueueMemory(receiveQueue[..]) && writeIndex < receiveQueue.Length && readIndex < receiveQueue.Length
    }

    ghost function Queued(): seq<Packet>
      requires Valid()
      reads this, receiveQueue
    {
      Pending(receiveQueue[..], writeIndex, readIndex)
    }

    constructor (depth: nat, empty: Slot, address: Mac)
      requires 2 <= depth <= 255 && SlotShape(empty)
      ensures Valid() && fresh(receiveQueue) && Queued() == [] && started
      ensures localAddress == address && receiveQueue.Length == depth
    {
      receiveQueue := new Slot[depth](_ => empty);
      localAddress := address;
      started, writeIndex, readIndex := true, 0, 0;
      receiverAttached, signalAttached, handed, signals, transmitted := false, false, [], 0, [];
    }

    /** Builds the frame in place, field by field, and hands exactly that frame to the driver. */
    method Send(destination: seq<byte>, destinationIsValid: bool, payload: array?<byte>, payloadSize: nat,
                driver: TransmitResult)
      returns (status: SendStatus)
      requires payload != null ==> payloadSize <= payload.Length
      modifies this`transmitted
      ensures status == NotStarted <==> !started
      ensures status == InvalidAddress <==> started && (!destinationIsValid || |destination| != MAC_BYTES)
      ensures status == PayloadTooLarge <==>
              started && destinationIsValid && |destination| == MAC_BYTES &&
              ((payload == null && payloadSize != 0) || payloadSize > MAXIMUM_PAYLOAD_BYTES)
      ensures status in {NotStarted, InvalidAddress, PayloadTooLarge} ==> transmitted == old(transmitted)
      ensures status !in {NotStarted, InvalidAddress, PayloadTooLarge} ==>
                && status == (match driver case TransmitOk => Accepted case TransmitNoMemory => NoMemory
                              case TransmitFailed => NativeFailure)
                && transmitted == old(transmitted) +
                   [Built(Received(localAddress, destination, if payload == null then [] else payload[..payloadSize]))]
    {
      if !started { return NotStarted; }
      if !destinationIsValid || |destination| != MAC_BYTES { return InvalidAddress; }
      if (payload == null && payloadSize != 0) || payloadSize > MAXIMUM_PAYLOAD_BYTES { return PayloadTooLarge; }

      var bytes: seq<byte> := if payload == null then [] else payload[..payloadSize];
      var frame := BuildFrame(localAddress, destination, bytes);
      transmitted := transmitted + [frame[..PREFIX_BYTES + payloadSize]];
      match driver
      case TransmitOk => return Accepted;
      case TransmitNoMemory => return NoMemory;
      case TransmitFailed => return NativeFailure;
    }

    /** The packet the callback queues for a frame, if the frame is one for this node. */
    ghost function Arrival(frame: seq<byte>, rssi: int, timestamp: uint32, now: uint64): Option<Packet>
      reads this
    {
      match Parsed(localAddress, frame)
      case None => None
      case Some(r) =>
        Some(Packet(r.source, r.destination, rssi,
                    Recovered(now / MICROSECONDS_TO_NANOSECONDS, timestamp) * MICROSECONDS_TO_NANOSECONDS % TWO_64,
                    r.payload))
    }

    /** It is the packet that the frame carries for this node, with the signal strength of the frame and the time of its
        reception in nanoseconds wherever that can be recovered. */
    lemma ArrivalCarried(frame: seq<byte>, rssi: int, timestamp: uint32, now: uint64, p: Packet)
      ensures var carried := Received(p.source, p.destination, p.payload);
              Arrival(frame, rssi, timestamp, now) == Some(p) ==>
                && Carries(frame, carried) && p.destination in {localAddress, BROADCAST} && p.rssi == rssi
                && forall t: nat :: Reports(t, timestamp) && t * 1000 < TWO_64 && Recoverable(now / 1000, t) ==>
                     p.timestamp == t * 1000
      ensures Arrival(frame, rssi, timestamp, now).None? <==>
              forall r :: !(Carries(frame, r) && r.destination in {localAddress, BROADCAST} && |r.payload| <= 270)
    {
      hide Carries, Parsed, Recovered, Reports, Recoverable;
      ParsedIffCarried(localAddress, frame, Received(p.source, p.destination, p.payload));
      forall r ensures Parsed(localAddress, frame) == Some(r) <==>
                       Carries(frame, r) && r.destination in {localAddress, BROADCAST} && |r.payload| <= 270
      {
        ParsedIffCarried(localAddress, frame, r);
      }
      forall t: nat | Reports(t, timestamp) && t * 1000 < TWO_64 && Recoverable(now / 1000, t)
        ensures Recovered(now / 1000, timestamp) * 1000 % TWO_64 == t * 1000
      {
        ReportedRecovered(now / 1000, t, timestamp);
      }
    }

    method PromiscuousReceive(frame: seq<byte>, isData: bool, rssi: int, timestamp: uint32, now: uint64)
      requires Valid()
      modifies this`writeIndex, this`signals, receiveQueue
      ensures Valid()
      ensures !started || !isData || Arrival(frame, rssi, timestamp, now).None? ||
              |old(Queued())| == receiveQueue.Length - 1 ==>
                Queued() == old(Queued()) && signals == old(signals)
      ensures started && isData && Arrival(frame, rssi, timestamp, now).Some? &&
              |old(Queued())| != receiveQueue.Length - 1 ==>
                && Queued() == old(Queued()) + [Arrival(frame, rssi, timestamp, now).value]
                && signals == old(signals) + if signalAttached then 1 else 0
    {
      hide PacketsFrom;
      if !started || !isData { return; }
      if !IsOurFrame(frame) { return; }
      var destinationMac := frame[4..10];
      var broadcast := IsBroadcastMac(destinationMac);
      assert destinationMac[..MAC_BYTES] == destinationMac;
      if destinationMac != localAddress && !broadcast { return; }
      var lengthOffset := DOT11_HEADER_BYTES + |LLC_SNAP|;
      var payloadLength := frame[lengthOffset] as int + frame[lengthOffset + 1] as int * 0x100;
      if payloadLength > MAXIMUM_PAYLOAD_BYTES || PREFIX_BYTES + payloadLength > |frame| { return; }

      var write := writeIndex;
      var next := NextIndex(write, receiveQueue.Length);
      NextIsFollowing(write, receiveQueue.Length);
      if next == readIndex { return; }

      ghost var before := receiveQueue[..];
      var nanoseconds := RecoverReceiveTimestampNanoseconds(now, timestamp);
      var tail := receiveQueue[write].payload[payloadLength..];
      receiveQueue[write] := Slot(frame[10..16], frame[4..10], payloadLength, rssi, nanoseconds,
                                  frame[PREFIX_BYTES..PREFIX_BYTES + payloadLength] + tail);
      writeIndex := next;
      AppendSlot(before, receiveQueue[write], write, readIndex);
      assert receiveQueue[..] == before[write := receiveQueue[write]];
      if signalAttached { signals := signals + 1; }
    }

    /** Hands every queued packet to the receiver, in order, and leaves the ring empty. */
    method DrainInbound()
      requires Valid()
      modifies this`readIndex, this`handed
      ensures Valid() && Queued() == []
      ensures handed == if receiverAttached then old(handed) + old(Queued()) else old(handed)
    {
      hide PacketsFrom, Pending;
      while true
        modifies this`readIndex, this`handed
        invariant Valid()
        invariant if receiverAttached then handed + Queued() == old(handed) + old(Queued()) else handed == old(handed)
        decreases |Queued()|
      {
        var read := readIndex;
        if read == writeIndex {
          NothingPending(receiveQueue[..], read);
          return;
        }
        TakeFirst(receiveQueue[..], writeIndex, read);
        var queued := receiveQueue[read];
        var view := Packet(queued.source, queued.destination, queued.rssi, queued.timestamp,
                           queued.payload[..queued.length]);
        if receiverAttached { handed := handed + [view]; }
        readIndex := NextIndex(read, receiveQueue.Length);
      }
    }
  }

  lemma NothingPending(slots: seq<Slot>, index: nat)
    requires QueueMemory(slots) && index < |slots|
    ensures Pending(slots, index, index) == []
  {
  }

  lemma TakeFirst(slots: seq<Slot>, write: nat, read: nat)
    requires QueueMemory(slots) && write < |slots| && read < |slots| && write != read
    ensures NextIndex(read, |slots|) < |slots|
    ensures Pending(slots, write, read) == [View(slots[read])] + Pending(slots, write, NextIndex(read, |slots|))
  {
    NextIsFollowing(read, |slots|);
  }

  method MemCopy(destination: array<byte>, offset: nat, source: seq<byte>)
    requires offset + |source| <= destination.Length
    modifies destination
    ensures destination[..offset + |source|] == old(destination[..offset]) + source
    ensures forall k :: offset + |source| <= k < destination.Length ==> destination[k] == old(destination[k])
  {
    for i := 0 to |source|
      invariant destination[..offset + i] == old(destination[..offset]) + source[..i]
      invariant forall k :: offset + i <= k < destination.Length ==> destination[k] == old(destination[k])
    {
      destination[offset + i] := source[i];
    }
  }

  method BuildMacHeader(frame: array<byte>, source: Mac, destination: Mac)
    requires DOT11_HEADER_BYTES <= frame.Length
    requires forall i :: 0 <= i < DOT11_HEADER_BYTES ==> frame[i] == 0
    modifies frame
    ensures frame[..DOT11_HEADER_BYTES] == [0x08, 0x00, 0, 0] + destination + source + RADIO_BSSID + [0, 0]
  {
    frame[0] := 0x08;
    frame[1] := 0x00;
    assert frame[..4] == [0x08, 0x00, 0, 0];
    MemCopy(frame, 4, destination);
    MemCopy(frame, 10, source);
    MemCopy(frame, 16, RADIO_BSSID);
    assert frame[..24] == frame[..22] + frame[22..24];
  }

  /** Fills a zeroed frame buffer field by field. */
  method BuildFrame(source: Mac, destination: Mac, payload: seq<byte>) returns (frame: array<byte>)
    requires |payload| <= MAXIMUM_PAYLOAD_BYTES
    ensures fresh(frame) && frame.Length == PREFIX_BYTES + MAXIMUM_PAYLOAD_BYTES
    ensures frame[..PREFIX_BYTES + |payload|] == Built(Received(source, destination, payload))
  {
    frame := new byte[PREFIX_BYTES + MAXIMUM_PAYLOAD_BYTES](_ => 0);
    BuildMacHeader(frame, source, destination);
    ghost var header := frame[..DOT11_HEADER_BYTES];
    MemCopy(frame, DOT11_HEADER_BYTES, LLC_SNAP);
    assert frame[..32] == header + LLC_SNAP;
    var lengthOffset := DOT11_HEADER_BYTES + |LLC_SNAP|;
    frame[lengthOffset] := |payload| % 0x100;
    frame[lengthOffset + 1] := |payload| / 0x100 % 0x100;
    ghost var prefix := header + LLC_SNAP + [|payload| % 0x100, |payload| / 0x100];
    assert frame[..PREFIX_BYTES] == prefix;
    if |payload| != 0 { MemCopy(frame, PREFIX_BYTES, payload); }
    assert frame[..PREFIX_BYTES + |payload|] == prefix + payload;
  }

  lemma {:induction false} PacketsUnaffected(slots: seq<Slot>, slot: Slot, write: nat, read: nat, count: nat)
    requires QueueMemory(slots) && SlotShape(slot) && write < |slots| && read < |slots|
    requires count <= QueuedCount(write, read, |slots|)
    ensures PacketsFrom(slots[write := slot], read, count) == PacketsFrom(slots, read, count)
    decreases count
  {
    if count != 0 {
      PacketsUnaffected(slots, slot, write, Following(read, |slots|), count - 1);
    }
  }

  lemma {:induction false} PacketsSnoc(slots: seq<Slot>, write: nat, read: nat)
    requires QueueMemory(slots) && write < |slots| && read < |slots|
    ensures PacketsFrom(slots, read, QueuedCount(write, read, |slots|) + 1) ==
            Pending(slots, write, read) + [View(slots[write])]
    decreases QueuedCount(write, read, |slots|)
  {
    if write != read {
      PacketsSnoc(slots, write, Following(read, |slots|));
    } else {
      assert PacketsFrom(slots, Following(read, |slots|), 0) == [];
    }
  }

  /** Filling the slot at the write index and advancing that index queues one packet behind the others. */
  lemma AppendSlot(slots: seq<Slot>, slot: Slot, write: nat, read: nat)
    requires QueueMemory(slots) && SlotShape(slot) && write < |slots| && read < |slots|
    requires Following(write, |slots|) != read
    ensures Pending(slots[write := slot], Following(write, |slots|), read) == Pending(slots, write, read) + [View(slot)]
  {
    PacketsSnoc(slots[write := slot], write, read);
    PacketsUnaffected(slots, slot, write, read, QueuedCount(write, read, |slots|));
  }
}
