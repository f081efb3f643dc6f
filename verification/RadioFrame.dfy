/** The raw IEEE 802.11 data frame that carries one ESPressio radio packet. */
module RadioFrame {
  import opened Bytes
  import opened Wrappers

  const MAC_BYTES := 6
  const DOT11_HEADER_BYTES := 24
  const ENCAPSULATION_BYTES := 10
  const PREFIX_BYTES := DOT11_HEADER_BYTES + ENCAPSULATION_BYTES
  const MAXIMUM_PAYLOAD_BYTES := 270
  const LLC_SNAP: seq<byte> := [0xAA, 0xAA, 0x03, 0x00, 0x00, 0x00, 0x88, 0xB5]
  const RADIO_BSSID: seq<byte> := [0x02, 0x45, 0x53, 0x50, 0x52, 0x01]
  const BROADCAST: seq<byte> := [0xFF, 0xFF, 0xFF, 0xFF, 0xFF, 0xFF]

  type Mac = m: seq<byte> | |m| == MAC_BYTES witness [0, 0, 0, 0, 0, 0]

  datatype Received = Received(source: Mac, destination: Mac, payload: seq<byte>)

  predicate AddressedTo(local: Mac, destination: Mac) { destination == local || destination == BROADCAST }

  // ---- Frame layout (section 9.3.2 of IEEE 802.11-2020, SNAP of RFC 1042) ----

  /** The fields of a frame that identify and delimit the packet inside it. Duration, sequence control, the flag byte
      of frame control, the protocol version bits and everything after the payload are free. */
  ghost predicate Carries(frame: seq<byte>, packet: Received) {
    && PREFIX_BYTES + |packet.payload| <= |frame|
    && frame[0] / 4 == 2
    && frame[4..10] == packet.destination
    && frame[10..16] == packet.source
    && frame[16..22] == RADIO_BSSID
    && frame[24..32] == LLC_SNAP
    && frame[32] as int + frame[33] as int * 0x100 == |packet.payload|
    && frame[PREFIX_BYTES..PREFIX_BYTES + |packet.payload|] == packet.payload
  }

  /** The frame that Send hands to the driver. */
  function Built(packet: Received): (frame: seq<byte>)
    requires |packet.payload| <= MAXIMUM_PAYLOAD_BYTES
    ensures |frame| == PREFIX_BYTES + |packet.payload|
  {
    [0x08, 0x00, 0, 0] + packet.destination + packet.source + RADIO_BSSID + [0, 0] + LLC_SNAP +
    [|packet.payload| % 0x100, |packet.payload| / 0x100] + packet.payload
  }

  /** What a receiver may see of a frame handed to the driver: duration (2, 3) and sequence control (22, 23) belong to
      the driver, and the check sequence or padding follows the frame. */
  ghost predicate OnAir(sent: seq<byte>, frame: seq<byte>) {
    && |sent| <= |frame|
    && forall i :: 0 <= i < |sent| && i !in {2, 3, 22, 23} ==> frame[i] == sent[i]
  }

  // ---- Parsing, as the promiscuous callback does it ----

  predicate IsOurFrame(data: seq<byte>)
    ensures IsOurFrame(data) ==> PREFIX_BYTES <= |data|
  {
    && PREFIX_BYTES <= |data|
    && data[0] / 4 == 2  // (frameControl & 0x00FC) == 0x0008
    && data[16..22] == RADIO_BSSID
    && data[24..32] == LLC_SNAP
  }

  method IsBroadcastMac(address: seq<byte>) returns (broadcast: bool)
    requires MAC_BYTES <= |address|
    ensures broadcast <==> address[..MAC_BYTES] == BROADCAST
  {
    for i := 0 to MAC_BYTES
      invariant forall k :: 0 <= k < i ==> address[k] == 0xFF
    {
      if address[i] != 0xFF {
        assert address[..MAC_BYTES][i] != BROADCAST[i];
        return false;
      }
    }
    return true;
  }

  /** The packet a node with address `local` takes from a frame, if any. */
  function Parsed(local: Mac, frame: seq<byte>): Option<Received> {
    if !IsOurFrame(frame) || !AddressedTo(local, frame[4..10]) then None
    else
      var length := frame[32] as int + frame[33] as int * 0x100;
      if length > MAXIMUM_PAYLOAD_BYTES || PREFIX_BYTES + length > |frame| then None
      else Some(Received(frame[10..16], frame[4..10], frame[PREFIX_BYTES..PREFIX_BYTES + length]))
  }

  // ---- Properties ----

  /** Exactly the packets a frame carries for this node, within the payload limit, are taken from it; in particular
      the copied payload lies inside the frame and inside the slot. */
  lemma ParsedIffCarried(local: Mac, frame: seq<byte>, packet: Received)
    ensures Parsed(local, frame) == Some(packet) <==>
            Carries(frame, packet) && AddressedTo(local, packet.destination) &&
            |packet.payload| <= MAXIMUM_PAYLOAD_BYTES
  {
  }

  /** A frame built by Send carries its packet however the driver fills its own fields and whatever follows. */
  lemma BuiltCarries(packet: Received, frame: seq<byte>)
    requires |packet.payload| <= MAXIMUM_PAYLOAD_BYTES
    requires OnAir(Built(packet), frame)
    ensures Carries(frame, packet)
  {
    var sent := Built(packet);
    assert sent[4..10] == packet.destination && sent[10..16] == packet.source;
    assert sent[16..22] == RADIO_BSSID && sent[24..32] == LLC_SNAP;
    assert sent[PREFIX_BYTES..] == packet.payload;
    assert frame[4..10] == sent[4..10] && frame[10..16] == sent[10..16];
    assert frame[16..22] == sent[16..22] && frame[24..32] == sent[24..32];
    assert frame[PREFIX_BYTES..|sent|] == sent[PREFIX_BYTES..];
  }

  /** Send and the callback are inverse: the destination (or any node, for broadcast) recovers source, destination and
      payload, and every other node drops the frame. */
  lemma RoundTrip(packet: Received, frame: seq<byte>, local: Mac)
    requires |packet.payload| <= MAXIMUM_PAYLOAD_BYTES
    requires OnAir(Built(packet), frame)
    ensures Parsed(local, frame) ==
            if packet.destination == local || packet.destination == [0xFF, 0xFF, 0xFF, 0xFF, 0xFF, 0xFF]
            then Some(packet) else None
  {
    BuiltCarries(packet, frame);
    ParsedIffCarried(local, frame, packet);
  }

  /** Conversely, every accepted frame is, up to the free header fields, the frame Send would build for its packet. */
  lemma AcceptedIsBuilt(local: Mac, frame: seq<byte>)
    requires Parsed(local, frame).Some?
    ensures var packet := Parsed(local, frame).value;
            && |packet.payload| <= MAXIMUM_PAYLOAD_BYTES
            && OnAir(Built(packet), frame[0 := 0x08][1 := 0x00])
  {
    var packet := Parsed(local, frame).value;
    var sent := Built(packet);
    var cleared := frame[0 := 0x08][1 := 0x00];
    assert sent[4..10] == packet.destination && sent[10..16] == packet.source;
    assert sent[16..22] == RADIO_BSSID && sent[24..32] == LLC_SNAP;
    assert sent[PREFIX_BYTES..] == packet.payload;
    forall i | 0 <= i < |sent| && i !in {2, 3, 22, 23} ensures cleared[i] == sent[i] {
      if 4 <= i < 10 { assert sent[4..10][i - 4] == frame[4..10][i - 4]; }
      else if 10 <= i < 16 { assert sent[10..16][i - 10] == frame[10..16][i - 10]; }
      else if 16 <= i < 22 { assert sent[16..22][i - 16] == frame[16..22][i - 16]; }
      else if 24 <= i < 32 { assert sent[24..32][i - 24] == frame[24..32][i - 24]; }
      else if PREFIX_BYTES <= i {
        assert sent[PREFIX_BYTES..][i - PREFIX_BYTES] == frame[PREFIX_BYTES..|sent|][i - PREFIX_BYTES];
      }
    }
  }
}
