/** MAC frames and the broker's wire header as bytes (src/net/Frame.h). */
module Frame {
  import opened Types
  import opened Bytes

  const DATA_FRAME: u8 := 1

  datatype MacFrame = MacFrame(
    frameType: u8, seqNumber: u8, dstPanId: u16, dstAddr: u16, srcPanId: u16, srcAddr: u16,
    payload: seq<u8>, lqi: u8, rssi: int)

  const DEFAULT_FRAME: MacFrame :=
    MacFrame(DATA_FRAME, 0, 0xFFFF, INVALID_RLOC16, 0xFFFF, INVALID_RLOC16, [], 0, -100)

  function Serialized(f: MacFrame): seq<u8> {
    [f.frameType, f.seqNumber] + Le(f.dstPanId, 2) + Le(f.dstAddr, 2) + Le(f.srcAddr, 2)
    + [|f.payload| % 0x100] + f.payload
  }

  method Serialize(f: MacFrame) returns (buf: seq<u8>)
    ensures buf == Serialized(f)
  {
    buf := [f.frameType];
    buf := buf + [f.seqNumber];
    buf := PutLe(buf, f.dstPanId, 2);
    buf := PutLe(buf, f.dstAddr, 2);
    buf := PutLe(buf, f.srcAddr, 2);
    buf := buf + [|f.payload| % 0x100];
    buf := buf + f.payload;
  }

  ghost predicate Parsed(data: seq<u8>, f: MacFrame) {
    if |data| < 9 then f == DEFAULT_FRAME
    else
      && f.frameType == data[0] && f.seqNumber == data[1] && f.dstPanId == FromLe(data[2..4])
      && f.dstAddr == FromLe(data[4..6]) && f.srcAddr == FromLe(data[6..8])
      && f.srcPanId == 0xFFFF && f.lqi == 0 && f.rssi == -100
      && f.payload == if |data| - 9 >= data[8] then data[9..][..data[8]] else []
  }

  method Deserialize(data: seq<u8>) returns (f: MacFrame)
    ensures Parsed(data, f)
    ensures |data| >= 9 ==> f.payload == if |data| - 9 < data[8] then [] else data[9..][..data[8]]
    ensures |data| < 9 ==> f.payload == [] && f.dstAddr == 0xFFFE && f.srcAddr == 0xFFFE && f.frameType == 1
  {
    f := DEFAULT_FRAME;
    if |data| < 9 { return; }
    Widths();
    var pan := GetLe(data, 2, 2);
    var dst := GetLe(data, 4, 2);
    var src := GetLe(data, 6, 2);
    f := f.(frameType := data[0], seqNumber := data[1], dstPanId := pan, dstAddr := dst, srcAddr := src);
    var plen: nat := data[8];
    if |data| >= 9 + plen {
      f := f.(payload := data[9..9 + plen]);
    }
  }

  /** Where each field of a frame stands. */
  lemma FrameLayout(f: MacFrame)
    ensures var data := Serialized(f);
      && |data| == 9 + |f.payload| && data[0] == f.frameType && data[1] == f.seqNumber
      && FromLe(data[2..4]) == f.dstPanId && FromLe(data[4..6]) == f.dstAddr && FromLe(data[6..8]) == f.srcAddr
      && data[8] == |f.payload| % 0x100 && data[9..] == f.payload
  {
    var data := Serialized(f);
    Widths();
    LeRoundTrip(f.dstPanId, 2);
    LeRoundTrip(f.dstAddr, 2);
    LeRoundTrip(f.srcAddr, 2);
    assert data[2..4] == Le(f.dstPanId, 2) && data[4..6] == Le(f.dstAddr, 2) && data[6..8] == Le(f.srcAddr, 2);
  }

  /** A frame arrives with its payload exactly when the payload fits the one-byte length; what the
      receiver cannot know, it resets. */
  lemma FrameRoundTrip(f: MacFrame, got: MacFrame)
    requires Parsed(Serialized(f), got)
    ensures got.payload == f.payload[..|f.payload| % 0x100]
    ensures got == f.(srcPanId := 0xFFFF, lqi := 0, rssi := -100) <==> |f.payload| < 0x100
  {
    var data := Serialized(f);
    Widths();
    LeRoundTrip(f.dstPanId, 2);
    LeRoundTrip(f.dstAddr, 2);
    LeRoundTrip(f.srcAddr, 2);
    assert data[2..4] == Le(f.dstPanId, 2);
    assert data[4..6] == Le(f.dstAddr, 2);
    assert data[6..8] == Le(f.srcAddr, 2);
    assert data[9..] == f.payload;
    if |f.payload| < 0x100 {
      assert f.payload[..|f.payload|] == f.payload;
    }
  }

  datatype WireHeader = WireHeader(magic: u32, srcNode: u16, dstNode: u16, payloadLen: u16, channel: u8, flags: u8)

  function HeaderBytes(h: WireHeader): (b: seq<u8>)
    ensures |b| == 12
  {
    Le(h.magic, 4) + Le(h.srcNode, 2) + Le(h.dstNode, 2) + Le(h.payloadLen, 2) + [h.channel, h.flags]
  }

  function HeaderOf(b: seq<u8>): WireHeader
    requires |b| >= 12
  {
    Widths();
    FromLeBound(b[0..4]); FromLeBound(b[4..6]); FromLeBound(b[6..8]); FromLeBound(b[8..10]);
    WireHeader(FromLe(b[0..4]), FromLe(b[4..6]), FromLe(b[6..8]), FromLe(b[8..10]), b[10], b[11])
  }

  /** A header survives the wire, whatever payload follows it. */
  lemma WireHeaderRoundTrip(h: WireHeader, rest: seq<u8>)
    ensures HeaderOf(HeaderBytes(h) + rest) == h
    ensures var b := HeaderBytes(h) + rest;
      && FromLe(b[0..4]) == h.magic && FromLe(b[4..6]) == h.srcNode && FromLe(b[6..8]) == h.dstNode
      && FromLe(b[8..10]) == h.payloadLen && b[10] == h.channel && b[11] == h.flags
  {
    var b := HeaderBytes(h) + rest;
    Widths();
    LeRoundTrip(h.magic, 4);
    LeRoundTrip(h.srcNode, 2);
    LeRoundTrip(h.dstNode, 2);
    LeRoundTrip(h.payloadLen, 2);
    assert b[0..4] == Le(h.magic, 4);
    assert b[4..6] == Le(h.srcNode, 2);
    assert b[6..8] == Le(h.dstNode, 2);
    assert b[8..10] == Le(h.payloadLen, 2);
  }
}
