/** APS frame headers (zb_aps.h, aps_main.c): the frame control octet, the header written for a data
    request, the acknowledgement built from a received header, and the parser of both. */
module ApsFrames {
  import opened Prelude
  import opened BufferWindows

  // ---------- The frame control octet ----------

  const FRAME_DATA := 0
  const FRAME_COMMAND := 1
  const FRAME_ACK := 2

  const UNICAST := 0
  const BROADCAST := 2
  const GROUP := 3

  function FrameType(fc: U8): nat { fc % 4 }
  function DeliveryMode(fc: U8): nat { fc / 4 % 4 }
  function AckFormat(fc: U8): nat { fc / 16 % 2 }
  function Security(fc: U8): nat { fc / 32 % 2 }
  function AckRequest(fc: U8): nat { fc / 64 % 2 }
  function ExtHeader(fc: U8): nat { fc / 128 }

  /** The octet with the given fields. */
  function Pack(frameType: nat, delivery: nat, format: nat, security: nat, request: nat, ext: nat): U8
    requires frameType < 4 && delivery < 4 && format < 2 && security < 2 && request < 2 && ext < 2
  {
    frameType + 4 * delivery + 16 * format + 32 * security + 64 * request + 128 * ext
  }

  /** An octet is the same thing as its six fields. */
  lemma PackFields(t: nat, m: nat, f: nat, s: nat, r: nat, e: nat)
    requires t < 4 && m < 4 && f < 2 && s < 2 && r < 2 && e < 2
    ensures var fc := Pack(t, m, f, s, r, e);
      && FrameType(fc) == t && DeliveryMode(fc) == m && AckFormat(fc) == f
      && Security(fc) == s && AckRequest(fc) == r && ExtHeader(fc) == e
  {
    PackLowFields(t, m, f + 2 * s + 4 * r + 8 * e);
    PackFlag(16, t + 4 * m, f, s + 2 * r + 4 * e);
    PackFlag(32, t + 4 * m + 16 * f, s, r + 2 * e);
    PackFlag(64, t + 4 * m + 16 * f + 32 * s, r, e);
    LowPart(128, t + 4 * m + 16 * f + 32 * s + 64 * r, e);
  }

  /** The type and the delivery mode below the flags. */
  lemma PackLowFields(t: nat, m: nat, flags: nat)
    requires t < 4 && m < 4
    ensures (t + 4 * m + 16 * flags) % 4 == t && (t + 4 * m + 16 * flags) / 4 % 4 == m
  {
    LowPart(4, t, m + 4 * flags);
    LowPart(4, m, flags);
  }

  /** One flag, with the fields below it and those above. */
  lemma PackFlag(weight: nat, low: nat, flag: nat, high: nat)
    requires weight in {16, 32, 64} && low < weight && flag < 2
    ensures (low + weight * (flag + 2 * high)) / weight % 2 == flag
  {
    LowPart(weight, low, flag + 2 * high);
    LowPart(2, flag, high);
  }

  /** Dividing by the weight of the fields above the low ones. */
  lemma LowPart(weight: nat, low: nat, high: nat)
    requires weight in {2, 4, 16, 32, 64, 128} && low < weight
    ensures (low + weight * high) / weight == high && (low + weight * high) % weight == low
  {
  }

  lemma FieldsPack(fc: U8)
    ensures fc == Pack(FrameType(fc), DeliveryMode(fc), AckFormat(fc), Security(fc), AckRequest(fc), ExtHeader(fc))
  {
    assert fc / 16 == fc / 4 / 4;
    assert fc / 32 == fc / 16 / 2;
    assert fc / 64 == fc / 32 / 2;
    assert fc / 128 == fc / 64 / 2;
  }

  /** Bitwise or of two 2-bit values. */
  function Or2(a: nat, b: nat): (r: nat)
    requires a < 4 && b < 4
    ensures r < 4 && (a == 0 ==> r == b) && (b == 0 ==> r == a) && (a < 2 && b < 2 ==> r < 2)
  {
    (if a % 2 == 1 || b % 2 == 1 then 1 else 0) + (if a / 2 == 1 || b / 2 == 1 then 2 else 0)
  }

  /** The setters or a value into their field; they can set bits but never clear them. */
  function SetFrameType(fc: U8, t: nat): int
    requires t < 4
  {
    fc + (if t % 2 == 1 && fc % 2 == 0 then 1 else 0) + (if t >= 2 && fc / 2 % 2 == 0 then 2 else 0)
  }

  function SetDeliveryMode(fc: U8, m: nat): int
    requires m < 4
  {
    fc + (if m % 2 == 1 && fc / 4 % 2 == 0 then 4 else 0) + (if m >= 2 && fc / 8 % 2 == 0 then 8 else 0)
  }

  function SetAckFormat(fc: U8, f: nat): int
    requires f < 2
  {
    if f == 1 && AckFormat(fc) == 0 then fc + 16 else fc
  }

  function SetAckRequest(fc: U8, f: nat): int
    requires f < 2
  {
    if f == 1 && AckRequest(fc) == 0 then fc + 64 else fc
  }

  /** Each setter changes its own field only, and the result is again an octet. */
  lemma SettersAreIndependent(fc: U8, t: nat, m: nat)
    requires t < 4 && m < 4
    ensures var (t0, m0, f0, s, r, e) := (FrameType(fc), DeliveryMode(fc), AckFormat(fc), Security(fc), AckRequest(fc), ExtHeader(fc));
      && SetFrameType(fc, t) == Pack(Or2(t0, t), m0, f0, s, r, e)
      && SetDeliveryMode(fc, m) == Pack(t0, Or2(m0, m), f0, s, r, e)
  {
    FieldsPack(fc);
    FieldBits(fc);
    OrByBits(FrameType(fc), t);
    OrByBits(DeliveryMode(fc), m);
  }

  lemma FlagSettersAreIndependent(fc: U8, f: nat)
    requires f < 2
    ensures var (t, m, f0, s, r, e) := (FrameType(fc), DeliveryMode(fc), AckFormat(fc), Security(fc), AckRequest(fc), ExtHeader(fc));
      && SetAckFormat(fc, f) == Pack(t, m, Or2(f0, f), s, r, e)
      && SetAckRequest(fc, f) == Pack(t, m, f0, s, Or2(r, f), e)
  {
    FieldsPack(fc);
    OrByBits(AckFormat(fc), f);
    OrByBits(AckRequest(fc), f);
  }

  lemma FieldBits(fc: U8)
    ensures fc % 2 == FrameType(fc) % 2 && fc / 2 % 2 == FrameType(fc) / 2
    ensures fc / 4 % 2 == DeliveryMode(fc) % 2 && fc / 8 % 2 == DeliveryMode(fc) / 2
  {
    HalfOfQuarter(fc);
    HalfOfQuarter(fc / 4);
    assert fc / 8 == fc / 4 / 2;
  }

  lemma HalfOfQuarter(x: nat)
    ensures x % 2 == x % 4 % 2 && x / 2 % 2 == x % 4 / 2
  {
    var q, r := x / 4, x % 4;
    assert x == 4 * q + r;
    assert x / 2 == 2 * q + r / 2;
  }

  lemma OrByBits(a: nat, b: nat)
    requires a < 4 && b < 4
    ensures Or2(a, b) == a + (if b % 2 == 1 && a % 2 == 0 then 1 else 0) + (if b >= 2 && a / 2 == 0 then 2 else 0)
  {
  }

  /** ZB_APS_HDR_SIZE. */
  function HeaderSize(fc: U8): nat {
    2 + if FrameType(fc) == FRAME_COMMAND then 0
        else 1 + (if DeliveryMode(fc) == GROUP then 1 else 0) + 2 + 2 + 1
  }

  // ---------- Requests and headers ----------

  const MODE_BOUND: U8 := 0
  const MODE_GROUP: U8 := 1
  const MODE_SHORT: U8 := 2
  const MODE_LONG: U8 := 3

  /** ACK_TX, bit 2 of the transmission options. */
  function WantsAck(options: U8): bool {
    options / 4 % 2 == 1
  }

  /** zb_apsde_data_req_t once the destination is a short address: taken from the request, from the
      binding table or from the address table. For group mode it is the group. */
  datatype DataReq = DataReq(
    mode: U8, dst: U16, profile: U16, cluster: U16, dstEndpoint: U8, srcEndpoint: U8, options: U8)

  predicate IsBroadcast(a: U16) {
    a == 0xFFFF || a == 0xFFFD || a == 0xFFFC || a == 0xFFFB
  }

  function Delivery(r: DataReq): (m: nat)
    ensures m < 4
  {
    if r.mode == MODE_GROUP then GROUP
    else if r.mode == MODE_SHORT && IsBroadcast(r.dst) then BROADCAST
    else UNICAST
  }

  /** The frame control zb_apsde_data_request builds; group mode clears the acknowledgement option. */
  function RequestFc(r: DataReq): U8 {
    var fc := SetAckFormat(SetDeliveryMode(0, Delivery(r)), 0);
    if WantsAck(r.options) && r.mode != MODE_GROUP then SetAckRequest(fc, 1) else fc
  }

  /** zb_aps_hdr_t. */
  datatype Header = Header(
    fc: U8, srcAddr: U16, dstAddr: U16, group: U16, dstEndpoint: U8, srcEndpoint: U8,
    cluster: U16, profile: U16, counter: U8)

  /** A 16-bit value in little-endian order. */
  function Le16(v: U16): (s: seq<U8>)
    ensures |s| == 2
  {
    [v % 256, v / 256]
  }

  function FromLe16(s: seq<U8>, i: nat): U16
    requires i + 2 <= |s|
  {
    var low: int, high: int := s[i], s[i + 1];
    low + 256 * high
  }

  lemma Le16RoundTrip(v: U16, s: seq<U8>, i: nat)
    requires i + 2 <= |s| && s[i] == Le16(v)[0] && s[i + 1] == Le16(v)[1]
    ensures FromLe16(s, i) == v
  {
  }

  /** The bytes of the header of a data request. */
  function DataHeader(fc: U8, r: DataReq, counter: U8): seq<U8> {
    [fc]
    + (if DeliveryMode(fc) == GROUP then Le16(r.dst) else [r.dstEndpoint])
    + Le16(r.cluster) + Le16(r.profile) + [r.srcEndpoint, counter]
  }

  /** The bytes aps_data_hdr_fill_datareq makes room for. */
  function DataHeaderSpace(fc: U8): nat {
    if DeliveryMode(fc) == GROUP then 9 else 8
  }

  /** What zb_aps_hdr_parse needs to find in the packet. */
  function ParsedSize(fc: U8): nat {
    if AckFormat(fc) == 1 then 2 else if DeliveryMode(fc) == GROUP then 9 else 8
  }

  /** zb_aps_hdr_parse after the network header has given the addresses. `junk` is what the caller's
      uninitialised structure held: fields a frame does not carry keep it. */
  function Parse(junk: Header, s: seq<U8>, src: U16, dst: U16): Header
    requires |s| > 0 && |s| >= ParsedSize(s[0])
  {
    var h := junk.(fc := s[0], srcAddr := src, dstAddr := dst, srcEndpoint := 0xFF);
    if AckFormat(s[0]) == 1 then h.(counter := s[1])
    else
      var isGroup := DeliveryMode(s[0]) == GROUP;
      var g := if isGroup then h.(group := FromLe16(s, 1)) else h.(dstEndpoint := s[1]);
      var i := if isGroup then 3 else 2;
      g.(cluster := FromLe16(s, i), profile := FromLe16(s, i + 2),
         srcEndpoint := s[i + 4], counter := s[i + 5])
  }

  /** The acknowledgement frame aps_ack_send_handle builds from a received header. */
  function AckFrame(h: Header): seq<U8> {
    var fc := SetFrameType(0, FRAME_ACK);
    if FrameType(h.fc) != FRAME_COMMAND then
      [SetAckFormat(fc, 0), h.srcEndpoint] + Le16(h.cluster) + Le16(h.profile) + [h.dstEndpoint, h.counter]
    else [SetAckFormat(fc, 1), h.counter]
  }

  // ---------- Round trips ----------

  lemma RequestFcFields(r: DataReq)
    ensures var fc := RequestFc(r);
      && FrameType(fc) == FRAME_DATA && DeliveryMode(fc) == Delivery(r) && AckFormat(fc) == 0
      && Security(fc) == 0 && ExtHeader(fc) == 0
      && (AckRequest(fc) == 1 <==> WantsAck(r.options) && r.mode != MODE_GROUP)
  {
    RequestFcValue(r);
  }

  lemma RequestFcValue(r: DataReq)
    ensures RequestFc(r) == 4 * Delivery(r) + if WantsAck(r.options) && r.mode != MODE_GROUP then 64 else 0
  {
    var m := Delivery(r);
    assert Or2(0, 0) == 0 && Or2(0, 1) == 1 && Or2(0, m) == m;
    assert SetDeliveryMode(0, m) == 4 * m;
    assert SetAckFormat(4 * m, 0) == 4 * m;
    assert SetAckRequest(4 * m, 1) == 4 * m + 64;
  }

  /** Its value in numbers: delivery mode 3 for a group, 2 for one of the four broadcast addresses, 0 else,
      in bits 2 and 3; the acknowledgement request in bit 6. */
  lemma RequestFcOctet(r: DataReq)
    ensures RequestFc(r) ==
      (if r.mode == 1 then 12
       else if r.mode == 2 && r.dst in {0xFFFB, 0xFFFC, 0xFFFD, 0xFFFF} then 8
       else 0)
      + (if r.options / 4 % 2 == 1 && r.mode != 1 then 64 else 0)
  {
    RequestFcValue(r);
  }

  /** The octets of a data header, one by one. */
  lemma DataHeaderOctets(r: DataReq, counter: U8)
    ensures var fc := RequestFc(r);
      DataHeader(fc, r, counter) ==
        if r.mode == 1 then
          [fc, r.dst % 256, r.dst / 256, r.cluster % 256, r.cluster / 256, r.profile % 256, r.profile / 256, r.srcEndpoint, counter]
        else
          [fc, r.dstEndpoint, r.cluster % 256, r.cluster / 256, r.profile % 256, r.profile / 256, r.srcEndpoint, counter]
  {
    RequestFcFields(r);
  }

  /** Which octets the parser takes for which field: in the short format only the second, for the counter;
      else a group of two octets or an endpoint of one, and behind them the rest in fixed order. */
  lemma ParsedOctets(junk: Header, s: seq<U8>, src: U16, dst: U16)
    requires |s| > 0 && |s| >= if s[0] / 16 % 2 == 1 then 2 else if s[0] / 4 % 4 == 3 then 9 else 8
    ensures var h := Parse(junk, s, src, dst);
      && h.fc == s[0] && h.srcAddr == src && h.dstAddr == dst
      && (if s[0] / 16 % 2 == 1 then h.counter == s[1] && h.srcEndpoint == 255
          else
            var i := if s[0] / 4 % 4 == 3 then 3 else 2;
            && (if i == 3 then h.group % 256 == s[1] && h.group / 256 == s[2] else h.dstEndpoint == s[1])
            && h.cluster % 256 == s[i] && h.cluster / 256 == s[i + 1]
            && h.profile % 256 == s[i + 2] && h.profile / 256 == s[i + 3]
            && h.srcEndpoint == s[i + 4] && h.counter == s[i + 5])
      && (s[0] / 16 % 2 == 1 ==> h.cluster == junk.cluster && h.profile == junk.profile)
      && (s[0] / 16 % 2 == 1 || s[0] / 4 % 4 != 3 ==> h.group == junk.group)
      && (s[0] / 16 % 2 == 1 || s[0] / 4 % 4 == 3 ==> h.dstEndpoint == junk.dstEndpoint)
  {
  }

  /** Parsing the header written for a request, whatever payload follows it, gives back its cluster,
      profile, source endpoint and counter, and its endpoint or group, whichever the frame carries. */
  lemma DataRoundTrip(r: DataReq, counter: U8, payload: seq<U8>, junk: Header, src: U16, dst: U16)
    ensures var s := DataHeader(RequestFc(r), r, counter) + payload;
      && |s| >= ParsedSize(s[0])
      && var h := Parse(junk, s, src, dst);
      && h.fc == RequestFc(r) && h.srcAddr == src && h.dstAddr == dst
      && h.cluster == r.cluster && h.profile == r.profile
      && h.srcEndpoint == r.srcEndpoint && h.counter == counter
      && (if r.mode == MODE_GROUP then h.group == r.dst && h.dstEndpoint == junk.dstEndpoint
          else h.dstEndpoint == r.dstEndpoint && h.group == junk.group)
  {
    RequestFcFields(r);
    ParseWritten(RequestFc(r), r, counter, payload, junk, src, dst);
  }

  /** The same for any frame control without the short acknowledgement format. */
  lemma ParseWritten(fc: U8, r: DataReq, counter: U8, payload: seq<U8>, junk: Header, src: U16, dst: U16)
    requires AckFormat(fc) == 0
    ensures var s := DataHeader(fc, r, counter) + payload;
      && |s| >= ParsedSize(s[0])
      && Parse(junk, s, src, dst) ==
           junk.(fc := fc, srcAddr := src, dstAddr := dst,
                 group := if DeliveryMode(fc) == GROUP then r.dst else junk.group,
                 dstEndpoint := if DeliveryMode(fc) == GROUP then junk.dstEndpoint else r.dstEndpoint,
                 cluster := r.cluster, profile := r.profile, srcEndpoint := r.srcEndpoint, counter := counter)
  {
    var s := DataHeader(fc, r, counter) + payload;
    assert s[0] == fc;
    var i := if DeliveryMode(fc) == GROUP then 3 else 2;
    if DeliveryMode(fc) == GROUP {
      Le16RoundTrip(r.dst, s, 1);
    }
    Le16RoundTrip(r.cluster, s, i);
    Le16RoundTrip(r.profile, s, i + 2);
    assert s[i + 4] == r.srcEndpoint && s[i + 5] == counter;
  }

  /** Whatever follows the packet in its array, parsing gives the same header. */
  ghost predicate OwnBytesOnly(s: seq<U8>, junk: Header, src: U16, dst: U16)
    requires s != []
  {
    forall t, u | |t| == |u| == 8 :: Parse(junk, s + t, src, dst) == Parse(junk, s + u, src, dst)
  }

  /** Exactly when the parser stays inside a packet: it is as long as its frame control announces. */
  lemma OwnBytesOnlyIff(s: seq<U8>, junk: Header, src: U16, dst: U16)
    requires s != []
    ensures OwnBytesOnly(s, junk, src, dst) <==> |s| >= ParsedSize(s[0])
  {
    var zeros: seq<U8> := seq(8, _ => 0);
    if |s| < ParsedSize(s[0]) {
      var last := ParsedSize(s[0]) - 1 - |s|;
      var t := zeros[last := 1];
      CounterIsLast(junk, s + zeros, src, dst);
      CounterIsLast(junk, s + t, src, dst);
      assert (s + zeros)[|s| + last] == 0 && (s + t)[|s| + last] == 1;
      assert Parse(junk, s + zeros, src, dst) != Parse(junk, s + t, src, dst);
    }
  }

  lemma CounterIsLast(junk: Header, s: seq<U8>, src: U16, dst: U16)
    requires |s| > 0 && |s| >= ParsedSize(s[0])
    ensures Parse(junk, s, src, dst).counter == s[ParsedSize(s[0]) - 1]
  {
  }

  /** The size macro tells exactly how many bytes of header were written. */
  lemma DataHeaderSize(r: DataReq, counter: U8)
    ensures |DataHeader(RequestFc(r), r, counter)| == HeaderSize(RequestFc(r))
  {
    RequestFcFields(r);
  }

  /** For acknowledgements the size macro is right iff the acknowledged frame was not a command: it
      looks at the frame type, which says ACK, and not at the ack format. */
  lemma AckHeaderSizeIff(h: Header)
    ensures |AckFrame(h)| == HeaderSize(AckFrame(h)[0]) <==> FrameType(h.fc) != FRAME_COMMAND
  {
  }

  /** The frame control of an acknowledgement. */
  lemma AckFc()
    ensures SetFrameType(0, FRAME_ACK) == 2 && SetAckFormat(2, 0) == 2 && SetAckFormat(2, 1) == 18
  {
    assert Or2(0, 2) == 2 && Or2(0, 0) == 0 && Or2(0, 1) == 1;
  }

  /** Parsing an acknowledgement gives the acknowledged header with its endpoints swapped. */
  lemma AckRoundTrip(h: Header, junk: Header, src: U16, dst: U16)
    ensures var s := AckFrame(h);
      && |s| >= ParsedSize(s[0])
      && var a := Parse(junk, s, src, dst);
      && FrameType(a.fc) == FRAME_ACK && a.counter == h.counter && a.srcAddr == src
      && (AckFormat(a.fc) == 1 <==> FrameType(h.fc) == FRAME_COMMAND)
      && (FrameType(h.fc) != FRAME_COMMAND ==>
            a.srcEndpoint == h.dstEndpoint && a.dstEndpoint == h.srcEndpoint
            && a.cluster == h.cluster && a.profile == h.profile)
  {
    AckFc();
    if FrameType(h.fc) == FRAME_COMMAND {
      assert AckFrame(h) == [18, h.counter];
    } else {
      var answer := DataReq(MODE_SHORT, 0, h.profile, h.cluster, h.srcEndpoint, h.dstEndpoint, 0);
      assert AckFrame(h) == DataHeader(2, answer, h.counter) + [];
      ParseWritten(2, answer, h.counter, [], junk, src, dst);
    }
  }

  // ---------- Sender to receiver and back ----------

  /** The part of a retransmission entry that identifies a frame. */
  datatype FrameKey = FrameKey(addr: U16, counter: U8, cluster: U16, srcEndpoint: U8, dstEndpoint: U8)

  function SavedCounter(next: U8): U8 {
    if next == 0 then 255 else next - 1
  }

  /** What save_ack_data stores, after the header was filled and the counter incremented. */
  function SavedKey(r: DataReq, nextCounter: U8): FrameKey {
    FrameKey(r.dst, SavedCounter(nextCounter), r.cluster, r.srcEndpoint, r.dstEndpoint)
  }

  /** The test of aps_ack_frame_handle. */
  predicate AckMatches(k: FrameKey, a: Header) {
    && k.addr == a.srcAddr && k.counter == a.counter
    && (AckFormat(a.fc) == 1
        || (k.cluster == a.cluster && k.srcEndpoint == a.dstEndpoint && k.dstEndpoint == a.srcEndpoint))
  }

  /** Counter and sender must agree, and in the full format also cluster and endpoints. */
  lemma AckMatchesFields(k: FrameKey, a: Header)
    ensures AckMatches(k, a) <==>
      && k.counter == a.counter && k.addr == a.srcAddr
      && (a.fc / 16 % 2 == 1
          || (k.cluster == a.cluster && k.srcEndpoint == a.dstEndpoint && k.dstEndpoint == a.srcEndpoint))
  {
  }

  /** A request save_ack_data records: groups have lost the acknowledgement option by then. */
  predicate Recorded(r: DataReq) {
    WantsAck(r.options) && r.mode in {MODE_BOUND, MODE_SHORT, MODE_LONG}
  }

  predicate Unicast(r: DataReq) {
    Recorded(r) && !IsBroadcast(r.dst)
  }

  /** The acknowledgement the sender sees for a unicast request: the frame is received and parsed at
      dst, acknowledged, and the acknowledgement is parsed back at src. */
  function AckSeen(r: DataReq, counter: U8, payload: seq<U8>, junk: Header, junk2: Header, src: U16): Header {
    DataRoundTrip(r, counter, payload, junk, src, r.dst);
    var h := Parse(junk, DataHeader(RequestFc(r), r, counter) + payload, src, r.dst);
    AckRoundTrip(h, junk2, r.dst, src);
    Parse(junk2, AckFrame(h), r.dst, src)
  }

  /** End to end: which stored entries the acknowledgement of a unicast data frame matches. */
  lemma AckMatchesIff(r: DataReq, counter: U8, payload: seq<U8>, junk: Header, junk2: Header, src: U16, k: FrameKey)
    requires Unicast(r)
    ensures AckMatches(k, AckSeen(r, counter, payload, junk, junk2, src)) <==>
            k == FrameKey(r.dst, counter, r.cluster, r.srcEndpoint, r.dstEndpoint)
  {
    DataRoundTrip(r, counter, payload, junk, src, r.dst);
    var h := Parse(junk, DataHeader(RequestFc(r), r, counter) + payload, src, r.dst);
    RequestFcFields(r);
    AckRoundTrip(h, junk2, r.dst, src);
  }

  /** So with fewer than 256 frames sent since the oldest one still waiting, the acknowledgement of
      the frame in entry i matches entry i and no other. `sent` numbers the frames in sending order,
      starting from counter value c0. */
  lemma AckMatchesOnlyItsEntry(reqs: seq<DataReq>, sent: seq<nat>, c0: U8, i: nat, j: nat,
                               payload: seq<U8>, junk: Header, junk2: Header, src: U16)
    requires |reqs| == |sent| && i < |reqs| && j < |reqs| && Unicast(reqs[i]) && Recorded(reqs[j])
    requires Distinct(sent) && forall a, b :: 0 <= a < |sent| && 0 <= b < |sent| ==> sent[a] < sent[b] + 256
    ensures i == j <==> AckMatches(SavedKey(reqs[j], CounterAt(c0, sent[j] + 1)),
                                   AckSeen(reqs[i], CounterAt(c0, sent[i]), payload, junk, junk2, src))
  {
    AckMatchesIff(reqs[i], CounterAt(c0, sent[i]), payload, junk, junk2, src, SavedKey(reqs[j], CounterAt(c0, sent[j] + 1)));
    CountersDiffer(c0, sent[i], sent[j]);
    assert i != j ==> sent[i] != sent[j];
  }

  /** The counter after one more frame. */
  function NextCounter(c: U8): U8 {
    if c == 255 then 0 else c + 1
  }

  /** The counter after `sent` increments from c0. */
  function CounterAt(c0: U8, sent: nat): U8 {
    (c0 + sent) % 256
  }

  lemma CountersDiffer(c0: U8, m: nat, n: nat)
    requires m < n + 256 && n < m + 256
    ensures CounterAt(c0, m) == CounterAt(c0, n) <==> m == n
    ensures SavedCounter(CounterAt(c0, n + 1)) == CounterAt(c0, n)
    ensures CounterAt(c0, n + 1) == NextCounter(CounterAt(c0, n))
  {
  }

  // ---------- Writing and reading in the buffer ----------

  /** s with the bytes from `at` on replaced. */
  ghost function Overwrite(s: seq<U8>, at: nat, bytes: seq<U8>): (r: seq<U8>)
    requires at + |bytes| <= |s|
    ensures |r| == |s|
  {
    seq(|s|, i requires 0 <= i < |s| => if at <= i < at + |bytes| then bytes[i - at] else s[i])
  }

  lemma OverwriteTwice(s: seq<U8>, at: nat, first: seq<U8>, second: seq<U8>)
    requires at + |first| + |second| <= |s|
    ensures Overwrite(Overwrite(s, at, first), at + |first|, second) == Overwrite(s, at, first + second)
  {
  }

  lemma OverwriteNothing(s: seq<U8>, at: nat)
    requires at <= |s|
    ensures Overwrite(s, at, []) == s
  {
  }

  /** *p++ = v, behind what has been written from start on. */
  method PutByte(b: Buffer, at: nat, v: U8, ghost before: seq<U8>, ghost start: nat, ghost written: seq<U8>)
    returns (next: nat)
    requires at == start + |written| && at < b.buf.Length == |before| && b.buf[..] == Overwrite(before, start, written)
    modifies b.buf
    ensures next == at + 1 && b.buf[..] == Overwrite(before, start, written + [v])
  {
    b.buf[at] := v;
    assert b.buf[..] == Overwrite(old(b.buf[..]), at, [v]);
    OverwriteTwice(before, start, written, [v]);
    next := at + 1;
  }

  /** zb_put_next_htole16. */
  method PutLe16(b: Buffer, at: nat, v: U16, ghost before: seq<U8>, ghost start: nat, ghost written: seq<U8>)
    returns (next: nat)
    requires at == start + |written| && at + 2 <= b.buf.Length == |before| && b.buf[..] == Overwrite(before, start, written)
    modifies b.buf
    ensures next == at + 2 && b.buf[..] == Overwrite(before, start, written + Le16(v))
  {
    b.buf[at] := v % 256;
    b.buf[at + 1] := v / 256;
    assert b.buf[..] == Overwrite(old(b.buf[..]), at, Le16(v));
    OverwriteTwice(before, start, written, Le16(v));
    next := at + 2;
  }

  /** The fields headers of data frames and of full acknowledgements have in common. */
  method PutEndpointsAndClusters(b: Buffer, at: nat, cluster: U16, profile: U16, srcEndpoint: U8, counter: U8,
                                 ghost before: seq<U8>, ghost start: nat, ghost first: seq<U8>)
    requires at == start + |first| && at + 6 <= b.buf.Length == |before| && b.buf[..] == Overwrite(before, start, first)
    modifies b.buf
    ensures b.buf[..] == Overwrite(before, start, first + Le16(cluster) + Le16(profile) + [srcEndpoint, counter])
  {
    var p := PutLe16(b, at, cluster, before, start, first);
    p := PutLe16(b, p, profile, before, start, first + Le16(cluster));
    ghost var written := first + Le16(cluster) + Le16(profile);
    p := PutByte(b, p, srcEndpoint, before, start, written);
    p := PutByte(b, p, counter, before, start, written + [srcEndpoint]);
    Reassociate(written, [srcEndpoint], [counter]);
  }

  /** Overwriting the front of a window leaves the rest of the window alone. */
  lemma OverwriteWindow(s: seq<U8>, at: nat, bytes: seq<U8>, len: nat, rest: seq<U8>)
    requires |bytes| <= len && at + len <= |s| && rest == s[at..at + len][|bytes|..]
    ensures Overwrite(s, at, bytes)[at..at + len] == bytes + rest
  {
  }

  /** Bytes written before the last n of the array leave those alone. */
  lemma TailApart(s: seq<U8>, at: nat, bytes: seq<U8>, n: nat)
    requires n <= |s| && at + |bytes| <= |s| - n
    ensures Overwrite(s, at, bytes)[|s| - n..] == s[|s| - n..]
  {
  }

  /** The request, wherever its fields lie in the last n bytes of the array, as it is read when the bytes
      `written` have been put at start. */
  method ReadRequest(b: Buffer, n: nat, read: seq<U8> -> DataReq,
                     ghost before: seq<U8>, ghost start: nat, ghost written: seq<U8>) returns (r: DataReq)
    requires n <= b.buf.Length == |before| && start + |written| <= |before|
    requires b.buf[..] == Overwrite(before, start, written)
    ensures start + |written| <= |before| - n ==> r == read(before[|before| - n..])
  {
    r := read(b.buf[b.buf.Length - n..]);
    assert b.buf[b.buf.Length - n..] == b.buf[..][b.buf.Length - n..];
    if start + |written| <= |before| - n {
      TailApart(before, start, written, n);
    }
  }

  /** The destination of a data header, behind the frame control. */
  method PutDestination(b: Buffer, at: nat, fc: U8, n: nat, read: seq<U8> -> DataReq, ghost before: seq<U8>, ghost start: nat)
    returns (next: nat, ghost written: seq<U8>)
    requires n <= b.buf.Length == |before| && at == start + 1 && start + DataHeaderSpace(fc) <= |before|
    requires b.buf[..] == Overwrite(before, start, [fc])
    modifies b.buf
    ensures |written| == DataHeaderSpace(fc) - 6 && next == start + |written|
    ensures b.buf[..] == Overwrite(before, start, written)
    ensures start + DataHeaderSpace(fc) <= |before| - n ==>
      var r := read(before[|before| - n..]);
      written == [fc] + if DeliveryMode(fc) == GROUP then Le16(r.dst) else [r.dstEndpoint]
  {
    var r := ReadRequest(b, n, read, before, start, [fc]);
    if DeliveryMode(fc) == GROUP {
      next := PutLe16(b, at, r.dst, before, start, [fc]);
      written := [fc] + Le16(r.dst);
    } else {
      next := PutByte(b, at, r.dstEndpoint, before, start, [fc]);
      written := [fc] + [r.dstEndpoint];
    }
  }

  /** The rest of it; each field is read when its turn comes. */
  method PutRest(b: Buffer, at: nat, n: nat, read: seq<U8> -> DataReq, counter: U8,
                 ghost before: seq<U8>, ghost start: nat, ghost first: seq<U8>) returns (ghost header: seq<U8>)
    requires n <= b.buf.Length == |before| && at == start + |first| && at + 6 <= |before|
    requires b.buf[..] == Overwrite(before, start, first)
    modifies b.buf
    ensures |header| == |first| + 6 && b.buf[..] == Overwrite(before, start, header)
    ensures at + 6 <= |before| - n ==>
      var r := read(before[|before| - n..]);
      header == first + Le16(r.cluster) + Le16(r.profile) + [r.srcEndpoint, counter]
  {
    var r := ReadRequest(b, n, read, before, start, first);
    var p := PutLe16(b, at, r.cluster, before, start, first);
    header := first + Le16(r.cluster);
    r := ReadRequest(b, n, read, before, start, header);
    p := PutLe16(b, p, r.profile, before, start, header);
    header := header + Le16(r.profile);
    r := ReadRequest(b, n, read, before, start, header);
    p := PutByte(b, p, r.srcEndpoint, before, start, header);
    p := PutByte(b, p, counter, before, start, header + [r.srcEndpoint]);
    Reassociate(header, [r.srcEndpoint], [counter]);
    header := header + [r.srcEndpoint, counter];
  }

  /** The bytes of a data header, written one after the other, with the request in the last n bytes. */
  method PutDataHeader(b: Buffer, start: nat, fc: U8, n: nat, read: seq<U8> -> DataReq, counter: U8)
    returns (ghost header: seq<U8>)
    requires n <= b.buf.Length && start + DataHeaderSpace(fc) <= b.buf.Length
    modifies b.buf
    ensures |header| == DataHeaderSpace(fc) && b.buf[..] == Overwrite(old(b.buf[..]), start, header)
    ensures start + DataHeaderSpace(fc) <= b.buf.Length - n ==>
      header == DataHeader(fc, read(old(b.buf[..])[b.buf.Length - n..]), counter)
  {
    ghost var before := b.buf[..];
    OverwriteNothing(before, start);
    var p := PutByte(b, start, fc, before, start, []);
    assert [] + [fc] == [fc];
    ghost var first;
    p, first := PutDestination(b, p, fc, n, read, before, start);
    header := PutRest(b, p, n, read, counter, before, start, first);
  }

  /** The header fills the space just made before the payload. */
  method FillSpace(b: Buffer, start: nat, fc: U8, n: nat, read: seq<U8> -> DataReq, counter: U8, ghost payload: seq<U8>)
    returns (ghost header: seq<U8>)
    requires b.Valid() && n <= BUF_SIZE && start == b.offset
    requires DataHeaderSpace(fc) <= b.len && b.Payload()[DataHeaderSpace(fc)..] == payload
    modifies b.buf
    ensures b.Valid() && b.Payload() == header + payload && |header| == DataHeaderSpace(fc)
    ensures start + DataHeaderSpace(fc) <= BUF_SIZE - n ==>
      header == DataHeader(fc, read(old(b.buf[..])[BUF_SIZE - n..]), counter)
      && b.buf[..][BUF_SIZE - n..] == old(b.buf[..])[BUF_SIZE - n..]
  {
    ghost var before := b.buf[..];
    WindowIs(b, before);
    header := PutDataHeader(b, start, fc, n, read, counter);
    WindowIs(b, Overwrite(before, start, header));
    OverwriteWindow(before, start, header, b.len, payload);
    if start + DataHeaderSpace(fc) <= BUF_SIZE - n {
      TailApart(before, start, header, n);
    }
  }

  /** aps_data_hdr_fill_datareq, with the request in the last n bytes of the same array, where the space
      made for the header may move the payload onto it. The payload is kept and the counter moves on. The
      header is that of the request found there after the move, as long as it does not itself reach the
      request; and if neither header nor payload does, the request is the caller's, and stays so. */
  method FillHeader(b: Buffer, fc: U8, n: nat, read: seq<U8> -> DataReq, counter: U8) returns (nextCounter: U8)
    requires b.Valid() && b.offset + b.len + n <= BUF_SIZE && DataHeaderSpace(fc) + b.len < BUF_SIZE
    modifies b, b.buf
    ensures b.Valid() && nextCounter == NextCounter(counter)
    ensures |b.Payload()| == DataHeaderSpace(fc) + old(b.len) && b.Payload()[DataHeaderSpace(fc)..] == old(b.Payload())
    ensures b.offset + DataHeaderSpace(fc) <= BUF_SIZE - n ==>
      var r := read(AfterAlloc(old(b.buf[..]), old(b.Win()), DataHeaderSpace(fc))[BUF_SIZE - n..]);
      b.Payload() == DataHeader(fc, r, counter) + old(b.Payload())
    ensures StaysClear(old(b.Win()), DataHeaderSpace(fc), n) ==>
      b.Payload() == DataHeader(fc, read(old(b.Tail(n))), counter) + old(b.Payload()) && b.Tail(n) == old(b.Tail(n))
  {
    ghost var payload, whole, w := b.Payload(), b.buf[..], b.Win();
    var start := b.AllocLeft(DataHeaderSpace(fc));
    ghost var header := FillSpace(b, start, fc, n, read, counter, payload);
    if StaysClear(w, DataHeaderSpace(fc), n) {
      AllocKeepsTail(whole, w, DataHeaderSpace(fc), n);
    }
    nextCounter := NextCounter(counter);
  }

  /** Exactly when making room and writing a header keep the last n bytes of every array: the header fits
      in front of the payload, or header and payload, moved to the front, end before them. */
  lemma TailKeptIff(w: Window, size: nat, n: nat)
    requires Fits(w) && size + w.len < BUF_SIZE && w.offset + w.len + n <= BUF_SIZE
    ensures (forall s, h | |s| == BUF_SIZE && |h| == size ::
               Overwrite(AfterAlloc(s, w, size), if w.offset < size then 0 else w.offset - size, h)[BUF_SIZE - n..]
               == s[BUF_SIZE - n..])
            <==> StaysClear(w, size, n)
  {
    var start := if w.offset < size then 0 else w.offset - size;
    if StaysClear(w, size, n) {
      forall s, h | |s| == BUF_SIZE && |h| == size
        ensures Overwrite(AfterAlloc(s, w, size), start, h)[BUF_SIZE - n..] == s[BUF_SIZE - n..]
      {
        AllocKeepsTail(s, w, size, n);
        TailApart(AfterAlloc(s, w, size), start, h, n);
      }
    } else {
      TailLost(w, size, n);
    }
  }

  /** The last byte of header and payload lands in the tail: with a one there and zeros elsewhere, the
      one is gone. */
  lemma TailLost(w: Window, size: nat, n: nat)
    requires Fits(w) && size + w.len < BUF_SIZE && w.offset + w.len + n <= BUF_SIZE && !StaysClear(w, size, n)
    ensures exists s, h | |s| == BUF_SIZE && |h| == size ::
      Overwrite(AfterAlloc(s, w, size), 0, h)[BUF_SIZE - n..] != s[BUF_SIZE - n..]
  {
    var j := size + w.len - 1;
    var zeros: seq<U8>, h: seq<U8> := seq(BUF_SIZE, _ => 0), seq(size, _ => 0);
    var s := zeros[j := 1];
    var t := Overwrite(AfterAlloc(s, w, size), 0, h);
    assert t[j] == 0 && s[j] == 1;
    assert t[BUF_SIZE - n..][j - (BUF_SIZE - n)] != s[BUF_SIZE - n..][j - (BUF_SIZE - n)];
  }

  lemma WindowIs(b: Buffer, whole: seq<U8>)
    requires b.Valid() && whole == b.buf[..]
    ensures b.Payload() == whole[b.offset..b.offset + b.len]
  {
  }

  /** The octets of an acknowledgement, one by one: two for a command, else those of a data header with the
      endpoints swapped. */
  lemma AckOctets(h: Header)
    ensures AckFrame(h) ==
      if h.fc % 4 == 1 then [18, h.counter]
      else [2, h.srcEndpoint, h.cluster % 256, h.cluster / 256, h.profile % 256, h.profile / 256, h.dstEndpoint, h.counter]
  {
    AckFc();
  }

  lemma AckBytes(h: Header)
    ensures AckFrame(h) ==
      if FrameType(h.fc) != FRAME_COMMAND
      then [2] + [h.srcEndpoint] + Le16(h.cluster) + Le16(h.profile) + [h.dstEndpoint, h.counter]
      else [18] + [h.counter]
  {
    AckFc();
  }

  /** Overwriting a whole window. */
  lemma OverwriteAll(s: seq<U8>, at: nat, bytes: seq<U8>)
    requires at + |bytes| <= |s|
    ensures Overwrite(s, at, bytes)[at..at + |bytes|] == bytes
  {
  }

  /** The bytes of an acknowledgement, written one after the other. */
  method PutAck(b: Buffer, start: nat, h: Header)
    requires b.buf.Length == BUF_SIZE && start + |AckFrame(h)| <= BUF_SIZE
    modifies b.buf
    ensures b.buf[..] == Overwrite(old(b.buf[..]), start, AckFrame(h))
  {
    AckFc();
    AckBytes(h);
    var fc: U8 := SetFrameType(0, FRAME_ACK);
    fc := SetAckFormat(fc, if FrameType(h.fc) != FRAME_COMMAND then 0 else 1);
    ghost var before := b.buf[..];
    OverwriteNothing(before, start);
    var p := PutByte(b, start, fc, before, start, []);
    assert [] + [fc] == [fc];
    if AckFormat(fc) == 0 {
      p := PutByte(b, p, h.srcEndpoint, before, start, [fc]);
      PutEndpointsAndClusters(b, p, h.cluster, h.profile, h.dstEndpoint, h.counter, before, start, [fc] + [h.srcEndpoint]);
    } else {
      p := PutByte(b, p, h.counter, before, start, [fc]);
    }
  }

  /** aps_ack_send_handle, up to the hand-over to the network layer. */
  method BuildAck(b: Buffer, h: Header)
    requires b.Valid()
    modifies b, b.buf
    ensures b.Valid() && b.Payload() == AckFrame(h)
  {
    AckBytes(h);
    var start := b.InitialAlloc(if FrameType(h.fc) != FRAME_COMMAND then 8 else 2);
    ghost var before := b.buf[..];
    PutAck(b, start, h);
    WindowIs(b, Overwrite(before, start, AckFrame(h)));
    OverwriteAll(before, start, AckFrame(h));
  }

  /** *p++, as an element of what starts at `from`. */
  method GetByte(b: Buffer, at: nat, ghost from: nat) returns (v: U8, next: nat)
    requires from <= at < b.buf.Length
    ensures v == b.buf[from..][at - from] && next == at + 1
  {
    v := b.buf[at];
    next := at + 1;
  }

  /** zb_get_next_letoh16. */
  method GetLe16(b: Buffer, at: nat, ghost from: nat) returns (v: U16, next: nat)
    requires from <= at && at + 2 <= b.buf.Length
    ensures v == FromLe16(b.buf[from..], at - from) && next == at + 2
  {
    var low: int, high: int := b.buf[at], b.buf[at + 1];
    v := low + 256 * high;
    next := at + 2;
  }

  /** The fields headers of data frames and of full acknowledgements have in common. */
  method GetEndpointsAndClusters(b: Buffer, at: nat, ghost from: nat)
    returns (cluster: U16, profile: U16, srcEndpoint: U8, counter: U8)
    requires from <= at && at + 6 <= b.buf.Length
    ensures var rest, i := b.buf[from..], at - from;
      cluster == FromLe16(rest, i) && profile == FromLe16(rest, i + 2) && srcEndpoint == rest[i + 4] && counter == rest[i + 5]
  {
    var p := at;
    cluster, p := GetLe16(b, p, from);
    profile, p := GetLe16(b, p, from);
    srcEndpoint, p := GetByte(b, p, from);
    counter, p := GetByte(b, p, from);
  }

  /** The reads of zb_aps_hdr_parse through a moving pointer. */
  method ReadHeader(b: Buffer, from: nat, junk: Header, src: U16, dst: U16) returns (h: Header)
    requires from < b.buf.Length && from + ParsedSize(b.buf[from]) <= b.buf.Length
    ensures h == Parse(junk, b.buf[from..], src, dst)
  {
    var fc, p := GetByte(b, from, from);
    h := junk.(srcAddr := src, dstAddr := dst, srcEndpoint := 0xFF, fc := fc);
    if AckFormat(fc) == 0 {
      if DeliveryMode(fc) != GROUP {
        var endpoint;
        endpoint, p := GetByte(b, p, from);
        h := h.(dstEndpoint := endpoint);
      } else {
        var group;
        group, p := GetLe16(b, p, from);
        h := h.(group := group);
      }
      var cluster, profile, endpoint, counter := GetEndpointsAndClusters(b, p, from);
      h := h.(cluster := cluster, profile := profile, srcEndpoint := endpoint, counter := counter);
    } else {
      var counter;
      counter, p := GetByte(b, p, from);
      h := h.(counter := counter);
    }
  }

  lemma ParsePrefix(junk: Header, s: seq<U8>, n: nat, src: U16, dst: U16)
    requires 0 < n <= |s| && n >= ParsedSize(s[0])
    ensures Parse(junk, s[..n], src, dst) == Parse(junk, s, src, dst)
  {
  }

  /** The window is the front of what starts with it. */
  lemma PayloadIsPrefix(b: Buffer)
    requires b.Valid()
    ensures b.Payload() == b.buf[b.offset..][..b.len]
  {
  }

  /** zb_aps_hdr_parse once the network header is cut: reads as many bytes as the frame control
      announces, and leaves the packet as it is. Nothing compares that with the length of the packet: a
      short one is read on into what else the array holds. */
  method ParseHeader(b: Buffer, junk: Header, src: U16, dst: U16) returns (h: Header)
    requires b.Valid() && b.offset < BUF_SIZE && b.offset + ParsedSize(b.buf[b.offset]) <= BUF_SIZE
    ensures h == Parse(junk, b.buf[b.offset..], src, dst)
    ensures b.len >= ParsedSize(b.buf[b.offset]) ==> h == Parse(junk, b.Payload(), src, dst)
  {
    h := ReadHeader(b, b.offset, junk, src, dst);
    PayloadIsPrefix(b);
    if b.len >= ParsedSize(b.buf[b.offset]) {
      ParsePrefix(junk, b.buf[b.offset..], b.len, src, dst);
    }
  }
}
