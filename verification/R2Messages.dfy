/**
 Typed messages over the R2 link. The bridge packs paths, detections and zone paths (r2_protocol.py); the
 firmware decodes them and packs the zone layout (remote_control.c), which the bridge decodes.

 A float32 is represented by its 32 bits: both sides copy the bits through a little-endian byte quadruple.
 */
module R2Messages {
  import opened Common
  import opened R2Frames
  import opened R2Parsers
  import opened R2Link

  type floatBits = x: int | 0 <= x < 0x1_0000_0000

  datatype Waypoint = Waypoint(x: floatBits, y: floatBits)
  datatype Detection = Detection(id: byte, x: floatBits, y: floatBits, z: floatBits)
  datatype KfsInfo = KfsInfo(blockId: byte, kfsType: byte)

  const CMD_PATH: byte := 0x02
  const CMD_KFS: byte := 0x03
  const CMD_ZONE_I_PATH: byte := 0x05
  const CMD_ZONE_I_INFO: byte := 0x13

  // ----- floats

  function PackFloat(u: floatBits): (b: seq<byte>)
    ensures |b| == 4
  {
    var u1 := u / 0x100;
    var u2 := u1 / 0x100;
    [u % 0x100, u1 % 0x100, u2 % 0x100, u2 / 0x100]
  }

  function UnpackFloat(data: seq<byte>, pos: nat): floatBits
    requires pos + 4 <= |data|
  {
    var a: int, b: int, c: int, d: int := data[pos], data[pos + 1], data[pos + 2], data[pos + 3];
    a + 0x100 * b + 0x1_0000 * c + 0x100_0000 * d
  }

  lemma FloatRoundTrip(u: floatBits, data: seq<byte>, pos: nat)
    requires pos + 4 <= |data| && data[pos..pos + 4] == PackFloat(u)
    ensures UnpackFloat(data, pos) == u
  {
    var b := data[pos..pos + 4];
    assert b[0] == data[pos] && b[1] == data[pos + 1] && b[2] == data[pos + 2] && b[3] == data[pos + 3];
  }

  // ----- arrays of equal-width records

  function Join(parts: seq<seq<byte>>): seq<byte> {
    if parts == [] then [] else Join(parts[..|parts| - 1]) + parts[|parts| - 1]
  }

  lemma MulStep(w: nat, i: nat, n: nat)
    requires i <= n
    ensures w * (n + 1) == w * n + w
    ensures w * i <= w * n
  {
  }

  lemma {:induction false} JoinSize(parts: seq<seq<byte>>, w: nat)
    requires forall p :: p in parts ==> |p| == w
    ensures |Join(parts)| == w * |parts|
  {
    if parts != [] {
      var n := |parts| - 1;
      JoinSize(parts[..n], w);
      MulStep(w, n, n);
    }
  }

  /** Record `i` starts where the records before it end. */
  lemma {:induction false} JoinFront(parts: seq<seq<byte>>, i: nat)
    requires i < |parts|
    ensures var at := |Join(parts[..i])|;
            at + |parts[i]| <= |Join(parts)| && Join(parts)[at..at + |parts[i]|] == parts[i]
    decreases |parts|
  {
    var n := |parts| - 1;
    var front := parts[..n];
    if i < n {
      JoinFront(front, i);
      assert front[..i] == parts[..i];
    }
  }

  lemma JoinAt(parts: seq<seq<byte>>, w: nat, i: nat)
    requires i < |parts| && forall p :: p in parts ==> |p| == w
    ensures w * i + w <= |Join(parts)|
    ensures Join(parts)[w * i..w * i + w] == parts[i]
  {
    hide Join;
    JoinFront(parts, i);
    JoinSize(parts[..i], w);
  }

  // ----- packing

  function PointBytes(p: Waypoint): seq<byte> { PackFloat(p.x) + PackFloat(p.y) }

  function DetectionBytes(d: Detection): seq<byte> {
    [d.id] + PackFloat(d.x) + PackFloat(d.y) + PackFloat(d.z)
  }

  function InfoBytes(k: KfsInfo): seq<byte> { [k.blockId, k.kfsType] }

  function PointParts(points: seq<Waypoint>): seq<seq<byte>> {
    seq(|points|, i requires 0 <= i < |points| => PointBytes(points[i]))
  }

  function DetectionParts(ds: seq<Detection>): seq<seq<byte>> {
    seq(|ds|, i requires 0 <= i < |ds| => DetectionBytes(ds[i]))
  }

  function InfoParts(ks: seq<KfsInfo>): seq<seq<byte>> {
    seq(|ks|, i requires 0 <= i < |ks| => InfoBytes(ks[i]))
  }

  /** A message the bridge sends. */
  datatype Uplink =
    | Path(points: seq<Waypoint>)
    | Kfs(detections: seq<Detection>)
    | ZoneIPath(startBlock: byte, endBlock: byte, blocks: seq<byte>)
  {
    function Count(): nat {
      match this
      case Path(ps) => |ps|
      case Kfs(ds) => |ds|
      case ZoneIPath(_, _, bs) => |bs|
    }

    /** The frame of the message; the element count occupies one byte. */
    function ToFrame(): Frame
      requires Count() < 256
    {
      match this
      case Path(ps) => Frame(CMD_PATH, [|ps|] + Join(PointParts(ps)))
      case Kfs(ds) => Frame(CMD_KFS, [|ds|] + Join(DetectionParts(ds)))
      case ZoneIPath(s, e, bs) => Frame(CMD_ZONE_I_PATH, [s, e, |bs|] + bs)
    }
  }

  /** pack_path; None stands for the struct.error that an element count above 255 raises. */
  method PackPath(points: seq<Waypoint>) returns (r: Option<seq<byte>>)
    ensures r == if |points| < 256 then Some(Encode(Path(points).ToFrame())) else None
  {
    if |points| >= 256 { return None; }
    var payload: seq<byte> := [|points|];
    for i := 0 to |points|
      invariant payload == [|points|] + Join(PointParts(points[..i]))
    {
      payload := payload + PointBytes(points[i]);
      JoinSnoc(PointParts(points[..i + 1]), PointParts(points[..i]), PointBytes(points[i]));
    }
    assert points[..|points|] == points;
    var frame := SendFrame(CMD_PATH, payload);
    r := Some(frame);
  }

  /** pack_kfs. */
  method PackKfs(ds: seq<Detection>) returns (r: Option<seq<byte>>)
    ensures r == if |ds| < 256 then Some(Encode(Kfs(ds).ToFrame())) else None
  {
    if |ds| >= 256 { return None; }
    var payload: seq<byte> := [|ds|];
    for i := 0 to |ds|
      invariant payload == [|ds|] + Join(DetectionParts(ds[..i]))
    {
      payload := payload + DetectionBytes(ds[i]);
      JoinSnoc(DetectionParts(ds[..i + 1]), DetectionParts(ds[..i]), DetectionBytes(ds[i]));
    }
    assert ds[..|ds|] == ds;
    var frame := SendFrame(CMD_KFS, payload);
    r := Some(frame);
  }

  /** pack_zone_i_path. */
  method PackZoneIPath(startBlock: byte, endBlock: byte, blocks: seq<byte>) returns (r: Option<seq<byte>>)
    ensures r == if |blocks| < 256 then Some(Encode(ZoneIPath(startBlock, endBlock, blocks).ToFrame())) else None
  {
    if |blocks| >= 256 { return None; }
    var payload: seq<byte> := [startBlock, endBlock, |blocks|];
    for i := 0 to |blocks|
      invariant payload == [startBlock, endBlock, |blocks|] + blocks[..i]
    {
      payload := payload + [blocks[i]];
    }
    assert blocks[..|blocks|] == blocks;
    var frame := SendFrame(CMD_ZONE_I_PATH, payload);
    r := Some(frame);
  }

  lemma JoinSnoc(longer: seq<seq<byte>>, shorter: seq<seq<byte>>, last: seq<byte>)
    requires longer == shorter + [last]
    ensures Join(longer) == Join(shorter) + last
  {
    assert longer[..|longer| - 1] == shorter;
  }

  // ----- the firmware's decoders

  /** What a callback receives: the announced count (capped) and the elements the payload really held. */
  datatype Received =
    | PathRcvd(num: nat, points: seq<Waypoint>)
    | KfsRcvd(num: nat, detections: seq<Detection>)
    | ZoneRcvd(startBlock: byte, endBlock: byte, num: nat, blocks: seq<byte>)

  function Min(a: nat, b: nat): nat { if a < b then a else b }

  function PointAt(data: seq<byte>, pos: nat): Waypoint
    requires pos + 8 <= |data|
  {
    Waypoint(UnpackFloat(data, pos), UnpackFloat(data, pos + 4))
  }

  function DetectionAt(data: seq<byte>, pos: nat): Detection
    requires pos + 13 <= |data|
  {
    Detection(data[pos], UnpackFloat(data, pos + 1), UnpackFloat(data, pos + 5), UnpackFloat(data, pos + 9))
  }

  function DecodePath(data: seq<byte>): Option<Received> {
    if |data| < 1 then None
    else
      var num := Min(data[0], 16);
      var k := Min(num, (|data| - 1) / 8);
      Some(PathRcvd(num, seq(k, i requires 0 <= i < k => PointAt(data, 1 + 8 * i))))
  }

  function DecodeKfs(data: seq<byte>): Option<Received> {
    if |data| < 1 then None
    else
      var num := Min(data[0], 8);
      var k := Min(num, (|data| - 1) / 13);
      Some(KfsRcvd(num, seq(k, i requires 0 <= i < k => DetectionAt(data, 1 + 13 * i))))
  }

  function DecodeZoneIPath(data: seq<byte>): Option<Received> {
    if |data| < 3 then None
    else
      var num := Min(data[2], 32);
      Some(ZoneRcvd(data[0], data[1], num, data[3..3 + Min(num, |data| - 3)]))
  }

  function Decode(f: Frame): Option<Received> {
    if f.cmd == CMD_PATH then DecodePath(f.payload)
    else if f.cmd == CMD_KFS then DecodeKfs(f.payload)
    else if f.cmd == CMD_ZONE_I_PATH then DecodeZoneIPath(f.payload)
    else None
  }

  method HandlePath(data: seq<byte>) returns (r: Option<Received>)
    ensures r == DecodePath(data)
  {
    if |data| < 1 { return None; }
    var num := data[0] as nat;
    if num > 16 { num := 16; }
    var points := [];
    var pos, i := 1, 0;
    while i < num && pos + 8 <= |data|
      invariant i <= num && pos == 1 + 8 * i <= |data| && |points| == i
      invariant forall k :: 0 <= k < i ==> points[k] == PointAt(data, 1 + 8 * k)
    {
      points := points + [Waypoint(UnpackFloat(data, pos), UnpackFloat(data, pos + 4))];
      pos, i := pos + 8, i + 1;
    }
    assert i == Min(num, (|data| - 1) / 8);
    assert points == DecodePath(data).value.points;
    r := Some(PathRcvd(num, points));
  }

  method HandleKfs(data: seq<byte>) returns (r: Option<Received>)
    ensures r == DecodeKfs(data)
  {
    if |data| < 1 { return None; }
    var num := data[0] as nat;
    if num > 8 { num := 8; }
    var ds := [];
    var pos, i := 1, 0;
    while i < num && pos + 13 <= |data|
      invariant i <= num && pos == 1 + 13 * i <= |data| && |ds| == i
      invariant forall k :: 0 <= k < i ==> ds[k] == DetectionAt(data, 1 + 13 * k)
    {
      var id := data[pos]; pos := pos + 1;
      var x := UnpackFloat(data, pos); pos := pos + 4;
      var y := UnpackFloat(data, pos); pos := pos + 4;
      var z := UnpackFloat(data, pos); pos := pos + 4;
      ds, i := ds + [Detection(id, x, y, z)], i + 1;
    }
    assert i == Min(num, (|data| - 1) / 13);
    assert ds == DecodeKfs(data).value.detections;
    r := Some(KfsRcvd(num, ds));
  }

  method HandleZoneIPath(data: seq<byte>) returns (r: Option<Received>)
    ensures r == DecodeZoneIPath(data)
  {
    if |data| < 3 { return None; }
    var num := data[2] as nat;
    if num > 32 { num := 32; }
    var blocks: seq<byte> := [];
    var pos, i := 3, 0;
    while i < num && pos < |data|
      invariant i <= num && pos == 3 + i <= |data| && blocks == data[3..pos]
    {
      blocks := blocks + [data[pos]];
      pos, i := pos + 1, i + 1;
    }
    r := Some(ZoneRcvd(data[0], data[1], num, blocks));
  }

  // ----- the bytes of the messages

  /** Byte `k` of a 32-bit number, the lowest first. */
  function ByteOf(u: floatBits, k: nat): byte
    requires k < 4
  {
    if k == 0 then u % 0x100
    else if k == 1 then u / 0x100 % 0x100
    else if k == 2 then u / 0x1_0000 % 0x100
    else u / 0x100_0000
  }

  lemma FloatBytes(u: floatBits, k: nat)
    requires k < 4
    ensures PackFloat(u)[k] == ByteOf(u, k)
  {
  }

  /** A path: 02, the count, then x and y of each point, lowest byte first. */
  lemma PathLayout(ps: seq<Waypoint>, i: nat, k: nat)
    requires i < |ps| < 256 && k < 4
    ensures var f := Path(ps).ToFrame();
            && f.cmd == 2 && |f.payload| == 1 + 8 * |ps| && f.payload[0] == |ps|
            && f.payload[1 + 8 * i + k] == ByteOf(ps[i].x, k) && f.payload[5 + 8 * i + k] == ByteOf(ps[i].y, k)
  {
    PointByte(ps[i], k);
    PathRecord(ps, i, k);
    PathRecord(ps, i, 4 + k);
    hide Join;
    hide PointParts;
    hide PointBytes;
    hide ByteOf;
  }

  lemma PathRecord(ps: seq<Waypoint>, i: nat, j: nat)
    requires i < |ps| && j < 8
    ensures var body := Join(PointParts(ps));
            && |PointBytes(ps[i])| == 8 && |body| == 8 * |ps| && 8 * i + j < |body|
            && body[8 * i + j] == PointBytes(ps[i])[j]
  {
    var parts := PointParts(ps);
    assert forall p :: p in parts ==> |p| == 8;
    assert parts[i] == PointBytes(ps[i]);
    hide PointBytes;
    hide PointParts;
    JoinSize(parts, 8);
    JoinAt(parts, 8, i);
    hide Join;
    Within(Join(parts), 8 * i, 8, j);
  }

  lemma PointByte(p: Waypoint, k: nat)
    requires k < 4
    ensures |PointBytes(p)| == 8 && PointBytes(p)[k] == ByteOf(p.x, k) && PointBytes(p)[4 + k] == ByteOf(p.y, k)
  {
    FloatBytes(p.x, k);
    FloatBytes(p.y, k);
    hide PackFloat;
    hide ByteOf;
  }

  /** Detections: 03, the count, then the number and x, y, z of each. */
  lemma KfsLayout(ds: seq<Detection>, i: nat, k: nat)
    requires i < |ds| < 256 && k < 4
    ensures var f, at := Kfs(ds).ToFrame(), 1 + 13 * i;
            && f.cmd == 3 && |f.payload| == 1 + 13 * |ds| && f.payload[0] == |ds| && f.payload[at] == ds[i].id
            && f.payload[at + 1 + k] == ByteOf(ds[i].x, k) && f.payload[at + 5 + k] == ByteOf(ds[i].y, k)
            && f.payload[at + 9 + k] == ByteOf(ds[i].z, k)
  {
    DetectionByte(ds[i], k);
    KfsRecord(ds, i, 0);
    KfsRecord(ds, i, 1 + k);
    KfsRecord(ds, i, 5 + k);
    KfsRecord(ds, i, 9 + k);
    hide Join;
    hide DetectionParts;
    hide DetectionBytes;
    hide ByteOf;
  }

  /** Byte `j` of record `i`. */
  lemma KfsRecord(ds: seq<Detection>, i: nat, j: nat)
    requires i < |ds| && j < 13
    ensures var body := Join(DetectionParts(ds));
            && |DetectionBytes(ds[i])| == 13 && |body| == 13 * |ds| && 13 * i + j < |body|
            && body[13 * i + j] == DetectionBytes(ds[i])[j]
  {
    var parts := DetectionParts(ds);
    assert forall p :: p in parts ==> |p| == 13;
    assert parts[i] == DetectionBytes(ds[i]);
    hide DetectionBytes;
    hide DetectionParts;
    JoinSize(parts, 13);
    JoinAt(parts, 13, i);
    hide Join;
    Within(Join(parts), 13 * i, 13, j);
  }

  lemma DetectionByte(d: Detection, k: nat)
    requires k < 4
    ensures var b := DetectionBytes(d);
            && |b| == 13 && b[0] == d.id
            && b[1 + k] == ByteOf(d.x, k) && b[5 + k] == ByteOf(d.y, k) && b[9 + k] == ByteOf(d.z, k)
  {
    FloatBytes(d.x, k);
    FloatBytes(d.y, k);
    FloatBytes(d.z, k);
    hide PackFloat;
    hide ByteOf;
  }

  lemma Within(s: seq<byte>, pos: nat, w: nat, k: nat)
    requires pos + w <= |s| && k < w
    ensures s[pos..pos + w][k] == s[pos + k]
  {
  }

  /** A block path: 05, both ends, the count, the blocks. A layout: 13, the count, then block and kind of each entry. */
  lemma BlockLayouts(startBlock: byte, endBlock: byte, blocks: seq<byte>, ks: seq<KfsInfo>, i: nat)
    requires |blocks| < 256 && i < |ks| <= 16
    ensures ZoneIPath(startBlock, endBlock, blocks).ToFrame() == Frame(5, [startBlock, endBlock, |blocks|] + blocks)
    ensures var f := ZoneInfoFrame(ks);
            && f.cmd == 0x13 && |f.payload| == 1 + 2 * |ks| && f.payload[0] == |ks|
            && f.payload[1 + 2 * i] == ks[i].blockId && f.payload[2 + 2 * i] == ks[i].kfsType
  {
    InfoAt(ks, i);
  }

  /** Number with these four bytes, the lowest first. */
  function Number(a: byte, b: byte, c: byte, d: byte): int {
    a as int + b as int * 0x100 + c as int * 0x1_0000 + d as int * 0x100_0000
  }

  /** What the firmware reads from any payload: at most 16 points, as far as there are bytes for them. */
  lemma PathRead(data: seq<byte>, i: nat)
    requires data != []
    ensures var r := DecodePath(data);
            && r.Some? && r.value.PathRcvd? && r.value.num == Min(data[0], 16)
            && |r.value.points| == Min(Min(data[0], 16), (|data| - 1) / 8)
            && (i < |r.value.points| ==> var at := 1 + 8 * i;
                  && r.value.points[i].x == Number(data[at], data[at + 1], data[at + 2], data[at + 3])
                  && r.value.points[i].y == Number(data[at + 4], data[at + 5], data[at + 6], data[at + 7]))
  {
  }

  /** Both ends and at most 32 blocks, as far as the payload holds them. */
  lemma ZoneRead(data: seq<byte>)
    ensures DecodeZoneIPath(data) ==
              if |data| < 3 then None
              else Some(ZoneRcvd(data[0], data[1], Min(data[2], 32), data[3..3 + Min(Min(data[2], 32), |data| - 3)]))
  {
  }

  /** The bridge reads all announced entries from any payload that is long enough, and fails on a shorter one. */
  lemma InfoRead(payload: seq<byte>, i: nat)
    ensures var r := DecodeZoneInfo(payload);
            && (r.Ok? <==> payload != [] && |payload| >= 1 + 2 * payload[0] as int)
            && (r.Ok? ==> |r.value| == payload[0])
            && (r.Ok? && i < |r.value| ==> r.value[i] == KfsInfo(payload[1 + 2 * i], payload[2 + 2 * i]))
  {
  }

  /** Which decoder a command selects; any other command is passed over. */
  lemma DecodersByCommand(f: Frame)
    ensures Decode(f) ==
              if f.cmd == 2 then DecodePath(f.payload)
              else if f.cmd == 3 then DecodeKfs(f.payload)
              else if f.cmd == 5 then DecodeZoneIPath(f.payload)
              else None
  {
  }

  /** At most 8 detections. */
  lemma KfsRead(data: seq<byte>, i: nat)
    requires data != []
    ensures var r := DecodeKfs(data);
            && r.Some? && r.value.KfsRcvd? && r.value.num == Min(data[0], 8)
            && |r.value.detections| == Min(Min(data[0], 8), (|data| - 1) / 13)
            && (i < |r.value.detections| ==> var at := 1 + 13 * i;
                  && r.value.detections[i].id == data[at]
                  && r.value.detections[i].x == Number(data[at + 1], data[at + 2], data[at + 3], data[at + 4])
                  && r.value.detections[i].y == Number(data[at + 5], data[at + 6], data[at + 7], data[at + 8])
                  && r.value.detections[i].z == Number(data[at + 9], data[at + 10], data[at + 11], data[at + 12]))
  {
  }

  // ----- uplink: what is packed is what the callback receives

  /** Within these counts a message survives: 7 waypoints, 4 detections, 32 blocks. */
  predicate Survives(m: Uplink): (ok: bool)
    ensures ok ==> m.Count() < 256
  {
    match m
    case Path(ps) => |ps| <= 7
    case Kfs(ds) => |ds| <= 4
    case ZoneIPath(_, _, bs) => |bs| <= 32
  }

  function Intact(m: Uplink): Received {
    match m
    case Path(ps) => PathRcvd(|ps|, ps)
    case Kfs(ds) => KfsRcvd(|ds|, ds)
    case ZoneIPath(s, e, bs) => ZoneRcvd(s, e, |bs|, bs)
  }

  lemma AfterCount(n: byte, body: seq<byte>, pos: nat, w: nat)
    requires pos + w <= |body|
    ensures ([n] + body)[1 + pos..1 + pos + w] == body[pos..pos + w]
  {
    var data := [n] + body;
    assert data[1..] == body;
    assert data[1 + pos..1 + pos + w] == data[1..][pos..pos + w];
  }

  lemma SliceOfSlice(s: seq<byte>, pos: nat, w: nat, k: nat)
    requires pos + w <= |s| && k + 4 <= w
    ensures s[pos + k..pos + k + 4] == s[pos..pos + w][k..k + 4]
  {
    var whole := s[pos..pos + w];
    assert forall i :: k <= i < k + 4 ==> whole[i] == s[pos + i];
  }

  lemma PointSurvives(p: Waypoint, data: seq<byte>, pos: nat)
    requires pos + 8 <= |data| && data[pos..pos + 8] == PointBytes(p)
    ensures PointAt(data, pos) == p
  {
    SliceOfSlice(data, pos, 8, 0);
    SliceOfSlice(data, pos, 8, 4);
    assert PointBytes(p)[0..4] == PackFloat(p.x) && PointBytes(p)[4..8] == PackFloat(p.y);
    FloatRoundTrip(p.x, data, pos);
    FloatRoundTrip(p.y, data, pos + 4);
  }

  lemma PathBody(ps: seq<Waypoint>, i: nat)
    requires i < |ps| < 256
    ensures |Join(PointParts(ps))| == 8 * |ps|
    ensures PointAt([|ps|] + Join(PointParts(ps)), 1 + 8 * i) == ps[i]
  {
    var parts := PointParts(ps);
    assert forall p :: p in parts ==> |p| == 8;
    assert parts[i] == PointBytes(ps[i]);
    hide Join;
    hide PointBytes;
    hide PointAt;
    JoinSize(parts, 8);
    JoinAt(parts, 8, i);
    AfterCount(|ps|, Join(parts), 8 * i, 8);
    PointSurvives(ps[i], [|ps|] + Join(parts), 1 + 8 * i);
  }

  lemma PathDecodes(ps: seq<Waypoint>, data: seq<byte>)
    requires |ps| <= 16 && |data| == 1 + 8 * |ps| && data[0] == |ps|
    requires forall i :: 0 <= i < |ps| ==> PointAt(data, 1 + 8 * i) == ps[i]
    ensures DecodePath(data) == Some(PathRcvd(|ps|, ps))
  {
    assert DecodePath(data).value.points == ps;
  }

  lemma PathSurvives(ps: seq<Waypoint>)
    requires |ps| <= 16
    ensures DecodePath(Path(ps).ToFrame().payload) == Some(PathRcvd(|ps|, ps))
  {
    JoinSize(PointParts(ps), 8);
    forall i | 0 <= i < |ps|
      ensures PointAt(Path(ps).ToFrame().payload, 1 + 8 * i) == ps[i]
    {
      PathBody(ps, i);
    }
    PathDecodes(ps, Path(ps).ToFrame().payload);
  }

  lemma DetectionSurvives(d: Detection, data: seq<byte>, pos: nat)
    requires pos + 13 <= |data| && data[pos..pos + 13] == DetectionBytes(d)
    ensures DetectionAt(data, pos) == d
  {
    var b := data[pos..pos + 13];
    assert data[pos] == b[0];
    SliceOfSlice(data, pos, 13, 1);
    SliceOfSlice(data, pos, 13, 5);
    SliceOfSlice(data, pos, 13, 9);
    assert b[1..5] == PackFloat(d.x);
    assert b[5..9] == PackFloat(d.y);
    assert b[9..13] == PackFloat(d.z);
    FloatRoundTrip(d.x, data, pos + 1);
    FloatRoundTrip(d.y, data, pos + 5);
    FloatRoundTrip(d.z, data, pos + 9);
  }

  lemma KfsBody(ds: seq<Detection>, i: nat)
    requires i < |ds| < 256
    ensures |Join(DetectionParts(ds))| == 13 * |ds|
    ensures DetectionAt([|ds|] + Join(DetectionParts(ds)), 1 + 13 * i) == ds[i]
  {
    var parts := DetectionParts(ds);
    assert forall p :: p in parts ==> |p| == 13;
    assert parts[i] == DetectionBytes(ds[i]);
    hide Join;
    hide DetectionBytes;
    hide DetectionAt;
    JoinSize(parts, 13);
    JoinAt(parts, 13, i);
    AfterCount(|ds|, Join(parts), 13 * i, 13);
    DetectionSurvives(ds[i], [|ds|] + Join(parts), 1 + 13 * i);
  }

  lemma KfsDecodes(ds: seq<Detection>, data: seq<byte>)
    requires |ds| <= 8 && |data| == 1 + 13 * |ds| && data[0] == |ds|
    requires forall i :: 0 <= i < |ds| ==> DetectionAt(data, 1 + 13 * i) == ds[i]
    ensures DecodeKfs(data) == Some(KfsRcvd(|ds|, ds))
  {
    assert DecodeKfs(data).value.detections == ds;
  }

  lemma KfsSurvives(ds: seq<Detection>)
    requires |ds| <= 8
    ensures DecodeKfs(Kfs(ds).ToFrame().payload) == Some(KfsRcvd(|ds|, ds))
  {
    JoinSize(DetectionParts(ds), 13);
    forall i | 0 <= i < |ds|
      ensures DetectionAt(Kfs(ds).ToFrame().payload, 1 + 13 * i) == ds[i]
    {
      KfsBody(ds, i);
    }
    KfsDecodes(ds, Kfs(ds).ToFrame().payload);
  }

  /** The limits in `Survives` are exact: the firmware dispatches the frame and decodes it intact only then. */
  lemma SurvivesExactly(m: Uplink)
    requires m.Count() < 256
    ensures Survives(m) <==> Fits(m.ToFrame()) && Decode(m.ToFrame()) == Some(Intact(m))
    ensures Fits(m.ToFrame()) <==> m.ToFrame() in Feed(IDLE, Encode(m.ToFrame())).1
  {
    hide Encode;
    hide Feed;
    match m
    case Path(ps) =>
      JoinSize(PointParts(ps), 8);
      if |ps| <= 16 { PathSurvives(ps); }
      DeliveredIffFits(m.ToFrame());
    case Kfs(ds) =>
      JoinSize(DetectionParts(ds), 13);
      if |ds| <= 8 { KfsSurvives(ds); }
      DeliveredIffFits(m.ToFrame());
    case ZoneIPath(s, e, bs) =>
      var data := m.ToFrame().payload;
      assert data[3..3 + |bs|] == bs;
      DeliveredIffFits(m.ToFrame());
  }

  datatype Noisy = Noisy(noise: seq<byte>, message: Uplink)

  ghost predicate WithinLimits(ms: seq<Noisy>) {
    forall i :: 0 <= i < |ms| ==> Survives(ms[i].message) && NoPair(ms[i].noise)
  }

  ghost function Wire(ms: seq<Noisy>): (items: seq<Item>)
    requires WithinLimits(ms)
    ensures |items| == |ms|
  {
    seq(|ms|, i requires 0 <= i < |ms| => Item(ms[i].noise, ms[i].message.ToFrame()))
  }

  /** The callbacks made for a list of dispatched frames. */
  function Callbacks(frames: seq<Frame>): seq<Received> {
    if frames == [] then []
    else
      match Decode(frames[0])
      case Some(m) => [m] + Callbacks(frames[1..])
      case None => Callbacks(frames[1..])
  }

  /**
   End to end: any list of messages within the limits, with pair-free noise before each and after the last, is
   called back on the firmware with the same values, once each and in order.
   */
  lemma {:induction false} UplinkDelivers(ms: seq<Noisy>, tail: seq<byte>)
    requires WithinLimits(ms) && NoPair(tail)
    ensures Callbacks(Feed(IDLE, Stream(Wire(ms)) + tail).1) ==
              seq(|ms|, i requires 0 <= i < |ms| => Intact(ms[i].message))
  {
    hide Encode;
    hide Feed;
    forall i | 0 <= i < |ms|
      ensures NoPair(Wire(ms)[i].noise) && Fits(Wire(ms)[i].frame)
    {
      SurvivesExactly(ms[i].message);
    }
    FirmwareDelivers(Wire(ms), tail);
    CallbacksIntact(ms);
  }

  lemma {:induction false} CallbacksIntact(ms: seq<Noisy>)
    requires WithinLimits(ms)
    ensures Callbacks(Frames(Wire(ms))) == seq(|ms|, i requires 0 <= i < |ms| => Intact(ms[i].message))
  {
    if ms != [] {
      SurvivesExactly(ms[0].message);
      assert Wire(ms)[1..] == Wire(ms[1..]);
      CallbacksIntact(ms[1..]);
    }
  }

  // ----- downlink: the zone layout

  /** rc_send_zone_i_info: at most 16 entries are sent. */
  function ZoneInfoFrame(ks: seq<KfsInfo>): Frame
    requires |ks| <= 16
  {
    Frame(CMD_ZONE_I_INFO, [|ks|] + Join(InfoParts(ks)))
  }

  method SendZoneIInfo(num: byte, kfsList: seq<KfsInfo>) returns (sent: seq<byte>)
    requires Min(num, 16) <= |kfsList|
    ensures sent == Encode(ZoneInfoFrame(kfsList[..Min(num, 16)]))
  {
    var n := if num > 16 then 16 else num;
    var pld: seq<byte> := [n];
    for i := 0 to n
      invariant pld == [n] + Join(InfoParts(kfsList[..i]))
    {
      pld := pld + [kfsList[i].blockId, kfsList[i].kfsType];
      JoinSnoc(InfoParts(kfsList[..i + 1]), InfoParts(kfsList[..i]), InfoBytes(kfsList[i]));
    }
    sent := SendFrame(CMD_ZONE_I_INFO, pld);
  }

  datatype Result<+T> = Ok(value: T) | IndexError

  /** The ZONE_I_INFO branch of _handle_downlink: indexing past the payload raises IndexError. */
  function DecodeZoneInfo(payload: seq<byte>): Result<seq<KfsInfo>> {
    if |payload| < 1 || |payload| < 1 + 2 * (payload[0] as int) then IndexError
    else Ok(seq(payload[0], i requires 0 <= i < payload[0] => KfsInfo(payload[1 + 2 * i], payload[1 + 2 * i + 1])))
  }

  method HandleZoneInfo(payload: seq<byte>) returns (r: Result<seq<KfsInfo>>)
    ensures r == DecodeZoneInfo(payload)
  {
    if |payload| < 1 { return IndexError; }
    var n := payload[0];
    var infos := [];
    for i := 0 to n
      invariant |infos| == i && 1 + 2 * i <= |payload|
      invariant forall k :: 0 <= k < i ==> infos[k] == KfsInfo(payload[1 + 2 * k], payload[1 + 2 * k + 1])
    {
      if 1 + i * 2 + 1 >= |payload| { return IndexError; }
      infos := infos + [KfsInfo(payload[1 + i * 2], payload[1 + i * 2 + 1])];
    }
    assert infos == DecodeZoneInfo(payload).value;
    r := Ok(infos);
  }

  datatype NoisyInfo = NoisyInfo(noise: seq<byte>, infos: seq<KfsInfo>)

  function InfoWire(ms: seq<NoisyInfo>): (items: seq<Item>)
    requires forall m :: m in ms ==> |m.infos| <= 16
    ensures |items| == |ms|
  {
    seq(|ms|, i requires 0 <= i < |ms| => Item(ms[i].noise, ZoneInfoFrame(ms[i].infos)))
  }

  lemma InfoAt(ks: seq<KfsInfo>, i: nat)
    requires i < |ks|
    ensures |Join(InfoParts(ks))| == 2 * |ks|
    ensures var body := Join(InfoParts(ks)); KfsInfo(body[2 * i], body[2 * i + 1]) == ks[i]
  {
    var parts := InfoParts(ks);
    assert forall p :: p in parts ==> |p| == 2;
    assert parts[i] == InfoBytes(ks[i]);
    hide Join;
    JoinSize(parts, 2);
    JoinAt(parts, 2, i);
    var body := Join(parts);
    assert body[2 * i..2 * i + 2][0] == body[2 * i] && body[2 * i..2 * i + 2][1] == body[2 * i + 1];
  }

  lemma InfoSurvives(ks: seq<KfsInfo>)
    requires |ks| <= 16
    ensures |ZoneInfoFrame(ks).payload| == 1 + 2 * |ks|
    ensures DecodeZoneInfo(ZoneInfoFrame(ks).payload) == Ok(ks)
  {
    var parts, data := InfoParts(ks), ZoneInfoFrame(ks).payload;
    assert forall p :: p in parts ==> |p| == 2;
    JoinSize(parts, 2);
    forall i | 0 <= i < |ks|
      ensures KfsInfo(data[1 + 2 * i], data[1 + 2 * i + 1]) == ks[i]
    {
      InfoAt(ks, i);
    }
    assert DecodeZoneInfo(data).value == ks;
  }

  /** Every layout sent by the firmware is handled by the bridge with the same entries, once each and in order. */
  lemma {:induction false} DownlinkDelivers(ms: seq<NoisyInfo>, tail: seq<byte>)
    requires forall m :: m in ms ==> |m.infos| <= 16 && NoPair(m.noise)
    requires NoPair(tail)
    ensures var out := Parse(Stream(InfoWire(ms)) + tail).0;
            && |out| == |ms|
            && forall i :: 0 <= i < |ms| ==>
               out[i].cmd == CMD_ZONE_I_INFO && DecodeZoneInfo(out[i].payload) == Ok(ms[i].infos)
  {
    forall i | 0 <= i < |ms|
      ensures NoPair(InfoWire(ms)[i].noise) && |InfoWire(ms)[i].frame.payload| <= 0xFFFF
      ensures DecodeZoneInfo(InfoWire(ms)[i].frame.payload) == Ok(ms[i].infos)
    {
      InfoSurvives(ms[i].infos);
    }
    BridgeDelivers(InfoWire(ms), tail);
    FramesAt(InfoWire(ms));
  }

  lemma {:induction false} FramesAt(items: seq<Item>)
    ensures |Frames(items)| == |items|
    ensures forall i :: 0 <= i < |items| ==> Frames(items)[i] == items[i].frame
  {
    if items != [] {
      FramesAt(items[1..]);
    }
  }
}
