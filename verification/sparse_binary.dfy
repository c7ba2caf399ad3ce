/** The binary form of a COLMAP sparse model as tools/convert_to_bin.py
    writes it (`write_cameras_binary`, `write_images_binary`,
    `ensure_points3D_binary`), together with readers for the files it
    writes, so that what the writers promise can be stated as round trips.
    All fields are little-endian with no padding. A `d` field is an opaque
    8-byte value: turning a token into one (`float(token)` and then
    `struct.pack("<d", ...)`) is the parameter `dbl`. */
module SparseBinary {
  import opened Wrappers
  import opened Bytes
  import opened OrderedDict
  import opened SparseText

  /** COLMAP's model id for PINHOLE, which the writer puts on every camera. */
  const PinholeModelId: int := 1

  /** The number of params a PINHOLE camera has: fx, fy, cx, cy. */
  const PinholeParamCount: nat := 4

  // ------------------------------------------------------- byte-level reads

  /** Split off the first `k` bytes, if there are that many. */
  function Take(bs: seq<byte>, k: nat): Option<(seq<byte>, seq<byte>)>
  {
    if |bs| >= k then Some((bs[..k], bs[k..])) else None
  }

  lemma TakeConcat(a: seq<byte>, b: seq<byte>)
    ensures Take(a + b, |a|) == Some((a, b))
  {
    assert (a + b)[..|a|] == a;
    assert (a + b)[|a|..] == b;
  }

  /** The concatenation of 8-byte fields. */
  function Flatten(blobs: seq<Blob8>): (r: seq<byte>)
    ensures |r| == 8 * |blobs|
  {
    if blobs == [] then [] else blobs[0] + Flatten(blobs[1..])
  }

  /** Read `n` consecutive 8-byte fields. */
  function TakeBlobs(bs: seq<byte>, n: nat): (r: Option<(seq<Blob8>, seq<byte>)>)
    ensures r.Some? ==> |r.value.0| == n
    decreases n
  {
    if n == 0 then Some(([], bs))
    else match Take(bs, 8)
      case None => None
      case Some((b, rest)) =>
        match TakeBlobs(rest, n - 1)
        case None => None
        case Some((more, tail)) => Some(([b] + more, tail))
  }

  lemma {:induction false} TakeBlobsFlatten(blobs: seq<Blob8>, rest: seq<byte>)
    ensures TakeBlobs(Flatten(blobs) + rest, |blobs|) == Some((blobs, rest))
    decreases |blobs|
  {
    if blobs != [] {
      var tail := Flatten(blobs[1..]) + rest;
      assert Flatten(blobs) + rest == blobs[0] + tail;
      TakeConcat(blobs[0], tail);
      assert Take(blobs[0] + tail, 8) == Some((blobs[0], tail));
      TakeBlobsFlatten(blobs[1..], rest);
      assert TakeBlobs(tail, |blobs| - 1) == Some((blobs[1..], rest));
      assert blobs == [blobs[0]] + blobs[1..];
    } else {
      assert Flatten(blobs) + rest == rest;
    }
  }

  /** Read a NUL-terminated byte string, dropping the NUL. */
  function TakeCString(bs: seq<byte>): Option<(seq<byte>, seq<byte>)>
    decreases |bs|
  {
    if bs == [] then None
    else if bs[0] == 0 then Some(([], bs[1..]))
    else match TakeCString(bs[1..])
      case None => None
      case Some((s, rest)) => Some(([bs[0]] + s, rest))
  }

  lemma {:induction false} TakeCStringOf(s: seq<byte>, rest: seq<byte>)
    requires 0 !in s
    ensures TakeCString(s + [0] + rest) == Some((s, rest))
    decreases |s|
  {
    var bs := s + [0] + rest;
    if s == [] {
      assert bs[1..] == rest;
    } else {
      assert bs[1..] == s[1..] + [0] + rest;
      TakeCStringOf(s[1..], rest);
      assert s == [s[0]] + s[1..];
    }
  }

  // ---------------------------------------------------------------- cameras

  function PackAll(ps: seq<string>, dbl: string -> Blob8): (r: seq<Blob8>)
    ensures |r| == |ps| && forall i :: 0 <= i < |ps| ==> r[i] == dbl(ps[i])
  {
    if ps == [] then [] else [dbl(ps[0])] + PackAll(ps[1..], dbl)
  }

  /** What struct can pack for one camera: an `i` id and `Q` sizes. */
  predicate CameraPackable(id: int, row: CameraRow) {
    InI32(id) && 0 <= row.width < Two64 && 0 <= row.height < Two64
  }

  predicate CamerasPackable(cams: Dict<CameraRow>) {
    |cams.entries| < Two64
    && forall i :: 0 <= i < |cams.entries| ==> CameraPackable(cams.entries[i].0, cams.entries[i].1)
  }

  /** One camera: `<iiQQ` with the model id fixed to PINHOLE whatever the
      model string says, then one `d` per parsed param. */
  function CameraBytes(id: int, row: CameraRow, dbl: string -> Blob8): (r: seq<byte>)
    requires CameraPackable(id, row)
    ensures |r| == 24 + 8 * |row.params|
  {
    CameraHead(id, row) + Flatten(PackAll(row.params, dbl))
  }

  /** Bytes one camera takes in cameras.bin. */
  function CameraSize(row: CameraRow): nat {
    24 + 8 * |row.params|
  }

  function CamerasSize(entries: seq<(int, CameraRow)>): nat {
    if entries == [] then 0 else CameraSize(entries[0].1) + CamerasSize(entries[1..])
  }

  function CameraEntriesBytes(entries: seq<(int, CameraRow)>, dbl: string -> Blob8): (r: seq<byte>)
    requires forall i :: 0 <= i < |entries| ==> CameraPackable(entries[i].0, entries[i].1)
    ensures |r| == CamerasSize(entries)
  {
    if entries == [] then []
    else CameraBytes(entries[0].0, entries[0].1, dbl) + CameraEntriesBytes(entries[1..], dbl)
  }

  /** `write_cameras_binary`: a `Q` count, then the cameras in dict order. */
  function WriteCamerasBinary(cams: Dict<CameraRow>, dbl: string -> Blob8): (r: seq<byte>)
    requires CamerasPackable(cams)
    ensures |r| == 8 + CamerasSize(cams.entries)
    ensures FromLE(r[..8]) == Size(cams)
  {
    var count := U64(|cams.entries|);
    U64RoundTrip(|cams.entries|);
    assert (count + CameraEntriesBytes(cams.entries, dbl))[..8] == count;
    count + CameraEntriesBytes(cams.entries, dbl)
  }

  /** A camera as a reader of cameras.bin sees it. */
  datatype DecodedCamera = DecodedCamera(id: int, modelId: int, width: int, height: int, params: seq<Blob8>)

  /** What a reader that takes model id 1 to mean PINHOLE (four params)
      recovers from one written camera. */
  function CameraView(e: (int, CameraRow), dbl: string -> Blob8): DecodedCamera {
    DecodedCamera(e.0, PinholeModelId, e.1.width, e.1.height, PackAll(e.1.params, dbl))
  }

  /** Read one camera record whose param count `n` is known from elsewhere:
      `<iiQQ`, then `n` params. The model id is read and reported, not
      interpreted. */
  function DecodeCameraN(bs: seq<byte>, n: nat): Option<(DecodedCamera, seq<byte>)>
  {
    match Take(bs, 24)
    case None => None
    case Some((head, rest)) =>
      match TakeBlobs(rest, n)
      case None => None
      case Some((params, tail)) =>
        Some((DecodedCamera(FromI32(head[..4]), FromI32(head[4..8]), FromLE(head[8..16]), FromLE(head[16..24]), params), tail))
  }

  /** Read one camera: `<iiQQ`, then as many params as the model id calls
      for; only PINHOLE is known to this reader. */
  function DecodeCamera(bs: seq<byte>): Option<(DecodedCamera, seq<byte>)>
  {
    match DecodeCameraN(bs, PinholeParamCount)
    case None => None
    case Some((c, rest)) => if c.modelId != PinholeModelId then None else Some((c, rest))
  }

  function DecodeCameras(bs: seq<byte>, count: nat): Option<seq<DecodedCamera>>
    decreases count
  {
    if count == 0 then (if bs == [] then Some([]) else None)
    else match DecodeCamera(bs)
      case None => None
      case Some((c, rest)) =>
        match DecodeCameras(rest, count - 1)
        case None => None
        case Some(cs) => Some([c] + cs)
  }

  /** Read a whole cameras.bin; trailing bytes are an error. */
  function DecodeCamerasBinary(bs: seq<byte>): Option<seq<DecodedCamera>>
  {
    match Take(bs, 8)
    case None => None
    case Some((count, rest)) => DecodeCameras(rest, FromLE(count))
  }

  /** Read consecutive camera records, the `i`-th with `counts[i]` params;
      trailing bytes are an error. */
  function DecodeCamerasWith(bs: seq<byte>, counts: seq<nat>): Option<seq<DecodedCamera>>
    decreases |counts|
  {
    if counts == [] then (if bs == [] then Some([]) else None)
    else match DecodeCameraN(bs, counts[0])
      case None => None
      case Some((c, rest)) =>
        match DecodeCamerasWith(rest, counts[1..])
        case None => None
        case Some(cs) => Some([c] + cs)
  }

  /** Read a whole cameras.bin when each camera's param count is supplied by
      the caller: the count field must agree with the number of counts. */
  function DecodeCamerasBinaryWith(bs: seq<byte>, counts: seq<nat>): Option<seq<DecodedCamera>>
  {
    match Take(bs, 8)
    case None => None
    case Some((count, rest)) =>
      if FromLE(count) != |counts| then None else DecodeCamerasWith(rest, counts)
  }

  /** The param count of each camera, in dict order. */
  function ParamCounts(entries: seq<(int, CameraRow)>): (r: seq<nat>)
    ensures |r| == |entries| && forall i :: 0 <= i < |entries| ==> r[i] == |entries[i].1.params|
  {
    if entries == [] then [] else [|entries[0].1.params|] + ParamCounts(entries[1..])
  }

  function CameraViews(entries: seq<(int, CameraRow)>, dbl: string -> Blob8): (r: seq<DecodedCamera>)
    ensures |r| == |entries| && forall i :: 0 <= i < |entries| ==> r[i] == CameraView(entries[i], dbl)
  {
    if entries == [] then [] else [CameraView(entries[0], dbl)] + CameraViews(entries[1..], dbl)
  }

  /** The `<iiQQ` head of a camera record. */
  function CameraHead(id: int, row: CameraRow): (r: seq<byte>)
    requires CameraPackable(id, row)
    ensures |r| == 24
  {
    I32(id) + I32(PinholeModelId) + U64(row.width) + U64(row.height)
  }

  /** The head's four fields read back: the id, PINHOLE, width and height,
      whatever model string and params the camera has. */
  lemma CameraHeadFields(id: int, row: CameraRow)
    requires CameraPackable(id, row)
    ensures var head := CameraHead(id, row);
      FromI32(head[..4]) == id && FromI32(head[4..8]) == PinholeModelId
      && FromLE(head[8..16]) == row.width && FromLE(head[16..24]) == row.height
  {
    Pow256Values();
    var head := CameraHead(id, row);
    assert head[..4] == I32(id);
    assert head[4..8] == I32(PinholeModelId);
    assert head[8..16] == U64(row.width);
    assert head[16..24] == U64(row.height);
    I32RoundTrip(id);
    I32RoundTrip(PinholeModelId);
    U64RoundTrip(row.width);
    U64RoundTrip(row.height);
  }

  /** Every camera record carries model id 1 (PINHOLE) in bytes 4..8, for
      any model string and any number of params. */
  lemma CameraModelIdPinhole(id: int, row: CameraRow, dbl: string -> Blob8)
    requires CameraPackable(id, row)
    ensures FromI32(CameraBytes(id, row, dbl)[4..8]) == PinholeModelId
  {
    var head := CameraHead(id, row);
    var bs := CameraBytes(id, row, dbl);
    assert bs == head + Flatten(PackAll(row.params, dbl));
    assert bs[4..8] == head[4..8];
    CameraHeadFields(id, row);
  }

  /** A record read with its own param count gives back the camera, the
      model id being PINHOLE. */
  lemma DecodeCameraNBytes(id: int, row: CameraRow, dbl: string -> Blob8, rest: seq<byte>)
    requires CameraPackable(id, row)
    ensures DecodeCameraN(CameraBytes(id, row, dbl) + rest, |row.params|) == Some((CameraView((id, row), dbl), rest))
  {
    var head := CameraHead(id, row);
    var blobs := PackAll(row.params, dbl);
    assert CameraBytes(id, row, dbl) + rest == head + (Flatten(blobs) + rest);
    TakeConcat(head, Flatten(blobs) + rest);
    CameraHeadFields(id, row);
    TakeBlobsFlatten(blobs, rest);
  }

  lemma DecodeCameraBytes(id: int, row: CameraRow, dbl: string -> Blob8, rest: seq<byte>)
    requires CameraPackable(id, row) && |row.params| == PinholeParamCount
    ensures DecodeCamera(CameraBytes(id, row, dbl) + rest) == Some((CameraView((id, row), dbl), rest))
  {
    DecodeCameraNBytes(id, row, dbl, rest);
  }

  lemma {:induction false} DecodeCameraEntries(entries: seq<(int, CameraRow)>, dbl: string -> Blob8)
    requires forall i :: 0 <= i < |entries| ==> CameraPackable(entries[i].0, entries[i].1)
    requires forall i :: 0 <= i < |entries| ==> |entries[i].1.params| == PinholeParamCount
    ensures DecodeCameras(CameraEntriesBytes(entries, dbl), |entries|) == Some(CameraViews(entries, dbl))
    decreases |entries|
  {
    if entries != [] {
      var e := entries[0];
      DecodeCameraBytes(e.0, e.1, dbl, CameraEntriesBytes(entries[1..], dbl));
      DecodeCameraEntries(entries[1..], dbl);
    }
  }

  lemma {:induction false} DecodeCameraEntriesWith(entries: seq<(int, CameraRow)>, dbl: string -> Blob8)
    requires forall i :: 0 <= i < |entries| ==> CameraPackable(entries[i].0, entries[i].1)
    ensures DecodeCamerasWith(CameraEntriesBytes(entries, dbl), ParamCounts(entries)) == Some(CameraViews(entries, dbl))
    decreases |entries|
  {
    if entries != [] {
      var e := entries[0];
      DecodeCameraNBytes(e.0, e.1, dbl, CameraEntriesBytes(entries[1..], dbl));
      DecodeCameraEntriesWith(entries[1..], dbl);
      assert ParamCounts(entries)[1..] == ParamCounts(entries[1..]);
    }
  }

  /** The layout of cameras.bin for every packable dict, whatever the
      param counts: read with each camera's param count, the file gives
      back, in dict order, each id, model id 1, width, height and the
      packed params. */
  lemma CamerasLayout(cams: Dict<CameraRow>, dbl: string -> Blob8)
    requires CamerasPackable(cams)
    ensures DecodeCamerasBinaryWith(WriteCamerasBinary(cams, dbl), ParamCounts(cams.entries))
      == Some(CameraViews(cams.entries, dbl))
  {
    var count := U64(|cams.entries|);
    TakeConcat(count, CameraEntriesBytes(cams.entries, dbl));
    U64RoundTrip(|cams.entries|);
    DecodeCameraEntriesWith(cams.entries, dbl);
  }

  /** cameras.bin reads back as written, in dict order, when every camera
      has the four params PINHOLE calls for. */
  lemma CamerasRoundTrip(cams: Dict<CameraRow>, dbl: string -> Blob8)
    requires CamerasPackable(cams)
    requires forall i :: 0 <= i < |cams.entries| ==> |cams.entries[i].1.params| == PinholeParamCount
    ensures DecodeCamerasBinary(WriteCamerasBinary(cams, dbl)) == Some(CameraViews(cams.entries, dbl))
  {
    var count := U64(|cams.entries|);
    TakeConcat(count, CameraEntriesBytes(cams.entries, dbl));
    U64RoundTrip(|cams.entries|);
    DecodeCameraEntries(cams.entries, dbl);
  }

  lemma {:induction false} FlattenAppend(a: seq<Blob8>, b: seq<Blob8>)
    ensures Flatten(a + b) == Flatten(a) + Flatten(b)
    decreases |a|
  {
    if a == [] {
      assert a + b == b;
    } else {
      assert (a + b)[0] == a[0];
      assert (a + b)[1..] == a[1..] + b;
      FlattenAppend(a[1..], b);
    }
  }

  /** The model id is written as PINHOLE whatever the camera's model, so
      the file no longer says how many params follow. A single camera with
      any other number of params than four (SIMPLE_PINHOLE's three, say,
      or OPENCV's eight) gives a file a PINHOLE reader rejects: with fewer
      the bytes run short, with more bytes are left over. */
  lemma SimplePinholeNotReadable(id: int, row: CameraRow, dbl: string -> Blob8)
    requires CameraPackable(id, row) && |row.params| != PinholeParamCount
    ensures DecodeCamerasBinary(WriteCamerasBinary(Dict([(id, row)]), dbl)).None?
  {
    var cams := Dict([(id, row)]);
    Pow256Values();
    var body := CameraEntriesBytes(cams.entries, dbl);
    TakeConcat(U64(1), body);
    U64RoundTrip(1);
    var head := CameraHead(id, row);
    var blobs := PackAll(row.params, dbl);
    assert body == head + Flatten(blobs);
    TakeConcat(head, Flatten(blobs));
    if |blobs| < PinholeParamCount {
      TakeBlobsShort(Flatten(blobs), PinholeParamCount);
    } else {
      var front := blobs[..4];
      var extra := blobs[4..];
      assert front + extra == blobs;
      FlattenAppend(front, extra);
      TakeBlobsFlatten(front, Flatten(extra));
      assert |Flatten(extra)| > 0;
    }
  }

  lemma {:induction false} TakeBlobsShort(bs: seq<byte>, n: nat)
    requires |bs| < 8 * n
    ensures TakeBlobs(bs, n).None?
    decreases n
  {
    if n > 0 && |bs| >= 8 {
      TakeBlobsShort(bs[8..], n - 1);
    }
  }

  // ----------------------------------------------------------------- images

  /** What struct can pack for one image: `I` ids. */
  predicate ImagePackable(id: int, row: ImageRow) {
    0 <= id < Two32 && 0 <= row.cameraId < Two32
  }

  predicate ImagesPackable(imgs: Dict<ImageRow>) {
    |imgs.entries| < Two64
    && forall i :: 0 <= i < |imgs.entries| ==> ImagePackable(imgs.entries[i].0, imgs.entries[i].1)
  }

  /** The seven pose fields in file order: qw, qx, qy, qz, tx, ty, tz. */
  function PoseTokens(row: ImageRow): seq<string> {
    [row.qw, row.qx, row.qy, row.qz, row.tx, row.ty, row.tz]
  }

  /** The fixed 64-byte block `<I4d3dI`: id, quaternion, translation,
      camera id. */
  function ImageHeader(id: int, row: ImageRow, dbl: string -> Blob8): (r: seq<byte>)
    requires ImagePackable(id, row)
    ensures |r| == 64
  {
    U32(id) + Flatten(PackAll(PoseTokens(row), dbl)) + U32(row.cameraId)
  }

  /** One image: the fixed block, the UTF-8 name, a NUL, and a `Q` zero
      points2D count. */
  function ImageBytes(id: int, row: ImageRow, dbl: string -> Blob8): (r: seq<byte>)
    requires ImagePackable(id, row)
    ensures |r| == ImageSize(row)
  {
    ImageHeader(id, row, dbl) + Utf8(row.name) + [0] + U64(0)
  }

  /** Bytes one image takes in images.bin. */
  function ImageSize(row: ImageRow): nat {
    64 + |Utf8(row.name)| + 1 + 8
  }

  function ImagesSize(entries: seq<(int, ImageRow)>): nat {
    if entries == [] then 0 else ImageSize(entries[0].1) + ImagesSize(entries[1..])
  }

  function ImageEntriesBytes(entries: seq<(int, ImageRow)>, dbl: string -> Blob8): (r: seq<byte>)
    requires forall i :: 0 <= i < |entries| ==> ImagePackable(entries[i].0, entries[i].1)
    ensures |r| == ImagesSize(entries)
  {
    if entries == [] then []
    else ImageBytes(entries[0].0, entries[0].1, dbl) + ImageEntriesBytes(entries[1..], dbl)
  }

  /** `write_images_binary`: a `Q` count, then the images in dict order. */
  function WriteImagesBinary(imgs: Dict<ImageRow>, dbl: string -> Blob8): (r: seq<byte>)
    requires ImagesPackable(imgs)
    ensures |r| == 8 + ImagesSize(imgs.entries)
    ensures FromLE(r[..8]) == Size(imgs)
  {
    var count := U64(|imgs.entries|);
    U64RoundTrip(|imgs.entries|);
    assert (count + ImageEntriesBytes(imgs.entries, dbl))[..8] == count;
    count + ImageEntriesBytes(imgs.entries, dbl)
  }

  /** An image as a reader of images.bin sees it. */
  datatype DecodedImage = DecodedImage(
    id: int, q: seq<Blob8>, t: seq<Blob8>, cameraId: int, name: string, points2D: int)

  /** What a reader recovers from one written image. */
  function ImageView(e: (int, ImageRow), dbl: string -> Blob8): DecodedImage {
    var pose := PackAll(PoseTokens(e.1), dbl);
    DecodedImage(e.0, pose[..4], pose[4..], e.1.cameraId, e.1.name, 0)
  }

  /** Bytes per 2D point in COLMAP's images.bin: x, y as `d` and a point id. */
  const Point2DSize: nat := 24

  /** Read the fixed block of one image: id, seven pose fields, camera id. */
  function DecodeImageHeader(bs: seq<byte>): (r: Option<(int, seq<Blob8>, int, seq<byte>)>)
    ensures r.Some? ==> |r.value.1| == 7
  {
    match Take(bs, 4)
    case None => None
    case Some((id, r1)) =>
      match TakeBlobs(r1, 7)
      case None => None
      case Some((pose, r2)) =>
        match Take(r2, 4)
        case None => None
        case Some((cam, r3)) => Some((FromLE(id), pose, FromLE(cam), r3))
  }

  /** Read the variable part of one image: the name up to the first NUL,
      the points2D count and that many 2D points. */
  function DecodeImageTail(bs: seq<byte>): Option<(string, int, seq<byte>)>
  {
    match TakeCString(bs)
    case None => None
    case Some((nameBytes, r4)) =>
      match Utf8Decode(nameBytes)
      case None => None
      case Some(name) =>
        match Take(r4, 8)
        case None => None
        case Some((n2d, r5)) =>
          match Take(r5, Point2DSize * FromLE(n2d))
          case None => None
          case Some((_, r6)) => Some((name, FromLE(n2d), r6))
  }

  /** Read one image. */
  function DecodeImage(bs: seq<byte>): Option<(DecodedImage, seq<byte>)>
  {
    match DecodeImageHeader(bs)
    case None => None
    case Some((id, pose, cam, r3)) =>
      match DecodeImageTail(r3)
      case None => None
      case Some((name, n2d, r6)) => Some((DecodedImage(id, pose[..4], pose[4..], cam, name, n2d), r6))
  }

  function DecodeImages(bs: seq<byte>, count: nat): Option<seq<DecodedImage>>
    decreases count
  {
    if count == 0 then (if bs == [] then Some([]) else None)
    else match DecodeImage(bs)
      case None => None
      case Some((img, rest)) =>
        match DecodeImages(rest, count - 1)
        case None => None
        case Some(imgs) => Some([img] + imgs)
  }

  /** Read a whole images.bin; trailing bytes are an error. */
  function DecodeImagesBinary(bs: seq<byte>): Option<seq<DecodedImage>>
  {
    match Take(bs, 8)
    case None => None
    case Some((count, rest)) => DecodeImages(rest, FromLE(count))
  }

  function ImageViews(entries: seq<(int, ImageRow)>, dbl: string -> Blob8): (r: seq<DecodedImage>)
    ensures |r| == |entries| && forall i :: 0 <= i < |entries| ==> r[i] == ImageView(entries[i], dbl)
  {
    if entries == [] then [] else [ImageView(entries[0], dbl)] + ImageViews(entries[1..], dbl)
  }

  lemma DecodeHeaderBytes(id: int, row: ImageRow, dbl: string -> Blob8, rest: seq<byte>)
    requires ImagePackable(id, row)
    ensures DecodeImageHeader(ImageHeader(id, row, dbl) + rest)
      == Some((id, PackAll(PoseTokens(row), dbl), row.cameraId, rest))
  {
    var pose := PackAll(PoseTokens(row), dbl);
    var r2 := U32(row.cameraId) + rest;
    var r1 := Flatten(pose) + r2;
    assert ImageHeader(id, row, dbl) + rest == U32(id) + r1;
    TakeConcat(U32(id), r1);
    TakeBlobsFlatten(pose, r2);
    TakeConcat(U32(row.cameraId), rest);
    U32RoundTrip(id);
    U32RoundTrip(row.cameraId);
  }

  lemma DecodeTailBytes(name: string, rest: seq<byte>)
    requires '\0' !in name
    ensures DecodeImageTail(Utf8(name) + [0] + U64(0) + rest) == Some((name, 0, rest))
  {
    var r4 := U64(0) + rest;
    assert Utf8(name) + [0] + U64(0) + rest == Utf8(name) + [0] + r4;
    Utf8ZeroFree(name);
    TakeCStringOf(Utf8(name), r4);
    Utf8RoundTrip(name);
    TakeConcat(U64(0), rest);
    U64RoundTrip(0);
    assert Take(rest, 0) == Some(([], rest));
  }

  lemma DecodeImageBytes(id: int, row: ImageRow, dbl: string -> Blob8, rest: seq<byte>)
    requires ImagePackable(id, row) && '\0' !in row.name
    ensures DecodeImage(ImageBytes(id, row, dbl) + rest) == Some((ImageView((id, row), dbl), rest))
  {
    var tail := Utf8(row.name) + [0] + U64(0) + rest;
    assert ImageBytes(id, row, dbl) + rest == ImageHeader(id, row, dbl) + tail;
    DecodeHeaderBytes(id, row, dbl, tail);
    DecodeTailBytes(row.name, rest);
  }

  lemma {:induction false} DecodeImageEntries(entries: seq<(int, ImageRow)>, dbl: string -> Blob8)
    requires forall i :: 0 <= i < |entries| ==> ImagePackable(entries[i].0, entries[i].1)
    requires forall i :: 0 <= i < |entries| ==> '\0' !in entries[i].1.name
    ensures DecodeImages(ImageEntriesBytes(entries, dbl), |entries|) == Some(ImageViews(entries, dbl))
    decreases |entries|
  {
    if entries != [] {
      var e := entries[0];
      DecodeImageBytes(e.0, e.1, dbl, ImageEntriesBytes(entries[1..], dbl));
      DecodeImageEntries(entries[1..], dbl);
    }
  }

  /** images.bin is uniquely decodable: reading each name up to its first
      NUL recovers exactly the written records, in dict order, provided no
      name contains NUL. */
  lemma ImagesRoundTrip(imgs: Dict<ImageRow>, dbl: string -> Blob8)
    requires ImagesPackable(imgs)
    requires forall i :: 0 <= i < |imgs.entries| ==> '\0' !in imgs.entries[i].1.name
    ensures DecodeImagesBinary(WriteImagesBinary(imgs, dbl)) == Some(ImageViews(imgs.entries, dbl))
  {
    var count := U64(|imgs.entries|);
    TakeConcat(count, ImageEntriesBytes(imgs.entries, dbl));
    U64RoundTrip(|imgs.entries|);
    DecodeImageEntries(imgs.entries, dbl);
  }

  // ---------------------------------------------------------------- points

  /** A colour channel from `np.random.randint(0, 255)`, whose upper bound
      is exclusive. */
  type Channel = c: int | 0 <= c < 255

  /** One iteration's random draws: the three coordinates, already packed
      as `d` fields, and the three colour channels. */
  datatype PointDraw = PointDraw(x: Blob8, y: Blob8, z: Blob8, r: Channel, g: Channel, b: Channel)

  /** The number of placeholder points written. */
  const NumPoints: nat := 500

  /** Bytes per point: `<Q3d3Bd` (43) and a `Q` track length (8). */
  const PointSize: nat := 51

  /** One point: id, coordinates, colour, error 0.0, empty track. */
  function PointBytes(id: nat, p: PointDraw): (r: seq<byte>)
    requires id < Two64
    ensures |r| == PointSize
  {
    U64(id) + p.x + p.y + p.z + U8(p.r) + U8(p.g) + U8(p.b) + ZeroDouble + U64(0)
  }

  /** The points for `draws`, numbered from `first`. */
  function PointsFrom(draws: seq<PointDraw>, first: nat): (r: seq<byte>)
    requires first + |draws| <= Two64
    ensures |r| == PointSize * |draws|
    decreases |draws|
  {
    if draws == [] then [] else PointBytes(first, draws[0]) + PointsFrom(draws[1..], first + 1)
  }

  lemma ConcatAssoc(a: seq<byte>, b: seq<byte>, c: seq<byte>)
    ensures a + (b + c) == (a + b) + c
  {
  }

  /** Slicing past the first part of a concatenation. */
  lemma SliceAfter(a: seq<byte>, b: seq<byte>, lo: int, hi: int)
    requires |a| <= lo <= hi <= |a| + |b|
    ensures (a + b)[lo..hi] == b[lo - |a|..hi - |a|]
  {
  }

  /** Point `i` sits at offset `51 * i` and carries id `first + i`. */
  lemma {:induction false} PointsFromLayout(draws: seq<PointDraw>, first: nat, i: nat)
    requires first + |draws| <= Two64
    requires i < |draws|
    ensures PointsFrom(draws, first)[PointSize * i..PointSize * i + PointSize] == PointBytes(first + i, draws[i])
    decreases i
  {
    var head := PointBytes(first, draws[0]);
    var tail := PointsFrom(draws[1..], first + 1);
    PointsFromHead(draws, first);
    if i == 0 {
      assert (head + tail)[..PointSize] == head;
    } else {
      PointsFromLayout(draws[1..], first + 1, i - 1);
      SliceAfter(head, tail, PointSize * i, PointSize * i + PointSize);
    }
  }

  /** A 51-byte point record with the given id and draws, error 0.0 and an
      empty track. */
  ghost predicate PointRecordIs(bs: seq<byte>, id: int, p: PointDraw)
  {
    |bs| == PointSize
    && FromLE(bs[..8]) == id
    && bs[8..16] == p.x && bs[16..24] == p.y && bs[24..32] == p.z
    && bs[32..35] == [p.r, p.g, p.b]
    && bs[35..43] == ZeroDouble
    && FromLE(bs[43..51]) == 0
  }

  /** The fields of one point record, read back. */
  lemma PointFields(id: nat, p: PointDraw)
    requires id < Two64
    ensures PointRecordIs(PointBytes(id, p), id, p)
  {
    var bs := PointBytes(id, p);
    assert bs[..8] == U64(id);
    assert bs[8..16] == p.x;
    assert bs[16..24] == p.y;
    assert bs[24..32] == p.z;
    assert bs[32..35] == [p.r, p.g, p.b];
    assert bs[35..43] == ZeroDouble;
    var front := U64(id) + p.x + p.y + p.z + U8(p.r) + U8(p.g) + U8(p.b) + ZeroDouble;
    assert bs == front + U64(0);
    SliceAfter(front, U64(0), 43, 51);
    assert U64(0)[0..8] == U64(0);
    U64RoundTrip(id);
    U64RoundTrip(0);
  }

  /** `ensure_points3D_binary`, with the random draws as its input: a `Q`
      count of 500, then points with ids 1..500 in order, each with the
      drawn coordinates and colour, error 0.0 and an empty track. */
  method EnsurePoints3DBinary(draws: seq<PointDraw>) returns (out: seq<byte>)
    requires |draws| == NumPoints
    ensures |out| == 8 + NumPoints * PointSize
    ensures FromLE(out[..8]) == NumPoints
    ensures forall i :: 0 <= i < NumPoints ==>
      PointRecordIs(out[8 + PointSize * i..8 + PointSize * i + PointSize], i + 1, draws[i])
  {
    var body := [];
    var i := 0;
    while i < NumPoints
      invariant 0 <= i <= NumPoints
      invariant body == PointsFrom(draws[..i], 1)
    {
      PointsFromStep(draws, i);
      body := body + PointBytes(i + 1, draws[i]);
      i := i + 1;
    }
    assert draws[..NumPoints] == draws;
    out := U64(NumPoints) + body;
    PointsFile(draws);
  }

  lemma PointsFromStep(draws: seq<PointDraw>, i: nat)
    requires i < |draws| <= NumPoints
    ensures PointsFrom(draws[..i + 1], 1) == PointsFrom(draws[..i], 1) + PointBytes(i + 1, draws[i])
  {
    Pow256Values();
    assert draws[..i + 1] == draws[..i] + [draws[i]];
    PointsFromSnoc(draws[..i], draws[i], 1);
  }

  /** The whole points file, read back field by field. */
  lemma PointsFile(draws: seq<PointDraw>)
    requires |draws| == NumPoints
    ensures var out := U64(NumPoints) + PointsFrom(draws, 1);
      && |out| == 8 + NumPoints * PointSize
      && FromLE(out[..8]) == NumPoints
      && forall i :: 0 <= i < NumPoints ==>
        PointRecordIs(out[8 + PointSize * i..8 + PointSize * i + PointSize], i + 1, draws[i])
  {
    var out := U64(NumPoints) + PointsFrom(draws, 1);
    Pow256Values();
    U64RoundTrip(NumPoints);
    assert out[..8] == U64(NumPoints);
    forall i | 0 <= i < NumPoints
      ensures PointRecordIs(out[8 + PointSize * i..8 + PointSize * i + PointSize], i + 1, draws[i])
    {
      PointAt(draws, i);
    }
  }

  /** Record `i` of the file body, read back. */
  lemma PointAt(draws: seq<PointDraw>, i: nat)
    requires |draws| == NumPoints
    requires i < NumPoints
    ensures var out := U64(NumPoints) + PointsFrom(draws, 1);
      PointRecordIs(out[8 + PointSize * i..8 + PointSize * i + PointSize], i + 1, draws[i])
  {
    Pow256Values();
    PointsFromLayout(draws, 1, i);
    SliceAfter(U64(NumPoints), PointsFrom(draws, 1), 8 + PointSize * i, 8 + PointSize * i + PointSize);
    PointFields(i + 1, draws[i]);
  }

  lemma {:induction false} PointsFromSnoc(draws: seq<PointDraw>, p: PointDraw, first: nat)
    requires first + |draws| + 1 <= Two64
    ensures PointsFrom(draws + [p], first) == PointsFrom(draws, first) + PointBytes(first + |draws|, p)
    decreases |draws|
  {
    var longer := draws + [p];
    PointsFromHead(longer, first);
    assert longer[0] == (if draws == [] then p else draws[0]);
    assert longer[1..] == (if draws == [] then [] else draws[1..] + [p]);
    if draws != [] {
      PointsFromHead(draws, first);
      PointsFromSnoc(draws[1..], p, first + 1);
      ConcatAssoc(PointBytes(first, draws[0]), PointsFrom(draws[1..], first + 1), PointBytes(first + |draws|, p));
    }
  }

  lemma PointsFromHead(draws: seq<PointDraw>, first: nat)
    requires draws != [] && first + |draws| <= Two64
    ensures PointsFrom(draws, first) == PointBytes(first, draws[0]) + PointsFrom(draws[1..], first + 1)
  {
  }
}
