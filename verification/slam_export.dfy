/** `save_colmap` in tools/convert_to_3dgs.py: the three COLMAP text files
    written for N frames of a SLAM run. The pose inversion and the
    rotation-to-quaternion conversion are a parameter `poseToQT`, and every
    floating-point value is the whitespace-free token it prints as. */
module SlamExport {
  import opened Text
  import opened Numerals
  import opened OrderedDict
  import opened SparseText
  import opened Repair

  /** `images[i].shape`: height, width, channels. */
  datatype Shape = Shape(height: nat, width: nat, channels: nat)

  /** `Rotation.as_quat()`, whose components come in the order x, y, z, w. */
  datatype ScipyQuat = ScipyQuat(x: Token, y: Token, z: Token, w: Token)

  datatype Vec3 = Vec3(x: Token, y: Token, z: Token)

  /** A frame's world-to-camera rotation and translation. */
  datatype FramePose = FramePose(q: ScipyQuat, t: Vec3)

  /** The lines of `cameras.txt`, `images.txt` and `points3D.txt`. */
  datatype ColmapText = ColmapText(cameras: seq<string>, images: seq<string>, points3D: seq<string>)

  /** A comment line: `#` and its text. */
  function Comment(text: string): string
  {
    "#" + text
  }

  const CamerasHeader: seq<string> := [
    Comment(" Camera list with one line of data per camera:"),
    Comment("   CAMERA_ID, MODEL, WIDTH, HEIGHT, PARAMS[]")]

  const ImagesHeader: seq<string> := [
    Comment(" Image list with two lines of data per image:"),
    Comment("   IMAGE_ID, QW, QX, QY, QZ, TX, TY, TZ, CAMERA_ID, NAME"),
    Comment("   POINTS2D[] as (X, Y, POINT3D_ID)")]

  const PointsHeader: seq<string> := [
    Comment(" 3D point list with one line of data per point:"),
    Comment("   POINT3D_ID, X, Y, Z, R, G, B, ERROR, TRACK[] as (IMAGE_ID, POINT2D_IDX)")]

  /** The intrinsic matrix has the entries `save_colmap` indexes. */
  predicate IsIntrinsics(k: seq<seq<Token>>) {
    |k| >= 2 && |k[0]| >= 3 && |k[1]| >= 3
  }

  /** PINHOLE's `fx, fy, cx, cy`: `K[0,0], K[1,1], K[0,2], K[1,2]`. */
  function PinholeParams(k: seq<seq<Token>>): seq<string>
    requires IsIntrinsics(k)
  {
    [k[0][0], k[1][1], k[0][2], k[1][2]]
  }

  /** The only data line of `cameras.txt`: `1 PINHOLE W H fx fy cx cy`. */
  function CameraLine(shape: Shape, k: seq<seq<Token>>): string
    requires IsIntrinsics(k)
  {
    Join(["1", "PINHOLE", Decimal(shape.width), Decimal(shape.height)] + PinholeParams(k))
  }

  /** `f"{i:05d}.jpg"`. */
  function FrameName(i: nat): string
  {
    ZeroPad5(i) + ".jpg"
  }

  /** The fields of frame `i`'s metadata line, the quaternion reordered to
      w, x, y, z. */
  function FrameTokens(i: nat, p: FramePose): seq<string>
  {
    [Decimal(i + 1), p.q.w, p.q.x, p.q.y, p.q.z, p.t.x, p.t.y, p.t.z, "1", FrameName(i)]
  }

  function FrameLine(i: nat, p: FramePose): string
  {
    Join(FrameTokens(i, p))
  }

  /** The per-frame part of `images.txt`: each frame's metadata line,
      followed by an empty points line. */
  function FrameLines(ps: seq<FramePose>): (r: seq<string>)
    ensures |r| == 2 * |ps|
  {
    if ps == [] then []
    else
      var n := |ps| - 1;
      FrameLines(ps[..n]) + [FrameLine(n, ps[n]), ""]
  }

  /** Line `2i` of the frame block describes frame `i`, line `2i + 1` is
      its empty points line. */
  lemma {:induction false} FrameLinesAt(ps: seq<FramePose>, i: int)
    requires 0 <= i < |ps|
    ensures FrameLines(ps)[2 * i] == FrameLine(i, ps[i]) && FrameLines(ps)[2 * i + 1] == ""
    decreases |ps|
  {
    var n := |ps| - 1;
    var init := FrameLines(ps[..n]);
    assert FrameLines(ps) == init + [FrameLine(n, ps[n]), ""];
    if i < n {
      FrameLinesAt(ps[..n], i);
      assert ps[..n][i] == ps[i];
    }
  }

  lemma FrameLinesAll(ps: seq<FramePose>)
    ensures forall i :: 0 <= i < |ps| ==>
      FrameLines(ps)[2 * i] == FrameLine(i, ps[i]) && FrameLines(ps)[2 * i + 1] == ""
  {
    forall i | 0 <= i < |ps|
      ensures FrameLines(ps)[2 * i] == FrameLine(i, ps[i]) && FrameLines(ps)[2 * i + 1] == ""
    {
      FrameLinesAt(ps, i);
    }
  }

  function ImagesText(ps: seq<FramePose>): seq<string>
  {
    ImagesHeader + FrameLines(ps)
  }

  /** `save_colmap`: the camera comes from the first image's shape and the
      intrinsic matrix; frame `i` is written with id `i + 1`, camera 1 and
      name `f"{i:05d}.jpg"`; no 3D points are written. */
  function SaveColmap<P>(images: seq<Shape>, poses: seq<P>, k: seq<seq<Token>>, poseToQT: P -> FramePose): (out: ColmapText)
    requires |images| >= 1 && |poses| >= |images| && IsIntrinsics(k)
    ensures |out.cameras| == 3 && |out.images| == 3 + 2 * |images| && |out.points3D| == 2
    ensures forall i :: 0 <= i < |images| ==>
      out.images[3 + 2 * i] == FrameLine(i, poseToQT(poses[i])) && out.images[4 + 2 * i] == ""
  {
    var ps := FramePoses(images, poses, poseToQT);
    FrameLinesAll(ps);
    ColmapText(CamerasHeader + [CameraLine(images[0], k)], ImagesText(ps), PointsHeader)
  }

  /** The pose of each frame, as `poseToQT` turns it into `(q, t)`. */
  function FramePoses<P>(images: seq<Shape>, poses: seq<P>, poseToQT: P -> FramePose): (ps: seq<FramePose>)
    requires |poses| >= |images|
    ensures |ps| == |images| && forall i :: 0 <= i < |images| ==> ps[i] == poseToQT(poses[i])
  {
    seq(|images|, i requires 0 <= i < |images| => poseToQT(poses[i]))
  }

  // ----------------------------------------------------------- frame lines

  /** A string with no whitespace at either end is its own stripped form. */
  lemma StripClean(s: string)
    requires s != [] && !IsSpace(s[0]) && !IsSpace(s[|s| - 1])
    ensures Strip(s) == s
  {
    TrimStartNoSpace(s);
    TrimEndNoSpace(s);
  }

  lemma FrameNameToken(i: nat)
    ensures IsToken(FrameName(i))
    ensures Lower(FrameName(i)) == FrameName(i)
    ensures EndsWith(FrameName(i), ".jpg")
  {
    var z := ZeroPad5(i);
    var d := Decimal(i);
    var n := FrameName(i);
    forall j | 0 <= j < |z|
      ensures IsDigit(z[j])
    {
      if j >= |z| - |d| {
        assert z[j] == z[|z| - |d|..][j - (|z| - |d|)];
      }
    }
    forall j | 0 <= j < |n|
      ensures !IsSpace(n[j]) && LowerChar(n[j]) == n[j]
    {
      if j < |z| {
        assert n[j] == z[j];
      }
    }
    assert n[|n| - 4..] == ".jpg";
  }

  lemma FrameTokensAreTokens(i: nat, p: FramePose)
    ensures forall j :: 0 <= j < |FrameTokens(i, p)| ==> IsToken(FrameTokens(i, p)[j])
  {
    var ts := FrameTokens(i, p);
    forall j | 0 <= j < |ts|
      ensures IsToken(ts[j])
    {
      if j == 0 {
        DigitsToken(Decimal(i + 1));
      } else if j == 9 {
        FrameNameToken(i);
      } else if j == 8 {
        SingleCharToken('1');
        assert ts[j] == ['1'];
      } else {
        var t: Token := if j == 1 then p.q.w else if j == 2 then p.q.x
          else if j == 3 then p.q.y else if j == 4 then p.q.z
          else if j == 5 then p.t.x else if j == 6 then p.t.y else p.t.z;
        assert ts[j] == t;
      }
    }
  }

  /** Frame `i`'s metadata line splits back into its ten fields. */
  lemma FrameLineSplits(i: nat, p: FramePose)
    ensures Strip(FrameLine(i, p)) == FrameLine(i, p)
    ensures Split(FrameLine(i, p)) == FrameTokens(i, p)
    ensures FrameLine(i, p)[0] == Decimal(i + 1)[0]
  {
    FrameTokensAreTokens(i, p);
    JoinedTokens(FrameTokens(i, p));
  }

  lemma FrameLineRecord(i: nat, p: FramePose)
    ensures IsImageRecordLine(FrameLine(i, p)) && ImageLineParses(FrameLine(i, p))
  {
    FrameLineSplits(i, p);
    DecimalRoundTrip(i + 1);
    DecimalRoundTrip(1);
    assert Decimal(1) == "1";
    assert IsDigit(Decimal(i + 1)[0]);
  }

  /** The image reader parses frame `i`'s metadata line as image `i + 1`,
      with the quaternion back in w, x, y, z order, camera 1 and the frame's
      file name. */
  lemma FrameLineEntry(i: nat, p: FramePose)
    ensures IsImageRecordLine(FrameLine(i, p)) && ImageLineParses(FrameLine(i, p))
    ensures ImageEntryOf(FrameLine(i, p))
         == (i + 1, ImageRow(p.q.w, p.q.x, p.q.y, p.q.z, p.t.x, p.t.y, p.t.z, 1, FrameName(i)))
  {
    FrameLineSplits(i, p);
    DecimalRoundTrip(i + 1);
    DecimalRoundTrip(1);
    assert Decimal(1) == "1";
    assert IsDigit(Decimal(i + 1)[0]);
  }

  /** Distinct frames get distinct file names. */
  lemma FrameNamesDistinct(i: nat, j: nat)
    requires i != j
    ensures FrameName(i) != FrameName(j)
  {
    ZeroPadInjective(i, j);
    var a := FrameName(i);
    var b := FrameName(j);
    assert a[..|a| - 4] == ZeroPad5(i);
    assert b[..|b| - 4] == ZeroPad5(j);
  }

  // ------------------------------------------------- reading images back

  /** A comment line with nothing to strip. */
  predicate CleanComment(h: string) {
    Strip(h) == h && StartsWith(h, "#")
  }

  lemma HeaderLines()
    ensures forall j :: 0 <= j < |ImagesHeader| ==> CleanComment(ImagesHeader[j])
    ensures forall j :: 0 <= j < |CamerasHeader| ==> CleanComment(CamerasHeader[j])
    ensures forall j :: 0 <= j < |PointsHeader| ==> CleanComment(PointsHeader[j])
  {
    forall j | 0 <= j < |ImagesHeader|
      ensures CleanComment(ImagesHeader[j])
    {
      StripClean(ImagesHeader[j]);
    }
    forall j | 0 <= j < |CamerasHeader|
      ensures CleanComment(CamerasHeader[j])
    {
      StripClean(CamerasHeader[j]);
    }
    forall j | 0 <= j < |PointsHeader|
      ensures CleanComment(PointsHeader[j])
    {
      StripClean(PointsHeader[j]);
    }
  }

  /** Frames `0..n` sit at lines `3 + 2 * a`, each a record line. */
  predicate FrameLayout(lines: seq<string>, n: nat) {
    |lines| == 3 + 2 * n && forall a :: 0 <= a < n ==> IsImageRecordLine(lines[3 + 2 * a])
  }

  /** From line `i = 3 + 2 * k` on, the reader's cursor lands on exactly
      the metadata lines `i + 2 * a`. */
  lemma {:induction false} FrameRecordStarts(lines: seq<string>, n: nat, k: nat, i: nat)
    requires FrameLayout(lines, n) && k <= n && i == 3 + 2 * k
    ensures |RecordStarts(lines, i)| == n - k
    ensures forall a :: 0 <= a < n - k ==> RecordStarts(lines, i)[a] == i + 2 * a
    decreases n - k
  {
    if k < n {
      assert IsImageRecordLine(lines[i]);
      FrameRecordStarts(lines, n, k + 1, i + 2);
      var rest := RecordStarts(lines, i + 2);
      assert RecordStarts(lines, i) == [i] + rest;
    }
  }

  /** Three comment lines in front are skipped one at a time. */
  lemma HeaderSkipped(lines: seq<string>)
    requires |lines| >= 3
    requires CleanComment(lines[0]) && CleanComment(lines[1]) && CleanComment(lines[2])
    ensures RecordStarts(lines, 0) == RecordStarts(lines, 3)
  {
    CommentSkipped(lines, 0);
    CommentSkipped(lines, 1);
    CommentSkipped(lines, 2);
  }

  lemma CommentSkipped(lines: seq<string>, i: nat)
    requires i < |lines| && CleanComment(lines[i])
    ensures RecordStarts(lines, i) == RecordStarts(lines, i + 1)
  {
    assert Strip(lines[i])[0] == '#';
    assert !IsImageRecordLine(lines[i]);
  }

  /** `lines` is the emitted image file for the frames `ps`. */
  predicate EmittedImages(lines: seq<string>, ps: seq<FramePose>) {
    && |lines| == 3 + 2 * |ps|
    && CleanComment(lines[0]) && CleanComment(lines[1]) && CleanComment(lines[2])
    && forall a :: 0 <= a < |ps| ==> lines[3 + 2 * a] == FrameLine(a, ps[a])
  }

  lemma ImagesTextLines(ps: seq<FramePose>)
    ensures EmittedImages(ImagesText(ps), ps)
  {
    var f := FrameLines(ps);
    var lines := ImagesText(ps);
    HeaderLines();
    assert lines[..3] == ImagesHeader;
    forall a | 0 <= a < |ps|
      ensures lines[3 + 2 * a] == FrameLine(a, ps[a])
    {
      FrameLinesAt(ps, a);
      assert lines[3 + 2 * a] == f[2 * a];
    }
  }

  lemma ImageRecordStarts(lines: seq<string>, ps: seq<FramePose>)
    requires EmittedImages(lines, ps)
    ensures |RecordStarts(lines, 0)| == |ps|
    ensures forall a :: 0 <= a < |ps| ==> RecordStarts(lines, 0)[a] == 3 + 2 * a
  {
    forall a | 0 <= a < |ps|
      ensures IsImageRecordLine(lines[3 + 2 * a])
    {
      FrameLineRecord(a, ps[a]);
    }
    assert FrameLayout(lines, |ps|);
    HeaderSkipped(lines);
    FrameRecordStarts(lines, |ps|, 0, 3);
  }

  /** The records `read_images_text` should find in the emitted file. */
  function ExpectedImages(ps: seq<FramePose>): seq<(int, ImageRow)>
  {
    seq(|ps|, i requires 0 <= i < |ps| =>
      (i + 1, ImageRow(ps[i].q.w, ps[i].q.x, ps[i].q.y, ps[i].q.z,
                       ps[i].t.x, ps[i].t.y, ps[i].t.z, 1, FrameName(i))))
  }

  lemma EmittedReadable(lines: seq<string>, ps: seq<FramePose>)
    requires EmittedImages(lines, ps)
    ensures ImagesReadableFrom(lines, 0)
  {
    ImageRecordStarts(lines, ps);
    FramesParse(ps);
    var starts := RecordStarts(lines, 0);
    forall j | j in starts
      ensures ImageLineParses(lines[j])
    {
      var a :| 0 <= a < |starts| && starts[a] == j;
      assert lines[j] == FrameLine(a, ps[a]);
    }
  }

  lemma FramesParse(ps: seq<FramePose>)
    ensures forall a :: 0 <= a < |ps| ==> ImageLineParses(FrameLine(a, ps[a]))
  {
    forall a | 0 <= a < |ps|
      ensures ImageLineParses(FrameLine(a, ps[a]))
    {
      FrameLineRecord(a, ps[a]);
    }
  }

  lemma EmittedEntries(lines: seq<string>, ps: seq<FramePose>)
    requires EmittedImages(lines, ps)
    ensures ImagesReadableFrom(lines, 0)
    ensures ImageEntriesFrom(lines, 0) == ExpectedImages(ps)
  {
    EmittedReadable(lines, ps);
    ImageRecordStarts(lines, ps);
    var es := ImageEntriesFrom(lines, 0);
    forall a | 0 <= a < |ps|
      ensures es[a] == ExpectedImages(ps)[a]
    {
      EmittedEntryAt(lines, ps, a);
    }
  }

  lemma EmittedEntryAt(lines: seq<string>, ps: seq<FramePose>, a: nat)
    requires EmittedImages(lines, ps) && ImagesReadableFrom(lines, 0)
    requires a < |ps| && a < |RecordStarts(lines, 0)| && RecordStarts(lines, 0)[a] == 3 + 2 * a
    ensures a < |ImageEntriesFrom(lines, 0)|
    ensures ImageEntriesFrom(lines, 0)[a] == ExpectedImages(ps)[a]
  {
    var line := lines[3 + 2 * a];
    assert line == FrameLine(a, ps[a]);
    FrameLineEntry(a, ps[a]);
    assert ImageEntriesFrom(lines, 0)[a] == ImageEntryOf(line);
  }

  /** Reading the emitted `images.txt` back yields exactly N records, with
      ids 1..N in frame order, camera 1, the frame names and the quaternion
      in w, x, y, z order. */
  lemma EmittedImagesRead(ps: seq<FramePose>)
    ensures ImagesReadableFrom(ImagesText(ps), 0)
    ensures FromPairs(ImageEntriesFrom(ImagesText(ps), 0)).entries == ExpectedImages(ps)
  {
    ImagesTextLines(ps);
    EmittedEntries(ImagesText(ps), ps);
    ExpectedImagesDistinct(ps);
    FromDistinctPairs(ExpectedImages(ps));
  }

  lemma ExpectedImagesDistinct(ps: seq<FramePose>)
    ensures Distinct(KeysOf(ExpectedImages(ps)))
  {
    var want := ExpectedImages(ps);
    forall a, b | 0 <= a < b < |want|
      ensures KeysOf(want)[a] != KeysOf(want)[b]
    {
      assert KeysOf(want)[a] == a + 1;
      assert KeysOf(want)[b] == b + 1;
    }
  }

  // ------------------------------------------------- repair leaves it be

  lemma FrameLineStable(i: nat, p: FramePose)
    ensures FixImagesLine(FrameLine(i, p)) == [FrameLine(i, p), ""]
  {
    FrameLineIsMetadata(i, p);
    FrameLineSplits(i, p);
    MetadataLineStable(FrameLine(i, p));
  }

  /** The images pass takes a frame line for an image's metadata line. */
  lemma FrameLineIsMetadata(i: nat, p: FramePose)
    ensures IsMetadataLine(FrameLine(i, p))
  {
    FrameLineNotComment(i, p);
    FrameLineSplits(i, p);
    FrameNameToken(i);
    assert Split(FrameLine(i, p))[9] == FrameName(i);
  }

  lemma FrameLineNotComment(i: nat, p: FramePose)
    ensures !IsCommentLine(FrameLine(i, p))
  {
    var m := FrameLine(i, p);
    FrameLineSplits(i, p);
    assert IsDigit(Decimal(i + 1)[0]);
    StartsWithChar(m, '#');
  }

  lemma {:induction false} FrameLinesStable(ps: seq<FramePose>)
    ensures FixImages(FrameLines(ps)) == FrameLines(ps)
    decreases |ps|
  {
    if ps != [] {
      var n := |ps| - 1;
      var m := FrameLine(n, ps[n]);
      assert FrameLines(ps) == FrameLines(ps[..n]) + [m, ""];
      FrameLinesStable(ps[..n]);
      FixImagesAppend(FrameLines(ps[..n]), [m, ""]);
      FramePairStable(n, ps[n]);
    }
  }

  /** A frame line and its empty points line come through the images pass
      unchanged. */
  lemma FramePairStable(i: nat, p: FramePose)
    ensures FixImages([FrameLine(i, p), ""]) == [FrameLine(i, p), ""]
  {
    FrameLineStable(i, p);
    BlankLineDropped();
    FixImagesOfTwo(FrameLine(i, p), "");
  }

  lemma BlankLineDropped()
    ensures FixImagesLine("") == []
  {
    assert Strip("") == [];
  }

  lemma {:induction false} CommentsStable(h: seq<string>)
    requires forall j :: 0 <= j < |h| ==> CleanComment(h[j])
    ensures FixImages(h) == h
    decreases |h|
  {
    if h != [] {
      assert forall j :: 0 <= j < |h| - 1 ==> h[1..][j] == h[j + 1];
      CommentsStable(h[1..]);
      CleanCommentKept(h[0]);
    }
  }

  lemma CleanCommentKept(c: string)
    requires CleanComment(c)
    ensures FixImagesLine(c) == [c]
  {
  }

  /** The images repair pass leaves the emitted `images.txt` unchanged. */
  lemma EmittedImagesRepairStable(ps: seq<FramePose>)
    ensures FixImages(ImagesText(ps)) == ImagesText(ps)
  {
    HeaderLines();
    CommentsStable(ImagesHeader);
    FrameLinesStable(ps);
    FixImagesAppend(ImagesHeader, FrameLines(ps));
  }

  // ------------------------------------------------------------- cameras

  lemma CameraLineSplits(shape: Shape, k: seq<seq<Token>>)
    requires IsIntrinsics(k)
    ensures Strip(CameraLine(shape, k)) == CameraLine(shape, k)
    ensures Split(CameraLine(shape, k))
         == ["1", "PINHOLE", Decimal(shape.width), Decimal(shape.height)] + PinholeParams(k)
    ensures CameraLine(shape, k)[0] == '1'
  {
    var ts := ["1", "PINHOLE", Decimal(shape.width), Decimal(shape.height)] + PinholeParams(k);
    DigitsToken(Decimal(shape.width));
    DigitsToken(Decimal(shape.height));
    assert forall j :: 0 <= j < |ts| ==> IsToken(ts[j]);
    JoinedTokens(ts);
  }

  /** Reading the emitted `cameras.txt` back yields one PINHOLE camera with
      id 1, the first image's width and height, and `fx, fy, cx, cy`. */
  lemma EmittedCamerasRead(shape: Shape, k: seq<seq<Token>>)
    requires IsIntrinsics(k)
    ensures CamerasReadable(CamerasHeader + [CameraLine(shape, k)])
    ensures ReadCamerasText(CamerasHeader + [CameraLine(shape, k)]).entries
         == [(1, CameraRow("PINHOLE", shape.width, shape.height, PinholeParams(k)))]
  {
    var lines := CamerasHeader + [CameraLine(shape, k)];
    CameraFileLines(shape, k);
    var d := ReadCamerasText(lines);
    assert LastForItsId(lines, 2);
    assert Keys(d) == [1] by {
      assert forall key :: key in Keys(d) <==> key == 1;
      DistinctSingleton(Keys(d), 1);
    }
  }

  /** The emitted `cameras.txt`: two skipped comment lines and one data
      line for camera 1. */
  lemma CameraFileLines(shape: Shape, k: seq<seq<Token>>)
    requires IsIntrinsics(k)
    ensures var lines := CamerasHeader + [CameraLine(shape, k)];
      && CamerasReadable(lines)
      && (forall i, key :: DefinesCamera(lines, i, key) <==> i == 2 && key == 1)
      && CameraRowOf(lines[2]) == CameraRow("PINHOLE", shape.width, shape.height, PinholeParams(k))
  {
    var lines := CamerasHeader + [CameraLine(shape, k)];
    var c := CameraLine(shape, k);
    HeaderLines();
    CameraLineParsed(shape, k);
    assert lines[0] == CamerasHeader[0] && lines[1] == CamerasHeader[1] && lines[2] == c;
    assert CameraSkipped(lines[0]) && CameraSkipped(lines[1]);
  }

  lemma CameraLineParsed(shape: Shape, k: seq<seq<Token>>)
    requires IsIntrinsics(k)
    ensures !CameraSkipped(CameraLine(shape, k)) && CameraLineParses(CameraLine(shape, k))
    ensures CameraIdOf(CameraLine(shape, k)) == 1
    ensures CameraRowOf(CameraLine(shape, k)) == CameraRow("PINHOLE", shape.width, shape.height, PinholeParams(k))
  {
    CameraLineSplits(shape, k);
    DecimalRoundTrip(1);
    assert Decimal(1) == "1";
    DecimalRoundTrip(shape.width);
    DecimalRoundTrip(shape.height);
  }

  lemma DistinctSingleton(ks: seq<int>, k: int)
    requires Distinct(ks)
    requires forall x :: x in ks <==> x == k
    ensures ks == [k]
  {
    assert k in ks;
    assert ks[0] in ks && ks[|ks| - 1] in ks;
  }

  /** The cameras repair pass leaves the emitted `cameras.txt` unchanged. */
  lemma EmittedCamerasRepairStable(shape: Shape, k: seq<seq<Token>>)
    requires IsIntrinsics(k)
    ensures FixCameras(CamerasHeader + [CameraLine(shape, k)]) == CamerasHeader + [CameraLine(shape, k)]
  {
    var lines := CamerasHeader + [CameraLine(shape, k)];
    var c := CameraLine(shape, k);
    HeaderLines();
    CameraLineSplits(shape, k);
    assert !KeptAsIs(c);
    FixCamerasLineSpec(c);
    var ts := Split(c);
    assert ["1"] + ts[1..] == ts;
    assert FixCamerasLine(c) == Join(ts) by {
      assert Split(Strip(c)) == ts;
    }
    forall j | 0 <= j < |lines|
      ensures FixCamerasLine(lines[j]) == lines[j]
    {
      if j < 2 {
        assert lines[j] == CamerasHeader[j];
      }
    }
  }

  // --------------------------------------------------------------- whole

  /** What `save_colmap` writes, composed with the readers and the repair
      passes: the camera file reads back as the one PINHOLE camera, the
      image file as frames 1..N with camera 1 and distinct names, neither
      file is changed by the repair passes, and `points3D.txt` holds only
      comments. */
  lemma SaveColmapRoundTrip<P>(images: seq<Shape>, poses: seq<P>, k: seq<seq<Token>>, poseToQT: P -> FramePose)
    requires |images| >= 1 && |poses| >= |images| && IsIntrinsics(k)
    ensures var out := SaveColmap(images, poses, k, poseToQT);
      && CamerasReadable(out.cameras)
      && ReadCamerasText(out.cameras).entries
         == [(1, CameraRow("PINHOLE", images[0].width, images[0].height, PinholeParams(k)))]
      && FixCameras(out.cameras) == out.cameras
      && ImagesReadableFrom(out.images, 0)
      && FromPairs(ImageEntriesFrom(out.images, 0)).entries == ExpectedImages(FramePoses(images, poses, poseToQT))
      && FixImages(out.images) == out.images
      && forall j :: 0 <= j < |out.points3D| ==> StartsWith(out.points3D[j], "#")
  {
    var ps := FramePoses(images, poses, poseToQT);
    var out := SaveColmap(images, poses, k, poseToQT);
    assert out.cameras == CamerasHeader + [CameraLine(images[0], k)];
    assert out.images == ImagesText(ps);
    assert out.points3D == PointsHeader;
    EmittedCamerasRead(images[0], k);
    EmittedCamerasRepairStable(images[0], k);
    EmittedImagesRead(ps);
    EmittedImagesRepairStable(ps);
    HeaderLines();
  }
}
