/** Reading the text form of a COLMAP sparse model (`read_cameras_text` and
    `read_images_text` in tools/convert_to_bin.py). A file is its sequence
    of lines; whether a line still carries its terminator makes no
    difference, since every test below either strips or splits it, or looks
    only at its first character. Floating-point fields stay as the tokens
    they were written as. */
module SparseText {
  import opened Wrappers
  import opened Text
  import opened Numerals
  import opened OrderedDict

  /** The value stored per camera: `(model, width, height, params)`. */
  datatype CameraRow = CameraRow(model: string, width: int, height: int, params: seq<string>)

  /** The value stored per image: `(qw, qx, qy, qz, tx, ty, tz, camera_id, name)`. */
  datatype ImageRow = ImageRow(
    qw: string, qx: string, qy: string, qz: string,
    tx: string, ty: string, tz: string,
    cameraId: int, name: string)

  // ---------------------------------------------------------------- cameras

  /** The camera reader skips a line that starts with `#` as read (no
      stripping first) or that is whitespace only. */
  predicate CameraSkipped(line: string) {
    StartsWith(line, "#") || Strip(line) == []
  }

  /** A data line the reader can convert without raising: at least four
      tokens, the first, third and fourth being integers. */
  predicate CameraLineParses(line: string) {
    var p := Split(line);
    |p| >= 4 && ParseInt(p[0]).Some? && ParseInt(p[2]).Some? && ParseInt(p[3]).Some?
  }

  predicate CamerasReadable(lines: seq<string>) {
    forall i :: 0 <= i < |lines| && !CameraSkipped(lines[i]) ==> CameraLineParses(lines[i])
  }

  function CameraIdOf(line: string): int
    requires CameraLineParses(line)
  {
    ParseInt(Split(line)[0]).value
  }

  /** The camera a data line describes: model is the second token, width and
      height the third and fourth, params every token after those. */
  function CameraRowOf(line: string): CameraRow
    requires CameraLineParses(line)
  {
    var p := Split(line);
    CameraRow(p[1], ParseInt(p[2]).value, ParseInt(p[3]).value, p[4..])
  }

  /** Line `i` is a data line carrying camera id `k`. */
  predicate DefinesCamera(lines: seq<string>, i: int, k: int)
    requires CamerasReadable(lines)
  {
    0 <= i < |lines| && !CameraSkipped(lines[i]) && CameraIdOf(lines[i]) == k
  }

  /** Line `i` is the last data line for its camera id. */
  predicate LastForItsId(lines: seq<string>, i: int)
    requires CamerasReadable(lines)
  {
    0 <= i < |lines| && !CameraSkipped(lines[i])
    && forall j :: i < j < |lines| ==> !DefinesCamera(lines, j, CameraIdOf(lines[i]))
  }

  /** What one line contributes: nothing when it is skipped, otherwise the
      assignment `cameras[camera_id] = (model, width, height, params)`. */
  function CameraEntry(line: string): Option<(int, CameraRow)>
    requires CameraSkipped(line) || CameraLineParses(line)
  {
    if CameraSkipped(line) then None else Some((CameraIdOf(line), CameraRowOf(line)))
  }

  function CameraEntries(lines: seq<string>): (es: seq<Option<(int, CameraRow)>>)
    requires CamerasReadable(lines)
    ensures |es| == |lines| && forall i :: 0 <= i < |lines| ==> es[i] == CameraEntry(lines[i])
  {
    seq(|lines|, i requires 0 <= i < |lines| => CameraEntry(lines[i]))
  }

  /** `read_cameras_text`: every data line is assigned to the dict under its
      id, in file order. The dict has one key per id that occurs, and each
      key holds the camera of the last line carrying that id. */
  function ReadCamerasText(lines: seq<string>): (cams: Dict<CameraRow>)
    requires CamerasReadable(lines)
    ensures Valid(cams)
    ensures forall k :: k in Keys(cams) <==> exists i :: DefinesCamera(lines, i, k)
    ensures forall i :: LastForItsId(lines, i) ==>
      Get(cams, CameraIdOf(lines[i])) == Some(CameraRowOf(lines[i]))
  {
    var cams := FromPairs(Present(CameraEntries(lines)));
    FromPairsKeys(Present(CameraEntries(lines)));
    CamerasKeys(lines);
    CamerasValues(lines);
    cams
  }

  /** Line `i` defines camera `k` exactly when its entry assigns `k`. */
  lemma EntryAssigns(lines: seq<string>, i: int, k: int)
    requires CamerasReadable(lines)
    ensures DefinesCamera(lines, i, k) <==> Assigns(CameraEntries(lines), i, k)
  {
  }

  lemma CamerasKeys(lines: seq<string>)
    requires CamerasReadable(lines)
    ensures forall k :: k in Keys(FromPairs(Present(CameraEntries(lines)))) <==>
      exists i :: DefinesCamera(lines, i, k)
  {
    var es := CameraEntries(lines);
    FromPairsKeys(Present(es));
    forall k
      ensures k in KeysOf(Present(es)) <==> exists i :: DefinesCamera(lines, i, k)
    {
      PresentKeys(es, k);
      if exists i :: DefinesCamera(lines, i, k) {
        var i :| DefinesCamera(lines, i, k);
        EntryAssigns(lines, i, k);
      }
      if exists i :: Assigns(es, i, k) {
        var i :| Assigns(es, i, k);
        EntryAssigns(lines, i, k);
      }
    }
  }

  lemma CamerasValues(lines: seq<string>)
    requires CamerasReadable(lines)
    ensures forall i :: LastForItsId(lines, i) ==>
      Get(FromPairs(Present(CameraEntries(lines))), CameraIdOf(lines[i])) == Some(CameraRowOf(lines[i]))
  {
    var es := CameraEntries(lines);
    FromPairsValues(Present(es));
    forall i | LastForItsId(lines, i)
      ensures LastValue(Present(es), CameraIdOf(lines[i])) == Some(CameraRowOf(lines[i]))
    {
      var k := CameraIdOf(lines[i]);
      forall j | i < j < |es| ensures !Assigns(es, j, k) {
        EntryAssigns(lines, j, k);
      }
      PresentLast(es, i);
    }
  }

  lemma ReadablePrefix(lines: seq<string>, n: nat)
    requires CamerasReadable(lines) && n <= |lines|
    ensures CamerasReadable(lines[..n])
  {
    assert forall i :: 0 <= i < n ==> lines[..n][i] == lines[i];
  }

  lemma ReadableSnoc(init: seq<string>, l: string)
    requires CamerasReadable(init) && (CameraSkipped(l) || CameraLineParses(l))
    ensures CamerasReadable(init + [l])
  {
    var all := init + [l];
    assert forall i :: 0 <= i < |init| ==> all[i] == init[i];
    assert all[|init|] == l;
  }

  /** One step of the camera reader: the last line is skipped or assigned. */
  lemma ReadCamerasUnfold(lines: seq<string>)
    requires lines != [] && CamerasReadable(lines)
    ensures CamerasReadable(lines[..|lines| - 1])
    ensures var l := lines[|lines| - 1];
      ReadCamerasText(lines) == if CameraSkipped(l) then ReadCamerasText(lines[..|lines| - 1])
        else Put(ReadCamerasText(lines[..|lines| - 1]), CameraIdOf(l), CameraRowOf(l))
  {
    var n := |lines| - 1;
    var init := lines[..n];
    ReadablePrefix(lines, n);
    var es := CameraEntries(lines);
    assert es == CameraEntries(init) + [CameraEntry(lines[n])];
    PresentSnoc(CameraEntries(init), CameraEntry(lines[n]));
  }

  /** A repeated camera id keeps the position the id first had: appending a
      data line whose id is already present leaves the key order alone, and
      a new id goes to the end. */
  lemma RepeatedIdKeepsPosition(lines: seq<string>, line: string)
    requires CamerasReadable(lines + [line]) && !CameraSkipped(line)
    ensures CamerasReadable(lines)
    ensures var before := Keys(ReadCamerasText(lines));
      var after := Keys(ReadCamerasText(lines + [line]));
      (CameraIdOf(line) in before ==> after == before)
      && (CameraIdOf(line) !in before ==> after == before + [CameraIdOf(line)])
  {
    var all := lines + [line];
    assert all[..|lines|] == lines;
    assert all[|lines|] == line;
    ReadCamerasUnfold(all);
  }

  /** Comment and blank lines change nothing, wherever they stand. */
  lemma {:induction false} SkippedLineIgnored(a: seq<string>, line: string, b: seq<string>)
    requires CameraSkipped(line)
    requires CamerasReadable(a + b)
    ensures CamerasReadable(a + [line] + b)
    ensures ReadCamerasText(a + [line] + b) == ReadCamerasText(a + b)
    decreases |b|
  {
    var with := a + [line] + b;
    var without := a + b;
    if b == [] {
      assert without == a;
      assert with == a + [line];
      ReadableSnoc(a, line);
      ReadCamerasUnfold(with);
      assert with[..|with| - 1] == a;
    } else {
      var m := |b| - 1;
      var with' := a + [line] + b[..m];
      var without' := a + b[..m];
      assert without == without' + [b[m]];
      assert with == with' + [b[m]];
      ReadablePrefix(without, |without'|);
      assert without[..|without'|] == without';
      SkippedLineIgnored(a, line, b[..m]);
      assert without[|without| - 1] == b[m];
      ReadableSnoc(with', b[m]);
      ReadCamerasUnfold(with);
      ReadCamerasUnfold(without);
      assert with[..|with| - 1] == with';
      assert without[..|without| - 1] == without';
    }
  }

  // ----------------------------------------------------------------- images

  /** After stripping, not empty, not a comment, and at least ten tokens:
      the image reader parses such a line when its cursor lands on it. */
  predicate IsImageRecordLine(line: string) {
    var s := Strip(line);
    s != [] && s[0] != '#' && |Split(s)| >= 10
  }

  /** The indices of the lines the image reader parses, starting with its
      cursor at line `i`: a skipped line advances the cursor by one, a parsed
      line by two, so the line after a record is never looked at. */
  function RecordStarts(lines: seq<string>, i: nat): (r: seq<nat>)
    ensures forall a :: 0 <= a < |r| ==> i <= r[a] < |lines| && IsImageRecordLine(lines[r[a]])
    ensures forall a :: 0 <= a < |r| - 1 ==> r[a] + 2 <= r[a + 1]
    decreases |lines| - i
  {
    if i >= |lines| then []
    else if IsImageRecordLine(lines[i]) then [i] + RecordStarts(lines, i + 2)
    else RecordStarts(lines, i + 1)
  }

  /** Which lines the reader parses, without reference to its cursor: line
      `j` is parsed exactly when it is a record line and line `j - 1` was
      not parsed (a parsed line swallows its successor). */
  lemma {:induction false} RecordStartsIff(lines: seq<string>, i: nat, j: int)
    ensures j in RecordStarts(lines, i) <==>
      i <= j < |lines| && IsImageRecordLine(lines[j]) && !(j > i && j - 1 in RecordStarts(lines, i))
    decreases |lines| - i
  {
    if i < |lines| {
      if IsImageRecordLine(lines[i]) {
        if j >= i + 2 {
          RecordStartsIff(lines, i + 2, j);
        }
      } else {
        if j >= i + 1 {
          RecordStartsIff(lines, i + 1, j);
        }
      }
    }
  }

  /** A record line the reader can convert without raising: its first and
      ninth tokens are integers. */
  predicate ImageLineParses(line: string) {
    var p := Split(Strip(line));
    |p| >= 10 && ParseInt(p[0]).Some? && ParseInt(p[8]).Some?
  }

  /** Every line the reader parses converts without raising. */
  predicate ImagesReadableFrom(lines: seq<string>, i: nat) {
    forall j :: j in RecordStarts(lines, i) ==> ImageLineParses(lines[j])
  }

  /** The id and record of a parsed line: tokens one to ten, nothing after. */
  function ImageEntryOf(line: string): (int, ImageRow)
    requires ImageLineParses(line)
  {
    var p := Split(Strip(line));
    (ParseInt(p[0]).value,
     ImageRow(p[1], p[2], p[3], p[4], p[5], p[6], p[7], ParseInt(p[8]).value, p[9]))
  }

  /** Tokens beyond the tenth are ignored. */
  lemma ExtraTokensIgnored(a: string, b: string)
    requires ImageLineParses(a) && ImageLineParses(b)
    requires Split(Strip(a))[..10] == Split(Strip(b))[..10]
    ensures ImageEntryOf(a) == ImageEntryOf(b)
  {
    var p := Split(Strip(a));
    var q := Split(Strip(b));
    assert forall k :: 0 <= k < 10 ==> p[k] == p[..10][k] == q[..10][k] == q[k];
  }

  /** The (id, record) pairs in the order the reader assigns them. */
  function ImageEntriesFrom(lines: seq<string>, i: nat): (r: seq<(int, ImageRow)>)
    requires ImagesReadableFrom(lines, i)
    ensures |r| == |RecordStarts(lines, i)|
    ensures forall a :: 0 <= a < |r| ==> r[a] == ImageEntryOf(lines[RecordStarts(lines, i)[a]])
    decreases |lines| - i
  {
    if i >= |lines| then []
    else if IsImageRecordLine(lines[i]) then
      assert i in RecordStarts(lines, i);
      [ImageEntryOf(lines[i])] + ImageEntriesFrom(lines, i + 2)
    else ImageEntriesFrom(lines, i + 1)
  }

  /** `read_images_text`, as the loop over a line cursor it is. */
  method ReadImagesText(lines: seq<string>) returns (images: Dict<ImageRow>)
    requires ImagesReadableFrom(lines, 0)
    ensures images == FromPairs(ImageEntriesFrom(lines, 0))
  {
    images := Empty();
    var i: nat := 0;
    while i < |lines|
      invariant i <= |lines| + 1
      invariant ImagesReadableFrom(lines, i)
      invariant PutAll(images, ImageEntriesFrom(lines, i)) == FromPairs(ImageEntriesFrom(lines, 0))
      decreases |lines| - i
    {
      var line := Strip(lines[i]);
      if line == [] || line[0] == '#' {
        i := i + 1;
        continue;
      }
      var parts := Split(line);
      if |parts| < 10 {
        i := i + 1;
        continue;
      }
      assert i in RecordStarts(lines, i);
      var imageId := ParseInt(parts[0]).value;
      var row := ImageRow(parts[1], parts[2], parts[3], parts[4], parts[5], parts[6], parts[7],
                          ParseInt(parts[8]).value, parts[9]);
      images := Put(images, imageId, row);
      i := i + 2;
    }
  }
}
