/** The two passes of tools/fix_colmap_formatting.py, each a function from
    the lines of a file to the lines written back. A line is modelled
    without its terminator: the script strips every line it reads and ends
    every line it writes with a single `\n`. */
module Repair {
  import opened Text
  import opened Numerals
  import opened OrderedDict
  import opened SparseText

  // ---------------------------------------------------------------- cameras

  /** A stripped line that the cameras pass copies through: a comment or a
      blank line. */
  predicate KeptAsIs(s: string) {
    StartsWith(s, "#") || s == []
  }

  /** The cameras pass on one line: comments and blank lines are written
      stripped; any other line has its first token replaced by `1` and its
      tokens re-joined with single spaces. */
  function FixCamerasLine(line: string): string
  {
    var s := Strip(line);
    if KeptAsIs(s) then s
    else
      StrippedLine(line);
      Join(["1"] + Split(s)[1..])
  }

  /** The cameras pass: one output line per input line. */
  function FixCameras(lines: seq<string>): (r: seq<string>)
    ensures |r| == |lines|
    ensures forall i :: 0 <= i < |lines| ==> r[i] == FixCamerasLine(lines[i])
  {
    seq(|lines|, i requires 0 <= i < |lines| => FixCamerasLine(lines[i]))
  }

  /** The token list a rewritten camera line carries. */
  function IdOneTokens(line: string): seq<string>
  {
    if Split(line) == [] then [] else ["1"] + Split(line)[1..]
  }

  lemma IdOneTokensAreTokens(line: string)
    ensures forall i :: 0 <= i < |IdOneTokens(line)| ==> IsToken(IdOneTokens(line)[i])
  {
    var ts := IdOneTokens(line);
    StrippedLine(line);
    forall i | 0 <= i < |ts|
      ensures IsToken(ts[i])
    {
      if i > 0 {
        assert ts[i] == Split(line)[i];
      }
    }
  }

  /** What the cameras pass does to one line, stated against the line as
      read: a comment or blank line comes out stripped; any other line comes
      out as a line whose tokens are the input's with the first one
      replaced by `1`, single-spaced, and which is neither a comment nor
      blank nor surrounded by whitespace. */
  lemma FixCamerasLineSpec(line: string)
    ensures KeptAsIs(Strip(line)) ==> FixCamerasLine(line) == Strip(line)
    ensures !KeptAsIs(Strip(line)) ==>
      && Split(line) != []
      && Split(FixCamerasLine(line)) == ["1"] + Split(line)[1..]
      && Strip(FixCamerasLine(line)) == FixCamerasLine(line)
      && !KeptAsIs(FixCamerasLine(line))
      && FixCamerasLine(line) == Join(["1"] + Split(line)[1..])
      && Join(Split(FixCamerasLine(line))) == FixCamerasLine(line)
  {
    var s := Strip(line);
    if !KeptAsIs(s) {
      StrippedLine(line);
      var ts := IdOneTokens(line);
      assert FixCamerasLine(line) == Join(ts);
      IdOneTokensAreTokens(line);
      JoinedTokens(ts);
      assert Join(ts)[0] == '1';
    }
  }

  /** Running the cameras pass on its own output changes nothing. */
  lemma FixCamerasIdempotent(lines: seq<string>)
    ensures FixCameras(FixCameras(lines)) == FixCameras(lines)
  {
    forall i | 0 <= i < |lines|
      ensures FixCamerasLine(FixCamerasLine(lines[i])) == FixCamerasLine(lines[i])
    {
      FixCamerasLineIdempotent(lines[i]);
    }
  }

  lemma FixCamerasLineIdempotent(line: string)
    ensures FixCamerasLine(FixCamerasLine(line)) == FixCamerasLine(line)
  {
    var f := FixCamerasLine(line);
    FixCamerasLineSpec(line);
    if KeptAsIs(Strip(line)) {
      StripIdem(line);
    } else {
      var ts := IdOneTokens(line);
      assert f == Join(ts) by {
        StrippedLine(line);
      }
      assert Split(Strip(f)) == ts;
      assert ["1"] + ts[1..] == ts;
    }
  }

  /** After the cameras pass, the camera reader sees one camera id only:
      every key of the dict it builds is `1`, and `1` is present as soon as
      the input held one line that is neither a comment nor blank. */
  lemma FixedCamerasHaveIdOne(lines: seq<string>)
    requires CamerasReadable(FixCameras(lines))
    ensures forall k :: k in Keys(ReadCamerasText(FixCameras(lines))) ==> k == 1
    ensures (exists i :: 0 <= i < |lines| && !KeptAsIs(Strip(lines[i])))
        ==> 1 in Keys(ReadCamerasText(FixCameras(lines)))
  {
    var out := FixCameras(lines);
    assert Decimal(1) == "1";
    DecimalRoundTrip(1);
    forall i | 0 <= i < |out| && !CameraSkipped(out[i])
      ensures CameraIdOf(out[i]) == 1
    {
      FixCamerasLineSpec(lines[i]);
      StripIdem(lines[i]);
    }
    if exists i :: 0 <= i < |lines| && !KeptAsIs(Strip(lines[i])) {
      var i :| 0 <= i < |lines| && !KeptAsIs(Strip(lines[i]));
      FixCamerasLineSpec(lines[i]);
      assert !CameraSkipped(out[i]);
      assert DefinesCamera(out, i, 1);
    }
  }

  // ---------------------------------------------------------------- images

  /** A file name the images pass recognises, compared case-insensitively. */
  predicate HasImageSuffix(name: string) {
    var n := Lower(name);
    EndsWith(n, ".jpg") || EndsWith(n, ".png") || EndsWith(n, ".jpeg")
  }

  /** The images pass's guess that a line is an image's metadata line: at
      least nine tokens, the last naming an image file. */
  predicate IsMetadata(parts: seq<string>) {
    |parts| >= 9 && HasImageSuffix(parts[|parts| - 1])
  }

  /** The images pass on one line: a comment is written stripped; a
      metadata line is written with its second-to-last token set to `1`,
      followed by an empty line; anything else is dropped. */
  function FixImagesLine(line: string): seq<string>
  {
    var s := Strip(line);
    if StartsWith(s, "#") then [s]
    else if s == [] then []
    else
      var parts := Split(s);
      if IsMetadata(parts) then [Join(parts[|parts| - 2 := "1"]), ""] else []
  }

  /** The images pass: the per-line outputs, concatenated in order. */
  function FixImages(lines: seq<string>): seq<string>
  {
    if lines == [] then [] else FixImagesLine(lines[0]) + FixImages(lines[1..])
  }

  lemma {:induction false} FixImagesAppend(a: seq<string>, b: seq<string>)
    ensures FixImages(a + b) == FixImages(a) + FixImages(b)
    decreases |a|
  {
    if a == [] {
      assert a + b == b;
    } else {
      assert (a + b)[0] == a[0];
      assert (a + b)[1..] == a[1..] + b;
      FixImagesAppend(a[1..], b);
    }
  }

  /** The input line is kept as a comment. */
  predicate IsCommentLine(line: string) {
    StartsWith(Strip(line), "#")
  }

  /** The input line is recognised as metadata. */
  predicate IsMetadataLine(line: string) {
    !IsCommentLine(line) && IsMetadata(Split(line))
  }

  /** The tokens of a metadata line with the second-to-last set to `1`. */
  function WithCameraOne(parts: seq<string>): (r: seq<string>)
    requires |parts| >= 2
    ensures |r| == |parts| && r[|r| - 2] == "1"
    ensures forall i :: 0 <= i < |parts| && i != |parts| - 2 ==> r[i] == parts[i]
  {
    parts[|parts| - 2 := "1"]
  }

  lemma MetadataRewrite(line: string)
    requires IsMetadataLine(line)
    ensures FixImagesLine(line) == [Join(WithCameraOne(Split(line))), ""]
  {
    var s := Strip(line);
    var parts := Split(line);
    SplitStrip(line);
    assert Split(s) == parts && |parts| >= 9;
    StripSpec(line);
    SplitEmptyIff(line);
    assert s != [];
    assert !StartsWith(s, "#");
    assert WithCameraOne(parts) == parts[|parts| - 2 := "1"];
  }

  lemma MarkedLine(parts: seq<string>)
    requires IsMetadata(parts)
    requires forall i :: 0 <= i < |parts| ==> IsToken(parts[i])
    requires IsToken(parts[0]) && parts[0][0] != '#'
    ensures var m := Join(WithCameraOne(parts));
      Split(m) == WithCameraOne(parts) && Strip(m) == m && IsMetadataLine(m)
  {
    var ts := WithCameraOne(parts);
    JoinedTokens(ts);
    var m := Join(ts);
    assert m[0] == parts[0][0];
    assert ts[|ts| - 1] == parts[|parts| - 1];
  }

  /** One metadata line, as the images pass rewrites it: only the
      second-to-last token changes, and it becomes `1`. */
  lemma FixMetadataLine(line: string)
    requires IsMetadataLine(line)
    ensures |FixImagesLine(line)| == 2
    ensures FixImagesLine(line)[1] == ""
    ensures Split(FixImagesLine(line)[0]) == WithCameraOne(Split(line))
    ensures IsMetadataLine(FixImagesLine(line)[0])
    ensures Strip(FixImagesLine(line)[0]) == FixImagesLine(line)[0]
    ensures Join(Split(FixImagesLine(line)[0])) == FixImagesLine(line)[0]
  {
    MetadataRewrite(line);
    StrippedLine(line);
    MarkedLine(Split(line));
  }

  /** What the images pass does to one line, by kind. */
  lemma FixImagesLineSpec(line: string)
    ensures IsCommentLine(line) ==> FixImagesLine(line) == [Strip(line)]
    ensures !IsCommentLine(line) && !IsMetadataLine(line) ==> FixImagesLine(line) == []
    ensures IsMetadataLine(line) ==> |FixImagesLine(line)| == 2
  {
    SplitStrip(line);
    SplitEmptyIff(line);
    StripSpec(line);
    if IsMetadataLine(line) {
      FixMetadataLine(line);
    }
  }

  /** A line's contribution to `Comments`: itself stripped when it is a
      comment, nothing otherwise. */
  function CommentOf(line: string): seq<string>
  {
    if IsCommentLine(line) then [Strip(line)] else []
  }

  /** The stripped comments of a file, in order. */
  function Comments(lines: seq<string>): seq<string>
  {
    if lines == [] then [] else CommentOf(lines[0]) + Comments(lines[1..])
  }

  function MetadataOf(line: string): nat
  {
    if IsMetadataLine(line) then 1 else 0
  }

  /** The number of lines recognised as metadata. */
  function MetadataCount(lines: seq<string>): nat
  {
    if lines == [] then 0 else MetadataOf(lines[0]) + MetadataCount(lines[1..])
  }

  lemma {:induction false} CommentsAppend(a: seq<string>, b: seq<string>)
    ensures Comments(a + b) == Comments(a) + Comments(b)
    decreases |a|
  {
    if a == [] {
      assert a + b == b;
    } else {
      assert (a + b)[0] == a[0];
      assert (a + b)[1..] == a[1..] + b;
      CommentsAppend(a[1..], b);
    }
  }

  lemma CommentsOfOne(x: string)
    ensures Comments([x]) == CommentOf(x)
  {
    assert Comments([x]) == CommentOf(x) + Comments([]);
  }

  lemma CommentsOfTwo(x: string, y: string)
    ensures Comments([x, y]) == CommentOf(x) + CommentOf(y)
  {
    assert [x, y][1..] == [y];
    CommentsOfOne(y);
  }

  /** The images pass on one line keeps the line's comment and adds two
      lines for a metadata line. */
  lemma FixLineCounts(l: string)
    ensures Comments(FixImagesLine(l)) == CommentOf(l)
    ensures |FixImagesLine(l)| == |CommentOf(l)| + 2 * MetadataOf(l)
  {
    FixImagesLineSpec(l);
    var out := FixImagesLine(l);
    if IsCommentLine(l) {
      StripIdem(l);
      CommentsOfOne(Strip(l));
    } else if IsMetadataLine(l) {
      FixMetadataLine(l);
      assert !IsCommentLine(out[0]);
      assert Strip("") == "";
      assert !IsCommentLine(out[1]);
      assert out == [out[0], out[1]];
      CommentsOfTwo(out[0], out[1]);
    } else {
      assert out == [];
    }
  }

  /** The images pass keeps every comment, stripped and in order; writes two
      lines per metadata line; and drops everything else. */
  lemma {:induction false} FixImagesCounts(lines: seq<string>)
    ensures Comments(FixImages(lines)) == Comments(lines)
    ensures |FixImages(lines)| == |Comments(lines)| + 2 * MetadataCount(lines)
    decreases |lines|
  {
    if lines != [] {
      var l := lines[0];
      FixImagesCounts(lines[1..]);
      FixLineCounts(l);
      CommentsAppend(FixImagesLine(l), FixImages(lines[1..]));
    }
  }

  /** The layout the images pass produces: comments, and metadata lines each
      followed by one empty line, with nothing else. */
  predicate WellPaired(ls: seq<string>)
    decreases |ls|
  {
    ls == []
    || (IsCommentLine(ls[0]) && WellPaired(ls[1..]))
    || (|ls| >= 2 && IsMetadataLine(ls[0]) && ls[1] == "" && WellPaired(ls[2..]))
  }

  lemma {:induction false} WellPairedAppend(a: seq<string>, b: seq<string>)
    requires WellPaired(a) && WellPaired(b)
    ensures WellPaired(a + b)
    decreases |a|
  {
    var ab := a + b;
    if a == [] {
      assert ab == b;
    } else if IsCommentLine(a[0]) && WellPaired(a[1..]) {
      assert ab[0] == a[0] && ab[1..] == a[1..] + b;
      WellPairedAppend(a[1..], b);
      assert IsCommentLine(ab[0]) && WellPaired(ab[1..]);
    } else {
      assert |a| >= 2 && IsMetadataLine(a[0]) && a[1] == "" && WellPaired(a[2..]);
      assert ab[0] == a[0] && ab[1] == a[1] && ab[2..] == a[2..] + b;
      WellPairedAppend(a[2..], b);
      assert |ab| >= 2 && IsMetadataLine(ab[0]) && ab[1] == "" && WellPaired(ab[2..]);
    }
  }

  /** What the images pass writes for one line is well paired. */
  lemma FixLineWellPaired(l: string)
    ensures WellPaired(FixImagesLine(l))
  {
    FixImagesLineSpec(l);
    var out := FixImagesLine(l);
    if IsCommentLine(l) {
      StripIdem(l);
      assert IsCommentLine(out[0]) && out[1..] == [];
      assert WellPaired(out[1..]);
    } else if IsMetadataLine(l) {
      FixMetadataLine(l);
      assert out[2..] == [];
      assert |out| >= 2 && IsMetadataLine(out[0]) && out[1] == "" && WellPaired(out[2..]);
    } else {
      assert out == [];
    }
  }

  /** Whatever the input, the images pass writes a well-paired file. */
  lemma {:induction false} FixImagesWellPaired(lines: seq<string>)
    ensures WellPaired(FixImages(lines))
    decreases |lines|
  {
    if lines != [] {
      FixImagesWellPaired(lines[1..]);
      FixLineWellPaired(lines[0]);
      WellPairedAppend(FixImagesLine(lines[0]), FixImages(lines[1..]));
    }
  }

  /** A metadata line already in the pass's output form is written back
      unchanged, with its empty line after it. */
  lemma MetadataLineStable(m: string)
    requires IsMetadataLine(m) && m == Join(Split(m))
    requires Split(m)[|Split(m)| - 2] == "1"
    ensures FixImagesLine(m) == [m, ""]
  {
    StrippedLine(m);
    var ts := Split(m);
    assert ts[|ts| - 2 := "1"] == ts;
    JoinedTokens(ts);
    assert Strip(m) == m;
    assert FixImagesLine(m) == [Join(ts), ""];
  }

  lemma FixImagesOfTwo(x: string, y: string)
    ensures FixImages([x, y]) == FixImagesLine(x) + FixImagesLine(y)
  {
    assert [x, y][1..] == [y];
    assert FixImages([x, y]) == FixImagesLine(x) + FixImages([y]);
    assert FixImages([y]) == FixImagesLine(y) + FixImages([]);
  }

  lemma CommentLineStable(line: string)
    requires IsCommentLine(line)
    ensures FixImages(FixImagesLine(line)) == FixImagesLine(line)
  {
    var c := Strip(line);
    assert FixImagesLine(line) == [c];
    StripIdem(line);
    assert FixImagesLine(c) == [c];
    assert FixImages([c]) == FixImagesLine(c) + FixImages([]);
  }

  lemma MetadataOutputStable(line: string)
    requires IsMetadataLine(line)
    ensures FixImages(FixImagesLine(line)) == FixImagesLine(line)
  {
    FixMetadataLine(line);
    var out := FixImagesLine(line);
    var m := out[0];
    assert Split(m)[|Split(m)| - 2] == "1";
    MetadataLineStable(m);
    assert FixImagesLine("") == [];
    FixImagesOfTwo(m, "");
    assert out == [m, ""];
  }

  /** The images pass reproduces what it wrote for any one line. */
  lemma FixImagesLineStable(line: string)
    ensures FixImages(FixImagesLine(line)) == FixImagesLine(line)
  {
    if IsCommentLine(line) {
      CommentLineStable(line);
    } else if IsMetadataLine(line) {
      MetadataOutputStable(line);
    } else {
      FixImagesLineSpec(line);
    }
  }

  /** Running the images pass on its own output changes nothing. */
  lemma {:induction false} FixImagesIdempotent(lines: seq<string>)
    ensures FixImages(FixImages(lines)) == FixImages(lines)
    decreases |lines|
  {
    if lines != [] {
      var out := FixImagesLine(lines[0]);
      FixImagesIdempotent(lines[1..]);
      FixImagesAppend(out, FixImages(lines[1..]));
      FixImagesLineStable(lines[0]);
    }
  }
}
