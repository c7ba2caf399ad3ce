# COLMAP export tools, modelled in Dafny

This project models the data handling of four helper scripts. Together they turn
a DROID-SLAM reconstruction into a COLMAP sparse model that a Gaussian-splatting
trainer can load:

- `tools/convert_to_3dgs.py` (`save_colmap`) writes `cameras.txt`, `images.txt`
  and `points3D.txt`. Every frame becomes one image on a single PINHOLE camera,
  named `00000.jpg`, `00001.jpg`, and so on.
- `tools/fix_colmap_formatting.py` rewrites those text files in place:
  - every camera gets id 1;
  - every image's camera id becomes 1;
  - every image metadata line is followed by exactly one empty points line.
- `tools/convert_to_bin.py` reads the text files back (`read_cameras_text`,
  `read_images_text`). It then writes `cameras.bin`, `images.bin` and a
  placeholder `points3D.bin` of 500 random points.
- `tools/extract_metadata.py` (`estimate_fov`) guesses a video's horizontal
  field of view from its make and model tags.

## Modules

| module | file | what it models |
|---|---|---|
| `Text` | text.dfy | `str.strip()`, `str.split()`, `" ".join`, ASCII `str.lower()`, `startswith`, `endswith` and `in`, with whitespace taken as the ASCII characters Python's `isspace` accepts |
| `Numerals` | numerals.dfy | `int()` on a token; the `{n}` and `{n:05d}` formats |
| `OrderedDict` | ordered_dict.dfy | a Python dict with int keys: insertion order, and a re-assigned key that keeps its place |
| `Bytes` | bytes.dfy | the `struct` fields `<B`, `<I`, `<i` and `<Q`, an opaque `<d`, and UTF-8 |
| `SparseText` | sparse_text.dfy | the two text readers |
| `SparseBinary` | sparse_binary.dfy | the three binary writers, plus readers for the files they write |
| `Repair` | repair.dfy | the cameras pass and the images pass of `fix_colmap`, each a function from lines to lines |
| `SlamExport` | slam_export.dfy | the text that `save_colmap` writes, and how that text goes through the other tools |
| `FovEstimate` | fov.dfy | `estimate_fov` |

### Conventions

- A text file is the sequence of its lines. Line terminators are not modelled.
  - Each reader test strips or splits a line, or looks only at its first character, so a terminator changes nothing.
  - Each writer adds a terminator to every line it emits.
- A floating-point field stays the token it was written as.
  - `float()` followed by `struct.pack("<d")` is the function parameter `dbl`.
  - The pose of frame `i` (matrix inverse, then scipy's quaternion) is the function parameter `poseToQT`.
  - The field-of-view formula is the function parameter `fovOf`.
- Inputs that would make the Python code raise are preconditions. These are:
  - a malformed integer field;
  - too few fields;
  - a value out of range for its `struct` field.
- The random draws of `ensure_points3D_binary` are an input.

## Model

| member | source | states |
|---|---|---|
| SparseText.ReadCamerasText | tools/convert_to_bin.py:11-26 | The dict holds one key for each id that some data line carries. Each key maps to the camera of the last data line with that id. Comment lines (a `#` at the very start of the unstripped line) and blank lines count for nothing. |
| SparseText.RepeatedIdKeepsPosition | tools/convert_to_bin.py:25 | A new camera id goes to the end of the key order. A repeated id leaves the key order unchanged. |
| SparseText.SkippedLineIgnored | tools/convert_to_bin.py:18 | Inserting a comment or blank line anywhere leaves the result of the camera reader unchanged. |
| SparseText.RecordStartsIff | tools/convert_to_bin.py:37-59 | The image reader parses line `j` exactly when the stripped line is non-empty, is not a comment and has at least ten tokens, and line `j-1` was not parsed. The line after a parsed line is skipped unread. |
| SparseText.RecordStarts | tools/convert_to_bin.py:37-59 | The parsed lines are in range, are record lines, and are at least two apart. |
| SparseText.ImageEntriesFrom | tools/convert_to_bin.py:50-56 | Entry `a` is the (id, record) of the `a`-th parsed line: tokens 1 to 10 as `image_id, qw, qx, qy, qz, tx, ty, tz, camera_id, name`. |
| SparseText.ExtraTokensIgnored | tools/convert_to_bin.py:50-54 | Two record lines that agree on their first ten tokens give the same entry. |
| SparseText.ReadImagesText | tools/convert_to_bin.py:28-60 | The cursor loop computes the dict that assigns the parsed entries in order. So the last record for an id wins, and the first one fixes its position. |
| OrderedDict.Put | tools/convert_to_bin.py:25 | `d[k] = v`: afterwards `k` maps to `v` and no other key changes. An existing key keeps its place; a new key is appended. |
| OrderedDict.FromPairsKeys | tools/convert_to_bin.py:56 | After a sequence of assignments, the keys are exactly the assigned ids, each once. |
| OrderedDict.FromPairsValues | tools/convert_to_bin.py:56 | After a sequence of assignments, each key holds the last value assigned to it. |
| OrderedDict.FromPairsOrder | tools/convert_to_bin.py:56 | After a sequence of assignments, keys iterate in the order of their first assignment. |
| OrderedDict.FromDistinctPairs | tools/convert_to_bin.py:56 | With no repeated id, the dict lists the entries exactly as assigned. |
| SparseBinary.WriteCamerasBinary | tools/convert_to_bin.py:62-71 | cameras.bin is an 8-byte count equal to the number of cameras, then 24 + 8·(number of params) bytes per camera. What each record holds is stated by `CamerasLayout`. |
| SparseBinary.CamerasRoundTrip | tools/convert_to_bin.py:62-71 | When every camera has four params, a PINHOLE reader decodes the file as written: id, model id 1, width, height and the packed params, in dict order. |
| SparseBinary.CamerasLayout | tools/convert_to_bin.py:62-71 | For every packable dict and any param counts, reading the file with each camera's own param count gives back, in dict order, the id, model id 1, width, height and one packed `d` per param. |
| SparseBinary.CameraModelIdPinhole | tools/convert_to_bin.py:66-68 | Bytes 4..8 of every camera record read as model id 1 (PINHOLE), whatever the camera's model string and param count. |
| SparseBinary.SimplePinholeNotReadable | tools/convert_to_bin.py:66-71 | Because the model id is always PINHOLE, a dict holding one camera whose param count is not four (SIMPLE_PINHOLE's three, OPENCV's eight) gives a file that a PINHOLE reader rejects: with fewer params the bytes run short, with more some are left over. |
| SparseBinary.WriteImagesBinary | tools/convert_to_bin.py:73-84 | images.bin is an 8-byte count, then, per image, 64 fixed bytes, the UTF-8 name, a NUL and an 8-byte zero. |
| SparseBinary.ImagesRoundTrip | tools/convert_to_bin.py:73-84 | When no name contains NUL, a reader that takes each name up to its first NUL decodes every image as written: id, quaternion, translation, camera id, name and zero 2D points, in dict order. |
| SparseBinary.PointsFromLayout | tools/convert_to_bin.py:93-104 | Point `i` sits at byte offset `51·i` of the body and has id `first + i`. |
| SparseBinary.PointFields | tools/convert_to_bin.py:101-104 | A 51-byte point record reads back as: its id; the drawn x, y and z; the three colour bytes; error 0.0; track length 0. |
| SparseBinary.EnsurePoints3DBinary | tools/convert_to_bin.py:86-104 | points3D.bin is 8 + 500·51 bytes. The count field says 500. Record `i` has id `i+1` and the `i`-th draws, with each colour channel below 255. |
| Bytes.U64RoundTrip | tools/convert_to_bin.py:64 | A `<Q` field reads back as the value packed. |
| Bytes.I32RoundTrip | tools/convert_to_bin.py:69 | An `<i` field reads back as the signed value packed. |
| Bytes.Utf8RoundTrip | tools/convert_to_bin.py:80 | `name.encode("utf-8")` decodes back to the name. |
| Bytes.Utf8ZeroFree | tools/convert_to_bin.py:80 | The encoded name contains a zero byte exactly when the name contains NUL. |
| Repair.FixCameras | tools/fix_colmap_formatting.py:24-33 | The cameras pass maps the lines one for one. |
| Repair.FixCamerasLineSpec | tools/fix_colmap_formatting.py:24-33 | A comment or blank line comes out stripped. Any other line comes out as `1` followed by the input's tokens after the first, joined with single spaces, so the camera id becomes 1 and the rest is kept. The result is neither a comment nor blank, and splitting and re-joining it changes nothing. |
| Repair.FixCamerasIdempotent | tools/fix_colmap_formatting.py:24-33 | Running the cameras pass twice gives the same lines as running it once. |
| Repair.FixedCamerasHaveIdOne | tools/fix_colmap_formatting.py:32 | After the pass, the camera reader finds only id 1. It finds id 1 whenever some input line was a data line. |
| Repair.FixImagesAppend | tools/fix_colmap_formatting.py:51-86 | The images pass works line by line: its result on `a + b` is its result on `a` followed by its result on `b`. |
| Repair.FixImagesLineSpec | tools/fix_colmap_formatting.py:51-86 | A comment comes out stripped. A metadata line comes out as two lines. Anything else (a blank line, a points line, junk) is dropped. |
| Repair.FixMetadataLine | tools/fix_colmap_formatting.py:65-81 | A metadata line (at least nine tokens, the last ending in `.jpg`, `.png` or `.jpeg` in any case) comes out as its tokens, with the second-to-last set to 1 and everything else unchanged, single-spaced. An empty line follows it, and the output is again a metadata line. |
| Repair.WithCameraOne | tools/fix_colmap_formatting.py:73 | `parts[-2] = "1"`: the same length, position -2 holds `1`, and every other token is unchanged. |
| Repair.FixLineCounts | tools/fix_colmap_formatting.py:52-81 | For one input line, the output holds that line's comment, stripped, when it is a comment, and nothing else that reads as a comment. It has one line for a comment, two for a metadata line and none otherwise. |
| Repair.FixLineWellPaired | tools/fix_colmap_formatting.py:52-81 | The output for any one line is well paired: a comment alone, or a metadata line followed by an empty line, or nothing. |
| Repair.FixImagesCounts | tools/fix_colmap_formatting.py:51-86 | The comments survive in order. The output has as many lines as there are comments, plus two per metadata line. |
| Repair.FixImagesWellPaired | tools/fix_colmap_formatting.py:79-81 | In the output, every non-comment line is a metadata line followed at once by an empty line. |
| Repair.FixImagesIdempotent | tools/fix_colmap_formatting.py:51-86 | Running the images pass twice gives the same lines as running it once. |
| SlamExport.SaveColmap | tools/convert_to_3dgs.py:9-51 | cameras.txt has 3 lines, points3D.txt has 2, and images.txt has 3 + 2·N. Line `3 + 2i` describes frame `i`, and the line after it is empty. |
| SlamExport.FrameLinesAt | tools/convert_to_3dgs.py:30-42 | Line `2i` of the frame block describes frame `i`, and line `2i+1` is empty. |
| SlamExport.FrameLineEntry | tools/convert_to_3dgs.py:36-41 | The image reader parses a frame line as id `i+1`, the quaternion reordered from scipy's `(x, y, z, w)` to `(w, x, y, z)`, the translation, camera 1 and name `{i:05d}.jpg`. |
| SlamExport.FrameNamesDistinct | tools/convert_to_3dgs.py:40 | Different frames get different image names. |
| SlamExport.EmittedImagesRead | tools/convert_to_3dgs.py:24-42 | Reading the written images.txt back gives exactly one entry per frame, in frame order. |
| SlamExport.EmittedCamerasRead | tools/convert_to_3dgs.py:13-22 | Reading the written cameras.txt back gives the single camera `1 → (PINHOLE, W, H, [fx, fy, cx, cy])`, where `fx, fy, cx, cy` are `K[0,0], K[1,1], K[0,2], K[1,2]`. |
| SlamExport.EmittedImagesRepairStable | tools/convert_to_3dgs.py:24-42 | The images pass leaves the written images.txt unchanged. |
| SlamExport.EmittedCamerasRepairStable | tools/convert_to_3dgs.py:19-22 | The cameras pass leaves the written cameras.txt unchanged. |
| SlamExport.SaveColmapRoundTrip | tools/convert_to_3dgs.py:9-51 | The text `save_colmap` writes is read back as one PINHOLE camera and one image per frame, in order. Both repair passes leave it unchanged. points3D.txt holds only comments. |
| Numerals.DecimalRoundTrip | tools/convert_to_3dgs.py:22 | `int()` of `{n}` gives back `n`. |
| Numerals.ZeroPadRoundTrip | tools/convert_to_3dgs.py:40 | `int()` of `{n:05d}` gives back `n`. |
| Numerals.ZeroPadInjective | tools/convert_to_3dgs.py:40 | `{n:05d}` is injective. |
| Text.SplitJoin | tools/fix_colmap_formatting.py:33 | Splitting `" ".join(parts)` gives back `parts` when every part is a whitespace-free token. |
| Text.StripSpec | tools/fix_colmap_formatting.py:25-26 | `strip()` is empty exactly for an all-whitespace line. Otherwise it neither starts nor ends with whitespace. |
| Text.SplitStrip | tools/convert_to_bin.py:39-44 | Splitting the stripped line gives the same tokens as splitting the line itself. |
| Text.ContainsIff | tools/extract_metadata.py:55-58 | `pattern in s` holds exactly when the pattern occurs at some offset of `s`. |
| FovEstimate.EstimateFov | tools/extract_metadata.py:27-72 | The estimate is the field of view for 24 mm, the one for 26 mm, or the default 73.0. |
| FovEstimate.EstimateFovSpec | tools/extract_metadata.py:55-72 | An iPhone model string that contains `14 pro`, `15 pro` or `16 pro` gets 24 mm. Any other iPhone gets 26 mm. A model without `iphone` in it gets 73.0. |
| FovEstimate.OlderIphone | tools/extract_metadata.py:55-62 | An iPhone model string with no `4`, `5` or `6` in it (such as `iphone 13 pro`) gets 26 mm. |
| FovEstimate.MakeIrrelevant | tools/extract_metadata.py:34-43 | The make tags never change the estimate. |
| FovEstimate.CaseInsensitive | tools/extract_metadata.py:34-41 | Model tags that agree after ASCII lower-casing give the same estimate. |
| FovEstimate.AppleTagFirst | tools/extract_metadata.py:35-41 | A non-empty QuickTime model tag wins over the plain `model` tag. When the QuickTime tag is missing or empty, the plain `model` tag is used, lower-cased, or the empty string when it is missing too. |
| FovEstimate.NoTagsDefault | tools/extract_metadata.py:33 | Without a `format` object, or without tags in it, the estimate is the default 73.0. |

## Left out

- File and process I/O is not modelled. This covers:
  - the existence checks and their warnings;
  - `open`, `readlines` and `writelines`;
  - deleting old `.bin` files;
  - `os.makedirs`;
  - `cv2.imwrite` of the frames;
  - `print` and `tqdm`;
  - the `main` functions and `argparse`;
  - `np.load`;
  - ffprobe (`get_metadata`).
- The readers take lines, and the writers return lines or bytes.
- `float()` and `struct.pack("<d")` are not modelled: they are the parameter `dbl`, and floats stay tokens in text. Float formatting in the f-strings of `save_colmap` is likewise left to the tokens that `poseToQT` and the intrinsics supply.
- The pose math of `save_colmap` (the 4×4 inverse, `R.from_matrix(...).as_quat()`) is not modelled. It is the parameter `poseToQT`, because it is floating-point linear algebra from numpy and scipy.
- SparseText.ReadCamerasText: params are kept as tokens and not converted with `float()`. So a non-numeric param, which raises in Python, is accepted here.
- SparseText.ReadImagesText: the seven pose fields are kept as tokens. A non-numeric pose field, which raises in Python, is accepted here.
- `int()` accepts only an optional sign and ASCII digits, surrounded by no whitespace (tokens have none). Underscores and non-ASCII digits, which Python also accepts, are not modelled.
- Whitespace, `lower()` and `isspace` are ASCII-only. Unicode whitespace and non-ASCII case mapping are not modelled.
- Exceptions raised by the Python code are preconditions, not error results, because the scripts simply crash on them:
  - `ValueError` from a malformed integer field;
  - `IndexError` from a line with too few fields;
  - `struct.error` from a value out of range for its field.
- FovEstimate.EstimateFov: `2 * atan(36 / (2 * f))` in degrees, rounded to two places, is the parameter `fovOf`, because it is floating-point maths. The `13 pro` branch is modelled, and it gives the same 26 mm as the generic one.
- `estimate_fov` looks at `format.tags` only. Stream tags and a non-dict `format` value are not modelled.
- SparseBinary.EnsurePoints3DBinary: the coordinates `rand() * 4 - 2` come in already packed, as three 8-byte fields. Their range is not stated, since it is a property of floats.
- `tools/debug_colmap.py` is not part of this model. It only prints diagnostics.
- The images pass assumes the image name is the last token. A name containing spaces therefore shifts the camera-id field, which the pass sets at index -2. That behaviour is kept as the code has it.
