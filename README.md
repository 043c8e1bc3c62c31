# wellenformer, modelled in Dafny

wellenformer renders an audio file as a PNG image of its waveform. This project models the
three pieces of logic in `src/main.rs` that do not depend on audio decoding or image encoding:

- **The colour-spec parser.** `parse_into_color` and `parse_to_u8` turn a command-line colour
  into an `Rgba<u8>`.
  - The spec is trimmed and lower-cased, then matched against ten keywords.
  - Otherwise it is split on `,` into 1 to 4 channel fields.
  - A field containing `.` is read as an `f32`, clamped to [0, 1] and scaled to [0, 255].
    Any other field is read as a `u32` and clamped to 255.
  - The source panics on a bad field count and exits the process on a bad field. Here both
    failures are error values (`UnknownColor`, `InvalidChannel`) of the total function
    `ColorSpec.ParseColor`.
- **The output-path rule.** `prepare_output_path` makes the output path end in a `png`
  extension, following the Unix rules of Rust's `Path::file_name`, `Path::extension` and
  `PathBuf::set_extension`. `OutputPath.PathBuf` is a class whose `SetExtension` method
  updates the path text in place, and `OutputPath.PrepareOutputPath` clones the path and
  mutates the copy, as the source does.
- **The column aggregator and rasterizer** of `main`.
  - `graph` holds one bar height per sample, and the image has `w = width * oversample`
    columns.
  - Column `x` averages the heights in its window of samples and rounds the mean.
  - `Raster.Rasterize` fills a `w × height` array row by row, the way
    `ImageBuffer::from_fn` does.
  - `Raster.Render` chains the background parse, the foreground parse and the raster, in
    the source's order.

Modules:
- `Text`: the std string operations the parser relies on (`trim`, `to_lowercase`,
  `split`, decimal digit strings).
- `ColorSpec`: the colour parser.
- `OutputPath`: the path rule.
- `Raster`: windows, means and the pixel rule.

Modelling choices:
- Trimming removes characters with the Unicode White_Space property, as `str::trim` does.
- Lower-casing maps the ASCII capitals, and the Kelvin sign (U+212A) to `k`.
- `u32` parsing accepts one optional `+` and values up to `u32::MAX`.
- An `f32` field is read as the exact decimal it denotes, without binary rounding.
- Window bounds and means are computed in `f64` in the source. Here they are exact rationals
  rounded half up (`Raster.RoundDiv`), which is what `f64::round` does on non-negative values.
- An empty window is `0.0 / 0.0`, and NaN `as usize` is 0, so such a column has height 0.

## Model

| member | source | states |
|---|---|---|
| Text.TrimStart | src/main.rs:104 | The result is a suffix of the input that starts with a non-space, and everything removed is whitespace. |
| Text.IsWhitespace | src/main.rs:104 | Defines the characters `str::trim` removes: those with the Unicode White_Space property. |
| Text.TrimEnd | src/main.rs:104 | The result is a prefix of the input that ends with a non-space, and everything removed is whitespace. |
| Text.Trim | src/main.rs:59 | The trimmed text is empty or starts and ends with a non-space. |
| Text.TrimPadded | src/main.rs:59 | Trimming removes exactly the whitespace padding around a text with non-space ends. |
| Text.TrimUnpadded | src/main.rs:104 | Text that neither starts nor ends with whitespace is already trimmed. |
| Text.TrimParts | src/main.rs:104 | Every text is its trimmed form with whitespace on both sides. |
| Text.TrimPadding | src/main.rs:104 | Adding whitespace around a text does not change what it trims to. |
| Text.TrimIdempotent | src/main.rs:104 | Trimming twice is trimming once. |
| Text.LowerChar | src/main.rs:59 | Defines `char::to_lowercase` on the characters whose lower case is an ASCII letter: the ASCII capitals and the Kelvin sign. Every other character is kept. |
| Text.Lower | src/main.rs:59 | Defines `str::to_lowercase` character by character: the same length, and each character lower-cased by `LowerChar`. |
| Text.LowerAppend | src/main.rs:59 | Lower-casing distributes over concatenation. |
| Text.LowerIdempotent | src/main.rs:59 | Lower-casing twice is lower-casing once. |
| Text.LowerTrimCommute | src/main.rs:59 | Lower-casing neither creates nor removes whitespace, so it commutes with trimming. |
| Text.Split | src/main.rs:72 | Splitting always yields at least one piece. |
| Text.SplitPieces | src/main.rs:72 | There is one more piece than there are separators, and no piece contains a separator. |
| Text.SplitJoin | src/main.rs:72 | Joining the pieces with the separator gives back the text. |
| Text.JoinSplit | src/main.rs:72 | Splitting a join of separator-free pieces gives back those pieces. |
| ColorSpec.ParseColor | src/main.rs:58-101 | Defines `parse_into_color`: the spec is trimmed, lower-cased, and then read by `ParseNormalized`. |
| ColorSpec.Normalize | src/main.rs:59 | Defines the matched text: the spec trimmed, then lower-cased. |
| ColorSpec.ParseNormalized | src/main.rs:60-97 | Defines the match: a keyword gives its colour, and any other text is split on `,` and read by `ParseFields`. |
| ColorSpec.Keyword | src/main.rs:60-70 | Defines the ten keyword literals and their RGBA values; any other text is no keyword. |
| ColorSpec.UnsignedDigits | src/main.rs:119 | Defines the digits of a `u32` literal: the text after one optional leading `+`. |
| ColorSpec.ParseUnsigned | src/main.rs:119 | Defines `parse::<u32>()`: a non-empty run of digits after the optional `+`, with a value of at most `u32::MAX`. |
| ColorSpec.SplitSign | src/main.rs:106 | Defines the optional leading `+` or `-` of a float literal. |
| ColorSpec.ParseExponent | src/main.rs:106 | Defines the exponent of a float literal: an optional sign and a non-empty run of digits. |
| ColorSpec.ParseFloat | src/main.rs:106 | Defines `parse::<f32>()` as an exact decimal: a sign, a mantissa and an optional exponent after `e` or `E`. |
| ColorSpec.ParseMantissa | src/main.rs:106 | Defines the mantissa: digits around one optional `.`, with at least one digit. |
| ColorSpec.DecimalToByte | src/main.rs:107 | Defines the clamp and scale of a parsed float: a negative value is 0, otherwise `UnitToByte` of its value. |
| ColorSpec.Clamp | src/main.rs:120 | Defines `num.min(255).max(0) as u8` for a `u32` value. |
| ColorSpec.IndexOf | src/main.rs:106 | The index is that of the first occurrence of the character, or the length when there is none. |
| ColorSpec.IndexOfExponent | src/main.rs:106 | The index is that of the first `e` or `E`, or the length when there is none. |
| ColorSpec.UnitToByte | src/main.rs:107 | A value of at least 1 is 255; below 1 the byte is `255 * v` truncated toward zero. |
| ColorSpec.ParseChannel | src/main.rs:103-131 | A failing field reports the trimmed field text as the error. |
| ColorSpec.ParseTrimmedChannel | src/main.rs:105-131 | A failure in either branch reports the field text. |
| ColorSpec.FloatChannel | src/main.rs:105-117 | A float field that does not parse reports the field text. |
| ColorSpec.IntegerChannelOf | src/main.rs:118-130 | An integer field that does not parse reports the field text. |
| ColorSpec.ParseFields | src/main.rs:72-95 | The result is `UnknownColor` of the spec exactly when the field count is outside 1 to 4. |
| ColorSpec.ReadChannels | src/main.rs:73-94 | Defines the reading of the fields in order with `parse_to_u8`: a successful reading has one byte per field, and a failure is `InvalidChannel`. |
| ColorSpec.ReadChannelsOk | src/main.rs:73-94 | Fields that each read as a byte are read as exactly those bytes, in order. |
| ColorSpec.ReadChannelsFail | src/main.rs:103-130 | The first field that is not a number stops the reading, and its trimmed text is the error. |
| ColorSpec.KeywordShape | src/main.rs:60-70 | Every keyword is a run of lower-case letters, so it contains no comma. |
| ColorSpec.KeywordSpelling | src/main.rs:59-70 | A keyword in any letter case, padded with any whitespace, gives its table colour. |
| ColorSpec.KeywordExact | src/main.rs:60-70 | A keyword as written gives its table colour. |
| ColorSpec.ChannelPadding | src/main.rs:104 | Whitespace around a channel field does not change its value or its error. |
| ColorSpec.SignedDigitsTrimmed | src/main.rs:104 | A run of digits, unsigned or with a leading `+`, is already trimmed. |
| ColorSpec.DigitsWithoutPoint | src/main.rs:105 | A run of digits, unsigned or with a leading `+`, has no `.`, so it takes the integer branch. |
| ColorSpec.UnsignedField | src/main.rs:119-120 | The integer branch reads any run of digits `d`, unsigned or with a leading `+` and with leading zeros allowed, as `min(value(d), 255)` when `value(d) <= u32::MAX`, and fails otherwise. |
| ColorSpec.IntegerChannel | src/main.rs:103-131 | A field that is any run of digits, unsigned or with a leading `+` and with leading zeros allowed (`007` is 7), is its value clamped to 255, or an error above `u32::MAX`. |
| ColorSpec.IntegerText | src/main.rs:105-118 | Trimmed text without `.` goes to the integer branch. |
| ColorSpec.PointMantissa | src/main.rs:106 | `whole.fraction` denotes the digits of both parts times `10^-|fraction|`. |
| ColorSpec.PlainFloat | src/main.rs:106 | After an optional `+` or `-`, a body of only digits and `.` is parsed with exponent 0, and it is negative exactly for `-`. |
| ColorSpec.SignedPoint | src/main.rs:106 | `whole.fraction` after an optional `+` or `-` parses as the digits of both parts times `10^-|fraction|`, negative exactly for `-`. |
| ColorSpec.PointField | src/main.rs:105-107 | The float branch on `-whole.fraction` gives 0, and on `whole.fraction` the value scaled and truncated. |
| ColorSpec.FixedPointByte | src/main.rs:107 | A decimal with `k` fraction digits is `mantissa / 10^k`, clamped to [0, 1] and scaled; a negative one is 0. |
| ColorSpec.FractionChannel | src/main.rs:103-107 | A field `whole.fraction` is 255 from 1 upwards, and below 1 it is 255 times the value, truncated. |
| ColorSpec.NegativeFractionChannel | src/main.rs:107 | A negative fractional field clamps to 0. |
| ColorSpec.FloatNeedsDigit | src/main.rs:106-116 | A float field without any digit is an error. |
| ColorSpec.IntegerNeedsDigit | src/main.rs:119-129 | An integer field without any digit is an error. |
| ColorSpec.ChannelNeedsDigit | src/main.rs:103-131 | A channel field whose trimmed text has no digit is an error carrying that text. |
| ColorSpec.WhitespaceInsensitive | src/main.rs:59 | Whitespace around a spec does not change the colour or the error. |
| ColorSpec.CaseInsensitive | src/main.rs:59 | Specs that differ only in letter case give the same colour or error. |
| ColorSpec.UnknownColorIffManyFields | src/main.rs:72-95 | A spec fails with `UnknownColor` exactly when its normalised text has four or more commas, and the error carries that text. |
| ColorSpec.FieldsOk | src/main.rs:72-94 | Fields that read as 1 to 4 bytes give grey, grey and alpha, RGB, or RGBA, with a missing alpha set to 255. |
| ColorSpec.FieldFails | src/main.rs:72-130 | In a list of 1 to 4 fields, the first field that is not a number makes the whole list fail with `InvalidChannel` of that field, trimmed, whatever the later fields hold. |
| ColorSpec.FieldsOkIff | src/main.rs:72-130 | A list of 1 to 4 fields gives a colour exactly when every field reads as a byte. |
| ColorSpec.ColorFieldFails | src/main.rs:58-130 | A spec that is no keyword and has at most four fields fails with `InvalidChannel` of its first bad field, trimmed. |
| ColorSpec.Expand | src/main.rs:73-94 | Defines the colour of 1 to 4 channel bytes: grey; grey and alpha; RGB; RGBA. A missing alpha is 255. |
| ColorSpec.DigitIsNoKeyword | src/main.rs:60-71 | Text that starts with a digit or `.` is not a keyword. |
| ColorSpec.FormatIsNormal | src/main.rs:59-72 | A printed channel list is unchanged by trimming and lower-casing, and it is split back into its fields. |
| ColorSpec.FormattedChannel | src/main.rs:103-120 | A printed field after whitespace reads back as its value clamped to 255. |
| ColorSpec.FormatRoundTrip | src/main.rs:58-131 | A comma-separated list of 1 to 4 integer channels, with any whitespace after the commas, parses to the colour those clamped values stand for. |
| ColorSpec.TooManyFields | src/main.rs:95 | A list of five or more channels fails with `UnknownColor` of that list. |
| ColorSpec.FractionAlpha | src/main.rs:88-94 | Three integer channels followed by a fixed-point alpha give RGB clamped to 255 and the alpha scaled from [0, 1]. |
| ColorSpec.FractionGrey | src/main.rs:73-76 | A single fixed-point field is an opaque grey of that brightness. |
| ColorSpec.HalfIsTruncated | src/main.rs:103-107 | The field `0.5` reads as 127: the cast truncates and does not round. |
| ColorSpec.HalfChannel | src/main.rs:103-107 | A field with one fraction digit whose digits are worth 5 (`0.5`) reads as 127. |
| ColorSpec.TestStringZeros | src/main.rs:276 | `"0,0,0,0"` is the printed list of four zeros. |
| ColorSpec.TestStringSpacedZeros | src/main.rs:278 | `"0, 0, 0, 0"` is the printed list of four zeros with a space after each comma. |
| ColorSpec.TestStringBlack | src/main.rs:288 | `"0,0,0,255"` is the printed list of 0, 0, 0, 255. |
| ColorSpec.TestStringFloatAlpha | src/main.rs:290 | `"0, 0, 0, 1.0"` is three printed zeros followed by the field `1.0`. |
| ColorSpec.TransparentZeros | src/main.rs:274-279 | Four zeros, with any whitespace after the commas, are clear black. |
| ColorSpec.BlackIntegers | src/main.rs:288-289 | `0, 0, 0, 255`, with any whitespace after the commas, is opaque black. |
| ColorSpec.ByteList | src/main.rs:88-94 | A printed list of four byte values reads back as exactly those bytes. |
| ColorSpec.BlackFloatAlpha | src/main.rs:290-291 | Three zeros and the alpha `1.0` are opaque black. |
| ColorSpec.TestKeywords | src/main.rs:280-293 | `none` and `transparent` are clear black, and `black` is opaque black. |
| ColorSpec.IsTransparent | src/main.rs:274-284 | The four specs of the test `is_transparent` all give `Rgba(0, 0, 0, 0)`. |
| ColorSpec.IsBlack | src/main.rs:286-294 | The three specs of the test `is_black` all give `Rgba(0, 0, 0, 255)`. |
| OutputPath.Trimmed | src/main.rs:155 | The trimmed path is a prefix of the path that does not end in `/`. |
| OutputPath.ComponentStart | src/main.rs:155 | The last component starts just after the last `/`, and it contains no `/`. |
| OutputPath.FileName | src/main.rs:155 | A file name is non-empty and contains no `/`. |
| OutputPath.LastDot | src/main.rs:155 | The index is that of the last `.`, or -1 when there is none. |
| OutputPath.SplitDot | src/main.rs:155-157 | Without an extension the stem is the whole name; with one, the name is `stem.ext` with a non-empty stem and a dot-free extension. |
| OutputPath.FileStem | src/main.rs:155-158 | Defines `Path::file_stem`: the name before its extension, or the whole name if there is none. |
| OutputPath.ExtensionOf | src/main.rs:155-158 | Defines `Path::extension`: the text after the last `.` of the file name, unless that `.` is its first character. |
| OutputPath.WithExtension | src/main.rs:156-159 | Defines `PathBuf::set_extension`: without a file name the path is kept; otherwise it is cut after the stem and `.ext` is appended when `ext` is non-empty. |
| OutputPath.StemEnd | src/main.rs:156-159 | The end of the stem lies within the trimmed path. |
| OutputPath.IsPng | src/main.rs:157 | Defines the extension test: the lower-cased extension is `png`. |
| OutputPath.Prepared | src/main.rs:153-162 | Defines the rule on the path text: a path with a file name whose extension is not `png` in any case gets `.png` appended to its trimmed text, and any other path is kept. |
| OutputPath.PathBuf.Extension | src/main.rs:155 | Defines `extension()` of the path held by the `PathBuf`. |
| OutputPath.PathBuf.constructor | src/main.rs:154 | The new path holds the given text. |
| OutputPath.PathBuf.SetExtension | src/main.rs:156-159 | The path becomes `WithExtension` of the old path, and the result says whether it had a file name. |
| OutputPath.PrepareOutputPath | src/main.rs:153-162 | Cloning the path and mutating the copy with `set_extension` gives exactly `Prepared(path)`. |
| OutputPath.NameAfter | src/main.rs:155 | A non-empty component that ends in neither `/` nor `.`, after a directory part, is the file name. |
| OutputPath.SplitAtDot | src/main.rs:155-157 | `stem.ext`, with a non-empty stem and a non-empty dot-free `ext`, splits at that dot. |
| OutputPath.DirectoryAndName | src/main.rs:155 | The trimmed path is its directory part followed by its file name. |
| OutputPath.UpToStem | src/main.rs:156 | The trimmed path up to the end of the stem is the directory part followed by the stem. |
| OutputPath.StemOfExtension | src/main.rs:157-159 | A path with an extension is its text up to the stem, then `.` and the extension. |
| OutputPath.NoExtension | src/main.rs:155-156 | On a path without an extension, `set_extension("png")` gives the prepared path. |
| OutputPath.OtherExtension | src/main.rs:157-159 | On a path whose extension `e` is not `png` in any case, `set_extension(e + ".png")` gives the prepared path. |
| OutputPath.AppendExtension | src/main.rs:158-159 | After `.e` is appended for a plain `e`, the old file name is the stem and `e` is the extension. |
| OutputPath.Directory | src/main.rs:155 | The directory part is empty or ends with `/`. |
| OutputPath.AppendPng | src/main.rs:156-159 | After `.png` is appended, the old file name is the stem and `png` is the extension. |
| OutputPath.PreparedCases | src/main.rs:155-160 | No extension gives `set_extension("png")`; an extension equal to `png` ignoring case keeps the path; any other `e` gives `set_extension(e + ".png")`. |
| OutputPath.PreparedIsPng | src/main.rs:155-161 | The result's extension lower-cases to `png` exactly when the path has a file name; without one the path is returned unchanged. |
| OutputPath.PreparedIdempotent | src/main.rs:153-162 | Preparing a prepared path changes nothing. |
| OutputPath.PreparedKeepsName | src/main.rs:155-160 | The path is kept, or `.png` is appended to its trimmed text so that the old file name becomes the stem; the directory part is kept either way. |
| OutputPath.SetExtensionRoundTrip | src/main.rs:156-159 | After `set_extension(ext)` with a plain `ext`, `ext` is the extension and the stem is unchanged. |
| OutputPath.StemShape | src/main.rs:155 | The stem of a file name is non-empty and contains no `/`. |
| OutputPath.NamedWithExtension | src/main.rs:155-157 | In `dir/stem.ext`, `stem.ext` is the file name, `stem` the stem and `ext` the extension. |
| OutputPath.WithExtensionShape | src/main.rs:156-159 | `set_extension(ext)` keeps the directory part and the stem, then appends `.ext`. |
| OutputPath.PreparedStemAndExtension | src/main.rs:155-160 | A bare `stem.e` is kept when `e` is `png` in any case, and otherwise gets `.png` appended (`a.jpg` becomes `a.jpg.png`). |
| OutputPath.BareName | src/main.rs:155 | A bare `stem.e` is its own file name and has the extension `e`. |
| OutputPath.PreparedDotFile | src/main.rs:155-156 | A name whose only dot is the leading one has no extension, so `.bashrc` becomes `.bashrc.png`. |
| OutputPath.LeadingDotOnly | src/main.rs:155 | A file name whose last dot is its first character has no extension. |
| OutputPath.PreparedTrailingSeparator | src/main.rs:155-159 | A trailing `/` is dropped when the extension is added (`dir/` becomes `dir.png`), and otherwise it is kept. |
| Raster.WindowStart | src/main.rs:243 | Defines `start_sample_index`: `x * N / w`, rounded half up. |
| Raster.WindowEnd | src/main.rs:244 | Defines `end_sample_index`: `(x + 1) * N / w`, rounded half up, and at most `N`. |
| Raster.Window | src/main.rs:247 | Defines the window: the slice of `graph` from the start to the end of column `x`. |
| Raster.Sum | src/main.rs:247-248 | Defines the sum of a window. |
| Raster.ColumnHeight | src/main.rs:246-248 | Defines a column height: the rounded mean of its window, or 0 for an empty window. |
| Raster.IsForeground | src/main.rs:249 | Defines the pixel test: `height - (y + 1)` is below the column height. |
| Raster.Columns | src/main.rs:206 | Defines the internal width `width * oversample`. |
| Raster.RoundDiv | src/main.rs:243-248 | The result is within half of `a / b`, with halves rounded up. |
| Raster.Quotient | src/main.rs:243-244 | The result is the integer quotient of `a` by `b`. |
| Raster.RoundDivUnique | src/main.rs:243-248 | Only one integer is within half of `a / b`. |
| Raster.RoundDivMonotone | src/main.rs:243-248 | Rounding the quotient is monotone in the dividend. |
| Raster.RoundDivExact | src/main.rs:243-248 | Exact multiples round to themselves. |
| Raster.RoundDivShift | src/main.rs:243-244 | Adding `b` to the dividend adds one to the rounded quotient. |
| Raster.WindowMean | src/main.rs:246-248 | The loop that sums the window gives the column height: the rounded mean of the window, or 0 for an empty window. |
| Raster.Rasterize | src/main.rs:242-254 | The image is `w × height`, and each pixel is the foreground colour exactly when `height - (y + 1)` is below its column's height, and the background colour otherwise. |
| Raster.Render | src/main.rs:202-254 | A bad background spec is the error; otherwise a bad foreground spec is the error; otherwise the image is `width * oversample × height` with the parsed colours placed by the pixel rule. |
| Raster.WindowBounds | src/main.rs:243-247 | Every window slice is in bounds: `start <= end <= N`. |
| Raster.StartAtMost | src/main.rs:243 | Window starts up to column `w` are at most `N`, and start `w` is `N`. |
| Raster.EndIsNextStart | src/main.rs:243-244 | Each window ends where the next one starts. |
| Raster.WindowsTile | src/main.rs:243-244 | The first window starts at 0, each ends where the next starts, and the last ends at `N`. |
| Raster.WindowsPrefix | src/main.rs:243-247 | The first `k` windows, concatenated, are exactly the samples before window `k`. |
| Raster.WindowsCover | src/main.rs:243-247 | All `w` windows, concatenated, are the whole graph, so each sample is used once and in order. |
| Raster.EmptyWindowNeedsFewSamples | src/main.rs:246-248 | An empty window occurs only when there are fewer samples than columns, and its height is 0. |
| Raster.SumBounds | src/main.rs:247-248 | A sum of values between `lo` and `hi` lies between `n * lo` and `n * hi`. |
| Raster.ColumnHeightBounds | src/main.rs:247-248 | A column's height lies between the smallest and the largest height in its window. |
| Raster.ConstantGraph | src/main.rs:247-248 | A constant graph gives that height to every column that has samples. |
| Raster.ForegroundIsBottom | src/main.rs:249 | A pixel is foreground exactly when it lies in the bottom `min(h, height)` rows. |
| Raster.ForegroundMonotone | src/main.rs:249 | A pixel below a foreground pixel is foreground too. |
| Raster.ForegroundRowsPrefix | src/main.rs:249 | Among the first `k` rows, the foreground rows are those at or after row `height - min(h, height)`. |
| Raster.ForegroundCount | src/main.rs:249-253 | A column of height `h` has exactly `min(h, height)` foreground pixels. |

## Left out

- `src/audio.rs` is not part of this model. It only decodes audio through a library: it opens
  the file, probes it and loops over packets.
- The per-sample amplitude scaling and the normalise factor (`src/main.rs:215-239`) are `f32`
  and `f64` arithmetic. `graph` is a given sequence of non-negative heights.
- The parallel map with `rayon` is left out. It only changes how the element-wise map is
  scheduled.
- The Lanczos3 resize and `img.save` (`src/main.rs:256-259`) are library resampling and
  encoding.
- Command-line parsing, the input-file check, the overwrite prompt,
  `create_output_directories`, timing, and printed or coloured messages
  (`src/main.rs:134-150`, `165-200`) are I/O.
- The process exit and the panic of the colour parser are error values. The message texts are
  not modelled.
- Raster.WindowMean: sums over unbounded naturals and does not model the `u32` overflow of
  `sum::<u32>()`.
- Raster.Columns: `width * oversample` is unbounded and does not model the `u32` overflow.
- Raster.RoundDiv: exact rational rounding replaces `f64` division and `round`. It can differ
  from the source only where `f64` rounding error moves a value across a half.
- ColorSpec.UnitToByte: the value is the exact decimal, not the `f32` nearest to it. The clamp
  and the truncating cast agree with the source; binary rounding of fractional fields
  (for example `0.1`) is not modelled.
- ColorSpec.ParseFloat: the literals `inf`, `infinity` and `nan` are not accepted. They contain
  no `.`, so they never reach the float branch.
- Text.LowerChar: only the ASCII capitals and the Kelvin sign are lower-cased. Other non-ASCII
  characters have lower-case forms that are not ASCII letters, and some lower-case to several
  characters. Such specs fail either way, so only the text of the error differs.
- The `expect` on a non-UTF-8 extension (`src/main.rs:157`) is left out, because Dafny strings
  are always valid text.
- OutputPath: only Unix paths, with `/` as the sole separator, are modelled. Windows prefixes
  and `\` separators are not.
