# root2pdf core, modelled in Dafny

root2pdf turns a rendered HTML element into an A4 PDF. The capture library
(html2canvas) reports the element as a tree of nodes. Each node has pixel
bounds, computed styles, an optional image `src`, text runs wrapped into
lines, and child nodes. `index.js` walks that tree once, in document
order, and issues drawing calls on a jsPDF document:

- a filled rectangle for a background colour;
- an `addImage` for an inline JPEG, PNG or WebP image, or for an inline
  SVG drawn onto a canvas;
- a text colour, a font size and one `text` call per wrapped line for
  each text run.

Pixel coordinates become page millimetres through one ratio. The ratio
makes the root's width fill the page's content width. Positions are also
shifted by the root's offset and by the PDF padding. Font sizes are
converted on to points.

The model has four modules:

- `Color`: `color2rgb`, following the source's route through a
  zero-padded lower-case hex string and `parseInt`. It proves that this
  route is byte arithmetic on the packed RGBA integer and that alpha is
  dropped.
- `Geometry`: `setPx2mmRatio`, `setOffset` and the transforms
  `transformLeft`, `transformTop`, `transformSize`, `transformSize2pt`
  and `fontSize2px`. Arithmetic is exact (`real`). The source's
  module-level variables are the fields of an explicit `Context`.
- `ImageSource`: how `renderImage` decides what to do with a `src`. This
  includes the regular expression `/^data\:image\/(.+)\;/`, whose greedy
  group ends at the last `;` before the first line terminator, and the
  throw when the group does not match.
- `Paint`: `renderElment` and the four render functions. They produce a
  log of drawing commands. A reference definition replays the nodes in
  pre-order, and the walk is proved equal to it. The walk is also proved
  to keep every fill paired with its colour, to keep text lines in order,
  and to stop at the first throwing node.

`Optional` holds the `Option` type. It is used for an absent `src`, for a
failed `parseInt` and for a failed regular-expression match.

## Model

| member | source | states |
|---|---|---|
| Color.ToHex | index.js:179 | `toString(16)` yields at least one hex digit, with no leading zero unless the number is zero |
| Color.ToHexLowerCase | index.js:179 | every digit `toString(16)` writes is `0`-`9` or `a`-`f` |
| Color.ToHexValue | index.js:179 | reading the hex string back gives the number: the string is exactly the base-16 numeral |
| Color.ToHexLength | index.js:179-180 | the string has at most `k` digits exactly when the number is below 16^k, so padding happens exactly for colours below 2^28 |
| Color.Repeat | index.js:182 | `'0'.repeat(k)` has length `k` and every character is the repeated one |
| Color.PadTo8 | index.js:180-183 | a string shorter than 8 becomes length 8, zeros in front and the original at the end; a longer one is unchanged |
| Color.ZeroPadValue | index.js:180-183 | left-padding with zeros does not change the hex value |
| Color.HexPrefixLength | index.js:184-187 | `parseInt` reads the longest prefix of hex digits and stops at the first other character |
| Color.ParseHex | index.js:184-187 | `parseInt(s, 16)` is NaN exactly when `s` is empty or starts with a non-digit; otherwise its value is below 16 to the number of digits read |
| Color.ParseAllDigits | index.js:184-187 | `parseInt(s, 16)` of a non-empty all-hex-digit string is that string's value |
| Color.SliceValue | index.js:184-187 | the value of a slice of a hex numeral is the number shifted right and masked to the slice's width |
| Color.NumeralBytes | index.js:184-187 | the slices `[0,2)`, `[2,4)`, `[4,6)` and `[6,)` of an eight-digit numeral are its value's four bytes, high to low |
| Color.DecodeIsByteArithmetic | index.js:179-187 | for a colour below 2^32 the padded string has 8 digits, and its four 2-digit slices parse to the colour's four bytes, high to low |
| Color.DecodeRgba | index.js:178-187 | the four parsed channels of a 32-bit colour are `(c >> 24) & 255`, `(c >> 16) & 255`, `(c >> 8) & 255` and `c & 255` |
| Color.Color2Rgb | index.js:178-188 | `color2rgb` of a 32-bit colour returns its three top bytes as r, g, b |
| Color.ChannelsAreBytes | index.js:184-188 | every returned channel is below 256 |
| Color.AlphaIgnored | index.js:187-188 | two colours that differ only in the alpha byte give the same r, g, b |
| Color.PackThenDecode | index.js:178-188 | packing four bytes and decoding gives the four bytes back, and `color2rgb` gives the first three |
| Color.DecodeThenPack | index.js:178-187 | decoding a 32-bit colour and packing the channels gives the colour back |
| Color.ZeroDecodesToBlack | index.js:179-188 | colour 0 pads to `"00000000"` and decodes to black |
| Geometry.Px2mmRatio | index.js:138-143 | the ratio times the root width is the content width (page width minus left and right padding), and it is positive when both widths are |
| Geometry.ContentWidth | index.js:139-141 | the left padding, the content width and the right padding add up to the page width |
| Geometry.NewContext | index.js:24-27 | after `setPx2mmRatio` and `setOffset`, the root's width maps to the content width and its right edge maps to the right padding, and the offset point maps to the top-left padding corner on both axes |
| Geometry.TransformLeft | index.js:150-154 | with a non-zero ratio, the pixel is recovered from the result: subtract the left padding, divide by the ratio, add the offset |
| Geometry.TransformTop | index.js:156-160 | with a non-zero ratio, the pixel is recovered from the result: subtract the top padding, divide by the ratio, add the offset |
| Geometry.TransformSize | index.js:162-165 | with a non-zero ratio, dividing the result by the ratio gives the pixel size back; a non-negative size at a non-negative ratio stays non-negative |
| Geometry.TransformSize2pt | index.js:167-171 | the points divided by the points-per-millimetre constant are `transformSize` of the pixels |
| Geometry.OffsetMapsToPadding | index.js:145-160 | the root's offset maps onto the padding corner of the page |
| Geometry.SizeIsLinear | index.js:162-165 | `transformSize` is zero at zero, additive and homogeneous |
| Geometry.SizeRoundTrip | index.js:162-165 | with a non-zero ratio, `transformSize` and division by the ratio are inverse both ways |
| Geometry.PositionsAreTranslations | index.js:150-160 | the distance between two transformed positions is the transformed distance |
| Geometry.PositionsStrictlyIncreasing | index.js:150-160 | with a positive ratio, `transformLeft` and `transformTop` keep strict left-right and top-bottom order |
| Geometry.PointsFromMillimetres | index.js:167-171 | `transformSize2pt` is additive, and its constant is 72 / 25.4 to within 10^-10 |
| Geometry.FontSizeIgnoresUnit | index.js:173-176 | `fontSize2px` returns the number whatever the unit |
| Geometry.Root800Example | index.js:138-165 | with no padding and an 800-pixel root at the origin, the ratio is 0.2625 and pixel 100 lands at 26.25 mm |
| ImageSource.LineEnd | index.js:78 | the first line terminator at or after a position, or the end of the string; `.` matches everything before it |
| ImageSource.LastSemicolon | index.js:78 | the last `;` in a range, with no `;` after it in the range, or none at all |
| ImageSource.CaptureImageType | index.js:78 | a captured group starts right after `data:image/` and ends where the regular expression can end it |
| ImageSource.CaptureCharacterised | index.js:78 | the regular expression matches exactly when some `;` after a non-empty, single-line group exists; the group then ends at the last such `;` |
| ImageSource.CaptureOfParts | index.js:78 | for `data:image/` + t + `;` + a tail with no `;`, the group is t, even when t itself holds `;` |
| ImageSource.GreedyCapture | index.js:78 | with two `;` after the type name, the group runs to the second one |
| ImageSource.Classify | index.js:74-102 | no or empty `src` draws nothing; a non-`data:image` `src` is skipped; an inline `src` the group cannot match throws; a raster branch has a `jpeg`, `png` or `webp` group and its format is that group upper-cased; the SVG branch has the group `svg+xml`; every other inline branch keeps its group, which is neither |
| ImageSource.Upper | index.js:83 | same length; each lower-case ASCII letter becomes its capital and every other character is kept |
| ImageSource.UpperOfRasterTypes | index.js:83 | `toUpperCase` of the three raster type names gives the three jsPDF format names |
| ImageSource.ClassifyCaptured | index.js:79-101 | once the group is captured, the branch depends on it alone: raster, SVG, or nothing |
| ImageSource.PartsCaptured | index.js:76-78 | `data:image/` + a one-line type + `;` + a tail with no `;` passes the inline test and captures the type |
| ImageSource.ClassifyOfParts | index.js:76-101 | such a source is classified by its type name |
| ImageSource.NoSemicolonIsUnmatched | index.js:76-78 | an inline source with no `;` makes the source throw |
| ImageSource.CapturePrefixIsInline | index.js:76-78 | every source the group pattern could match passes the `data:image` test |
| ImageSource.PngExample | index.js:79-84 | an inline PNG is embedded as `"PNG"` |
| ImageSource.SvgExample | index.js:85-99 | an inline `svg+xml` source takes the canvas branch |
| ImageSource.GifExample | index.js:79-101 | an inline GIF matches no case and draws nothing |
| ImageSource.RemoteExample | index.js:76-102 | an `https:` URL is not inline and draws nothing |
| ImageSource.GreedyCharsetExample | index.js:78-101 | `data:image/svg+xml;charset=utf-8;base64,…` captures `svg+xml;charset=utf-8`, so the SVG is not drawn |
| ImageSource.UnmatchedExample | index.js:76-78 | a URL-encoded SVG with no `;` makes the source throw |
| Paint.PlacementCovers | index.js:53-56 | the rectangle drawn for a box starts at its transformed top-left corner and ends at its transformed bottom-right corner |
| Paint.RenderBackgroundColor | index.js:46-57 | a zero colour draws nothing; otherwise the fill colour is set to the colour's top three bytes and then the rectangle covering the box is filled |
| Paint.BackgroundPaired | index.js:50-56 | the background's fill always follows its colour |
| Paint.RenderImage | index.js:70-111 | the source throws exactly on an unmatched inline `src`; at most one `addImage` is issued, exactly for raster and SVG sources, covering the box in JPEG, PNG or WEBP; a raster source is added as its own data URL with the upper-cased type as format; an SVG is added as PNG, tagged with the source and the node's pixel width and height |
| Paint.PlaceLines | index.js:125-133 | one `text` call per line, in line order, each with that line's text at `transformLeft` of its left and `transformTop` of its top |
| Paint.RenderTextNode | index.js:119-134 | one run issues the node's text colour, then its point size, then its lines placed as `PlaceLines` places them |
| Paint.TextNodeUniform | index.js:119-134 | every command of one run is a text command, and every colour and size it sets is the node's colour and point size |
| Paint.RenderText | index.js:113-135 | no runs draw nothing; otherwise the node's text colour and then its point size come first, there are two commands per run plus one per line, and all are text commands in the node's colour and size |
| Paint.RenderTextAppend | index.js:119 | `textNodes.forEach` draws the runs one after another: two lists of runs draw the first list's commands, then the second's |
| Paint.RenderTextSingle | index.js:119-134 | a single run is drawn exactly as `RenderTextNode` draws it, so with RenderTextAppend every run sets its colour and size before its own lines |
| Paint.TextNoFills | index.js:113-135 | text drawing never fills a rectangle |
| Paint.TextCallsOfNode | index.js:119-134 | the `text` calls of one run are its lines |
| Paint.TextLinesInOrder | index.js:113-135 | the `text` calls of a node are all its runs' lines in order, none lost or repeated, each at its transformed top-left corner |
| Paint.NodeLogFacts | index.js:39-42 | a node's background, border, image and text commands keep every fill after its colour, and start with the background |
| Paint.NodeStep | index.js:39-42 | a node's own drawing throws exactly on an unmatched inline image; when it throws, only its background has been drawn; otherwise the log is the background, then the image, then the text, with nothing from the border; the log starts with the background, and every fill follows its colour |
| Paint.Then | index.js:39-43 | running two steps throws when either throws and keeps the first step's commands; if the first throws, the second adds nothing |
| Paint.RenderElement | index.js:35-44 | the walk from a node starts with the node's own drawing, and every fill in it follows its colour |
| Paint.RenderElements | index.js:43 | walking a list of children keeps every fill after its colour |
| Paint.Export | index.js:24-32 | the export walk pairs every fill with its colour; a root with a background, placed at its offset, is filled from the padding corner across the full content width |
| Paint.ExportIsReplay | index.js:24-28 | the export is the pre-order replay of the whole tree under the context built from the options, the root's width and the offsets |
| Paint.PreOrder | index.js:35-44 | the pre-order node list of a tree starts with the tree's root |
| Paint.ReplayAppend | index.js:43 | replaying two node lists in turn is replaying their concatenation |
| Paint.RenderIsReplay | index.js:35-44 | `renderElment` from a node equals replaying the nodes' own drawing in pre-order |
| Paint.RenderAllIsReplay | index.js:43 | walking a list of children equals replaying their nodes in pre-order |
| Paint.ReplayThrowsIff | index.js:35-44 | a replay throws exactly when one of its nodes has an unmatched inline image source |
| Paint.ReplayNoThrow | index.js:35-44 | a replay with no throwing node logs every node's own commands, in order |
| Paint.ReplayFirstThrow | index.js:35-44 | a replay stops at its first throwing node, after the earlier nodes' commands and that node's background |
| Paint.WalkIsPreOrder | index.js:35-44 | if no node's image throws, the walk logs each node's background, image and text, node by node in pre-order |
| Paint.WalkStopsAtFirstThrow | index.js:35-44 | the walk stops at the first node in pre-order whose inline image does not match, right after that node's background |
| Paint.WalkThrowsIff | index.js:35-44 | the walk throws exactly when some node has an unmatched inline image source |
| Paint.PlainBoxStep | index.js:39-42 | a node with no image and no text draws only its background |
| Paint.OneChildWalk | index.js:35-44 | a root with one plain child draws the root's background, then the child's |
| Paint.ChildOnlyLog | index.js:35-57 | under a root with no background, the walk's log is the only child's background |
| Paint.ChildFill | index.js:46-57 | at ratio 0.2625, a coloured box 100 pixels in is filled from 26.25 mm across 52.5 mm |
| Paint.Export800 | index.js:24-28 | an 800-pixel root at the origin with no padding is walked at ratio 0.2625 |
| Paint.OneChildExample | index.js:35-57 | a transparent root with one coloured child logs only that child's fill colour and rectangle |
| Paint.ExportOneChild | index.js:24-57 | the export of that tree logs only the child's fill colour and rectangle |
| Paint.ExportExample | index.js:24-57 | an 800-pixel transparent root with one child 100 pixels in, coloured `0xff0000` with any alpha byte, gives exactly a red fill colour and a fill at 26.25 mm of width 52.5 mm |

## Left out

- The DOM, html2canvas and jsPDF are not modelled as code: the tree is an
  input datatype and every jsPDF call is one `Cmd` in a log.
- `setOffset` reads `offsetLeft` and `offsetTop` from the DOM element;
  here they are parameters of `NewContext` and `Export`.
- Promise timing, the `console.log` calls and the `setTimeout` whose
  `doc.save` is commented out are not modelled.
- Arithmetic is exact: IEEE-754 rounding of the ratio, the transforms and
  the point constant is not modelled.
- Geometry.Px2mmRatio: requires a non-zero width, because JavaScript
  would divide by zero and give `Infinity` or `NaN`, which `real` cannot
  represent. `NewContext` and `Export` inherit this precondition.
- Color.HexPrefixLength: `parseInt`'s handling of leading white space,
  signs and a `0x` prefix is not modelled. `color2rgb` only ever passes it
  slices of a hex numeral.
- Color.Color2Rgb: colours are natural numbers. The byte equations are
  stated for colours below 2^32, which is the range of a packed RGBA value.
  Above that range the model follows the same string route, but nothing
  is proved about it. Negative or fractional numbers are not modelled.
- ImageSource.Upper: upper-cases ASCII only. `toUpperCase` is only applied
  to the three raster type names.
- Paint.RenderImage: in the SVG branch, the source creates a canvas,
  appends it to the page and calls `addImage` from the image's `onload`
  callback. That happens after the synchronous walk and in load order.
  The model issues the `addImage` at the node's place in the log, tagged
  `SvgCanvas` with the node's pixel width and height. The canvas itself
  takes only the whole-pixel part of those, because `canvas.width` and
  `canvas.height` are integers; that truncation and load failures are not
  modelled.
- Paint.RenderBorder: the source reads the border properties and draws
  nothing (its body is a `todo`). The model returns no commands, and
  `Styles` does not carry the border fields.
- `pdfSize.height` is declared in the source but never read; the model
  keeps it as `PdfHeight` and nothing uses it.
- `lineHeight` and the node width, which `renderText` reads but never
  uses, are not part of `Styles`.
- A throw ends the whole export: the promise callback rejects, and no
  later node is drawn. The model records it as `Walk.threw` and keeps the
  commands issued before it.
