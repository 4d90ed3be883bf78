# simple-voro-three: the tessellation text parsers

simple-voro-three shows a 3D Voronoi tessellation with three.js. The tessellation
is exported as plain text files. The `App` class in `src/index.js` reads two of
them and turns the text into nested arrays of numbers:

- `#stringLineToPoints` splits one line on single spaces, converts every field
  with `+x` and drops the first field (the line's index tag);
- `#parsePoints` splits the point file on `'\n'` and turns every line into a row,
  with no filtering;
- `#parseVertices` splits the vertex file into blocks on a blank line (`'\n\n'`);
  inside a block it splits on `'\n'`, drops the empty lines and turns every
  remaining line into a row.

This project models those three parsers as Dafny functions and proves what they
do with any input text.

- `js_string.dfy` (module `JsString`) models the JavaScript string operations the
  parsers rely on. `IndexOf` finds the leftmost occurrence of a separator.
  `Split` is `String.prototype.split` with a non-empty literal separator: it
  cuts at the leftmost non-overlapping occurrences, and `"".split(sep)` is `[""]`.
  `Join` is `Array.prototype.join`. The lemmas show that join undoes split, that
  no piece holds the separator, and how many pieces a one-character separator
  gives. They also show that split undoes join when the separator is one
  character, and what the last piece is when the text ends with the separator.
- `app.dfy` (module `App`) models the three parsers and the filter callback of
  `#parseVertices`. The numeric conversion `+x` is the parameter
  `toNumber: string -> N`. Nothing is claimed about the numbers it produces.

Three behaviours of the code are easy to miss, and the model states each one:

- `#parsePoints` filters nothing, so the empty segment after a trailing newline
  becomes an empty row that is kept (`TrailingNewlineGivesEmptyRow`).
- `#parseVertices` keeps a block whose lines are all empty as `[]`
  (`BlankBlockGivesNoRows`, `TrailingBlankLineGivesEmptyBlock`).
- `#parseVertices` reuses `#stringLineToPoints`, so every vertex line loses its
  first field too (`BlockRowsFromNonEmptyLines`).

## Model

| member | source | states |
|---|---|---|
| JsString.IndexOf | src/index.js:301 | the result is the leftmost index where the separator occurs; none is returned exactly when the separator occurs nowhere |
| JsString.Split | src/index.js:301 | `split` always returns at least one piece, so a split result is never empty |
| JsString.JoinSplit | src/index.js:283 | joining the pieces of `s.split(sep)` with `sep` gives back `s` |
| JsString.SplitPiecesAvoidSep | src/index.js:291 | no piece of `s.split(sep)` contains `sep` |
| JsString.SplitCharCount | src/index.js:301 | splitting on one character gives one more piece than the number of times the character occurs |
| JsString.SplitJoinChar | src/index.js:293 | for a one-character separator, splitting the join of pieces that do not contain it returns those pieces, in order |
| JsString.SplitTrailingChar | src/index.js:283 | a text ending in the one-character separator has an empty last piece |
| JsString.SplitTrailingPair | src/index.js:291 | a text ending in `"\n\n"` split on `"\n\n"` has a last piece that is empty or a single `"\n"` (leftmost matching can stop one character early) |
| App.StringLineToPoints | src/index.js:300-306 | the row has one number fewer than the line has space-separated fields, and a split always has at least one field, so the `shift` never meets an empty array; number `i` is the conversion of field `i + 1`, so the first field is dropped and the order of the rest is kept |
| App.RowLengthIsSpaceCount | src/index.js:301-304 | the row length equals the number of spaces in the line (fields − 1) |
| App.LineOfFields | src/index.js:300-304 | a line made of space-free fields gives exactly the converted fields after the first, in order |
| App.BlankLineGivesEmptyRow | src/index.js:301-304 | the empty line gives the empty row |
| App.ParsePoints | src/index.js:282-288 | one row per `'\n'`-separated segment, in source order, row `i` being the parse of segment `i`; nothing is filtered |
| App.PointsRowCount | src/index.js:283-285 | the number of rows is the number of newlines plus one |
| App.TrailingNewlineGivesEmptyRow | src/index.js:283-285 | a text ending in a newline gives at least two rows, the last one empty and kept |
| App.PointsOfLines | src/index.js:282-285 | a text joined from newline-free lines gives exactly one row per line, in order |
| App.PointsExample | src/index.js:282-285 | `"0 1.0 2.0 3.0\n1 4.0 5.0 6.0"` gives the rows `[1.0, 2.0, 3.0]` and `[4.0, 5.0, 6.0]`, each value through the conversion |
| App.FilterNonEmpty | src/index.js:293 | the kept lines are all non-empty; their number is the input length less the number of empty lines; every non-empty line is kept as often as it occurs |
| App.FilterNonEmptyAppend | src/index.js:293 | filtering a concatenation is the concatenation of the filtered parts, so the kept lines keep their relative order |
| App.FilterNonEmptyKeepsLines | src/index.js:293 | lines with no empty one among them are kept unchanged |
| App.FilterNonEmptyDropsBlanks | src/index.js:293 | lines that are all empty are all dropped |
| App.BlockToPoints | src/index.js:292-296 | a block gives as many rows as it has non-empty `'\n'`-segments; row `k` is the parse of the `k`-th non-empty segment |
| App.BlockRowsFromNonEmptyLines | src/index.js:293-294 | every row comes from a non-empty segment of the block, and its length is the number of spaces of that segment (its fields − 1) |
| App.BlankBlockGivesNoRows | src/index.js:292-296 | a block whose segments are all empty gives `[]` |
| App.BlockOfLines | src/index.js:292-296 | a block joined from newline-free lines gives the rows of its non-empty lines, in order |
| App.BlockWithoutBlankLinesIsPoints | src/index.js:292-296 | a block with no empty segment is parsed exactly as `#parsePoints` parses it |
| App.ParseVertices | src/index.js:290-298 | one entry per `'\n\n'`-separated block, in source order, entry `b` being the rows of block `b`; no block is dropped |
| App.TrailingBlankLineGivesEmptyBlock | src/index.js:291-297 | a text ending in a blank line ends with an empty block, which is kept |
| App.VerticesBlocksCoverText | src/index.js:291 | joining the blocks with `'\n\n'` gives back the text, and no block contains `'\n\n'` |

## Left out

- Everything three.js does: the scene, camera, renderer, lights, boxes, the GLTF
  loader, orbit controls, the animation loop and the marker spheres of
  `#drawPoints` (src/index.js:26-268, 308-318). This is rendering through a library
  whose source is not part of this model.
- The Tweakpane debug panel and the resize listeners (src/index.js:202-268). This is
  UI and event handling.
- `#loadVoronoiData` (src/index.js:270-280). It fetches two files over the network
  and awaits them. Its effect on the data is `ParsePoints` applied to the first
  text and `ParseVertices` applied to the second.
- The value of `+x` (src/index.js:302). This is JavaScript's floating-point
  conversion: `""` becomes 0, surrounding whitespace is trimmed and malformed text
  becomes NaN. It is the parameter `toNumber`, and no property depends on it.
- Strings are modelled as sequences of characters, not UTF-16 code units. The
  separators the parsers use are ASCII, so the split points are the same.
