/** The text parsers of the `App` class in src/index.js, which turn the
    tessellation text exported by the Voronoi tool into nested arrays of
    numbers. They are `split` / `map` / `filter` chains with no state.

    The conversion `+x` of a field to a number is JavaScript's floating-point
    conversion; it is kept abstract as the parameter `toNumber`, and nothing
    here depends on the values it produces. */
module App {
  import opened JsString

  /** `#stringLineToPoints`: split a line on single spaces, convert every
      field, and drop the first field (the line's index tag). Element `i` of
      the result is field `i + 1`, converted. The `numbers.shift()` of the
      source is `numbers[1..]`: a split always has at least one piece, so the
      array it acts on is never empty. */
  function StringLineToPoints<N>(stringLine: string, toNumber: string -> N): (r: seq<N>)
    ensures |r| == |Split(stringLine, " ")| - 1
    ensures forall i :: 0 <= i < |r| ==> r[i] == toNumber(Split(stringLine, " ")[i + 1])
  {
    var strings := Split(stringLine, " ");
    var numbers := seq(|strings|, i requires 0 <= i < |strings| => toNumber(strings[i]));
    numbers[1..]
  }

  /** A row has one number per space in its line: the number of fields less
      the dropped first one. */
  lemma RowLengthIsSpaceCount<N>(stringLine: string, toNumber: string -> N)
    ensures |StringLineToPoints(stringLine, toNumber)| == multiset(stringLine)[' ']
  {
    SplitCharCount(stringLine, ' ');
  }

  /** A line built from fields with no space in them gives back all fields
      but the first, converted and in order. */
  lemma LineOfFields<N>(fields: seq<string>, toNumber: string -> N)
    requires |fields| >= 1
    requires forall k :: 0 <= k < |fields| ==> ' ' !in fields[k]
    ensures StringLineToPoints(Join(fields, " "), toNumber)
         == seq(|fields| - 1, i requires 0 <= i < |fields| - 1 => toNumber(fields[i + 1]))
  {
    SplitJoinChar(fields, ' ');
  }

  /** A blank line yields an empty row: `"".split(' ')` is `[""]` and the
      shift removes that one field. */
  lemma BlankLineGivesEmptyRow<N>(toNumber: string -> N)
    ensures StringLineToPoints("", toNumber) == []
  {
  }

  /** `#parsePoints`: one row per newline-separated line, in order, with no
      filtering. */
  function ParsePoints<N>(rawPoints: string, toNumber: string -> N): (r: seq<seq<N>>)
    ensures |r| == |Split(rawPoints, "\n")|
    ensures forall i :: 0 <= i < |r| ==> r[i] == StringLineToPoints(Split(rawPoints, "\n")[i], toNumber)
  {
    var lines := Split(rawPoints, "\n");
    seq(|lines|, i requires 0 <= i < |lines| => StringLineToPoints(lines[i], toNumber))
  }

  /** There is one row per newline plus one. */
  lemma PointsRowCount<N>(rawPoints: string, toNumber: string -> N)
    ensures |ParsePoints(rawPoints, toNumber)| == multiset(rawPoints)['\n'] + 1
  {
    SplitCharCount(rawPoints, '\n');
  }

  /** A trailing newline produces a final empty row, which is kept. */
  lemma TrailingNewlineGivesEmptyRow<N>(body: string, toNumber: string -> N)
    ensures var r := ParsePoints(body + "\n", toNumber);
            |r| >= 2 && r[|r| - 1] == []
  {
    SplitTrailingChar(body, '\n');
    SplitCharCount(body + "\n", '\n');
    assert multiset(body + "\n")['\n'] >= 1;
  }

  /** A text built from lines with no newline in them gives one row per line,
      in the same order. */
  lemma PointsOfLines<N>(lines: seq<string>, toNumber: string -> N)
    requires |lines| >= 1
    requires forall k :: 0 <= k < |lines| ==> '\n' !in lines[k]
    ensures ParsePoints(Join(lines, "\n"), toNumber)
         == seq(|lines|, i requires 0 <= i < |lines| => StringLineToPoints(lines[i], toNumber))
  {
    SplitJoinChar(lines, '\n');
  }

  /** `.filter(x => x != '')`: keeps the non-empty lines in their order. */
  function FilterNonEmpty(lines: seq<string>): (r: seq<string>)
    ensures forall k :: 0 <= k < |r| ==> r[k] != ""
    ensures |r| == |lines| - multiset(lines)[""]
    ensures forall x :: x != "" ==> multiset(r)[x] == multiset(lines)[x]
  {
    if |lines| == 0 then []
    else
      assert lines == [lines[0]] + lines[1..];
      (if lines[0] == "" then [] else [lines[0]]) + FilterNonEmpty(lines[1..])
  }

  /** Filtering distributes over concatenation, so the relative order of the
      kept lines is the order they had. */
  lemma {:induction false} FilterNonEmptyAppend(a: seq<string>, b: seq<string>)
    ensures FilterNonEmpty(a + b) == FilterNonEmpty(a) + FilterNonEmpty(b)
    decreases |a|
  {
    if |a| == 0 {
      assert a + b == b;
    } else {
      assert (a + b)[0] == a[0];
      assert (a + b)[1..] == a[1..] + b;
      FilterNonEmptyAppend(a[1..], b);
    }
  }

  /** A sequence with no empty line is left as it is. */
  lemma {:induction false} FilterNonEmptyKeepsLines(lines: seq<string>)
    requires forall k :: 0 <= k < |lines| ==> lines[k] != ""
    ensures FilterNonEmpty(lines) == lines
    decreases |lines|
  {
    if |lines| > 0 {
      FilterNonEmptyKeepsLines(lines[1..]);
    }
  }

  /** A sequence of empty lines is filtered away entirely. */
  lemma {:induction false} FilterNonEmptyDropsBlanks(lines: seq<string>)
    requires forall k :: 0 <= k < |lines| ==> lines[k] == ""
    ensures FilterNonEmpty(lines) == []
    decreases |lines|
  {
    if |lines| > 0 {
      FilterNonEmptyDropsBlanks(lines[1..]);
    }
  }

  /** The callback of `#parseVertices` for one block: split it into lines,
      drop the empty lines and turn each remaining line into a row. */
  function BlockToPoints<N>(face: string, toNumber: string -> N): (r: seq<seq<N>>)
    ensures |r| == |Split(face, "\n")| - multiset(Split(face, "\n"))[""]
    ensures forall k :: 0 <= k < |r| ==>
      r[k] == StringLineToPoints(FilterNonEmpty(Split(face, "\n"))[k], toNumber)
  {
    var pointsString := FilterNonEmpty(Split(face, "\n"));
    seq(|pointsString|, i requires 0 <= i < |pointsString| => StringLineToPoints(pointsString[i], toNumber))
  }

  /** No row of a block comes from an empty line, and each row has one number
      per space of the non-empty line it comes from. */
  lemma BlockRowsFromNonEmptyLines<N>(face: string, toNumber: string -> N)
    ensures var lines := FilterNonEmpty(Split(face, "\n"));
            var r := BlockToPoints(face, toNumber);
            |r| == |lines| &&
            forall k :: 0 <= k < |r| ==>
              lines[k] != "" && lines[k] in Split(face, "\n") &&
              |r[k]| == multiset(lines[k])[' ']
  {
    var lines := FilterNonEmpty(Split(face, "\n"));
    var r := BlockToPoints(face, toNumber);
    forall k | 0 <= k < |r|
      ensures lines[k] != "" && lines[k] in Split(face, "\n")
      ensures |r[k]| == multiset(lines[k])[' ']
    {
      assert multiset(lines)[lines[k]] > 0;
      RowLengthIsSpaceCount(lines[k], toNumber);
    }
  }

  /** A block whose lines are all empty becomes an empty list of rows. */
  lemma BlankBlockGivesNoRows<N>(face: string, toNumber: string -> N)
    requires forall k :: 0 <= k < |Split(face, "\n")| ==> Split(face, "\n")[k] == ""
    ensures BlockToPoints(face, toNumber) == []
  {
    FilterNonEmptyDropsBlanks(Split(face, "\n"));
  }

  /** A block made of given lines, none holding a newline, gives the rows of
      its non-empty lines in order. */
  lemma BlockOfLines<N>(lines: seq<string>, toNumber: string -> N)
    requires |lines| >= 1
    requires forall k :: 0 <= k < |lines| ==> '\n' !in lines[k]
    ensures BlockToPoints(Join(lines, "\n"), toNumber)
         == seq(|FilterNonEmpty(lines)|, i requires 0 <= i < |FilterNonEmpty(lines)| =>
              StringLineToPoints(FilterNonEmpty(lines)[i], toNumber))
  {
    SplitJoinChar(lines, '\n');
  }

  /** Without empty lines a block parses exactly as `#parsePoints` would
      parse it: the two differ only in the filter. */
  lemma BlockWithoutBlankLinesIsPoints<N>(face: string, toNumber: string -> N)
    requires forall k :: 0 <= k < |Split(face, "\n")| ==> Split(face, "\n")[k] != ""
    ensures BlockToPoints(face, toNumber) == ParsePoints(face, toNumber)
  {
    FilterNonEmptyKeepsLines(Split(face, "\n"));
  }

  /** `#parseVertices`: one entry per block separated by a blank line
      (`"\n\n"`), in order; a block with no non-empty line is kept as `[]`. */
  function ParseVertices<N>(vertices: string, toNumber: string -> N): (r: seq<seq<seq<N>>>)
    ensures |r| == |Split(vertices, "\n\n")|
    ensures forall b :: 0 <= b < |r| ==> r[b] == BlockToPoints(Split(vertices, "\n\n")[b], toNumber)
  {
    var facesRaw := Split(vertices, "\n\n");
    seq(|facesRaw|, i requires 0 <= i < |facesRaw| => BlockToPoints(facesRaw[i], toNumber))
  }

  /** A text that ends with a blank line ends with an empty block, which is
      kept. */
  lemma TrailingBlankLineGivesEmptyBlock<N>(body: string, toNumber: string -> N)
    ensures var r := ParseVertices(body + "\n\n", toNumber);
            r[|r| - 1] == []
  {
    var text := body + "\n\n";
    var blocks := Split(text, "\n\n");
    var last := blocks[|blocks| - 1];
    assert last == "" || last == "\n" by {
      assert "\n\n" == ['\n', '\n'];
      SplitTrailingPair(body, '\n');
    }
    if last == "\n" {
      assert Split(last, "\n") == ["", ""] by {
        assert Join(["", ""], "\n") == last;
        SplitJoinChar(["", ""], '\n');
      }
    }
    BlankBlockGivesNoRows(last, toNumber);
    var r := ParseVertices(text, toNumber);
    assert r[|r| - 1] == BlockToPoints(last, toNumber);
  }

  /** Joining the blocks back with blank lines gives the whole text, and no
      block holds a blank line of its own. */
  lemma VerticesBlocksCoverText(vertices: string)
    ensures Join(Split(vertices, "\n\n"), "\n\n") == vertices
    ensures forall b :: 0 <= b < |Split(vertices, "\n\n")| ==> !Contains(Split(vertices, "\n\n")[b], "\n\n")
  {
    JoinSplit(vertices, "\n\n");
    SplitPiecesAvoidSep(vertices, "\n\n");
  }

  /** The example of the exported point format: the leading index column is
      dropped from every line. */
  lemma PointsExample<N>(rawPoints: string, toNumber: string -> N)
    requires rawPoints == "0 1.0 2.0 3.0\n1 4.0 5.0 6.0"
    ensures ParsePoints(rawPoints, toNumber)
         == [[toNumber("1.0"), toNumber("2.0"), toNumber("3.0")],
             [toNumber("4.0"), toNumber("5.0"), toNumber("6.0")]]
  {
    var a, b := ["0", "1.0", "2.0", "3.0"], ["1", "4.0", "5.0", "6.0"];
    ExampleText(rawPoints, a, b);
    TwoLines(a, b, toNumber);
  }

  /** The example text is two lines of four fields each. */
  lemma ExampleText(rawPoints: string, a: seq<string>, b: seq<string>)
    requires rawPoints == "0 1.0 2.0 3.0\n1 4.0 5.0 6.0"
    requires a == ["0", "1.0", "2.0", "3.0"] && b == ["1", "4.0", "5.0", "6.0"]
    ensures Join([Join(a, " "), Join(b, " ")], "\n") == rawPoints
  {
    var l0, l1 := Join(a, " "), Join(b, " ");
    assert l0 == "0 1.0 2.0 3.0" by { JoinFour(a, " "); }
    assert l1 == "1 4.0 5.0 6.0" by { JoinFour(b, " "); }
    assert "0 1.0 2.0 3.0" + "\n" + "1 4.0 5.0 6.0" == rawPoints;
    JoinCons(l0, [l1], "\n");
    assert [l0] + [l1] == [l0, l1];
  }

  /** Joining four pieces, written out. */
  lemma JoinFour(p: seq<string>, sep: string)
    requires |p| == 4
    ensures Join(p, sep) == p[0] + sep + p[1] + sep + p[2] + sep + p[3]
  {
    assert Join(p[3..], sep) == p[3];
    assert Join(p[2..], sep) == p[2] + sep + p[3] by {
      assert p[2..][1..] == p[3..];
    }
    assert Join(p[1..], sep) == p[1] + sep + (p[2] + sep + p[3]) by {
      assert p[1..][1..] == p[2..];
    }
  }

  /** Two lines of space-free fields with no newline in them give their
      fields less the first, converted, one row per line. */
  lemma TwoLines<N>(a: seq<string>, b: seq<string>, toNumber: string -> N)
    requires |a| == 4 && |b| == 4
    requires forall k :: 0 <= k < 4 ==> ' ' !in a[k] && '\n' !in a[k] && ' ' !in b[k] && '\n' !in b[k]
    ensures ParsePoints(Join([Join(a, " "), Join(b, " ")], "\n"), toNumber)
         == [[toNumber(a[1]), toNumber(a[2]), toNumber(a[3])],
             [toNumber(b[1]), toNumber(b[2]), toNumber(b[3])]]
  {
    var l0, l1 := Join(a, " "), Join(b, " ");
    JoinFour(a, " ");
    JoinFour(b, " ");
    assert '\n' !in l0 && '\n' !in l1;
    var r := ParsePoints(Join([l0, l1], "\n"), toNumber);
    assert r == [StringLineToPoints(l0, toNumber), StringLineToPoints(l1, toNumber)] by {
      PointsOfLines([l0, l1], toNumber);
    }
    assert StringLineToPoints(l0, toNumber) == [toNumber(a[1]), toNumber(a[2]), toNumber(a[3])] by {
      LineOfFields(a, toNumber);
    }
    assert StringLineToPoints(l1, toNumber) == [toNumber(b[1]), toNumber(b[2]), toNumber(b[3])] by {
      LineOfFields(b, toNumber);
    }
  }
}
