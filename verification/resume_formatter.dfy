/**
  Parsing of the language model's tailoring reply (app/resume_formatter.py):
  `_extract_sections` splits the reply into named sections, and
  `_parse_tailored_resume` overlays the summary, skills and keywords onto a
  copy of the résumé. The model call and the prompt text are not modelled.
 */
module ResumeFormatter {
  import opened Wrappers
  import Text
  import opened JsonValue

  // ---------------------------------------------------------------------
  // Lines and headers

  /** A stripped line is a section header when it ends with ':' and
      upper-casing leaves it unchanged. */
  predicate IsHeader(line: string) {
    line != [] && line[|line| - 1] == ':' && Text.Upper(line) == line
  }

  /** Headers are the lines that end in ':' and hold no lower-case letter. */
  lemma HeaderIff(line: string)
    ensures IsHeader(line) <==>
      line != [] && line[|line| - 1] == ':' && forall i :: 0 <= i < |line| ==> !Text.IsLowerLetter(line[i])
  {
    Text.UpperFixedIff(line);
  }

  /** `line[:-1]`: the header without its colon. */
  function HeaderName(line: string): string {
    if line == [] then "" else line[..|line| - 1]
  }

  /** `[l.strip() for l in text.split('\n')]` */
  function StrippedLines(text: string): (lines: seq<string>)
    ensures |lines| == |Text.Split(text, '\n')|
    ensures forall i :: 0 <= i < |lines| ==> lines[i] == Text.Strip(Text.Split(text, '\n')[i])
  {
    var parts := Text.Split(text, '\n');
    seq(|parts|, i requires 0 <= i < |parts| => Text.Strip(parts[i]))
  }

  /** Lines already stripped and free of '\n', joined by '\n', come back as the lines. */
  lemma StrippedLinesRoundTrip(lines: seq<string>)
    requires |lines| >= 1
    requires forall i :: 0 <= i < |lines| ==> '\n' !in lines[i] && Text.Strip(lines[i]) == lines[i]
    ensures StrippedLines(Text.Join("\n", lines)) == lines
  {
    Text.SplitJoin(lines, '\n');
    assert "\n" == ['\n'];
  }

  /** The non-empty lines, in order. */
  function NonEmptyLines(lines: seq<string>): (r: seq<string>)
    ensures forall i :: 0 <= i < |r| ==> r[i] != ""
    ensures |r| <= |lines|
    decreases |lines|
  {
    if lines == [] then []
    else if lines[0] == "" then NonEmptyLines(lines[1..])
    else [lines[0]] + NonEmptyLines(lines[1..])
  }

  lemma {:induction false} NonEmptyLinesAppend(a: seq<string>, b: seq<string>)
    ensures NonEmptyLines(a + b) == NonEmptyLines(a) + NonEmptyLines(b)
    decreases |a|
  {
    if a == [] {
      assert a + b == b;
    } else {
      assert (a + b)[1..] == a[1..] + b;
      NonEmptyLinesAppend(a[1..], b);
    }
  }

  /** A single line is kept exactly when it is non-empty. */
  lemma NonEmptyLinesOne(l: string)
    ensures NonEmptyLines([l]) == if l == "" then [] else [l]
  {
    assert [l][1..] == [];
  }

  // ---------------------------------------------------------------------
  // `_extract_sections`, as the source runs it

  /** Saves the current section when it has a (truthy) name and some content. */
  function Flush(current: string, content: seq<string>, sections: map<string, string>): map<string, string> {
    if current != "" && content != [] then sections[current := Text.Join("\n", content)] else sections
  }

  /** The loop of `_extract_sections` from a given state. `current` is "" both
      before the first header and after a header `:`; both are falsy. */
  function Scan(lines: seq<string>, current: string, content: seq<string>, sections: map<string, string>): map<string, string>
    decreases |lines|
  {
    if lines == [] then Flush(current, content, sections)
    else
      var line := lines[0];
      if IsHeader(line) then Scan(lines[1..], HeaderName(line), [], Flush(current, content, sections))
      else if current != "" && line != "" then Scan(lines[1..], current, content + [line], sections)
      else Scan(lines[1..], current, content, sections)
  }

  function ExtractSectionsFromLines(lines: seq<string>): map<string, string> {
    Scan(lines, "", [], map[])
  }

  /** `_extract_sections(text)` */
  function ExtractSections(text: string): map<string, string> {
    ExtractSectionsFromLines(StrippedLines(text))
  }

  // ---------------------------------------------------------------------
  // Reference reading: cut the lines into header blocks, then fold the blocks

  /** A header line and the lines up to the next header. */
  datatype Block = Block(header: string, body: seq<string>)

  /** The lines before the first header, then the header blocks. */
  datatype Segmentation = Segmentation(preamble: seq<string>, blocks: seq<Block>)

  function Flatten(blocks: seq<Block>): seq<string>
    decreases |blocks|
  {
    if blocks == [] then [] else [blocks[0].header] + blocks[0].body + Flatten(blocks[1..])
  }

  function Unsegment(seg: Segmentation): seq<string> {
    seg.preamble + Flatten(seg.blocks)
  }

  predicate NoHeaders(lines: seq<string>) {
    forall i :: 0 <= i < |lines| ==> !IsHeader(lines[i])
  }

  /** Headers start the blocks and appear nowhere else. */
  predicate WellSegmented(seg: Segmentation) {
    && NoHeaders(seg.preamble)
    && forall i :: 0 <= i < |seg.blocks| ==> IsHeader(seg.blocks[i].header) && NoHeaders(seg.blocks[i].body)
  }

  /** Cuts lines at the headers; the pieces put back together give the lines. */
  function Segment(lines: seq<string>): (seg: Segmentation)
    ensures WellSegmented(seg)
    ensures Unsegment(seg) == lines
    decreases |lines|
  {
    if lines == [] then Segmentation([], [])
    else
      var rest := Segment(lines[1..]);
      assert [lines[0]] + lines[1..] == lines;
      if IsHeader(lines[0]) then
        OpenBlock(lines[0], rest);
        Segmentation([], [Block(lines[0], rest.preamble)] + rest.blocks)
      else
        ExtendPreamble(lines[0], rest);
        Segmentation([lines[0]] + rest.preamble, rest.blocks)
  }

  /** A header line opens a block holding the preamble that follows it. */
  lemma OpenBlock(h: string, rest: Segmentation)
    requires IsHeader(h) && WellSegmented(rest)
    ensures var seg := Segmentation([], [Block(h, rest.preamble)] + rest.blocks);
      WellSegmented(seg) && Unsegment(seg) == [h] + Unsegment(rest)
  {
    var blocks := [Block(h, rest.preamble)] + rest.blocks;
    assert blocks[1..] == rest.blocks;
    assert forall i :: 1 <= i < |blocks| ==> blocks[i] == rest.blocks[i - 1];
  }

  /** Any other line joins the preamble. */
  lemma ExtendPreamble(l: string, rest: Segmentation)
    requires !IsHeader(l) && WellSegmented(rest)
    ensures var seg := Segmentation([l] + rest.preamble, rest.blocks);
      WellSegmented(seg) && Unsegment(seg) == [l] + Unsegment(rest)
  {
    var p := [l] + rest.preamble;
    assert forall i :: 1 <= i < |p| ==> p[i] == rest.preamble[i - 1];
  }

  /** There is only one way to cut lines at their headers: `Segment` recovers
      any well-formed segmentation from its lines. */
  lemma {:induction false} SegmentUnique(seg: Segmentation)
    requires WellSegmented(seg)
    ensures Segment(Unsegment(seg)) == seg
    decreases |Unsegment(seg)|
  {
    var lines := Unsegment(seg);
    if seg.preamble != [] {
      var tail := Segmentation(seg.preamble[1..], seg.blocks);
      assert lines == [seg.preamble[0]] + Unsegment(tail);
      assert lines[1..] == Unsegment(tail);
      SegmentUnique(tail);
    } else if seg.blocks != [] {
      var b := seg.blocks[0];
      var tail := Segmentation(b.body, seg.blocks[1..]);
      assert WellSegmented(tail) by {
        forall i | 0 <= i < |tail.blocks|
          ensures IsHeader(tail.blocks[i].header) && NoHeaders(tail.blocks[i].body)
        {
          assert tail.blocks[i] == seg.blocks[i + 1];
        }
      }
      assert lines == [b.header] + Unsegment(tail);
      assert lines[1..] == Unsegment(tail);
      SegmentUnique(tail);
      assert [b] + seg.blocks[1..] == seg.blocks;
    }
  }

  /** The section a block would write: its name, if truthy, and its non-empty lines, if any. */
  predicate Contributes(b: Block, name: string) {
    HeaderName(b.header) == name && name != "" && NonEmptyLines(b.body) != []
  }

  function BlockText(b: Block): string {
    Text.Join("\n", NonEmptyLines(b.body))
  }

  /** Writes the blocks' sections in order, a later one replacing an earlier one. */
  function SectionsOf(blocks: seq<Block>, sections: map<string, string>): map<string, string>
    decreases |blocks|
  {
    if blocks == [] then sections
    else SectionsOf(blocks[1..], Flush(HeaderName(blocks[0].header), NonEmptyLines(blocks[0].body), sections))
  }

  /** The streaming loop computes the block reading: lines before the first
      header are dropped and each block writes its section. */
  lemma {:induction false} ScanIsSectionsOf(lines: seq<string>, current: string, content: seq<string>, sections: map<string, string>)
    ensures var seg := Segment(lines);
      Scan(lines, current, content, sections)
      == SectionsOf(seg.blocks, Flush(current, content + NonEmptyLines(seg.preamble), sections))
    decreases |lines|
  {
    if lines == [] {
      assert content + [] == content;
    } else {
      var line := lines[0];
      var rest := Segment(lines[1..]);
      if IsHeader(line) {
        ScanIsSectionsOf(lines[1..], HeaderName(line), [], Flush(current, content, sections));
        ScanHeaderStep(line, rest, current, content, sections);
      } else {
        var content' := if current != "" && line != "" then content + [line] else content;
        ScanIsSectionsOf(lines[1..], current, content', sections);
        ScanLineStep(line, rest.preamble, current, content, sections);
      }
    }
  }

  /** A header closes the pending section and opens a block. */
  lemma ScanHeaderStep(line: string, rest: Segmentation, current: string, content: seq<string>, sections: map<string, string>)
    ensures SectionsOf(rest.blocks, Flush(HeaderName(line), [] + NonEmptyLines(rest.preamble), Flush(current, content, sections)))
         == SectionsOf([Block(line, rest.preamble)] + rest.blocks, Flush(current, content + NonEmptyLines([]), sections))
  {
    assert [] + NonEmptyLines(rest.preamble) == NonEmptyLines(rest.preamble);
    assert content + NonEmptyLines([]) == content;
    assert ([Block(line, rest.preamble)] + rest.blocks)[1..] == rest.blocks;
  }

  /** Any other line extends the pending section when there is one and the line is non-empty. */
  lemma ScanLineStep(line: string, preamble: seq<string>, current: string, content: seq<string>, sections: map<string, string>)
    ensures var content' := if current != "" && line != "" then content + [line] else content;
      Flush(current, content' + NonEmptyLines(preamble), sections)
      == Flush(current, content + NonEmptyLines([line] + preamble), sections)
  {
    assert ([line] + preamble)[1..] == preamble;
    if current != "" && line != "" {
      assert content + [line] + NonEmptyLines(preamble) == content + ([line] + NonEmptyLines(preamble));
    }
  }

  /** `_extract_sections` is the block reading of its lines. */
  lemma ExtractIsBlockReading(lines: seq<string>)
    ensures ExtractSectionsFromLines(lines) == SectionsOf(Segment(lines).blocks, map[])
  {
    ScanIsSectionsOf(lines, "", [], map[]);
  }

  /** A name has a section exactly when it had one already or some block writes it. */
  lemma {:induction false} SectionsOfKeys(blocks: seq<Block>, sections: map<string, string>, name: string)
    ensures name in SectionsOf(blocks, sections) <==>
      name in sections || exists i :: 0 <= i < |blocks| && Contributes(blocks[i], name)
    decreases |blocks|
  {
    if blocks != [] {
      var next := Flush(HeaderName(blocks[0].header), NonEmptyLines(blocks[0].body), sections);
      SectionsOfKeys(blocks[1..], next, name);
      if exists i :: 0 <= i < |blocks[1..]| && Contributes(blocks[1..][i], name) {
        var i :| 0 <= i < |blocks[1..]| && Contributes(blocks[1..][i], name);
        assert Contributes(blocks[i + 1], name);
      }
      if exists i :: 0 <= i < |blocks| && Contributes(blocks[i], name) {
        var i :| 0 <= i < |blocks| && Contributes(blocks[i], name);
        if i > 0 {
          assert Contributes(blocks[1..][i - 1], name);
        }
      }
    }
  }

  /** Blocks that do not write `name` leave its section alone. */
  lemma {:induction false} SectionsOfUntouched(blocks: seq<Block>, sections: map<string, string>, name: string)
    requires name in sections
    requires forall i :: 0 <= i < |blocks| ==> !Contributes(blocks[i], name)
    ensures name in SectionsOf(blocks, sections) && SectionsOf(blocks, sections)[name] == sections[name]
    decreases |blocks|
  {
    if blocks != [] {
      var next := Flush(HeaderName(blocks[0].header), NonEmptyLines(blocks[0].body), sections);
      assert !Contributes(blocks[0], name);
      forall i | 0 <= i < |blocks[1..]|
        ensures !Contributes(blocks[1..][i], name)
      {
        assert blocks[1..][i] == blocks[i + 1];
      }
      SectionsOfUntouched(blocks[1..], next, name);
    }
  }

  /** When a name is written by several blocks the last one wins. */
  lemma {:induction false} SectionsOfLastWins(blocks: seq<Block>, sections: map<string, string>, name: string, i: int)
    requires 0 <= i < |blocks| && Contributes(blocks[i], name)
    requires forall j :: i < j < |blocks| ==> !Contributes(blocks[j], name)
    ensures name in SectionsOf(blocks, sections) && SectionsOf(blocks, sections)[name] == BlockText(blocks[i])
    decreases |blocks|
  {
    var next := Flush(HeaderName(blocks[0].header), NonEmptyLines(blocks[0].body), sections);
    if i == 0 {
      forall j | 0 <= j < |blocks[1..]|
        ensures !Contributes(blocks[1..][j], name)
      {
        assert blocks[1..][j] == blocks[j + 1];
      }
      SectionsOfUntouched(blocks[1..], next, name);
    } else {
      forall j | i - 1 < j < |blocks[1..]|
        ensures !Contributes(blocks[1..][j], name)
      {
        assert blocks[1..][j] == blocks[j + 1];
      }
      SectionsOfLastWins(blocks[1..], next, name, i - 1);
    }
  }

  lemma {:induction false} JoinNonEmpty(sep: string, parts: seq<string>)
    requires |parts| > 0 && parts[0] != ""
    ensures Text.Join(sep, parts) != ""
  {
    Text.JoinStartsWithFirst(sep, parts);
  }

  /** Every section found is named by a header (without its colon) with a
      non-empty name and holds non-empty text. */
  lemma {:induction false} SectionsOfShape(blocks: seq<Block>, sections: map<string, string>)
    requires forall i :: 0 <= i < |blocks| ==> IsHeader(blocks[i].header)
    requires forall k :: k in sections ==> k != "" && IsHeader(k + ":") && sections[k] != ""
    ensures forall k :: k in SectionsOf(blocks, sections) ==> k != "" && IsHeader(k + ":") && SectionsOf(blocks, sections)[k] != ""
    decreases |blocks|
  {
    if blocks != [] {
      var h := blocks[0].header;
      var body := NonEmptyLines(blocks[0].body);
      var next := Flush(HeaderName(h), body, sections);
      if HeaderName(h) != "" && body != [] {
        assert HeaderName(h) + ":" == h;
        JoinNonEmpty("\n", body);
      }
      forall i | 0 <= i < |blocks[1..]|
        ensures IsHeader(blocks[1..][i].header)
      {
        assert blocks[1..][i] == blocks[i + 1];
      }
      SectionsOfShape(blocks[1..], next);
    }
  }

  /** The sections of a list of lines: which names appear, with which text, and their shape. */
  lemma ExtractSectionsSpec(lines: seq<string>, name: string)
    ensures var seg := Segment(lines); var r := ExtractSectionsFromLines(lines);
      && (name in r <==> exists i :: 0 <= i < |seg.blocks| && Contributes(seg.blocks[i], name))
      && (forall i :: 0 <= i < |seg.blocks| && Contributes(seg.blocks[i], name)
            && (forall j :: i < j < |seg.blocks| ==> !Contributes(seg.blocks[j], name))
            ==> name in r && r[name] == BlockText(seg.blocks[i]))
      && (forall k :: k in r ==> k != "" && IsHeader(k + ":") && r[k] != "")
  {
    var seg := Segment(lines);
    ExtractIsBlockReading(lines);
    SectionsOfKeys(seg.blocks, map[], name);
    forall i | 0 <= i < |seg.blocks| && Contributes(seg.blocks[i], name)
        && (forall j :: i < j < |seg.blocks| ==> !Contributes(seg.blocks[j], name))
      ensures name in SectionsOf(seg.blocks, map[]) && SectionsOf(seg.blocks, map[])[name] == BlockText(seg.blocks[i])
    {
      SectionsOfLastWins(seg.blocks, map[], name, i);
    }
    SectionsOfShape(seg.blocks, map[]);
  }

  /** Header lines used by the worked example below. */
  lemma ExampleHeaders()
    ensures IsHeader("A:") && IsHeader("B:") && IsHeader("C:") && IsHeader(":")
    ensures !IsHeader("intro") && !IsHeader("x") && !IsHeader("") && !IsHeader("y") && !IsHeader("z") && !IsHeader("w")
  {
    HeaderIff("A:");
    HeaderIff("B:");
    HeaderIff("C:");
    HeaderIff(":");
  }

  /** Lines before the first header, a header without content (`B:`), the
      lines after an empty-name header `:`, and a repeated header (`A:`) whose
      later content replaces the earlier. */
  lemma ExtractSectionsExample()
    ensures ExtractSectionsFromLines(["intro", "A:", "x", "", "B:", ":", "y", "C:", "z", "A:", "w"])
         == map["C" := "z", "A" := "w"]
  {
    ExampleHeaders();
    assert HeaderName("A:") == "A";
    var r := map["C" := "z", "A" := "w"];
    ExampleContentLine();
    assert Scan(["A:", "x", "", "B:", ":", "y", "C:", "z", "A:", "w"], "", [], map[]) == r;
  }

  /** A non-blank line after a header is collected into that section. */
  lemma ExampleContentLine()
    ensures Scan(["x", "", "B:", ":", "y", "C:", "z", "A:", "w"], "A", [], map[]) == map["C" := "z", "A" := "w"]
  {
    ExampleBlankLine();
    assert !IsHeader("x") by {
      ExampleHeaders();
    }
    assert [] + ["x"] == ["x"];
  }

  /** A blank line inside a section is skipped. */
  lemma ExampleBlankLine()
    ensures Scan(["", "B:", ":", "y", "C:", "z", "A:", "w"], "A", ["x"], map[]) == map["C" := "z", "A" := "w"]
  {
    ExampleMiddle();
    assert !IsHeader("");
  }

  /** The worked example from the header `B:` on. */
  lemma ExampleMiddle()
    ensures Scan(["B:", ":", "y", "C:", "z", "A:", "w"], "A", ["x"], map[]) == map["C" := "z", "A" := "w"]
  {
    ExampleHeaders();
    assert HeaderName("B:") == "B";
    var m1 := map["A" := "x"];
    ExampleTail(m1);
    assert Flush("A", ["x"], map[]) == m1 by {
      assert Text.Join("\n", ["x"]) == "x";
    }
  }

  /** The worked example from the empty-name header on. */
  lemma ExampleTail(m1: map<string, string>)
    requires m1 == map["A" := "x"]
    ensures Scan([":", "y", "C:", "z", "A:", "w"], "B", [], m1) == map["C" := "z", "A" := "w"]
  {
    ExampleHeaders();
    assert HeaderName("A:") == "A";
    assert HeaderName("C:") == "C";
    assert HeaderName(":") == "";
    var m2 := m1["C" := "z"];
    assert Scan(["w"], "A", [], m2) == m2["A" := "w"];
    assert Scan(["A:", "w"], "C", ["z"], m1) == m2["A" := "w"];
    assert Scan(["z", "A:", "w"], "C", [], m1) == m2["A" := "w"];
    assert Scan(["C:", "z", "A:", "w"], "", [], m1) == m2["A" := "w"];
    assert m2["A" := "w"] == map["C" := "z", "A" := "w"];
  }

  // ---------------------------------------------------------------------
  // `_parse_tailored_resume`

  /** Non-empty, with no whitespace at either end: what `strip` leaves of a non-blank string. */
  predicate Trimmed(s: string) {
    s != "" && s[0] !in Text.Whitespace && s[|s| - 1] !in Text.Whitespace
  }

  /** The stripped pieces of `s.strip().split(',')`, without the empty ones. */
  function StrippedPieces(parts: seq<string>): (items: seq<string>)
    ensures forall i :: 0 <= i < |items| ==> Trimmed(items[i])
    decreases |parts|
  {
    if parts == [] then []
    else
      var rest := StrippedPieces(parts[1..]);
      var p := Text.Strip(parts[0]);
      if p == "" then rest
      else
        assert Trimmed(p);
        [p] + rest
  }

  /** The pieces are handled one by one, in order. */
  lemma {:induction false} StrippedPiecesAppend(a: seq<string>, b: seq<string>)
    ensures StrippedPieces(a + b) == StrippedPieces(a) + StrippedPieces(b)
    decreases |a|
  {
    if a == [] {
      assert a + b == b;
    } else {
      assert (a + b)[0] == a[0] && (a + b)[1..] == a[1..] + b;
      StrippedPiecesAppend(a[1..], b);
    }
  }

  /** One piece gives its stripped text, unless that is empty. */
  lemma StrippedPiecesOne(p: string)
    ensures StrippedPieces([p]) == if Text.Strip(p) == "" then [] else [Text.Strip(p)]
  {
    assert [p][1..] == [];
  }

  /** `[x.strip() for x in text.strip().split(',') if x.strip()]` */
  function CommaList(text: string): seq<string> {
    StrippedPieces(Text.Split(Text.Strip(text), ','))
  }

  /** A list item as the source would produce it: non-empty, no comma, no
      surrounding whitespace. */
  predicate CleanItem(s: string) {
    Trimmed(s) && ',' !in s
  }

  lemma StripNoSpaceEnds(s: string)
    requires Trimmed(s)
    ensures Text.Strip(s) == s
  {
    Text.StripCharsNoop(s, Text.Whitespace);
  }

  lemma {:induction false} StrippedPiecesOfClean(items: seq<string>)
    requires forall i :: 0 <= i < |items| ==> CleanItem(items[i])
    ensures StrippedPieces(Text.PrefixRest(" ", items)) == items
    decreases |items|, 1
  {
    if items != [] {
      var p := Text.PrefixRest(" ", items);
      assert p == [items[0]] + p[1..];
      StrippedPiecesAppend([items[0]], p[1..]);
      StripNoSpaceEnds(items[0]);
      StrippedPiecesOne(items[0]);
      if |items| > 1 {
        PiecesAfterFirst(items);
      } else {
        assert p[1..] == [];
      }
      assert [items[0]] + items[1..] == items;
    }
  }

  lemma {:induction false} PiecesAfterFirst(items: seq<string>)
    requires |items| > 1
    requires forall i :: 0 <= i < |items| ==> CleanItem(items[i])
    ensures StrippedPieces(Text.PrefixRest(" ", items)[1..]) == items[1..]
    decreases |items|, 0
  {
    var p := Text.PrefixRest(" ", items);
    var q := Text.PrefixRest(" ", items[1..]);
    assert p[1..] == [" " + items[1]] + q[1..];
    assert q == [items[1]] + q[1..];
    StrippedPiecesAppend([" " + items[1]], q[1..]);
    StrippedPiecesAppend([items[1]], q[1..]);
    Text.StripCharsPrepend(" ", items[1], Text.Whitespace);
    StripNoSpaceEnds(items[1]);
    StrippedPiecesOne(" " + items[1]);
    StrippedPiecesOne(items[1]);
    StrippedPiecesOfClean(items[1..]);
  }

  /** A ", "-joined list of clean items has no surrounding whitespace. */
  lemma {:induction false} JoinedCleanIsStripped(items: seq<string>)
    requires |items| > 0
    requires forall i :: 0 <= i < |items| ==> CleanItem(items[i])
    ensures Text.Strip(Text.Join(", ", items)) == Text.Join(", ", items)
  {
    var joined := Text.Join(", ", items);
    var last := items[|items| - 1];
    Text.JoinStartsWithFirst(", ", items);
    Text.JoinEndsWithLast(", ", items);
    assert joined[0] == joined[..|items[0]|][0] == items[0][0];
    assert joined[|joined| - 1] == last[|last| - 1];
    StripNoSpaceEnds(joined);
  }

  /** Splitting a ", "-joined list at the commas gives the items, all but the
      first behind a space. */
  lemma {:induction false} SplitJoinedClean(items: seq<string>)
    requires |items| > 0
    requires forall i :: 0 <= i < |items| ==> CleanItem(items[i])
    ensures Text.Split(Text.Join(", ", items), ',') == Text.PrefixRest(" ", items)
  {
    Text.JoinLongSeparator(',', " ", items);
    assert ", " == [','] + " ";
    var p := Text.PrefixRest(" ", items);
    forall i | 0 <= i < |p|
      ensures ',' !in p[i]
    {
      if i > 0 {
        assert p[i] == " " + items[i];
      }
    }
    Text.SplitJoin(p, ',');
  }

  /** Reading back a ", "-joined list of clean items gives the items. */
  lemma CommaListRoundTrip(items: seq<string>)
    requires |items| > 0
    requires forall i :: 0 <= i < |items| ==> CleanItem(items[i])
    ensures CommaList(Text.Join(", ", items)) == items
  {
    JoinedCleanIsStripped(items);
    SplitJoinedClean(items);
    StrippedPiecesOfClean(items);
  }

  /** `set(tailored_resume.get('skills', []))` raises for a non-iterable value
      or a list holding a list or dict. */
  predicate SkillSetRaises(skills: Value) {
    || skills.Null? || skills.Bool? || skills.Num?
    || (skills.Arr? && exists i :: 0 <= i < |skills.items| && !Hashable(skills.items[i]))
  }

  /** `keyword in existing_skills`, where `existing_skills` is built from the
      skills value: the items of a list, the characters of a string, the keys of a dict. */
  predicate InSkillSet(skills: Value, keyword: string) {
    match skills
    case Arr(items) => Str(keyword) in items
    case Str(s) => |keyword| == 1 && keyword[0] in s
    case Obj(m) => keyword in m
    case _ => false
  }

  /** The keywords the loop tries to append, repetitions included (the set is not updated). */
  function NewKeywords(skills: Option<Value>, keywords: seq<string>): (added: seq<string>)
    ensures |added| <= |keywords|
    ensures forall k :: k in added <==> k in keywords && !(skills.Some? && InSkillSet(skills.value, k))
    decreases |keywords|
  {
    if keywords == [] then []
    else
      var rest := NewKeywords(skills, keywords[1..]);
      if skills.Some? && InSkillSet(skills.value, keywords[0]) then rest else [keywords[0]] + rest
  }

  /** The outcome of the keyword loop on the current skills value. */
  datatype KeywordMerge = Unchanged | Appended(skills: Value) | Raised

  function MergeKeywords(skills: Option<Value>, keywords: seq<string>): KeywordMerge {
    if skills.Some? && SkillSetRaises(skills.value) then Raised
    else
      var added := NewKeywords(skills, keywords);
      if added == [] then Unchanged
      else match skills
        case Some(Arr(items)) => Appended(Arr(items + StrList(added)))
        case _ => Raised   // no `skills` key, or a string or dict without `append`
  }

  function StrList(items: seq<string>): (r: seq<Value>)
    ensures |r| == |items| && forall i :: 0 <= i < |items| ==> r[i] == Str(items[i])
  {
    seq(|items|, i requires 0 <= i < |items| => Str(items[i]))
  }

  function SectionList(sections: map<string, string>, name: string): seq<string> {
    if name in sections then CommaList(sections[name]) else []
  }

  function Get(d: map<string, Value>, key: string): Option<Value> {
    if key in d then Some(d[key]) else None
  }

  /** The copy after the summary and skills overlays, before the keywords. */
  function Overlay(sections: map<string, string>, original: map<string, Value>): map<string, Value> {
    var t1 := if "TAILORED SUMMARY" in sections
      then original["summary" := Str(Text.Strip(sections["TAILORED SUMMARY"]))] else original;
    var skills := SectionList(sections, "PRIORITIZED SKILLS");
    if skills != [] then t1["skills" := Arr(StrList(skills))] else t1
  }

  /** The keyword loop raised, so the source returns the original résumé. */
  predicate FallsBack(sections: map<string, string>, original: map<string, Value>) {
    var keywords := SectionList(sections, "KEYWORDS TO INCLUDE");
    keywords != [] && MergeKeywords(Get(Overlay(sections, original), "skills"), keywords).Raised?
  }

  /** `_parse_tailored_resume` once the sections have been extracted. */
  function TailorFromSections(sections: map<string, string>, original: map<string, Value>): map<string, Value> {
    ApplyKeywords(Overlay(sections, original), SectionList(sections, "KEYWORDS TO INCLUDE"), original)
  }

  /** The keyword loop on the overlaid copy `t`; `original` is what comes back if it raises. */
  function ApplyKeywords(t: map<string, Value>, keywords: seq<string>, original: map<string, Value>): map<string, Value> {
    if keywords == [] then t
    else match MergeKeywords(Get(t, "skills"), keywords)
      case Unchanged => t
      case Appended(v) => t["skills" := v]
      case Raised => original
  }

  /** `_parse_tailored_resume(reply, original)` */
  function ParseTailoredResume(reply: string, original: map<string, Value>): map<string, Value> {
    TailorFromSections(ExtractSections(reply), original)
  }

  lemma OverlayKeepsOtherFields(sections: map<string, string>, original: map<string, Value>, k: string)
    requires k != "summary" && k != "skills"
    ensures var t := Overlay(sections, original);
      (k in t <==> k in original) && (k in t ==> t[k] == original[k])
  {
    var t1 := if "TAILORED SUMMARY" in sections
      then original["summary" := Str(Text.Strip(sections["TAILORED SUMMARY"]))] else original;
    assert (k in t1 <==> k in original) && (k in t1 ==> t1[k] == original[k]);
  }

  /** Only `summary` and `skills` can change; every other field keeps its presence and value. */
  lemma TailorKeepsOtherFields(sections: map<string, string>, original: map<string, Value>, k: string)
    requires k != "summary" && k != "skills"
    ensures var r := TailorFromSections(sections, original);
      (k in r <==> k in original) && (k in r ==> r[k] == original[k])
  {
    OverlayKeepsOtherFields(sections, original, k);
    ApplyKeywordsOther(Overlay(sections, original), SectionList(sections, "KEYWORDS TO INCLUDE"), original, k);
  }

  /** The keyword step either returns the original or changes nothing but `skills`. */
  lemma ApplyKeywordsOther(t: map<string, Value>, keywords: seq<string>, original: map<string, Value>, k: string)
    requires k != "skills"
    ensures var r := ApplyKeywords(t, keywords, original);
      r == original || ((k in r <==> k in t) && (k in r ==> r[k] == t[k]))
  {
    if keywords != [] {
      var m := MergeKeywords(Get(t, "skills"), keywords);
      if m.Appended? {
        assert ApplyKeywords(t, keywords, original) == t["skills" := m.skills];
      }
    }
  }

  /** What the summary and skills overlays leave in `summary` and `skills`. */
  lemma OverlayFields(sections: map<string, string>, original: map<string, Value>)
    ensures var t := Overlay(sections, original);
      var skills := SectionList(sections, "PRIORITIZED SKILLS");
      && Get(t, "summary") == (if "TAILORED SUMMARY" in sections
           then Some(Str(Text.Strip(sections["TAILORED SUMMARY"]))) else Get(original, "summary"))
      && Get(t, "skills") == (if skills != [] then Some(Arr(StrList(skills))) else Get(original, "skills"))
  {
  }

  /** Without a fallback the keyword step touches only `skills`, and only by appending. */
  lemma KeywordStep(sections: map<string, string>, original: map<string, Value>)
    requires !FallsBack(sections, original)
    ensures var t := Overlay(sections, original);
      var r := TailorFromSections(sections, original);
      var sk := Get(t, "skills");
      var keywords := SectionList(sections, "KEYWORDS TO INCLUDE");
      var added := NewKeywords(sk, keywords);
      && Get(r, "summary") == Get(t, "summary")
      && (keywords == [] || added == [] ==> Get(r, "skills") == sk)
      && (keywords != [] && added != [] ==>
            sk.Some? && sk.value.Arr? && Get(r, "skills") == Some(Arr(sk.value.items + StrList(added))))
  {
    ApplyKeywordsFields(Overlay(sections, original), SectionList(sections, "KEYWORDS TO INCLUDE"), original);
  }

  lemma ApplyKeywordsFields(t: map<string, Value>, keywords: seq<string>, original: map<string, Value>)
    requires keywords == [] || !MergeKeywords(Get(t, "skills"), keywords).Raised?
    ensures var r := ApplyKeywords(t, keywords, original);
      var sk := Get(t, "skills");
      var added := NewKeywords(sk, keywords);
      && Get(r, "summary") == Get(t, "summary")
      && (keywords == [] || added == [] ==> Get(r, "skills") == sk)
      && (keywords != [] && added != [] ==>
            sk.Some? && sk.value.Arr? && Get(r, "skills") == Some(Arr(sk.value.items + StrList(added))))
  {
    if keywords != [] {
      var m := MergeKeywords(Get(t, "skills"), keywords);
      if m.Appended? {
        assert ApplyKeywords(t, keywords, original) == t["skills" := m.skills];
      }
    }
  }

  /** When the keyword loop raises the original comes back unchanged; otherwise
      the summary is the stripped 'TAILORED SUMMARY' text exactly when that section exists. */
  lemma TailorSummary(sections: map<string, string>, original: map<string, Value>)
    ensures FallsBack(sections, original) ==> TailorFromSections(sections, original) == original
    ensures !FallsBack(sections, original) ==>
      var r := TailorFromSections(sections, original);
      && ("TAILORED SUMMARY" in sections ==> "summary" in r && r["summary"] == Str(Text.Strip(sections["TAILORED SUMMARY"])))
      && ("TAILORED SUMMARY" !in sections ==> Get(r, "summary") == Get(original, "summary"))
  {
    if !FallsBack(sections, original) {
      OverlayFields(sections, original);
      KeywordStep(sections, original);
    }
  }

  /** Without a fallback, the skills are the original's unless 'PRIORITIZED SKILLS'
      yields a non-empty list, which replaces them; the new keywords, in order and
      with repetitions, are appended after them. */
  lemma TailorSkills(sections: map<string, string>, original: map<string, Value>)
    requires !FallsBack(sections, original)
    ensures var r := TailorFromSections(sections, original);
      var skills := SectionList(sections, "PRIORITIZED SKILLS");
      var keywords := SectionList(sections, "KEYWORDS TO INCLUDE");
      && (skills != [] && keywords == [] ==> Get(r, "skills") == Some(Arr(StrList(skills))))
      && (skills != [] ==> Get(r, "skills") == Some(Arr(StrList(skills) + StrList(NewKeywords(Some(Arr(StrList(skills))), keywords)))))
      && (skills == [] && keywords == [] ==> Get(r, "skills") == Get(original, "skills"))
  {
    var skills := SectionList(sections, "PRIORITIZED SKILLS");
    var keywords := SectionList(sections, "KEYWORDS TO INCLUDE");
    OverlayFields(sections, original);
    KeywordStep(sections, original);
    if skills != [] {
      var items := StrList(skills);
      var added := NewKeywords(Some(Arr(items)), keywords);
      if keywords == [] || added == [] {
        assert added == [] by {
          if keywords == [] { assert NewKeywords(Some(Arr(items)), keywords) == []; }
        }
        assert items + StrList(added) == items;
      }
    }
  }

  /** Without a fallback or a replacement list, the new keywords are appended
      to the original's skills list. */
  lemma TailorExtendsSkills(sections: map<string, string>, original: map<string, Value>)
    requires !FallsBack(sections, original)
    requires SectionList(sections, "PRIORITIZED SKILLS") == []
    requires "skills" in original && original["skills"].Arr?
    ensures var r := TailorFromSections(sections, original);
      var keywords := SectionList(sections, "KEYWORDS TO INCLUDE");
      Get(r, "skills") == Some(Arr(original["skills"].items + StrList(NewKeywords(Get(original, "skills"), keywords))))
  {
    var keywords := SectionList(sections, "KEYWORDS TO INCLUDE");
    OverlayFields(sections, original);
    KeywordStep(sections, original);
    var items := original["skills"].items;
    var added := NewKeywords(Get(original, "skills"), keywords);
    if keywords == [] || added == [] {
      assert added == [] by {
        if keywords == [] { assert NewKeywords(Get(original, "skills"), keywords) == []; }
      }
      assert items + StrList(added) == items;
    }
  }

  /** No `skills` key, no replacement list and at least one keyword: indexing
      `tailored_resume['skills']` raises and the original is returned. */
  lemma MissingSkillsFallsBack(sections: map<string, string>, original: map<string, Value>)
    requires "skills" !in original
    requires SectionList(sections, "PRIORITIZED SKILLS") == []
    requires SectionList(sections, "KEYWORDS TO INCLUDE") != []
    ensures TailorFromSections(sections, original) == original
  {
    var keywords := SectionList(sections, "KEYWORDS TO INCLUDE");
    assert NewKeywords(None, keywords) != [];
  }

  /** The existing set is built once, so a new keyword listed twice is appended twice. */
  lemma RepeatedKeywordAppendedTwice()
    ensures MergeKeywords(Some(Arr([Str("Python")])), ["Go", "Go"])
         == Appended(Arr([Str("Python"), Str("Go"), Str("Go")]))
  {
    var skills := Some(Arr([Str("Python")]));
    assert !SkillSetRaises(skills.value);
    assert !InSkillSet(skills.value, "Go");
    assert ["Go", "Go"][1..] == ["Go"];
    assert NewKeywords(skills, ["Go"]) == ["Go"];
    assert NewKeywords(skills, ["Go", "Go"]) == ["Go", "Go"];
    assert [Str("Python")] + StrList(["Go", "Go"]) == [Str("Python"), Str("Go"), Str("Go")];
  }

  // ---------------------------------------------------------------------
  // Tailoring several jobs from one base résumé (main.py)

  /** The caller's résumé after `_parse_tailored_resume` as written: the copy
      is shallow, so when the skills list was not replaced the keywords are
      appended to the very list the original holds. */
  function OriginalAfterAsWritten(sections: map<string, string>, original: map<string, Value>): map<string, Value> {
    var keywords := SectionList(sections, "KEYWORDS TO INCLUDE");
    var shared := SectionList(sections, "PRIORITIZED SKILLS") == [];
    if keywords != [] && shared then
      match MergeKeywords(Get(Overlay(sections, original), "skills"), keywords)
      case Appended(v) => original["skills" := v]
      case _ => original
    else original
  }

  /** As written: `create_tailored_resumes` tailors each job from
      `self.resume_data`, which earlier jobs may have extended. */
  function TailorEachAsWritten(replies: seq<map<string, string>>, base: map<string, Value>): (r: seq<map<string, Value>>)
    ensures |r| == |replies|
    decreases |replies|
  {
    if replies == [] then []
    else [TailorFromSections(replies[0], base)] + TailorEachAsWritten(replies[1..], OriginalAfterAsWritten(replies[0], base))
  }

  /** Corrected: every job is tailored from the unchanged base résumé. */
  function TailorEach(replies: seq<map<string, string>>, base: map<string, Value>): (r: seq<map<string, Value>>)
    ensures |r| == |replies|
  {
    seq(|replies|, i requires 0 <= i < |replies| => TailorFromSections(replies[i], base))
  }

  /** With the corrected copy, a job's résumé depends only on its own reply. */
  lemma TailorEachIndependent(replies: seq<map<string, string>>, others: seq<map<string, string>>, base: map<string, Value>, i: int)
    requires 0 <= i < |replies| && 0 <= i < |others| && replies[i] == others[i]
    ensures TailorEach(replies, base)[i] == TailorEach(others, base)[i]
  {
  }

  /** A reply with no sections leaves the résumé as it is. */
  lemma TailorNoSections(original: map<string, Value>)
    ensures TailorFromSections(map[], original) == original
  {
  }

  /** As written, a keyword added for one job shows up in the next job's
      résumé, whose own reply asked for nothing; the corrected version keeps
      the next résumé's skills as they were. */
  lemma KeywordLeaksIntoNextJob(items: seq<Value>, k: string)
    requires CleanItem(k) && Str(k) !in items
    requires forall i :: 0 <= i < |items| ==> Hashable(items[i])
    ensures var base := map["skills" := Arr(items)];
      var replies := [map["KEYWORDS TO INCLUDE" := k], map[]];
      && Get(TailorEachAsWritten(replies, base)[1], "skills") == Some(Arr(items + [Str(k)]))
      && Get(TailorEach(replies, base)[1], "skills") == Some(Arr(items))
  {
    var base := map["skills" := Arr(items)];
    var first := map["KEYWORDS TO INCLUDE" := k];
    var replies := [first, map[]];
    CommaListRoundTrip([k]);
    assert Text.Join(", ", [k]) == k;
    assert SectionList(first, "KEYWORDS TO INCLUDE") == [k];
    assert SectionList(first, "PRIORITIZED SKILLS") == [];
    assert Overlay(first, base) == base;
    assert !SkillSetRaises(Arr(items));
    assert NewKeywords(Some(Arr(items)), [k]) == [k];
    assert StrList([k]) == [Str(k)];
    assert MergeKeywords(Some(Arr(items)), [k]) == Appended(Arr(items + [Str(k)]));
    var after := OriginalAfterAsWritten(first, base);
    assert after == base["skills" := Arr(items + [Str(k)])];
    assert replies[1..] == [map[]];
    TailorNoSections(after);
    TailorNoSections(base);
    assert TailorEachAsWritten(replies, base)[1] == TailorFromSections(map[], after);
  }
}
