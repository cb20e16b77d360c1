/** The comint buffer: an editor buffer that shows the output of a shell
    process and takes the commands typed after it. It keeps the process
    insertion point (where the next output goes) and the range of the last
    output, which ends one column short of the insertion point so that text
    typed right after the output does not extend it. */
module Comint {
  import opened Wrappers
  import opened TextBuffer

  /** What the comint buffer knows: the lines of the editor buffer, the
      process insertion point and the range recorded for the last output. */
  datatype View = View(lines: seq<string>, point: Point, recorded: Option<Range>)

  /** The end of the protected output (`processInsertionEnd`): the origin
      before any output, else the end of the last recorded range. */
  function InsertionEnd(v: View): (e: Point)
    ensures v.recorded.None? ==> e == Point(0, 0)
    ensures v.recorded.Some? ==> e == v.recorded.value.end
  {
    match v.recorded
    case None => Point(0, 0)
    case Some(r) => r.end
  }

  /** `renderOutput` on already stripped text: insert it at the insertion
      point, mark the inserted range less its last column, and move the
      insertion point to the end of the inserted text. */
  function Rendered(v: View, text: string): View
    requires WellFormed(v.lines)
  {
    var (after, inserted) := Insert(v.lines, v.point, text);
    InsertSpec(v.lines, v.point, text);
    var clipped := Range(inserted.start, Point(inserted.end.row, inserted.end.column - 1));
    View(after, inserted.end, Some(MarkRange(after, clipped)))
  }

  /** The command `sendCommand` reads for a cursor at `cursor`: the whole
      line when the cursor is before the output boundary `boundary`, else
      the text from one column past the boundary to the cursor. */
  function CommandText(lines: seq<string>, cursor: Point, boundary: Point): string
    requires WellFormed(lines) && InBuffer(lines, cursor)
  {
    if Less(cursor, boundary) then lines[cursor.row]
    else TextInRange(lines, Range(Point(boundary.row, boundary.column + 1), cursor))
  }

  /** Successive renders of the chunks `texts`, first to last. */
  function RenderedAll(v: View, texts: seq<string>): (w: View)
    requires WellFormed(v.lines)
    ensures WellFormed(w.lines)
  {
    if texts == [] then v
    else
      var mid := RenderedAll(v, texts[..|texts| - 1]);
      RenderSpec(mid, texts[|texts| - 1]);
      Rendered(mid, texts[|texts| - 1])
  }

  function Concat(texts: seq<string>): string
  {
    if texts == [] then "" else Concat(texts[..|texts| - 1]) + texts[|texts| - 1]
  }

  class ComintBuffer {
    var lines: seq<string>
    var processInsertionPoint: Point
    var lastInsertedRange: Option<Range>
    /** The ANSI stripping of the output (`ansi_to_text`), left abstract. */
    const ansiToText: string -> string

    /** The buffer is well formed, and the output boundary is never past the
        insertion point. */
    ghost predicate Valid()
      reads this
    {
      WellFormed(lines) && LessEq(InsertionEnd(State()), processInsertionPoint)
    }

    function State(): View
      reads this
    {
      View(lines, processInsertionPoint, lastInsertedRange)
    }

    /** The state once the editor is open: an empty buffer, the insertion
        point at the origin and no output recorded. */
    constructor (ansiToText: string -> string)
      ensures Valid() && this.ansiToText == ansiToText
      ensures State() == View([""], Point(0, 0), None)
    {
      lines := [""];
      processInsertionPoint := Point(0, 0);
      lastInsertedRange := None;
      this.ansiToText := ansiToText;
    }

    method RenderOutput(output: string)
      requires Valid()
      modifies this
      ensures Valid()
      ensures State() == Rendered(old(State()), ansiToText(output))
      ensures var q := Clip(old(lines), old(processInsertionPoint));
        var k := Offset(old(lines), q);
        k <= |Join(old(lines))| &&
        Join(lines) == Join(old(lines))[..k] + ansiToText(output) + Join(old(lines))[k..] &&
        InBuffer(lines, processInsertionPoint) &&
        Offset(lines, processInsertionPoint) == k + |ansiToText(output)|
      ensures InBuffer(old(lines), old(processInsertionPoint)) ==>
                LessEq(old(processInsertionPoint), processInsertionPoint)
    {
      var text := ansiToText(output);
      ghost var v := State();
      var (after, inserted) := Insert(lines, processInsertionPoint, text);
      lines := after;
      var clipped := Range(inserted.start, Point(inserted.end.row, inserted.end.column - 1));
      lastInsertedRange := Some(MarkRange(lines, clipped));
      processInsertionPoint := inserted.end;
      assert State() == Rendered(v, text);
      RenderSpec(v, text);
      RenderKeepsBoundary(v, text);
    }

    /** The `processInsertionEnd` getter: the end of the last output's
        marker, or the origin before any output; it never lies past the
        insertion point. */
    function ProcessInsertionEnd(): (e: Point)
      reads this
      ensures lastInsertedRange.None? ==> e == Point(0, 0)
      ensures lastInsertedRange.Some? ==> e == lastInsertedRange.value.end
      ensures Valid() ==> LessEq(e, processInsertionPoint)
    {
      InsertionEnd(State())
    }

    /** `sendCommand` with the editor's cursor at `cursor`; the result is the
        message sent to the process. */
    method SendCommand(cursor: Point) returns (message: string)
      requires Valid() && InBuffer(lines, cursor)
      modifies this
      ensures Valid()
      ensures var v := old(State());
        var boundary := InsertionEnd(v);
        message == CommandText(v.lines, cursor, boundary) + "\n" &&
        State() == Rendered(if Less(cursor, boundary) then v else v.(point := cursor), ansiToText("\n"))
    {
      ghost var v := State();
      ghost var command := CommandText(v.lines, cursor, InsertionEnd(v));
      var point := cursor;
      var line: string;
      if Less(point, ProcessInsertionEnd()) {
        line := lines[point.row];
      } else {
        var boundary := ProcessInsertionEnd();
        line := TextInRange(lines, Range(Point(boundary.row, boundary.column + 1), point));
        processInsertionPoint := point;
        assert State() == v.(point := cursor);
      }
      assert line == command;
      RenderOutput("\n");
      message := line + "\n";
    }

    /** `clearBuffer` with the editor's cursor at `cursor`. */
    method ClearBuffer(cursor: Point)
      requires Valid() && InBuffer(lines, cursor)
      modifies this`lines
      ensures Valid()
      ensures lines == old(lines)[cursor.row..]
      ensures var k := Offset(old(lines), Point(cursor.row, 0));
        k <= |Join(old(lines))| && Join(lines) == Join(old(lines))[k..]
    {
      var r := Range(Point(0, 0), Point(cursor.row, 0));
      OffsetBounds(lines, r.start, r.end);
      DeleteLeadingRows(lines, cursor.row);
      DeleteSpec(lines, r);
      lines := Delete(lines, r);
    }
  }

  /** Rendering splices the text into the buffer at the (clipped) insertion
      point, moves the insertion point exactly past it, never backwards, and
      the inserted range reads back as the text. */
  lemma RenderSpec(v: View, text: string)
    requires WellFormed(v.lines)
    ensures var w := Rendered(v, text);
      var q := Clip(v.lines, v.point);
      var k := Offset(v.lines, q);
      WellFormed(w.lines) && InBuffer(w.lines, w.point) &&
      k <= |Join(v.lines)| &&
      Join(w.lines) == Join(v.lines)[..k] + text + Join(v.lines)[k..] &&
      Offset(w.lines, w.point) == k + |text| &&
      LessEq(q, w.point) && (InBuffer(v.lines, v.point) ==> LessEq(v.point, w.point)) &&
      TextInRange(w.lines, Range(q, w.point)) == text
  {
    InsertSpec(v.lines, v.point, text);
  }

  /** After a render the boundary is at or before the new insertion point. */
  lemma RenderKeepsBoundary(v: View, text: string)
    requires WellFormed(v.lines)
    ensures var w := Rendered(v, text);
      WellFormed(w.lines) && LessEq(InsertionEnd(w), w.point)
  {
    RecordedOutputRange(v, text);
  }

  /** The recorded output range starts where the text was inserted and ends
      one column before the new insertion point (at column 0 when the text
      ends at the start of a line); when nothing was inserted the range is
      normalized and ends at the insertion point itself. */
  lemma RecordedOutputRange(v: View, text: string)
    requires WellFormed(v.lines)
    ensures var w := Rendered(v, text);
      var q := Clip(v.lines, v.point);
      w.recorded.Some? && InsertionEnd(w) == w.recorded.value.end &&
      LessEq(InsertionEnd(w), w.point) &&
      (text != [] ==>
         (w.recorded.value.start == q &&
          InsertionEnd(w) == Point(w.point.row, if w.point.column > 0 then w.point.column - 1 else 0))) &&
      (text == [] ==> w.point == q && InsertionEnd(w) == q)
  {
    InsertSpec(v.lines, v.point, text);
  }

  /** After output that ends in a character other than a line break, one
      column past the boundary is exactly the insertion point, so the next
      command is the text typed after the output. */
  lemma CommandStartsAtInsertionPoint(v: View, text: string)
    requires WellFormed(v.lines) && text != [] && text[|text| - 1] != '\n'
    ensures var w := Rendered(v, text);
      Point(InsertionEnd(w).row, InsertionEnd(w).column + 1) == w.point
  {
    InsertSpec(v.lines, v.point, text);
    ExtentOfText(text);
    RecordedOutputRange(v, text);
  }

  /** At render time, after output that is empty or ends in a line break,
      the boundary is the insertion point itself, so a command read by
      `sendCommand` starts one column after it. In this model, where the
      recorded range does not move, the first character typed there is not
      sent. */
  lemma CommandSkipsColumnAfterBoundary(v: View, text: string)
    requires WellFormed(v.lines) && (text == [] || text[|text| - 1] == '\n')
    ensures var w := Rendered(v, text);
      InsertionEnd(w) == w.point &&
      (text != [] ==> w.point.column == 0)
  {
    InsertSpec(v.lines, v.point, text);
    ExtentOfText(text);
    RecordedOutputRange(v, text);
  }

  /** Rendering chunks one after another is rendering their concatenation:
      the insertion point only moves forward and ends past all of them. */
  lemma {:induction false} RenderedAllSpec(v: View, texts: seq<string>)
    requires WellFormed(v.lines) && InBuffer(v.lines, v.point)
    ensures var w := RenderedAll(v, texts);
      var k := Offset(v.lines, v.point);
      InBuffer(w.lines, w.point) && LessEq(v.point, w.point) &&
      k <= |Join(v.lines)| &&
      Join(w.lines) == Join(v.lines)[..k] + Concat(texts) + Join(v.lines)[k..] &&
      Offset(w.lines, w.point) == k + |Concat(texts)|
  {
    var k := Offset(v.lines, v.point);
    OffsetBounds(v.lines, v.point, v.point);
    if texts != [] {
      var init, last := texts[..|texts| - 1], texts[|texts| - 1];
      RenderedAllSpec(v, init);
      var mid := RenderedAll(v, init);
      RenderSpec(mid, last);
      SpliceTwice(Join(v.lines), Concat(init), last, k);
    }
  }

  lemma SpliceTwice(j: string, c: string, d: string, k: nat)
    requires k <= |j|
    ensures var m := j[..k] + c + j[k..];
      k + |c| <= |m| && m[..k + |c|] + d + m[k + |c|..] == j[..k] + (c + d) + j[k..]
  {
    var m := j[..k] + c + j[k..];
    assert m[..k + |c|] == j[..k] + c;
    assert m[k + |c|..] == j[k..];
  }

  /** In `sendCommand`, when the cursor is not before the boundary, the
      command is taken from the text before the cursor and stays in place:
      the rendered line break follows it and the insertion point moves past
      that line break. */
  lemma SubmittedCommandPrecedesNewline(v: View, cursor: Point, newline: string)
    requires WellFormed(v.lines) && InBuffer(v.lines, cursor)
    requires !Less(cursor, InsertionEnd(v))
    requires var s := Point(InsertionEnd(v).row, InsertionEnd(v).column + 1);
      InBuffer(v.lines, s) && LessEq(s, cursor)
    ensures var s := Point(InsertionEnd(v).row, InsertionEnd(v).column + 1);
      var w := Rendered(v.(point := cursor), newline);
      var k := Offset(v.lines, cursor);
      Offset(v.lines, s) <= k <= |Join(v.lines)| &&
      CommandText(v.lines, cursor, InsertionEnd(v)) == Join(v.lines)[Offset(v.lines, s)..k] &&
      Join(w.lines) == Join(v.lines)[..k] + newline + Join(v.lines)[k..] &&
      Offset(w.lines, w.point) == k + |newline|
  {
    var s := Point(InsertionEnd(v).row, InsertionEnd(v).column + 1);
    OffsetBounds(v.lines, s, cursor);
    RenderSpec(v.(point := cursor), newline);
  }

  /** With the cursor exactly on the boundary the range read by
      `sendCommand` is normalized to run from the cursor to one column past
      it: the command is the single character under the cursor. */
  lemma CommandAtBoundary(lines: seq<string>, e: Point)
    requires WellFormed(lines) && InBuffer(lines, e) && e.column < |lines[e.row]|
    ensures CommandText(lines, e, e) == [lines[e.row][e.column]]
  {
    var s := Point(e.row, e.column + 1);
    assert ClipRange(lines, Range(s, e)) == Range(e, s);
    CutAt(lines, e);
    var suffix := SuffixAt(lines, e);
    assert Join(suffix)[0] == suffix[0][0];
    assert Join(lines)[Offset(lines, e)] == lines[e.row][e.column];
  }
}
