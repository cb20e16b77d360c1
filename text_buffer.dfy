/** The editor's text buffer as the comint buffer uses it: a sequence of lines
    (the text between line breaks), positions as (row, column) pairs compared
    row-major, and the buffer operations `insert`, `delete`, `getTextInRange`
    and `markRange` with the editor's clipping of positions to the buffer. */
module TextBuffer {

  datatype Point = Point(row: int, column: int)

  datatype Range = Range(start: Point, end: Point)

  /** Row-major order of positions (`Point.isLessThan`). */
  predicate Less(a: Point, b: Point)
  {
    a.row < b.row || (a.row == b.row && a.column < b.column)
  }

  predicate LessEq(a: Point, b: Point)
  {
    !Less(b, a)
  }

  predicate NoNewline(line: string)
  {
    forall i :: 0 <= i < |line| ==> line[i] != '\n'
  }

  /** A buffer always has at least one line, and no line holds a line break. */
  predicate WellFormed(lines: seq<string>)
  {
    |lines| >= 1 && forall r :: 0 <= r < |lines| ==> NoNewline(lines[r])
  }

  predicate InBuffer(lines: seq<string>, p: Point)
  {
    0 <= p.row < |lines| && 0 <= p.column <= |lines[p.row]|
  }

  /** The position after the last character (`getEndPosition`). */
  function EndOf(lines: seq<string>): (p: Point)
    requires |lines| >= 1
    ensures InBuffer(lines, p)
  {
    Point(|lines| - 1, |lines[|lines| - 1]|)
  }

  /** `clipPosition`: a row before the buffer goes to its start, a row after
      it to its end, and a column is clamped to the line. */
  function Clip(lines: seq<string>, p: Point): (q: Point)
    requires |lines| >= 1
    ensures InBuffer(lines, q)
    ensures InBuffer(lines, p) ==> q == p
  {
    if p.row < 0 then Point(0, 0)
    else if p.row > |lines| - 1 then EndOf(lines)
    else if p.column < 0 then Point(p.row, 0)
    else if p.column > |lines[p.row]| then Point(p.row, |lines[p.row]|)
    else p
  }

  lemma ClipMonotone(lines: seq<string>, a: Point, b: Point)
    requires |lines| >= 1 && LessEq(a, b)
    ensures LessEq(Clip(lines, a), Clip(lines, b))
  {
  }

  /** A range built from two positions starts at the earlier one. */
  function Normalized(r: Range): (n: Range)
    ensures LessEq(n.start, n.end)
    ensures {n.start, n.end} == {r.start, r.end}
  {
    if LessEq(r.start, r.end) then r else Range(r.end, r.start)
  }

  /** `clipRange`: normalize, then clip both ends. */
  function ClipRange(lines: seq<string>, r: Range): (c: Range)
    requires |lines| >= 1
    ensures InBuffer(lines, c.start) && InBuffer(lines, c.end) && LessEq(c.start, c.end)
    ensures InBuffer(lines, r.start) && InBuffer(lines, r.end) && LessEq(r.start, r.end) ==> c == r
  {
    var n := Normalized(r);
    ClipMonotone(lines, n.start, n.end);
    Range(Clip(lines, n.start), Clip(lines, n.end))
  }

  /** The whole text of the buffer: its lines separated by line breaks. */
  function Join(lines: seq<string>): string
  {
    if |lines| == 0 then ""
    else if |lines| == 1 then lines[0]
    else lines[0] + "\n" + Join(lines[1..])
  }

  /** Two line sequences joined end to start: the last line of `a` and the
      first line of `b` become one line. */
  function Glue(a: seq<string>, b: seq<string>): (g: seq<string>)
    requires |a| >= 1 && |b| >= 1
    ensures |g| == |a| + |b| - 1
  {
    a[..|a| - 1] + [a[|a| - 1] + b[0]] + b[1..]
  }

  /** The lines of `text`, split at its line breaks. */
  function Split(text: string): (lines: seq<string>)
    ensures WellFormed(lines) && Join(lines) == text
  {
    if text == [] then [""]
    else
      var rest := Split(text[1..]);
      if text[0] == '\n' then
        assert "" + rest[0] == rest[0];
        assert [""] + rest == Glue(["", ""], rest);
        JoinGlue(["", ""], rest);
        [""] + rest
      else
        assert [[text[0]] + rest[0]] + rest[1..] == Glue([[text[0]]], rest);
        JoinGlue([[text[0]]], rest);
        [[text[0]] + rest[0]] + rest[1..]
  }

  /** The lines up to position `p`, and the lines from `p` on. */
  function PrefixAt(lines: seq<string>, p: Point): seq<string>
    requires InBuffer(lines, p)
  {
    lines[..p.row] + [lines[p.row][..p.column]]
  }

  function SuffixAt(lines: seq<string>, p: Point): seq<string>
    requires InBuffer(lines, p)
  {
    [lines[p.row][p.column..]] + lines[p.row + 1..]
  }

  /** Index in the buffer's text at which row `r` starts. */
  function RowStart(lines: seq<string>, r: nat): nat
    requires r <= |lines|
  {
    if r == 0 then 0 else RowStart(lines, r - 1) + |lines[r - 1]| + 1
  }

  /** Index in the buffer's text of position `p`
      (`characterIndexForPosition`). */
  function Offset(lines: seq<string>, p: Point): nat
    requires InBuffer(lines, p)
  {
    RowStart(lines, p.row) + p.column
  }

  /** `Point.traverse`: the position reached from `p` by moving over a text of
      extent `extent` (line breaks, length of the last line). */
  function Traverse(p: Point, extent: Point): Point
  {
    if extent.row == 0 then Point(p.row, p.column + extent.column)
    else Point(p.row + extent.row, extent.column)
  }

  function Extent(text: string): Point
  {
    var t := Split(text);
    Point(|t| - 1, |t[|t| - 1]|)
  }

  /** `insert(position, text)`: the text is placed at the clipped position;
      the result is the new lines and the range the text occupies. */
  function Insert(lines: seq<string>, p: Point, text: string): (res: (seq<string>, Range))
    requires WellFormed(lines)
    ensures WellFormed(res.0)
    ensures res.1.start == Clip(lines, p)
    ensures res.1.start.row <= res.1.end.row
    ensures |res.0| == |lines| + (res.1.end.row - res.1.start.row)
    ensures res.0[..res.1.start.row] == lines[..res.1.start.row]
  {
    var q := Clip(lines, p);
    var pre, t, suf := PrefixAt(lines, q), Split(text), SuffixAt(lines, q);
    CutsWellFormed(lines, q);
    GlueWellFormed(pre, t);
    GlueWellFormed(Glue(pre, t), suf);
    assert Glue(pre, t)[..q.row] == lines[..q.row];
    (Glue(Glue(pre, t), suf), Range(q, Traverse(q, Extent(text))))
  }

  /** `delete(range)`: the text of the clipped range is removed; the rows
      before and after the range are kept, and the rows it spans become one. */
  function Delete(lines: seq<string>, r: Range): (d: seq<string>)
    requires WellFormed(lines)
    ensures WellFormed(d)
    ensures var c := ClipRange(lines, r);
      |d| == |lines| - (c.end.row - c.start.row) &&
      d[..c.start.row] == lines[..c.start.row] &&
      d[c.start.row + 1..] == lines[c.end.row + 1..]
  {
    var c := ClipRange(lines, r);
    CutsWellFormed(lines, c.start);
    CutsWellFormed(lines, c.end);
    GlueWellFormed(PrefixAt(lines, c.start), SuffixAt(lines, c.end));
    Glue(PrefixAt(lines, c.start), SuffixAt(lines, c.end))
  }

  /** `getTextInRange(range)`: the text of the clipped range. It is as long as
      the distance between the range's offsets, and a range within one row
      reads that row's characters between its columns. */
  function TextInRange(lines: seq<string>, r: Range): (t: string)
    requires WellFormed(lines)
    ensures var c := ClipRange(lines, r);
      |t| == Offset(lines, c.end) - Offset(lines, c.start) &&
      (c.start.row == c.end.row ==> t == lines[c.start.row][c.start.column..c.end.column])
  {
    var c := ClipRange(lines, r);
    OffsetBounds(lines, c.start, c.end);
    if c.start.row == c.end.row then
      TextWithinRow(lines, c.start.row, c.start.column, c.end.column);
      Join(lines)[Offset(lines, c.start)..Offset(lines, c.end)]
    else
      Join(lines)[Offset(lines, c.start)..Offset(lines, c.end)]
  }

  /** `markRange(range)`: the range a new marker covers. */
  function MarkRange(lines: seq<string>, r: Range): (m: Range)
    requires |lines| >= 1
    ensures InBuffer(lines, m.start) && InBuffer(lines, m.end) && LessEq(m.start, m.end)
    ensures InBuffer(lines, r.start) && InBuffer(lines, r.end) && LessEq(r.start, r.end) ==> m == r
  {
    ClipRange(lines, r)
  }

  // Lemmas about the line representation.

  lemma {:induction false} JoinSnoc(x: seq<string>, u: string)
    requires |x| >= 1
    ensures Join(x + [u]) == Join(x) + "\n" + u
  {
    if |x| > 1 {
      assert (x + [u])[1..] == x[1..] + [u];
      JoinSnoc(x[1..], u);
    }
  }

  /** Joining glued line sequences concatenates their texts. */
  lemma {:induction false} JoinGlue(a: seq<string>, b: seq<string>)
    requires |a| >= 1 && |b| >= 1
    ensures Join(Glue(a, b)) == Join(a) + Join(b)
  {
    if |a| == 1 {
      var g := Glue(a, b);
      assert g == [a[0] + b[0]] + b[1..];
      if |b| > 1 {
        assert g[1..] == b[1..];
      }
    } else {
      assert Glue(a, b) == [a[0]] + Glue(a[1..], b);
      assert Glue(a, b)[1..] == Glue(a[1..], b);
      JoinGlue(a[1..], b);
    }
  }

  lemma NoNewlineConcat(x: string, y: string)
    requires NoNewline(x) && NoNewline(y)
    ensures NoNewline(x + y)
  {
    forall i | 0 <= i < |x + y|
      ensures (x + y)[i] != '\n'
    {
      if i >= |x| {
        assert (x + y)[i] == y[i - |x|];
      }
    }
  }

  lemma GlueWellFormed(a: seq<string>, b: seq<string>)
    requires WellFormed(a) && WellFormed(b)
    ensures WellFormed(Glue(a, b))
  {
    NoNewlineConcat(a[|a| - 1], b[0]);
    var g := Glue(a, b);
    forall r | 0 <= r < |g|
      ensures NoNewline(g[r])
    {
      if r > |a| - 1 {
        assert g[r] == b[r - |a| + 1];
      } else if r < |a| - 1 {
        assert g[r] == a[r];
      }
    }
  }

  lemma CutsWellFormed(lines: seq<string>, p: Point)
    requires WellFormed(lines) && InBuffer(lines, p)
    ensures WellFormed(PrefixAt(lines, p)) && WellFormed(SuffixAt(lines, p))
  {
    var pre := PrefixAt(lines, p);
    forall r | 0 <= r < |pre|
      ensures NoNewline(pre[r])
    {
      if r < p.row {
        assert pre[r] == lines[r];
      } else {
        assert NoNewline(lines[p.row]);
      }
    }
    var suf := SuffixAt(lines, p);
    forall r | 0 <= r < |suf|
      ensures NoNewline(suf[r])
    {
      if r > 0 {
        assert suf[r] == lines[p.row + r];
      } else {
        assert NoNewline(lines[p.row]);
      }
    }
  }

  lemma {:induction false} JoinPrefixLength(lines: seq<string>, r: nat)
    requires 1 <= r <= |lines|
    ensures |Join(lines[..r])| == RowStart(lines, r) - 1
  {
    if r > 1 {
      assert lines[..r] == lines[..r - 1] + [lines[r - 1]];
      JoinSnoc(lines[..r - 1], lines[r - 1]);
      JoinPrefixLength(lines, r - 1);
    }
  }

  /** Cutting the lines at a position and gluing the halves back gives the
      lines again; the text before the cut is as long as the position's
      offset. */
  lemma CutAt(lines: seq<string>, p: Point)
    requires InBuffer(lines, p)
    ensures Glue(PrefixAt(lines, p), SuffixAt(lines, p)) == lines
    ensures |Join(PrefixAt(lines, p))| == Offset(lines, p)
    ensures Join(lines) == Join(PrefixAt(lines, p)) + Join(SuffixAt(lines, p))
  {
    var line := lines[p.row];
    assert line[..p.column] + line[p.column..] == line;
    assert Glue(PrefixAt(lines, p), SuffixAt(lines, p)) == lines;
    JoinGlue(PrefixAt(lines, p), SuffixAt(lines, p));
    if p.row > 0 {
      JoinSnoc(lines[..p.row], line[..p.column]);
      JoinPrefixLength(lines, p.row);
    }
  }

  lemma {:induction false} RowStartMonotone(lines: seq<string>, r1: nat, r2: nat)
    requires r1 <= r2 <= |lines|
    ensures RowStart(lines, r1) <= RowStart(lines, r2)
  {
    if r1 < r2 {
      RowStartMonotone(lines, r1, r2 - 1);
    }
  }

  /** Offsets follow the row-major order of positions and stay within the
      buffer's text. */
  lemma OffsetBounds(lines: seq<string>, a: Point, b: Point)
    requires InBuffer(lines, a) && InBuffer(lines, b) && LessEq(a, b)
    ensures Offset(lines, a) <= Offset(lines, b) <= |Join(lines)|
  {
    if a.row < b.row {
      RowStartMonotone(lines, a.row + 1, b.row);
    }
    CutAt(lines, b);
  }

  /** `Less` is the order of the positions' offsets in the buffer's text, so
      on positions of the buffer it is a strict total order. */
  lemma LessIsOffsetOrder(lines: seq<string>, a: Point, b: Point)
    requires InBuffer(lines, a) && InBuffer(lines, b)
    ensures Less(a, b) <==> Offset(lines, a) < Offset(lines, b)
  {
    if Less(a, b) {
      if a.row < b.row {
        RowStartMonotone(lines, a.row + 1, b.row);
      }
    } else {
      OffsetBounds(lines, b, a);
    }
  }

  /** Each line appears in the buffer's text at its row's start. */
  lemma LineInText(lines: seq<string>, row: int)
    requires 0 <= row < |lines|
    ensures RowStart(lines, row) + |lines[row]| <= |Join(lines)|
    ensures Join(lines)[RowStart(lines, row)..RowStart(lines, row) + |lines[row]|] == lines[row]
  {
    var p := Point(row, 0);
    CutAt(lines, p);
    assert lines[row][0..] == lines[row];
    JoinFront(lines[row], lines[row + 1..]);
    SliceAfterPrefix(Join(PrefixAt(lines, p)), Join(SuffixAt(lines, p)), lines[row]);
  }

  /** Between two columns of one row, the buffer's text is that row's text. */
  lemma TextWithinRow(lines: seq<string>, row: int, a: int, b: int)
    requires 0 <= row < |lines| && 0 <= a <= b <= |lines[row]|
    ensures RowStart(lines, row) + b <= |Join(lines)|
    ensures Join(lines)[RowStart(lines, row) + a..RowStart(lines, row) + b] == lines[row][a..b]
  {
    LineInText(lines, row);
    SliceOfSlice(Join(lines), RowStart(lines, row), lines[row], a, b);
  }

  lemma SliceAfterPrefix<T>(p: seq<T>, s: seq<T>, x: seq<T>)
    requires |x| <= |s| && s[..|x|] == x
    ensures (p + s)[|p|..|p| + |x|] == x
  {
  }

  lemma SliceOfSlice<T>(j: seq<T>, k: nat, x: seq<T>, a: nat, b: nat)
    requires k + |x| <= |j| && j[k..k + |x|] == x && a <= b <= |x|
    ensures j[k + a..k + b] == x[a..b]
  {
    forall i | 0 <= i < b - a
      ensures j[k + a..k + b][i] == x[a..b][i]
    {
      assert j[k + a + i] == j[k..k + |x|][a + i];
    }
  }

  /** The text of lines starting with `line` starts with `line`. */
  lemma JoinFront(line: string, rest: seq<string>)
    ensures |line| <= |Join([line] + rest)| && Join([line] + rest)[..|line|] == line
  {
    if rest != [] {
      assert ([line] + rest)[1..] == rest;
    }
  }

  /** Gluing more lines behind `g` leaves the text before any position of `g`
      as it was. */
  lemma GlueKeepsPrefix(g: seq<string>, b: seq<string>, p: Point)
    requires |b| >= 1 && InBuffer(g, p)
    ensures InBuffer(Glue(g, b), p)
    ensures PrefixAt(Glue(g, b), p) == PrefixAt(g, p)
  {
    var n := Glue(g, b);
    assert n[..p.row] == g[..p.row];
    if p.row == |g| - 1 {
      assert n[p.row] == g[p.row] + b[0];
      assert n[p.row][..p.column] == g[p.row][..p.column];
    } else {
      assert n[p.row] == g[p.row];
    }
  }

  lemma PrefixAtEnd(g: seq<string>)
    requires |g| >= 1
    ensures PrefixAt(g, EndOf(g)) == g
  {
    assert g[|g| - 1][..|g[|g| - 1]|] == g[|g| - 1];
  }

  /** Traversing the text's extent from the insertion position ends where the
      inserted text ends. */
  lemma TraverseIsEnd(lines: seq<string>, q: Point, text: string)
    requires InBuffer(lines, q)
    ensures Traverse(q, Extent(text)) == EndOf(Glue(PrefixAt(lines, q), Split(text)))
  {
    var t := Split(text);
    var g := Glue(PrefixAt(lines, q), t);
    if |t| == 1 {
      assert g[|g| - 1] == lines[q.row][..q.column] + t[0];
    } else {
      assert g[|g| - 1] == t[|t| - 1];
    }
  }

  /** `insert` places the text at the clipped position and nowhere else: the
      new text of the buffer is the old one with `text` spliced in at that
      position's offset; the returned range starts there, ends `|text|`
      characters further on, and reading it back gives `text`. */
  lemma InsertSpec(lines: seq<string>, p: Point, text: string)
    requires WellFormed(lines)
    ensures var (after, r) := Insert(lines, p, text);
      var q := Clip(lines, p);
      var k := Offset(lines, q);
      WellFormed(after) &&
      r.start == q && (InBuffer(lines, p) ==> r.start == p) &&
      InBuffer(after, r.start) && InBuffer(after, r.end) && LessEq(r.start, r.end) &&
      k <= |Join(lines)| && Join(after) == Join(lines)[..k] + text + Join(lines)[k..] &&
      Offset(after, r.start) == k && Offset(after, r.end) == k + |text| &&
      TextInRange(after, r) == text
  {
    var q := Clip(lines, p);
    var pre, t, suf := PrefixAt(lines, q), Split(text), SuffixAt(lines, q);
    var g := Glue(pre, t);
    var after := Glue(g, suf);
    var e := Traverse(q, Extent(text));
    assert Insert(lines, p, text) == (after, Range(q, e));
    CutsWellFormed(lines, q);
    GlueWellFormed(pre, t);
    GlueWellFormed(g, suf);
    CutAt(lines, q);
    JoinGlue(pre, t);
    JoinGlue(g, suf);
    TraverseIsEnd(lines, q, text);
    assert InBuffer(pre, q);
    GlueKeepsPrefix(pre, t, q);
    GlueKeepsPrefix(g, suf, q);
    PrefixAtEnd(pre);
    GlueKeepsPrefix(g, suf, e);
    PrefixAtEnd(g);
    CutAt(after, q);
    CutAt(after, e);
    OffsetBounds(after, q, e);
    assert Join(after) == Join(pre) + text + Join(suf);
  }

  /** `delete` removes exactly the text of the clipped range. */
  lemma DeleteSpec(lines: seq<string>, r: Range)
    requires WellFormed(lines)
    ensures var c := ClipRange(lines, r);
      WellFormed(Delete(lines, r)) &&
      Offset(lines, c.start) <= Offset(lines, c.end) <= |Join(lines)| &&
      Join(Delete(lines, r)) == Join(lines)[..Offset(lines, c.start)] + Join(lines)[Offset(lines, c.end)..]
  {
    var c := ClipRange(lines, r);
    CutsWellFormed(lines, c.start);
    CutsWellFormed(lines, c.end);
    GlueWellFormed(PrefixAt(lines, c.start), SuffixAt(lines, c.end));
    JoinGlue(PrefixAt(lines, c.start), SuffixAt(lines, c.end));
    CutAt(lines, c.start);
    CutAt(lines, c.end);
    OffsetBounds(lines, c.start, c.end);
  }

  /** Deleting from the buffer's start to the start of row `row` leaves
      exactly the lines from `row` on. */
  lemma DeleteLeadingRows(lines: seq<string>, row: int)
    requires WellFormed(lines) && 0 <= row < |lines|
    ensures Delete(lines, Range(Point(0, 0), Point(row, 0))) == lines[row..]
  {
    var r := Range(Point(0, 0), Point(row, 0));
    assert ClipRange(lines, r) == r;
    assert PrefixAt(lines, r.start) == [""];
    assert SuffixAt(lines, r.end) == [lines[row]] + lines[row + 1..];
    assert "" + lines[row] == lines[row];
    assert Glue([""], [lines[row]] + lines[row + 1..]) == lines[row..];
  }

  lemma {:induction false} SplitLastLine(text: string)
    ensures var t := Split(text);
      |t[|t| - 1]| == 0 <==> (text == [] || text[|text| - 1] == '\n')
  {
    if text != [] {
      var rest := Split(text[1..]);
      SplitLastLine(text[1..]);
      if text[1..] != [] {
        assert text[|text| - 1] == text[1..][|text[1..]| - 1];
      }
      if text[0] != '\n' && |rest| == 1 {
        assert NoNewline(rest[0]) && Join(rest) == rest[0];
      }
    }
  }

  /** The extent of a text: empty for the empty text, a non-zero last column
      when the text ends in a character other than a line break, and column 0
      of a later row when it ends in a line break. */
  lemma ExtentOfText(text: string)
    ensures text == [] ==> Extent(text) == Point(0, 0)
    ensures text != [] && text[|text| - 1] != '\n' ==> Extent(text).column >= 1
    ensures text != [] && text[|text| - 1] == '\n' ==> Extent(text).row >= 1 && Extent(text).column == 0
  {
    SplitLastLine(text);
    var t := Split(text);
    if |t| == 1 {
      assert Join(t) == t[0] && NoNewline(t[0]);
    }
  }
}
