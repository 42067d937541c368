/** Byte offsets of a text against line and column positions, in UTF-8 and UTF-16 columns. */
module Positions {
  /** A Unicode scalar value. */
  newtype Scalar = c: int | 0 <= c < 0xD800 || 0xE000 <= c < 0x11_0000

  const NEWLINE: Scalar := 10

  function Len8(c: Scalar): nat {
    if c < 0x80 then 1 else if c < 0x800 then 2 else if c < 0x1_0000 then 3 else 4
  }

  function Len16(c: Scalar): nat {
    if c < 0x1_0000 then 1 else 2
  }

  function Bytes(text: seq<Scalar>): nat {
    if text == [] then 0 else Bytes(text[..|text| - 1]) + Len8(text[|text| - 1])
  }

  function Units(text: seq<Scalar>): nat {
    if text == [] then 0 else Units(text[..|text| - 1]) + Len16(text[|text| - 1])
  }

  /** The length in the negotiated encoding. */
  function Measure(text: seq<Scalar>, utf8: bool): nat {
    if utf8 then Bytes(text) else Units(text)
  }

  lemma {:induction false} MeasureAppend(a: seq<Scalar>, b: seq<Scalar>, utf8: bool)
    ensures Measure(a + b, utf8) == Measure(a, utf8) + Measure(b, utf8)
    decreases |b|
  {
    if b == [] {
      assert a + b == a;
    } else {
      assert (a + b)[..|a + b| - 1] == a + b[..|b| - 1];
      MeasureAppend(a, b[..|b| - 1], utf8);
    }
  }

  // ---- byte offsets

  /** `offset` is where a character starts, or the end. */
  predicate IsBoundary(text: seq<Scalar>, offset: nat) {
    offset == Bytes(text) || (text != [] && IsBoundary(text[..|text| - 1], offset))
  }

  /** The text before an offset. */
  function Before(text: seq<Scalar>, offset: nat): (r: seq<Scalar>)
    requires IsBoundary(text, offset)
    ensures r <= text && Bytes(r) == offset
  {
    if offset == Bytes(text) then text else Before(text[..|text| - 1], offset)
  }

  lemma {:induction false} LongerPrefix(text: seq<Scalar>, i: nat, j: nat, utf8: bool)
    requires i < j <= |text|
    ensures Measure(text[..i], utf8) < Measure(text[..j], utf8)
    decreases j
  {
    assert text[..j][..j - 1] == text[..j - 1];
    if i < j - 1 {
      LongerPrefix(text, i, j - 1, utf8);
    }
  }

  /** The boundaries are the lengths of the starts of the text. */
  lemma {:induction false} BoundaryAt(text: seq<Scalar>, i: nat)
    requires i <= |text|
    ensures IsBoundary(text, Bytes(text[..i])) && Before(text, Bytes(text[..i])) == text[..i]
    decreases |text|
  {
    assert text[..|text|] == text;
    if i < |text| {
      LongerPrefix(text, i, |text|, true);
      assert text[..|text| - 1][..i] == text[..i];
      BoundaryAt(text[..|text| - 1], i);
    }
  }

  /** The text between two offsets. */
  function Slice(text: seq<Scalar>, from: nat, to: nat): seq<Scalar>
    requires IsBoundary(text, from) && IsBoundary(text, to) && |Before(text, from)| <= |Before(text, to)|
  {
    Before(text, to)[|Before(text, from)|..]
  }

  // ---- from an offset to a position

  datatype Position = Position(line: nat, character: nat)

  function Newlines(text: seq<Scalar>): nat {
    if text == [] then 0
    else Newlines(text[..|text| - 1]) + if text[|text| - 1] == NEWLINE then 1 else 0
  }

  /** What follows the last newline. */
  function LastLine(text: seq<Scalar>): (r: seq<Scalar>)
    ensures |r| <= |text|
  {
    if text == [] || text[|text| - 1] == NEWLINE then []
    else LastLine(text[..|text| - 1]) + [text[|text| - 1]]
  }

  lemma {:induction false} LastLineIsSuffix(text: seq<Scalar>)
    ensures text == text[..|text| - |LastLine(text)|] + LastLine(text)
    decreases |text|
  {
    if text != [] && text[|text| - 1] != NEWLINE {
      LastLineIsSuffix(text[..|text| - 1]);
    }
  }

  function Clamped(text: seq<Scalar>, offset: nat): nat {
    if offset < Bytes(text) then offset else Bytes(text)
  }

  /** Line and byte column: the newlines before the offset, and the bytes since the last of them. */
  function LineCol(text: seq<Scalar>, offset: nat): (nat, nat)
    requires IsBoundary(text, Clamped(text, offset))
  {
    var before := Before(text, Clamped(text, offset));
    (Newlines(before), Bytes(LastLine(before)))
  }

  lemma LineStartIsBoundary(text: seq<Scalar>, before: seq<Scalar>)
    requires before <= text
    ensures var line := LastLine(before);
            && Bytes(line) <= Bytes(before) && IsBoundary(text, Bytes(before) - Bytes(line))
            && Before(text, Bytes(before) - Bytes(line)) == before[..|before| - |line|]
  {
    var n := |before| - |LastLine(before)|;
    LastLineIsSuffix(before);
    MeasureAppend(before[..n], LastLine(before), true);
    assert text[..n] == before[..n];
    BoundaryAt(text, n);
  }

  /** `lsp_position`. */
  function LspPosition(text: seq<Scalar>, offset: nat, utf8: bool): Position
    requires IsBoundary(text, Clamped(text, offset))
  {
    LineStartIsBoundary(text, Before(text, Clamped(text, offset)));
    var (line, byteCol) := LineCol(text, offset);
    var end := Clamped(text, offset);
    Position(line, if utf8 then byteCol else Units(Slice(text, end - byteCol, end)))
  }

  function Advance(p: Position, c: Scalar, utf8: bool): Position {
    if c == NEWLINE then Position(p.line + 1, 0)
    else Position(p.line, p.character + if utf8 then Len8(c) else Len16(c))
  }

  /** Where a cursor stands that has moved over the text. */
  function Cursor(text: seq<Scalar>, utf8: bool): Position {
    if text == [] then Position(0, 0) else Advance(Cursor(text[..|text| - 1], utf8), text[|text| - 1], utf8)
  }

  lemma {:induction false} CursorPosition(text: seq<Scalar>, utf8: bool)
    ensures Cursor(text, utf8) == Position(Newlines(text), Measure(LastLine(text), utf8))
    decreases |text|
  {
    if text != [] {
      var m := |text| - 1;
      CursorPosition(text[..m], utf8);
      if text[m] != NEWLINE {
        assert (LastLine(text[..m]) + [text[m]])[..|LastLine(text[..m])|] == LastLine(text[..m]);
      }
    }
  }

  lemma PrefixIsShorter(text: seq<Scalar>, i: nat)
    requires i <= |text|
    ensures Bytes(text[..i]) <= Bytes(text)
  {
    assert text[..|text|] == text;
    if i < |text| {
      LongerPrefix(text, i, |text|, true);
    }
  }

  lemma SliceIsLastLine(text: seq<Scalar>, end: nat, before: seq<Scalar>)
    requires IsBoundary(text, end) && before == Before(text, end)
    ensures Bytes(LastLine(before)) <= end && IsBoundary(text, end - Bytes(LastLine(before)))
    ensures |Before(text, end - Bytes(LastLine(before)))| <= |before|
    ensures Slice(text, end - Bytes(LastLine(before)), end) == LastLine(before)
  {
    LineStartIsBoundary(text, before);
    LastLineIsSuffix(before);
    var n := |before| - |LastLine(before)|;
    assert before[n..] == LastLine(before);
  }

  /** The position of an offset is where a cursor stands that has moved there; offsets beyond the end are
      taken to be the end. */
  lemma LspPositionIsCursor(text: seq<Scalar>, offset: nat, utf8: bool)
    requires IsBoundary(text, Clamped(text, offset))
    ensures LspPosition(text, offset, utf8) == Cursor(Before(text, Clamped(text, offset)), utf8)
  {
    hide IsBoundary, Before, Bytes, Units, LastLine, Newlines, Cursor, Slice;
    var before := Before(text, Clamped(text, offset));
    SliceIsLastLine(text, Clamped(text, offset), before);
    CursorPosition(before, utf8);
  }

  // ---- from a position to an offset

  /** The text split at its newlines. */
  function Lines(text: seq<Scalar>): (ls: seq<seq<Scalar>>)
    ensures |ls| == Newlines(text) + 1 && ls[|ls| - 1] == LastLine(text)
  {
    if text == [] then [[]]
    else
      var ls := Lines(text[..|text| - 1]);
      var c := text[|text| - 1];
      if c == NEWLINE then ls + [[]] else ls[..|ls| - 1] + [ls[|ls| - 1] + [c]]
  }

  /** Bytes of the shortest start of the line with `col` UTF-16 units. */
  function ByteCol(line: seq<Scalar>, col: nat): nat {
    if line == [] || col == 0 then 0
    else Len8(line[0]) + ByteCol(line[1..], if Len16(line[0]) <= col then col - Len16(line[0]) else 0)
  }

  method Utf16ColToByteCol(line: seq<Scalar>, col: nat) returns (byteCol: nat)
    ensures byteCol == ByteCol(line, col)
  {
    var count, bytes, i := 0, 0, 0;
    while i < |line|
      invariant i <= |line| && bytes == Bytes(line[..i])
      invariant bytes + ByteCol(line[i..], if count <= col then col - count else 0) == ByteCol(line, col)
    {
      if count >= col {
        return bytes;
      }
      assert line[i..][1..] == line[i + 1..];
      assert line[..i + 1][..i] == line[..i];
      bytes := bytes + Len8(line[i]);
      count := count + Len16(line[i]);
      i := i + 1;
    }
    return bytes;
  }

  /** Where line `n` starts. */
  function LineStart(lines: seq<seq<Scalar>>, n: nat): nat
    requires n <= |lines|
  {
    if n == 0 then 0 else LineStart(lines, n - 1) + Bytes(lines[n - 1]) + 1
  }

  function Min(a: nat, b: nat): nat {
    if a <= b then a else b
  }

  function Offset(text: seq<Scalar>, line: nat, character: nat, utf8: bool): nat {
    if line < |Lines(text)| then
      LineStart(Lines(text), line) +
      Min(if utf8 then character else ByteCol(Lines(text)[line], character), Bytes(Lines(text)[line]))
    else Bytes(text)
  }

  method LspPositionToOffset(text: seq<Scalar>, line: nat, character: nat, utf8: bool) returns (offset: nat)
    ensures offset == Offset(text, line, character, utf8)
  {
    offset := 0;
    var lines := Lines(text);
    var i := 0;
    while i < |lines|
      invariant i <= |lines| && i <= line && offset == LineStart(lines, i)
    {
      if i == line {
        var byteCol := character;
        if !utf8 {
          byteCol := Utf16ColToByteCol(lines[i], character);
        }
        return offset + Min(byteCol, Bytes(lines[i]));
      }
      offset := offset + Bytes(lines[i]) + 1;
      i := i + 1;
    }
    return Bytes(text);
  }

  // ---- there and back

  lemma LinesGrow(text: seq<Scalar>, n: nat)
    requires text != [] && n < |Lines(text[..|text| - 1])|
    ensures n < |Lines(text)| && Lines(text)[..n] == Lines(text[..|text| - 1])[..n]
    ensures Lines(text[..|text| - 1])[n] <= Lines(text)[n]
  {
  }

  /** The lines of a text start with the lines of what comes before `i`. */
  lemma {:induction false} LinesOfPrefix(text: seq<Scalar>, i: nat, n: nat)
    requires i <= |text| && n == Newlines(text[..i])
    ensures n < |Lines(text)| && Lines(text[..i])[..n] == Lines(text)[..n] && LastLine(text[..i]) <= Lines(text)[n]
    decreases |text|
  {
    if i == |text| {
      assert text[..i] == text;
    } else {
      assert text[..|text| - 1][..i] == text[..i];
      LinesOfPrefix(text[..|text| - 1], i, n);
      LinesGrow(text, n);
    }
  }

  lemma {:induction false} LineStartAlike(ls: seq<seq<Scalar>>, ms: seq<seq<Scalar>>, n: nat)
    requires n <= |ls| && n <= |ms| && ls[..n] == ms[..n]
    ensures LineStart(ls, n) == LineStart(ms, n)
    decreases n
  {
    if n > 0 {
      assert ls[n - 1] == ls[..n][n - 1] == ms[..n][n - 1];
      assert ls[..n - 1] == ls[..n][..n - 1] == ms[..n][..n - 1];
      LineStartAlike(ls, ms, n - 1);
    }
  }

  lemma {:induction false} LastLineStart(text: seq<Scalar>)
    ensures LineStart(Lines(text), Newlines(text)) + Bytes(LastLine(text)) == Bytes(text)
    decreases |text|
  {
    if text != [] {
      var m := |text| - 1;
      var n := Newlines(text[..m]);
      LastLineStart(text[..m]);
      LinesGrow(text, n);
      LineStartAlike(Lines(text), Lines(text[..m]), n);
      if text[m] == NEWLINE {
        NewlineStart(text, n);
      } else {
        BytesLast(LastLine(text[..m]), text[m]);
      }
    }
  }

  lemma NewlineStart(text: seq<Scalar>, n: nat)
    requires text != [] && text[|text| - 1] == NEWLINE && n == Newlines(text[..|text| - 1])
    ensures LastLine(text) == [] && Newlines(text) == n + 1
    ensures LineStart(Lines(text), n + 1) == LineStart(Lines(text), n) + Bytes(LastLine(text[..|text| - 1])) + 1
  {
  }

  lemma BytesLast(line: seq<Scalar>, c: Scalar)
    ensures Bytes(line + [c]) == Bytes(line) + Len8(c)
  {
    assert (line + [c])[..|line|] == line;
  }

  /** The offset after `i` characters lies on its line, as far in as the position says. */
  lemma OffsetOnLine(text: seq<Scalar>, i: nat)
    requires i <= |text|
    ensures var n := Newlines(text[..i]);
            n < |Lines(text)| && Bytes(text[..i]) == LineStart(Lines(text), n) + Bytes(LastLine(text[..i]))
  {
    LinesOfPrefix(text, i, Newlines(text[..i]));
    LastLineStart(text[..i]);
    LineStartAlike(Lines(text[..i]), Lines(text), Newlines(text[..i]));
  }

  lemma MeasureFront(text: seq<Scalar>, utf8: bool)
    requires text != []
    ensures Measure(text, utf8) == (if utf8 then Len8(text[0]) else Len16(text[0])) + Measure(text[1..], utf8)
  {
    var first := [text[0]];
    assert text == first + text[1..] && first[..|first| - 1] == [];
    assert Bytes(first) == Len8(text[0]) && Units(first) == Len16(text[0]);
    MeasureAppend(first, text[1..], utf8);
  }

  lemma {:induction false} ByteColOfPrefix(line: seq<Scalar>, k: nat)
    requires k <= |line|
    ensures ByteCol(line, Units(line[..k])) == Bytes(line[..k])
    decreases k
  {
    if k > 0 {
      ByteColOfPrefix(line[1..], k - 1);
      assert line[..k][1..] == line[1..][..k - 1];
      MeasureFront(line[..k], true);
      MeasureFront(line[..k], false);
    }
  }

  /** An offset on a character boundary survives the way to its position and back, in both encodings. */
  lemma PositionRoundTrip(text: seq<Scalar>, offset: nat, utf8: bool)
    requires offset <= Bytes(text) && IsBoundary(text, offset)
    ensures var p := LspPosition(text, offset, utf8); Offset(text, p.line, p.character, utf8) == offset
  {
    var before := Before(text, offset);
    LspPositionIsCursor(text, offset, utf8);
    CursorPosition(before, utf8);
    assert before == text[..|before|];
    OffsetOfCursor(text, |before|, utf8);
  }

  lemma OffsetOfCursor(text: seq<Scalar>, i: nat, utf8: bool)
    requires i <= |text|
    ensures Offset(text, Newlines(text[..i]), Measure(LastLine(text[..i]), utf8), utf8) == Bytes(text[..i])
  {
    OffsetOnLine(text, i);
    LinesOfPrefix(text, i, Newlines(text[..i]));
    PrefixOfLine(Lines(text)[Newlines(text[..i])], LastLine(text[..i]));
  }

  lemma PrefixOfLine(line: seq<Scalar>, start: seq<Scalar>)
    requires start <= line
    ensures ByteCol(line, Units(start)) == Bytes(start) <= Bytes(line)
  {
    assert line[..|start|] == start;
    ByteColOfPrefix(line, |start|);
    PrefixIsShorter(line, |start|);
  }

  // ---- order

  predicate Less(p: Position, q: Position) {
    p.line < q.line || (p.line == q.line && p.character < q.character)
  }

  lemma {:induction false} CursorAdvances(text: seq<Scalar>, i: nat, utf8: bool)
    requires i < |text|
    ensures Less(Cursor(text[..i], utf8), Cursor(text, utf8))
    decreases |text|
  {
    var m := |text| - 1;
    if i < m {
      assert text[..m][..i] == text[..i];
      CursorAdvances(text[..m], i, utf8);
    }
  }

  lemma ShorterBefore(text: seq<Scalar>, a: seq<Scalar>, b: seq<Scalar>)
    requires a <= text && b <= text && Bytes(a) < Bytes(b)
    ensures |a| < |b| && a == b[..|a|]
  {
    assert a == text[..|a|] && b == text[..|b|];
    if |b| < |a| {
      LongerPrefix(text, |b|, |a|, true);
    }
  }

  /** A later offset has a later position. */
  lemma LspPositionIsMonotone(text: seq<Scalar>, o: nat, p: nat, utf8: bool)
    requires IsBoundary(text, o) && IsBoundary(text, p) && o < p <= Bytes(text)
    ensures Less(LspPosition(text, o, utf8), LspPosition(text, p, utf8))
  {
    LspPositionIsCursor(text, o, utf8);
    LspPositionIsCursor(text, p, utf8);
    ShorterBefore(text, Before(text, o), Before(text, p));
    CursorAdvances(Before(text, p), |Before(text, o)|, utf8);
  }

  // ---- any position

  /** How many characters of the line a UTF-16 column takes in: it never splits one. */
  lemma {:induction false} ByteColIsPrefix(line: seq<Scalar>, col: nat) returns (k: nat)
    ensures k <= |line| && ByteCol(line, col) == Bytes(line[..k])
    ensures if col <= Units(line) then col <= Units(line[..k]) <= col + 1 else k == |line|
    decreases |line|
  {
    if line == [] || col == 0 {
      k := 0;
    } else {
      var rest := if Len16(line[0]) <= col then col - Len16(line[0]) else 0;
      var n := ByteColIsPrefix(line[1..], rest);
      k := n + 1;
      assert line[..k][1..] == line[1..][..n];
      MeasureFront(line[..k], true);
      MeasureFront(line[..k], false);
      MeasureFront(line, false);
    }
  }

  /** The characters before column `k` of line `n`. */
  lemma {:induction false} IndexOnLine(text: seq<Scalar>, n: nat, k: nat) returns (i: nat)
    requires n < |Lines(text)| && k <= |Lines(text)[n]|
    ensures i <= |text| && Newlines(text[..i]) == n && LastLine(text[..i]) == Lines(text)[n][..k]
    decreases |text|
  {
    if n == Newlines(text) && k == |LastLine(text)| {
      i := |text|;
      assert text[..i] == text;
    } else {
      var m := |text| - 1;
      LineBeforeEnd(text, n, k);
      i := IndexOnLine(text[..m], n, k);
      assert text[..m][..i] == text[..i];
    }
  }

  lemma LineBeforeEnd(text: seq<Scalar>, n: nat, k: nat)
    requires n < |Lines(text)| && k <= |Lines(text)[n]| && (n == Newlines(text) ==> k < |LastLine(text)|)
    ensures text != [] && n < |Lines(text[..|text| - 1])| && k <= |Lines(text[..|text| - 1])[n]|
    ensures Lines(text[..|text| - 1])[n][..k] == Lines(text)[n][..k]
  {
  }

  /** Every UTF-16 position of an existing line leads to a character boundary of that line, and from
      there back to the column asked for, rounded up inside a surrogate pair and cut off at the line's
      end. */
  lemma Utf16PositionLands(text: seq<Scalar>, line: nat, character: nat) returns (offset: nat)
    requires line < |Lines(text)|
    ensures offset == Offset(text, line, character, false) <= Bytes(text) && IsBoundary(text, offset)
    ensures LspPosition(text, offset, false).line == line
    ensures var units, back := Units(Lines(text)[line]), LspPosition(text, offset, false).character;
            if character <= units then character <= back <= character + 1 && back <= units else back == units
  {
    var l := Lines(text)[line];
    var k := ByteColIsPrefix(l, character);
    var i := IndexOnLine(text, line, k);
    offset := Bytes(text[..i]);
    OffsetOnLine(text, i);
    PrefixIsShorter(text, i);
    BoundaryAt(text, i);
    LspPositionIsCursor(text, offset, false);
    CursorPosition(text[..i], false);
    PrefixOfLine(l, l[..k]);
    UnitsOfPrefix(l, k);
    assert l[..|l|] == l;
  }

  lemma UnitsOfPrefix(line: seq<Scalar>, k: nat)
    requires k <= |line|
    ensures Units(line[..k]) <= Units(line)
  {
    assert line[..|line|] == line;
    if k < |line| {
      LongerPrefix(line, k, |line|, false);
    }
  }

  // ---- any UTF-8 position

  lemma {:induction false} LineStartsGrow(lines: seq<seq<Scalar>>, m: nat, n: nat)
    requires m < n <= |lines|
    ensures LineStart(lines, m) + Bytes(lines[m]) < LineStart(lines, n)
    decreases n
  {
    if m < n - 1 {
      LineStartsGrow(lines, m, n - 1);
    }
  }

  /** An offset within a line is the end of a start of the text that ends in this line. */
  lemma LineOfOffset(text: seq<Scalar>, before: seq<Scalar>, line: nat, c: nat)
    requires before <= text && line < |Lines(text)| && c <= Bytes(Lines(text)[line])
    requires Bytes(before) == LineStart(Lines(text), line) + c
    ensures Newlines(before) == line && LastLine(before) <= Lines(text)[line] && Bytes(LastLine(before)) == c
  {
    var n, lines := Newlines(before), Lines(text);
    assert text[..|before|] == before;
    OffsetOnLine(text, |before|);
    LinesOfPrefix(text, |before|, n);
    PrefixOfLine(lines[n], LastLine(before));
    if n < line {
      LineStartsGrow(lines, n, line);
    } else if line < n {
      LineStartsGrow(lines, line, n);
    }
  }

  /** A UTF-8 column is only cut off at the line's end: where it is inside a character of the line, and
      only there, its offset is inside a character of the text. */
  lemma Utf8LandsIff(text: seq<Scalar>, line: nat, character: nat)
    ensures IsBoundary(text, Offset(text, line, character, true)) <==>
            line >= |Lines(text)| || character >= Bytes(Lines(text)[line]) || IsBoundary(Lines(text)[line], character)
  {
    if line < |Lines(text)| {
      var l, offset := Lines(text)[line], Offset(text, line, character, true);
      if character < Bytes(l) && IsBoundary(text, offset) {
        var before := Before(text, offset);
        LineOfOffset(text, before, line, character);
        BoundaryAt(l, |LastLine(before)|);
        assert l[..|LastLine(before)|] == LastLine(before);
      }
      if character >= Bytes(l) || IsBoundary(l, character) {
        var landed := Utf8PositionLands(text, line, character);
      }
    }
  }

  /** The other UTF-8 positions of an existing line lead to a character boundary, and from there back to
      themselves, cut off at the line's end. */
  lemma Utf8PositionLands(text: seq<Scalar>, line: nat, character: nat) returns (offset: nat)
    requires line < |Lines(text)|
    requires character >= Bytes(Lines(text)[line]) || IsBoundary(Lines(text)[line], character)
    ensures offset == Offset(text, line, character, true) <= Bytes(text) && IsBoundary(text, offset)
    ensures LspPosition(text, offset, true) == Position(line, Min(character, Bytes(Lines(text)[line])))
  {
    var l := Lines(text)[line];
    var start := if character >= Bytes(l) then l else Before(l, character);
    assert l[..|start|] == start;
    var i := IndexOnLine(text, line, |start|);
    offset := Bytes(text[..i]);
    OffsetOnLine(text, i);
    PrefixIsShorter(text, i);
    BoundaryAt(text, i);
    LspPositionIsCursor(text, offset, true);
    CursorPosition(text[..i], true);
  }

  /** So every character of more than one byte can be split. */
  lemma Utf8PositionSplits(text: seq<Scalar>, line: nat, k: nat)
    requires line < |Lines(text)| && k < |Lines(text)[line]| && Len8(Lines(text)[line][k]) > 1
    ensures !IsBoundary(text, Offset(text, line, Bytes(Lines(text)[line][..k]) + 1, true))
  {
    hide Offset, Lines, IsBoundary, Bytes;
    var l := Lines(text)[line];
    assert l[..k + 1][..k] == l[..k];
    BytesLast(l[..k], l[k]);
    assert l[..k] + [l[k]] == l[..k + 1];
    PrefixIsShorter(l, k + 1);
    InsideIsNoBoundary(l, k);
    Utf8LandsIff(text, line, Bytes(l[..k]) + 1);
  }

  lemma InsideIsNoBoundary(l: seq<Scalar>, k: nat)
    requires k < |l| && Len8(l[k]) > 1
    ensures !IsBoundary(l, Bytes(l[..k]) + 1)
  {
    hide Bytes;
    var c := Bytes(l[..k]) + 1;
    BytesLast(l[..k], l[k]);
    assert l[..k] + [l[k]] == l[..k + 1];
    if IsBoundary(l, c) {
      var before := Before(l, c);
      assert before == l[..|before|];
      if |before| <= k {
        assert l[..k][..|before|] == before;
        PrefixIsShorter(l[..k], |before|);
      } else if |before| > k + 1 {
        LongerPrefix(l, k + 1, |before|, true);
      }
    }
  }
}
