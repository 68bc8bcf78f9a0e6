/** What `draw_rows` and `refresh_screen` in src/editor.rs put on the terminal: the
    bytes of the rows, and the frame of cursor operations around them. The class in
    editor.dfy writes these step by step and is proved against them. */
module Render {
  import opened Terminal

  // "kilo-rs", " -- version " and "0.0.1", as bytes.
  const AppName: seq<byte> := [0x6B, 0x69, 0x6C, 0x6F, 0x2D, 0x72, 0x73]
  const VersionSeparator: seq<byte> := [0x20, 0x2D, 0x2D, 0x20, 0x76, 0x65, 0x72, 0x73, 0x69, 0x6F, 0x6E, 0x20]
  const AppVersion: seq<byte> := [0x30, 0x2E, 0x30, 0x2E, 0x31]

  /** The welcome banner "kilo-rs -- version 0.0.1". */
  const Banner: seq<byte> := AppName + VersionSeparator + AppVersion

  const RowMarker: byte := 0x7E      // '~'
  const Space: byte := 0x20          // ' '
  const CarriageReturn: byte := 0x0D // '\r'
  const LineFeed: byte := 0x0A       // '\n'

  /** ESC [ K, Erase in Line (EL) with its default parameter: erase from the cursor
      to the end of the line, section 8.3.41 of ECMA-48. */
  const EraseLine: seq<byte> := [Esc, 0x5B, 0x4B]

  const CrLf: seq<byte> := [CarriageReturn, LineFeed]

  /** A byte of printable ASCII: a space or a visible character. */
  predicate Printable(b: byte) {
    0x20 <= b < 0x7F
  }

  /** The banner as it is written on a screen `cols` wide: the longest prefix
      of it that fits. */
  function Welcome(cols: nat): (w: seq<byte>)
    ensures w <= Banner
    ensures |w| == if |Banner| <= cols then |Banner| else cols
  {
    if |Banner| > cols then Banner[..cols] else Banner
  }

  /** The number of cells left of the banner. */
  function Padding(cols: nat): nat {
    (cols - |Welcome(cols)|) / 2
  }

  function Spaces(n: nat): (s: seq<byte>)
    ensures |s| == n
  {
    if n == 0 then [] else Spaces(n - 1) + [Space]
  }

  lemma {:induction false} SpacesAreSpaces(n: nat)
    ensures forall i :: 0 <= i < n ==> Spaces(n)[i] == Space
  {
    if n > 0 {
      SpacesAreSpaces(n - 1);
      assert forall i :: 0 <= i < n - 1 ==> Spaces(n)[i] == Spaces(n - 1)[i];
    }
  }

  /** What fills `padding` cells left of the banner: a row marker and spaces. */
  function PaddingText(padding: nat): seq<byte>
  {
    if padding > 0 then [RowMarker] + Spaces(padding - 1) else []
  }

  /** The text of the banner row: its padding, then the banner. */
  function BannerRow(cols: nat): seq<byte>
  {
    PaddingText(Padding(cols)) + Welcome(cols)
  }

  /** The text of row `r` on a screen of `rows` rows whose banner row reads
      `banner`: the banner on row rows/3, the row marker elsewhere. */
  function RowText(rows: nat, banner: seq<byte>, r: nat): seq<byte>
  {
    if r == rows / 3 then banner else [RowMarker]
  }

  /** Row `r` as `draw_rows` writes it: its text, the erase code, and a line break
      unless it is the last row. */
  function Line(rows: nat, banner: seq<byte>, r: nat): seq<byte>
  {
    RowText(rows, banner, r) + EraseLine + (if r < rows - 1 then CrLf else [])
  }

  /** The bytes of the first `n` rows. */
  function ScreenUpTo(rows: nat, banner: seq<byte>, n: nat): seq<byte>
  {
    if n == 0 then [] else ScreenUpTo(rows, banner, n - 1) + Line(rows, banner, n - 1)
  }

  /** Everything `draw_rows` writes on a screen of `rows` by `cols` cells. */
  function Screen(rows: nat, cols: nat): seq<byte>
  {
    ScreenUpTo(rows, BannerRow(cols), rows)
  }

  /** The rows, each ended by the erase code. */
  function Lines(rows: nat, banner: seq<byte>): (ls: seq<seq<byte>>)
    ensures |ls| == rows
  {
    seq(rows, r requires 0 <= r < rows => RowText(rows, banner, r) + EraseLine)
  }

  /** The lines joined by a separator, which stands between lines only. */
  function Join(lines: seq<seq<byte>>, sep: seq<byte>): seq<byte>
  {
    if |lines| == 0 then []
    else if |lines| == 1 then lines[0]
    else lines[0] + sep + Join(lines[1..], sep)
  }

  /** The frame `refresh_screen` sends around the writes `w` of the rows: hide
      the cursor, home it, the rows, move the cursor to (row + 1, col + 1) (the
      terminal counts from 1), show it, and flush. */
  function Frame(w: seq<Output>, row: nat, col: nat): seq<Output>
  {
    [HideCursor, ResetCursor] + w + [MoveCursorTo(row + 1, col + 1), ShowCursor, Flush]
  }

  lemma {:induction false} JoinSnoc(lines: seq<seq<byte>>, sep: seq<byte>, last: seq<byte>)
    requires |lines| > 0
    ensures Join(lines + [last], sep) == Join(lines, sep) + sep + last
  {
    if |lines| == 1 {
      assert (lines + [last])[1..] == [last];
    } else {
      assert (lines + [last])[1..] == lines[1..] + [last];
      JoinSnoc(lines[1..], sep, last);
    }
  }

  lemma {:induction false} ScreenUpToIsJoin(rows: nat, banner: seq<byte>, n: nat)
    requires 0 < n <= rows
    ensures ScreenUpTo(rows, banner, n) == Join(Lines(rows, banner)[..n], CrLf) + (if n < rows then CrLf else [])
  {
    var ls := Lines(rows, banner);
    if n == 1 {
      assert ls[..1] == [ls[0]];
    } else {
      ScreenUpToIsJoin(rows, banner, n - 1);
      assert ls[..n] == ls[..n - 1] + [ls[n - 1]];
      var tail := if n < rows then CrLf else [];
      assert Line(rows, banner, n - 1) == ls[n - 1] + tail;
      JoinExtend(ScreenUpTo(rows, banner, n - 1), ls[..n - 1], ls[n - 1], tail);
    }
  }

  /** Adding a line and what follows it to a joined prefix ended by a separator. */
  lemma JoinExtend(s: seq<byte>, lines: seq<seq<byte>>, line: seq<byte>, tail: seq<byte>)
    requires |lines| > 0 && s == Join(lines, CrLf) + CrLf
    ensures s + (line + tail) == Join(lines + [line], CrLf) + tail
  {
    JoinSnoc(lines, CrLf, line);
  }

  /** The screen is its rows, each ended by the erase code, with CR LF between
      consecutive rows and none after the last; the banner row is row rows/3 and
      every other row is the row marker alone. */
  lemma ScreenIsJoin(rows: nat, cols: nat)
    requires rows > 0
    ensures Screen(rows, cols) == Join(Lines(rows, BannerRow(cols)), CrLf)
    ensures forall r :: 0 <= r < rows ==>
      Lines(rows, BannerRow(cols))[r] == (if r == rows / 3 then BannerRow(cols) else [RowMarker]) + EraseLine
  {
    var ls := Lines(rows, BannerRow(cols));
    ScreenUpToIsJoin(rows, BannerRow(cols), rows);
    assert ls[..rows] == ls;
  }

  /** Every byte of the banner is printable. */
  lemma BannerPrintable()
    ensures |Banner| == 24
    ensures forall i :: 0 <= i < |Banner| ==> Printable(Banner[i])
  {
  }

  /** The banner row is printable and fits on the screen. It is centred: padding
      cells, then the banner, leaving on the right as many cells as on the left or
      one more. The padding starts with the row marker and goes on with spaces. */
  lemma BannerRowFits(cols: nat)
    ensures |BannerRow(cols)| <= cols
    ensures forall i :: 0 <= i < |BannerRow(cols)| ==> Printable(BannerRow(cols)[i])
    ensures var s, p, w := BannerRow(cols), Padding(cols), Welcome(cols);
      |s| == p + |w| && s[p..] == w &&
      p <= cols - |s| <= p + 1 &&
      (p > 0 ==> s[0] == RowMarker) &&
      (forall i :: 0 < i < p ==> s[i] == Space)
  {
    BannerPrintable();
    var p, w := Padding(cols), Welcome(cols);
    if p > 0 {
      SpacesAreSpaces(p - 1);
    }
    assert BannerRow(cols) == PaddingText(p) + w;
  }

  /** Text all of whose bytes are printable holds no ESC, CR or LF. */
  predicate Plain(t: seq<byte>) {
    Esc !in t && CarriageReturn !in t && LineFeed !in t
  }

  lemma BannerRowPlain(cols: nat)
    ensures Plain(BannerRow(cols))
  {
    BannerRowFits(cols);
    var t := BannerRow(cols);
    forall i | 0 <= i < |t| ensures t[i] != Esc && t[i] != CarriageReturn && t[i] != LineFeed {
      assert Printable(t[i]);
    }
  }

  /** The first `n` rows are the first `n - 1` rows and row `n - 1`. */
  lemma ScreenUpToStep(rows: nat, banner: seq<byte>, n: nat)
    requires n > 0
    ensures ScreenUpTo(rows, banner, n) == ScreenUpTo(rows, banner, n - 1) + Line(rows, banner, n - 1)
  {
  }

  /** How many times byte `x` occurs in `s`. */
  function Occurrences(s: seq<byte>, x: byte): nat
  {
    if s == [] then 0
    else Occurrences(s[..|s| - 1], x) + (if s[|s| - 1] == x then 1 else 0)
  }

  lemma {:induction false} OccurrencesAppend(a: seq<byte>, b: seq<byte>, x: byte)
    ensures Occurrences(a + b, x) == Occurrences(a, x) + Occurrences(b, x)
  {
    if b == [] {
      assert a + b == a;
    } else {
      assert (a + b)[..|a + b| - 1] == a + b[..|b| - 1];
      OccurrencesAppend(a, b[..|b| - 1], x);
    }
  }

  lemma {:induction false} OccurrencesAbsent(s: seq<byte>, x: byte)
    requires x !in s
    ensures Occurrences(s, x) == 0
  {
    if s != [] {
      assert x !in s[..|s| - 1];
      OccurrencesAbsent(s[..|s| - 1], x);
    }
  }

  /** A row holds one ESC, from its erase code, and one CR and one LF unless it is
      the last row. */
  lemma LineCounts(rows: nat, banner: seq<byte>, r: nat)
    requires Plain(banner) && r < rows
    ensures Occurrences(Line(rows, banner, r), Esc) == 1
    ensures Occurrences(Line(rows, banner, r), CarriageReturn) == if r < rows - 1 then 1 else 0
    ensures Occurrences(Line(rows, banner, r), LineFeed) == if r < rows - 1 then 1 else 0
  {
    var t, br := RowText(rows, banner, r), if r < rows - 1 then CrLf else [];
    assert Line(rows, banner, r) == t + (EraseLine + br);
    forall x | x in {Esc, CarriageReturn, LineFeed}
      ensures Occurrences(Line(rows, banner, r), x) == Occurrences(EraseLine + br, x)
    {
      OccurrencesAbsent(t, x);
      OccurrencesAppend(t, EraseLine + br, x);
    }
    CodeCounts();
    if br == [] {
      assert EraseLine + br == EraseLine;
    } else {
      OccurrencesAppend(EraseLine, CrLf, Esc);
      OccurrencesAppend(EraseLine, CrLf, CarriageReturn);
      OccurrencesAppend(EraseLine, CrLf, LineFeed);
    }
  }

  lemma OccurrencesSingle(b: byte, x: byte)
    ensures Occurrences([b], x) == if b == x then 1 else 0
  {
    assert [b][..0] == [];
  }

  /** The erase code holds one ESC and the line break one CR and one LF. */
  lemma CodeCounts()
    ensures Occurrences(EraseLine, Esc) == 1
    ensures Occurrences(EraseLine, CarriageReturn) == 0 && Occurrences(EraseLine, LineFeed) == 0
    ensures Occurrences(CrLf, Esc) == 0
    ensures Occurrences(CrLf, CarriageReturn) == 1 && Occurrences(CrLf, LineFeed) == 1
  {
    assert EraseLine == [Esc] + [0x5B, 0x4B];
    assert CrLf == [CarriageReturn] + [LineFeed];
    forall x | x in {Esc, CarriageReturn, LineFeed}
      ensures Occurrences(EraseLine, x) == (if x == Esc then 1 else 0)
      ensures Occurrences(CrLf, x) == (if x == Esc then 0 else 1)
    {
      OccurrencesSingle(Esc, x);
      OccurrencesAbsent([0x5B, 0x4B], x);
      OccurrencesAppend([Esc], [0x5B, 0x4B], x);
      OccurrencesSingle(CarriageReturn, x);
      OccurrencesSingle(LineFeed, x);
      OccurrencesAppend([CarriageReturn], [LineFeed], x);
    }
  }

  lemma {:induction false} ScreenUpToCounts(rows: nat, banner: seq<byte>, n: nat)
    requires Plain(banner) && 0 < rows && n <= rows
    ensures Occurrences(ScreenUpTo(rows, banner, n), Esc) == n
    ensures Occurrences(ScreenUpTo(rows, banner, n), CarriageReturn) == if n < rows then n else rows - 1
    ensures Occurrences(ScreenUpTo(rows, banner, n), LineFeed) == if n < rows then n else rows - 1
  {
    if n > 0 {
      ScreenUpToCounts(rows, banner, n - 1);
      LineCounts(rows, banner, n - 1);
      var a, l := ScreenUpTo(rows, banner, n - 1), Line(rows, banner, n - 1);
      assert ScreenUpTo(rows, banner, n) == a + l;
      OccurrencesAppend(a, l, Esc);
      OccurrencesAppend(a, l, CarriageReturn);
      OccurrencesAppend(a, l, LineFeed);
    }
  }

  /** Control bytes on the screen come only from the erase codes and the line
      breaks: there are `rows` ESC bytes, one per erase code, and `rows - 1`
      carriage returns and line feeds. The screen ends with an erase code. */
  lemma ScreenCounts(rows: nat, cols: nat)
    requires rows > 0
    ensures Occurrences(Screen(rows, cols), Esc) == rows
    ensures Occurrences(Screen(rows, cols), CarriageReturn) == rows - 1
    ensures Occurrences(Screen(rows, cols), LineFeed) == rows - 1
    ensures |Screen(rows, cols)| >= 3 && Screen(rows, cols)[|Screen(rows, cols)| - 3..] == EraseLine
  {
    var banner := BannerRow(cols);
    BannerRowPlain(cols);
    ScreenUpToCounts(rows, banner, rows);
    var front, last := ScreenUpTo(rows, banner, rows - 1), RowText(rows, banner, rows - 1);
    assert Screen(rows, cols) == front + last + EraseLine;
  }

  /** A frame puts on the screen exactly the bytes of its rows. */
  lemma FrameWritten(w: seq<Output>, row: nat, col: nat)
    requires Text(w).Some?
    ensures Written(Frame(w, row, col)) == Text(w).value
  {
    TextWritten(w);
    var head, tail := [HideCursor, ResetCursor], [MoveCursorTo(row + 1, col + 1), ShowCursor, Flush];
    WrittenConcat(head + w, tail);
    WrittenConcat(head, w);
    assert Written(head) == [] by {
      assert head == [HideCursor] + [ResetCursor];
      WrittenConcat([HideCursor], [ResetCursor]);
      WrittenOne(HideCursor);
      WrittenOne(ResetCursor);
    }
    assert Written(tail) == [] by {
      assert tail == [MoveCursorTo(row + 1, col + 1)] + [ShowCursor] + [Flush];
      WrittenConcat([MoveCursorTo(row + 1, col + 1)] + [ShowCursor], [Flush]);
      WrittenConcat([MoveCursorTo(row + 1, col + 1)], [ShowCursor]);
      WrittenOne(MoveCursorTo(row + 1, col + 1));
      WrittenOne(ShowCursor);
      WrittenOne(Flush);
    }
  }

  /** A frame of writes contains exactly one flush, as its last token; the writes
      are exactly its tokens between homing the cursor and moving it; after them
      the cursor goes to a cell of the screen, counted from 1, and is shown. */
  lemma FrameFlushedOnce(w: seq<Output>, rows: nat, cols: nat, row: nat, col: nat)
    requires Text(w).Some? && row < rows && col < cols
    ensures var f := Frame(w, row, col);
      f[0] == HideCursor && f[1] == ResetCursor && f[|f| - 1] == Flush &&
      (forall i :: 0 <= i < |f| && f[i] == Flush ==> i == |f| - 1) &&
      (forall i :: 0 <= i < |f| ==> (f[i].Write? <==> 2 <= i < |f| - 3)) &&
      f[|f| - 3] == MoveCursorTo(row + 1, col + 1) && 1 <= row + 1 <= rows && 1 <= col + 1 <= cols &&
      f[|f| - 2] == ShowCursor
  {
    var f := Frame(w, row, col);
    TextWritten(w);
    forall i | 0 <= i < |f|
      ensures f[i] == Flush ==> i == |f| - 1
      ensures f[i].Write? <==> 2 <= i < |f| - 3
    {
      if 2 <= i < |f| - 3 {
        assert f[i] == w[i - 2];
      }
    }
  }
}
