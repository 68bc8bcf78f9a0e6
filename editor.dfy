/** The editor of src/editor.rs as an object: the screen size, the cursor that
    `handle_keypress` moves in place, and the two sides of its terminal: the input
    bytes it reads, with how many it has read, and the trace of output calls. */
module Kilo {
  import opened Terminal
  import opened Keys
  import opened Cursor
  import opened Render

  class Editor {
    const rows: nat
    const cols: nat
    var cRow: nat
    var cCol: nat

    /** Every byte the terminal will deliver, and how many have been read. */
    const input: seq<byte>
    var pos: nat

    /** Every call made on the terminal's output side, oldest first. */
    var out: seq<Output>

    /** The screen is not empty, the cursor is on it, and reads stay in the input. */
    ghost predicate Valid()
      reads this
    {
      rows > 0 && cols > 0 && cRow < rows && cCol < cols && pos <= |input|
    }

    function Here(): Position
      reads this
    {
      Position(cRow, cCol)
    }

    /** The editor right after start-up: the cursor in the top left corner, nothing
        read and nothing written. */
    constructor (rows: nat, cols: nat, input: seq<byte>)
      requires rows > 0 && cols > 0
      ensures Valid()
      ensures this.rows == rows && this.cols == cols && this.input == input
      ensures Here() == Position(0, 0) && pos == 0 && out == []
    {
      this.rows, this.cols, this.input := rows, cols, input;
      cRow, cCol, pos, out := 0, 0, 0, [];
    }

    /** One read from the terminal: the next byte, or a failure once the input is
        exhausted. */
    method ReadByte() returns (r: Result<byte>)
      requires Valid()
      modifies this`pos
      ensures Valid()
      ensures old(pos) < |input| ==> r == Ok(input[old(pos)]) && pos == old(pos) + 1
      ensures old(pos) == |input| ==> r.Err? && pos == old(pos)
    {
      if pos < |input| {
        r := Ok(input[pos]);
        pos := pos + 1;
      } else {
        r := Err(IoError);
      }
    }

    /** `handle_esc_key`: reads what follows an ESC; a failed read is returned. */
    method HandleEscKey() returns (r: Result<Key>)
      requires Valid()
      modifies this`pos
      ensures Valid()
      ensures match EscapeSequence(input[old(pos)..])
        case Ok(d) => r == Ok(d.key) && pos == old(pos) + d.consumed
        case Err(_) => r.Err? && pos == |input|
    {
      ghost var start := pos;
      var b1 :- ReadByte();
      var b2 :- ReadByte();
      assert input[start..][0] == b1 && input[start..][1] == b2;
      if b1 == LeftBracket {
        if b2 == LetterA {
          r := Ok(Arrow(Up));
        } else if b2 == LetterB {
          r := Ok(Arrow(Down));
        } else if b2 == LetterC {
          r := Ok(Arrow(Right));
        } else if b2 == LetterD {
          r := Ok(Arrow(Left));
        } else if b2 == LetterH {
          r := Ok(Home);
        } else if b2 == LetterF {
          r := Ok(End);
        } else if IsDigit(b2) {
          var b3 :- ReadByte();
          assert input[start..][2] == b3;
          if b3 == Tilde {
            r := Ok(TildeKey(b2));
          } else {
            r := Ok(Simple(Esc));
          }
        } else {
          r := Ok(Simple(Esc));
        }
      } else if b1 == DigitZero {
        if b2 == LetterH {
          r := Ok(Home);
        } else if b2 == LetterF {
          r := Ok(End);
        } else {
          r := Ok(Simple(Esc));
        }
      } else {
        r := Ok(Simple(Esc));
      }
    }

    /** `get_key`: the next key. A failure of the first read is returned; after an
        ESC a failure yields the key ESC. */
    method GetKey() returns (r: Result<Key>)
      requires Valid()
      modifies this`pos
      ensures Valid()
      ensures var d := Decode(input[old(pos)..]);
        (d.Ok? ==> r == Ok(d.value.key) && pos == old(pos) + d.value.consumed) &&
        (d.Err? ==> r.Err? && pos == old(pos))
    {
      ghost var start := pos;
      var b :- ReadByte();
      assert input[start..][0] == b;
      if b == Esc {
        assert input[start..][1..] == input[start + 1..];
        var e := HandleEscKey();
        return Ok(if e.Ok? then e.value else Simple(Esc));
      }
      return Ok(Simple(b));
    }

    /** `move_cursor`: one step in direction `d`, held on the screen. */
    method MoveCursor(d: Direction)
      requires Valid()
      modifies this`cRow, this`cCol
      ensures Valid()
      ensures Here() == Step(rows, cols, old(Here()), d)
    {
      match d
      case Left => if cCol > 0 { cCol := cCol - 1; }
      case Right => if cCol < cols - 1 { cCol := cCol + 1; }
      case Up => if cRow > 0 { cRow := cRow - 1; }
      case Down => if cRow < rows - 1 { cRow := cRow + 1; }
    }

    /** `handle_keypress`: reads one key and acts on it. The result says whether
        the key asks the editor to exit; a failed first read is returned and
        changes nothing. */
    method HandleKeypress() returns (r: Result<bool>)
      requires Valid()
      modifies this`pos, this`cRow, this`cCol
      ensures Valid()
      ensures var d := Decode(input[old(pos)..]);
        if d.Err? then r.Err? && pos == old(pos) && Here() == old(Here())
        else
          r == Ok(RequestsExit(d.value.key)) && pos == old(pos) + d.value.consumed &&
          Here() == Transition(rows, cols, old(Here()), d.value.key)
    {
      var k :- GetKey();
      ghost var p0, read := Here(), pos;
      match k {
        case Arrow(d) =>
          MoveCursor(d);
        case PageUp =>
          for i := 0 to rows
            invariant Valid() && pos == read
            invariant Here() == Steps(rows, cols, p0, Up, i)
          {
            MoveCursor(Up);
          }
        case PageDown =>
          for i := 0 to rows
            invariant Valid() && pos == read
            invariant Here() == Steps(rows, cols, p0, Down, i)
          {
            MoveCursor(Down);
          }
        case Home =>
          cCol := 0;
        case End =>
          cCol := cols - 1;
        case Delete =>
        case Simple(_) =>
      }
      r := Ok(k == Simple(QuitByte));
    }

    /** Sends one call to the terminal. */
    method Send(o: Output)
      modifies this`out
      ensures out == old(out) + [o]
    {
      out := out + [o];
    }

    /** Sends a write of `data` after `sent`, the calls sent since `out` was `base`. */
    method Emit(data: seq<byte>, ghost base: seq<Output>, ghost sent: seq<Output>) returns (ghost sent': seq<Output>)
      requires out == base + sent && Text(sent).Some?
      modifies this`out
      ensures out == base + sent' && sent' == sent + [Write(data)]
      ensures Text(sent') == Some(Text(sent).value + data)
    {
      Send(Write(data));
      sent' := ExtendWrite(base, sent, data);
    }

    /** The padding left of the banner: with any padding at all, the row marker
        and then `padding - 1` spaces. */
    method DrawPadding(padding: nat) returns (ghost added: seq<Output>)
      modifies this`out
      ensures out == old(out) + added
      ensures Text(added) == Some(PaddingText(padding))
    {
      added := [];
      if padding > 0 {
        added := Emit([RowMarker], old(out), added);
        assert Text(added).value == [] + [RowMarker] == [RowMarker] + Spaces(0);
        for i := 1 to padding
          invariant out == old(out) + added
          invariant Text(added) == Some([RowMarker] + Spaces(i - 1))
        {
          PaddingStep(Text(added).value, i);
          added := Emit([Space], old(out), added);
        }
      }
    }

    /** The banner row of `draw_rows`: the banner cut to the width of the screen,
        after its padding. `added` is what it sends. */
    method DrawWelcome() returns (ghost added: seq<Output>)
      modifies this`out
      ensures out == old(out) + added
      ensures Text(added) == Some(BannerRow(cols))
    {
      var welcome := Banner;
      if |welcome| > cols {
        welcome := welcome[..cols];
      }
      assert welcome == Welcome(cols);
      var padding := (cols - |welcome|) / 2;
      added := DrawPadding(padding);
      added := Emit(welcome, old(out), added);
    }

    /** The text of row `r`: the banner row on row rows/3, the row marker elsewhere. */
    method DrawRowText(r: nat) returns (ghost sent: seq<Output>)
      modifies this`out
      ensures out == old(out) + sent
      ensures Text(sent) == Some(RowText(rows, BannerRow(cols), r))
    {
      if r == rows / 3 {
        sent := DrawWelcome();
      } else {
        sent := Emit([RowMarker], old(out), []);
        assert Text(sent).value == [] + [RowMarker] == [RowMarker];
      }
    }

    /** One pass of the loop of `draw_rows`: the text of row `r`, the erase code,
        and a line break unless `r` is the last row. */
    method DrawRow(r: nat) returns (ghost sent: seq<Output>)
      modifies this`out
      ensures out == old(out) + sent
      ensures Text(sent) == Some(Line(rows, BannerRow(cols), r))
    {
      sent := DrawRowText(r);
      ghost var text := Text(sent).value;
      sent := Emit(EraseLine, old(out), sent);
      ghost var lineBreak: seq<byte> := [];
      if r < rows - 1 {
        sent := Emit(CrLf, old(out), sent);
        lineBreak := CrLf;
      } else {
        assert text + EraseLine == text + EraseLine + lineBreak;
      }
      assert Text(sent) == Some(text + EraseLine + lineBreak);
    }

    /** `draw_rows`: writes every row of the screen, and nothing else. */
    method DrawRows() returns (ghost drawn: seq<Output>)
      modifies this`out
      ensures out == old(out) + drawn
      ensures Text(drawn) == Some(Screen(rows, cols))
    {
      ghost var banner := BannerRow(cols);
      drawn := [];
      for r := 0 to rows
        invariant out == old(out) + drawn
        invariant Text(drawn) == Some(ScreenUpTo(rows, banner, r))
      {
        ghost var sent := DrawRow(r);
        drawn := Extend(old(out), drawn, sent);
        ScreenUpToStep(rows, banner, r + 1);
      }
    }

    /** `refresh_screen`: one whole frame around the rows, ended by the only flush. */
    method RefreshScreen() returns (ghost drawn: seq<Output>)
      modifies this`out
      ensures out == old(out) + Frame(drawn, cRow, cCol)
      ensures Text(drawn) == Some(Screen(rows, cols))
    {
      Send(HideCursor);
      Send(ResetCursor);
      ghost var head := [HideCursor, ResetCursor];
      Snoc2(old(out), HideCursor, ResetCursor);
      drawn := DrawRows();
      ghost var mid := out;
      var cursor := MoveCursorTo(cRow + 1, cCol + 1);
      Send(cursor);
      Send(ShowCursor);
      Send(Flush);
      Snoc3(mid, cursor, ShowCursor, Flush);
      ghost var tail := [cursor, ShowCursor, Flush];
      assert Frame(drawn, cRow, cCol) == head + drawn + tail;
      Regroup(old(out), head, drawn, tail);
    }
  }

  /** Appending `more` to what has been sent: the trace and its text extend. */
  lemma Extend(base: seq<Output>, sent: seq<Output>, more: seq<Output>) returns (sent': seq<Output>)
    requires Text(sent).Some? && Text(more).Some?
    ensures sent' == sent + more
    ensures base + sent + more == base + sent'
    ensures Text(sent') == Some(Text(sent).value + Text(more).value)
  {
    sent' := sent + more;
    TextConcat(sent, more);
  }

  /** The same for a single write of `data`. */
  lemma ExtendWrite(base: seq<Output>, sent: seq<Output>, data: seq<byte>) returns (sent': seq<Output>)
    requires Text(sent).Some?
    ensures sent' == sent + [Write(data)]
    ensures base + sent + [Write(data)] == base + sent'
    ensures Text(sent') == Some(Text(sent).value + data)
  {
    WrittenOne(Write(data));
    sent' := Extend(base, sent, [Write(data)]);
  }

  /** One more space extends the padding by one cell. */
  lemma PaddingStep(w: seq<byte>, i: nat)
    requires i > 0 && w == [RowMarker] + Spaces(i - 1)
    ensures w + [Space] == [RowMarker] + Spaces(i)
  {
  }

  // Regrouping the appends of a few calls.
  lemma Snoc2<T>(a: seq<T>, x: T, y: T)
    ensures a + [x] + [y] == a + [x, y]
  {
  }

  lemma Snoc3<T>(a: seq<T>, x: T, y: T, z: T)
    ensures a + [x] + [y] + [z] == a + [x, y, z]
  {
  }

  lemma Regroup<T>(a: seq<T>, b: seq<T>, c: seq<T>, d: seq<T>)
    ensures a + b + c + d == a + (b + c + d)
  {
  }
}
