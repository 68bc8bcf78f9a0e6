/** The interface the editor uses from its terminal: bytes, a single I/O failure,
    and the output operations recorded as a trace of tokens. The terminal itself
    (raw mode, the escape strings for cursor control, the file descriptors) is not
    part of this model. */
module Terminal {

  /** An unsigned 8-bit value, as read from and written to the terminal. */
  newtype byte = x: int | 0 <= x < 256

  /** The only failure the core can observe: a read or write on the terminal failed. */
  datatype Error = IoError

  /** A failure-compatible result, so that `:-` mirrors the source's `?`. */
  datatype Result<+T> = Ok(value: T) | Err(error: Error) {
    predicate IsFailure() {
      Err?
    }

    function PropagateFailure<U>(): Result<U>
      requires Err?
    {
      Err(error)
    }

    function Extract(): T
      requires Ok?
    {
      value
    }
  }

  /** One call on the terminal's output side. The byte strings behind the cursor
      operations live in the terminal and are kept abstract. */
  datatype Output =
    | HideCursor
    | ShowCursor
    | ResetCursor
    | MoveCursorTo(row: nat, col: nat)
    | Write(data: seq<byte>)
    | Flush

  datatype Option<+T> = None | Some(value: T)

  /** The bytes the writes of a trace put on the screen, in order; the other calls
      put none. */
  function Written(trace: seq<Output>): seq<byte>
  {
    if trace == [] then []
    else Written(trace[..|trace| - 1]) + (if trace[|trace| - 1].Write? then trace[|trace| - 1].data else [])
  }

  /** The bytes of a trace made of writes only, and None when some call in it is
      not a write. */
  function Text(trace: seq<Output>): Option<seq<byte>>
  {
    if trace == [] then Some([])
    else
      var front, last := Text(trace[..|trace| - 1]), trace[|trace| - 1];
      if front.Some? && last.Write? then Some(front.value + last.data) else None
  }

  /** The escape byte, 0x1b. */
  const Esc: byte := 0x1B

  /** The byte that asks the editor to quit: Ctrl-Q, that is 'q' (0x71) with the
      top three bits cleared. */
  const QuitByte: byte := 0x11

  /** A single write puts its bytes on the screen; other calls put none. */
  lemma WrittenOne(o: Output)
    ensures Written([o]) == if o.Write? then o.data else []
    ensures Text([o]) == if o.Write? then Some(o.data) else None
  {
    assert [o][..0] == [];
  }

  /** The bytes written by two traces one after the other are those of the first
      followed by those of the second. */
  lemma {:induction false} WrittenConcat(a: seq<Output>, b: seq<Output>)
    ensures Written(a + b) == Written(a) + Written(b)
  {
    if b != [] {
      assert (a + b)[..|a + b| - 1] == a + b[..|b| - 1];
      WrittenConcat(a, b[..|b| - 1]);
    } else {
      assert a + b == a;
    }
  }

  /** Two traces one after the other are writes only exactly when both are, and
      then their text is the first one's followed by the second one's. */
  lemma {:induction false} TextConcat(a: seq<Output>, b: seq<Output>)
    ensures Text(a + b).Some? <==> Text(a).Some? && Text(b).Some?
    ensures Text(a + b).Some? ==> Text(a + b).value == Text(a).value + Text(b).value
  {
    if b != [] {
      assert (a + b)[..|a + b| - 1] == a + b[..|b| - 1];
      TextConcat(a, b[..|b| - 1]);
    } else {
      assert a + b == a;
    }
  }

  /** A trace with a text is writes only, and its text is what it writes. */
  lemma {:induction false} TextWritten(trace: seq<Output>)
    requires Text(trace).Some?
    ensures Text(trace).value == Written(trace)
    ensures forall i :: 0 <= i < |trace| ==> trace[i].Write?
  {
    if trace != [] {
      TextWritten(trace[..|trace| - 1]);
      assert forall i :: 0 <= i < |trace| - 1 ==> trace[i] == trace[..|trace| - 1][i];
    }
  }
}
