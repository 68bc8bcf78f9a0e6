/** The key decoder of src/editor.rs (`get_key`, `handle_esc_key`): it turns the
    bytes typed at the terminal into one `Key` per call. Reading a byte either
    takes the next byte of the input or fails because the input is exhausted. */
module Keys {
  import opened Terminal

  datatype Direction = Left | Right | Up | Down

  datatype Key =
    | Arrow(dir: Direction)
    | PageUp
    | PageDown
    | Home
    | End
    | Delete
    | Simple(b: byte)

  // The bytes the decoder compares against, by the character they stand for.
  const LeftBracket: byte := 0x5B  // '['
  const Tilde: byte := 0x7E        // '~'
  const DigitZero: byte := 0x30    // '0'
  const DigitNine: byte := 0x39    // '9'
  const LetterA: byte := 0x41      // 'A'
  const LetterB: byte := 0x42      // 'B'
  const LetterC: byte := 0x43      // 'C'
  const LetterD: byte := 0x44      // 'D'
  const LetterF: byte := 0x46      // 'F'
  const LetterH: byte := 0x48      // 'H'

  predicate IsDigit(b: byte) {
    DigitZero <= b <= DigitNine
  }

  /** A decoded key and the number of bytes taken from the input for it. */
  datatype Decoded = Decoded(key: Key, consumed: nat)

  /** What `handle_esc_key` does with the bytes that follow an ESC: it always reads
      two bytes, and a third one only after '[' and a digit. A read past the end of
      `rest` fails, and the failure is the result. */
  function EscapeSequence(rest: seq<byte>): Result<Decoded>
  {
    if |rest| < 2 then Err(IoError)
    else
      var b1, b2 := rest[0], rest[1];
      if b1 == LeftBracket then
        if b2 == LetterA then Ok(Decoded(Arrow(Up), 2))
        else if b2 == LetterB then Ok(Decoded(Arrow(Down), 2))
        else if b2 == LetterC then Ok(Decoded(Arrow(Right), 2))
        else if b2 == LetterD then Ok(Decoded(Arrow(Left), 2))
        else if b2 == LetterH then Ok(Decoded(Home, 2))
        else if b2 == LetterF then Ok(Decoded(End, 2))
        else if IsDigit(b2) then
          if |rest| < 3 then Err(IoError)
          else if rest[2] == Tilde then Ok(Decoded(TildeKey(b2), 3))
          else Ok(Decoded(Simple(Esc), 3))
        else Ok(Decoded(Simple(Esc), 2))
      else if b1 == DigitZero then
        if b2 == LetterH then Ok(Decoded(Home, 2))
        else if b2 == LetterF then Ok(Decoded(End, 2))
        else Ok(Decoded(Simple(Esc), 2))
      else Ok(Decoded(Simple(Esc), 2))
  }

  /** The key of ESC '[' d '~' for the digit d. */
  function TildeKey(d: byte): Key
  {
    if d == 0x31 then Home          // '1'
    else if d == 0x33 then Delete   // '3'
    else if d == 0x34 then End      // '4'
    else if d == 0x35 then PageUp   // '5'
    else if d == 0x36 then PageDown // '6'
    else if d == 0x37 then Home     // '7'
    else if d == 0x38 then End      // '8'
    else Simple(Esc)
  }

  /** `get_key`: a failure of the first read is returned; after an ESC any failure
      is replaced by the key ESC, and as a read fails only at the end of the input,
      the whole input has then been consumed. */
  function Decode(input: seq<byte>): (r: Result<Decoded>)
    ensures r.Ok? <==> |input| > 0
    ensures r.Ok? ==> 1 <= r.value.consumed <= |input|
  {
    if |input| == 0 then Err(IoError)
    else if input[0] != Esc then Ok(Decoded(Simple(input[0]), 1))
    else
      match EscapeSequence(input[1..])
      case Ok(d) => Ok(Decoded(d.key, d.consumed + 1))
      case Err(_) => Ok(Decoded(Simple(Esc), |input|))
  }

  /** How many bytes a decode starting with ESC tries to read: four after
      ESC '[' digit, three otherwise. */
  function ProbeLength(input: seq<byte>): nat
  {
    if |input| >= 3 && input[1] == LeftBracket && IsDigit(input[2]) then 4 else 3
  }

  /** The smaller of two counts. */
  function Min(a: nat, b: nat): nat {
    if a <= b then a else b
  }

  /** The escape sequences the decoder recognises, with the key of each. */
  const EscapeTable: map<seq<byte>, Key> := map[
    [Esc, LeftBracket, LetterA] := Arrow(Up),
    [Esc, LeftBracket, LetterB] := Arrow(Down),
    [Esc, LeftBracket, LetterC] := Arrow(Right),
    [Esc, LeftBracket, LetterD] := Arrow(Left),
    [Esc, LeftBracket, LetterH] := Home,
    [Esc, LeftBracket, LetterF] := End,
    [Esc, DigitZero, LetterH] := Home,
    [Esc, DigitZero, LetterF] := End,
    [Esc, LeftBracket, 0x31, Tilde] := Home,
    [Esc, LeftBracket, 0x33, Tilde] := Delete,
    [Esc, LeftBracket, 0x34, Tilde] := End,
    [Esc, LeftBracket, 0x35, Tilde] := PageUp,
    [Esc, LeftBracket, 0x36, Tilde] := PageDown,
    [Esc, LeftBracket, 0x37, Tilde] := Home,
    [Esc, LeftBracket, 0x38, Tilde] := End
  ]

  /** A byte other than ESC is a key by itself, after a single read; an empty
      input is an error. */
  lemma DecodeFirstByte(input: seq<byte>)
    ensures |input| == 0 ==> Decode(input).Err?
    ensures |input| > 0 && input[0] != Esc ==> Decode(input) == Ok(Decoded(Simple(input[0]), 1))
  {
  }

  /** The number of bytes a decode consumes: one without ESC; after ESC, the whole
      probe (four bytes after ESC '[' digit, three otherwise) or the whole input if
      it is shorter. Nothing read is given back. */
  lemma DecodeConsumed(input: seq<byte>)
    requires |input| > 0
    ensures Decode(input).Ok?
    ensures input[0] != Esc ==> Decode(input).value.consumed == 1
    ensures input[0] == Esc ==> Decode(input).value.consumed == Min(ProbeLength(input), |input|)
  {
  }

  /** Every sequence of the table decodes to its key, whatever follows it, and
      consumes exactly its own bytes. */
  lemma DecodeKnownEscape(q: seq<byte>, rest: seq<byte>)
    requires q in EscapeTable
    ensures Decode(q + rest) == Ok(Decoded(EscapeTable[q], |q|))
  {
  }

  /** Conversely, an input starting with ESC decodes to a key other than ESC only
      when its consumed bytes form a sequence of the table, with that key. */
  lemma DecodeEscapeRecognised(input: seq<byte>)
    requires |input| > 0 && input[0] == Esc
    requires Decode(input).value.key != Simple(Esc)
    ensures input[..Decode(input).value.consumed] in EscapeTable
    ensures EscapeTable[input[..Decode(input).value.consumed]] == Decode(input).value.key
  {
    DecodeConsumed(input);
    var n := Decode(input).value.consumed;
    // a read that failed would have produced ESC, so the whole probe was read
    if n == 3 {
      assert input[..n] == [Esc, input[1], input[2]];
    } else {
      assert input[..n] == [Esc, input[1], input[2], input[3]];
    }
  }

  /** An input that starts with ESC and has no sequence of the table as a prefix
      decodes to ESC, with the probe (or all of a shorter input) consumed. */
  lemma DecodeUnknownEscape(input: seq<byte>)
    requires |input| > 0 && input[0] == Esc
    requires forall q :: q in EscapeTable ==> !(q <= input)
    ensures Decode(input) == Ok(Decoded(Simple(Esc), Min(ProbeLength(input), |input|)))
  {
    DecodeConsumed(input);
    if |input| >= 3 {
      var q := input[..3];
      assert q == [Esc, input[1], input[2]] && q <= input;
      assert q !in EscapeTable;
      if |input| >= 4 {
        var q' := input[..4];
        assert q' == [Esc, input[1], input[2], input[3]] && q' <= input;
        assert q' !in EscapeTable;
      }
    }
  }

  /** A truncated escape sequence is not an error: it decodes to ESC and consumes
      everything there was. */
  lemma DecodeTruncatedEscape(input: seq<byte>)
    requires |input| > 0 && input[0] == Esc
    requires |input| < ProbeLength(input)
    ensures Decode(input) == Ok(Decoded(Simple(Esc), |input|))
  {
  }

  /** The decoder looks no further than the bytes it consumes: once all its reads
      succeed, bytes after them do not change the result. */
  lemma DecodeIgnoresLaterBytes(input: seq<byte>, later: seq<byte>)
    requires |input| > 0
    requires input[0] == Esc ==> ProbeLength(input) <= |input|
    ensures Decode(input + later) == Decode(input)
  {
  }

  /** The keys a whole input decodes to, one decode after the other, each starting
      where the previous one stopped. */
  function DecodeAll(input: seq<byte>): seq<Key>
    decreases |input|
  {
    if |input| == 0 then []
    else
      var d := Decode(input).value;
      [d.key] + DecodeAll(input[d.consumed..])
  }

  /** A byte string a terminal can send for each key. A literal ESC has to be
      followed by two bytes that start no sequence, and the decoder consumes them
      with it; ESC ESC ESC is such an input. */
  function Encode(k: Key): seq<byte>
  {
    match k
    case Arrow(Up) => [Esc, LeftBracket, LetterA]
    case Arrow(Down) => [Esc, LeftBracket, LetterB]
    case Arrow(Right) => [Esc, LeftBracket, LetterC]
    case Arrow(Left) => [Esc, LeftBracket, LetterD]
    case Home => [Esc, LeftBracket, LetterH]
    case End => [Esc, LeftBracket, LetterF]
    case Delete => [Esc, LeftBracket, 0x33, Tilde]
    case PageUp => [Esc, LeftBracket, 0x35, Tilde]
    case PageDown => [Esc, LeftBracket, 0x36, Tilde]
    case Simple(b) => if b == Esc then [Esc, Esc, Esc] else [b]
  }

  function EncodeAll(ks: seq<Key>): seq<byte>
  {
    if ks == [] then [] else Encode(ks[0]) + EncodeAll(ks[1..])
  }

  /** Decoding the encoding of a key gives back the key, consuming exactly its
      encoding, whatever comes after it. */
  lemma DecodeEncode(k: Key, rest: seq<byte>)
    ensures Decode(Encode(k) + rest) == Ok(Decoded(k, |Encode(k)|))
  {
    var e := Encode(k);
    if k.Simple? {
      assert (e + rest)[0] == e[0];
    } else {
      assert e in EscapeTable && EscapeTable[e] == k;
      DecodeKnownEscape(e, rest);
    }
  }

  /** A stream of keys a terminal sends decodes to exactly those keys, in order. */
  lemma {:induction false} DecodeAllEncodeAll(ks: seq<Key>)
    ensures DecodeAll(EncodeAll(ks)) == ks
  {
    if ks != [] {
      var e, rest := Encode(ks[0]), EncodeAll(ks[1..]);
      DecodeEncode(ks[0], rest);
      assert (e + rest)[|e|..] == rest;
      DecodeAllEncodeAll(ks[1..]);
    }
  }
}
