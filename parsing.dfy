/** The digit-string move encoding (`parse_move`): first digit the batch slot, the rest the board
    position in decimal. */
module MoveParsing {
  import opened Errors
  import opened Board

  /** Longest input whose decimal position fits a 64-bit `usize` at every step of the parse. */
  const MaxMoveLength: nat := 20

  predicate IsDigit(c: char) { '0' <= c <= '9' }

  function DigitValue(c: char): (d: nat)
    requires IsDigit(c)
  {
    c as int - '0' as int
  }

  function DigitChar(d: nat): (ch: char)
    requires d < 10
  {
    (d + '0' as int) as char
  }

  /** The inputs the parser handles without panicking: ASCII (so that characters and bytes
      coincide), and only digits once the length check has passed. */
  predicate WellFormedMove(mv: string) {
    (forall i :: 0 <= i < |mv| ==> mv[i] as int < 128)
    && (|mv| >= MinMoveDigits ==> forall i :: 0 <= i < |mv| ==> IsDigit(mv[i]))
  }

  /** The digit values of an all-digit string. */
  function Digits(mv: string): (ds: seq<nat>)
    requires forall i :: 0 <= i < |mv| ==> IsDigit(mv[i])
  {
    seq(|mv|, i requires 0 <= i < |mv| => DigitValue(mv[i]))
  }

  function Pow10(e: nat): (p: nat) {
    if e == 0 then 1 else 10 * Pow10(e - 1)
  }

  /** The number a digit sequence denotes, most significant digit first. */
  function DecimalValue(ds: seq<nat>): (value: nat) {
    if ds == [] then 0 else ds[0] * Pow10(|ds| - 1) + DecimalValue(ds[1..])
  }

  /** What a move string decodes to: too short, a slot index of 3 or more, a position of 81 or
      more are errors, checked in this order; otherwise the slot index and the position. */
  function DecodeMove(mv: string): (decoded: Result<(nat, nat)>)
    requires WellFormedMove(mv)
  {
    if |mv| < MinMoveDigits then Err(TooFewDigits)
    else
      var ds := Digits(mv);
      if ds[0] >= ShapesBatchSize then Err(ShapeIndexOutOfRange)
      else if DecimalValue(ds[1..]) >= BoardSize then Err(PositionOutOfRange)
      else Ok((ds[0], DecimalValue(ds[1..])))
  }

  /** `parse_move`: the position is accumulated from the last digit up, each digit weighted by the
      power of ten of its distance from the end. */
  method ParseMove(mv: string) returns (r: Result<(nat, nat)>)
    requires WellFormedMove(mv) && |mv| <= MaxMoveLength
    ensures r == DecodeMove(mv)
  {
    if |mv| < MinMoveDigits {
      return Err(TooFewDigits);
    }
    var mvDigits := Digits(mv);
    var shapeIx := mvDigits[0];
    if shapeIx >= ShapesBatchSize {
      return Err(ShapeIndexOutOfRange);
    }
    var rest := mvDigits[1..];
    var position := 0;
    for ix := 0 to |rest|
      invariant position == DecimalValue(rest[|rest| - ix..])
    {
      var j := |rest| - 1 - ix;
      assert rest[j..][1..] == rest[j + 1..];
      position := position + rest[j] * Pow10(ix);
    }
    assert rest[0..] == rest;
    if position >= BoardSize {
      return Err(PositionOutOfRange);
    }
    return Ok((shapeIx, position));
  }

  /** The decimal text of `n`, as `to_string` writes it: no leading zeros. */
  function DecimalString(n: nat): (s: string) {
    if n < 10 then [DigitChar(n)] else DecimalString(n / 10) + [DigitChar(n % 10)]
  }

  /** A move written the way callers write it: the slot digit, then the position's decimal text. */
  function EncodeMove(shapeIx: nat, position: nat): (mv: string)
    requires shapeIx < 10
  {
    [DigitChar(shapeIx)] + DecimalString(position)
  }

  /** Appending a digit multiplies the value by ten and adds the digit. */
  lemma {:induction false} DecimalValueSnoc(ds: seq<nat>, d: nat)
    ensures DecimalValue(ds + [d]) == DecimalValue(ds) * 10 + d
  {
    if ds != [] {
      assert (ds + [d])[1..] == ds[1..] + [d];
      DecimalValueSnoc(ds[1..], d);
      assert Pow10(|ds|) == 10 * Pow10(|ds| - 1);
    }
  }

  lemma {:induction false} DecimalStringDigits(n: nat)
    ensures |DecimalString(n)| >= 1
    ensures forall i :: 0 <= i < |DecimalString(n)| ==> IsDigit(DecimalString(n)[i])
    ensures DecimalValue(Digits(DecimalString(n))) == n
    ensures n < 100 ==> |DecimalString(n)| <= 2
  {
    if n >= 10 {
      DecimalStringDigits(n / 10);
      var s := DecimalString(n / 10);
      assert Digits(s + [DigitChar(n % 10)]) == Digits(s) + [n % 10];
      DecimalValueSnoc(Digits(s), n % 10);
    }
  }

  /** Decoding a move written by EncodeMove gives back its slot and position. */
  lemma DecodeEncode(shapeIx: nat, position: nat)
    requires shapeIx < ShapesBatchSize && position < BoardSize
    ensures WellFormedMove(EncodeMove(shapeIx, position))
    ensures |EncodeMove(shapeIx, position)| <= MaxMoveLength
    ensures DecodeMove(EncodeMove(shapeIx, position)) == Ok((shapeIx, position))
  {
    DecimalStringDigits(position);
    var mv := EncodeMove(shapeIx, position);
    assert Digits(mv)[1..] == Digits(DecimalString(position));
  }
}
