/** The primitive decoders of `ByteUtils`: each reads an ASCII byte range of
    the message buffer in place. */
module ByteUtils {
  import opened Ascii
  import opened JavaInt
  import opened Results

  /** The value a numeric field denotes, before any fixed-width wrap-around:
      an optional leading '-' (and, when `plusAllowed`, an optional leading
      '+') followed by digits only; `None` as soon as anything else appears.
      The empty field denotes 0. */
  function SignedDecimal(s: seq<byte>, plusAllowed: bool): Option<int>
  {
    if |s| > 0 && s[0] == MINUS then
      if AllDigits(s[1..]) then Some(0 - Decimal(s[1..])) else None
    else if |s| > 0 && s[0] == PLUS && plusAllowed then
      if AllDigits(s[1..]) then Some(Decimal(s[1..])) else None
    else if AllDigits(s) then Some(Decimal(s))
    else None
  }

  /** The shortest signed decimal notation of `v`: a '-' only for a
      negative value. */
  function SignedText(v: int): (s: seq<byte>)
    ensures |s| > 0
  {
    if v < 0 then [MINUS] + DecimalText(-v) else DecimalText(v)
  }

  /** Reading back the notation of `v` gives `v`, with or without '+'
      accepted. */
  lemma SignedTextRoundTrip(v: int, plusAllowed: bool)
    ensures SignedDecimal(SignedText(v), plusAllowed) == Some(v)
  {
    var s := SignedText(v);
    if v < 0 {
      DecimalTextRoundTrip(-v);
      assert s[1..] == DecimalText(-v);
    } else {
      DecimalTextRoundTrip(v);
      DigitsAreNotSeparators(s);
    }
  }

  // ---------------------------------------------------------------- readInt

  /** The digit loop of `readInt` from index `i` up to `end`, with the
      accumulator `acc` held in a Java `int`. */
  function AccumulateInt(data: seq<byte>, i: nat, end: int, acc: Int32): Result<Int32>
    decreases end - i
  {
    if i >= end then Success(acc)
    else if i >= |data| then Failure(IndexOutOfBounds)
    else if !IsDigit(data[i]) then Failure(MalformedNumber)
    else AccumulateInt(data, i + 1, end, Wrap32(Wrap32(acc * 10) + DigitValue(data[i])))
  }

  /** `ByteUtils.readInt(data, offset, length)`. */
  function ReadInt(data: seq<byte>, offset: int, length: int): (r: Result<Int32>)
    ensures length <= 0 ==> r == Success(0)
    ensures length > 0 && !(0 <= offset < |data|) ==> r.Failure?
  {
    if length <= 0 then Success(0)
    else if offset < 0 || offset >= |data| then Failure(IndexOutOfBounds)
    else
      var negative := data[offset] == MINUS;
      var result :- AccumulateInt(data, if negative then offset + 1 else offset, offset + length, 0);
      Success(if negative then Wrap32(-(result as int)) else result)
  }

  /** Invariant of the digit loop: while the digits seen so far are
      `data[start..i]`, the accumulator is their value wrapped to 32 bits. */
  lemma {:induction false} AccumulateIntCorrect(data: seq<byte>, start: nat, i: nat, end: int, acc: Int32)
    requires start <= i <= end && i <= |data|
    requires AllDigits(data[start..i]) && acc == Wrap32(Decimal(data[start..i]))
    ensures end <= |data| && AllDigits(data[i..end]) ==>
              AllDigits(data[start..end]) &&
              AccumulateInt(data, i, end, acc) == Success(Wrap32(Decimal(data[start..end])))
    ensures !(end <= |data| && AllDigits(data[i..end])) ==> AccumulateInt(data, i, end, acc).Failure?
    decreases end - i
  {
    if i < end && i < |data| && IsDigit(data[i]) {
      assert data[start..i + 1] == data[start..i] + [data[i]];
      DecimalAppend(data[start..i], data[i]);
      MulAddStep32(Decimal(data[start..i]), DigitValue(data[i]));
      AccumulateIntCorrect(data, start, i + 1, end, Wrap32(Wrap32(acc * 10) + DigitValue(data[i])));
      if end <= |data| && AllDigits(data[i..end]) {
        assert data[i + 1..end] == data[i..end][1..];
      }
      if !(end <= |data| && AllDigits(data[i..end])) && end <= |data| {
        assert data[i..end] == [data[i]] + data[i + 1..end];
      }
    } else if i < end <= |data| {
      assert data[i..end][0] == data[i];
    }
  }

  /** `readInt` decodes exactly the signed decimal value of the range (no '+'
      accepted), wrapped to a Java `int`; it fails on any other byte and on a
      range that leaves the buffer; an empty range reads no byte and gives 0. */
  lemma ReadIntCorrect(data: seq<byte>, offset: int, length: int)
    ensures length <= 0 ==> ReadInt(data, offset, length) == Success(0)
    ensures length > 0 && 0 <= offset && offset + length <= |data| ==>
              match SignedDecimal(data[offset..offset + length], false)
              case Some(v) => ReadInt(data, offset, length) == Success(Wrap32(v))
              case None => ReadInt(data, offset, length).Failure?
    ensures length > 0 && !(0 <= offset && offset + length <= |data|) ==>
              ReadInt(data, offset, length).Failure?
  {
    if length > 0 && 0 <= offset < |data| {
      var end := offset + length;
      if data[offset] == MINUS {
        assert data[offset + 1..offset + 1] == [];
        AccumulateIntCorrect(data, offset + 1, offset + 1, end, 0);
        if end <= |data| {
          var s := data[offset..end];
          assert s[1..] == data[offset + 1..end];
          if AllDigits(s[1..]) {
            Negate32(Decimal(s[1..]));
          }
        }
      } else {
        assert data[offset..offset] == [];
        AccumulateIntCorrect(data, offset, offset, end, 0);
      }
    }
  }

  // --------------------------------------------------------------- readLong

  /** The digit loop of `readLong`, with the accumulator in a Java `long` and
      the multiplication written as two shifts. */
  function AccumulateLong(data: seq<byte>, i: nat, end: int, acc: Int64): Result<Int64>
    decreases end - i
  {
    if i >= end then Success(acc)
    else if i >= |data| then Failure(IndexOutOfBounds)
    else if !IsDigit(data[i]) then Failure(MalformedNumber)
    else AccumulateLong(data, i + 1, end, LongDigitStep(acc, data[i]))
  }

  /** `result = (result << 3) + (result << 1) + (b - '0')` in `long` arithmetic. */
  function LongDigitStep(acc: Int64, b: byte): Int64
    requires IsDigit(b)
  {
    Wrap64(Wrap64(ShiftLeft64(acc, 3) + ShiftLeft64(acc, 1)) + DigitValue(b))
  }

  /** The shift step appends a digit to the wrapped decimal value. */
  lemma LongDigitStepAppends(prefix: seq<byte>, b: byte)
    requires AllDigits(prefix) && IsDigit(b)
    ensures AllDigits(prefix + [b])
    ensures LongDigitStep(Wrap64(Decimal(prefix)), b) == Wrap64(Decimal(prefix + [b]))
  {
    DecimalAppend(prefix, b);
    LongDigitStepTimesTen(Decimal(prefix), b);
  }

  /** The shift step on a wrapped accumulator `a` gives `10 * a + d`
      wrapped. */
  lemma LongDigitStepTimesTen(a: int, b: byte)
    requires IsDigit(b)
    ensures LongDigitStep(Wrap64(a), b) == Wrap64(10 * a + DigitValue(b))
  {
    ShiftStepIsTimesTen(a, DigitValue(b));
  }

  /** `readInt` looks only at the bytes of its range and at the buffer's
      length. */
  lemma ReadIntFrame(data: seq<byte>, other: seq<byte>, offset: int, length: int)
    requires |data| == |other|
    requires forall i :: 0 <= i < |data| && offset <= i ==> data[i] == other[i]
    ensures ReadInt(data, offset, length).Success? <==> ReadInt(other, offset, length).Success?
    ensures ReadInt(data, offset, length).Success? ==>
              ReadInt(data, offset, length) == ReadInt(other, offset, length)
  {
    ReadIntCorrect(data, offset, length);
    ReadIntCorrect(other, offset, length);
    if length > 0 && 0 <= offset && offset + length <= |data| {
      assert data[offset..offset + length] == other[offset..offset + length];
    }
  }

  /** `ByteUtils.readLong(data, offset, length)`. */
  function ReadLong(data: seq<byte>, offset: int, length: int): (r: Result<Int64>)
    ensures length <= 0 ==> r == Success(0)
    ensures length > 0 && !(0 <= offset < |data|) ==> r.Failure?
  {
    if length <= 0 then Success(0)
    else if offset < 0 || offset >= |data| then Failure(IndexOutOfBounds)
    else
      var negative := data[offset] == MINUS;
      var signed := negative || data[offset] == PLUS;
      var result :- AccumulateLong(data, if signed then offset + 1 else offset, offset + length, 0);
      Success(if negative then Wrap64(-(result as int)) else result)
  }

  lemma {:induction false} AccumulateLongCorrect(data: seq<byte>, start: nat, i: nat, end: int, acc: Int64)
    requires start <= i <= end && i <= |data|
    requires AllDigits(data[start..i]) && acc == Wrap64(Decimal(data[start..i]))
    ensures end <= |data| && AllDigits(data[i..end]) ==>
              AllDigits(data[start..end]) &&
              AccumulateLong(data, i, end, acc) == Success(Wrap64(Decimal(data[start..end])))
    ensures !(end <= |data| && AllDigits(data[i..end])) ==> AccumulateLong(data, i, end, acc).Failure?
    decreases end - i
  {
    if i < end && i < |data| && IsDigit(data[i]) {
      assert data[start..i + 1] == data[start..i] + [data[i]];
      LongDigitStepAppends(data[start..i], data[i]);
      AccumulateLongCorrect(data, start, i + 1, end, LongDigitStep(acc, data[i]));
      if end <= |data| && AllDigits(data[i..end]) {
        assert data[i + 1..end] == data[i..end][1..];
      }
      if !(end <= |data| && AllDigits(data[i..end])) && end <= |data| {
        assert data[i..end] == [data[i]] + data[i + 1..end];
      }
    } else if i < end <= |data| {
      assert data[i..end][0] == data[i];
    }
  }

  /** `readLong` decodes exactly the signed decimal value of the range, with an
      optional '+' or '-', wrapped to a Java `long`; it fails on any other byte
      and on a range that leaves the buffer. */
  lemma ReadLongCorrect(data: seq<byte>, offset: int, length: int)
    ensures length <= 0 ==> ReadLong(data, offset, length) == Success(0)
    ensures length > 0 && 0 <= offset && offset + length <= |data| ==>
              match SignedDecimal(data[offset..offset + length], true)
              case Some(v) => ReadLong(data, offset, length) == Success(Wrap64(v))
              case None => ReadLong(data, offset, length).Failure?
    ensures length > 0 && !(0 <= offset && offset + length <= |data|) ==>
              ReadLong(data, offset, length).Failure?
  {
    if length > 0 && 0 <= offset < |data| {
      var end := offset + length;
      if data[offset] == MINUS || data[offset] == PLUS {
        assert data[offset + 1..offset + 1] == [];
        AccumulateLongCorrect(data, offset + 1, offset + 1, end, 0);
        if end <= |data| {
          var s := data[offset..end];
          assert s[1..] == data[offset + 1..end];
          if AllDigits(s[1..]) && data[offset] == MINUS {
            Negate64(Decimal(s[1..]));
          }
        }
      } else {
        assert data[offset..offset] == [];
        AccumulateLongCorrect(data, offset, offset, end, 0);
      }
    }
  }

  /** Writing an `int` in signed decimal and reading it back with `readInt`
      gives it back. */
  lemma ReadIntRoundTrip(v: Int32)
    ensures ReadInt(SignedText(v), 0, |SignedText(v)|) == Success(v)
  {
    var s := SignedText(v);
    SignedTextRoundTrip(v, false);
    ReadIntCorrect(s, 0, |s|);
    assert s[0..|s|] == s;
  }

  /** Writing a `long` in signed decimal and reading it back with `readLong`
      gives it back. */
  lemma ReadLongRoundTrip(v: Int64)
    ensures ReadLong(SignedText(v), 0, |SignedText(v)|) == Success(v)
  {
    var s := SignedText(v);
    SignedTextRoundTrip(v, true);
    ReadLongCorrect(s, 0, |s|);
    assert s[0..|s|] == s;
  }

  // ------------------------------------------------------------ readBoolean

  predicate IsTrueByte(b: byte) {
    b == 'Y' as int || b == 'y' as int || b == '1' as int
  }

  predicate IsFalseByte(b: byte) {
    b == 'N' as int || b == 'n' as int || b == '0' as int
  }

  /** `ByteUtils.readBoolean(data, offset)`: only `data[offset]` is looked at. */
  function ReadBoolean(data: seq<byte>, offset: int): (r: Result<bool>)
    ensures r.Success? <==> 0 <= offset < |data| && (IsTrueByte(data[offset]) || IsFalseByte(data[offset]))
    ensures r.Success? ==> (r.value <==> IsTrueByte(data[offset]))
  {
    if offset < 0 || offset >= |data| then Failure(IndexOutOfBounds)
    else if IsTrueByte(data[offset]) then Success(true)
    else if IsFalseByte(data[offset]) then Success(false)
    else Failure(NotABoolean)
  }

  /** The canonical FIX spelling of a boolean: 'Y' or 'N'. */
  function BooleanByte(v: bool): byte {
    if v then 'Y' as int else 'N' as int
  }

  /** Decoding a written boolean gives it back, whatever surrounds it. */
  lemma ReadBooleanRoundTrip(data: seq<byte>, offset: int, v: bool)
    requires 0 <= offset < |data| && data[offset] == BooleanByte(v)
    ensures ReadBoolean(data, offset) == Success(v)
  {
  }

  // -------------------------------------------------------------- readBytes

  /** The destination buffer after a copy, and the count `readBytes` returns. */
  datatype Copy = Copy(dest: seq<byte>, copied: int)

  /** `ByteUtils.readBytes(src, offset, length, dest)`: the destination check
      comes first; `System.arraycopy` then rejects a negative offset or length
      and a range that leaves `src`. */
  function ReadBytes(src: seq<byte>, offset: int, length: int, dest: seq<byte>): (r: Result<Copy>)
    ensures length > |dest| ==> r == Failure(DestinationTooSmall)
    ensures r.Success? <==> length <= |dest| && 0 <= offset && 0 <= length && offset + length <= |src|
    ensures r.Success? ==>
              && r.value.copied == length
              && |r.value.dest| == |dest|
              && r.value.dest[..length] == src[offset..offset + length]
              && r.value.dest[length..] == dest[length..]
  {
    if length > |dest| then Failure(DestinationTooSmall)
    else if offset < 0 || length < 0 || offset + length > |src| then Failure(IndexOutOfBounds)
    else Success(Copy(src[offset..offset + length] + dest[length..], length))
  }
}
