/** `ChecksumValidator.validate`: the value of tag 10 must equal the sum of
    the bytes that precede the checksum field, modulo 256. Every exception the
    Java code catches becomes the answer `false`. */
module ChecksumValidator {
  import opened Ascii
  import opened JavaInt
  import opened Results
  import ByteUtils
  import opened FixParser
  import Wire

  const CHECKSUM_TAG: Int32 := 10

  /** The longest buffer whose byte sum always fits a Java `int`
      (255 * 8_421_504 < 2^31). */
  const MAX_UNWRAPPED_LENGTH: nat := 8_421_504

  /** The sum of the unsigned values of the bytes of `s`. */
  function Sum(s: seq<byte>): nat {
    if |s| == 0 then 0 else Sum(s[..|s| - 1]) + s[|s| - 1]
  }

  lemma SumBound(s: seq<byte>)
    ensures Sum(s) <= 255 * |s|
  {
  }

  /** Adding a byte to a wrapped sum and wrapping again is wrapping the
      exact sum. */
  lemma WrapAdd(a: int, b: int)
    ensures Wrap32(Wrap32(a) + b) == Wrap32(a + b)
  {
    var q := (a + TWO_31) / TWO_32;
    Wrap32Quotient(a);
    Wrap32Periodic(a + b, -q);
  }

  /** The summing loop over the first `n` bytes, with its accumulator held in
      a Java `int`: the exact sum, wrapped to 32 bits. */
  function JavaSum(data: seq<byte>, n: nat): (r: Int32)
    requires n <= |data|
    ensures r == Wrap32(Sum(data[..n]))
    ensures |data| <= MAX_UNWRAPPED_LENGTH ==> r == Sum(data[..n])
  {
    if n == 0 then 0
    else
      assert data[..n][..n - 1] == data[..n - 1];
      SumBound(data[..n]);
      WrapAdd(Sum(data[..n - 1]), data[n - 1]);
      Wrap32(JavaSum(data, n - 1) + data[n - 1])
  }

  /** The backward scan of `validate` from index `i` for the delimiter that
      precedes the checksum field: it stops at the nearest SOH at or below
      `i`, or below index 0. Reading an index past the end of the buffer
      throws. */
  function BackScan(data: seq<byte>, i: int): (r: Result<int>)
    ensures r.Failure? <==> i >= |data|
    ensures r.Failure? ==> r.error == IndexOutOfBounds
    ensures r.Success? ==> r.value <= i
    ensures r.Success? && r.value >= 0 ==> data[r.value] == SOH
    ensures r.Success? && r.value < 0 ==> r.value == i || r.value == -1
    ensures r.Success? ==> forall k :: r.value < k <= i ==> data[k] != SOH
    decreases if i < 0 then 0 else i + 1
  {
    if i < 0 then Success(i)
    else if i >= |data| then Failure(IndexOutOfBounds)
    else if data[i] == SOH then Success(i)
    else BackScan(data, i - 1)
  }

  /** `validate(data, parser)`, with the parser's recorded fields standing in
      for `fieldDoesNotExists(10)` and `getOffset(10)`. */
  function Validate(p: Parser, data: seq<byte>): (valid: bool)
    ensures !FieldExists(p, CHECKSUM_TAG) ==> !valid
    ensures valid ==> GetInt(p, data, CHECKSUM_TAG).Success?
    ensures valid ==> p.fields[CHECKSUM_TAG].offset <= |data|
  {
    if !FieldExists(p, CHECKSUM_TAG) then false
    else
      match GetInt(p, data, CHECKSUM_TAG)
      case Failure(_) => false
      case Success(declared) =>
        match BackScan(data, p.fields[CHECKSUM_TAG].offset - 1)
        case Failure(_) => false
        case Success(sumEnd) =>
          var n := if sumEnd < 0 then 0 else sumEnd + 1;
          Rem256(JavaSum(data, n)) == declared as int
  }

  /** The checksum field's tag starts at index `k`, for a value at
      `valueOffset`: `k` is the start of the buffer or follows an SOH, and no
      SOH lies from `k` up to the byte just before the value. */
  predicate TagStartsAt(data: seq<byte>, valueOffset: int, k: nat) {
    && k < valueOffset <= |data|
    && (k == 0 || data[k - 1] == SOH)
    && forall j :: k <= j < valueOffset ==> data[j] != SOH
  }

  /** The backward scan from the byte before the value finds the delimiter in
      front of the tag. */
  lemma BackScanFindsTagStart(data: seq<byte>, valueOffset: int, k: nat)
    requires TagStartsAt(data, valueOffset, k)
    ensures BackScan(data, valueOffset - 1) == Success(k - 1)
  {
  }

  /** Reference meaning of `validate` for a message whose byte sum fits an
      `int`: it holds exactly when tag 10 reads as the sum, modulo 256, of the
      bytes before the checksum field's tag. */
  lemma ValidateMeaning(p: Parser, data: seq<byte>, k: nat)
    requires CHECKSUM_TAG in p.fields
    requires TagStartsAt(data, p.fields[CHECKSUM_TAG].offset, k)
    requires |data| <= MAX_UNWRAPPED_LENGTH
    ensures Validate(p, data) <==> GetInt(p, data, CHECKSUM_TAG) == Success(Sum(data[..k]) % 256)
  {
    BackScanFindsTagStart(data, p.fields[CHECKSUM_TAG].offset, k);
  }

  /** A checksum field whose value starts past the end of the buffer (the
      empty value of a final token without '=') makes the scan read outside
      the buffer, so the message is rejected. */
  lemma ValueBeyondEndRejected(p: Parser, data: seq<byte>)
    requires CHECKSUM_TAG in p.fields && p.fields[CHECKSUM_TAG].offset > |data|
    ensures !Validate(p, data)
  {
  }

  /** A declared checksum outside 0..255 never matches a sum that fits an
      `int`. */
  lemma DeclaredOutOfRangeRejected(p: Parser, data: seq<byte>)
    requires |data| <= MAX_UNWRAPPED_LENGTH
    requires match GetInt(p, data, CHECKSUM_TAG)
             case Success(d) => d < 0 || d >= 256
             case Failure(_) => true
    ensures !Validate(p, data)
  {
  }

  /** Changing one byte changes the sum by the difference of the two bytes. */
  lemma {:induction false} SumChange(s: seq<byte>, t: seq<byte>, j: nat)
    requires |s| == |t| && j < |s|
    requires forall i :: 0 <= i < |s| && i != j ==> s[i] == t[i]
    ensures Sum(t) - Sum(s) == t[j] as int - s[j] as int
    decreases |s|
  {
    var n := |s|;
    if j < n - 1 {
      SumChange(s[..n - 1], t[..n - 1], j);
    } else {
      assert s[..n - 1] == t[..n - 1];
    }
  }

  /** With the same recorded locations, a single changed byte in front of the
      delimiter that precedes the checksum field cannot leave both versions
      valid: the sum moves by less than 256 while the declared value stays. */
  lemma SingleByteChangeDetected(p: Parser, data: seq<byte>, other: seq<byte>, j: nat, k: nat)
    requires CHECKSUM_TAG in p.fields
    requires TagStartsAt(data, p.fields[CHECKSUM_TAG].offset, k)
    requires |data| == |other| <= MAX_UNWRAPPED_LENGTH
    requires j + 1 < k && data[j] != other[j]
    requires forall i :: 0 <= i < |data| && i != j ==> data[i] == other[i]
    ensures !(Validate(p, data) && Validate(p, other))
  {
    var f := p.fields[CHECKSUM_TAG];
    assert TagStartsAt(other, f.offset, k);
    if Validate(p, data) && Validate(p, other) {
      ValidateMeaning(p, data, k);
      ValidateMeaning(p, other, k);
      ByteUtils.ReadIntFrame(data, other, f.offset, f.length);
      assert GetInt(p, data, CHECKSUM_TAG) == GetInt(p, other, CHECKSUM_TAG);
      SumChange(data[..k], other[..k], j);
      DistinctResidues(Sum(data[..k]), Sum(other[..k]));
    }
  }

  /** Two non-negative sums less than 256 apart, and different, differ
      modulo 256. */
  lemma DistinctResidues(a: nat, b: nat)
    requires a != b && -256 < b - a < 256
    ensures a % 256 != b % 256
  {
  }

  /** The three-digit notation of a checksum, `000` to `255`. */
  function ThreeDigits(n: nat): (s: seq<byte>)
    requires n < 1000
    ensures |s| == 3 && AllDigits(s) && Decimal(s) == n
  {
    var s := [DigitByte(n / 100), DigitByte(n / 10 % 10), DigitByte(n % 10)];
    assert s[..2][..1] == s[..1] && s[..1][..0] == [];
    assert Decimal(s[..1]) == n / 100;
    assert Decimal(s[..2]) == 10 * (n / 100) + n / 10 % 10;
    assert n / 10 == 10 * (n / 100) + n / 10 % 10;
    s
  }

  /** The tag of a field written after a message starts right after the
      message's last delimiter. */
  lemma AppendedTagStart(body: seq<byte>, f: Wire.Field)
    requires Wire.Writable(f)
    requires |body| == 0 || body[|body| - 1] == SOH
    ensures TagStartsAt(body + Wire.EncodeField(f), |body| + |Wire.TagText(f)| + 1, |body|)
  {
    var msg := body + Wire.EncodeField(f);
    var tt := Wire.TagText(f);
    DigitsAreNotSeparators(tt);
    assert forall j :: |body| <= j < |body| + |tt| ==> msg[j] == tt[j - |body|];
    assert msg[|body| + |tt|] == EQUALS;
    if |body| > 0 {
      assert msg[|body| - 1] == body[|body| - 1];
    }
  }

  /** The three digits of a checksum field written after `body` read back
      as the number they spell. */
  lemma TrailerReadsBack(body: seq<byte>, trailer: Wire.Field, n: nat)
    requires trailer.tag == CHECKSUM_TAG && Wire.Writable(trailer)
    requires n < 1000 && trailer.value == ThreeDigits(n)
    ensures ByteUtils.ReadInt(body + Wire.EncodeField(trailer), |body| + 3, 3) == Success(n)
  {
    var msg := body + Wire.EncodeField(trailer);
    var tt := Wire.TagText(trailer);
    assert |tt| == 2;
    var enc := Wire.EncodeField(trailer);
    assert enc == tt + [EQUALS] + trailer.value + [SOH];
    assert enc[3..6] == trailer.value;
    assert msg[|body|..] == enc;
    assert msg[|body| + 3..|body| + 6] == msg[|body|..][3..6];
    DigitsAreNotSeparators(trailer.value);
    assert ByteUtils.SignedDecimal(trailer.value, false) == Some(n);
    ByteUtils.ReadIntCorrect(msg, |body| + 3, 3);
    assert Wrap32(n) == n;
  }

  /** A buffer made of `body` and a checksum field carrying the sum of
      `body`, modulo 256, passes validation when the parser records that
      field's value in place. */
  lemma TrailerValidates(parser: Parser, body: seq<byte>, trailer: Wire.Field)
    requires trailer.tag == CHECKSUM_TAG && Wire.Writable(trailer)
    requires trailer.value == ThreeDigits(Sum(body) % 256)
    requires |body| == 0 || body[|body| - 1] == SOH
    requires |body| + 8 <= MAX_UNWRAPPED_LENGTH
    requires CHECKSUM_TAG in parser.fields && parser.fields[CHECKSUM_TAG] == FixField(|body| + 3, 3)
    ensures Validate(parser, body + Wire.EncodeField(trailer))
  {
    var msg := body + Wire.EncodeField(trailer);
    assert |Wire.TagText(trailer)| == 2;
    AppendedTagStart(body, trailer);
    TrailerReadsBack(body, trailer, Sum(body) % 256);
    assert msg[..|body|] == body;
    ValidateMeaning(parser, msg, |body|);
  }

  /** A message written with a trailing `10=` field that carries the sum of
      the bytes before it, modulo 256, in three digits passes validation after
      parsing. */
  lemma EncodedWithChecksumIsValid(p: Parser, fs: seq<Wire.Field>)
    requires Wire.AllWritable(fs)
    requires |Wire.Encode(fs)| + 8 <= MAX_UNWRAPPED_LENGTH
    ensures var trailer := Wire.Field(CHECKSUM_TAG, ThreeDigits(Sum(Wire.Encode(fs)) % 256));
            Wire.AllWritable(fs + [trailer])
            && var msg := Wire.Encode(fs + [trailer]);
               Validate(Parse(p, msg).parser, msg)
  {
    var body := Wire.Encode(fs);
    var trailer := Wire.Field(CHECKSUM_TAG, ThreeDigits(Sum(body) % 256));
    DigitsAreNotSeparators(trailer.value);
    Wire.EncodeAppend(fs, trailer);
    assert |Wire.TagText(trailer)| == 2;
    Wire.LastFieldParsed(p, fs, trailer);
    if |fs| > 0 {
      Wire.EncodeEndsWithDelimiter(fs);
    }
    TrailerValidates(Parse(p, Wire.Encode(fs + [trailer])).parser, body, trailer);
  }
}
