/** `FixParser`: one left-to-right scan that records, for every tag, where its
    value lies in the buffer, and typed getters that decode a recorded value on
    demand. The parser's `HashMap` is a Dafny `map`. */
module FixParser {
  import opened Ascii
  import opened JavaInt
  import opened Results
  import ByteUtils

  /** Where a tag's value lies: `data[offset .. offset + length]`. */
  datatype FixField = FixField(offset: int, length: int)

  /** The parser instance: the fields recorded by the last `parse`. */
  datatype Parser = Parser(fields: map<Int32, FixField>)

  /** What `parse` leaves behind: the parser state, and the count it returns
      or the exception it throws. */
  datatype ParseOutcome = ParseOutcome(parser: Parser, count: Result<int>)

  /** `new FixParser()`. */
  function NewParser(): (p: Parser)
    ensures forall tag: Int32 :: !FieldExists(p, tag)
  {
    Parser(map[])
  }

  /** The index of the first `b` at or after `i`, or `i` itself once past the
      end: `while (i < data.length && data[i] != b) i++`. */
  function SkipTo(data: seq<byte>, i: nat, b: byte): (j: nat)
    ensures i <= j
    ensures i >= |data| ==> j == i
    ensures i <= |data| ==> j <= |data|
    ensures forall k :: i <= k < j ==> k < |data| && data[k] != b
    ensures j < |data| ==> data[j] == b
    decreases |data| - i
  {
    if i >= |data| || data[i] == b then i else SkipTo(data, i + 1, b)
  }

  /** A recorded value location: it starts right after an '=', holds no
      delimiter and ends at a delimiter or at the end of the buffer. The one
      exception is a last token with no '=' at all, whose empty value is
      recorded one past the end of the buffer. */
  predicate WellPlaced(data: seq<byte>, f: FixField) {
    || (&& 1 <= f.offset && 0 <= f.length && f.offset + f.length <= |data|
        && data[f.offset - 1] == EQUALS
        && (forall k :: f.offset <= k < f.offset + f.length ==> data[k] != SOH)
        && (f.offset + f.length == |data| || data[f.offset + f.length] == SOH))
    || (f.offset == |data| + 1 && f.length == 0)
  }

  /** Every recorded location is well placed. */
  predicate AllWellPlaced(data: seq<byte>, fields: map<Int32, FixField>) {
    forall t :: t in fields ==> WellPlaced(data, fields[t])
  }

  /** One `tag=value` token read by the scan: the tag, its value's location,
      and where the scan resumes. */
  datatype Token = Token(tag: Int32, field: FixField, next: nat)

  /** One pass of the scan loop body from position `i`: find the '=', decode
      the tag text with `readInt`, find the delimiter ending the value, and
      step past it. */
  function NextToken(data: seq<byte>, i: nat): (r: Result<Token>)
    requires i < |data|
    ensures r.Success? ==> WellPlaced(data, r.value.field) && r.value.next > i
  {
    var equals := SkipTo(data, i, EQUALS);
    var tag :- ByteUtils.ReadInt(data, i, equals - i);
    var valueStart := equals + 1;
    var delimiter := SkipTo(data, valueStart, SOH);
    Success(Token(tag, FixField(valueStart, delimiter - valueStart), delimiter + 1))
  }

  /** The tag a pass records is `readInt` of the text before the '=': a text
      that is not a signed decimal without '+' fails, and an empty text (a
      token that starts with '=') is read as tag 0. */
  lemma NextTokenTag(data: seq<byte>, i: nat)
    requires i < |data|
    ensures var e := SkipTo(data, i, EQUALS);
            match ByteUtils.SignedDecimal(data[i..e], false)
            case Some(v) => NextToken(data, i).Success? && NextToken(data, i).value.tag == Wrap32(v)
            case None => NextToken(data, i).Failure?
  {
    var e := SkipTo(data, i, EQUALS);
    ByteUtils.ReadIntCorrect(data, i, e - i);
    if e == i {
      assert data[i..e] == [];
    }
  }

  /** The scan loop of `parse` from position `i`, with `fields` recorded so
      far. A tag that `readInt` rejects ends the scan with its error, leaving
      the fields recorded before it in place. */
  function Scan(data: seq<byte>, i: nat, fields: map<Int32, FixField>): (r: ParseOutcome)
    requires AllWellPlaced(data, fields)
    ensures AllWellPlaced(data, r.parser.fields)
    ensures fields.Keys <= r.parser.fields.Keys
    ensures r.count.Success? ==> r.count.value == |r.parser.fields|
    decreases |data| - i
  {
    if i >= |data| then ParseOutcome(Parser(fields), Success(|fields|))
    else
      match NextToken(data, i)
      case Failure(e) => ParseOutcome(Parser(fields), Failure(e))
      case Success(token) => Scan(data, token.next, fields[token.tag := token.field])
  }

  /** A token read at `i` is recorded and the scan resumes after it. */
  lemma ScanOverToken(data: seq<byte>, i: nat, fields: map<Int32, FixField>, token: Token)
    requires AllWellPlaced(data, fields) && i < |data|
    requires NextToken(data, i) == Success(token)
    ensures AllWellPlaced(data, fields[token.tag := token.field])
    ensures Scan(data, i, fields) == Scan(data, token.next, fields[token.tag := token.field])
  {
  }

  /** `parse(data)`: the previous message's fields are dropped first; the
      result is the number of distinct tags recorded. */
  function Parse(p: Parser, data: seq<byte>): (r: ParseOutcome)
    ensures AllWellPlaced(data, r.parser.fields)
    ensures r.count.Success? ==> r.count.value == |r.parser.fields|
    ensures |data| == 0 ==> r == ParseOutcome(Parser(map[]), Success(0))
  {
    Scan(data, 0, map[])
  }

  /** The state `parse` leaves depends on the buffer alone, so parsing the same
      buffer again changes nothing. */
  lemma ParseIsIdempotent(p: Parser, q: Parser, data: seq<byte>)
    ensures Parse(p, data) == Parse(q, data)
    ensures Parse(Parse(p, data).parser, data) == Parse(p, data)
  {
  }

  /** `fieldExists(tag)`. */
  predicate FieldExists(p: Parser, tag: Int32) {
    tag in p.fields
  }

  /** `checkFieldExists(tag)` followed by `getField(tag)`. */
  function CheckFieldExists(p: Parser, tag: Int32): (r: Result<FixField>)
    ensures r.Success? <==> FieldExists(p, tag)
    ensures r.Failure? ==> r.error == TagNotFound
    ensures r.Success? ==> r.value == p.fields[tag]
  {
    if tag in p.fields then Success(p.fields[tag]) else Failure(TagNotFound)
  }

  /** `getInt(data, tag)`. */
  function GetInt(p: Parser, data: seq<byte>, tag: Int32): (r: Result<Int32>)
    ensures !FieldExists(p, tag) ==> r == Failure(TagNotFound)
  {
    var f :- CheckFieldExists(p, tag);
    ByteUtils.ReadInt(data, f.offset, f.length)
  }

  /** `getLong(data, tag)`. */
  function GetLong(p: Parser, data: seq<byte>, tag: Int32): (r: Result<Int64>)
    ensures !FieldExists(p, tag) ==> r == Failure(TagNotFound)
  {
    var f :- CheckFieldExists(p, tag);
    ByteUtils.ReadLong(data, f.offset, f.length)
  }

  /** `getBoolean(data, tag)`: only the first byte of the value is read. */
  function GetBoolean(p: Parser, data: seq<byte>, tag: Int32): (r: Result<bool>)
    ensures !FieldExists(p, tag) ==> r == Failure(TagNotFound)
  {
    var f :- CheckFieldExists(p, tag);
    ByteUtils.ReadBoolean(data, f.offset)
  }

  /** `getBytes(data, tag)`: a fresh array of exactly `length` bytes holding a
      copy of the value. */
  function GetBytes(p: Parser, data: seq<byte>, tag: Int32): (r: Result<seq<byte>>)
    ensures !FieldExists(p, tag) ==> r == Failure(TagNotFound)
    ensures r.Success? ==> var f := p.fields[tag];
              0 <= f.offset && 0 <= f.length && f.offset + f.length <= |data|
              && r.value == data[f.offset..f.offset + f.length]
  {
    var f :- CheckFieldExists(p, tag);
    if f.length < 0 then Failure(NegativeArraySize)
    else
      var values := seq(f.length, _ => 0);
      var copy :- ByteUtils.ReadBytes(data, f.offset, f.length, values);
      Success(copy.dest)
  }

  /** A recorded location inside the buffer. */
  predicate InBuffer(data: seq<byte>, f: FixField) {
    0 <= f.offset && 0 <= f.length && f.offset + f.length <= |data|
  }

  /** `getBytes` succeeds on every recorded location inside the buffer, with
      exactly the bytes there. */
  lemma GetBytesReadsLocation(p: Parser, data: seq<byte>, tag: Int32)
    requires tag in p.fields && InBuffer(data, p.fields[tag])
    ensures var f := p.fields[tag];
            GetBytes(p, data, tag) == Success(data[f.offset..f.offset + f.length])
  {
    var f := p.fields[tag];
    var copy := ByteUtils.ReadBytes(data, f.offset, f.length, seq(f.length, _ => 0)).value;
    assert copy.dest == copy.dest[..f.length];
  }

  /** `getInt` on a recorded location inside the buffer reads the text there
      as a signed decimal without '+', leading zeros allowed, wrapped to an
      `int`; any other text fails. */
  lemma GetIntReadsDecimal(p: Parser, data: seq<byte>, tag: Int32)
    requires tag in p.fields && InBuffer(data, p.fields[tag])
    ensures var f := p.fields[tag];
            match ByteUtils.SignedDecimal(data[f.offset..f.offset + f.length], false)
            case Some(v) => GetInt(p, data, tag) == Success(Wrap32(v))
            case None => GetInt(p, data, tag).Failure?
  {
    var f := p.fields[tag];
    ByteUtils.ReadIntCorrect(data, f.offset, f.length);
    if f.length == 0 {
      assert data[f.offset..f.offset + f.length] == [];
    }
  }

  /** `getLong` on a recorded location inside the buffer reads the text there
      as a signed decimal with an optional '+' or '-', wrapped to a `long`;
      any other text fails. */
  lemma GetLongReadsDecimal(p: Parser, data: seq<byte>, tag: Int32)
    requires tag in p.fields && InBuffer(data, p.fields[tag])
    ensures var f := p.fields[tag];
            match ByteUtils.SignedDecimal(data[f.offset..f.offset + f.length], true)
            case Some(v) => GetLong(p, data, tag) == Success(Wrap64(v))
            case None => GetLong(p, data, tag).Failure?
  {
    var f := p.fields[tag];
    ByteUtils.ReadLongCorrect(data, f.offset, f.length);
    if f.length == 0 {
      assert data[f.offset..f.offset + f.length] == [];
    }
  }

  /** `getInt` on a recorded location holding the signed decimal notation of
      an `int` gives that `int`. */
  lemma GetIntReadsLocation(p: Parser, data: seq<byte>, tag: Int32, v: Int32)
    requires tag in p.fields && InBuffer(data, p.fields[tag])
    requires var f := p.fields[tag]; data[f.offset..f.offset + f.length] == ByteUtils.SignedText(v)
    ensures GetInt(p, data, tag) == Success(v)
  {
    ByteUtils.SignedTextRoundTrip(v, false);
    GetIntReadsDecimal(p, data, tag);
  }

  /** `getBoolean` on a recorded tag is decided by the first byte of its value
      alone: 'Y', 'y' and '1' read as true, 'N', 'n' and '0' as false, and any
      other byte, or an offset outside the buffer, fails. */
  lemma GetBooleanReadsLocation(p: Parser, data: seq<byte>, tag: Int32)
    requires tag in p.fields
    ensures var o, r := p.fields[tag].offset, GetBoolean(p, data, tag);
            && (r.Success? <==> 0 <= o < |data| && (ByteUtils.IsTrueByte(data[o]) || ByteUtils.IsFalseByte(data[o])))
            && (r.Success? ==> (r.value <==> ByteUtils.IsTrueByte(data[o])))
  {
  }

  /** `getLong` on a recorded location holding the signed decimal notation of
      a `long` gives that `long`. */
  lemma GetLongReadsLocation(p: Parser, data: seq<byte>, tag: Int32, v: Int64)
    requires tag in p.fields && InBuffer(data, p.fields[tag])
    requires var f := p.fields[tag]; data[f.offset..f.offset + f.length] == ByteUtils.SignedText(v)
    ensures GetLong(p, data, tag) == Success(v)
  {
    ByteUtils.SignedTextRoundTrip(v, true);
    GetLongReadsDecimal(p, data, tag);
  }
}
