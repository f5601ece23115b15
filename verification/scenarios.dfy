/** Concrete cases from the repository's unit tests, stated about the model. */
module Scenarios {
  import opened Ascii
  import opened JavaInt
  import opened Results
  import opened ByteUtils
  import opened FixParser
  import FieldLocations
  import Wire

  /** `readInt` of an empty range reads nothing and gives 0. */
  lemma ReadIntEmptyExample()
    ensures ReadInt([0, 0, 0], 3, 0) == Success(0)
  {
  }

  lemma ReadIntPositiveExample()
    ensures ReadInt(Bytes("34=1092;"), 3, 4) == Success(1092)
  {
    var data := Bytes("34=1092;");
    assert data[3..7] == [DigitByte(1), DigitByte(0), DigitByte(9), DigitByte(2)];
    assert data[3..7] == DecimalText(1092);
    DecimalTextRoundTrip(1092);
    ReadIntCorrect(data, 3, 4);
  }

  lemma ReadIntZeroExample()
    ensures ReadInt(Bytes("34=0;"), 3, 1) == Success(0)
  {
    var data := Bytes("34=0;");
    assert data[3..4] == DecimalText(0);
    ReadIntCorrect(data, 3, 1);
  }

  lemma ReadIntNegativeExample()
    ensures ReadInt(Bytes("-50"), 0, 3) == Success(-50)
  {
    var data := Bytes("-50");
    assert data[1..3] == [DigitByte(5), DigitByte(0)];
    assert data[1..3] == DecimalText(50);
    DecimalTextRoundTrip(50);
    ReadIntCorrect(data, 0, 3);
    assert data[0..3][1..] == data[1..3];
  }

  lemma ReadIntRejectsLettersExample()
    ensures ReadInt(Bytes("34=ABC;"), 3, 3) == Failure(MalformedNumber)
  {
  }

  /** The long test values, written in decimal, read back; `Long.MAX_VALUE`
      does not wrap. */
  lemma ReadLongExamples()
    ensures ReadLong(SignedText(1234567890123), 0, |SignedText(1234567890123)|) == Success(1234567890123)
    ensures ReadLong(SignedText(LONG_MAX), 0, |SignedText(LONG_MAX)|) == Success(LONG_MAX)
    ensures ReadLong(SignedText(-9876543210), 0, |SignedText(-9876543210)|) == Success(-9876543210)
  {
    ReadLongRoundTrip(1234567890123);
    ReadLongRoundTrip(LONG_MAX);
    ReadLongRoundTrip(-9876543210);
  }

  lemma ReadLongRejectsLettersExample()
    ensures ReadLong(Bytes("123ABC"), 0, 6) == Failure(MalformedNumber)
  {
  }

  /** `readBoolean` on the six accepted spellings and on 'B'. */
  lemma ReadBooleanExamples()
    ensures ReadBoolean(Bytes("44=Y;"), 3) == Success(true)
    ensures ReadBoolean(Bytes("44=y;"), 3) == Success(true)
    ensures ReadBoolean(Bytes("44=1;"), 3) == Success(true)
    ensures ReadBoolean(Bytes("44=N;"), 3) == Success(false)
    ensures ReadBoolean(Bytes("44=n;"), 3) == Success(false)
    ensures ReadBoolean(Bytes("44=0;"), 3) == Success(false)
    ensures ReadBoolean(Bytes("44=B;"), 3) == Failure(NotABoolean)
  {
  }

  /** `readBytes` on the test inputs. A length beyond the end of the source
      fails, as `System.arraycopy` does, where the unit test expects a
      clamped copy of the available bytes. */
  lemma ReadBytesExamples()
    ensures ReadBytes(Bytes("SenderID"), 0, 8, [0, 0, 0, 0, 0, 0, 0, 0])
            == Success(Copy(Bytes("SenderID"), 8))
    ensures ReadBytes(Bytes("SenderID"), 0, 4, [0, 0, 0, 0]) == Success(Copy(Bytes("Send"), 4))
    ensures ReadBytes(Bytes("SenderID"), 0, 0, [0, 0, 0, 0]) == Success(Copy([0, 0, 0, 0], 0))
    ensures ReadBytes(Bytes("ID"), 0, 4, [0, 0, 0, 0]) == Failure(IndexOutOfBounds)
    ensures ReadBytes(Bytes("SenderID"), 0, 8, [0, 0, 0]) == Failure(DestinationTooSmall)
  {
    assert Bytes("SenderID")[0..8] + [] == Bytes("SenderID");
    assert Bytes("SenderID")[0..4] + [0, 0, 0, 0][4..] == Bytes("Send");
  }

  /** The message "9=148|35=D|", with SOH written as '|'. */
  function TwoFields(): seq<byte> {
    Bytes("9=148\U{1}35=D\U{1}")
  }

  lemma TwoFieldsFirstToken()
    ensures NextToken(TwoFields(), 0) == Success(Token(9, FixField(2, 3), 6))
  {
    var data := TwoFields();
    assert SkipTo(data, 0, EQUALS) == 1;
    assert data[0..1] == DecimalText(9);
    ReadIntCorrect(data, 0, 1);
    assert SkipTo(data, 2, SOH) == 5;
  }

  lemma TwoFieldsSecondToken()
    ensures NextToken(TwoFields(), 6) == Success(Token(35, FixField(9, 1), 11))
  {
    var data := TwoFields();
    assert SkipTo(data, 6, EQUALS) == 8;
    assert data[6..8] == DecimalText(35);
    DecimalTextRoundTrip(35);
    ReadIntCorrect(data, 6, 2);
    assert SkipTo(data, 9, SOH) == 10;
  }

  /** Parsing "9=148|35=D|" records both values and counts two fields. */
  lemma ParseExample(p: Parser)
    ensures Parse(p, TwoFields()) == ParseOutcome(Parser(map[9 := FixField(2, 3), 35 := FixField(9, 1)]), Success(2))
  {
    var data := TwoFields();
    TwoFieldsFirstToken();
    TwoFieldsSecondToken();
    ScanOverToken(data, 0, map[], Token(9, FixField(2, 3), 6));
    ScanOverToken(data, 6, map[9 := FixField(2, 3)], Token(35, FixField(9, 1), 11));
    TwoFieldsCount();
  }

  /** The two recorded fields are two distinct tags. */
  lemma TwoFieldsCount()
    ensures map[9 := FixField(2, 3)][35 := FixField(9, 1)] == map[9 := FixField(2, 3), 35 := FixField(9, 1)]
    ensures |map[9 := FixField(2, 3), 35 := FixField(9, 1)]| == 2
  {
    var both := map[9 := FixField(2, 3), 35 := FixField(9, 1)];
    assert both.Keys == {9, 35};
  }

  /** The value "148" sits at offset 2. */
  lemma TwoFieldsTagNineValue()
    ensures TwoFields()[2..5] == SignedText(148)
  {
    assert DecimalText(14) == [DigitByte(1), DigitByte(4)];
    assert DecimalText(148) == [DigitByte(1), DigitByte(4), DigitByte(8)];
  }

  /** `getInt` reads tag 9 of "9=148|35=D|" as 148. */
  lemma GetIntExample(p: Parser)
    ensures GetInt(Parse(p, TwoFields()).parser, TwoFields(), 9) == Success(148)
  {
    var data := TwoFields();
    var parser := Parser(map[9 := FixField(2, 3), 35 := FixField(9, 1)]);
    TwoFieldsTagNineValue();
    GetIntReadsLocation(parser, data, 9, 148);
    ParseExample(p);
  }

  /** `getBytes` copies tag 35 of "9=148|35=D|", "D". */
  lemma GetBytesExample(p: Parser)
    ensures GetBytes(Parse(p, TwoFields()).parser, TwoFields(), 35) == Success(['D' as int])
  {
    var data := TwoFields();
    assert data[9..10] == ['D' as int];
    var parser := Parser(map[9 := FixField(2, 3), 35 := FixField(9, 1)]);
    GetBytesReadsLocation(parser, data, 35);
    ParseExample(p);
  }

  /** A tag that "9=148|35=D|" lacks is reported missing. */
  lemma MissingTagExample(p: Parser)
    ensures GetInt(Parse(p, TwoFields()).parser, TwoFields(), 8) == Failure(TagNotFound)
  {
    var parser := Parse(p, TwoFields()).parser;
    ParseExample(p);
    assert 8 !in parser.fields;
  }

  /** The message "8=A|12": a final token without '='. */
  function TrailingToken(): seq<byte> {
    Bytes("8=A\U{1}12")
  }

  lemma TrailingTokenFirst()
    ensures NextToken(TrailingToken(), 0) == Success(Token(8, FixField(2, 1), 4))
  {
    var data := TrailingToken();
    assert SkipTo(data, 0, EQUALS) == 1;
    assert data[0..1] == DecimalText(8);
    ReadIntCorrect(data, 0, 1);
    assert SkipTo(data, 2, SOH) == 3;
  }

  lemma TrailingTokenSecond()
    ensures NextToken(TrailingToken(), 4) == Success(Token(12, FixField(7, 0), 8))
  {
    var data := TrailingToken();
    assert SkipTo(data, 4, EQUALS) == 6;
    assert data[4..6] == DecimalText(12);
    DecimalTextRoundTrip(12);
    ReadIntCorrect(data, 4, 2);
    assert SkipTo(data, 7, SOH) == 7;
  }

  /** The final token "12" is read as tag 12 with an empty value one past the
      end of the buffer. */
  lemma TrailingTokenExample(p: Parser)
    ensures Parse(p, TrailingToken()).parser.fields == map[8 := FixField(2, 1), 12 := FixField(7, 0)]
  {
    var data := TrailingToken();
    TrailingTokenFirst();
    TrailingTokenSecond();
    ScanOverToken(data, 0, map[], Token(8, FixField(2, 1), 4));
    ScanOverToken(data, 4, map[8 := FixField(2, 1)], Token(12, FixField(7, 0), 8));
  }

  /** The message "8=A|X=B|": the second tag is not a number. */
  function BadTag(): seq<byte> {
    Bytes("8=A\U{1}X=B\U{1}")
  }

  /** A tag that is not a number ends the parse with an error, keeping the
      fields recorded before it. */
  lemma BadTagExample(p: Parser)
    ensures Parse(p, BadTag()) == ParseOutcome(Parser(map[8 := FixField(2, 1)]), Failure(MalformedNumber))
  {
    var data := BadTag();
    assert SkipTo(data, 0, EQUALS) == 1;
    assert data[0..1] == DecimalText(8);
    ReadIntCorrect(data, 0, 1);
    assert SkipTo(data, 2, SOH) == 3;
    assert NextToken(data, 0) == Success(Token(8, FixField(2, 1), 4));
    ScanOverToken(data, 0, map[], Token(8, FixField(2, 1), 4));
    assert SkipTo(data, 4, EQUALS) == 5;
  }

  /** The message "=v": a token that starts with '='. */
  function EmptyTag(): seq<byte> {
    Bytes("=v")
  }

  /** An empty tag text reads as 0, so "=v" records its value under tag 0. */
  lemma EmptyTagExample(p: Parser)
    ensures Parse(p, EmptyTag()) == ParseOutcome(Parser(map[0 := FixField(1, 1)]), Success(1))
  {
    var data := EmptyTag();
    assert SkipTo(data, 0, EQUALS) == 0;
    assert SkipTo(data, 1, SOH) == 2;
    assert NextToken(data, 0) == Success(Token(0, FixField(1, 1), 3));
    ScanOverToken(data, 0, map[], Token(0, FixField(1, 1), 3));
    assert map[][0 := FixField(1, 1)] == map[0 := FixField(1, 1)];
  }

  /** The message "8=A": its last field has no delimiter. */
  function NoTrailingDelimiter(): seq<byte> {
    Bytes("8=A")
  }

  /** A last field without a delimiter is still recorded, its value running
      to the end of the buffer. */
  lemma NoTrailingDelimiterExample(p: Parser)
    ensures Parse(p, NoTrailingDelimiter()) == ParseOutcome(Parser(map[8 := FixField(2, 1)]), Success(1))
  {
    var data := NoTrailingDelimiter();
    assert SkipTo(data, 0, EQUALS) == 1;
    assert data[0..1] == DecimalText(8);
    DecimalTextRoundTrip(8);
    ReadIntCorrect(data, 0, 1);
    assert SkipTo(data, 2, SOH) == 3;
    assert NextToken(data, 0) == Success(Token(8, FixField(2, 1), 4));
    ScanOverToken(data, 0, map[], Token(8, FixField(2, 1), 4));
    assert map[][8 := FixField(2, 1)] == map[8 := FixField(2, 1)];
  }

  /** `getInt` reads a value with a leading zero, "092", as 92. */
  lemma LeadingZeroExample()
    ensures GetInt(Parser(map[10 := FixField(3, 3)]), Bytes("10=092"), 10) == Success(92)
  {
    var data := Bytes("10=092");
    var parser := Parser(map[10 := FixField(3, 3)]);
    var v := data[3..6];
    assert v == [DigitByte(0), DigitByte(9), DigitByte(2)];
    assert v[..1] == [DigitByte(0)] && v[..2] == [DigitByte(0), DigitByte(9)];
    assert Decimal(v[..1]) == 0;
    assert Decimal(v[..2]) == 9;
    assert Decimal(v) == 92;
    GetIntReadsDecimal(parser, data, 10);
  }

  /** The table tests: an entry is inserted, overwritten and looked up; a
      tag never put is not found. */
  method FieldLocationsUpdateExample() returns (offset: Result<int>, length: Result<int>, absent: Result<int>)
    ensures offset == Success(200) && length == Success(20)
    ensures absent == Success(FieldLocations.EMPTY_RETURN)
  {
    var m := new FieldLocations.FieldLocationsMap(10);
    var r1 := m.Put(1, 100, 10);
    var r2 := m.Put(1, 200, 20);
    var index := m.GetIndex(1);
    offset := m.GetOffset(index.value);
    length := m.GetLength(index.value);
    absent := m.GetIndex(99);
  }

  /** The table tests: a third entry does not fit a table for two, and
      `clear` empties the table. */
  method FieldLocationsCapacityExample() returns (overflow: Result<()>, size: int, found: Result<bool>)
    ensures overflow == Failure(CapacityExceeded)
    ensures size == 0 && found == Success(false)
  {
    var m := new FieldLocations.FieldLocationsMap(2);
    var r1 := m.Put(1, 100, 10);
    var r2 := m.Put(2, 200, 20);
    overflow := m.Put(3, 300, 30);
    m.Clear();
    size := m.Size();
    found := m.ContainsKey(1);
  }
}
