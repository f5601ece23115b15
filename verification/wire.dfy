/** Writing messages in the `tag=value<SOH>` wire format, and the round trip:
    scanning a written message recovers every field's value in place. */
module Wire {
  import opened Ascii
  import opened JavaInt
  import opened Results
  import ByteUtils
  import opened FixParser

  /** One field as a sender writes it. */
  datatype Field = Field(tag: Int32, value: seq<byte>)

  /** A field the wire format can carry: a non-negative tag and a value free
      of the delimiter. */
  predicate Writable(f: Field) {
    f.tag >= 0 && forall k :: 0 <= k < |f.value| ==> f.value[k] != SOH
  }

  predicate AllWritable(fs: seq<Field>) {
    forall j :: 0 <= j < |fs| ==> Writable(fs[j])
  }

  function TagText(f: Field): seq<byte>
    requires f.tag >= 0
  {
    DecimalText(f.tag as nat)
  }

  /** `tag=value<SOH>`. */
  function EncodeField(f: Field): (s: seq<byte>)
    requires f.tag >= 0
  {
    TagText(f) + [EQUALS] + f.value + [SOH]
  }

  /** The message holding the fields in order. */
  function Encode(fs: seq<Field>): seq<byte>
    requires AllWritable(fs)
  {
    if |fs| == 0 then [] else Encode(fs[..|fs| - 1]) + EncodeField(fs[|fs| - 1])
  }

  /** The tags the fields carry. */
  function Tags(fs: seq<Field>): set<Int32> {
    if |fs| == 0 then {} else Tags(fs[..|fs| - 1]) + {fs[|fs| - 1].tag}
  }

  /** The value of the last field carrying `tag`. */
  function LastValue(fs: seq<Field>, tag: Int32): seq<byte>
    requires tag in Tags(fs)
  {
    if fs[|fs| - 1].tag == tag then fs[|fs| - 1].value else LastValue(fs[..|fs| - 1], tag)
  }

  /** Where each tag's last value lies in `Encode(fs)`. */
  function Locations(fs: seq<Field>): map<Int32, FixField>
    requires AllWritable(fs)
  {
    if |fs| == 0 then map[]
    else
      var f := fs[|fs| - 1];
      Locations(fs[..|fs| - 1])[f.tag := FixField(|Encode(fs[..|fs| - 1])| + |TagText(f)| + 1, |f.value|)]
  }

  /** The message of the first `k` fields starts the message of all of them. */
  lemma {:induction false} EncodePrefix(fs: seq<Field>, k: nat)
    requires AllWritable(fs) && k <= |fs|
    ensures |Encode(fs[..k])| <= |Encode(fs)|
    ensures Encode(fs)[..|Encode(fs[..k])|] == Encode(fs[..k])
    decreases |fs|
  {
    if k < |fs| {
      var init := fs[..|fs| - 1];
      assert init[..k] == fs[..k];
      EncodePrefix(init, k);
    } else {
      assert fs[..k] == fs;
    }
  }

  /** Field `j` sits in the message right after the fields before it. */
  lemma FieldLayout(fs: seq<Field>, j: nat)
    requires AllWritable(fs) && j < |fs|
    ensures var pos := |Encode(fs[..j])|;
            && pos + |EncodeField(fs[j])| <= |Encode(fs)|
            && Encode(fs)[pos..pos + |EncodeField(fs[j])|] == EncodeField(fs[j])
            && pos + |EncodeField(fs[j])| == |Encode(fs[..j + 1])|
  {
    EncodePrefix(fs, j + 1);
    assert fs[..j + 1][..j] == fs[..j];
  }

  /** `f` is a well-placed location of value `v` that ends before `bound`. */
  predicate LocatedIn(data: seq<byte>, f: FixField, v: seq<byte>, bound: int) {
    && WellPlaced(data, f)
    && f.offset + f.length < bound
    && f.offset + f.length <= |data|
    && data[f.offset..f.offset + f.length] == v
  }

  lemma {:induction false} LocationKeys(fs: seq<Field>)
    requires AllWritable(fs)
    ensures Locations(fs).Keys == Tags(fs)
    decreases |fs|
  {
    if |fs| > 0 {
      LocationKeys(fs[..|fs| - 1]);
    }
  }

  /** The byte layout of a written field found at `pos` in `data`: the tag
      text, the '=', the value, the delimiter. */
  lemma FieldBytes(data: seq<byte>, pos: nat, f: Field)
    requires Writable(f)
    requires pos + |EncodeField(f)| <= |data| && data[pos..pos + |EncodeField(f)|] == EncodeField(f)
    ensures var tt := TagText(f);
            var valueStart := pos + |tt| + 1;
            && data[pos..pos + |tt|] == tt
            && (forall m :: pos <= m < pos + |tt| ==> data[m] != EQUALS)
            && data[valueStart - 1] == EQUALS
            && data[valueStart..valueStart + |f.value|] == f.value
            && (forall m :: valueStart <= m < valueStart + |f.value| ==> data[m] != SOH)
            && data[valueStart + |f.value|] == SOH
  {
    var enc := EncodeField(f);
    var tt := TagText(f);
    var valueStart := pos + |tt| + 1;
    assert forall m :: pos <= m < pos + |enc| ==> data[m] == enc[m - pos];
    assert forall m :: 0 <= m < |tt| ==> enc[m] == tt[m];
    assert enc[|tt|] == EQUALS;
    assert forall m :: 0 <= m < |f.value| ==> enc[|tt| + 1 + m] == f.value[m];
    assert enc[|enc| - 1] == SOH;
    DigitsAreNotSeparators(tt);
    assert data[pos..pos + |tt|] == tt;
    assert data[valueStart..valueStart + |f.value|] == f.value;
  }

  /** The last field's value lies right after its '=' and before its
      delimiter. */
  lemma LastFieldLocated(fs: seq<Field>, data: seq<byte>)
    requires AllWritable(fs) && |fs| > 0
    requires |Encode(fs)| <= |data| && data[..|Encode(fs)|] == Encode(fs)
    ensures var f := fs[|fs| - 1];
            LocatedIn(data, Locations(fs)[f.tag], f.value, |Encode(fs)|)
  {
    var init := fs[..|fs| - 1];
    var f := fs[|fs| - 1];
    EncodeLast(fs);
    SliceOfPrefix(data, Encode(init), EncodeField(f), Encode(fs));
    FieldLocatedAt(data, |Encode(init)|, f);
  }

  /** The message and the locations of `fs` extend those of all but its last
      field. */
  lemma EncodeLast(fs: seq<Field>)
    requires AllWritable(fs) && |fs| > 0
    ensures var init, f := fs[..|fs| - 1], fs[|fs| - 1];
            && Encode(fs) == Encode(init) + EncodeField(f)
            && Locations(fs)[f.tag] == FixField(|Encode(init)| + |TagText(f)| + 1, |f.value|)
  {
  }

  /** A buffer that starts with `body + enc` holds `enc` right after `body`. */
  lemma SliceOfPrefix(data: seq<byte>, body: seq<byte>, enc: seq<byte>, msg: seq<byte>)
    requires msg == body + enc && |msg| <= |data| && data[..|msg|] == msg
    ensures data[|body|..|body| + |enc|] == enc
  {
    assert data[..|msg|][|body|..|body| + |enc|] == enc;
  }

  /** A written field found at `pos` has its value located right after its
      '=' and before its delimiter. */
  lemma FieldLocatedAt(data: seq<byte>, pos: nat, f: Field)
    requires Writable(f)
    requires pos + |EncodeField(f)| <= |data| && data[pos..pos + |EncodeField(f)|] == EncodeField(f)
    ensures LocatedIn(data, FixField(pos + |TagText(f)| + 1, |f.value|), f.value, pos + |EncodeField(f)|)
  {
    FieldBytes(data, pos, f);
  }

  /** The location of a tag that `fs` carries is well placed in any buffer
      that starts with `Encode(fs)`, and holds the tag's last value. */
  lemma {:induction false} LastValueHeld(fs: seq<Field>, data: seq<byte>, t: Int32)
    requires AllWritable(fs) && t in Tags(fs)
    requires |Encode(fs)| <= |data| && data[..|Encode(fs)|] == Encode(fs)
    ensures t in Locations(fs) && LocatedIn(data, Locations(fs)[t], LastValue(fs, t), |Encode(fs)|)
    decreases |fs|
  {
    var init := fs[..|fs| - 1];
    var f := fs[|fs| - 1];
    if t == f.tag {
      LastFieldLocated(fs, data);
    } else {
      assert Encode(fs) == Encode(init) + EncodeField(f);
      assert data[..|Encode(init)|] == Encode(init) by {
        assert data[..|Encode(fs)|][..|Encode(init)|] == Encode(init);
      }
      LastValueHeld(init, data, t);
    }
  }

  /** Every location of `Locations(fs)` is well placed in any buffer that
      starts with `Encode(fs)`, and holds the tag's last value. */
  lemma LocationsHoldLastValues(fs: seq<Field>, data: seq<byte>)
    requires AllWritable(fs)
    requires |Encode(fs)| <= |data| && data[..|Encode(fs)|] == Encode(fs)
    ensures Locations(fs).Keys == Tags(fs)
    ensures forall t :: t in Locations(fs) ==> LocatedIn(data, Locations(fs)[t], LastValue(fs, t), |Encode(fs)|)
  {
    LocationKeys(fs);
    forall t | t in Locations(fs)
      ensures LocatedIn(data, Locations(fs)[t], LastValue(fs, t), |Encode(fs)|)
    {
      LastValueHeld(fs, data, t);
    }
  }

  /** The tag text of a field reads back as its tag. */
  lemma TagTextReadsBack(data: seq<byte>, pos: nat, f: Field)
    requires f.tag >= 0 && pos + |TagText(f)| <= |data| && data[pos..pos + |TagText(f)|] == TagText(f)
    ensures ByteUtils.ReadInt(data, pos, |TagText(f)|) == Success(f.tag)
  {
    var tt := TagText(f);
    DecimalTextRoundTrip(f.tag as nat);
    ByteUtils.ReadIntCorrect(data, pos, |tt|);
    assert tt[0] != MINUS;
    assert ByteUtils.SignedDecimal(tt, false) == Some(f.tag as int);
  }

  /** The scan reads a written field at `pos` as one token: its tag, its
      value's location, and the position right after its delimiter. */
  lemma TokenOfField(data: seq<byte>, pos: nat, f: Field)
    requires Writable(f)
    requires pos + |EncodeField(f)| <= |data| && data[pos..pos + |EncodeField(f)|] == EncodeField(f)
    ensures NextToken(data, pos)
            == Success(Token(f.tag, FixField(pos + |TagText(f)| + 1, |f.value|), pos + |EncodeField(f)|))
  {
    var tt := TagText(f);
    FieldBytes(data, pos, f);
    var equals := SkipTo(data, pos, EQUALS);
    assert equals == pos + |tt|;
    TagTextReadsBack(data, pos, f);
    var valueStart := equals + 1;
    var delimiter := SkipTo(data, valueStart, SOH);
    assert delimiter == valueStart + |f.value|;
  }

  /** Recording field `k` extends the locations of the fields before it. */
  lemma LocationsStep(fs: seq<Field>, k: nat)
    requires AllWritable(fs) && k < |fs|
    ensures Locations(fs[..k + 1])
            == Locations(fs[..k])[fs[k].tag := FixField(|Encode(fs[..k])| + |TagText(fs[k])| + 1, |fs[k].value|)]
  {
    assert fs[..k + 1][..k] == fs[..k];
  }

  /** The scan steps over a written field at `pos`, recording where its
      value lies, and resumes at `next` with `recorded`. */
  lemma ScanField(data: seq<byte>, pos: nat, f: Field, fields: map<Int32, FixField>,
                  next: nat, recorded: map<Int32, FixField>)
    requires Writable(f) && AllWellPlaced(data, fields)
    requires pos + |EncodeField(f)| <= |data| && data[pos..pos + |EncodeField(f)|] == EncodeField(f)
    requires next == pos + |EncodeField(f)|
    requires recorded == fields[f.tag := FixField(pos + |TagText(f)| + 1, |f.value|)]
    ensures AllWellPlaced(data, recorded)
    ensures Scan(data, pos, fields) == Scan(data, next, recorded)
  {
    TokenOfField(data, pos, f);
    ScanOverToken(data, pos, fields, Token(f.tag, FixField(pos + |TagText(f)| + 1, |f.value|), next));
  }

  /** One step of the scan over the message: field `k` is recorded. */
  lemma ScanStep(fs: seq<Field>, k: nat)
    requires AllWritable(fs) && k < |fs|
    requires AllWellPlaced(Encode(fs), Locations(fs[..k]))
    ensures AllWellPlaced(Encode(fs), Locations(fs[..k + 1]))
    ensures Scan(Encode(fs), |Encode(fs[..k])|, Locations(fs[..k]))
            == Scan(Encode(fs), |Encode(fs[..k + 1])|, Locations(fs[..k + 1]))
  {
    FieldLayout(fs, k);
    LocationsStep(fs, k);
    ScanField(Encode(fs), |Encode(fs[..k])|, fs[k], Locations(fs[..k]), |Encode(fs[..k + 1])|, Locations(fs[..k + 1]));
  }

  /** The scan of `Encode(fs)`, resumed after the first `k` fields with their
      locations recorded, records the locations of all fields and succeeds. */
  lemma {:induction false} ScanEncoded(fs: seq<Field>, k: nat)
    requires AllWritable(fs) && k <= |fs|
    requires AllWellPlaced(Encode(fs), Locations(fs[..k]))
    ensures Scan(Encode(fs), |Encode(fs[..k])|, Locations(fs[..k]))
            == ParseOutcome(Parser(Locations(fs)), Success(|Locations(fs)|))
    decreases |fs| - k
  {
    if k == |fs| {
      assert fs[..k] == fs;
    } else {
      ScanStep(fs, k);
      ScanEncoded(fs, k + 1);
    }
  }

  /** The scan of a written message, started at its beginning with nothing
      recorded, records every tag's last location and counts the tags. */
  lemma ParseOutcomeEncoded(p: Parser, fs: seq<Field>)
    requires AllWritable(fs)
    ensures Parse(p, Encode(fs)) == ParseOutcome(Parser(Locations(fs)), Success(|Tags(fs)|))
  {
    assert fs[..0] == [];
    assert Locations(fs[..0]) == map[] && |Encode(fs[..0])| == 0;
    ScanEncoded(fs, 0);
    LocationKeys(fs);
    assert |Locations(fs)| == |Locations(fs).Keys|;
  }

  /** Round trip: parsing a written message succeeds, counts the distinct tags,
      records exactly the written tags, and locates every tag's last value in
      place, after its '=' and before its delimiter. */
  lemma ParseEncoded(p: Parser, fs: seq<Field>)
    requires AllWritable(fs)
    ensures Parse(p, Encode(fs)) == ParseOutcome(Parser(Locations(fs)), Success(|Tags(fs)|))
    ensures Locations(fs).Keys == Tags(fs)
    ensures forall t :: t in Tags(fs) ==> LocatedIn(Encode(fs), Locations(fs)[t], LastValue(fs, t), |Encode(fs)|)
  {
    ParseOutcomeEncoded(p, fs);
    var data := Encode(fs);
    assert data[..|data|] == data;
    LocationsHoldLastValues(fs, data);
  }

  /** A message ends with its delimiter. */
  lemma EncodeEndsWithDelimiter(fs: seq<Field>)
    requires AllWritable(fs) && |fs| > 0
    ensures |Encode(fs)| > 0 && Encode(fs)[|Encode(fs)| - 1] == SOH
  {
  }

  /** Appending a field appends its bytes to the message. */
  lemma EncodeAppend(fs: seq<Field>, f: Field)
    requires AllWritable(fs) && Writable(f)
    ensures AllWritable(fs + [f])
    ensures Encode(fs + [f]) == Encode(fs) + EncodeField(f)
  {
    assert (fs + [f])[..|fs|] == fs;
  }

  /** Parsing a message that ends with field `f` records `f`'s value right
      after the message before it and its `tag=`. */
  lemma LastFieldParsed(p: Parser, fs: seq<Field>, f: Field)
    requires AllWritable(fs) && Writable(f)
    ensures AllWritable(fs + [f])
    ensures var msg := Encode(fs + [f]);
            var parser := Parse(p, msg).parser;
            && f.tag in parser.fields
            && parser.fields[f.tag] == FixField(|Encode(fs)| + |TagText(f)| + 1, |f.value|)
  {
    EncodeAppend(fs, f);
    ParseEncoded(p, fs + [f]);
    assert (fs + [f])[..|fs|] == fs;
  }

  /** In a written message, the location of a tag it carries lies inside
      the message and holds the tag's last value. */
  lemma LastValueLocated(fs: seq<Field>, t: Int32)
    requires AllWritable(fs) && t in Tags(fs)
    ensures t in Locations(fs)
    ensures var data, f := Encode(fs), Locations(fs)[t];
            InBuffer(data, f) && data[f.offset..f.offset + f.length] == LastValue(fs, t)
  {
    var data := Encode(fs);
    WholePrefix(data);
    LastValueHeld(fs, data, t);
    LocatedInBuffer(data, Locations(fs)[t], LastValue(fs, t));
  }

  /** A buffer is its own prefix. */
  lemma WholePrefix(data: seq<byte>)
    ensures data[..|data|] == data
  {
  }

  /** A location that holds value `v` and ends before the end of the buffer
      lies inside it. */
  lemma LocatedInBuffer(data: seq<byte>, f: FixField, v: seq<byte>)
    requires LocatedIn(data, f, v, |data|)
    ensures InBuffer(data, f) && data[f.offset..f.offset + f.length] == v
  {
  }

  /** The getters below read the parser state `Parser(Locations(fs))`,
      which `ParseEncoded` shows is exactly the state `parse` leaves after
      reading `Encode(fs)`. */

  /** `getBytes` on a parsed message returns a copy of the tag's last
      value. */
  lemma GetBytesEncoded(fs: seq<Field>, t: Int32)
    requires AllWritable(fs) && t in Tags(fs)
    ensures GetBytes(Parser(Locations(fs)), Encode(fs), t) == Success(LastValue(fs, t))
  {
    LastValueLocated(fs, t);
    GetBytesReadsLocation(Parser(Locations(fs)), Encode(fs), t);
  }

  /** `fieldExists` holds on the state a parse of a written message leaves
      exactly for the tags the message carries. */
  lemma FieldExistsEncoded(fs: seq<Field>, t: Int32)
    requires AllWritable(fs)
    ensures FieldExists(Parser(Locations(fs)), t) <==> t in Tags(fs)
  {
    LocationKeys(fs);
  }

  /** A tag the message does not carry is reported missing by every getter. */
  lemma MissingTagEncoded(fs: seq<Field>, t: Int32)
    requires AllWritable(fs) && t !in Tags(fs)
    ensures var parser := Parser(Locations(fs));
            && !FieldExists(parser, t)
            && GetInt(parser, Encode(fs), t) == Failure(TagNotFound)
            && GetLong(parser, Encode(fs), t) == Failure(TagNotFound)
            && GetBoolean(parser, Encode(fs), t) == Failure(TagNotFound)
            && GetBytes(parser, Encode(fs), t) == Failure(TagNotFound)
  {
    LocationKeys(fs);
  }

  /** `getInt` on a parsed message reads back an `int` written in signed
      decimal. */
  lemma GetIntEncoded(fs: seq<Field>, t: Int32, v: Int32)
    requires AllWritable(fs) && t in Tags(fs) && LastValue(fs, t) == ByteUtils.SignedText(v)
    ensures GetInt(Parser(Locations(fs)), Encode(fs), t) == Success(v)
  {
    LastValueLocated(fs, t);
    GetIntReadsLocation(Parser(Locations(fs)), Encode(fs), t, v);
  }

  /** `getLong` on a parsed message reads back a `long` written in signed
      decimal. */
  lemma GetLongEncoded(fs: seq<Field>, t: Int32, v: Int64)
    requires AllWritable(fs) && t in Tags(fs) && LastValue(fs, t) == ByteUtils.SignedText(v)
    ensures GetLong(Parser(Locations(fs)), Encode(fs), t) == Success(v)
  {
    LastValueLocated(fs, t);
    GetLongReadsLocation(Parser(Locations(fs)), Encode(fs), t, v);
  }

  /** `getBoolean` on a parsed message reads back a boolean written as 'Y' or
      'N' at the start of the value. */
  lemma GetBooleanEncoded(fs: seq<Field>, t: Int32, v: bool)
    requires AllWritable(fs) && t in Tags(fs)
    requires |LastValue(fs, t)| > 0 && LastValue(fs, t)[0] == ByteUtils.BooleanByte(v)
    ensures GetBoolean(Parser(Locations(fs)), Encode(fs), t) == Success(v)
  {
    var data := Encode(fs);
    LastValueLocated(fs, t);
    var f := Locations(fs)[t];
    assert data[f.offset] == data[f.offset..f.offset + f.length][0];
    ByteUtils.ReadBooleanRoundTrip(data, f.offset, v);
  }
}
