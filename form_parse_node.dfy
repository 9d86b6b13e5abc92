/** The parse node for form-encoded text (`k1=v1&k2=v2`): field splitting at
    construction, child nodes, typed getters over the node's raw text, enum
    helpers, and the field-assignment protocol of `getObjectValue`.
    The typed getters read nothing but the node's raw text, so each is a
    function of that text: `node.getXValue()` is `XValue(node.rawStringValue)`.
    Hooks, deserializers and the target item are opaque; what the node does
    with them is returned as a trace of events. */
module FormSerialization {
  import opened Common
  import opened JavaText

  // ---------------------------------------------------------------------------
  // Construction: splitting the raw text into fields.

  /** sanitizeKey: the key with its leading and trailing blanks cut off, so
      that neither end of the result is a blank; a sanitized key is its own
      sanitized form. */
  function SanitizeKey(key: string): (r: string)
    ensures |r| <= |key|
    ensures Trim(r) == r
    ensures r == [] || (!IsTrimmable(r[0]) && !IsTrimmable(r[|r| - 1]))
    ensures exists i, j :: 0 <= i <= j <= |key| && r == key[i..j]
                           && (forall k :: 0 <= k < i ==> IsTrimmable(key[k]))
                           && (forall k :: j <= k < |key| ==> IsTrimmable(key[k]))
  {
    TrimIdempotent(key);
    TrimCutsTrimmable(key);
    Trim(key)
  }

  /** What one `&`-segment contributes to the constructor's loop. */
  datatype Segment =
    | Broken                             // `kv.split("=")` is empty: reading its first element throws
    | Skipped                            // not exactly two `=`-parts: no field
    | Field(key: string, value: string)  // the two parts, trimmed

  /** The constructor's reading of one segment: it throws when `split("=")`
      is empty, and keeps a field only for exactly two parts. */
  function ClassifySegment(kv: string): (r: Segment)
    ensures r.Broken? <==> |Split(kv, '=')| == 0
    ensures r.Field? <==> |Split(kv, '=')| == 2
    ensures r.Field? ==> Trim(r.key) == r.key && Trim(r.value) == r.value
  {
    var parts := Split(kv, '=');
    if |parts| == 0 then Broken
    else if |parts| == 2 then
      TrimIdempotent(parts[1]);
      Field(SanitizeKey(parts[0]), Trim(parts[1]))
    else Skipped
  }

  function Classify(segments: seq<string>): (r: seq<Segment>)
    ensures |r| == |segments|
    ensures forall i :: 0 <= i < |segments| ==> r[i] == ClassifySegment(segments[i])
  {
    seq(|segments|, i requires 0 <= i < |segments| => ClassifySegment(segments[i]))
  }

  /** What one segment contributes to the fields read so far. A key already
      present keeps its value: the comma-joined string is built and discarded. */
  function AddSegment(fields: map<string, string>, s: Segment): Result<map<string, string>> {
    match s
    case Broken => Err(ArrayIndexOutOfBoundsException)
    case Skipped => Ok(fields)
    case Field(key, value) => Ok(if key in fields then fields else fields[key := value])
  }

  /** A segment throws exactly when it is broken; otherwise it never changes
      a field already read, and adds at most its own key with its own value. */
  lemma AddSegmentFirstWins(fields: map<string, string>, s: Segment)
    ensures AddSegment(fields, s).Err? <==> s.Broken?
    ensures AddSegment(fields, s).Err? ==> AddSegment(fields, s).error == ArrayIndexOutOfBoundsException
    ensures AddSegment(fields, s).Ok? ==>
              forall k :: k in fields ==> k in AddSegment(fields, s).value && AddSegment(fields, s).value[k] == fields[k]
    ensures AddSegment(fields, s).Ok? ==>
              forall k :: k in AddSegment(fields, s).value && k !in fields ==>
                s.Field? && k == s.key && AddSegment(fields, s).value[k] == s.value
  {
  }

  /** The constructor's loop over the segments, in order. */
  function Collect(segments: seq<Segment>): (r: Result<map<string, string>>)
    decreases |segments|
  {
    if segments == [] then Ok(map[])
    else match Collect(segments[..|segments| - 1])
      case Err(e) => Err(e)
      case Ok(fields) => AddSegment(fields, segments[|segments| - 1])
  }

  /** The fields `new FormParseNode(raw)` records, or the exception it throws. */
  function ParseFields(raw: string): (r: Result<map<string, string>>)
    ensures r.Err? ==> r.error == ArrayIndexOutOfBoundsException
  {
    CollectCharacterized(Classify(Split(raw, '&')));
    Collect(Classify(Split(raw, '&')))
  }

  predicate HasFieldAt(segments: seq<Segment>, i: int, key: string) {
    0 <= i < |segments| && segments[i].Field? && segments[i].key == key
  }

  predicate FirstFieldAt(segments: seq<Segment>, i: int, key: string) {
    HasFieldAt(segments, i, key) && forall j :: 0 <= j < i ==> !HasFieldAt(segments, j, key)
  }

  lemma CollectStep(segments: seq<Segment>, i: nat)
    requires i < |segments|
    ensures Collect(segments[..i + 1]) ==
              if Collect(segments[..i]).Err? then Collect(segments[..i])
              else AddSegment(Collect(segments[..i]).value, segments[i])
  {
    assert segments[..i + 1][..i] == segments[..i];
  }

  /** One more segment read, as the constructor's loop reads it. */
  lemma CollectNext(segments: seq<string>, i: nat, fields: map<string, string>)
    requires i < |segments|
    requires Collect(Classify(segments)[..i]) == Ok(fields)
    ensures Collect(Classify(segments)[..i + 1]) == AddSegment(fields, ClassifySegment(segments[i]))
  {
    CollectStep(Classify(segments), i);
  }

  /** Once the loop has thrown, the rest of the segments change nothing. */
  lemma CollectErrSticky(segments: seq<Segment>, n: nat)
    requires n <= |segments|
    requires Collect(segments[..n]).Err?
    ensures Collect(segments) == Collect(segments[..n])
    decreases |segments| - n
  {
    if n < |segments| {
      CollectStep(segments, n);
      CollectErrSticky(segments, n + 1);
    } else {
      assert segments[..n] == segments;
    }
  }

  /** What the constructor's loop computes: it throws exactly when some segment
      is broken; otherwise a key is present exactly when some segment yields
      it, and its value is that of the first such segment. */
  lemma {:induction false} CollectCharacterized(segments: seq<Segment>)
    ensures Collect(segments).Err? <==> exists i :: 0 <= i < |segments| && segments[i].Broken?
    ensures Collect(segments).Err? ==> Collect(segments).error == ArrayIndexOutOfBoundsException
    ensures Collect(segments).Ok? ==>
              forall key :: key in Collect(segments).value <==> exists i :: HasFieldAt(segments, i, key)
    ensures Collect(segments).Ok? ==>
              forall key, i :: FirstFieldAt(segments, i, key) ==>
                key in Collect(segments).value && Collect(segments).value[key] == segments[i].value
    decreases |segments|
  {
    if segments != [] {
      var n := |segments| - 1;
      var init, last := segments[..n], segments[n];
      CollectCharacterized(init);
      assert forall i :: 0 <= i < n ==> init[i] == segments[i];
      if Collect(init).Ok? && !last.Broken? {
        var m := Collect(init).value;
        var r := Collect(segments).value;
        forall key
          ensures key in r <==> exists i :: HasFieldAt(segments, i, key)
        {
          if HasFieldAt(segments, n, key) && key !in m {
            assert key in r;
          }
          if key in r && key !in m {
            assert HasFieldAt(segments, n, key);
          }
          if key in m {
            var i :| HasFieldAt(init, i, key);
            assert HasFieldAt(segments, i, key);
          }
          if exists i :: HasFieldAt(segments, i, key) {
            var i :| HasFieldAt(segments, i, key);
            if i < n {
              assert HasFieldAt(init, i, key);
            }
          }
        }
        forall key, i | FirstFieldAt(segments, i, key)
          ensures key in r && r[key] == segments[i].value
        {
          if i < n {
            assert HasFieldAt(init, i, key);
            assert forall j :: 0 <= j < i ==> !HasFieldAt(init, j, key) by {
              forall j | 0 <= j < i ensures !HasFieldAt(init, j, key) {
                assert !HasFieldAt(segments, j, key);
              }
            }
            assert FirstFieldAt(init, i, key);
          } else {
            if key in m {
              var j :| HasFieldAt(init, j, key);
              assert HasFieldAt(segments, j, key);
            }
          }
        }
      }
      if Collect(init).Err? {
        var i :| 0 <= i < n && init[i].Broken?;
        assert segments[i].Broken?;
      }
    }
  }

  /** The constructor on raw text: it throws exactly when some `&`-segment is
      made of `=` only; a key is present exactly when some two-part segment
      has it as its trimmed first part, with the trimmed second part of the
      first such segment as its value. */
  lemma ParseFieldsCharacterized(raw: string)
    ensures var segments := Classify(Split(raw, '&'));
            && (ParseFields(raw).Err? <==> exists i :: 0 <= i < |segments| && segments[i].Broken?)
            && (ParseFields(raw).Err? ==> ParseFields(raw).error == ArrayIndexOutOfBoundsException)
            && (ParseFields(raw).Ok? ==>
                  forall key :: key in ParseFields(raw).value <==> exists i :: HasFieldAt(segments, i, key))
            && (ParseFields(raw).Ok? ==>
                  forall key, i :: FirstFieldAt(segments, i, key) ==>
                    key in ParseFields(raw).value && ParseFields(raw).value[key] == segments[i].value)
  {
    CollectCharacterized(Classify(Split(raw, '&')));
  }

  /** Keys are stored trimmed, so they are found again through SanitizeKey. */
  lemma FieldKeysTrimmed(raw: string)
    ensures ParseFields(raw).Ok? ==> forall key :: key in ParseFields(raw).value ==> SanitizeKey(key) == key
  {
    var pieces := Split(raw, '&');
    var segments := Classify(pieces);
    CollectCharacterized(segments);
    if ParseFields(raw).Ok? {
      forall key | key in ParseFields(raw).value ensures SanitizeKey(key) == key {
        var i :| HasFieldAt(segments, i, key);
        assert segments[i] == ClassifySegment(pieces[i]);
        TrimIdempotent(Split(pieces[i], '=')[0]);
      }
    }
  }

  lemma {:induction false} CollectValuesPlain(segments: seq<Segment>)
    requires forall i :: 0 <= i < |segments| && segments[i].Field? ==>
               '&' !in segments[i].value && '=' !in segments[i].value
    ensures Collect(segments).Ok? ==>
              forall key :: key in Collect(segments).value ==>
                '&' !in Collect(segments).value[key] && '=' !in Collect(segments).value[key]
    decreases |segments|
  {
    if segments != [] {
      CollectValuesPlain(segments[..|segments| - 1]);
    }
  }

  /** A field's value is a trimmed part between `=`s of a segment between `&`s. */
  lemma SegmentValuePlain(kv: string)
    requires '&' !in kv
    ensures ClassifySegment(kv).Field? ==>
              '&' !in ClassifySegment(kv).value && '=' !in ClassifySegment(kv).value
  {
    var parts := Split(kv, '=');
    SplitWithin(kv, '=');
    if |parts| == 2 {
      assert '=' !in parts[1];
      assert forall c :: c in parts[1] ==> c in kv;
      TrimWithin(parts[1]);
    }
  }

  /** Field values hold neither `&` nor `=`: the text of a child node. */
  lemma FieldValuesPlain(raw: string)
    ensures ParseFields(raw).Ok? ==>
              forall key :: key in ParseFields(raw).value ==>
                '&' !in ParseFields(raw).value[key] && '=' !in ParseFields(raw).value[key]
  {
    var pieces := Split(raw, '&');
    SplitWithin(raw, '&');
    var segments := Classify(pieces);
    forall i | 0 <= i < |segments| && segments[i].Field?
      ensures '&' !in segments[i].value && '=' !in segments[i].value
    {
      SegmentValuePlain(pieces[i]);
    }
    CollectValuesPlain(segments);
  }

  /** Text without `&` and `=` parses, to no fields at all. */
  lemma PlainTextHasNoFields(text: string)
    requires '&' !in text && '=' !in text
    ensures ParseFields(text) == Ok(map[])
  {
    assert Split(text, '&') == [text];
    assert Split(text, '=') == [text];
    var segments := Classify([text]);
    assert segments == [Skipped];
    CollectStep(segments, 0);
    assert segments[..0] == [] && segments[..1] == segments;
  }

  /** The text of one field parses, to no fields. */
  lemma ChildHasNoFields(raw: string, key: string)
    requires ParseFields(raw).Ok? && key in ParseFields(raw).value
    ensures ParseFields(ParseFields(raw).value[key]) == Ok(map[])
  {
    FieldValuesPlain(raw);
    PlainTextHasNoFields(ParseFields(raw).value[key]);
  }

  /** Every child node built from a field parses without error and has no
      fields, so the hooks it carries never run for it. */
  lemma ChildrenHaveNoFields(raw: string)
    ensures ParseFields(raw).Ok? ==>
              forall key :: key in ParseFields(raw).value ==> ParseFields(ParseFields(raw).value[key]) == Ok(map[])
  {
    FieldValuesPlain(raw);
    if ParseFields(raw).Ok? {
      forall key | key in ParseFields(raw).value
        ensures ParseFields(ParseFields(raw).value[key]) == Ok(map[])
      {
        PlainTextHasNoFields(ParseFields(raw).value[key]);
      }
    }
  }

  // ---------------------------------------------------------------------------
  // Form encoding of a list of fields, as the partner of the constructor.

  /** A key and value that survive encoding unchanged. */
  predicate PlainField(field: (string, string)) {
    && '&' !in field.0 && '=' !in field.0 && Trim(field.0) == field.0
    && '&' !in field.1 && '=' !in field.1 && Trim(field.1) == field.1 && field.1 != []
  }

  function EncodeField(field: (string, string)): string {
    field.0 + "=" + field.1
  }

  function EncodeSegments(fields: seq<(string, string)>): (r: seq<string>)
    ensures |r| == |fields|
    ensures forall i :: 0 <= i < |fields| ==> r[i] == EncodeField(fields[i])
    decreases |fields|
  {
    if fields == [] then [] else EncodeSegments(fields[..|fields| - 1]) + [EncodeField(fields[|fields| - 1])]
  }

  function EncodeForm(fields: seq<(string, string)>): string {
    Join(EncodeSegments(fields), '&')
  }

  /** The map that keeps, for each key, its first value in the list. */
  function FirstWins(fields: seq<(string, string)>): map<string, string>
    decreases |fields|
  {
    if fields == [] then map[]
    else
      var m := FirstWins(fields[..|fields| - 1]);
      var (key, value) := fields[|fields| - 1];
      if key in m then m else m[key := value]
  }

  lemma SplitEncodedField(field: (string, string))
    requires '=' !in field.0 && '=' !in field.1 && field.1 != []
    ensures Split(EncodeField(field), '=') == [field.0, field.1]
  {
    assert Join([field.0, field.1], '=') == EncodeField(field) by {
      assert Join([field.1], '=') == field.1;
    }
    SplitJoin([field.0, field.1], '=');
  }

  lemma SegmentOfPlainField(field: (string, string))
    requires PlainField(field)
    ensures ClassifySegment(EncodeField(field)) == Field(field.0, field.1)
    ensures '&' !in EncodeField(field)
  {
    SplitEncodedField(field);
    var parts := Split(EncodeField(field), '=');
    assert parts == [field.0, field.1];
    assert SanitizeKey(parts[0]) == field.0 && Trim(parts[1]) == field.1;
  }

  /** Blanks around a key and around its value are trimmed off. */
  lemma SegmentOfKeyValue(key: string, value: string)
    requires '=' !in key && '=' !in value && value != []
    ensures ClassifySegment(key + "=" + value) == Field(SanitizeKey(key), Trim(value))
  {
    SplitEncodedField((key, value));
  }

  /** A trailing `=` after the value is ignored, because split drops the empty
      last part. */
  lemma SegmentWithTrailingEquals(key: string, value: string)
    requires '=' !in key && '=' !in value && value != []
    ensures ClassifySegment(key + "=" + value + "=") == Field(SanitizeKey(key), Trim(value))
  {
    var kv := key + "=" + value + "=";
    var ps := [key, value, []];
    JoinThree(key, value, [], '=');
    assert Join(ps, '=') == kv by {
      assert key + ['='] + value + ['='] + [] == kv;
    }
    assert kv[|key|] == '=';
    PiecesJoin(ps, '=');
    assert DropTrailingEmpty(ps) == [key, value] by {
      assert ps[..2] == [key, value];
    }
    assert Split(kv, '=') == [key, value];
  }

  /** A segment without `=`, or with a key and nothing after its `=`, holds no
      field. */
  lemma SegmentWithoutValue(key: string)
    requires '=' !in key
    ensures ClassifySegment(key) == Skipped
    ensures key != [] ==> ClassifySegment(key + "=") == Skipped
  {
    assert Split(key, '=') == [key];
    if key != [] {
      var kv := key + "=";
      var ps := [key, []];
      assert Join(ps, '=') == kv;
      assert kv[|key|] == '=';
      PiecesJoin(ps, '=');
      assert DropTrailingEmpty(ps) == [key] by {
        assert ps[..1] == [key];
      }
    }
  }

  /** A value that holds a second `=` makes the segment hold no field. */
  lemma SegmentWithTwoEquals(key: string, value: string, rest: string)
    requires '=' !in key && '=' !in value && '=' !in rest && rest != []
    ensures ClassifySegment(key + "=" + value + "=" + rest) == Skipped
  {
    var ps := [key, value, rest];
    JoinThree(key, value, rest, '=');
    SplitJoin(ps, '=');
  }

  /** A segment makes the constructor throw exactly when it is one or more `=`s. */
  lemma SegmentBrokenIff(kv: string)
    ensures ClassifySegment(kv) == Broken <==> kv != [] && forall i :: 0 <= i < |kv| ==> kv[i] == '='
  {
    SplitEmptyIff(kv, '=');
  }

  lemma {:induction false} CollectOfFields(segments: seq<Segment>, fields: seq<(string, string)>)
    requires |segments| == |fields|
    requires forall i :: 0 <= i < |fields| ==> segments[i] == Field(fields[i].0, fields[i].1)
    ensures Collect(segments) == Ok(FirstWins(fields))
    decreases |fields|
  {
    if fields != [] {
      var n := |fields| - 1;
      CollectOfFields(segments[..n], fields[..n]);
    }
  }

  lemma CollectEncoded(fields: seq<(string, string)>)
    requires forall i :: 0 <= i < |fields| ==> PlainField(fields[i])
    ensures Collect(Classify(EncodeSegments(fields))) == Ok(FirstWins(fields))
  {
    var encoded := EncodeSegments(fields);
    var segments := Classify(encoded);
    forall i | 0 <= i < |fields|
      ensures segments[i] == Field(fields[i].0, fields[i].1)
    {
      SegmentOfPlainField(fields[i]);
    }
    CollectOfFields(segments, fields);
  }

  /** Parsing undoes encoding: the fields come back, the first value of a
      repeated key winning. */
  lemma ParseEncodedForm(fields: seq<(string, string)>)
    requires forall i :: 0 <= i < |fields| ==> PlainField(fields[i])
    ensures ParseFields(EncodeForm(fields)) == Ok(FirstWins(fields))
  {
    CollectEncoded(fields);
    if fields == [] {
      PlainTextHasNoFields("");
    } else {
      var segments := EncodeSegments(fields);
      var n := |fields| - 1;
      forall i | 0 <= i < |fields| ensures '&' !in segments[i] {
        SegmentOfPlainField(fields[i]);
      }
      assert segments[n] != [] by {
        assert '=' in segments[n];
      }
      SplitJoin(segments, '&');
    }
  }

  // ---------------------------------------------------------------------------
  // Typed getters, as functions of the node's raw text.

  /** getStringValue: the decoded text; null for any casing of "null"; a
      malformed escape throws. */
  function StringValue(raw: string): (r: Outcome<string>)
    ensures r.Thrown? <==> UrlDecode(raw).Err?
    ensures r.Thrown? ==> r.error == IllegalArgumentException
    ensures r.Null? <==> UrlDecode(raw).Ok? && ToLower(UrlDecode(raw).value) == "null"
    ensures r.Value? ==> UrlDecode(raw) == Ok(r.value)
  {
    LowerEqualsIffIgnoreCase(if UrlDecode(raw).Ok? then UrlDecode(raw).value else [], "null");
    match UrlDecode(raw)
    case Err(e) => Thrown(e)
    case Ok(decoded) => if EqualsIgnoreCase(decoded, "null") then Null else Value(decoded)
  }

  /** Percent-encoded text reads back as itself, unless it spells "null". */
  lemma StringValueOfEncoded(text: string)
    requires IsAscii(text)
    ensures StringValue(PercentEncode(text)) == if EqualsIgnoreCase(text, "null") then Null else Value(text)
  {
    UrlDecodeEncoded(text);
  }

  /** getBooleanValue. A null string value makes toLowerCase throw. */
  function BooleanValue(raw: string): (r: Outcome<bool>)
    ensures r.Thrown? <==> !StringValue(raw).Value?
    ensures StringValue(raw).Thrown? ==> r == Thrown(IllegalArgumentException)
    ensures StringValue(raw).Null? ==> r == Thrown(NullPointerException)
  {
    match StringValue(raw)
    case Thrown(e) => Thrown(e)
    case Null => Thrown(NullPointerException)
    case Value(s) =>
      var lower := ToLower(s);
      if lower == "true" || lower == "1" then Value(true)
      else if lower == "false" || lower == "0" then Value(false)
      else Null
  }

  lemma LowerIsDigit(s: string, d: char)
    requires IsDigit(d)
    ensures ToLower(s) == [d] <==> s == [d]
  {
    if ToLower(s) == [d] {
      assert LowerChar(s[0]) == d;
    }
  }

  /** getBooleanValue recognises "true" and "1" as true and "false" and "0" as
      false, ignoring case, and nothing else: other text gives null. */
  lemma BooleanValueRecognizes(raw: string)
    ensures UrlDecode(raw).Err? ==> BooleanValue(raw) == Thrown(IllegalArgumentException)
    ensures UrlDecode(raw).Ok? ==>
              var s := UrlDecode(raw).value;
              && (BooleanValue(raw) == Value(true) <==> EqualsIgnoreCase(s, "true") || s == "1")
              && (BooleanValue(raw) == Value(false) <==> EqualsIgnoreCase(s, "false") || s == "0")
              && (BooleanValue(raw) == Thrown(NullPointerException) <==> EqualsIgnoreCase(s, "null"))
              && (BooleanValue(raw) == Null <==>
                    !EqualsIgnoreCase(s, "true") && !EqualsIgnoreCase(s, "false") && !EqualsIgnoreCase(s, "null")
                    && s != "1" && s != "0")
  {
    if UrlDecode(raw).Ok? {
      var s := UrlDecode(raw).value;
      LowerEqualsIffIgnoreCase(s, "true");
      LowerEqualsIffIgnoreCase(s, "false");
      LowerEqualsIffIgnoreCase(s, "null");
      LowerIsDigit(s, '1');
      LowerIsDigit(s, '0');
    }
  }

  /** The four integral types and their ranges. */
  datatype IntegralType = ByteType | ShortType | IntegerType | LongType {
    function MinValue(): int {
      match this
      case ByteType => -0x80
      case ShortType => -0x8000
      case IntegerType => -0x8000_0000
      case LongType => -0x8000_0000_0000_0000
    }
    function MaxValue(): int {
      match this
      case ByteType => 0x7f
      case ShortType => 0x7fff
      case IntegerType => 0x7fff_ffff
      case LongType => 0x7fff_ffff_ffff_ffff
    }
  }

  /** The getters for byte, short, integer and long: the parse of the string
      value, when it is a number of the type's range. A failed parse is caught
      and gives null; a malformed escape is not caught. */
  function IntegralValue(raw: string, t: IntegralType): (r: Outcome<int>)
    ensures r.Value? ==> t.MinValue() <= r.value <= t.MaxValue()
    ensures r.Thrown? ==> r == Thrown(IllegalArgumentException)
  {
    match StringValue(raw)
    case Thrown(e) => Thrown(e)
    case Null => Null
    case Value(s) =>
      match ParseDecimal(s)
      case None => Null
      case Some(n) => if t.MinValue() <= n <= t.MaxValue() then Value(n) else Null
  }

  function ByteValue(raw: string): (r: Outcome<int>)
    ensures r.Value? ==> -128 <= r.value <= 127
  {
    IntegralValue(raw, ByteType)
  }

  function ShortValue(raw: string): (r: Outcome<int>)
    ensures r.Value? ==> -32768 <= r.value <= 32767
  {
    IntegralValue(raw, ShortType)
  }

  function IntegerValue(raw: string): (r: Outcome<int>)
    ensures r.Value? ==> -2147483648 <= r.value <= 2147483647
  {
    IntegralValue(raw, IntegerType)
  }

  function LongValue(raw: string): (r: Outcome<int>)
    ensures r.Value? ==> -9223372036854775808 <= r.value <= 9223372036854775807
  {
    IntegralValue(raw, LongType)
  }

  /** An integral getter returns a number exactly when the decoded text is an
      optionally signed decimal in range; any casing of "null" is no number. */
  lemma IntegralValueIff(raw: string, t: IntegralType, n: int)
    ensures IntegralValue(raw, t) == Value(n) <==>
              UrlDecode(raw).Ok? && ParseDecimal(UrlDecode(raw).value) == Some(n) && t.MinValue() <= n <= t.MaxValue()
    ensures IntegralValue(raw, t) == Thrown(IllegalArgumentException) <==> UrlDecode(raw).Err?
  {
    if UrlDecode(raw).Ok? && ToLower(UrlDecode(raw).value) == "null" {
      var s := UrlDecode(raw).value;
      assert LowerChar(s[0]) == 'n';
    }
  }

  /** Every integer printed in decimal reads back from a node, when it is in
      the type's range, and reads as null otherwise. */
  lemma IntegralValueOfDecimal(n: int, t: IntegralType)
    ensures IntegralValue(DecimalString(n), t) ==
              if t.MinValue() <= n <= t.MaxValue() then Value(n) else Null
  {
    var s := DecimalString(n);
    ParseDecimalString(n);
    assert '+' !in s && '%' !in s by {
      assert forall i :: 0 <= i < |s| ==> s[i] == '-' || IsDigit(s[i]) by {
        if n < 0 {
          forall i | 0 <= i < |s| ensures s[i] == '-' || IsDigit(s[i]) {
            if i > 0 { assert s[i] == NatString(-n)[i - 1]; }
          }
        }
      }
    }
    UrlDecodePlain(s);
    IntegralValueIff(s, t, n);
  }

  /** getEnumValue: `forValue` is the enum's label lookup (a failed lookup is
      null); null or empty text gives null. */
  function EnumValue<E>(raw: string, forValue: string -> Option<E>): (r: Outcome<E>)
    ensures r.Value? <==>
              StringValue(raw).Value? && StringValue(raw).value != [] && forValue(StringValue(raw).value).Some?
    ensures r.Value? ==> forValue(StringValue(raw).value) == Some(r.value)
    ensures r.Thrown? <==> StringValue(raw).Thrown?
    ensures r.Thrown? ==> r.error == StringValue(raw).error
  {
    match StringValue(raw)
    case Thrown(e) => Thrown(e)
    case Null => Null
    case Value(s) =>
      if s == [] then Null
      else match forValue(s)
        case None => Null
        case Some(e) => Value(e)
  }

  /** The labels resolved among the comma-separated items, in order. */
  function ResolvedLabels<E>(labels: seq<string>, forValue: string -> Option<E>): set<E>
    decreases |labels|
  {
    if labels == [] then {}
    else
      ResolvedLabels(labels[..|labels| - 1], forValue)
      + match forValue(labels[|labels| - 1]) case None => {} case Some(e) => {e}
  }

  /** An enum value is in the set exactly when some item resolves to it. */
  lemma {:induction false} ResolvedLabelsMembers<E>(labels: seq<string>, forValue: string -> Option<E>)
    ensures forall e :: e in ResolvedLabels(labels, forValue) <==>
              exists item :: item in labels && forValue(item) == Some(e)
    decreases |labels|
  {
    if labels != [] {
      var n := |labels| - 1;
      ResolvedLabelsMembers(labels[..n], forValue);
      assert labels == labels[..n] + [labels[n]];
      forall e ensures e in ResolvedLabels(labels, forValue) <==>
                       exists item :: item in labels && forValue(item) == Some(e)
      {
        if e in ResolvedLabels(labels, forValue) && e !in ResolvedLabels(labels[..n], forValue) {
          assert labels[n] in labels && forValue(labels[n]) == Some(e);
        }
        if exists item :: item in labels && forValue(item) == Some(e) {
          var item :| item in labels && forValue(item) == Some(e);
          if item != labels[n] {
            assert item in labels[..n];
          }
        }
      }
    }
  }

  /** The enum set holds exactly the non-null elements of the enum collection. */
  lemma EnumSetIsNonNullItems<E>(labels: seq<string>, forValue: string -> Option<E>, items: seq<Option<E>>)
    requires |items| == |labels|
    requires forall i :: 0 <= i < |labels| ==> items[i] == forValue(labels[i])
    ensures forall e :: e in ResolvedLabels(labels, forValue) <==> Some(e) in items
  {
    ResolvedLabelsMembers(labels, forValue);
    forall e ensures e in ResolvedLabels(labels, forValue) <==> Some(e) in items {
      if Some(e) in items {
        var i :| 0 <= i < |items| && items[i] == Some(e);
        assert labels[i] in labels;
      }
      if e in ResolvedLabels(labels, forValue) {
        var item :| item in labels && forValue(item) == Some(e);
        var i :| 0 <= i < |labels| && labels[i] == item;
        assert items[i] == Some(e);
      }
    }
  }

  /** The loop of getEnumSetValue: the values the items resolve to. */
  method ResolveEach<E>(labels: seq<string>, forValue: string -> Option<E>) returns (result: set<E>)
    ensures result == ResolvedLabels(labels, forValue)
  {
    result := {};
    var i := 0;
    while i < |labels|
      invariant 0 <= i <= |labels|
      invariant result == ResolvedLabels(labels[..i], forValue)
    {
      var value := forValue(labels[i]);
      if value.Some? {
        result := result + {value.value};
      }
      assert labels[..i + 1][..i] == labels[..i];
      i := i + 1;
    }
    assert labels[..i] == labels;
  }

  /** getEnumSetValue: the values the comma-separated items resolve to;
      items that do not resolve are skipped. */
  method EnumSetValue<E>(raw: string, forValue: string -> Option<E>) returns (r: Outcome<set<E>>)
    ensures StringValue(raw).Thrown? ==> r == Thrown(StringValue(raw).error)
    ensures StringValue(raw).Null? || StringValue(raw) == Value([]) ==> r == Null
    ensures StringValue(raw).Value? && StringValue(raw).value != [] ==>
              r == Value(ResolvedLabels(Split(StringValue(raw).value, ','), forValue))
  {
    var rawValue := StringValue(raw);
    if rawValue.Thrown? {
      return Thrown(rawValue.error);
    }
    if rawValue.Null? || rawValue.value == [] {
      return Null;
    }
    var result := ResolveEach(Split(rawValue.value, ','), forValue);
    r := Value(result);
  }

  /** The loop of getCollectionOfEnumValues: each item's lookup, in order. */
  method LookUpEach<E>(labels: seq<string>, forValue: string -> Option<E>) returns (result: seq<Option<E>>)
    ensures |result| == |labels|
    ensures forall i :: 0 <= i < |labels| ==> result[i] == forValue(labels[i])
  {
    result := [];
    for i := 0 to |labels|
      invariant |result| == i
      invariant forall j :: 0 <= j < i ==> result[j] == forValue(labels[j])
    {
      result := result + [forValue(labels[i])];
    }
  }

  /** getCollectionOfEnumValues: one element per comma-separated item, null
      where the item does not resolve. */
  method CollectionOfEnumValues<E>(raw: string, forValue: string -> Option<E>) returns (r: Outcome<seq<Option<E>>>)
    ensures StringValue(raw).Thrown? ==> r == Thrown(StringValue(raw).error)
    ensures StringValue(raw).Null? || StringValue(raw) == Value([]) ==> r == Null
    ensures StringValue(raw).Value? && StringValue(raw).value != [] ==>
              var labels := Split(StringValue(raw).value, ',');
              r.Value? && |r.value| == |labels|
              && forall i :: 0 <= i < |labels| ==> r.value[i] == forValue(labels[i])
  {
    var stringValue := StringValue(raw);
    if stringValue.Thrown? {
      return Thrown(stringValue.error);
    }
    if stringValue.Null? || stringValue.value == [] {
      return Null;
    }
    var result := LookUpEach(Split(stringValue.value, ','), forValue);
    r := Value(result);
  }

  /** getCollectionOfPrimitiveValues: not supported by the format. */
  function CollectionOfPrimitiveValues<T>(): (r: Outcome<seq<T>>)
    ensures r == Thrown(RuntimeException)
  {
    Thrown(RuntimeException)
  }

  /** getCollectionOfObjectValues: not supported by the format. */
  function CollectionOfObjectValues<T>(): (r: Outcome<seq<T>>)
    ensures r == Thrown(RuntimeException)
  {
    Thrown(RuntimeException)
  }

  /** getByteArrayValue up to the Base64 decoding: the text handed to the
      decoder, or null for null or empty text. */
  function Base64Text(raw: string): (r: Outcome<string>)
    ensures r.Value? ==> r.value != [] && StringValue(raw) == Value(r.value)
    ensures r.Null? <==> StringValue(raw).Null? || StringValue(raw) == Value([])
  {
    match StringValue(raw)
    case Thrown(e) => Thrown(e)
    case Null => Null
    case Value(s) => if s == [] then Null else Value(s)
  }

  // ---------------------------------------------------------------------------
  // getObjectValue / assignFieldValues.

  /** A Consumer<Parsable> hook, known by its identity only. */
  datatype Hook = Hook(name: string)

  /** The node handed to a field deserializer: the field's raw text and the
      parent's hooks. */
  datatype ChildNode = ChildNode(raw: string, onBefore: Option<Hook>, onAfter: Option<Hook>)

  /** What assignFieldValues does, one step at a time. */
  datatype AssignEvent<P, D> =
    | BeforeAssign(hook: Hook, item: P)
    | Deserialize(field: string, deserializer: D, node: ChildNode)
    | StoreAdditionalData(field: string, value: string)
    | AfterAssign(hook: Hook, item: P)
  {
    /** The events of the field loop, between the two hooks. */
    predicate IsFieldEvent() {
      Deserialize? || StoreAdditionalData?
    }
  }

  /** The inputs of assignFieldValues: the node's fields and hooks, the item's
      deserializer table, and whether the item has an additional-data bag. */
  datatype AssignInputs<D> = AssignInputs(
    fields: map<string, string>,
    deserializers: map<string, D>,
    hasAdditionalData: bool,
    onBefore: Option<Hook>,
    onAfter: Option<Hook>)

  function BeforeEvents<P, D>(hook: Option<Hook>, item: P): seq<AssignEvent<P, D>> {
    if hook.Some? then [BeforeAssign(hook.value, item)] else []
  }

  function AfterEvents<P, D>(hook: Option<Hook>, item: P): seq<AssignEvent<P, D>> {
    if hook.Some? then [AfterAssign(hook.value, item)] else []
  }

  /** The handling of one field: its deserializer gets a child node; without
      one the raw value goes to the bag; without a bag it is dropped. */
  function FieldEvent<P, D>(a: AssignInputs<D>, key: string): (r: seq<AssignEvent<P, D>>)
    requires key in a.fields
    ensures |r| <= 1 && forall e :: e in r ==> e.IsFieldEvent() && e.field == key
  {
    if key in a.deserializers then [Deserialize(key, a.deserializers[key], ChildNode(a.fields[key], a.onBefore, a.onAfter))]
    else if a.hasAdditionalData then [StoreAdditionalData(key, a.fields[key])]
    else []
  }

  /** The fields handled in the given order. */
  function FieldEvents<P, D>(a: AssignInputs<D>, order: seq<string>): (r: seq<AssignEvent<P, D>>)
    requires forall i :: 0 <= i < |order| ==> order[i] in a.fields
    ensures forall i :: 0 <= i < |r| ==> r[i].IsFieldEvent()
    decreases |order|
  {
    if order == [] then []
    else FieldEvents(a, order[..|order| - 1]) + FieldEvent(a, order[|order| - 1])
  }

  /** Visiting one more field appends that field's events. */
  lemma FieldEventsStep<P, D>(a: AssignInputs<D>, order: seq<string>, i: nat)
    requires forall j :: 0 <= j < |order| ==> order[j] in a.fields
    requires i < |order|
    ensures FieldEvents<P, D>(a, order[..i + 1]) == FieldEvents<P, D>(a, order[..i]) + FieldEvent<P, D>(a, order[i])
  {
    assert order[..i + 1][..i] == order[..i];
  }

  /** The keys listed in `order`. */
  function Members(order: seq<string>): set<string> {
    set k | k in order
  }

  /** In a list without repetition, the next key is new. */
  lemma MembersStep(order: seq<string>, i: nat)
    requires forall j, k :: 0 <= j < k < |order| ==> order[j] != order[k]
    requires i < |order|
    ensures order[i] !in Members(order[..i])
    ensures Members(order[..i + 1]) == Members(order[..i]) + {order[i]}
  {
    assert forall j :: 0 <= j < i ==> order[..i][j] != order[i];
    assert order[..i + 1] == order[..i] + [order[i]];
  }

  /** The fields without a deserializer, as they end up in the bag. */
  function AdditionalData<D>(a: AssignInputs<D>): map<string, string> {
    map k | k in a.fields && k !in a.deserializers :: a.fields[k]
  }

  /** The fields among `done` that have no deserializer. */
  function Unmatched<D>(fields: map<string, string>, deserializers: map<string, D>, done: set<string>): map<string, string> {
    map k | k in done && k in fields && k !in deserializers :: fields[k]
  }

  lemma UnmatchedAdd<D>(fields: map<string, string>, deserializers: map<string, D>, done: set<string>, k: string)
    requires k in fields && k !in done
    ensures Unmatched(fields, deserializers, done + {k}) ==
              if k in deserializers then Unmatched(fields, deserializers, done)
              else Unmatched(fields, deserializers, done)[k := fields[k]]
    ensures forall bag: map<string, string> :: k !in deserializers ==>
              bag + Unmatched(fields, deserializers, done + {k}) == (bag + Unmatched(fields, deserializers, done))[k := fields[k]]
  {
  }

  lemma {:induction false} FieldEventsMembers<P, D>(a: AssignInputs<D>, order: seq<string>)
    requires forall i :: 0 <= i < |order| ==> order[i] in a.fields
    requires forall i, j :: 0 <= i < j < |order| ==> order[i] != order[j]
    ensures forall e :: e in FieldEvents<P, D>(a, order) ==>
              exists key :: key in a.fields && key in order && e in FieldEvent<P, D>(a, key)
    ensures forall key, e :: key in a.fields && key in order && e in FieldEvent<P, D>(a, key) ==>
              e in FieldEvents<P, D>(a, order)
    ensures forall i, j :: 0 <= i < j < |FieldEvents<P, D>(a, order)| ==>
              FieldEvents<P, D>(a, order)[i].field != FieldEvents<P, D>(a, order)[j].field
    decreases |order|
  {
    if order != [] {
      var n := |order| - 1;
      var init, last := order[..n], order[n];
      FieldEventsMembers<P, D>(a, init);
      var before := FieldEvents<P, D>(a, init);
      var added := FieldEvent<P, D>(a, last);
      var all := FieldEvents<P, D>(a, order);
      assert all == before + added;
      assert order == init + [last];
      forall e | e in all
        ensures exists key :: key in a.fields && key in order && e in FieldEvent<P, D>(a, key)
      {
        if e in before {
          var key :| key in a.fields && key in init && e in FieldEvent<P, D>(a, key);
          assert key in order;
        } else {
          assert last in order && e in FieldEvent<P, D>(a, last);
        }
      }
      forall key, e | key in a.fields && key in order && e in FieldEvent<P, D>(a, key)
        ensures e in all
      {
        if key != last {
          assert key in init;
        }
      }
      forall i | 0 <= i < |before|
        ensures before[i].field != last
      {
        assert before[i] in before;
        var key :| key in a.fields && key in init && before[i] in FieldEvent<P, D>(a, key);
      }
    }
  }

  /** Whatever the iteration order, each field is handled once and nothing
      else happens between the hooks: every field with a deserializer reaches
      it once, every other field reaches the bag once when there is one. */
  lemma FieldEventsEachFieldOnce<P, D>(a: AssignInputs<D>, order: seq<string>)
    requires IsOrdering(order, a.fields.Keys)
    ensures forall i, j :: 0 <= i < j < |FieldEvents<P, D>(a, order)| ==>
              FieldEvents<P, D>(a, order)[i].field != FieldEvents<P, D>(a, order)[j].field
    ensures forall e :: e in FieldEvents<P, D>(a, order) ==> e.IsFieldEvent()
    ensures forall key :: key in a.fields && key in a.deserializers ==>
              Deserialize(key, a.deserializers[key], ChildNode(a.fields[key], a.onBefore, a.onAfter))
                in FieldEvents<P, D>(a, order)
    ensures forall key :: key in a.fields && key !in a.deserializers && a.hasAdditionalData ==>
              StoreAdditionalData(key, a.fields[key]) in FieldEvents<P, D>(a, order)
    ensures forall key :: key in a.fields && key !in a.deserializers && !a.hasAdditionalData ==>
              forall e :: e in FieldEvents<P, D>(a, order) ==> e.field != key
  {
    FieldEventsMembers<P, D>(a, order);
    var all := FieldEvents<P, D>(a, order);
    forall key | key in a.fields && (key in a.deserializers || a.hasAdditionalData)
      ensures FieldEvent<P, D>(a, key)[0] in all
    {
      assert key in order;
    }
  }

  /** The loop of assignFieldValues over the node's fields, in the map's
      iteration order: each field goes to its deserializer, else to the bag. */
  method AssignEachField<P, D>(a: AssignInputs<D>, additionalData: Option<map<string, string>>)
    returns (events: seq<AssignEvent<P, D>>, additionalDataAfter: Option<map<string, string>>)
    requires additionalData.Some? == a.hasAdditionalData
    ensures exists order :: IsOrdering(order, a.fields.Keys) && events == FieldEvents(a, order)
    ensures additionalDataAfter == if additionalData.Some? then Some(additionalData.value + AdditionalData(a)) else None
  {
    var order := IterationOrder(a.fields.Keys);
    assert forall j :: 0 <= j < |order| ==> order[j] in a.fields by {
      assert forall j :: 0 <= j < |order| ==> order[j] in order;
    }
    events, additionalDataAfter := AssignInOrder<P, D>(a, order, additionalData);
    assert Members(order) == a.fields.Keys;
    assert Unmatched(a.fields, a.deserializers, a.fields.Keys) == AdditionalData(a);
  }

  /** The same loop over the fields in a given order, each visited once. */
  method AssignInOrder<P, D>(a: AssignInputs<D>, order: seq<string>, additionalData: Option<map<string, string>>)
    returns (events: seq<AssignEvent<P, D>>, additionalDataAfter: Option<map<string, string>>)
    requires forall j :: 0 <= j < |order| ==> order[j] in a.fields
    requires forall i, j :: 0 <= i < j < |order| ==> order[i] != order[j]
    requires additionalData.Some? == a.hasAdditionalData
    ensures events == FieldEvents(a, order)
    ensures additionalDataAfter.Some? == additionalData.Some?
    ensures additionalData.Some? ==>
              additionalDataAfter.value == additionalData.value + Unmatched(a.fields, a.deserializers, Members(order))
  {
    events := [];
    additionalDataAfter := additionalData;
    for i := 0 to |order|
      invariant events == FieldEvents(a, order[..i])
      invariant additionalDataAfter.Some? == additionalData.Some?
      invariant additionalData.Some? ==>
                  additionalDataAfter.value == additionalData.value + Unmatched(a.fields, a.deserializers, Members(order[..i]))
    {
      MembersStep(order, i);
      UnmatchedAdd(a.fields, a.deserializers, Members(order[..i]), order[i]);
      FieldEventsStep<P, D>(a, order, i);
      var fieldEvents, bag := AssignField<P, D>(a, order[i], additionalDataAfter);
      events := events + fieldEvents;
      additionalDataAfter := bag;
    }
    assert order[..|order|] == order;
  }

  /** One turn of that loop: the field's deserializer gets a child node
      carrying the hooks, or else the raw value goes to the bag, if any. */
  method AssignField<P, D>(a: AssignInputs<D>, fieldKey: string, additionalData: Option<map<string, string>>)
    returns (events: seq<AssignEvent<P, D>>, additionalDataAfter: Option<map<string, string>>)
    requires fieldKey in a.fields
    requires additionalData.Some? == a.hasAdditionalData
    ensures events == FieldEvent(a, fieldKey)
    ensures additionalDataAfter ==
              if additionalData.Some? && fieldKey !in a.deserializers
              then Some(additionalData.value[fieldKey := a.fields[fieldKey]])
              else additionalData
  {
    var fieldValue := a.fields[fieldKey];
    events := [];
    additionalDataAfter := additionalData;
    if fieldKey in a.deserializers {
      var child := ChildNode(fieldValue, a.onBefore, a.onAfter);
      events := [Deserialize(fieldKey, a.deserializers[fieldKey], child)];
    } else if additionalDataAfter.Some? {
      additionalDataAfter := Some(additionalDataAfter.value[fieldKey := fieldValue]);
      events := [StoreAdditionalData(fieldKey, fieldValue)];
    }
  }

  // ---------------------------------------------------------------------------

  /** One turn of the constructor's loop: the `=`-parts of one `&`-segment
      added to the fields read so far. */
  method AddKeyValue(fields: map<string, string>, kv: string) returns (r: Result<map<string, string>>)
    ensures r == AddSegment(fields, ClassifySegment(kv))
  {
    var split := Split(kv, '=');
    if |split| == 0 {
      return Err(ArrayIndexOutOfBoundsException);
    }
    var key := SanitizeKey(split[0]);
    r := Ok(fields);
    if |split| == 2 {
      if key in fields {
        // the source concatenates ("," + value) and drops the result
      } else {
        r := Ok(fields[key := Trim(split[1])]);
      }
    }
  }

  /** The constructor's loop over the `&`-segments, in order. */
  method AddEachSegment(segments: seq<string>) returns (r: Result<map<string, string>>)
    ensures r == Collect(Classify(segments))
  {
    ghost var classes := Classify(segments);
    var fields: map<string, string> := map[];
    var i := 0;
    while i < |segments|
      invariant 0 <= i <= |segments|
      invariant Collect(classes[..i]) == Ok(fields)
    {
      var next := AddKeyValue(fields, segments[i]);
      CollectNext(segments, i, fields);
      if next.Err? {
        CollectErrSticky(classes, i + 1);
        return next;
      }
      fields := next.value;
      i := i + 1;
    }
    assert classes[..i] == classes;
    r := Ok(fields);
  }

  class FormParseNode {
    const rawStringValue: string
    const fields: map<string, string>
    var onBeforeAssignFieldValues: Option<Hook>
    var onAfterAssignFieldValues: Option<Hook>

    /** The fields are those of the raw text. */
    ghost predicate Valid() {
      ParseFields(rawStringValue) == Ok(fields)
    }

    constructor FromFields(rawString: string, parsed: map<string, string>)
      requires ParseFields(rawString) == Ok(parsed)
      ensures Valid() && rawStringValue == rawString && fields == parsed
      ensures onBeforeAssignFieldValues == None && onAfterAssignFieldValues == None
    {
      rawStringValue := rawString;
      fields := parsed;
      onBeforeAssignFieldValues := None;
      onAfterAssignFieldValues := None;
    }

    /** `new FormParseNode(rawString)`: splits the text on `&`, each segment on
        `=`, and records the trimmed key and value of each two-part segment,
        keeping the first value of a repeated key. */
    static method Parse(rawString: string) returns (r: Result<FormParseNode>)
      ensures r.Err? <==> ParseFields(rawString).Err?
      ensures r.Err? ==> r.error == ArrayIndexOutOfBoundsException
      ensures r.Ok? ==> fresh(r.value) && r.value.Valid() && r.value.rawStringValue == rawString
      ensures r.Ok? ==> r.value.onBeforeAssignFieldValues == None && r.value.onAfterAssignFieldValues == None
    {
      var fields := AddEachSegment(Split(rawString, '&'));
      if fields.Err? {
        return Err(fields.error);
      }
      var node := new FormParseNode.FromFields(rawString, fields.value);
      r := Ok(node);
    }

    method SetOnBeforeAssignFieldValues(value: Option<Hook>)
      modifies this
      ensures onBeforeAssignFieldValues == value
      ensures onAfterAssignFieldValues == old(onAfterAssignFieldValues)
    {
      onBeforeAssignFieldValues := value;
    }

    method SetOnAfterAssignFieldValues(value: Option<Hook>)
      modifies this
      ensures onAfterAssignFieldValues == value
      ensures onBeforeAssignFieldValues == old(onBeforeAssignFieldValues)
    {
      onAfterAssignFieldValues := value;
    }

    /** A node for a field's text that carries the given hooks. */
    static method NewChild(text: string, onBefore: Option<Hook>, onAfter: Option<Hook>) returns (child: FormParseNode)
      requires ParseFields(text) == Ok(map[])
      ensures fresh(child) && child.Valid() && child.rawStringValue == text && child.fields == map[]
      ensures child.onBeforeAssignFieldValues == onBefore && child.onAfterAssignFieldValues == onAfter
    {
      var result := Parse(text);
      child := result.value;
      child.SetOnBeforeAssignFieldValues(onBefore);
      child.SetOnAfterAssignFieldValues(onAfter);
    }

    /** getChildNode: the node for the field named by the trimmed identifier,
        carrying this node's hooks, or null when there is no such field. */
    method GetChildNode(identifier: string) returns (child: FormParseNode?)
      requires Valid()
      ensures child != null <==> SanitizeKey(identifier) in fields
      ensures child != null ==>
                && fresh(child) && child.Valid()
                && child.rawStringValue == fields[SanitizeKey(identifier)]
                && child.fields == map[]
                && child.onBeforeAssignFieldValues == onBeforeAssignFieldValues
                && child.onAfterAssignFieldValues == onAfterAssignFieldValues
    {
      var key := SanitizeKey(identifier);
      if key in fields {
        ChildHasNoFields(rawStringValue, key);
        child := NewChild(fields[key], onBeforeAssignFieldValues, onAfterAssignFieldValues);
      } else {
        child := null;
      }
    }

    /** getObjectValue for the item the factory built from this node, with the
        item's deserializer table and its additional-data bag, if it has one.
        Without fields nothing happens. Otherwise the before hook runs, then
        every field is handled once in some order, then the after hook. */
    method GetObjectValue<P, D>(item: P, deserializers: map<string, D>, additionalData: Option<map<string, string>>)
      returns (events: seq<AssignEvent<P, D>>, additionalDataAfter: Option<map<string, string>>)
      ensures fields == map[] ==> events == [] && additionalDataAfter == additionalData
      ensures fields != map[] ==>
                exists order :: IsOrdering(order, fields.Keys)
                  && events == BeforeEvents(onBeforeAssignFieldValues, item)
                               + FieldEvents(AssignInputs(fields, deserializers, additionalData.Some?,
                                                          onBeforeAssignFieldValues, onAfterAssignFieldValues), order)
                               + AfterEvents(onAfterAssignFieldValues, item)
      ensures additionalDataAfter ==
                if additionalData.Some?
                then Some(additionalData.value
                          + AdditionalData(AssignInputs(fields, deserializers, true,
                                                        onBeforeAssignFieldValues, onAfterAssignFieldValues)))
                else None
    {
      events := [];
      additionalDataAfter := additionalData;
      if |fields| == 0 {
        assert fields.Keys == {};
        assert AdditionalData(AssignInputs(fields, deserializers, true,
                                           onBeforeAssignFieldValues, onAfterAssignFieldValues)) == map[];
        assert additionalData.Some? ==> additionalData.value + map[] == additionalData.value;
        return;
      }
      var a := AssignInputs(fields, deserializers, additionalData.Some?,
                            onBeforeAssignFieldValues, onAfterAssignFieldValues);
      var fieldEvents;
      fieldEvents, additionalDataAfter := AssignEachField(a, additionalData);
      events := BeforeEvents(onBeforeAssignFieldValues, item) + fieldEvents + AfterEvents(onAfterAssignFieldValues, item);
      assert AdditionalData(a) == AdditionalData(AssignInputs(fields, deserializers, true,
                                                              onBeforeAssignFieldValues, onAfterAssignFieldValues));
    }
  }
}
