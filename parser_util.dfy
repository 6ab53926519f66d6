/**
 * The text-to-value parsers used by the command parsers. Every parser either
 * yields a value or fails with the reason the Java `ParserUtil` reports.
 *
 * The validity rules of the field types (Name, Phone, Email, Address, Tag) and
 * `StringUtil.isNonZeroUnsignedInteger` are not part of this model: each parser
 * takes its rule as a parameter, so everything proved here holds whatever the rule is.
 */
module ParserUtil {
  import opened Wrappers
  import opened JavaText
  import opened Students
  import opened Indexes

  /**
   * Why a parse failed. The first ten are the Java code's `ParseException`
   * messages; the last three stand for the Java runtime exceptions the code
   * lets escape (`NumberFormatException`, `DateTimeException`,
   * `IndexOutOfBoundsException`).
   */
  datatype ParseFailure =
    | InvalidIndex
    | NameConstraints
    | PhoneConstraints
    | EmailConstraints
    | AddressConstraints
    | TagConstraints
    | DescriptionEmpty
    | DescriptionTooLong
    | InvalidDayOfWeek
    | Not24HourFormat
    | NumberFormat
    | DateTimeOutOfRange
    | IndexOutOfBounds
  {
    predicate IsParseException() {
      !(NumberFormat? || DateTimeOutOfRange? || IndexOutOfBounds?)
    }
  }

  /** The validity rule of one field type. */
  type Rule = string -> bool

  // ---------------------------------------------------------------- index

  /** `parseIndex`: trim, check the rule, then `Integer.parseInt` and `Index.fromOneBased`. */
  function ParseIndex(isNonZeroUnsignedInteger: Rule, oneBasedIndex: string): (r: Result<Index, ParseFailure>)
    ensures r == Err(InvalidIndex) <==> !isNonZeroUnsignedInteger(Trim(oneBasedIndex))
    ensures r.Ok? ==> ParseInt(Trim(oneBasedIndex)) == Some(r.value.OneBased())
  {
    var trimmed := Trim(oneBasedIndex);
    if !isNonZeroUnsignedInteger(trimmed) then Err(InvalidIndex)
    else
      match ParseInt(trimmed)
      case None => Err(NumberFormat)
      case Some(v) =>
        match FromOneBased(v)
        case None => Err(IndexOutOfBounds)
        case Some(index) => Ok(index)
  }

  /** What "a non-zero unsigned integer" means for a string that `Integer.parseInt` must also accept. */
  predicate IsNonZeroUnsignedInteger(s: string) {
    |s| > 0 && AllDigits(s) && 0 < DecimalValue(s) <= IntMax
  }

  /**
   * With that rule, `parseIndex` succeeds exactly on the (padded) non-zero
   * unsigned integers and yields the index whose one-based value is that
   * number; it never fails with anything but the invalid-index error.
   */
  lemma ParseIndexOfNonZeroUnsigned(oneBasedIndex: string)
    ensures var t := Trim(oneBasedIndex);
      ParseIndex(IsNonZeroUnsignedInteger, oneBasedIndex)
        == if IsNonZeroUnsignedInteger(t) then Ok(Index(DecimalValue(t) - 1)) else Err(InvalidIndex)
  {
    var t := Trim(oneBasedIndex);
    if IsNonZeroUnsignedInteger(t) {
      ParseIntDigits(t);
    }
  }

  // ---------------------------------------------------------------- field values

  /** The trimmed input when it satisfies the rule: the shared core of the field parsers. */
  function TrimmedIfValid(isValid: Rule, raw: string): (r: Option<string>)
    ensures r.Some? <==> isValid(Trim(raw))
    ensures r.Some? ==> r.value == Trim(raw) && Trim(r.value) == r.value && isValid(r.value)
  {
    TrimIdempotent(raw);
    var trimmed := Trim(raw);
    if isValid(trimmed) then Some(trimmed) else None
  }

  function ParseName(isValidName: Rule, name: string): (r: Result<Name, ParseFailure>)
    ensures r.Ok? <==> isValidName(Trim(name))
    ensures r.Ok? ==> r.value.fullName == Trim(name) && isValidName(r.value.fullName)
    ensures r.Err? ==> r.error == NameConstraints
  {
    match TrimmedIfValid(isValidName, name)
    case Some(t) => Ok(Name(t))
    case None => Err(NameConstraints)
  }

  function ParsePhone(isValidPhone: Rule, phone: string): (r: Result<Phone, ParseFailure>)
    ensures r.Ok? <==> isValidPhone(Trim(phone))
    ensures r.Ok? ==> r.value.value == Trim(phone) && isValidPhone(r.value.value)
    ensures r.Err? ==> r.error == PhoneConstraints
  {
    match TrimmedIfValid(isValidPhone, phone)
    case Some(t) => Ok(Phone(t))
    case None => Err(PhoneConstraints)
  }

  function ParseAddress(isValidAddress: Rule, address: string): (r: Result<Address, ParseFailure>)
    ensures r.Ok? <==> isValidAddress(Trim(address))
    ensures r.Ok? ==> r.value.value == Trim(address) && isValidAddress(r.value.value)
    ensures r.Err? ==> r.error == AddressConstraints
  {
    match TrimmedIfValid(isValidAddress, address)
    case Some(t) => Ok(Address(t))
    case None => Err(AddressConstraints)
  }

  function ParseEmail(isValidEmail: Rule, email: string): (r: Result<Email, ParseFailure>)
    ensures r.Ok? <==> isValidEmail(Trim(email))
    ensures r.Ok? ==> r.value.value == Trim(email) && isValidEmail(r.value.value)
    ensures r.Err? ==> r.error == EmailConstraints
  {
    match TrimmedIfValid(isValidEmail, email)
    case Some(t) => Ok(Email(t))
    case None => Err(EmailConstraints)
  }

  function ParseTag(isValidTagName: Rule, tag: string): (r: Result<Tag, ParseFailure>)
    ensures r.Ok? <==> isValidTagName(Trim(tag))
    ensures r.Ok? ==> r.value.tagName == Trim(tag) && isValidTagName(r.value.tagName)
    ensures r.Err? ==> r.error == TagConstraints
  {
    match TrimmedIfValid(isValidTagName, tag)
    case Some(t) => Ok(Tag(t))
    case None => Err(TagConstraints)
  }

  /** Parsing the string a parsed field value holds gives that value back, for every field type. */
  lemma FieldParsersRoundTrip(rule: Rule, raw: string)
    ensures ParseName(rule, raw).Ok? ==> ParseName(rule, ParseName(rule, raw).value.fullName) == ParseName(rule, raw)
    ensures ParsePhone(rule, raw).Ok? ==> ParsePhone(rule, ParsePhone(rule, raw).value.value) == ParsePhone(rule, raw)
    ensures ParseAddress(rule, raw).Ok? ==> ParseAddress(rule, ParseAddress(rule, raw).value.value) == ParseAddress(rule, raw)
    ensures ParseEmail(rule, raw).Ok? ==> ParseEmail(rule, ParseEmail(rule, raw).value.value) == ParseEmail(rule, raw)
    ensures ParseTag(rule, raw).Ok? ==> ParseTag(rule, ParseTag(rule, raw).value.tagName) == ParseTag(rule, raw)
  {
    TrimIdempotent(raw);
  }

  /** Surrounding whitespace never changes what a field parser yields. */
  lemma FieldParsersIgnorePadding(rule: Rule, pre: string, raw: string, post: string)
    requires AllTrimmable(pre) && AllTrimmable(post)
    ensures ParseName(rule, pre + raw + post) == ParseName(rule, raw)
    ensures ParsePhone(rule, pre + raw + post) == ParsePhone(rule, raw)
    ensures ParseAddress(rule, pre + raw + post) == ParseAddress(rule, raw)
    ensures ParseEmail(rule, pre + raw + post) == ParseEmail(rule, raw)
    ensures ParseTag(rule, pre + raw + post) == ParseTag(rule, raw)
    ensures ParseIndex(rule, pre + raw + post) == ParseIndex(rule, raw)
  {
    TrimIgnoresPadding(pre, raw, post);
  }

  // ---------------------------------------------------------------- tags

  /** The tags whose names are the trimmed inputs. */
  function TrimmedTags(tagNames: seq<string>): set<Tag>
    decreases |tagNames|
  {
    if |tagNames| == 0 then {}
    else TrimmedTags(tagNames[..|tagNames| - 1]) + {Tag(Trim(tagNames[|tagNames| - 1]))}
  }

  /** What `parseTags` yields: the set of parsed tags when every input parses, else the tag error. */
  function TagSetOf(isValidTagName: Rule, tagNames: seq<string>): Result<set<Tag>, ParseFailure> {
    if forall k :: 0 <= k < |tagNames| ==> isValidTagName(Trim(tagNames[k])) then Ok(TrimmedTags(tagNames))
    else Err(TagConstraints)
  }

  /** `parseTags`: parse each name in turn into a growing set; the first invalid one aborts. */
  method ParseTags(isValidTagName: Rule, tags: seq<string>) returns (r: Result<set<Tag>, ParseFailure>)
    ensures r == TagSetOf(isValidTagName, tags)
  {
    var tagSet: set<Tag> := {};
    for i := 0 to |tags|
      invariant forall k :: 0 <= k < i ==> isValidTagName(Trim(tags[k]))
      invariant tagSet == TrimmedTags(tags[..i])
    {
      var tag := ParseTag(isValidTagName, tags[i]);
      if tag.Err? {
        return Err(tag.error);
      }
      assert tags[..i + 1][..i] == tags[..i];
      tagSet := tagSet + {tag.value};
    }
    assert tags[..|tags|] == tags;
    return Ok(tagSet);
  }

  lemma {:induction false} TrimmedTagsMembers(tagNames: seq<string>, t: Tag)
    ensures t in TrimmedTags(tagNames) <==> exists k :: 0 <= k < |tagNames| && t == Tag(Trim(tagNames[k]))
    decreases |tagNames|
  {
    if |tagNames| > 0 {
      var init := tagNames[..|tagNames| - 1];
      TrimmedTagsMembers(init, t);
      if t in TrimmedTags(init) {
        var k :| 0 <= k < |init| && t == Tag(Trim(init[k]));
        assert tagNames[k] == init[k];
      }
      if exists k :: 0 <= k < |tagNames| && t == Tag(Trim(tagNames[k])) {
        var k :| 0 <= k < |tagNames| && t == Tag(Trim(tagNames[k]));
        if k < |init| {
          assert init[k] == tagNames[k];
        }
      }
    }
  }

  lemma {:induction false} TrimmedTagsSize(tagNames: seq<string>)
    ensures |TrimmedTags(tagNames)| <= |tagNames|
    decreases |tagNames|
  {
    if |tagNames| > 0 {
      TrimmedTagsSize(tagNames[..|tagNames| - 1]);
    }
  }

  /**
   * `parseTags` succeeds iff every input parses as a tag; its result is then the
   * set of the parsed tags, which has at most as many elements as there were
   * inputs (equal names collapse).
   */
  lemma TagSetOfMeaning(isValidTagName: Rule, tagNames: seq<string>)
    ensures TagSetOf(isValidTagName, tagNames).Ok?
      <==> forall k :: 0 <= k < |tagNames| ==> ParseTag(isValidTagName, tagNames[k]).Ok?
    ensures TagSetOf(isValidTagName, tagNames).Err? ==> TagSetOf(isValidTagName, tagNames).error == TagConstraints
    ensures TagSetOf(isValidTagName, tagNames).Ok? ==>
      && (forall t :: t in TagSetOf(isValidTagName, tagNames).value
            <==> exists k :: 0 <= k < |tagNames| && t == ParseTag(isValidTagName, tagNames[k]).value)
      && |TagSetOf(isValidTagName, tagNames).value| <= |tagNames|
  {
    if TagSetOf(isValidTagName, tagNames).Ok? {
      forall t ensures t in TrimmedTags(tagNames)
        <==> exists k :: 0 <= k < |tagNames| && t == ParseTag(isValidTagName, tagNames[k]).value
      {
        TrimmedTagsMembers(tagNames, t);
      }
      TrimmedTagsSize(tagNames);
    }
  }

  // ---------------------------------------------------------------- description

  const MaxDescriptionLength: nat := 100

  /** `parseDescription`: the trimmed text, which must hold between 1 and 100 characters. */
  function ParseDescription(description: string): (r: Result<string, ParseFailure>)
    ensures r.Ok? <==> 1 <= |Trim(description)| <= MaxDescriptionLength
    ensures r.Ok? ==> r.value == Trim(description)
    ensures r.Err? ==> r.error == if Trim(description) == [] then DescriptionEmpty else DescriptionTooLong
  {
    var trimmed := Trim(description);
    if |trimmed| == 0 then Err(DescriptionEmpty)
    else if |trimmed| > MaxDescriptionLength then Err(DescriptionTooLong)
    else Ok(trimmed)
  }

  /** A parsed description parses to itself. */
  lemma DescriptionRoundTrip(description: string)
    requires ParseDescription(description).Ok?
    ensures ParseDescription(ParseDescription(description).value) == ParseDescription(description)
  {
    TrimIdempotent(description);
  }

  // ---------------------------------------------------------------- day of week

  datatype DayOfWeek = Monday | Tuesday | Wednesday | Thursday | Friday | Saturday | Sunday

  /** The lower-case English name `parseDayOfWeek` matches for each day. */
  function DayName(d: DayOfWeek): string {
    match d
    case Monday => "monday"
    case Tuesday => "tuesday"
    case Wednesday => "wednesday"
    case Thursday => "thursday"
    case Friday => "friday"
    case Saturday => "saturday"
    case Sunday => "sunday"
  }

  /**
   * `parseDayOfWeek`: the input, lower-cased and NOT trimmed, must be exactly
   * one of the seven full day names.
   */
  function ParseDayOfWeek(day: string): (r: Result<DayOfWeek, ParseFailure>)
    ensures r.Ok? ==> ToLowerCase(day) == DayName(r.value)
    ensures r.Ok? <==> exists d :: ToLowerCase(day) == DayName(d)
    ensures r.Err? ==> r.error == InvalidDayOfWeek
  {
    var lower := ToLowerCase(day);
    if lower == "monday" then Ok(Monday)
    else if lower == "tuesday" then Ok(Tuesday)
    else if lower == "wednesday" then Ok(Wednesday)
    else if lower == "thursday" then Ok(Thursday)
    else if lower == "friday" then Ok(Friday)
    else if lower == "saturday" then Ok(Saturday)
    else if lower == "sunday" then Ok(Sunday)
    else
      assert forall d :: lower != DayName(d);
      Err(InvalidDayOfWeek)
  }

  /** Each day is recognised by its own name and by no other day's. */
  lemma ParseDayOfWeekExact(day: string, d: DayOfWeek)
    ensures ParseDayOfWeek(day) == Ok(d) <==> ToLowerCase(day) == DayName(d)
  {
  }

  /** The leading space that the doc comment says is trimmed makes the parse fail. */
  lemma DayOfWeekNotTrimmed()
    ensures ParseDayOfWeek(" monday") == Err(InvalidDayOfWeek)
  {
    assert ToLowerCase(" monday")[0] == ' ';
    assert |ToLowerCase(" monday")| == 7;
  }

  /** The day parser trimming its input first, as its doc comment promises. */
  function ParseDayOfWeekTrimmed(day: string): (r: Result<DayOfWeek, ParseFailure>)
    ensures r.Ok? <==> exists d :: ToLowerCase(Trim(day)) == DayName(d)
    ensures r.Ok? ==> ToLowerCase(Trim(day)) == DayName(r.value)
    ensures r.Err? ==> r.error == InvalidDayOfWeek
  {
    ParseDayOfWeek(Trim(day))
  }

  /** The trimming day parser accepts a day name with any surrounding whitespace. */
  lemma ParseDayOfWeekTrimmedIgnoresPadding(pre: string, day: string, post: string)
    requires AllTrimmable(pre) && AllTrimmable(post)
    ensures ParseDayOfWeekTrimmed(pre + day + post) == ParseDayOfWeek(Trim(day))
  {
    TrimIgnoresPadding(pre, day, post);
  }

  // ---------------------------------------------------------------- time of day

  datatype LocalTime = LocalTime(hour: int, minute: int, second: int)

  /** `LocalTime.of`: a `DateTimeException` unless every part is in range. */
  function LocalTimeOf(hour: int, minute: int, second: int): (r: Result<LocalTime, ParseFailure>)
    ensures r.Ok? <==> 0 <= hour <= 23 && 0 <= minute <= 59 && 0 <= second <= 59
    ensures r.Ok? ==> r.value == LocalTime(hour, minute, second)
    ensures r.Err? ==> r.error == DateTimeOutOfRange
  {
    if 0 <= hour <= 23 && 0 <= minute <= 59 && 0 <= second <= 59 then Ok(LocalTime(hour, minute, second))
    else Err(DateTimeOutOfRange)
  }

  /**
   * `parseLocalTime` as written: trim, require four characters, compare the two
   * halves as STRINGS against "23" and "59", then `Integer.parseInt` each half
   * and build the time with `LocalTime.of`.
   */
  function ParseLocalTime(time: string): (r: Result<LocalTime, ParseFailure>)
    ensures |Trim(time)| != 4 ==> r == Err(Not24HourFormat)
    ensures r.Ok? ==> 0 <= r.value.hour <= 23 && 0 <= r.value.minute <= 59 && r.value.second == 0
  {
    var trimmed := Trim(time);
    if |trimmed| != 4 then Err(Not24HourFormat)
    else
      var hour := trimmed[..2];
      var minute := trimmed[2..];
      if CompareTo(hour, "23") > 0 || CompareTo(minute, "59") > 0 then Err(Not24HourFormat)
      else if ParseInt(hour).None? || ParseInt(minute).None? then Err(NumberFormat)
      else LocalTimeOf(ParseInt(hour).value, ParseInt(minute).value, 0)
  }

  /**
   * On four digits HHMM the string comparisons agree with numeric ones:
   * the parse succeeds iff HH <= 23 and MM <= 59, with the time HH:MM:00.
   */
  lemma ParseLocalTimeOfDigits(time: string)
    requires |Trim(time)| == 4 && AllDigits(Trim(time))
    ensures var t := Trim(time);
      var hh, mm := DecimalValue(t[..2]), DecimalValue(t[2..]);
      ParseLocalTime(time) == if hh <= 23 && mm <= 59 then Ok(LocalTime(hh, mm, 0)) else Err(Not24HourFormat)
  {
    var t := Trim(time);
    var hour, minute := t[..2], t[2..];
    assert AllDigits(hour) && AllDigits(minute);
    DigitPairValue("23");
    DigitPairValue("59");
    TwoDigitCompareIsNumeric(hour, "23");
    TwoDigitCompareIsNumeric(minute, "59");
    DigitPairValue(hour);
    DigitPairValue(minute);
    ParseIntDigits(hour);
    ParseIntDigits(minute);
  }

  lemma DigitPairValue(s: string)
    requires |s| == 2 && AllDigits(s)
    ensures DecimalValue(s) == DigitValue(s[0]) * 10 + DigitValue(s[1]) <= 99
  {
    assert DecimalValue(s[..1]) == DigitValue(s[0]) by { assert s[..1][..0] == []; }
  }

  /** A sign passes the string comparison and `Integer.parseInt` accepts it: "+130" is read as 01:30. */
  lemma ParseLocalTimeAcceptsSign()
    ensures ParseLocalTime("+130") == Ok(LocalTime(1, 30, 0))
  {
    var t := "+130";
    assert Trim(t) == t by {
      assert TrimStart(t) == t;
      assert TrimEnd(t) == t;
    }
    assert t[..2] == "+1" && t[2..] == "30";
    assert CompareTo("+1", "23") < 0;
    assert CompareTo("30", "23") > 0 by { TwoDigitCompareIsNumeric("30", "23"); DigitPairValue("30"); DigitPairValue("23"); }
  }

  /** A letter in the hour passes the string comparison and escapes as a `NumberFormatException`. */
  lemma ParseLocalTimeLetterEscapes()
    ensures ParseLocalTime("1a00") == Err(NumberFormat)
  {
    var t := "1a00";
    assert Trim(t) == t by {
      assert TrimStart(t) == t;
      assert TrimEnd(t) == t;
    }
    assert t[..2] == "1a" && t[2..] == "00";
    assert CompareTo("1a", "23") < 0;
    assert CompareTo("00", "59") < 0;
    assert "1a"[1] == 'a' && !IsDigit('a');
    assert !AllDigits("1a");
  }

  /** A negative hour passes the string comparison and escapes as a `DateTimeException`. */
  lemma ParseLocalTimeNegativeEscapes()
    ensures ParseLocalTime("-100") == Err(DateTimeOutOfRange)
  {
    var t := "-100";
    assert Trim(t) == t by {
      assert TrimStart(t) == t;
      assert TrimEnd(t) == t;
    }
    assert t[..2] == "-1" && t[2..] == "00";
    assert CompareTo("-1", "23") < 0;
    assert CompareTo("00", "59") < 0;
    assert DecimalValue("-1"[1..]) == 1 by { assert "-1"[1..] == "1"; assert "1"[..0] == []; }
    assert ParseInt("-1") == Some(-1);
    ParseIntDigits("00");
    DigitPairValue("00");
  }

  /**
   * The time parser its doc comment describes: exactly four digits HHMM, read
   * as numbers, with HH <= 23 and MM <= 59; every other input fails with the
   * 24-hour-format error.
   */
  function ParseLocalTimeStrict(time: string): (r: Result<LocalTime, ParseFailure>)
    ensures r.Err? ==> r.error == Not24HourFormat
    ensures r.Ok? <==> var t := Trim(time);
      |t| == 4 && AllDigits(t) && DecimalValue(t[..2]) <= 23 && DecimalValue(t[2..]) <= 59
    ensures r.Ok? ==> var t := Trim(time);
      r.value == LocalTime(DecimalValue(t[..2]), DecimalValue(t[2..]), 0)
  {
    var trimmed := Trim(time);
    if |trimmed| != 4 || !AllDigits(trimmed) then Err(Not24HourFormat)
    else
      var hour, minute := DecimalValue(trimmed[..2]), DecimalValue(trimmed[2..]);
      if hour <= 23 && minute <= 59 then Ok(LocalTime(hour, minute, 0)) else Err(Not24HourFormat)
  }

  /** On digit input the strict parser and the Java `parseLocalTime` agree; they differ only on non-digits. */
  lemma ParseLocalTimeStrictAgreesOnDigits(time: string)
    requires AllDigits(Trim(time))
    ensures ParseLocalTimeStrict(time) == ParseLocalTime(time)
  {
    if |Trim(time)| == 4 {
      ParseLocalTimeOfDigits(time);
    }
  }

  /** The strict parser rejects the signed input that the Java `parseLocalTime` accepts. */
  lemma ParseLocalTimeStrictRejectsSign()
    ensures ParseLocalTimeStrict("+130") == Err(Not24HourFormat)
  {
    var t := "+130";
    assert Trim(t) == t by {
      assert TrimStart(t) == t;
      assert TrimEnd(t) == t;
    }
    assert !IsDigit(t[0]);
  }
}
