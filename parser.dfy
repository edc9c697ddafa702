/**
 * ParserUtil: the helpers that turn user-typed strings into value objects.
 * Most of them trim and then validate the trimmed string; the helpers for
 * student ids, max marks, titles and scores validate the string as typed
 * and build the value from its trimmed form.
 */
module Parsing {
  import opened Results
  import opened JavaText
  import opened Entities
  import opened ScoreValue
  import opened MaxMarksValue

  /** `ParseException`, carrying its message. */
  datatype ParseError = ParseError(message: string)

  /** `MESSAGE_INVALID_INDEX`. */
  const InvalidIndexMessage := "Index is not a non-zero unsigned integer."

  /*
   * The constraint messages of the value types whose sources are not part of
   * this model: their text is arbitrary here.
   */
  const NameConstraints: string
  const PhoneConstraints: string
  const AddressConstraints: string
  const EmailConstraints: string
  const StudentIdConstraints: string
  const TitleConstraints: string
  const TagConstraints: string

  /** A position in a displayed list, stored zero-based as `Index` does. */
  datatype Index = Index(zeroBased: nat) {
    function OneBased(): nat {
      zeroBased + 1
    }
  }

  /** `Index.fromOneBased` for a positive number. */
  function FromOneBased(n: nat): (i: Index)
    requires n >= 1
    ensures i.OneBased() == n
  {
    Index(n - 1)
  }

  const MaxInt32 := 0x7fff_ffff

  /**
   * `StringUtil.isNonZeroUnsignedInteger`: a string of ASCII digits whose
   * value is positive and fits a Java `int`, so `Integer.parseInt` accepts it.
   */
  predicate IsNonZeroUnsignedInteger(s: string) {
    IsDigitString(s) && 0 < DecimalValue(s) <= MaxInt32
  }

  /** `parseIndex`: trims, then accepts exactly the non-zero unsigned integers. */
  function ParseIndex(oneBasedIndex: string): (r: Result<Index, ParseError>)
    ensures r.Ok? <==> IsNonZeroUnsignedInteger(Trim(oneBasedIndex))
    ensures r.Ok? ==> r.value.OneBased() == DecimalValue(Trim(oneBasedIndex))
    ensures r.Ok? ==> r.value.zeroBased < MaxInt32
    ensures r.Err? ==> r.error == ParseError(InvalidIndexMessage)
  {
    var trimmed := Trim(oneBasedIndex);
    if !IsNonZeroUnsignedInteger(trimmed) then Err(ParseError(InvalidIndexMessage))
    else Ok(FromOneBased(DecimalValue(trimmed)))
  }

  /** `parseName`: the trimmed string must be a valid name and becomes it. */
  function ParseName(name: string): (r: Result<Name, ParseError>)
    ensures r.Ok? <==> IsValidName(Trim(name))
    ensures r.Ok? ==> r.value.value == Trim(name)
    ensures r.Err? ==> r.error == ParseError(NameConstraints)
  {
    var trimmed := Trim(name);
    if !IsValidName(trimmed) then Err(ParseError(NameConstraints)) else Ok(Name(trimmed))
  }

  /** `parsePhone`: the trimmed string must be a valid phone number and becomes it. */
  function ParsePhone(phone: string): (r: Result<Phone, ParseError>)
    ensures r.Ok? <==> IsValidPhone(Trim(phone))
    ensures r.Ok? ==> r.value.value == Trim(phone)
    ensures r.Err? ==> r.error == ParseError(PhoneConstraints)
  {
    var trimmed := Trim(phone);
    if !IsValidPhone(trimmed) then Err(ParseError(PhoneConstraints)) else Ok(Phone(trimmed))
  }

  /** `parseAddress`: the trimmed string must be a valid address and becomes it. */
  function ParseAddress(address: string): (r: Result<Address, ParseError>)
    ensures r.Ok? <==> IsValidAddress(Trim(address))
    ensures r.Ok? ==> r.value.value == Trim(address)
    ensures r.Err? ==> r.error == ParseError(AddressConstraints)
  {
    var trimmed := Trim(address);
    if !IsValidAddress(trimmed) then Err(ParseError(AddressConstraints)) else Ok(Address(trimmed))
  }

  /** `parseEmail`: the trimmed string must be a valid email and becomes it. */
  function ParseEmail(email: string): (r: Result<Email, ParseError>)
    ensures r.Ok? <==> IsValidEmail(Trim(email))
    ensures r.Ok? ==> r.value.value == Trim(email)
    ensures r.Err? ==> r.error == ParseError(EmailConstraints)
  {
    var trimmed := Trim(email);
    if !IsValidEmail(trimmed) then Err(ParseError(EmailConstraints)) else Ok(Email(trimmed))
  }

  /** `parseTag`: the trimmed string must be a valid tag name and becomes it. */
  function ParseTag(tag: string): (r: Result<Tag, ParseError>)
    ensures r.Ok? <==> IsValidTagName(Trim(tag))
    ensures r.Ok? ==> r.value.tagName == Trim(tag)
    ensures r.Err? ==> r.error == ParseError(TagConstraints)
  {
    var trimmed := Trim(tag);
    if !IsValidTagName(trimmed) then Err(ParseError(TagConstraints)) else Ok(Tag(trimmed))
  }

  /** A valid student id holds only letters and digits, none of them trimmable. */
  lemma StudentIdHasNoTrimmable(s: string)
    requires IsValidStudentId(s)
    ensures HasNoTrimmable(s)
  {
    forall i | 0 <= i < |s| ensures !IsTrimmable(s[i]) {
      assert IsAsciiAlphanumeric(s[i]);
    }
  }

  /**
   * `parseStudentId`: the string as typed must be a valid id; the id is
   * built from the trimmed string, which for a valid id is the same string.
   */
  function ParseStudentId(studentId: string): (r: Result<StudentId, ParseError>)
    ensures r.Ok? <==> IsValidStudentId(studentId)
    ensures r.Ok? ==> r.value.value == studentId
    ensures r.Err? ==> r.error == ParseError(StudentIdConstraints)
  {
    var trimmed := Trim(studentId);
    if !IsValidStudentId(studentId) then Err(ParseError(StudentIdConstraints))
    else
      StudentIdHasNoTrimmable(studentId);
      Ok(StudentId(trimmed))
  }

  /**
   * `parseMaxMarks`: the string as typed must be all digits; the value is
   * built from the trimmed string, which for a digit string is the same string.
   */
  function ParseMaxMarks(maxMarks: string): (r: Result<MaxMarks, ParseError>)
    ensures r.Ok? <==> IsValidMaxMarks(maxMarks)
    ensures r.Ok? ==> r.value.value == maxMarks
    ensures r.Err? ==> r.error == ParseError(MaxMarksConstraints)
  {
    var trimmed := Trim(maxMarks);
    if !IsValidMaxMarks(maxMarks) then Err(ParseError(MaxMarksConstraints))
    else
      TrimDigitString(maxMarks);
      Ok(MaxMarks(trimmed))
  }

  /** `parseTitle`: the string as typed must be a valid title; the title is the trimmed string. */
  function ParseTitle(title: string): (r: Result<Title, ParseError>)
    ensures r.Ok? <==> IsValidTitle(title)
    ensures r.Ok? ==> r.value.value == Trim(title)
    ensures r.Err? ==> r.error == ParseError(TitleConstraints)
  {
    var trimmed := Trim(title);
    if !IsValidTitle(title) then Err(ParseError(TitleConstraints)) else Ok(Title(trimmed))
  }

  /**
   * `parseScore`: the string as typed must be all digits; the score is built
   * from the trimmed string, which for a digit string is the same string.
   */
  function ParseScore(score: string): (r: Result<Score, ParseError>)
    ensures r.Ok? <==> IsValidScore(score)
    ensures r.Ok? ==> r.value.value == score
    ensures r.Err? ==> r.error == ParseError(ScoreConstraints)
  {
    var trimmed := Trim(score);
    if !IsValidScore(score) then Err(ParseError(ScoreConstraints))
    else
      TrimDigitString(score);
      Ok(Score(trimmed))
  }

  /** `parseFeedback`: never fails; the feedback is the input with its padding removed. */
  function ParseFeedback(feedback: string): (r: Feedback)
    ensures r.value == [] || (!IsTrimmable(r.value[0]) && !IsTrimmable(r.value[|r.value| - 1]))
    ensures forall k :: 0 <= k < TrimStartIndex(feedback) ==> IsTrimmable(feedback[k])
    ensures r.value <= feedback[TrimStartIndex(feedback)..]
    ensures forall k :: TrimStartIndex(feedback) + |r.value| <= k < |feedback| ==> IsTrimmable(feedback[k])
  {
    Feedback(Trim(feedback))
  }

  /** `parseTutorialGroupName`: never fails; the input with its padding removed. */
  function ParseTutorialGroupName(tgName: string): (r: string)
    ensures r == [] || (!IsTrimmable(r[0]) && !IsTrimmable(r[|r| - 1]))
    ensures forall k :: 0 <= k < TrimStartIndex(tgName) ==> IsTrimmable(tgName[k])
    ensures r <= tgName[TrimStartIndex(tgName)..]
    ensures forall k :: TrimStartIndex(tgName) + |r| <= k < |tgName| ==> IsTrimmable(tgName[k])
  {
    Trim(tgName)
  }

  /** `parseTutorialGroupId`: never fails; the input with its padding removed. */
  function ParseTutorialGroupId(tgId: string): (r: string)
    ensures r == [] || (!IsTrimmable(r[0]) && !IsTrimmable(r[|r| - 1]))
    ensures forall k :: 0 <= k < TrimStartIndex(tgId) ==> IsTrimmable(tgId[k])
    ensures r <= tgId[TrimStartIndex(tgId)..]
    ensures forall k :: TrimStartIndex(tgId) + |r| <= k < |tgId| ==> IsTrimmable(tgId[k])
  {
    Trim(tgId)
  }

  /** `parseString`: never fails; the input with its padding removed. */
  function ParseString(str: string): (r: string)
    ensures r == [] || (!IsTrimmable(r[0]) && !IsTrimmable(r[|r| - 1]))
    ensures forall k :: 0 <= k < TrimStartIndex(str) ==> IsTrimmable(str[k])
    ensures r <= str[TrimStartIndex(str)..]
    ensures forall k :: TrimStartIndex(str) + |r| <= k < |str| ==> IsTrimmable(str[k])
  {
    Trim(str)
  }

  /**
   * `parseTags`: every string must parse as a tag; the result is the set of
   * the parsed tags, so strings that trim to the same name give one tag.
   */
  method ParseTags(tags: seq<string>) returns (r: Result<set<Tag>, ParseError>)
    ensures r.Ok? <==> forall i :: 0 <= i < |tags| ==> ParseTag(tags[i]).Ok?
    ensures r.Ok? ==> r.value == set i | 0 <= i < |tags| :: Tag(Trim(tags[i]))
    ensures r.Err? ==> r.error == ParseError(TagConstraints)
  {
    var tagSet: set<Tag> := {};
    var i := 0;
    while i < |tags|
      invariant 0 <= i <= |tags|
      invariant forall k :: 0 <= k < i ==> ParseTag(tags[k]).Ok?
      invariant tagSet == set k | 0 <= k < i :: Tag(Trim(tags[k]))
    {
      var tag := ParseTag(tags[i]);
      if tag.Err? {
        return Err(tag.error);
      }
      tagSet := tagSet + {tag.value};
      i := i + 1;
    }
    r := Ok(tagSet);
  }

  // Properties of the helpers.

  /** Parsing the stored string of an id gives back the same id. */
  lemma StudentIdRoundTrip(id: StudentId)
    ensures ParseStudentId(id.value) == Ok(id)
  {
  }

  /** Parsing the rendered form of a score gives back the same score. */
  lemma ScoreRoundTrip(s: Score)
    ensures ParseScore(ScoreValue.ToString(s)) == Ok(s)
  {
  }

  /** Parsing the stored string of a maximum gives back the same maximum. */
  lemma MaxMarksRoundTrip(m: MaxMarks)
    ensures ParseMaxMarks(m.value) == Ok(m)
  {
  }

  /**
   * The trim-then-validate helpers ignore padding: a blank char added at
   * either end of the input leaves the outcome unchanged.
   */
  lemma TrimThenValidateIgnoresPadding(raw: string, c: char)
    requires IsTrimmable(c)
    ensures ParseName([c] + raw) == ParseName(raw) && ParseName(raw + [c]) == ParseName(raw)
    ensures ParsePhone([c] + raw) == ParsePhone(raw) && ParsePhone(raw + [c]) == ParsePhone(raw)
    ensures ParseAddress([c] + raw) == ParseAddress(raw) && ParseAddress(raw + [c]) == ParseAddress(raw)
    ensures ParseEmail([c] + raw) == ParseEmail(raw) && ParseEmail(raw + [c]) == ParseEmail(raw)
    ensures ParseTag([c] + raw) == ParseTag(raw) && ParseTag(raw + [c]) == ParseTag(raw)
    ensures ParseIndex([c] + raw) == ParseIndex(raw) && ParseIndex(raw + [c]) == ParseIndex(raw)
  {
    TrimIgnoresLeadingPad(raw, c);
    TrimIgnoresTrailingPad(raw, c);
  }

  /**
   * The validate-then-trim helpers for ids, scores and maxima reject padding:
   * any blank char anywhere in the input makes them fail, although the same
   * input without it may parse.
   */
  lemma ValidateUntrimmedRejectsPadding(raw: string, k: nat)
    requires k < |raw| && IsTrimmable(raw[k])
    ensures ParseStudentId(raw).Err?
    ensures ParseScore(raw).Err?
    ensures ParseMaxMarks(raw).Err?
  {
    assert !IsAsciiAlphanumeric(raw[k]) && !IsAsciiDigit(raw[k]);
  }

  /** Parsing a parsed value's text again gives the same value. */
  lemma TrimThenValidateIdempotent(raw: string)
    ensures ParseName(raw).Ok? ==> ParseName(ParseName(raw).value.value) == ParseName(raw)
    ensures ParseTag(raw).Ok? ==> ParseTag(ParseTag(raw).value.tagName) == ParseTag(raw)
    ensures ParseFeedback(ParseFeedback(raw).value) == ParseFeedback(raw)
  {
    TrimIdempotent(raw);
  }

  /** Examples of `parseIndex`: padding is ignored, zero and a sign are refused. */
  lemma ParseIndexExamples()
    ensures ParseIndex(" 3 ") == Ok(Index(2))
    ensures ParseIndex("007") == Ok(Index(6))
    ensures ParseIndex("0").Err? && ParseIndex("+1").Err? && ParseIndex("").Err?
  {
    TrimCharacterized(" 3 ", 1, 2);
    assert " 3 "[1..2] == "3";
    assert DecimalValue("3") == 3;
    assert HasNoTrimmable("007");
    assert DecimalValue("00") == 0;
    assert DecimalValue("007") == 7;
    assert HasNoTrimmable("0") && DecimalValue("0") == 0;
    assert HasNoTrimmable("+1") && !IsAsciiDigit('+');
  }

  /** Examples of the untrimmed check: `" 7"` is not a score although `"7"` is. */
  lemma ParseScorePaddingExample()
    ensures ParseScore("7") == Ok(Score("7"))
    ensures ParseScore(" 7").Err?
  {
    assert IsValidScore("7");
    ValidateUntrimmedRejectsPadding(" 7", 0);
  }
}
