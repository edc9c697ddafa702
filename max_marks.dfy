/** An assignment's maximum marks: a self-validating string of digits. */
module MaxMarksValue {
  import opened Results
  import opened JavaText

  /** `MESSAGE_MAX_MARKS_CONSTRAINTS`. */
  const MaxMarksConstraints := "Max marks should only contain numbers and at least 1 digit long"

  /** `isValidMaxMarks`: `String.matches("\\d{1,}")`, a whole-string match. */
  predicate IsValidMaxMarks(test: string)
    ensures IsValidMaxMarks(test) <==> |test| >= 1 && forall i :: 0 <= i < |test| ==> '0' <= test[i] <= '9'
    ensures IsValidMaxMarks(test) ==> HasNoTrimmable(test)
  {
    IsDigitString(test)
  }

  type MaxMarksString = s: string | IsValidMaxMarks(s) witness "0"

  /** Every `MaxMarks` holds a valid string, as the checking constructor guarantees. */
  datatype MaxMarks = MaxMarks(value: MaxMarksString)

  /** `IllegalArgumentException` thrown by `checkArgument`. */
  datatype IllegalArgument = IllegalArgument(message: string)

  /** `new MaxMarks(maxMarks)`: rejects an invalid string and otherwise keeps it exactly. */
  function MakeMaxMarks(maxMarks: string): (r: Result<MaxMarks, IllegalArgument>)
    ensures r.Ok? <==> IsValidMaxMarks(maxMarks)
    ensures r.Ok? ==> ToString(r.value) == maxMarks
    ensures r.Err? ==> r.error == IllegalArgument(MaxMarksConstraints)
  {
    if IsValidMaxMarks(maxMarks) then Ok(MaxMarks(maxMarks)) else Err(IllegalArgument(MaxMarksConstraints))
  }

  /** `toString` renders the stored string. */
  function ToString(m: MaxMarks): (r: string)
    ensures IsValidMaxMarks(r) && MaxMarks(r) == m
  {
    m.value
  }

  /** `hashCode` is the hash of the stored string. */
  function HashCode(m: MaxMarks): (h: int32)
    ensures h == StringHash(ToString(m))
    ensures |m.value| == 1 ==> h as int == m.value[0] as int
  {
    assert |m.value| == 1 ==> m.value[..0] == [];
    StringHash(m.value)
  }

  /** Rendering then constructing gives back the same maximum. */
  lemma ConstructRendered(m: MaxMarks)
    ensures MakeMaxMarks(ToString(m)) == Ok(m)
  {
  }

  /** Equality is string equality: leading zeros make a different maximum. */
  lemma LeadingZerosDiffer()
    ensures MakeMaxMarks("007").Ok? && MakeMaxMarks("7").Ok?
    ensures MakeMaxMarks("007").value != MakeMaxMarks("7").value
    ensures HashCode(MakeMaxMarks("007").value) != HashCode(MakeMaxMarks("7").value)
  {
    assert IsValidMaxMarks("7") && IsValidMaxMarks("007");
    assert StringHash("7") == 55;
    assert StringHash("0") == 48;
    assert StringHash("00") == 1536;
    assert StringHash("007") == 47671;
  }
}
