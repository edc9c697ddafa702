/** A student's score for one assignment: a self-validating string of digits. */
module ScoreValue {
  import opened Results
  import opened JavaText

  /** `MESSAGE_SCORE_CONSTRAINTS`. */
  const ScoreConstraints := "Score should only contain numbers and at least 1 digit long"

  /** `isValidScore`: `String.matches("\\d{1,}")`, a whole-string match. */
  predicate IsValidScore(test: string)
    ensures IsValidScore(test) <==> |test| >= 1 && forall i :: 0 <= i < |test| ==> '0' <= test[i] <= '9'
    ensures IsValidScore(test) ==> HasNoTrimmable(test)
  {
    IsDigitString(test)
  }

  type ScoreString = s: string | IsValidScore(s) witness "0"

  /** Every `Score` holds a valid string, as the checking constructor guarantees. */
  datatype Score = Score(value: ScoreString)

  /** `IllegalArgumentException` thrown by `checkArgument`. */
  datatype IllegalArgument = IllegalArgument(message: string)

  /** `new Score(score)`: rejects an invalid string and otherwise keeps it exactly. */
  function MakeScore(score: string): (r: Result<Score, IllegalArgument>)
    ensures r.Ok? <==> IsValidScore(score)
    ensures r.Ok? ==> ToString(r.value) == score
    ensures r.Err? ==> r.error == IllegalArgument(ScoreConstraints)
  {
    if IsValidScore(score) then Ok(Score(score)) else Err(IllegalArgument(ScoreConstraints))
  }

  /** `toString` renders the stored string. */
  function ToString(s: Score): (r: string)
    ensures IsValidScore(r) && Score(r) == s
  {
    s.value
  }

  /** `hashCode` is the hash of the stored string. */
  function HashCode(s: Score): (h: int32)
    ensures h == StringHash(ToString(s))
    ensures |s.value| == 1 ==> h as int == s.value[0] as int
  {
    assert |s.value| == 1 ==> s.value[..0] == [];
    StringHash(s.value)
  }

  /** Rendering then constructing gives back the same score. */
  lemma ConstructRendered(s: Score)
    ensures MakeScore(ToString(s)) == Ok(s)
  {
  }

  /** Equality is string equality: leading zeros make a different score. */
  lemma LeadingZerosDiffer()
    ensures MakeScore("007").Ok? && MakeScore("7").Ok?
    ensures MakeScore("007").value != MakeScore("7").value
    ensures HashCode(MakeScore("007").value) != HashCode(MakeScore("7").value)
  {
    assert IsValidScore("7") && IsValidScore("007");
    assert StringHash("7") == 55;
    assert StringHash("0") == 48;
    assert StringHash("00") == 1536;
    assert StringHash("007") == 47671;
  }
}
