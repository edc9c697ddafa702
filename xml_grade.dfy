/**
 * XmlGrade: the stored form of one grade-book entry, a pair of strings.
 * Either string may be absent (Java `null`), as in a default-constructed
 * record or a file that leaves the element out.
 */
module XmlGrades {
  import opened Results
  import opened Entities
  import opened ScoreValue
  import opened GradeBooks

  datatype XmlGrade = XmlGrade(studentId: Option<string>, score: Option<string>)

  /** The no-argument constructor: both fields absent. */
  function EmptyGrade(): (g: XmlGrade)
    ensures g.studentId.None? && g.score.None?
  {
    XmlGrade(None, None)
  }

  /** The two-string constructor: the getters return exactly the given strings. */
  function GradeOf(studentId: string, score: string): (g: XmlGrade)
    ensures g.studentId == Some(studentId) && g.score == Some(score)
  {
    XmlGrade(Some(studentId), Some(score))
  }

  /**
   * The map-entry constructor: the id's string form and the score's
   * rendered form, which is the score's own digit string.
   */
  function FromEntry(entry: Entry): (g: XmlGrade)
    ensures g.studentId == Some(entry.0.value)
    ensures g.score == Some(entry.1.value)
    ensures IsValidStudentId(g.studentId.value) && IsValidScore(g.score.value)
  {
    GradeOf(entry.0.value, ScoreValue.ToString(entry.1))
  }

  /** The records of a sequence of entries, one per entry, in the same order. */
  function Records(es: seq<Entry>): (gs: seq<XmlGrade>)
    ensures |gs| == |es|
    ensures forall i :: 0 <= i < |es| ==> gs[i] == FromEntry(es[i])
  {
    seq(|es|, i requires 0 <= i < |es| => FromEntry(es[i]))
  }
}
