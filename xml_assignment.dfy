/**
 * XmlAdaptedAssignment: an assignment stored as its title, its maximum marks
 * and, optionally, its grade book's records. Decoding checks the two
 * required fields in order and decodes the grade book when it is present.
 */
module XmlAssignments {
  import opened Results
  import opened Entities
  import opened ScoreValue
  import opened MaxMarksValue
  import opened GradeBooks
  import opened Tutorials
  import opened XmlGrades
  import opened XmlGradeBooks

  /** `String.format(MISSING_FIELD_MESSAGE_FORMAT, field)`: the field's name can be read back from the message. */
  function MissingFieldMessage(field: string): (msg: string)
    ensures |msg| == |field| + 31
    ensures msg[13..|msg| - 18] == field
  {
    "Assignment's " + field + " field is missing!"
  }

  /** The stored form; each field may be absent (Java `null`). */
  datatype XmlAdaptedAssignment = XmlAdaptedAssignment(
    title: Option<Title>,
    maxMarks: Option<MaxMarks>,
    gradebook: Option<XmlAdaptedGradeBook>)

  /** The records behind the stored grade book, if there is one. */
  function StoredRecords(x: XmlAdaptedAssignment): Option<seq<XmlGrade>>
    reads if x.gradebook.Some? then {x.gradebook.value} else {}
  {
    match x.gradebook
    case None => None
    case Some(g) => Some(g.grades)
  }

  /**
   * What `toModelType` yields for the given fields: the title is checked
   * first, then the maximum (whose message names the field "ID"); with no
   * grade book the assignment has no grades, and otherwise it has the
   * decoded ones.
   */
  function DecodeAssignment(title: Option<Title>, maxMarks: Option<MaxMarks>, records: Option<seq<XmlGrade>>)
    : (r: Result<(Title, MaxMarks, map<StudentId, Score>), StorageError>)
    ensures title.None? ==> r == Err(IllegalValue(MissingFieldMessage("title")))
    ensures title.Some? && maxMarks.None? ==> r == Err(IllegalValue(MissingFieldMessage("ID")))
    ensures title.Some? && maxMarks.Some? && records.None? ==> r == Ok((title.value, maxMarks.value, map[]))
    ensures title.Some? && maxMarks.Some? && records.Some? ==>
      (r.Err? <==> Decode(records.value).Err?) &&
      (r.Ok? ==> r.value == (title.value, maxMarks.value, Decode(records.value).value))
  {
    if title.None? then Err(IllegalValue(MissingFieldMessage("title")))
    else if maxMarks.None? then Err(IllegalValue(MissingFieldMessage("ID")))
    else match records
      case None => Ok((title.value, maxMarks.value, map[]))
      case Some(gs) =>
        match Decode(gs)
        case Err(e) => Err(e)
        case Ok(m) => Ok((title.value, maxMarks.value, m))
  }

  /** Encoding: the assignment's title and maximum, and its grade book's records in id order. */
  method FromAssignment(source: Assignment) returns (x: XmlAdaptedAssignment)
    ensures x.title == Some(source.title) && x.maxMarks == Some(source.maxMarks)
    ensures x.gradebook.Some? && fresh(x.gradebook.value)
    ensures x.gradebook.value.grades == Records(Listing(source.gradebook.grades))
  {
    var g := new XmlAdaptedGradeBook.FromGradeBook(source.gradebook);
    x := XmlAdaptedAssignment(Some(source.title), Some(source.maxMarks), Some(g));
  }

  /** `toModelType`: builds a new assignment, with a new grade book, as `DecodeAssignment` says. */
  method ToModelType(x: XmlAdaptedAssignment) returns (r: Result<Assignment, StorageError>)
    ensures var d := DecodeAssignment(x.title, x.maxMarks, StoredRecords(x));
      && (r.Err? <==> d.Err?)
      && (r.Err? ==> r.error == d.error)
      && (r.Ok? ==> && r.value.title == d.value.0 && r.value.maxMarks == d.value.1
                    && fresh(r.value.gradebook) && r.value.gradebook.grades == d.value.2)
  {
    if x.title.None? {
      return Err(IllegalValue(MissingFieldMessage("title")));
    }
    if x.maxMarks.None? {
      return Err(IllegalValue(MissingFieldMessage("ID")));
    }
    if x.gradebook.None? {
      var empty := new GradeBook();
      return Ok(Assignment(x.title.value, x.maxMarks.value, empty));
    }
    var decoded := x.gradebook.value.ToModelType();
    if decoded.Err? {
      return Err(decoded.error);
    }
    r := Ok(Assignment(x.title.value, x.maxMarks.value, decoded.value));
  }

  /** Round trip: the fields of an encoded assignment decode to its title, maximum and grades. */
  lemma AssignmentRoundTrip(title: Title, maxMarks: MaxMarks, grades: map<StudentId, Score>)
    ensures DecodeAssignment(Some(title), Some(maxMarks), Some(Records(Listing(grades))))
      == Ok((title, maxMarks, grades))
  {
    RoundTrip(grades);
  }

  /** Encoding then decoding an assignment gives a new assignment with the same title, maximum and grades. */
  method EncodeThenDecode(source: Assignment) returns (copy: Assignment)
    ensures copy.title == source.title && copy.maxMarks == source.maxMarks
    ensures fresh(copy.gradebook) && copy.gradebook.grades == source.gradebook.grades
  {
    var x := FromAssignment(source);
    AssignmentRoundTrip(source.title, source.maxMarks, source.gradebook.grades);
    var r := ToModelType(x);
    copy := r.value;
  }
}
