/**
 * Assignment and TutorialGroup, the collaborators the store reaches through.
 * Their sources are not part of this model; they appear through the
 * interface the store uses: an assignment's title, max marks and grade book,
 * and a group's id, roster, assignment list and the student-removal cascade.
 */
module Tutorials {
  import opened Results
  import opened Entities
  import opened MaxMarksValue
  import opened GradeBooks
  import opened UniqueLists

  /**
   * An assignment of one tutorial group. The grade book is a reference:
   * grading through any copy of the record writes into the same book.
   */
  datatype Assignment = Assignment(title: Title, maxMarks: MaxMarks, gradebook: GradeBook)

  /** `isSameAssignment`: two assignments are the same when their titles are equal. */
  function AssignmentTitle(a: Assignment): Title {
    a.title
  }

  class TutorialGroup {
    /** The caller-supplied id that is the group's identity in the directory. */
    const id: string
    const name: string
    /** The members, held by id. */
    var roster: set<StudentId>
    /** The group's own assignments, unique by title. */
    const assignments: UniqueList<Assignment, Title>

    constructor (id: string, name: string)
      ensures this.id == id && this.name == name && roster == {}
      ensures fresh(assignments) && assignments.identity == AssignmentTitle && assignments.items == []
    {
      this.id := id;
      this.name := name;
      roster := {};
      assignments := new UniqueList(AssignmentTitle);
    }

    /** The assignment list uses title sameness, as its constructor sets it up. */
    ghost predicate Valid() {
      assignments.identity == AssignmentTitle
    }

    /** Every grade book the group's assignments own. */
    function GradeBooks(): set<GradeBook>
      reads assignments
    {
      set i | 0 <= i < |assignments.items| :: assignments.items[i].gradebook
    }

    /** `getAssignment`: the first assignment with the given title, if any. */
    function GetAssignment(title: Title): (r: Option<Assignment>)
      reads assignments
      ensures r.None? <==> forall i :: 0 <= i < |assignments.items| ==> assignments.items[i].title != title
      ensures r.Some? ==>
        exists i :: 0 <= i < |assignments.items| && assignments.items[i] == r.value
          && r.value.title == title && forall j :: 0 <= j < i ==> assignments.items[j].title != title
    {
      match FirstWith(assignments.items, AssignmentTitle, title)
      case None => None
      case Some(i) => Some(assignments.items[i])
    }

    /** `addAssignment`: delegates to the assignment list, refusing a second assignment with the same title. */
    method AddAssignment(a: Assignment) returns (o: Outcome<ListError>)
      requires Valid()
      modifies assignments
      ensures o.Fail? <==> exists i :: 0 <= i < |old(assignments.items)| && old(assignments.items)[i].title == a.title
      ensures o.Fail? ==> o.error == DuplicateEntity && assignments.items == old(assignments.items)
      ensures o.Pass? ==> assignments.items == old(assignments.items) + [a]
      ensures Unique(old(assignments.items), AssignmentTitle) ==> Unique(assignments.items, AssignmentTitle)
    {
      o := assignments.Add(a);
    }

    /**
     * `removeStudentReferences`: the student leaves the roster and every
     * grade book of the group's assignments forgets the student's score.
     */
    method RemoveStudentReferences(student: Student)
      modifies this, GradeBooks()
      ensures roster == old(roster) - {student.id}
      ensures GradeBooks() == old(GradeBooks())
      ensures forall gb :: gb in GradeBooks() ==> gb.grades == old(gb.grades) - {student.id}
    {
      roster := roster - {student.id};
      var i := 0;
      while i < |assignments.items|
        invariant 0 <= i <= |assignments.items|
        invariant roster == old(roster) - {student.id}
        invariant forall gb :: gb in GradeBooks() ==>
          gb.grades == old(gb.grades) || gb.grades == old(gb.grades) - {student.id}
        invariant forall k :: 0 <= k < i ==>
          assignments.items[k].gradebook.grades == old(assignments.items[k].gradebook.grades) - {student.id}
      {
        assignments.items[i].gradebook.RemoveStudentReference(student);
        i := i + 1;
      }
    }
  }

  /** The directory's identity: a group's id. */
  function GroupIdOf(g: TutorialGroup): string {
    g.id
  }
}
