/**
 * SuperTaClient, the aggregate root: it owns the student list and the
 * tutorial-group directory, and every write that spans entities goes
 * through it.
 */
module Store {
  import opened Results
  import opened JavaText
  import opened Entities
  import opened ScoreValue
  import opened GradeBooks
  import opened UniqueLists
  import opened Tutorials

  /** The argument of `grade`: which group, which assignment, which student, what score. */
  datatype Grade = Grade(groupId: string, title: Title, studentId: StudentId, score: Score)

  /** The exceptions the store's operations surface. */
  datatype StoreError =
    | DuplicateStudent
    | StudentNotFound
    | DuplicateTutorialGroup
    | TutorialGroupNotFound
    | DuplicateAssignment
    | AssignmentNotFound

  /** The student list's exceptions under their store names. */
  function StudentOutcome(o: Outcome<ListError>): (r: Outcome<StoreError>)
    ensures r.Pass? <==> o.Pass?
    ensures o == Fail(DuplicateEntity) ==> r == Fail(DuplicateStudent)
    ensures o == Fail(EntityNotFound) ==> r == Fail(StudentNotFound)
  {
    match o
    case Pass => Pass
    case Fail(DuplicateEntity) => Fail(DuplicateStudent)
    case Fail(EntityNotFound) => Fail(StudentNotFound)
  }

  /** The directory's exceptions under their store names. */
  function GroupOutcome(o: Outcome<ListError>): (r: Outcome<StoreError>)
    ensures r.Pass? <==> o.Pass?
    ensures o == Fail(DuplicateEntity) ==> r == Fail(DuplicateTutorialGroup)
    ensures o == Fail(EntityNotFound) ==> r == Fail(TutorialGroupNotFound)
  {
    match o
    case Pass => Pass
    case Fail(DuplicateEntity) => Fail(DuplicateTutorialGroup)
    case Fail(EntityNotFound) => Fail(TutorialGroupNotFound)
  }

  /** The record `addFeedback` puts in place of `s`: every field kept, the feedback extended by one item. */
  function WithFeedback(s: Student, f: Feedback): (r: Student)
    ensures r.name == s.name && r.phone == s.phone && r.email == s.email && r.address == s.address
    ensures r.id == s.id && r.tags == s.tags
    ensures r.feedback == s.feedback + [f]
    ensures StudentIdentity(r) == StudentIdentity(s)
  {
    s.(feedback := s.feedback + [f])
  }

  class SuperTaClient {
    /** The student list, unique by (name, phone, email). */
    const students: UniqueList<Student, StudentKey>
    /** The tutorial-group directory, unique by group id. */
    const groups: UniqueList<TutorialGroup, string>

    constructor ()
      ensures Valid()
      ensures fresh(students) && fresh(groups)
      ensures students.items == [] && groups.items == []
    {
      students := new UniqueList(StudentIdentity);
      groups := new UniqueList(GroupIdOf);
    }

    /** The two lists use the sameness of their entity kinds, as the constructor sets them up. */
    ghost predicate Valid() {
      students.identity == StudentIdentity && groups.identity == GroupIdOf
    }

    /** The assignment lists of the directory's groups. */
    function AssignmentLists(): set<UniqueList<Assignment, Title>>
      reads groups
    {
      set i | 0 <= i < |groups.items| :: groups.items[i].assignments
    }

    /** Every grade book of every assignment of every group in the directory. */
    ghost function GradeBooks(): set<GradeBook>
      reads groups, AssignmentLists()
    {
      set k, gb | 0 <= k < |groups.items| && gb in groups.items[k].GradeBooks() :: gb
    }

    /** `hasStudent`: some student in the list is the same student (by identity) as `s`. */
    predicate HasStudent(s: Student)
      reads students
      ensures Valid() ==>
        (HasStudent(s) <==> exists i :: 0 <= i < |students.items| && StudentIdentity(students.items[i]) == StudentIdentity(s))
    {
      students.Contains(s)
    }

    /** `getTutorialGroup`: the first group with the given id, if any. */
    function GetTutorialGroup(id: string): (r: Option<TutorialGroup>)
      reads groups
      ensures r.None? <==> forall i :: 0 <= i < |groups.items| ==> groups.items[i].id != id
      ensures r.Some? ==>
        exists i :: 0 <= i < |groups.items| && groups.items[i] == r.value
          && r.value.id == id && forall j :: 0 <= j < i ==> groups.items[j].id != id
    {
      match FirstWith(groups.items, GroupIdOf, id)
      case None => None
      case Some(i) => Some(groups.items[i])
    }

    /** `hasTutorialGroup`: some group in the directory has the given id. */
    predicate HasTutorialGroup(id: string)
      reads groups
      ensures HasTutorialGroup(id) <==> exists i :: 0 <= i < |groups.items| && groups.items[i].id == id
    {
      GetTutorialGroup(id).Some?
    }

    /** `getStudentWithId`: the first student with the given id, if any. */
    function GetStudentWithId(id: StudentId): (r: Option<Student>)
      reads students
      ensures r.None? <==> forall i :: 0 <= i < |students.items| ==> students.items[i].id != id
      ensures r.Some? ==>
        exists i :: 0 <= i < |students.items| && students.items[i] == r.value
          && r.value.id == id && forall j :: 0 <= j < i ==> students.items[j].id != id
    {
      match FirstWith(students.items, StudentIdOf, id)
      case None => None
      case Some(i) => Some(students.items[i])
    }

    /**
     * The three lookups of `grade`, in their order: the group, then the
     * assignment within it, then the student. The first that fails decides
     * the error; when all succeed the result is the assignment to write into.
     */
    function ResolveGrade(g: Grade): (r: Result<Assignment, StoreError>)
      reads students, groups, AssignmentLists()
      ensures r == Err(TutorialGroupNotFound) <==> !HasTutorialGroup(g.groupId)
      ensures r == Err(AssignmentNotFound) <==>
        HasTutorialGroup(g.groupId) && GetTutorialGroup(g.groupId).value.GetAssignment(g.title).None?
      ensures r == Err(StudentNotFound) <==>
        HasTutorialGroup(g.groupId) && GetTutorialGroup(g.groupId).value.GetAssignment(g.title).Some?
        && GetStudentWithId(g.studentId).None?
      ensures r.Ok? ==>
        && GetStudentWithId(g.studentId).Some?
        && r.value.title == g.title
        && r.value in GetTutorialGroup(g.groupId).value.assignments.items
        && r.value.gradebook in GradeBooks()
    {
      var group := GetTutorialGroup(g.groupId);
      if group.None? then Err(TutorialGroupNotFound)
      else
        assert group.value.assignments in AssignmentLists();
        var assignment := group.value.GetAssignment(g.title);
        if assignment.None? then Err(AssignmentNotFound)
        else if GetStudentWithId(g.studentId).None? then Err(StudentNotFound)
        else
          assert assignment.value.gradebook in GradeBooks() by {
            var k :| 0 <= k < |groups.items| && groups.items[k] == group.value;
            var items := group.value.assignments.items;
            var j :| 0 <= j < |items| && items[j] == assignment.value;
            assert assignment.value.gradebook in groups.items[k].GradeBooks();
          }
          Ok(assignment.value)
    }

    /**
     * `grade`: all three lookups finish before the only write, the upsert
     * into the resolved assignment's grade book. A failed lookup changes
     * nothing; a successful one changes that one grade book and nothing else.
     */
    method Grade(g: Grade) returns (o: Outcome<StoreError>)
      modifies if ResolveGrade(g).Ok? then {ResolveGrade(g).value.gradebook} else {}
      ensures old(ResolveGrade(g)).Err? ==> o == Fail(old(ResolveGrade(g)).error)
      ensures old(ResolveGrade(g)).Err? ==> forall gb :: gb in old(GradeBooks()) ==> gb.grades == old(gb.grades)
      ensures old(ResolveGrade(g)).Ok? ==>
        && o == Pass
        && var target := old(ResolveGrade(g)).value.gradebook;
        && target.grades == old(target.grades)[g.studentId := g.score]
        && forall gb :: gb in old(GradeBooks()) && gb != target ==> gb.grades == old(gb.grades)
      ensures students.items == old(students.items) && groups.items == old(groups.items)
    {
      var group := GetTutorialGroup(g.groupId);
      if group.None? {
        return Fail(TutorialGroupNotFound);
      }
      var assignment := group.value.GetAssignment(g.title);
      if assignment.None? {
        return Fail(AssignmentNotFound);
      }
      var student := GetStudentWithId(g.studentId);
      if student.None? {
        return Fail(StudentNotFound);
      }
      assignment.value.gradebook.AddGrade(student.value.id, g.score);
      o := Pass;
    }

    /** `setStudents`: the student list becomes `xs`, unless two of its students are the same. */
    method SetStudents(xs: seq<Student>) returns (o: Outcome<StoreError>)
      requires Valid()
      modifies students
      ensures Unique(xs, StudentIdentity) ==> o == Pass && students.items == xs
      ensures !Unique(xs, StudentIdentity) ==> o == Fail(DuplicateStudent) && students.items == old(students.items)
    {
      var r := students.SetAll(xs);
      o := StudentOutcome(r);
    }

    /** `setTutorialGroups`: the directory becomes `xs`, unless two of its groups share an id. */
    method SetTutorialGroups(xs: seq<TutorialGroup>) returns (o: Outcome<StoreError>)
      requires Valid()
      modifies groups
      ensures Unique(xs, GroupIdOf) ==> o == Pass && groups.items == xs
      ensures !Unique(xs, GroupIdOf) ==> o == Fail(DuplicateTutorialGroup) && groups.items == old(groups.items)
    {
      var r := groups.SetAll(xs);
      o := GroupOutcome(r);
    }

    /**
     * `resetData`: the students, then the groups, of `newData` replace this
     * store's. A duplicate among the new students changes nothing; a
     * duplicate among the new groups leaves the students already replaced.
     */
    method ResetData(newData: SuperTaClient) returns (o: Outcome<StoreError>)
      requires Valid()
      modifies students, groups
      ensures !Unique(old(newData.students.items), StudentIdentity) ==>
        o == Fail(DuplicateStudent) && students.items == old(students.items) && groups.items == old(groups.items)
      ensures Unique(old(newData.students.items), StudentIdentity) && !Unique(old(newData.groups.items), GroupIdOf) ==>
        o == Fail(DuplicateTutorialGroup) && students.items == old(newData.students.items) && groups.items == old(groups.items)
      ensures Unique(old(newData.students.items), StudentIdentity) && Unique(old(newData.groups.items), GroupIdOf) ==>
        o == Pass && students.items == old(newData.students.items) && groups.items == old(newData.groups.items)
    {
      var newStudents, newGroups := newData.students.items, newData.groups.items;
      o := SetStudents(newStudents);
      if o.Fail? {
        return;
      }
      o := SetTutorialGroups(newGroups);
    }

    /** `addTutorialGroup`: refused when a group with the same id is already in the directory. */
    method AddTutorialGroup(tg: TutorialGroup) returns (o: Outcome<StoreError>)
      requires Valid()
      modifies groups
      ensures old(HasTutorialGroup(tg.id)) ==> o == Fail(DuplicateTutorialGroup) && groups.items == old(groups.items)
      ensures !old(HasTutorialGroup(tg.id)) ==> o == Pass && groups.items == old(groups.items) + [tg]
      ensures Unique(old(groups.items), GroupIdOf) ==> Unique(groups.items, GroupIdOf)
    {
      var r := groups.Add(tg);
      o := GroupOutcome(r);
    }

    /** `removeTutorialGroup`: the first occurrence of `tg` leaves the directory. */
    method RemoveTutorialGroup(tg: TutorialGroup) returns (o: Outcome<StoreError>)
      requires Valid()
      modifies groups
      ensures tg !in old(groups.items) ==> o == Fail(TutorialGroupNotFound) && groups.items == old(groups.items)
      ensures tg in old(groups.items) ==>
        o == Pass && groups.items == RemoveAt(old(groups.items), IndexOf(old(groups.items), tg).value)
    {
      var r := groups.Remove(tg);
      o := GroupOutcome(r);
    }

    /** `addAssignment`: delegates to the group, which refuses a second assignment with the same title. */
    method AddAssignment(tg: TutorialGroup, a: Assignment) returns (o: Outcome<StoreError>)
      requires tg.Valid()
      modifies tg.assignments
      ensures o.Fail? <==> exists i :: 0 <= i < |old(tg.assignments.items)| && old(tg.assignments.items)[i].title == a.title
      ensures o.Fail? ==> o == Fail(DuplicateAssignment) && tg.assignments.items == old(tg.assignments.items)
      ensures o.Pass? ==> tg.assignments.items == old(tg.assignments.items) + [a]
    {
      var r := tg.AddAssignment(a);
      o := if r.Pass? then Pass else Fail(DuplicateAssignment);
    }

    /** `addStudent`: refused when the same student (by identity) is already in the list. */
    method AddStudent(s: Student) returns (o: Outcome<StoreError>)
      requires Valid()
      modifies students
      ensures old(HasStudent(s)) ==> o == Fail(DuplicateStudent) && students.items == old(students.items)
      ensures !old(HasStudent(s)) ==> o == Pass && students.items == old(students.items) + [s]
      ensures Unique(old(students.items), StudentIdentity) ==> Unique(students.items, StudentIdentity)
    {
      var r := students.Add(s);
      o := StudentOutcome(r);
    }

    /**
     * `updateStudent`: the first student equal to `target` is replaced by
     * `edited` at its position, unless `target` is absent or `edited` is the
     * same student as another one in the list.
     */
    method UpdateStudent(target: Student, edited: Student) returns (o: Outcome<StoreError>)
      requires Valid()
      modifies students
      ensures target !in old(students.items) ==> o == Fail(StudentNotFound) && students.items == old(students.items)
      ensures target in old(students.items) && StudentIdentity(target) != StudentIdentity(edited) && old(HasStudent(edited))
        ==> o == Fail(DuplicateStudent) && students.items == old(students.items)
      ensures target in old(students.items) && (StudentIdentity(target) == StudentIdentity(edited) || !old(HasStudent(edited)))
        ==> o == Pass && students.items == old(students.items)[IndexOf(old(students.items), target).value := edited]
      ensures Unique(old(students.items), StudentIdentity) ==> Unique(students.items, StudentIdentity)
    {
      var r := students.Set(target, edited);
      o := StudentOutcome(r);
    }

    /**
     * `addFeedback`: the first student with the id is replaced, at the same
     * position, by the same record with `feedback` appended to its feedback.
     */
    method AddFeedback(feedback: Feedback, id: StudentId) returns (o: Outcome<StoreError>)
      requires Valid()
      modifies students
      ensures FirstWith(old(students.items), StudentIdOf, id).None? ==>
        o == Fail(StudentNotFound) && students.items == old(students.items)
      ensures FirstWith(old(students.items), StudentIdOf, id).Some? ==>
        && o == Pass
        && var i := FirstWith(old(students.items), StudentIdOf, id).value;
        && students.items == old(students.items)[i := WithFeedback(old(students.items)[i], feedback)]
    {
      ghost var index := FirstWith(students.items, StudentIdOf, id);
      var found := GetStudentWithId(id);
      if found.None? {
        return Fail(StudentNotFound);
      }
      var student := found.value;
      assert IndexOf(students.items, student) == index by {
        var j := IndexOf(students.items, student).value;
        assert students.items[j].id == id;
      }
      o := UpdateStudent(student, WithFeedback(student, feedback));
    }

    /** The group objects of the directory. */
    ghost function GroupObjects(): set<TutorialGroup>
      reads groups
    {
      set k | 0 <= k < |groups.items| :: groups.items[k]
    }

    /** A group's grade books are among the directory's. */
    lemma GroupGradeBooksIncluded(k: nat)
      requires k < |groups.items|
      ensures groups.items[k].GradeBooks() <= GradeBooks()
    {
    }

    /**
     * How far the student-removal cascade has got, against the rosters and
     * grade-book contents it started from: the groups before position `i`
     * have dropped `id` from their roster and from each of their grade books;
     * any other roster or grade book is either as it was or already scrubbed
     * (a group or a grade book can be reached through more than one position).
     */
    ghost predicate Cascaded(i: nat, id: StudentId, rosters0: seq<set<StudentId>>, grades0: map<GradeBook, map<StudentId, Score>>)
      reads groups, GroupObjects(), AssignmentLists(), grades0.Keys
    {
      && i <= |groups.items| && |rosters0| == |groups.items|
      && (forall k :: 0 <= k < |groups.items| ==> groups.items[k].GradeBooks() <= grades0.Keys)
      && (forall k :: 0 <= k < |groups.items| ==>
            groups.items[k].roster == rosters0[k] || groups.items[k].roster == rosters0[k] - {id})
      && (forall k :: 0 <= k < i ==> groups.items[k].roster == rosters0[k] - {id})
      && (forall gb :: gb in grades0 ==> gb.grades == grades0[gb] || gb.grades == grades0[gb] - {id})
      && (forall k, gb :: 0 <= k < i && gb in groups.items[k].GradeBooks() ==> gb.grades == grades0[gb] - {id})
    }

    /** The loop body of the cascade: the group at position `i` drops the student. */
    method ScrubGroup(i: nat, key: Student, ghost rosters0: seq<set<StudentId>>, ghost grades0: map<GradeBook, map<StudentId, Score>>)
      requires i < |groups.items| && Cascaded(i, key.id, rosters0, grades0)
      modifies groups.items[i], groups.items[i].GradeBooks()
      ensures Cascaded(i + 1, key.id, rosters0, grades0)
    {
      groups.items[i].RemoveStudentReferences(key);
    }

    /**
     * The directory's `removeStudentReferences`: every group drops the
     * student's id from its roster and from all its grade books.
     */
    method RemoveStudentReferences(key: Student)
      modifies GroupObjects(), GradeBooks()
      ensures groups.items == old(groups.items)
      ensures forall tg :: tg in groups.items ==> tg.roster == old(tg.roster) - {key.id}
      ensures forall gb :: gb in GradeBooks() ==> gb.grades == old(gb.grades) - {key.id}
    {
      ghost var rosters0 := seq(|groups.items|, (k: int) requires 0 <= k < |groups.items| reads groups, groups.items => groups.items[k].roster);
      ghost var grades0 := map gb | gb in GradeBooks() :: gb.grades;
      forall k | 0 <= k < |groups.items| ensures groups.items[k].GradeBooks() <= grades0.Keys {
        GroupGradeBooksIncluded(k);
      }
      var i := 0;
      while i < |groups.items|
        invariant groups.items == old(groups.items)
        invariant grades0.Keys == old(GradeBooks())
        invariant forall gb :: gb in grades0 ==> grades0[gb] == old(gb.grades)
        invariant forall k :: 0 <= k < |groups.items| ==> rosters0[k] == old(groups.items[k].roster)
        invariant Cascaded(i, key.id, rosters0, grades0)
      {
        ScrubGroup(i, key, rosters0, grades0);
        i := i + 1;
      }
      forall gb | gb in GradeBooks() ensures gb.grades == old(gb.grades) - {key.id} {
        var k :| 0 <= k < |groups.items| && gb in groups.items[k].GradeBooks();
      }
    }

    /**
     * `removeStudent`: the student leaves the list, and only then every group
     * of the directory drops the student's id from its roster and its grade
     * books. When the student is absent nothing changes.
     */
    method RemoveStudent(key: Student) returns (o: Outcome<StoreError>)
      requires Valid()
      modifies students, GroupObjects(), GradeBooks()
      ensures groups.items == old(groups.items)
      ensures key !in old(students.items) ==> o == Fail(StudentNotFound) && students.items == old(students.items)
      ensures key !in old(students.items) ==>
        && (forall tg :: tg in groups.items ==> tg.roster == old(tg.roster))
        && (forall gb :: gb in GradeBooks() ==> gb.grades == old(gb.grades))
      ensures key in old(students.items) ==>
        && o == Pass
        && students.items == RemoveAt(old(students.items), IndexOf(old(students.items), key).value)
        && (forall tg :: tg in groups.items ==> tg.roster == old(tg.roster) - {key.id})
        && (forall gb :: gb in GradeBooks() ==> gb.grades == old(gb.grades) - {key.id})
      ensures key in old(students.items) ==>
        && (forall tg :: tg in groups.items ==> key.id !in tg.roster)
        && (forall gb :: gb in GradeBooks() ==> key.id !in gb.grades)
    {
      var r := students.Remove(key);
      if r.Fail? {
        return Fail(StudentNotFound);
      }
      RemoveStudentReferences(key);
      o := Pass;
    }

    /** `equals`: the same store, or stores with equal student lists and equal directories. */
    predicate Equals(other: SuperTaClient)
      reads students, groups, other.students, other.groups
      ensures Equals(other) <==> students.items == other.students.items && groups.items == other.groups.items
    {
      other == this || (students.Equals(other.students) && groups.Equals(other.groups))
    }

    /** `hashCode`: the student list's hash only. */
    function HashCode(): (h: int32)
      reads students
      ensures |students.items| == 0 ==> h == 1
    {
      students.HashCode(StudentHashCode)
    }
  }

  /** Equal stores hash equally, since the hash reads only what equality compares. */
  lemma EqualStoresHashEqually(a: SuperTaClient, b: SuperTaClient)
    requires a.Equals(b)
    ensures a.HashCode() == b.HashCode()
  {
  }
}
