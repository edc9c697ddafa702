/**
 * Collaborators of the core whose sources are not part of this model:
 * StudentId, Name, Phone, Email, Address, Tag, Title, Feedback and Student.
 * They appear only through the interface the core uses.
 */
module Entities {
  import opened JavaText

  /** StudentId's validation pattern `[A-Za-z0-9]{1,}` matches ASCII letters and digits only. */
  predicate IsAsciiAlphanumeric(c: char) {
    ('0' <= c <= '9') || ('A' <= c <= 'Z') || ('a' <= c <= 'z')
  }

  /** `StudentId.isValidStudentId`: a non-empty string of ASCII letters and digits. */
  predicate IsValidStudentId(s: string) {
    |s| >= 1 && forall i :: 0 <= i < |s| ==> IsAsciiAlphanumeric(s[i])
  }

  type StudentIdString = s: string | IsValidStudentId(s) witness "0"

  /** A student's matriculation id; `toString` is `value`. Equality is value equality. */
  datatype StudentId = StudentId(value: StudentIdString)

  /*
   * The validators of the value types below are not visible: each is an
   * uninterpreted predicate, so nothing proved here depends on its pattern.
   */
  const IsValidName: string -> bool
  const IsValidPhone: string -> bool
  const IsValidEmail: string -> bool
  const IsValidAddress: string -> bool
  const IsValidTagName: string -> bool
  const IsValidTitle: string -> bool

  datatype Name = Name(value: string)
  datatype Phone = Phone(value: string)
  datatype Email = Email(value: string)
  datatype Address = Address(value: string)
  datatype Tag = Tag(tagName: string)
  datatype Feedback = Feedback(value: string)

  /** An assignment's title; it is the assignment's identity within a tutorial group. */
  datatype Title = Title(value: string)

  /** A student record. Fields are immutable; an edit replaces the whole record. */
  datatype Student = Student(
    name: Name,
    phone: Phone,
    email: Email,
    address: Address,
    id: StudentId,
    tags: set<Tag>,
    feedback: seq<Feedback>)

  /** The fields that decide "same student" for the uniqueness of the student list. */
  type StudentKey = (Name, Phone, Email)

  function StudentIdentity(s: Student): StudentKey {
    (s.name, s.phone, s.email)
  }

  function StudentIdOf(s: Student): StudentId {
    s.id
  }

  /** `Student.hashCode` is not visible; it is an uninterpreted function of the record. */
  const StudentHashCode: Student -> int32
}
