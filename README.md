# SuperTA core in Dafny

SuperTA is a desktop client in which a teaching assistant keeps a list of
students and a directory of tutorial groups. Each group holds a roster of
student ids and a list of assignments. Each assignment has a title, a maximum
mark and a grade book that maps student ids to scores.

This project models the core of that client and proves what it promises:

- **The store** (`SuperTaClient`, module `Store`). It owns the student list and
  the group directory. It does grading with lookup-before-write, adds feedback,
  and runs the cascade that removes a student from every roster and grade book.
- **The identity-enforcing list** (`UniqueAssignmentList`, module `UniqueLists`).
  It is generic in its element and its identity key. The same class stands for
  the student list (key: name, phone and email) and for the group directory
  (key: group id).
- **The grade book** (`GradeBook`, module `GradeBooks`) and the value types
  `Score` and `MaxMarks`.
- **The parse helpers** (`ParserUtil`, module `Parsing`).
- **The storage adapters** (`XmlGrade`, `XmlAdaptedGradeBook` and
  `XmlAdaptedAssignment`). They encode a grade book as a list of string records
  and decode it again.

Supporting modules:

- `Results` holds `Option`, `Result` and `Outcome`. Java exceptions become
  `Err` or `Fail` values, and Java `null` becomes `None`.
- `JavaText` holds the Java library behaviour the core relies on:
  - `String.trim`.
  - The `\d` class.
  - `String.compareTo`.
  - `hashCode` with 32-bit wrap-around.
- `Entities` and `Tutorials` stand in for collaborators whose sources are not
  part of this model: student, the value types and tutorial group. They appear
  only through the interface the core uses.

Grade books, tutorial groups, the lists and the store are classes, because the
source updates them in place. An `Assignment` holds a reference to its grade
book, so grading through any copy of it writes into the same book, as in Java.

Decoding a stored grade book skips a grade record whose id or score fails to
parse, and the records around it load as if it were absent
(`SkipsUnparsableRecord`). A record that reaches a missing field raises a
NullPointerException, which aborts the decode (`DecodeFailsIffFieldMissing`).

## Model

| member | source | states |
|---|---|---|
| `Store.SuperTaClient.constructor` | src/main/java/seedu/superta/model/SuperTaClient.java:37-42 | a new store has an empty student list and an empty directory, each with its own sameness |
| `Store.SuperTaClient.SetStudents` | src/main/java/seedu/superta/model/SuperTaClient.java:58-60 | the student list becomes the given list unless two of its students are the same, in which case it fails with DuplicateStudent and nothing changes |
| `Store.SuperTaClient.SetTutorialGroups` | src/main/java/seedu/superta/model/SuperTaClient.java:62-64 | the directory becomes the given list unless two groups share an id (DuplicateTutorialGroup, no change) |
| `Store.SuperTaClient.ResetData` | src/main/java/seedu/superta/model/SuperTaClient.java:69-74 | students are replaced first, then groups; duplicate students change nothing; duplicate groups leave the new students in place and the old groups |
| `Store.SuperTaClient.HasStudent` | src/main/java/seedu/superta/model/SuperTaClient.java:81-84 | true iff some listed student has the same (name, phone, email) identity |
| `Store.SuperTaClient.HasTutorialGroup` | src/main/java/seedu/superta/model/SuperTaClient.java:89-91 | true iff some group in the directory has the id |
| `Store.SuperTaClient.GetTutorialGroup` | src/main/java/seedu/superta/model/SuperTaClient.java:93-95 | empty iff no group has the id; otherwise the first listed group with that id |
| `Store.SuperTaClient.GetStudentWithId` | src/main/java/seedu/superta/model/SuperTaClient.java:97-99 | empty iff no student has the id; otherwise the first listed student with that id, as `findFirst` returns |
| `Store.SuperTaClient.AddTutorialGroup` | src/main/java/seedu/superta/model/SuperTaClient.java:108-110 | appends the group unless its id is taken (DuplicateTutorialGroup, no change); keeps the directory unique |
| `Store.SuperTaClient.RemoveTutorialGroup` | src/main/java/seedu/superta/model/SuperTaClient.java:126-128 | removes the first occurrence of the group, keeping the order of the rest; TutorialGroupNotFound and no change when absent |
| `Store.SuperTaClient.AddAssignment` | src/main/java/seedu/superta/model/SuperTaClient.java:133-138 | fails with DuplicateAssignment, changing nothing, iff the group already has an assignment with the title; otherwise appends it |
| `Store.SuperTaClient.ResolveGrade` | src/main/java/seedu/superta/model/SuperTaClient.java:144-161 | the lookups of `grade` in order: TutorialGroupNotFound iff no group has the id, AssignmentNotFound iff the group has no such title, StudentNotFound iff no student has the id; on success, an assignment of that group with that title whose grade book is in the store |
| `Store.SuperTaClient.Grade` | src/main/java/seedu/superta/model/SuperTaClient.java:143-163 | a failed lookup leaves every grade book unchanged and reports its error; otherwise only the resolved grade book changes, by upserting the student's score |
| `Store.WithFeedback` | src/main/java/seedu/superta/model/SuperTaClient.java:174-178 | the edited student keeps every field and identity; its feedback gains the new item at the end |
| `Store.SuperTaClient.AddFeedback` | src/main/java/seedu/superta/model/SuperTaClient.java:168-180 | StudentNotFound and no change when no student has the id; otherwise the first such student is replaced, in place, by the record with the feedback appended |
| `Store.SuperTaClient.AddStudent` | src/main/java/seedu/superta/model/SuperTaClient.java:186-188 | appends the student unless the same student is listed (DuplicateStudent, no change); keeps the list unique |
| `Store.SuperTaClient.UpdateStudent` | src/main/java/seedu/superta/model/SuperTaClient.java:196-200 | StudentNotFound when the target is absent; DuplicateStudent when the edit would clash with another student; otherwise an in-place replacement; keeps the list unique |
| `Store.SuperTaClient.ScrubGroup` | src/main/java/seedu/superta/model/SuperTaClient.java:208 | one step of the cascade: the group at the position drops the id from its roster and grade books, and the progress invariant advances |
| `Store.SuperTaClient.RemoveStudentReferences` | src/main/java/seedu/superta/model/SuperTaClient.java:208 | every group's roster and every grade book in the store lose the id, and nothing else in them changes |
| `Store.SuperTaClient.RemoveStudent` | src/main/java/seedu/superta/model/SuperTaClient.java:206-209 | StudentNotFound and no change when absent; otherwise the student leaves the list, then no roster and no grade book holds the id any longer |
| `Store.SuperTaClient.Equals` | src/main/java/seedu/superta/model/SuperTaClient.java:230-235 | true iff the student lists and the directories are element-wise equal |
| `Store.SuperTaClient.HashCode` | src/main/java/seedu/superta/model/SuperTaClient.java:238-240 | the student list's hash; 1 for an empty store |
| `Store.EqualStoresHashEqually` | src/main/java/seedu/superta/model/SuperTaClient.java:229-240 | equal stores have equal hashes |
| `Tutorials.TutorialGroup.GetAssignment` | src/main/java/seedu/superta/model/SuperTaClient.java:151 | empty iff no assignment has the title; otherwise the group's first assignment with that title |
| `Tutorials.TutorialGroup.AddAssignment` | src/main/java/seedu/superta/model/SuperTaClient.java:137 | fails iff the title is taken; otherwise appends; keeps titles unique |
| `Tutorials.TutorialGroup.RemoveStudentReferences` | src/main/java/seedu/superta/model/SuperTaClient.java:208 | the group's roster and each of its grade books lose the id and keep everything else |
| `UniqueLists.UniqueList.constructor` | src/main/java/seedu/superta/model/assignment/UniqueAssignmentList.java:31 | a new list is empty |
| `UniqueLists.UniqueList.FromList` | src/main/java/seedu/superta/model/assignment/UniqueAssignmentList.java:33-35 | the list holds exactly the source elements, unchecked |
| `UniqueLists.UniqueList.Contains` | src/main/java/seedu/superta/model/assignment/UniqueAssignmentList.java:40-43 | true iff some element has the same identity |
| `UniqueLists.UniqueList.Add` | src/main/java/seedu/superta/model/assignment/UniqueAssignmentList.java:49-55 | a duplicate identity is refused with no change; otherwise the element is appended; uniqueness is kept |
| `UniqueLists.UniqueList.Set` | src/main/java/seedu/superta/model/assignment/UniqueAssignmentList.java:63-76 | not found when the target is absent; duplicate when the edit takes another element's identity; otherwise the first equal element is replaced in place; uniqueness is kept |
| `UniqueLists.UniqueList.Remove` | src/main/java/seedu/superta/model/assignment/UniqueAssignmentList.java:82-87 | not found when absent; otherwise the first equal element is deleted and the rest keep their order; uniqueness is kept |
| `UniqueLists.UniqueList.SetAll` | src/main/java/seedu/superta/model/assignment/UniqueAssignmentList.java:93-100 | the contents become the given list iff it is unique; otherwise a duplicate failure and no change |
| `UniqueLists.UniqueList.Clone` | src/main/java/seedu/superta/model/assignment/UniqueAssignmentList.java:105-109 | a new list object with the same identity and the same elements |
| `UniqueLists.UniqueList.Equals` | src/main/java/seedu/superta/model/assignment/UniqueAssignmentList.java:124-128 | true iff the element lists are equal |
| `UniqueLists.UniqueList.HashCode` | src/main/java/seedu/superta/model/assignment/UniqueAssignmentList.java:131-133 | the backing list's hash; 1 for an empty list |
| `UniqueLists.ItemsAreUnique` | src/main/java/seedu/superta/model/assignment/UniqueAssignmentList.java:145-154 | true iff no two elements share an identity; true for lists of length at most one |
| `UniqueLists.FirstWith` | src/main/java/seedu/superta/model/assignment/UniqueAssignmentList.java:42 | empty iff no element has the key; otherwise the first index with it |
| `UniqueLists.IndexOf` | src/main/java/seedu/superta/model/assignment/UniqueAssignmentList.java:66 | empty iff the element is absent; otherwise the first index holding an equal element |
| `UniqueLists.RemoveAtKeepsUnique` | src/main/java/seedu/superta/model/assignment/UniqueAssignmentList.java:82-87 | deleting an element from a unique list leaves it unique |
| `GradeBooks.GradeBook.constructor` | src/main/java/seedu/superta/model/assignment/GradeBook.java:15 | a new grade book has no grades |
| `GradeBooks.GradeBook.AddGrade` | src/main/java/seedu/superta/model/assignment/GradeBook.java:22-24 | upsert: the id reads back the new score and every other id reads as before |
| `GradeBooks.GradeBook.GetGradeFor` | src/main/java/seedu/superta/model/assignment/GradeBook.java:31-33 | empty (Java null) iff the id has no grade; otherwise the stored score |
| `GradeBooks.GradeBook.IsStudentIn` | src/main/java/seedu/superta/model/assignment/GradeBook.java:39-41 | true iff the student's id has a grade |
| `GradeBooks.GradeBook.RemoveStudentReference` | src/main/java/seedu/superta/model/assignment/GradeBook.java:47-51 | the student's entry is gone, the others stay, and an absent student means no change |
| `GradeBooks.GradeBook.Stream` | src/main/java/seedu/superta/model/assignment/GradeBook.java:57-60 | every entry exactly once, with its score, in strictly ascending order of the id's string |
| `GradeBooks.ListingUnique` | src/main/java/seedu/superta/model/assignment/GradeBook.java:57-60 | two sorted listings of the same map are equal, so the stream's order is fully determined |
| `GradeBooks.ListingExists` | src/main/java/seedu/superta/model/assignment/GradeBook.java:57-60 | every grade map has a sorted listing |
| `GradeBooks.ListingHead` | src/main/java/seedu/superta/model/assignment/GradeBook.java:57-60 | a sorted listing starts with the least id and continues with a listing of the rest |
| `GradeBooks.ListingCons` | src/main/java/seedu/superta/model/assignment/GradeBook.java:57-60 | the least id's entry in front of a listing of the rest lists the whole map |
| `GradeBooks.ListingLength` | src/main/java/seedu/superta/model/assignment/GradeBook.java:57-60 | a sorted listing has exactly one entry per grade |
| `GradeBooks.LeastExists` | src/main/java/seedu/superta/model/assignment/GradeBook.java:59 | every non-empty set of ids has a least one under the string order |
| `GradeBooks.RemoveIdempotent` | src/main/java/seedu/superta/model/assignment/GradeBook.java:47-51 | removing a reference twice equals removing it once |
| `JavaText.LexLessIrreflexive` | src/main/java/seedu/superta/model/assignment/GradeBook.java:59 | no id string sorts before itself |
| `JavaText.LexLessTransitive` | src/main/java/seedu/superta/model/assignment/GradeBook.java:59 | the string order is transitive |
| `JavaText.LexLessTotal` | src/main/java/seedu/superta/model/assignment/GradeBook.java:59 | of two different strings one sorts before the other |
| `JavaText.LexLessAsymmetric` | src/main/java/seedu/superta/model/assignment/GradeBook.java:59 | two strings never sort before each other |
| `ScoreValue.IsValidScore` | src/main/java/seedu/superta/model/assignment/Score.java:30-32 | a whole-string match of `\d{1,}`: one or more ASCII digits; a valid score has no blank char |
| `ScoreValue.ToString` | src/main/java/seedu/superta/model/assignment/Score.java:34-37 | the rendering is a valid score string from which the same score is rebuilt |
| `ScoreValue.HashCode` | src/main/java/seedu/superta/model/assignment/Score.java:46-49 | the Java `String` hash of the rendering, so equal scores hash equally; a one-digit score hashes to its char code |
| `ScoreValue.MakeScore` | src/main/java/seedu/superta/model/assignment/Score.java:21-32 | succeeds iff the string is one or more ASCII digits, keeping the string exactly; otherwise the constraint message |
| `ScoreValue.ConstructRendered` | src/main/java/seedu/superta/model/assignment/Score.java:21-37 | constructing from a score's rendering gives back the same score |
| `ScoreValue.LeadingZerosDiffer` | src/main/java/seedu/superta/model/assignment/Score.java:39-49 | "007" and "7" are both scores but different ones, with different hashes |
| `MaxMarksValue.IsValidMaxMarks` | src/main/java/seedu/superta/model/assignment/MaxMarks.java:31-33 | a whole-string match of `\d{1,}`: one or more ASCII digits; a valid maximum has no blank char |
| `MaxMarksValue.ToString` | src/main/java/seedu/superta/model/assignment/MaxMarks.java:35-38 | the rendering is a valid maximum string from which the same maximum is rebuilt |
| `MaxMarksValue.HashCode` | src/main/java/seedu/superta/model/assignment/MaxMarks.java:47-50 | the Java `String` hash of the rendering, so equal maxima hash equally; a one-digit maximum hashes to its char code |
| `MaxMarksValue.MakeMaxMarks` | src/main/java/seedu/superta/model/assignment/MaxMarks.java:22-33 | succeeds iff the string is one or more ASCII digits, keeping the string exactly; otherwise the constraint message |
| `MaxMarksValue.ConstructRendered` | src/main/java/seedu/superta/model/assignment/MaxMarks.java:22-38 | constructing from a maximum's rendering gives back the same maximum |
| `MaxMarksValue.LeadingZerosDiffer` | src/main/java/seedu/superta/model/assignment/MaxMarks.java:40-51 | "007" and "7" are different maxima with different hashes |
| `JavaText.Trim` | src/main/java/seedu/superta/logic/parser/ParserUtil.java:37 | the result is the infix left after removing the chars at or below U+0020 from both ends |
| `JavaText.TrimIdempotent` | src/main/java/seedu/superta/logic/parser/ParserUtil.java:52 | trimming twice equals trimming once |
| `JavaText.TrimCharacterized` | src/main/java/seedu/superta/logic/parser/ParserUtil.java:52 | any split into padding around an infix with non-blank ends is the one trim finds |
| `JavaText.TrimIgnoresLeadingPad` | src/main/java/seedu/superta/logic/parser/ParserUtil.java:52 | a blank char added in front does not change the trimmed string |
| `JavaText.TrimIgnoresTrailingPad` | src/main/java/seedu/superta/logic/parser/ParserUtil.java:52 | a blank char added at the end does not change the trimmed string |
| `JavaText.TrimDigitString` | src/main/java/seedu/superta/logic/parser/ParserUtil.java:165-169 | a digit string is its own trim |
| `Parsing.ParseIndex` | src/main/java/seedu/superta/logic/parser/ParserUtil.java:36-42 | succeeds iff the trimmed input is a positive decimal within int range; the index's one-based value is that number; otherwise the invalid-index message |
| `Parsing.FromOneBased` | src/main/java/seedu/superta/logic/parser/ParserUtil.java:41 | the index's one-based value is the given number |
| `Parsing.ParseName` | src/main/java/seedu/superta/logic/parser/ParserUtil.java:50-57 | succeeds iff the trimmed input is a valid name, which becomes the name; otherwise the name constraint message |
| `Parsing.ParsePhone` | src/main/java/seedu/superta/logic/parser/ParserUtil.java:65-72 | succeeds iff the trimmed input is a valid phone, which becomes the phone |
| `Parsing.ParseAddress` | src/main/java/seedu/superta/logic/parser/ParserUtil.java:80-87 | succeeds iff the trimmed input is a valid address, which becomes the address |
| `Parsing.ParseEmail` | src/main/java/seedu/superta/logic/parser/ParserUtil.java:95-102 | succeeds iff the trimmed input is a valid email, which becomes the email |
| `Parsing.ParseStudentId` | src/main/java/seedu/superta/logic/parser/ParserUtil.java:110-117 | succeeds iff the input as typed is a valid id; the id is the trimmed input, which equals the input |
| `Parsing.StudentIdHasNoTrimmable` | src/main/java/seedu/superta/logic/parser/ParserUtil.java:112-116 | a valid id has no blank char, so trimming it changes nothing |
| `Parsing.ParseTutorialGroupName` | src/main/java/seedu/superta/logic/parser/ParserUtil.java:119-121 | never fails; the result is the input with exactly its leading and trailing blank chars removed: what is cut from either end is blank, and the result starts and ends with a non-blank char |
| `Parsing.ParseTutorialGroupId` | src/main/java/seedu/superta/logic/parser/ParserUtil.java:123-125 | never fails; the result is the input with exactly its leading and trailing blank chars removed: what is cut from either end is blank, and the result starts and ends with a non-blank char |
| `Parsing.ParseMaxMarks` | src/main/java/seedu/superta/logic/parser/ParserUtil.java:133-140 | succeeds iff the input as typed is all digits; the value equals the input |
| `Parsing.ParseTitle` | src/main/java/seedu/superta/logic/parser/ParserUtil.java:148-155 | succeeds iff the input as typed is a valid title; the title is the trimmed input |
| `Parsing.ParseScore` | src/main/java/seedu/superta/logic/parser/ParserUtil.java:163-170 | succeeds iff the input as typed is all digits; the score equals the input |
| `Parsing.ParseFeedback` | src/main/java/seedu/superta/logic/parser/ParserUtil.java:178-181 | never fails; the feedback is the input with exactly its leading and trailing blank chars removed: what is cut from either end is blank, and the result starts and ends with a non-blank char |
| `Parsing.ParseString` | src/main/java/seedu/superta/logic/parser/ParserUtil.java:183-185 | never fails; the result is the input with exactly its leading and trailing blank chars removed: what is cut from either end is blank, and the result starts and ends with a non-blank char |
| `Parsing.ParseTag` | src/main/java/seedu/superta/logic/parser/ParserUtil.java:193-200 | succeeds iff the trimmed input is a valid tag name, which becomes the tag |
| `Parsing.ParseTags` | src/main/java/seedu/superta/logic/parser/ParserUtil.java:205-212 | succeeds iff every string parses as a tag; the result is the set of parsed tags, so duplicates collapse; otherwise the tag constraint message |
| `Parsing.StudentIdRoundTrip` | src/main/java/seedu/superta/logic/parser/ParserUtil.java:110-117 | parsing an id's string gives back the id |
| `Parsing.ScoreRoundTrip` | src/main/java/seedu/superta/logic/parser/ParserUtil.java:163-170 | parsing a score's rendering gives back the score |
| `Parsing.MaxMarksRoundTrip` | src/main/java/seedu/superta/logic/parser/ParserUtil.java:133-140 | parsing a maximum's string gives back the maximum |
| `Parsing.TrimThenValidateIgnoresPadding` | src/main/java/seedu/superta/logic/parser/ParserUtil.java:36-102 | a blank char added at either end changes neither the outcome of the name, phone, address, email, tag and index parsers nor their results |
| `Parsing.ValidateUntrimmedRejectsPadding` | src/main/java/seedu/superta/logic/parser/ParserUtil.java:110-170 | any blank char in the input makes the id, score and max-marks parsers fail |
| `Parsing.TrimThenValidateIdempotent` | src/main/java/seedu/superta/logic/parser/ParserUtil.java:50-200 | parsing the text of a parsed name, tag or feedback gives the same value |
| `Parsing.ParseIndexExamples` | src/main/java/seedu/superta/logic/parser/ParserUtil.java:36-42 | " 3 " is index 3, "007" is index 7, and "0", "+1" and "" are refused |
| `Parsing.ParseScorePaddingExample` | src/main/java/seedu/superta/logic/parser/ParserUtil.java:163-170 | "7" parses as a score while " 7" does not |
| `XmlGrades.EmptyGrade` | src/main/java/seedu/superta/storage/XmlGrade.java:21 | a default record has both fields absent |
| `XmlGrades.GradeOf` | src/main/java/seedu/superta/storage/XmlGrade.java:23-26 | the getters of a record built from two strings return exactly those strings |
| `XmlGrades.FromEntry` | src/main/java/seedu/superta/storage/XmlGrade.java:28-31 | the record of an entry holds the id's string and the score's digit string, both valid |
| `XmlGrades.Records` | src/main/java/seedu/superta/storage/XmlAdaptedGradeBook.java:24-26 | one record per entry, in the same order |
| `XmlGradeBooks.ParseRecord` | src/main/java/seedu/superta/storage/XmlAdaptedGradeBook.java:35-40 | a missing id, or a missing score after a valid id, raises a null-pointer failure; an invalid id or invalid score skips the record; otherwise the record's own id and score are added |
| `XmlGradeBooks.Decode` | src/main/java/seedu/superta/storage/XmlAdaptedGradeBook.java:30-44 | any failure is the null-pointer failure |
| `XmlGradeBooks.DecodeSnoc` | src/main/java/seedu/superta/storage/XmlAdaptedGradeBook.java:33-41 | records are processed in list order, the last one after all the others |
| `XmlGradeBooks.DecodeFailsIffFieldMissing` | src/main/java/seedu/superta/storage/XmlAdaptedGradeBook.java:35-40 | decoding fails iff some record reaches a missing field |
| `XmlGradeBooks.DecodedEntriesComeFromRecords` | src/main/java/seedu/superta/storage/XmlAdaptedGradeBook.java:33-41 | every decoded grade comes from a record that parses to it |
| `XmlGradeBooks.DecodeDependsOnPrefixResult` | src/main/java/seedu/superta/storage/XmlAdaptedGradeBook.java:33-41 | what later records do depends only on what the earlier ones decoded to |
| `XmlGradeBooks.SkipsUnparsableRecord` | src/main/java/seedu/superta/storage/XmlAdaptedGradeBook.java:35-40 | a record with an invalid id or score is skipped, and the records around it load as if it were absent |
| `XmlGradeBooks.LaterRecordsKeepEntry` | src/main/java/seedu/superta/storage/XmlAdaptedGradeBook.java:33-41 | records that do not parse to an entry for an id leave that id's score as it was |
| `XmlGradeBooks.LastValidRecordWins` | src/main/java/seedu/superta/storage/XmlAdaptedGradeBook.java:33-37 | of several records for one student, the last one that parses decides the stored score |
| `XmlGradeBooks.RecordRoundTrip` | src/main/java/seedu/superta/storage/XmlGrade.java:28-31 | a record written from an entry parses back to that entry |
| `XmlGradeBooks.DecodeRecords` | src/main/java/seedu/superta/storage/XmlAdaptedGradeBook.java:23-41 | decoding the records of entries upserts those entries in order |
| `XmlGradeBooks.UpsertsDistinct` | src/main/java/seedu/superta/storage/XmlAdaptedGradeBook.java:33-41 | upserting entries with distinct ids stores each entry's score under its id and nothing else |
| `XmlGradeBooks.UpsertsOfListing` | src/main/java/seedu/superta/storage/XmlAdaptedGradeBook.java:23-41 | upserting a grade book's sorted listing rebuilds its map |
| `XmlGradeBooks.RoundTrip` | src/main/java/seedu/superta/storage/XmlAdaptedGradeBook.java:23-44 | decoding the encoding of any grade map gives back the same map |
| `XmlGradeBooks.XmlAdaptedGradeBook.constructor` | src/main/java/seedu/superta/storage/XmlAdaptedGradeBook.java:19-21 | a default adapter has no records |
| `XmlGradeBooks.XmlAdaptedGradeBook.FromGradeBook` | src/main/java/seedu/superta/storage/XmlAdaptedGradeBook.java:23-27 | one record per grade, in ascending id order |
| `XmlGradeBooks.XmlAdaptedGradeBook.ToModelType` | src/main/java/seedu/superta/storage/XmlAdaptedGradeBook.java:30-44 | a new grade book holding exactly what the records decode to, or the null-pointer failure iff decoding fails |
| `XmlGradeBooks.DecodeEmptyAdapter` | src/main/java/seedu/superta/storage/XmlAdaptedGradeBook.java:19-44 | a default adapter decodes to an empty grade book |
| `XmlAssignments.MissingFieldMessage` | src/main/java/seedu/superta/storage/XmlAdaptedAssignment.java:16 | the message embeds the field's name, which can be read back from it |
| `XmlAssignments.DecodeAssignment` | src/main/java/seedu/superta/storage/XmlAdaptedAssignment.java:37-48 | a missing title fails first with the title message; a missing maximum fails with the message naming "ID"; no grade book gives no grades; otherwise the decoded grades |
| `XmlAssignments.FromAssignment` | src/main/java/seedu/superta/storage/XmlAdaptedAssignment.java:30-34 | the title and maximum are kept and the grade book is encoded in id order |
| `XmlAssignments.ToModelType` | src/main/java/seedu/superta/storage/XmlAdaptedAssignment.java:36-49 | the new assignment, with a new grade book, is exactly what `DecodeAssignment` gives |
| `XmlAssignments.AssignmentRoundTrip` | src/main/java/seedu/superta/storage/XmlAdaptedAssignment.java:30-48 | the fields of an encoded assignment decode to its title, maximum and grades |
| `XmlAssignments.EncodeThenDecode` | src/main/java/seedu/superta/storage/XmlAdaptedAssignment.java:30-48 | encoding then decoding gives a new assignment with the same title, maximum and grades |

## Left out

- JavaFX observable lists, `asUnmodifiableObservableList`, `getStudentList`,
  `getTutorialGroupList` and iterators are left out. The lists are sequences,
  and callers read them directly.
- JAXB annotations and the reading and writing of XML files are left out
  because they are I/O. The adapters work on in-memory records.
- `e.printStackTrace()` on a skipped record is left out because it is logging.
  The skip itself is modelled.
- `toString` of the store, the list and the value types is left out because it
  is cosmetic. `Score` and `MaxMarks` rendering is kept, because encoding
  uses it.
- `arePrefixesPresent` is left out. It depends on the command-language
  argument map, which is not part of this model.
- The validators of Name, Phone, Email, Address, Tag and Title are
  uninterpreted predicates, and so are their constraint messages. Their
  sources are not part of this model.
- StudentId validity uses StudentId's validation pattern: one or more ASCII
  letters and digits.
- `StringUtil.isNonZeroUnsignedInteger` is not part of this model. It is taken
  as: ASCII digits, a positive value, and within the range of Java `int`.
  Non-ASCII digits that `Integer.parseInt` would accept are not modelled.
- `Student.hashCode` is an uninterpreted function, since its source is not
  part of this model.
- Chars are compared by their code point, not as UTF-16 units. This matters
  for ids only outside ASCII, which ids cannot hold.
- `addStudentToTutorialGroup` and `updateTutorialGroup` are left out.
  `TutorialGroup.addStudent` and `TutorialGroupMaster.setTutorialGroup` are
  not part of this model.
- The copy constructor `SuperTaClient(ReadOnlySuperTaClient)` is left out.
  It is the empty constructor followed by `ResetData`, and both are modelled.
- Null arguments are left out, except in the storage records, where a
  missing field is `None`. `requireNonNull` on a null argument is not modelled.
- `Assignment.grade` is taken to upsert into the assignment's grade book, and
  `new Assignment(title, maxMarks)` to create an empty one. The `Assignment`
  source is not part of this model.
- The `Title` constructor's own check is not modelled. `ParseTitle` builds the
  title from the trimmed string after checking the untrimmed one.
- A tutorial group's roster is a set of student ids. The order and multiplicity
  of the Java roster list are not captured.
- The group directory's equality compares group objects by reference.
- `addFeedback` appends to the feedback list it reads from the stored student,
  and Java shares that list with the old record. The model builds a new
  sequence, so that aliasing is not captured.
- Store.SuperTaClient.HashCode: states only the empty-store value, because
  `Student.hashCode` is not part of this model. `EqualStoresHashEqually` gives
  the agreement with equality.
- UniqueLists.UniqueList: sameness is equality of an identity key
  (`identity: T -> K`), not an arbitrary `isSameX` predicate. This makes
  sameness an equivalence. The student and group sameness checks are
  equivalences, so nothing is lost for them; a non-transitive `isSame` is not
  captured.
- UniqueLists.UniqueList.HashCode: states only the empty-list value, because
  the element hash is a parameter.
- `Integer.parseInt` overflow is not a separate case. Inputs above the `int`
  range are refused by the index check.
