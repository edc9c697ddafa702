/**
 * XmlAdaptedGradeBook: a grade book stored as a list of grade records.
 * Encoding lists the book's entries in id order. Decoding parses each record
 * in turn and upserts it; a record whose id or score does not parse is
 * skipped, while a record that reaches a missing field aborts the decode.
 */
module XmlGradeBooks {
  import opened Results
  import opened JavaText
  import opened Entities
  import opened ScoreValue
  import opened GradeBooks
  import opened Parsing
  import opened XmlGrades

  /**
   * The failures of the storage adapters: `IllegalValueException` with its
   * message, and the `NullPointerException` that `requireNonNull` raises
   * inside a parse helper given a missing field.
   */
  datatype StorageError = IllegalValue(message: string) | NullPointerException

  /**
   * What decoding makes of one record: `Ok(Some(entry))` to add, `Ok(None)`
   * when a `ParseException` skips it, `Err` when a missing field is parsed.
   * The id is parsed first, so a record with an invalid id is skipped
   * without its score being looked at.
   */
  function ParseRecord(g: XmlGrade): (r: Result<Option<Entry>, StorageError>)
    ensures r.Err? <==> g.studentId.None? || (IsValidStudentId(g.studentId.value) && g.score.None?)
    ensures r.Err? ==> r.error == NullPointerException
    ensures r == Ok(None) <==>
      g.studentId.Some? && (!IsValidStudentId(g.studentId.value) || (g.score.Some? && !IsValidScore(g.score.value)))
    ensures r.Ok? && r.value.Some? ==>
      g == GradeOf(r.value.value.0.value, r.value.value.1.value)
  {
    match g.studentId
    case None => Err(NullPointerException)
    case Some(rawId) =>
      match ParseStudentId(rawId)
      case Err(_) => Ok(None)
      case Ok(id) =>
        match g.score
        case None => Err(NullPointerException)
        case Some(rawScore) =>
          match ParseScore(rawScore)
          case Err(_) => Ok(None)
          case Ok(s) => Ok(Some((id, s)))
  }

  /** The grade map that `toModelType` builds from the records, processed in list order. */
  function Decode(grades: seq<XmlGrade>): (r: Result<map<StudentId, Score>, StorageError>)
    ensures r.Err? ==> r.error == NullPointerException
    decreases |grades|
  {
    if grades == [] then Ok(map[])
    else
      var n := |grades| - 1;
      match Decode(grades[..n])
      case Err(e) => Err(e)
      case Ok(m) =>
        match ParseRecord(grades[n])
        case Err(e) => Err(e)
        case Ok(None) => Ok(m)
        case Ok(Some(entry)) => Ok(m[entry.0 := entry.1])
  }

  /** Decoding a record list extended at the end processes the new record after the others. */
  lemma DecodeSnoc(gs: seq<XmlGrade>, g: XmlGrade)
    ensures Decode(gs + [g]) ==
      match Decode(gs)
      case Err(e) => Err(e)
      case Ok(m) =>
        match ParseRecord(g)
        case Err(e) => Err(e)
        case Ok(None) => Ok(m)
        case Ok(Some(entry)) => Ok(m[entry.0 := entry.1])
  {
    assert (gs + [g])[..|gs|] == gs;
  }

  /** Decoding fails exactly when some record reaches a missing field; no record failing to parse causes it. */
  lemma {:induction false} DecodeFailsIffFieldMissing(gs: seq<XmlGrade>)
    ensures Decode(gs).Err? <==> exists i :: 0 <= i < |gs| && ParseRecord(gs[i]).Err?
    decreases |gs|
  {
    if gs != [] {
      var init, last := gs[..|gs| - 1], gs[|gs| - 1];
      assert gs == init + [last];
      DecodeFailsIffFieldMissing(init);
      DecodeSnoc(init, last);
      assert forall i :: 0 <= i < |init| ==> init[i] == gs[i];
    }
  }

  /** Decoding `p + ys` is one fold step after decoding `p` and all but the last record of `ys`. */
  lemma DecodeAppendLast(p: seq<XmlGrade>, ys: seq<XmlGrade>)
    requires ys != []
    ensures Decode(p + ys) ==
      match Decode(p + ys[..|ys| - 1])
      case Err(e) => Err(e)
      case Ok(m) =>
        match ParseRecord(ys[|ys| - 1])
        case Err(e) => Err(e)
        case Ok(None) => Ok(m)
        case Ok(Some(entry)) => Ok(m[entry.0 := entry.1])
  {
    var init, last := ys[..|ys| - 1], ys[|ys| - 1];
    assert p + ys == (p + init) + [last];
    DecodeSnoc(p + init, last);
  }

  /** Decoding one more record of `gs` is one more fold step. */
  lemma DecodeStep(gs: seq<XmlGrade>, i: nat)
    requires i < |gs|
    ensures Decode(gs[..i + 1]) ==
      match Decode(gs[..i])
      case Err(e) => Err(e)
      case Ok(m) =>
        match ParseRecord(gs[i])
        case Err(e) => Err(e)
        case Ok(None) => Ok(m)
        case Ok(Some(entry)) => Ok(m[entry.0 := entry.1])
  {
    assert gs[..i + 1] == gs[..i] + [gs[i]];
    DecodeSnoc(gs[..i], gs[i]);
  }

  /** One record that reaches a missing field makes the whole decode fail. */
  lemma RecordErrAborts(gs: seq<XmlGrade>, i: nat)
    requires i < |gs| && ParseRecord(gs[i]).Err?
    ensures Decode(gs).Err?
  {
    DecodeFailsIffFieldMissing(gs);
  }

  /** Every decoded entry comes from a record that parses to it. */
  lemma {:induction false} DecodedEntriesComeFromRecords(gs: seq<XmlGrade>)
    requires Decode(gs).Ok?
    ensures forall k :: k in Decode(gs).value ==>
      exists i :: 0 <= i < |gs| && ParseRecord(gs[i]) == Ok(Some((k, Decode(gs).value[k])))
    decreases |gs|
  {
    if gs != [] {
      var init, last := gs[..|gs| - 1], gs[|gs| - 1];
      assert gs == init + [last];
      DecodeSnoc(init, last);
      DecodedEntriesComeFromRecords(init);
      EntriesFromRecordsStep(init, last);
    }
  }

  /** The step of `DecodedEntriesComeFromRecords`: an entry comes from the new record or from an earlier one. */
  lemma EntriesFromRecordsStep(init: seq<XmlGrade>, last: XmlGrade)
    requires Decode(init).Ok? && Decode(init + [last]).Ok?
    requires forall k :: k in Decode(init).value ==>
      exists i :: 0 <= i < |init| && ParseRecord(init[i]) == Ok(Some((k, Decode(init).value[k])))
    ensures forall k :: k in Decode(init + [last]).value ==>
      exists i :: 0 <= i < |init + [last]| && ParseRecord((init + [last])[i]) == Ok(Some((k, Decode(init + [last]).value[k])))
  {
    var gs := init + [last];
    DecodeSnoc(init, last);
    var m := Decode(gs).value;
    forall k | k in m ensures exists i :: 0 <= i < |gs| && ParseRecord(gs[i]) == Ok(Some((k, m[k]))) {
      if ParseRecord(last) == Ok(Some((k, m[k]))) {
        assert gs[|gs| - 1] == last;
      } else {
        var i :| 0 <= i < |init| && ParseRecord(init[i]) == Ok(Some((k, Decode(init).value[k])));
        assert gs[i] == init[i];
      }
    }
  }

  /** What follows a prefix depends only on what the prefix decodes to. */
  lemma {:induction false} DecodeDependsOnPrefixResult(p: seq<XmlGrade>, q: seq<XmlGrade>, ys: seq<XmlGrade>)
    requires Decode(p) == Decode(q)
    ensures Decode(p + ys) == Decode(q + ys)
    decreases |ys|
  {
    if ys == [] {
      assert p + ys == p && q + ys == q;
    } else {
      DecodeDependsOnPrefixResult(p, q, ys[..|ys| - 1]);
      DecodeAppendLast(p, ys);
      DecodeAppendLast(q, ys);
    }
  }

  /**
   * A record whose id or score fails to parse is skipped: the records
   * around it load as if it were not there.
   */
  lemma SkipsUnparsableRecord(xs: seq<XmlGrade>, g: XmlGrade, ys: seq<XmlGrade>)
    requires g.studentId.Some?
    requires !IsValidStudentId(g.studentId.value) || (g.score.Some? && !IsValidScore(g.score.value))
    ensures Decode(xs + [g] + ys) == Decode(xs + ys)
  {
    DecodeSnoc(xs, g);
    DecodeDependsOnPrefixResult(xs + [g], xs, ys);
  }

  /** No record of `ys` parses to an entry for `id`. */
  predicate NoEntryFor(ys: seq<XmlGrade>, id: StudentId) {
    forall i :: 0 <= i < |ys| ==> !(ParseRecord(ys[i]).Ok? && ParseRecord(ys[i]).value.Some? &&
                                    ParseRecord(ys[i]).value.value.0 == id)
  }

  /** Dropping the last record keeps `NoEntryFor`. */
  lemma NoEntryForPrefix(ys: seq<XmlGrade>, id: StudentId)
    requires ys != [] && NoEntryFor(ys, id)
    ensures NoEntryFor(ys[..|ys| - 1], id)
  {
    var init := ys[..|ys| - 1];
    forall i | 0 <= i < |init| ensures init[i] == ys[i] { }
  }

  lemma {:induction false} LaterRecordsKeepEntry(p: seq<XmlGrade>, ys: seq<XmlGrade>, id: StudentId, s: Score)
    requires Decode(p).Ok? && id in Decode(p).value && Decode(p).value[id] == s
    requires NoEntryFor(ys, id)
    ensures Decode(p + ys).Ok? ==> id in Decode(p + ys).value && Decode(p + ys).value[id] == s
    decreases |ys|
  {
    if ys == [] {
      assert p + ys == p;
    } else {
      NoEntryForPrefix(ys, id);
      LaterRecordsKeepEntry(p, ys[..|ys| - 1], id, s);
      KeepEntryStep(p, ys, id, s);
    }
  }

  /** The step of `LaterRecordsKeepEntry`: a last record with no entry for `id` keeps its score. */
  lemma KeepEntryStep(p: seq<XmlGrade>, ys: seq<XmlGrade>, id: StudentId, s: Score)
    requires ys != []
    requires Decode(p + ys[..|ys| - 1]).Ok? ==>
      id in Decode(p + ys[..|ys| - 1]).value && Decode(p + ys[..|ys| - 1]).value[id] == s
    requires NoEntryFor(ys, id)
    ensures Decode(p + ys).Ok? ==> id in Decode(p + ys).value && Decode(p + ys).value[id] == s
  {
    DecodeAppendLast(p, ys);
    var r := ParseRecord(ys[|ys| - 1]);
    assert !(r.Ok? && r.value.Some? && r.value.value.0 == id);
  }

  /**
   * Records are upserted in list order, so of several records for one
   * student the last one that parses decides the stored score.
   */
  lemma LastValidRecordWins(xs: seq<XmlGrade>, id: StudentId, s: Score, ys: seq<XmlGrade>)
    requires NoEntryFor(ys, id)
    requires Decode(xs + [FromEntry((id, s))] + ys).Ok?
    ensures id in Decode(xs + [FromEntry((id, s))] + ys).value
    ensures Decode(xs + [FromEntry((id, s))] + ys).value[id] == s
  {
    var g := FromEntry((id, s));
    var p := xs + [g];
    DecodeSnoc(xs, g);
    assert Decode(p).Ok? by {
      DecodeFailsIffFieldMissing(p);
      DecodeFailsIffFieldMissing(p + ys);
      forall i | 0 <= i < |p| ensures (p + ys)[i] == p[i] { }
    }
    LaterRecordsKeepEntry(p, ys, id, s);
  }

  /** The map built by upserting `es` in order. */
  function Upserts(es: seq<Entry>): map<StudentId, Score> {
    if es == [] then map[]
    else Upserts(es[..|es| - 1])[es[|es| - 1].0 := es[|es| - 1].1]
  }

  /** A record written from an entry parses back to that entry. */
  lemma RecordRoundTrip(e: Entry)
    ensures ParseRecord(FromEntry(e)) == Ok(Some(e))
  {
    StudentIdRoundTrip(e.0);
    ScoreRoundTrip(e.1);
  }

  /** Decoding the records of a list of entries upserts those entries in order. */
  lemma {:induction false} DecodeRecords(es: seq<Entry>)
    ensures Decode(Records(es)) == Ok(Upserts(es))
    decreases |es|
  {
    if es != [] {
      var init, last := es[..|es| - 1], es[|es| - 1];
      DecodeRecords(init);
      assert Records(es) == Records(init) + [FromEntry(last)];
      DecodeSnoc(Records(init), FromEntry(last));
      RecordRoundTrip(last);
    }
  }

  /** The ids of a list extended at the end are the ids before plus the new one. */
  lemma KeysOfSnoc(es: seq<Entry>, e: Entry)
    ensures KeysOf(es + [e]) == KeysOf(es) + {e.0}
  {
    var xs := es + [e];
    assert xs[|es|].0 == e.0;
    forall k | k in KeysOf(xs) ensures k in KeysOf(es) + {e.0} {
      var i :| 0 <= i < |xs| && xs[i].0 == k;
      if i < |es| { assert es[i].0 == k; }
    }
    forall k | k in KeysOf(es) ensures k in KeysOf(xs) {
      var i :| 0 <= i < |es| && es[i].0 == k;
      assert xs[i] == es[i];
    }
  }

  /** Upserting entries with distinct ids stores each entry's score under its id, and nothing else. */
  lemma {:induction false} UpsertsDistinct(es: seq<Entry>)
    requires forall i, j :: 0 <= i < j < |es| ==> es[i].0 != es[j].0
    ensures Upserts(es).Keys == KeysOf(es)
    ensures forall i :: 0 <= i < |es| ==> Upserts(es)[es[i].0] == es[i].1
    decreases |es|
  {
    if es != [] {
      var init, last := es[..|es| - 1], es[|es| - 1];
      assert es == init + [last];
      UpsertsDistinct(init);
      KeysOfSnoc(init, last);
      UpsertsDistinctStep(init, last);
    }
  }

  /** The inductive step of `UpsertsDistinct`: a new id's entry leaves the earlier entries' scores alone. */
  lemma UpsertsDistinctStep(init: seq<Entry>, last: Entry)
    requires forall i :: 0 <= i < |init| ==> init[i].0 != last.0
    requires Upserts(init).Keys == KeysOf(init)
    requires forall i :: 0 <= i < |init| ==> init[i].0 in Upserts(init) && Upserts(init)[init[i].0] == init[i].1
    ensures forall i :: 0 <= i < |init| + 1 ==>
      Upserts(init + [last])[(init + [last])[i].0] == (init + [last])[i].1
  {
    var es := init + [last];
    assert es[..|es| - 1] == init;
    forall i | 0 <= i < |es| ensures Upserts(es)[es[i].0] == es[i].1 {
      if i < |init| { assert es[i] == init[i]; }
    }
  }

  /** Upserting a sorted listing of a map rebuilds the map. */
  lemma UpsertsOfListing(m: map<StudentId, Score>, es: seq<Entry>)
    requires IsSortedListing(m, es)
    ensures Upserts(es) == m
  {
    forall i, j | 0 <= i < j < |es| ensures es[i].0 != es[j].0 {
      assert IdLess(es[i].0, es[j].0);
      if es[i].0 == es[j].0 {
        LexLessIrreflexive(es[i].0.value);
      }
    }
    UpsertsDistinct(es);
    var u := Upserts(es);
    forall k | k in m ensures u[k] == m[k] {
      var i :| 0 <= i < |es| && es[i].0 == k;
    }
  }

  /** Round trip: decoding the encoding of a grade book's map gives back the same map. */
  lemma RoundTrip(m: map<StudentId, Score>)
    ensures Decode(Records(Listing(m))) == Ok(m)
  {
    DecodeRecords(Listing(m));
    UpsertsOfListing(m, Listing(m));
  }

  class XmlAdaptedGradeBook {
    /** The stored records, in the order they are read and written. */
    var grades: seq<XmlGrade>

    /** The no-argument constructor: no records. */
    constructor ()
      ensures grades == []
    {
      grades := [];
    }

    /** Encoding: one record per entry of `source`, in ascending id order. */
    constructor FromGradeBook(source: GradeBook)
      ensures grades == Records(Listing(source.grades))
      ensures |grades| == |source.grades|
    {
      var es := source.Stream();
      var records: seq<XmlGrade> := [];
      var i := 0;
      while i < |es|
        invariant 0 <= i <= |es|
        invariant records == Records(es[..i])
      {
        assert Records(es[..i + 1]) == Records(es[..i]) + [FromEntry(es[i])];
        records := records + [FromEntry(es[i])];
        i := i + 1;
      }
      assert es[..|es|] == es;
      ListingLength(source.grades, es);
      grades := records;
    }

    /**
     * `toModelType`: a new grade book holding the records that parse,
     * upserted in list order; a missing field aborts with an exception.
     */
    method ToModelType() returns (r: Result<GradeBook, StorageError>)
      ensures r.Err? <==> Decode(grades).Err?
      ensures r.Err? ==> r.error == NullPointerException
      ensures r.Ok? ==> fresh(r.value) && r.value.grades == Decode(grades).value
    {
      var gradebook := new GradeBook();
      var i := 0;
      while i < |grades|
        invariant 0 <= i <= |grades|
        invariant fresh(gradebook)
        invariant Decode(grades[..i]) == Ok(gradebook.grades)
      {
        var g := grades[i];
        DecodeStep(grades, i);
        if g.studentId.None? {
          RecordErrAborts(grades, i);
          return Err(NullPointerException);
        }
        var id := ParseStudentId(g.studentId.value);
        if id.Err? {
          i := i + 1;
          continue;
        }
        if g.score.None? {
          RecordErrAborts(grades, i);
          return Err(NullPointerException);
        }
        var score := ParseScore(g.score.value);
        if score.Ok? {
          gradebook.AddGrade(id.value, score.value);
        }
        i := i + 1;
      }
      assert grades[..|grades|] == grades;
      return Ok(gradebook);
    }
  }

  /** A default-constructed adapter decodes to an empty grade book. */
  method DecodeEmptyAdapter() returns (gradebook: GradeBook)
    ensures gradebook.grades == map[]
  {
    var adapter := new XmlAdaptedGradeBook();
    var r := adapter.ToModelType();
    assert r.Ok?;
    gradebook := r.value;
  }
}
