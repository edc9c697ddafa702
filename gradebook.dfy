/**
 * One assignment's grade book: a map from student id to score, with upsert,
 * removal and a listing of its entries ordered by the id's string form.
 */
module GradeBooks {
  import opened Results
  import opened JavaText
  import opened Entities
  import opened ScoreValue

  /** An entry of the grade book's map, as `stream` yields it. */
  type Entry = (StudentId, Score)

  /** The comparator of `stream`: the ids' string forms under `String.compareTo`. */
  predicate IdLess(a: StudentId, b: StudentId) {
    LexLess(a.value, b.value)
  }

  function KeysOf(es: seq<Entry>): set<StudentId> {
    set i | 0 <= i < |es| :: es[i].0
  }

  predicate StrictlyAscending(es: seq<Entry>) {
    forall i, j :: 0 <= i < j < |es| ==> IdLess(es[i].0, es[j].0)
  }

  /** `es` lists every entry of `m` exactly once, in ascending id order. */
  ghost predicate IsSortedListing(m: map<StudentId, Score>, es: seq<Entry>) {
    && KeysOf(es) == m.Keys
    && (forall i :: 0 <= i < |es| ==> es[i].0 in m && m[es[i].0] == es[i].1)
    && StrictlyAscending(es)
  }

  /** `k` comes before every other key of `keys`. */
  predicate IsLeast(k: StudentId, keys: set<StudentId>) {
    k in keys && forall k' :: k' in keys && k' != k ==> IdLess(k, k')
  }

  lemma {:induction false} LeastExists(keys: set<StudentId>)
    requires keys != {}
    ensures exists k :: IsLeast(k, keys)
    decreases |keys|
  {
    var x :| x in keys;
    if keys == {x} {
      assert IsLeast(x, keys);
    } else {
      var rest := keys - {x};
      LeastExists(rest);
      var k :| IsLeast(k, rest);
      LexLessTotal(x.value, k.value);
      if IdLess(x, k) {
        forall k' | k' in keys && k' != x ensures IdLess(x, k') {
          if k' != k {
            assert k' in rest;
            LexLessTransitive(x.value, k.value, k'.value);
          }
        }
        assert IsLeast(x, keys);
      } else {
        assert IsLeast(k, keys);
      }
    }
  }

  /** The first entry of a sorted listing holds the least key; the rest list the other entries. */
  lemma {:induction false} ListingHead(m: map<StudentId, Score>, es: seq<Entry>)
    requires IsSortedListing(m, es) && es != []
    ensures IsLeast(es[0].0, m.Keys)
    ensures IsSortedListing(m - {es[0].0}, es[1..])
  {
    var k := es[0].0;
    forall k' | k' in m.Keys && k' != k ensures IdLess(k, k') {
      var j :| 0 <= j < |es| && es[j].0 == k';
    }
    var m' := m - {k};
    forall i | 0 <= i < |es| - 1 ensures es[1..][i].0 != k {
      assert IdLess(k, es[i + 1].0);
      LexLessIrreflexive(k.value);
    }
    assert KeysOf(es[1..]) == m'.Keys by {
      forall x | x in m'.Keys ensures x in KeysOf(es[1..]) {
        var j :| 0 <= j < |es| && es[j].0 == x;
        assert j != 0;
        assert es[1..][j - 1].0 == x;
      }
    }
  }

  /** Two sorted listings of the same map are equal: the ordering leaves no choice. */
  lemma {:induction false} ListingUnique(m: map<StudentId, Score>, a: seq<Entry>, b: seq<Entry>)
    requires IsSortedListing(m, a) && IsSortedListing(m, b)
    ensures a == b
    decreases |a|
  {
    if a == [] {
      assert m.Keys == {};
    } else {
      assert a[0].0 in KeysOf(a);
      ListingHead(m, a);
      ListingHead(m, b);
      var ka, kb := a[0].0, b[0].0;
      if ka != kb {
        LexLessAsymmetric(ka.value, kb.value);
      }
      ListingUnique(m - {ka}, a[1..], b[1..]);
      assert a == [a[0]] + a[1..] && b == [b[0]] + b[1..];
    }
  }

  /** Putting the least key's entry in front of a listing of the other entries lists them all. */
  lemma ListingCons(m: map<StudentId, Score>, k: StudentId, rest: seq<Entry>)
    requires IsLeast(k, m.Keys) && IsSortedListing(m - {k}, rest)
    ensures IsSortedListing(m, [(k, m[k])] + rest)
  {
    var m' := m - {k};
    var es := [(k, m[k])] + rest;
    assert KeysOf(es) == m.Keys by {
      forall x | x in m.Keys ensures x in KeysOf(es) {
        if x != k {
          assert x in m'.Keys;
          var j :| 0 <= j < |rest| && rest[j].0 == x;
          assert es[j + 1].0 == x;
        } else {
          assert es[0].0 == x;
        }
      }
    }
    forall i, j | 0 <= i < j < |es| ensures IdLess(es[i].0, es[j].0) {
      if i == 0 {
        assert es[j].0 == rest[j - 1].0 && rest[j - 1].0 in m'.Keys;
      } else {
        assert es[i] == rest[i - 1] && es[j] == rest[j - 1];
      }
    }
  }

  /** Every map has a sorted listing. */
  lemma {:induction false} ListingExists(m: map<StudentId, Score>)
    ensures exists es :: IsSortedListing(m, es)
    decreases |m|
  {
    if m.Keys == {} {
      assert IsSortedListing(m, []);
    } else {
      LeastExists(m.Keys);
      var k :| IsLeast(k, m.Keys);
      var m' := m - {k};
      assert |m'| < |m| by {
        assert m'.Keys == m.Keys - {k};
      }
      ListingExists(m');
      var rest: seq<Entry> :| IsSortedListing(m', rest);
      ListingCons(m, k, rest);
    }
  }

  /** The sorted listing of `m`: what `stream` yields. */
  ghost function Listing(m: map<StudentId, Score>): (es: seq<Entry>)
    ensures IsSortedListing(m, es)
  {
    ListingExists(m);
    var es: seq<Entry> :| IsSortedListing(m, es);
    es
  }

  /** A sorted listing holds one entry per key of the map, no more. */
  lemma {:induction false} ListingLength(m: map<StudentId, Score>, es: seq<Entry>)
    requires IsSortedListing(m, es)
    ensures |es| == |m|
    decreases |es|
  {
    if es == [] {
      assert m.Keys == KeysOf(es) == {};
    } else {
      ListingHead(m, es);
      ListingLength(m - {es[0].0}, es[1..]);
      assert (m - {es[0].0}).Keys == m.Keys - {es[0].0};
    }
  }

  class GradeBook {
    /** `internalHashmap`: at most one score per student id. */
    var grades: map<StudentId, Score>

    constructor ()
      ensures grades == map[]
    {
      grades := map[];
    }

    /** `getGradeFor`: the score recorded for `id`, or `None` (Java `null`) when there is none. */
    function GetGradeFor(id: StudentId): (r: Option<Score>)
      reads this
      ensures r.None? <==> id !in grades
      ensures r.Some? ==> r.value == grades[id]
    {
      if id in grades then Some(grades[id]) else None
    }

    /** `isStudentIn`: the map has a key equal to the student's id. */
    predicate IsStudentIn(student: Student)
      reads this
      ensures IsStudentIn(student) <==> GetGradeFor(student.id).Some?
    {
      student.id in grades
    }

    /** `addGrade`: upsert; any earlier score for `id` is overwritten, other entries stay. */
    method AddGrade(id: StudentId, score: Score)
      modifies this
      ensures grades == old(grades)[id := score]
      ensures GetGradeFor(id) == Some(score)
      ensures forall k :: k != id ==> GetGradeFor(k) == old(GetGradeFor(k))
    {
      grades := grades[id := score];
    }

    /** `removeStudentReference`: the student's entry is gone and the others stay; absent means no change. */
    method RemoveStudentReference(student: Student)
      modifies this
      ensures grades == old(grades) - {student.id}
      ensures GetGradeFor(student.id) == None
      ensures forall k :: k != student.id ==> GetGradeFor(k) == old(GetGradeFor(k))
      ensures !old(IsStudentIn(student)) ==> grades == old(grades)
    {
      if IsStudentIn(student) {
        grades := grades - {student.id};
      }
    }

    /** `stream`: every entry exactly once, sorted by the id's string form. */
    method Stream() returns (es: seq<Entry>)
      ensures IsSortedListing(grades, es)
      ensures es == Listing(grades)
    {
      es := [];
      var rest := grades.Keys;
      while rest != {}
        invariant rest <= grades.Keys
        invariant KeysOf(es) == grades.Keys - rest
        invariant forall i :: 0 <= i < |es| ==> es[i].0 in grades && grades[es[i].0] == es[i].1
        invariant StrictlyAscending(es)
        invariant forall i, k :: 0 <= i < |es| && k in rest ==> IdLess(es[i].0, k)
        decreases rest
      {
        LeastExists(rest);
        var k :| IsLeast(k, rest);
        ghost var before, restBefore := es, rest;
        es := es + [(k, grades[k])];
        rest := rest - {k};
        assert KeysOf(es) == KeysOf(before) + {k} by {
          assert es[|before|].0 == k;
          forall x | x in KeysOf(es) ensures x in KeysOf(before) + {k} {
            var j :| 0 <= j < |es| && es[j].0 == x;
            if j < |before| { assert before[j].0 == x; }
          }
          forall x | x in KeysOf(before) ensures x in KeysOf(es) {
            var j :| 0 <= j < |before| && before[j].0 == x;
            assert es[j].0 == x;
          }
        }
        forall i, k' | 0 <= i < |es| && k' in rest ensures IdLess(es[i].0, k') {
          if i == |before| {
            assert k' in restBefore && k' != k;
          }
        }
      }
      ListingUnique(grades, es, Listing(grades));
    }
  }

  /** Removing a reference twice is the same as removing it once. */
  lemma RemoveIdempotent(m: map<StudentId, Score>, id: StudentId)
    ensures (m - {id}) - {id} == m - {id}
  {
  }
}
