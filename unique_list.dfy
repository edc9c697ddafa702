/**
 * The identity-enforcing ordered container behind UniqueAssignmentList (and,
 * with other identities, the student list and the tutorial-group directory).
 * Two elements are "the same" when their identities are equal; insertion and
 * replacement use that sameness, while removal and the replacement target use
 * full equality.
 */
module UniqueLists {
  import opened Results
  import opened JavaText

  /** `DuplicateAssignmentException` / `AssignmentNotFoundException` and their counterparts. */
  datatype ListError = DuplicateEntity | EntityNotFound

  /**
   * The first index whose element's key is `k`, scanning from the front as
   * `anyMatch`, `indexOf` and the id lookups do.
   */
  function FirstWith<T, K(==)>(xs: seq<T>, key: T -> K, k: K): (r: Option<nat>)
    ensures r.None? <==> forall i :: 0 <= i < |xs| ==> key(xs[i]) != k
    ensures r.Some? ==> r.value < |xs| && key(xs[r.value]) == k
    ensures r.Some? ==> forall j :: 0 <= j < r.value ==> key(xs[j]) != k
  {
    if xs == [] then None
    else if key(xs[0]) == k then Some(0)
    else match FirstWith(xs[1..], key, k)
      case None => None
      case Some(i) => Some(i + 1)
  }

  /** `List.indexOf` under full equality; `None` stands for -1. */
  function IndexOf<T(==)>(xs: seq<T>, x: T): (r: Option<nat>)
    ensures r.None? <==> x !in xs
    ensures r.Some? ==> r.value < |xs| && xs[r.value] == x && x !in xs[..r.value]
  {
    var r := FirstWith(xs, (y: T) => y, x);
    assert r.Some? ==> forall j :: 0 <= j < r.value ==> xs[..r.value][j] != x;
    r
  }

  /** No two elements share an identity. */
  predicate Unique<T, K(==)>(xs: seq<T>, identity: T -> K) {
    forall i, j :: 0 <= i < j < |xs| ==> identity(xs[i]) != identity(xs[j])
  }

  function RemoveAt<T>(xs: seq<T>, k: nat): seq<T>
    requires k < |xs|
  {
    xs[..k] + xs[k + 1..]
  }

  lemma RemoveAtKeepsUnique<T, K>(xs: seq<T>, k: nat, identity: T -> K)
    requires k < |xs| && Unique(xs, identity)
    ensures Unique(RemoveAt(xs, k), identity)
  {
    var ys := RemoveAt(xs, k);
    forall i, j | 0 <= i < j < |ys| ensures identity(ys[i]) != identity(ys[j]) {
      var i', j' := if i < k then i else i + 1, if j < k then j else j + 1;
      assert ys[i] == xs[i'] && ys[j] == xs[j'];
    }
  }

  /** `assignmentsAreUnique`: the pairwise check of the bulk replacement. */
  method ItemsAreUnique<T, K(==)>(xs: seq<T>, identity: T -> K) returns (r: bool)
    ensures r <==> Unique(xs, identity)
    ensures |xs| <= 1 ==> r
  {
    var i := 0;
    while i < |xs| - 1
      invariant 0 <= i <= |xs| || (i == 0 && xs == [])
      invariant forall a, b :: 0 <= a < i && a < b < |xs| ==> identity(xs[a]) != identity(xs[b])
    {
      var j := i + 1;
      while j < |xs|
        invariant i + 1 <= j <= |xs|
        invariant forall b :: i < b < j ==> identity(xs[i]) != identity(xs[b])
      {
        if identity(xs[i]) == identity(xs[j]) {
          return false;
        }
        j := j + 1;
      }
      i := i + 1;
    }
    return true;
  }

  class UniqueList<T(==), K(==)> {
    /** The identity whose equality is "the same element" (`isSameAssignment`). */
    const identity: T -> K
    /** `internalList`; observers see it read-only. */
    var items: seq<T>

    constructor (identity: T -> K)
      ensures this.identity == identity && items == []
    {
      this.identity := identity;
      items := [];
    }

    /** Built from a source list without any uniqueness check. */
    constructor FromList(identity: T -> K, source: seq<T>)
      ensures this.identity == identity && items == source
    {
      this.identity := identity;
      items := source;
    }

    /** `contains`: some element has the same identity, whether or not it is equal. */
    predicate Contains(x: T)
      reads this
      ensures Contains(x) <==> exists i :: 0 <= i < |items| && identity(items[i]) == identity(x)
    {
      FirstWith(items, identity, identity(x)).Some?
    }

    /** `add`: a duplicate identity is refused; otherwise the element goes at the end. */
    method Add(x: T) returns (o: Outcome<ListError>)
      modifies this
      ensures old(Contains(x)) ==> o == Fail(DuplicateEntity) && items == old(items)
      ensures !old(Contains(x)) ==> o == Pass && items == old(items) + [x]
      ensures Unique(old(items), identity) ==> Unique(items, identity)
    {
      if Contains(x) {
        return Fail(DuplicateEntity);
      }
      items := items + [x];
      o := Pass;
    }

    /**
     * `setAssignment`: the first element equal to `target` is replaced by
     * `edited` in place, unless `target` is absent or `edited` takes the
     * identity of some element while differing in identity from `target`.
     */
    method Set(target: T, edited: T) returns (o: Outcome<ListError>)
      modifies this
      ensures IndexOf(old(items), target).None? ==> o == Fail(EntityNotFound) && items == old(items)
      ensures IndexOf(old(items), target).Some? && identity(target) != identity(edited) && old(Contains(edited))
        ==> o == Fail(DuplicateEntity) && items == old(items)
      ensures IndexOf(old(items), target).Some? && (identity(target) == identity(edited) || !old(Contains(edited)))
        ==> o == Pass && items == old(items)[IndexOf(old(items), target).value := edited]
      ensures Unique(old(items), identity) ==> Unique(items, identity)
    {
      var index := IndexOf(items, target);
      if index.None? {
        return Fail(EntityNotFound);
      }
      if identity(target) != identity(edited) && Contains(edited) {
        return Fail(DuplicateEntity);
      }
      items := items[index.value := edited];
      o := Pass;
    }

    /** `remove`: the first element fully equal to `x` is deleted; the rest keep their order. */
    method Remove(x: T) returns (o: Outcome<ListError>)
      modifies this
      ensures x !in old(items) ==> o == Fail(EntityNotFound) && items == old(items)
      ensures x in old(items) ==> o == Pass && items == RemoveAt(old(items), IndexOf(old(items), x).value)
      ensures Unique(old(items), identity) ==> Unique(items, identity)
    {
      var index := IndexOf(items, x);
      if index.None? {
        return Fail(EntityNotFound);
      }
      if Unique(items, identity) {
        RemoveAtKeepsUnique(items, index.value, identity);
      }
      items := RemoveAt(items, index.value);
      o := Pass;
    }

    /** `setStudents` (bulk replacement): refused when two entries share an identity. */
    method SetAll(xs: seq<T>) returns (o: Outcome<ListError>)
      modifies this
      ensures Unique(xs, identity) ==> o == Pass && items == xs
      ensures !Unique(xs, identity) ==> o == Fail(DuplicateEntity) && items == old(items)
    {
      var unique := ItemsAreUnique(xs, identity);
      if !unique {
        return Fail(DuplicateEntity);
      }
      items := xs;
      o := Pass;
    }

    /** `clone`: an equal list in a new object, so later updates of either leave the other alone. */
    method Clone() returns (other: UniqueList<T, K>)
      ensures fresh(other)
      ensures other.identity == identity && other.items == items
    {
      other := new UniqueList(identity);
      other.items := items;
    }

    /** `hashCode`: the backing list's hash, given the elements' hash. */
    function HashCode(hash: T -> int32): (h: int32)
      reads this
      ensures |items| == 0 ==> h == 1
    {
      ListHash(items, hash)
    }

    /** `equals`: the same object, or element-wise equal lists. */
    predicate Equals(other: UniqueList<T, K>)
      reads this, other
      ensures Equals(other) <==> items == other.items
    {
      other == this || items == other.items
    }
  }
}
