/** The BetterSet class: an insertion-ordered collection of distinct values
    with chainable mutators, combinators and set algebra. */
module BetterSets {
  import opened SeqSpec

  /** A JavaScript array as pushTo uses it: a list that callers grow with push. */
  class JsArray<T> {
    var items: seq<T>

    constructor (items: seq<T>)
      ensures this.items == items
    {
      this.items := items;
    }

    method Push(x: T)
      modifies this
      ensures items == old(items) + [x]
    {
      items := items + [x];
    }
  }

  class BetterSet<T(==)> {
    /** The native Set held in `_set`, as its list of entries in insertion order. */
    var elems: seq<T>

    /** A native Set never holds a value twice. */
    ghost predicate Valid()
      reads this
    {
      NoDup(elems)
    }

    /** The values held, forgetting order. */
    ghost function Members(): set<T>
      reads this
    {
      Elements(elems)
    }

    /** `new BetterSet(values)` for an iterable: the distinct values, in first-occurrence order. */
    constructor (values: seq<T>)
      ensures Valid() && elems == Dedup(values)
      ensures forall x :: x in elems <==> x in values
    {
      elems := Dedup(values);
      new;
      DedupFirstOccurrence(values);
    }

    /** `new BetterSet(other)`: a fresh Set built from `other._set`, so the two share no storage. */
    constructor Copy(other: BetterSet<T>)
      requires other.Valid()
      ensures Valid() && elems == other.elems
    {
      DedupOfNoDup(other.elems);
      elems := Dedup(other.elems);
    }

    method Add(value: T) returns (r: BetterSet<T>)
      requires Valid()
      modifies this
      ensures Valid() && r == this
      ensures elems == Insert(old(elems), value)
      ensures value in Members()
      ensures |elems| == |old(elems)| + (if value in old(elems) then 0 else 1)
    {
      InsertNoDup(elems, value);
      elems := Insert(elems, value);
      r := this;
    }

    method AddAll(values: seq<T>) returns (r: BetterSet<T>)
      requires Valid()
      modifies this
      ensures Valid() && r == this
      ensures elems == InsertAll(old(elems), values)
      ensures forall x :: x in elems <==> x in old(elems) || x in values
      ensures |old(elems)| <= |elems| && elems[..|old(elems)|] == old(elems)
    {
      for i := 0 to |values|
        invariant Valid()
        invariant elems == InsertAll(old(elems), values[..i])
      {
        assert values[..i + 1][..i] == values[..i];
        InsertNoDup(elems, values[i]);
        elems := Insert(elems, values[i]);
      }
      assert values[..|values|] == values;
      InsertAllMembers(old(elems), values);
      InsertAllPrefix(old(elems), values);
      r := this;
    }

    method Clear() returns (r: BetterSet<T>)
      modifies this
      ensures Valid() && r == this && elems == []
    {
      elems := [];
      r := this;
    }

    method Delete(value: T) returns (removed: bool)
      requires Valid()
      modifies this
      ensures Valid()
      ensures removed == (value in old(elems))
      ensures elems == Remove(old(elems), value)
      ensures value !in elems
      ensures removed ==> var k := FirstIndex(old(elems), value);
                          elems == old(elems)[..k] + old(elems)[k + 1..]
      ensures !removed ==> elems == old(elems)
    {
      removed := value in elems;
      FilterNoDup(elems, Other(value));
      if removed {
        RemoveAt(elems, FirstIndex(elems, value));
      } else {
        RemoveAbsent(elems, value);
      }
      elems := Remove(elems, value);
    }

    method GetSize() returns (n: nat)
      requires Valid()
      ensures n == |elems| && n == |Members()|
    {
      NoDupCardinality(elems);
      n := |elems|;
    }

    method Has(value: T) returns (b: bool)
      ensures b <==> value in Members()
    {
      b := value in elems;
    }

    /** Removes the values of `other`. The traversal of `other` deletes at most
        the value it is visiting, so it visits what `other` held on entry even
        when `other` is this very set. */
    method Difference(other: BetterSet<T>) returns (r: BetterSet<T>)
      requires Valid()
      modifies this
      ensures Valid() && r == this
      ensures elems == Filtered(old(elems), Not(InSeq(old(other.elems))))
      ensures forall x :: x in elems <==> x in old(elems) && x !in old(other.elems)
      ensures other != this ==> other.elems == old(other.elems)
    {
      var visit := other.elems;
      ghost var start := elems;
      FilterIdentity(start, Not(InSeq(visit[..0])));
      for i := 0 to |visit|
        invariant Valid()
        invariant elems == Filtered(start, Not(InSeq(visit[..i])))
      {
        DifferenceStepAt(start, visit, i);
        var _ := Delete(visit[i]);
      }
      assert visit[..|visit|] == visit;
      r := this;
    }

    /** Removes the values `other` lacks, testing each with `other.has` as the
        traversal reaches it; only the visited value is ever deleted. */
    method Intersection(other: BetterSet<T>) returns (r: BetterSet<T>)
      requires Valid()
      modifies this
      ensures Valid() && r == this
      ensures elems == Filtered(old(elems), InSeq(old(other.elems)))
      ensures forall x :: x in elems <==> x in old(elems) && x in old(other.elems)
      ensures other != this ==> other.elems == old(other.elems)
    {
      var visit := elems;
      ghost var against := other.elems;
      for i := 0 to |visit|
        invariant Valid()
        invariant elems == Filtered(visit[..i], InSeq(against)) + visit[i..]
        invariant other != this ==> other.elems == against
        invariant other == this ==> against == visit
      {
        FilterInPlaceStep(visit, i, InSeq(against));
        assert visit[i] in visit[i..];
        var present := other.Has(visit[i]);
        if !present {
          var _ := Delete(visit[i]);
        }
      }
      assert visit[..|visit|] == visit;
      r := this;
    }

    /** Adds the values of `other`, in `other`'s order. */
    method Union(other: BetterSet<T>) returns (r: BetterSet<T>)
      requires Valid() && other.Valid()
      modifies this
      ensures Valid() && r == this
      ensures elems == InsertAll(old(elems), old(other.elems))
      ensures elems == old(elems) + Filtered(old(other.elems), Not(InSeq(old(elems))))
      ensures other != this ==> other.elems == old(other.elems)
    {
      var visit := other.elems;
      for i := 0 to |visit|
        invariant Valid()
        invariant elems == InsertAll(old(elems), visit[..i])
      {
        assert visit[..i + 1][..i] == visit[..i];
        var _ := Add(visit[i]);
      }
      assert visit[..|visit|] == visit;
      InsertAllAppendsMissing(old(elems), visit);
      r := this;
    }

    /** Appends every value, in insertion order, to the caller's array and returns that array. */
    method PushTo(arr: JsArray<T>) returns (r: JsArray<T>)
      modifies arr
      ensures r == arr
      ensures arr.items == old(arr.items) + elems
    {
      for i := 0 to |elems|
        invariant arr.items == old(arr.items) + elems[..i]
      {
        assert elems[..i + 1] == elems[..i] + [elems[i]];
        arr.Push(elems[i]);
      }
      assert elems[..|elems|] == elems;
      r := arr;
    }

    /** The callback's results in insertion order; equal results are all kept. */
    method Map<U>(callback: T -> U) returns (result: seq<U>)
      ensures |result| == |elems|
      ensures forall i :: 0 <= i < |elems| ==> result[i] == callback(elems[i])
    {
      result := [];
      for i := 0 to |elems|
        invariant |result| == i
        invariant forall j :: 0 <= j < i ==> result[j] == callback(elems[j])
      {
        result := result + [callback(elems[i])];
      }
    }

    /** A new set of the values that pass `pred`; this set is left as it was. */
    method Filter(pred: T -> bool) returns (result: BetterSet<T>)
      requires Valid()
      ensures fresh(result) && result.Valid()
      ensures result.elems == Filtered(elems, pred)
    {
      result := new BetterSet<T>([]);
      for i := 0 to |elems|
        invariant fresh(result) && result.Valid()
        invariant result.elems == Filtered(elems[..i], pred)
      {
        FilterSnoc(elems, i, pred);
        if pred(elems[i]) {
          var _ := result.Add(elems[i]);
        }
      }
      assert elems[..|elems|] == elems;
    }

    /** A new set of the values that fail `pred`. */
    method Reject(pred: T -> bool) returns (result: BetterSet<T>)
      requires Valid()
      ensures fresh(result) && result.Valid()
      ensures result.elems == Filtered(elems, Not(pred))
    {
      result := Filter(Not(pred));
    }

    /** Deletes the values that pass `pred`, visiting each value once. */
    method DeleteAll(pred: T -> bool) returns (r: BetterSet<T>)
      requires Valid()
      modifies this
      ensures Valid() && r == this
      ensures elems == Filtered(old(elems), Not(pred))
    {
      var visit := elems;
      for i := 0 to |visit|
        invariant Valid()
        invariant elems == Filtered(visit[..i], Not(pred)) + visit[i..]
      {
        FilterInPlaceStep(visit, i, Not(pred));
        if pred(visit[i]) {
          var _ := Delete(visit[i]);
        }
      }
      assert visit[..|visit|] == visit;
      r := this;
    }

    /** Deletes the values that fail `pred`. */
    method KeepAll(pred: T -> bool) returns (r: BetterSet<T>)
      requires Valid()
      modifies this
      ensures Valid() && r == this
      ensures elems == Filtered(old(elems), pred)
    {
      r := DeleteAll(Not(pred));
      FilterExt(old(elems), Not(Not(pred)), pred);
    }

    /** Whether every value passes `pred`; stops at the first that fails. */
    method Every(pred: T -> bool) returns (b: bool)
      ensures b <==> forall x :: x in elems ==> pred(x)
    {
      for i := 0 to |elems|
        invariant forall j :: 0 <= j < i ==> pred(elems[j])
      {
        if !pred(elems[i]) {
          return false;
        }
      }
      return true;
    }

    /** Whether no value passes `pred`. */
    method None(pred: T -> bool) returns (b: bool)
      ensures b <==> forall x :: x in elems ==> !pred(x)
    {
      b := Every(Not(pred));
    }

    /** Whether some value passes `pred`; stops at the first that does. */
    method Any(pred: T -> bool) returns (b: bool)
      ensures b <==> exists x :: x in elems && pred(x)
    {
      for i := 0 to |elems|
        invariant forall j :: 0 <= j < i ==> !pred(elems[j])
      {
        if pred(elems[i]) {
          return true;
        }
      }
      return false;
    }

    /** Whether every value of this set is also in `other`. */
    method AreAllIn(other: BetterSet<T>) returns (b: bool)
      ensures b <==> Members() <= other.Members()
    {
      b := Every(InSeq(other.elems));
      if b {
        forall x | x in Members() ensures x in other.Members() {
          assert InSeq(other.elems)(x);
        }
      } else {
        var x :| x in elems && !InSeq(other.elems)(x);
        assert x in Members() && x !in other.Members();
      }
    }

    /** Replaces the contents with the distinct values of `arr`, in first-occurrence order. */
    method FromArray(arr: seq<T>) returns (r: BetterSet<T>)
      modifies this
      ensures Valid() && r == this
      ensures elems == Dedup(arr)
    {
      var _ := Clear();
      for i := 0 to |arr|
        invariant Valid()
        invariant elems == InsertAll([], arr[..i])
      {
        assert arr[..i + 1][..i] == arr[..i];
        var _ := Add(arr[i]);
      }
      assert arr[..|arr|] == arr;
      r := this;
    }

    /** A new array holding the values in insertion order. */
    method ToArray() returns (result: seq<T>)
      ensures result == elems
    {
      result := [];
      for i := 0 to |elems|
        invariant result == elems[..i]
      {
        assert elems[..i + 1] == elems[..i] + [elems[i]];
        result := result + [elems[i]];
      }
      assert elems[..|elems|] == elems;
    }
  }

  /** Static `BetterSet.intersection`: copies the smaller set (the second when
      the sizes are equal) and intersects the copy with the other. */
  method IntersectionOf<T(==)>(set1: BetterSet<T>, set2: BetterSet<T>) returns (r: BetterSet<T>)
    requires set1.Valid() && set2.Valid()
    ensures fresh(r) && r.Valid()
    ensures r.elems == if |set1.elems| < |set2.elems|
                       then Filtered(set1.elems, InSeq(set2.elems))
                       else Filtered(set2.elems, InSeq(set1.elems))
    ensures forall x :: x in r.elems <==> x in set1.elems && x in set2.elems
  {
    var n1 := set1.GetSize();
    var n2 := set2.GetSize();
    if n1 < n2 {
      r := new BetterSet<T>.Copy(set1);
      r := r.Intersection(set2);
    } else {
      r := new BetterSet<T>.Copy(set2);
      r := r.Intersection(set1);
    }
  }

  /** Static `BetterSet.union`: a copy of `set1` with the values of `set2` added. */
  method UnionOf<T(==)>(set1: BetterSet<T>, set2: BetterSet<T>) returns (r: BetterSet<T>)
    requires set1.Valid() && set2.Valid()
    ensures fresh(r) && r.Valid()
    ensures r.elems == set1.elems + Filtered(set2.elems, Not(InSeq(set1.elems)))
    ensures forall x :: x in r.elems <==> x in set1.elems || x in set2.elems
  {
    r := new BetterSet<T>.Copy(set1);
    r := r.Union(set2);
  }

  /** Static `BetterSet.fromArray`: a new set holding the distinct values of `arr`. */
  method NewFromArray<T(==)>(arr: seq<T>) returns (r: BetterSet<T>)
    ensures fresh(r) && r.Valid()
    ensures r.elems == Dedup(arr)
  {
    r := new BetterSet<T>([]);
    r := r.FromArray(arr);
  }

  /** Static `BetterSet.pushTo(array, set)` as its name promises: the instance pushTo. */
  method StaticPushTo<T(==)>(arr: JsArray<T>, source: BetterSet<T>) returns (r: JsArray<T>)
    modifies arr
    ensures r == arr
    ensures arr.items == old(arr.items) + source.elems
  {
    r := source.PushTo(arr);
  }

  /** `BetterSet.fromArray(array).toArray()`: each distinct value once, in the
      order of its first occurrence in `arr`. */
  method FromArrayToArray<T(==)>(arr: seq<T>) returns (result: seq<T>)
    ensures NoDup(result)
    ensures forall x :: x in result <==> x in arr
    ensures forall i, j :: 0 <= i < j < |result| ==>
              FirstIndex(arr, result[i]) < FirstIndex(arr, result[j])
  {
    var s := NewFromArray(arr);
    result := s.ToArray();
    DedupFirstOccurrence(arr);
  }

  /** `new BetterSet()` given 1, 2 and 3 by addAll, then 2 deleted: 1 and 3 remain, in that order. */
  method AddAllThenDelete() returns (result: seq<int>)
    ensures result == [1, 3]
  {
    var s := new BetterSet<int>([]);
    s := s.AddAll([1, 2, 3]);
    var _ := s.Delete(2);
    AddAllThenDeleteValues();
    result := s.ToArray();
  }

  /** Adding 1, 2 and 3 to an empty set lists them in that order; deleting 2 leaves 1 and 3. */
  lemma AddAllThenDeleteValues()
    ensures InsertAll([], [1, 2, 3]) == [1, 2, 3]
    ensures Remove([1, 2, 3], 2) == [1, 3]
  {
    assert [1, 2, 3][..2] == [1, 2] && [1, 2][..1] == [1];
    RemoveAt([1, 2, 3], 1);
    assert [1, 2, 3][..1] + [1, 2, 3][2..] == [1, 3];
  }

  /** `BetterSet.union` of {1, 2} and {2, 3}: the first set's values, then the new one. */
  method UnionOfOverlapping() returns (result: seq<int>)
    ensures result == [1, 2, 3]
  {
    var a := NewFromArray([1, 2]);
    var b := NewFromArray([2, 3]);
    var u := UnionOf(a, b);
    OverlapValues();
    result := u.ToArray();
  }

  /** {1, 2} and {2, 3} built from arrays keep their order, and of {2, 3} only 3
      is missing from {1, 2}. */
  lemma OverlapValues()
    ensures Dedup([1, 2]) == [1, 2] && Dedup([2, 3]) == [2, 3]
    ensures Filtered([2, 3], Not(InSeq([1, 2]))) == [3]
  {
    DedupPair(1, 2);
    DedupPair(2, 3);
    OnlyNewMissing(1, 2, 3);
  }

  /** Two distinct values given to `new Set` keep their order. */
  lemma DedupPair(a: int, b: int)
    requires a != b
    ensures Dedup([a, b]) == [a, b]
  {
    assert [a, b][..1] == [a] && [a][..0] == [];
    assert InsertAll([], [a]) == [a];
  }

  /** Of {b, c}, only c is missing from {a, b}. */
  lemma OnlyNewMissing(a: int, b: int, c: int)
    requires c != a && c != b
    ensures Filtered([b, c], Not(InSeq([a, b]))) == [c]
  {
    var missing := Not(InSeq([a, b]));
    assert [b, c][1..] == [c] && [c][1..] == [];
    assert Filtered([c], missing) == [c] + Filtered([], missing);
  }
}
