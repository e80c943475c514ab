/** Specification functions for the element sequence a BetterSet keeps in
    insertion order, and the lemmas the class's methods are proved with. */
module SeqSpec {

  /** No value occurs twice: the invariant of a native Set's entry list. */
  ghost predicate NoDup<T>(s: seq<T>) {
    forall i, j :: 0 <= i < j < |s| ==> s[i] != s[j]
  }

  /** The values held, forgetting order. */
  ghost function Elements<T>(s: seq<T>): set<T> {
    set x | x in s
  }

  /** A set of distinct values has as many members as its entry list has entries. */
  lemma {:induction false} NoDupCardinality<T>(s: seq<T>)
    requires NoDup(s)
    ensures |Elements(s)| == |s|
  {
    if s != [] {
      var t := s[1..];
      NoDupTail(s);
      NoDupCardinality(t);
      assert Elements(s) == {s[0]} + Elements(t);
    }
  }

  /** Dropping the first entry keeps the list duplicate-free, and that entry occurs nowhere later. */
  lemma NoDupTail<T>(s: seq<T>)
    requires NoDup(s) && s != []
    ensures NoDup(s[1..]) && s[0] !in s[1..]
  {
  }

  // ---------------------------------------------------------------------
  // Insertion: Set.prototype.add and a sequence of adds
  // ---------------------------------------------------------------------

  /** The entry list after adding `x`: appended when absent, untouched when present. */
  function Insert<T(==)>(s: seq<T>, x: T): (r: seq<T>)
    ensures x in r && |s| <= |r| <= |s| + 1
  {
    if x in s then s else s + [x]
  }

  /** The entry list after adding every value of `xs`, first to last. */
  function InsertAll<T(==)>(s: seq<T>, xs: seq<T>): (r: seq<T>)
    ensures |s| <= |r| <= |s| + |xs|
    decreases |xs|
  {
    if xs == [] then s else Insert(InsertAll(s, xs[..|xs| - 1]), xs[|xs| - 1])
  }

  /** The distinct values of `xs`: what `new Set(xs)` holds. */
  function Dedup<T(==)>(xs: seq<T>): (r: seq<T>)
    ensures |r| <= |xs|
  {
    InsertAll([], xs)
  }

  lemma InsertNoDup<T>(s: seq<T>, x: T)
    requires NoDup(s)
    ensures NoDup(Insert(s, x))
  {
  }

  /** Adding a value a second time changes nothing. */
  lemma InsertIdempotent<T>(s: seq<T>, x: T)
    ensures Insert(Insert(s, x), x) == Insert(s, x)
  {
  }

  /** After adding all of `xs`, exactly the old values and those of `xs` are present. */
  lemma {:induction false} InsertAllMembers<T>(s: seq<T>, xs: seq<T>)
    ensures forall y :: y in InsertAll(s, xs) <==> y in s || y in xs
  {
    if xs != [] {
      var init := xs[..|xs| - 1];
      InsertAllMembers(s, init);
      assert xs == init + [xs[|xs| - 1]];
    }
  }

  /** Adding values never introduces a duplicate. */
  lemma {:induction false} InsertAllNoDup<T>(s: seq<T>, xs: seq<T>)
    requires NoDup(s)
    ensures NoDup(InsertAll(s, xs))
  {
    if xs != [] {
      InsertAllNoDup(s, xs[..|xs| - 1]);
      InsertNoDup(InsertAll(s, xs[..|xs| - 1]), xs[|xs| - 1]);
    }
  }

  /** Values already present keep their positions: the old list is a prefix of the new one. */
  lemma {:induction false} InsertAllPrefix<T>(s: seq<T>, xs: seq<T>)
    ensures |s| <= |InsertAll(s, xs)| && InsertAll(s, xs)[..|s|] == s
  {
    if xs != [] {
      InsertAllPrefix(s, xs[..|xs| - 1]);
    }
  }

  /** Adding `xs` and then `ys` is adding `xs + ys`. */
  lemma {:induction false} InsertAllConcat<T>(s: seq<T>, xs: seq<T>, ys: seq<T>)
    ensures InsertAll(s, xs + ys) == InsertAll(InsertAll(s, xs), ys)
    decreases |ys|
  {
    if ys == [] {
      assert xs + ys == xs;
    } else {
      var zs := xs + ys;
      var yinit := ys[..|ys| - 1];
      assert zs[..|zs| - 1] == xs + yinit;
      assert zs[|zs| - 1] == ys[|ys| - 1];
      InsertAllConcat(s, xs, yinit);
    }
  }

  /** Adding a list is adding its first value and then the rest, in the list's order. */
  lemma InsertAllCons<T>(s: seq<T>, x: T, xs: seq<T>)
    ensures InsertAll(s, [x] + xs) == InsertAll(Insert(s, x), xs)
  {
    InsertAllConcat(s, [x], xs);
    assert [x][..0] == [];
  }

  /** Adding a duplicate-free list appends, in the list's order, exactly its values that were absent. */
  lemma {:induction false} InsertAllAppendsMissing<T>(s: seq<T>, xs: seq<T>)
    requires NoDup(xs)
    ensures InsertAll(s, xs) == s + Filtered(xs, Not(InSeq(s)))
  {
    if xs == [] {
    } else {
      var init, last := xs[..|xs| - 1], xs[|xs| - 1];
      assert xs == init + [last];
      assert NoDup(init);
      InsertAllAppendsMissing(s, init);
      FilterConcat(init, [last], Not(InSeq(s)));
      if last !in s {
        forall k | 0 <= k < |init| ensures init[k] != last {
          assert init[k] == xs[k];
        }
        assert last !in Filtered(init, Not(InSeq(s)));
      }
    }
  }

  // ---------------------------------------------------------------------
  // First occurrences: the independent description of Dedup
  // ---------------------------------------------------------------------

  /** The position where `x` first occurs in `xs`. */
  function FirstIndex<T(==)>(xs: seq<T>, x: T): (i: nat)
    requires x in xs
    ensures i < |xs| && xs[i] == x && x !in xs[..i]
  {
    if xs[0] == x then 0
    else
      var i := 1 + FirstIndex(xs[1..], x);
      assert xs[..i] == [xs[0]] + xs[1..][..i - 1];
      i
  }

  lemma {:induction false} FirstIndexPrefix<T>(xs: seq<T>, ys: seq<T>, x: T)
    requires x in xs
    ensures FirstIndex(xs + ys, x) == FirstIndex(xs, x)
  {
    if xs[0] != x {
      assert (xs + ys)[1..] == xs[1..] + ys;
      FirstIndexPrefix(xs[1..], ys, x);
    }
  }

  /** `new Set(xs)` holds each distinct value of `xs` once, ordered by first occurrence. */
  lemma {:induction false} DedupFirstOccurrence<T>(xs: seq<T>)
    ensures NoDup(Dedup(xs))
    ensures forall y :: y in Dedup(xs) <==> y in xs
    ensures forall i, j :: 0 <= i < j < |Dedup(xs)| ==>
              FirstIndex(xs, Dedup(xs)[i]) < FirstIndex(xs, Dedup(xs)[j])
  {
    InsertAllNoDup([], xs);
    InsertAllMembers([], xs);
    if xs != [] {
      var init, last := xs[..|xs| - 1], xs[|xs| - 1];
      assert xs == init + [last];
      DedupFirstOccurrence(init);
      var d, r := Dedup(init), Dedup(xs);
      assert r == Insert(d, last);
      forall i, j | 0 <= i < j < |r| ensures FirstIndex(xs, r[i]) < FirstIndex(xs, r[j]) {
        assert r[i] in d;
        FirstIndexPrefix(init, [last], r[i]);
        if j < |d| {
          FirstIndexPrefix(init, [last], r[j]);
        } else {
          assert r[j] == last && last !in init;
          assert FirstIndex(xs, r[j]) == |xs| - 1;
        }
      }
    }
  }

  /** A list without duplicates is its own set of distinct values. */
  lemma {:induction false} DedupOfNoDup<T>(xs: seq<T>)
    requires NoDup(xs)
    ensures Dedup(xs) == xs
  {
    InsertAllAppendsMissing([], xs);
    FilterIdentity(xs, Not(InSeq([])));
  }

  // ---------------------------------------------------------------------
  // Filtering, and the predicates the set operations filter by
  // ---------------------------------------------------------------------

  /** The values of `s` that satisfy `p`, in their order in `s`. */
  function Filtered<T(==)>(s: seq<T>, p: T -> bool): (r: seq<T>)
    ensures |r| <= |s|
    ensures forall x :: x in r ==> x in s && p(x)
    ensures forall x :: x in s && p(x) ==> x in r
  {
    if s == [] then []
    else (if p(s[0]) then [s[0]] else []) + Filtered(s[1..], p)
  }

  function Not<T>(p: T -> bool): T -> bool {
    x => !p(x)
  }

  /** Membership in `t`, the test `set.has(value)` makes. */
  function InSeq<T(==)>(t: seq<T>): T -> bool {
    x => x in t
  }

  function Other<T(==)>(v: T): T -> bool {
    x => x != v
  }

  /** The entry list after Set.prototype.delete(v). */
  function Remove<T(==)>(s: seq<T>, v: T): (r: seq<T>)
    ensures v !in r && |r| <= |s|
  {
    Filtered(s, Other(v))
  }

  lemma {:induction false} FilterConcat<T>(a: seq<T>, b: seq<T>, p: T -> bool)
    ensures Filtered(a + b, p) == Filtered(a, p) + Filtered(b, p)
  {
    if a == [] {
      assert a + b == b;
    } else {
      assert (a + b)[1..] == a[1..] + b;
      FilterConcat(a[1..], b, p);
    }
  }

  lemma {:induction false} FilterIdentity<T>(s: seq<T>, p: T -> bool)
    requires forall x :: x in s ==> p(x)
    ensures Filtered(s, p) == s
  {
    if s != [] {
      FilterIdentity(s[1..], p);
    }
  }

  /** Extending the list by its next entry extends the filtered list by that entry when it
      passes, and a duplicate-free list never offers a value already kept. */
  lemma FilterSnoc<T>(s: seq<T>, i: nat, p: T -> bool)
    requires NoDup(s) && i < |s|
    ensures Filtered(s[..i + 1], p) == Filtered(s[..i], p) + (if p(s[i]) then [s[i]] else [])
    ensures s[i] !in Filtered(s[..i], p)
  {
    assert s[..i + 1] == s[..i] + [s[i]];
    FilterConcat(s[..i], [s[i]], p);
    forall j | 0 <= j < i ensures s[j] != s[i] { }
  }

  /** Filtering depends only on the verdicts of the predicate. */
  lemma {:induction false} FilterExt<T>(s: seq<T>, p: T -> bool, q: T -> bool)
    requires forall x :: p(x) == q(x)
    ensures Filtered(s, p) == Filtered(s, q)
  {
    if s != [] {
      FilterExt(s[1..], p, q);
    }
  }

  lemma {:induction false} FilterNoDup<T>(s: seq<T>, p: T -> bool)
    requires NoDup(s)
    ensures NoDup(Filtered(s, p))
  {
    if s != [] {
      NoDupTail(s);
      FilterNoDup(s[1..], p);
    }
  }

  /** `a` can be obtained from `b` by leaving out entries: it keeps `b`'s relative order. */
  ghost predicate IsSubsequence<T>(a: seq<T>, b: seq<T>)
    decreases |b|
  {
    a == [] ||
    (b != [] &&
     if a[0] == b[0] then IsSubsequence(a[1..], b[1..]) else IsSubsequence(a, b[1..]))
  }

  lemma {:induction false} FilterIsSubsequence<T>(s: seq<T>, p: T -> bool)
    ensures IsSubsequence(Filtered(s, p), s)
  {
    if s != [] {
      FilterIsSubsequence(s[1..], p);
      var r := Filtered(s, p);
      if p(s[0]) {
        assert r[0] == s[0] && r[1..] == Filtered(s[1..], p);
      } else {
        assert r == Filtered(s[1..], p);
        if r != [] {
          assert p(r[0]);
        }
      }
    }
  }

  /** Every entry satisfies `p` or fails it: the two filters together have all the entries. */
  lemma {:induction false} FilterPartition<T>(s: seq<T>, p: T -> bool)
    ensures |Filtered(s, p)| + |Filtered(s, Not(p))| == |s|
    ensures forall x :: x in s ==> (x in Filtered(s, p) <==> x !in Filtered(s, Not(p)))
  {
    if s != [] {
      FilterPartition(s[1..], p);
    }
  }

  /** In a duplicate-free list, the value at position `i` occurs neither before nor after it. */
  lemma NoDupAt<T>(s: seq<T>, i: nat)
    requires NoDup(s) && i < |s|
    ensures s[i] !in s[..i] && s[i] !in s[i + 1..]
  {
  }

  /** Deleting the value at position `k` closes the gap and keeps every other entry in order. */
  lemma RemoveAt<T>(s: seq<T>, k: nat)
    requires NoDup(s) && k < |s|
    ensures Remove(s, s[k]) == s[..k] + s[k + 1..]
  {
    NoDupAt(s, k);
    assert s == s[..k] + [s[k]] + s[k + 1..];
    RemoveBetween(s[..k], s[k], s[k + 1..]);
  }

  /** Deleting a value that occurs once, between `before` and `after`, joins the two. */
  lemma RemoveBetween<T>(before: seq<T>, v: T, after: seq<T>)
    requires v !in before && v !in after
    ensures Remove(before + [v] + after, v) == before + after
  {
    var keep := Other(v);
    assert Filtered([v], keep) == [] by {
      assert [v][1..] == [];
    }
    FilterConcat(before + [v], after, keep);
    FilterConcat(before, [v], keep);
    RemoveAbsent(before, v);
    RemoveAbsent(after, v);
    assert before + [] == before;
  }

  /** Deleting an absent value changes nothing. */
  lemma RemoveAbsent<T>(s: seq<T>, v: T)
    requires v !in s
    ensures Remove(s, v) == s
  {
    FilterIdentity(s, Other(v));
  }

  /** One step of a traversal that deletes the current entry when it fails `p`:
      entries before position `i` have been filtered, the rest are untouched. */
  lemma FilterInPlaceStep<T>(s: seq<T>, i: nat, p: T -> bool)
    requires NoDup(s) && i < |s|
    ensures p(s[i]) ==> Filtered(s[..i + 1], p) + s[i + 1..] == Filtered(s[..i], p) + s[i..]
    ensures !p(s[i]) ==> Remove(Filtered(s[..i], p) + s[i..], s[i]) == Filtered(s[..i + 1], p) + s[i + 1..]
  {
    var v, done, rest := s[i], Filtered(s[..i], p), s[i + 1..];
    assert s[..i + 1] == s[..i] + [v];
    assert s[i..] == [v] + rest;
    FilterConcat(s[..i], [v], p);
    if !p(v) {
      NoDupAt(s, i);
      assert Filtered(s[..i + 1], p) == done;
      assert done + s[i..] == done + [v] + rest;
      FilterConcat(done + [v], rest, Other(v));
      FilterConcat(done, [v], Other(v));
      RemoveAbsent(done, v);
      RemoveAbsent(rest, v);
      assert Filtered([v], Other(v)) == [];
    }
  }

  /** One step of the difference loop: deleting `x` from what survived `t` is surviving `t + [x]`. */
  lemma {:induction false} DifferenceStep<T>(s: seq<T>, t: seq<T>, x: T)
    ensures Remove(Filtered(s, Not(InSeq(t))), x) == Filtered(s, Not(InSeq(t + [x])))
  {
    if s != [] {
      DifferenceStep(s[1..], t, x);
      var head := if Not(InSeq(t))(s[0]) then [s[0]] else [];
      FilterConcat(head, Filtered(s[1..], Not(InSeq(t))), Other(x));
    }
  }
  /** DifferenceStep at position `i` of the visited list. */
  lemma DifferenceStepAt<T>(s: seq<T>, t: seq<T>, i: nat)
    requires i < |t|
    ensures Remove(Filtered(s, Not(InSeq(t[..i]))), t[i]) == Filtered(s, Not(InSeq(t[..i + 1])))
  {
    DifferenceStep(s, t[..i], t[i]);
    assert t[..i] + [t[i]] == t[..i + 1];
  }

}
