/**
  One collection of the document database: a sequence of documents kept in
  insertion order, each carrying the system fields `_id` and `_creationTime`
  next to its user fields. The operations are the ones the handlers use:
  insert, point lookup, patch, delete, and a filtered scan collected in
  ascending or descending creation order.
 */
module Table {
  import opened Results

  /** Document ids; every insert draws a fresh one from the store's clock. */
  type Id = nat

  /** A stored document: system fields `_id`, `_creationTime`, and the user fields. */
  datatype Doc<F> = Doc(id: Id, creationTime: nat, fields: F)

  /** The elements of `xs` that satisfy `keep`, in their original order. */
  function Filter<T(==,!new)>(xs: seq<T>, keep: T -> bool): (r: seq<T>)
    ensures |r| <= |xs|
    ensures forall x :: x in r <==> x in xs && keep(x)
  {
    if |xs| == 0 then []
    else
      assert xs == [xs[0]] + xs[1..];
      (if keep(xs[0]) then [xs[0]] else []) + Filter(xs[1..], keep)
  }

  /** `xs` read back to front. */
  function Reverse<T(==,!new)>(xs: seq<T>): (r: seq<T>)
    ensures |r| == |xs|
    ensures forall i :: 0 <= i < |xs| ==> r[i] == xs[|xs| - 1 - i]
  {
    if |xs| == 0 then [] else Reverse(xs[1..]) + [xs[0]]
  }

  /** Creation times strictly increase along `t` (insertion order). */
  predicate Ascending<F(==,!new)>(t: seq<Doc<F>>)
  {
    forall i, j :: 0 <= i < j < |t| ==> t[i].creationTime < t[j].creationTime
  }

  /** Creation times strictly decrease along `t` (newest first). */
  predicate Descending<F(==,!new)>(t: seq<Doc<F>>)
  {
    forall i, j :: 0 <= i < j < |t| ==> t[i].creationTime > t[j].creationTime
  }

  /** No two different documents of `t` share an id. */
  predicate IdsDetermineDocs<F(==,!new)>(t: seq<Doc<F>>)
  {
    forall a, b :: a in t && b in t && a.id == b.id ==> a == b
  }

  /** Every id and creation time in `t` was drawn before `clock`. */
  predicate Below<F(==,!new)>(t: seq<Doc<F>>, clock: nat)
  {
    forall d :: d in t ==> d.id < clock && d.creationTime < clock
  }

  /** What the database guarantees of a collection whose next fresh number is `clock`. */
  predicate WellFormed<F(==,!new)>(t: seq<Doc<F>>, clock: nat)
  {
    Ascending(t) && IdsDetermineDocs(t) && Below(t, clock)
  }

  /** Whether some document of `t` has id `id`. */
  predicate Has<F(==,!new)>(t: seq<Doc<F>>, id: Id)
  {
    exists d :: d in t && d.id == id
  }

  /** Point lookup, `ctx.db.get(id)`: the document with that id, or none. */
  function Get<F(==,!new)>(t: seq<Doc<F>>, id: Id): (r: Option<Doc<F>>)
    ensures r.Some? ==> r.value in t && r.value.id == id
    ensures r.None? ==> forall d :: d in t ==> d.id != id
  {
    if |t| == 0 then None
    else if t[0].id == id then Some(t[0])
    else
      assert forall d :: d in t ==> d == t[0] || d in t[1..];
      Get(t[1..], id)
  }

  /** `ctx.db.insert`: appends a document stamped with `clock` as id and creation time. */
  function Insert<F(==,!new)>(t: seq<Doc<F>>, clock: nat, fields: F): (r: seq<Doc<F>>)
    ensures |r| == |t| + 1 && r[..|t|] == t
    ensures r[|t|] == Doc(clock, clock, fields)
    ensures WellFormed(t, clock) ==> WellFormed(r, clock + 1)
  {
    var d := Doc(clock, clock, fields);
    assert forall x :: x in t + [d] <==> x in t || x == d;
    t + [d]
  }

  /** `ctx.db.patch(id, …)`: applies `update` to the user fields of the document `id`. */
  function Patch<F(==,!new)>(t: seq<Doc<F>>, id: Id, update: F -> F): (r: seq<Doc<F>>)
    ensures |r| == |t|
    ensures forall i :: 0 <= i < |t| ==>
              && r[i].id == t[i].id
              && r[i].creationTime == t[i].creationTime
              && r[i].fields == (if t[i].id == id then update(t[i].fields) else t[i].fields)
  {
    if |t| == 0 then []
    else
      var d := t[0];
      [if d.id == id then d.(fields := update(d.fields)) else d] + Patch(t[1..], id, update)
  }

  /** A patch keeps ids, creation times and the clock bound, so it keeps the table well formed. */
  lemma PatchWellFormed<F(!new)>(t: seq<Doc<F>>, clock: nat, id: Id, update: F -> F)
    requires WellFormed(t, clock)
    ensures WellFormed(Patch(t, id, update), clock)
  {
    var r := Patch(t, id, update);
    forall a, b | a in r && b in r && a.id == b.id
      ensures a == b
    {
      var i :| 0 <= i < |r| && r[i] == a;
      var j :| 0 <= j < |r| && r[j] == b;
      assert t[i].id == t[j].id;
      assert t[i] in t && t[j] in t;
      assert t[i] == t[j];
      AscendingInjective(t, i, j);
    }
    forall d | d in r
      ensures d.id < clock && d.creationTime < clock
    {
      var i :| 0 <= i < |r| && r[i] == d;
      assert t[i] in t;
    }
  }

  /** Distinct positions of a strictly time-ordered collection hold distinct documents. */
  lemma AscendingInjective<F(!new)>(t: seq<Doc<F>>, i: nat, j: nat)
    requires Ascending(t) && i < |t| && j < |t|
    ensures t[i] == t[j] ==> i == j
  {
  }

  /** Every non-empty sequence has its head as a member. */
  lemma HeadMember<T>(xs: seq<T>)
    ensures |xs| > 0 ==> xs[0] in xs
  {
  }

  /** The filter that keeps every document except the one named `id`. */
  function IdIsNot<F>(id: Id): Doc<F> -> bool
  {
    (d: Doc<F>) => d.id != id
  }

  /** `ctx.db.delete(id)`: drops the document `id` and keeps every other one. */
  function Delete<F(==,!new)>(t: seq<Doc<F>>, id: Id): (r: seq<Doc<F>>)
    ensures forall d :: d in r <==> d in t && d.id != id
  {
    Filter(t, IdIsNot(id))
  }

  /** A filter that rejects nothing returns the sequence itself. */
  lemma {:induction false} FilterKeepsAll<T(!new)>(xs: seq<T>, keep: T -> bool)
    requires forall x :: x in xs ==> keep(x)
    ensures Filter(xs, keep) == xs
  {
    if |xs| > 0 {
      assert xs[0] in xs;
      assert forall x :: x in xs[1..] ==> x in xs;
      FilterKeepsAll(xs[1..], keep);
      assert xs == [xs[0]] + xs[1..];
    }
  }

  /** A filter that rejects exactly one element of a repetition-free sequence shortens it by one. */
  lemma {:induction false} FilterDropsOne<T(!new)>(xs: seq<T>, keep: T -> bool, x: T)
    requires Distinct(xs) && x in xs
    requires forall y :: y in xs ==> (keep(y) <==> y != x)
    ensures |Filter(xs, keep)| == |xs| - 1
  {
    var tail := xs[1..];
    assert forall y :: y in tail ==> y in xs;
    assert Distinct(tail) by {
      forall i, j | 0 <= i < j < |tail|
        ensures tail[i] != tail[j]
      {
        assert tail[i] == xs[i + 1] && tail[j] == xs[j + 1];
      }
    }
    if xs[0] == x {
      forall y | y in tail
        ensures keep(y)
      {
        var k :| 0 <= k < |tail| && tail[k] == y;
        assert xs[k + 1] == y;
      }
      FilterKeepsAll(tail, keep);
    } else {
      assert xs[0] in xs;
      assert x in tail by {
        assert xs == [xs[0]] + tail;
      }
      FilterDropsOne(tail, keep, x);
    }
  }

  /** Deleting a document that is present removes exactly one entry. */
  lemma DeleteLength<F(!new)>(t: seq<Doc<F>>, clock: nat, d: Doc<F>)
    requires WellFormed(t, clock) && d in t
    ensures |Delete(t, d.id)| == |t| - 1
  {
    OrderedDistinct(t);
    FilterDropsOne(t, IdIsNot(d.id), d);
  }

  /** Dropping documents never disturbs the creation order of the ones kept. */
  lemma {:induction false} FilterAscending<F(!new)>(t: seq<Doc<F>>, keep: Doc<F> -> bool)
    ensures Ascending(t) ==> Ascending(Filter(t, keep))
  {
    if |t| > 0 && Ascending(t) {
      FilterAscending(t[1..], keep);
      var rest := Filter(t[1..], keep);
      forall d | d in rest
        ensures t[0].creationTime < d.creationTime
      {
        var k :| 0 <= k < |t[1..]| && t[1..][k] == d;
        assert t[k + 1] == d;
      }
      if keep(t[0]) {
        var r := [t[0]] + rest;
        forall i, j | 0 <= i < j < |r|
          ensures r[i].creationTime < r[j].creationTime
        {
          if i == 0 {
            assert r[j] == rest[j - 1];
            assert r[j] in rest;
          } else {
            assert r[i] == rest[i - 1] && r[j] == rest[j - 1];
          }
        }
      }
    }
  }

  /** A filtered collection keeps everything `WellFormed` promises. */
  lemma FilterWellFormed<F(!new)>(t: seq<Doc<F>>, clock: nat, keep: Doc<F> -> bool)
    requires WellFormed(t, clock)
    ensures WellFormed(Filter(t, keep), clock)
  {
    FilterAscending(t, keep);
  }

  /** Deleting a document keeps the collection well formed. */
  lemma DeleteWellFormed<F(!new)>(t: seq<Doc<F>>, clock: nat, id: Id)
    requires WellFormed(t, clock)
    ensures WellFormed(Delete(t, id), clock)
  {
    FilterWellFormed(t, clock, IdIsNot(id));
  }

  /**
    Reading a collection back to front turns insertion order into newest
    first and back, and keeps the members.
   */
  lemma ReverseFlipsOrder<F(!new)>(t: seq<Doc<F>>)
    ensures Ascending(t) ==> Descending(Reverse(t))
    ensures Descending(t) ==> Ascending(Reverse(t))
    ensures forall d :: d in Reverse(t) <==> d in t
  {
    var r := Reverse(t);
    forall d | d in t
      ensures d in r
    {
      var k :| 0 <= k < |t| && t[k] == d;
      assert r[|t| - 1 - k] == d;
    }
  }


  /**
    `.filter(keep).order("desc").collect()`: the documents whose user fields
    satisfy `keep`, newest first.
   */
  function NewestFirst<F(==,!new)>(t: seq<Doc<F>>, keep: F -> bool): (r: seq<Doc<F>>)
    requires Ascending(t)
    ensures forall d :: d in r <==> d in t && keep(d.fields)
    ensures Descending(r)
  {
    var k := (d: Doc<F>) => keep(d.fields);
    FilterAscending(t, k);
    ReverseFlipsOrder(Filter(t, k));
    Reverse(Filter(t, k))
  }

  /**
    A newest-first listing is determined by its members: read back to front,
    two such listings are insertion-ordered with the same members, hence equal.
   */
  lemma DescendingUnique<F(!new)>(a: seq<Doc<F>>, b: seq<Doc<F>>)
    requires Descending(a) && Descending(b)
    requires forall d :: d in a <==> d in b
    ensures a == b
  {
    ReverseFlipsOrder(a);
    ReverseFlipsOrder(b);
    AscendingUnique(Reverse(a), Reverse(b));
    forall i | 0 <= i < |a|
      ensures a[i] == b[i]
    {
      assert a[i] == Reverse(a)[|a| - 1 - i];
      assert b[i] == Reverse(b)[|b| - 1 - i];
    }
  }

  /**
    A document newer than every entry of a newest-first listing goes in
    front: a newest-first listing with exactly the old members and it is that.
   */
  lemma PrependNewest<F(!new)>(d: Doc<F>, before: seq<Doc<F>>, after: seq<Doc<F>>)
    requires Descending(before) && Descending(after)
    requires forall e :: e in before ==> e.creationTime < d.creationTime
    requires forall e :: e in after <==> e == d || e in before
    ensures after == [d] + before
  {
    var expected := [d] + before;
    forall i, j | 0 <= i < j < |expected|
      ensures expected[i].creationTime > expected[j].creationTime
    {
      assert expected[j] == before[j - 1];
      assert before[j - 1] in before;
      if i > 0 {
        assert expected[i] == before[i - 1];
      }
    }
    DescendingUnique(after, expected);
  }

  /** The head of an ascending listing is its oldest member. */
  lemma AscendingHead<F(!new)>(a: seq<Doc<F>>, d: Doc<F>)
    requires Ascending(a) && d in a
    ensures d == a[0] || d.creationTime > a[0].creationTime
  {
  }

  /** An insertion-ordered listing is determined by its members: there is only one. */
  lemma {:induction false} AscendingUnique<F(!new)>(a: seq<Doc<F>>, b: seq<Doc<F>>)
    requires Ascending(a) && Ascending(b)
    requires forall d :: d in a <==> d in b
    ensures a == b
    decreases |a|
  {
    HeadMember(b);
    if |a| > 0 {
      assert a[0] in b;
      assert b[0] in a;
      AscendingHead(a, b[0]);
      AscendingHead(b, a[0]);
      OrderedDistinct(a);
      OrderedDistinct(b);
      DistinctTail(a);
      DistinctTail(b);
      AscendingUnique(a[1..], b[1..]);
      assert a == [a[0]] + a[1..] && b == [b[0]] + b[1..];
    }
  }

  /** Elements of `xs` with no repetition. */
  predicate Distinct<T(==,!new)>(xs: seq<T>)
  {
    forall i, j :: 0 <= i < j < |xs| ==> xs[i] != xs[j]
  }

  /** A strictly time-ordered collection, in either direction, repeats no document. */
  lemma OrderedDistinct<F(!new)>(t: seq<Doc<F>>)
    ensures Ascending(t) ==> Distinct(t)
    ensures Descending(t) ==> Distinct(t)
  {
  }

  /**
    The tail of a repetition-free sequence is repetition-free and holds
    exactly the members other than the head.
   */
  lemma DistinctTail<T(!new)>(xs: seq<T>)
    requires Distinct(xs) && |xs| > 0
    ensures Distinct(xs[1..]) && xs[0] !in xs[1..]
    ensures forall x :: x in xs[1..] <==> x in xs && x != xs[0]
  {
    assert xs == [xs[0]] + xs[1..];
    var tail := xs[1..];
    forall i, j | 0 <= i < j < |tail|
      ensures tail[i] != tail[j]
    {
      assert tail[i] == xs[i + 1] && tail[j] == xs[j + 1];
    }
    forall k | 0 <= k < |tail|
      ensures tail[k] != xs[0]
    {
      assert tail[k] == xs[k + 1];
    }
  }

  /** One step of a filtered scan: the head counts exactly when it is kept. */
  lemma FilterStep<T(!new)>(xs: seq<T>, keep: T -> bool)
    requires |xs| > 0
    ensures |Filter(xs, keep)| == (if keep(xs[0]) then 1 else 0) + |Filter(xs[1..], keep)|
  {
  }

  /**
    On a sequence without repetitions, a filtered scan has one entry for each
    element of the set `chosen` of elements it keeps.
   */
  lemma {:induction false} FilterCount<T(!new)>(xs: seq<T>, keep: T -> bool, chosen: set<T>)
    requires Distinct(xs)
    requires forall x :: x in chosen <==> x in xs && keep(x)
    ensures |Filter(xs, keep)| == |chosen|
  {
    if |xs| == 0 {
      assert chosen == {} by {
        forall x | x in chosen
          ensures false
        {
        }
      }
    } else {
      var tail := xs[1..];
      DistinctTail(xs);
      var rest := chosen - {xs[0]};
      assert forall x :: x in rest <==> x in tail && keep(x);
      FilterCount(tail, keep, rest);
      FilterStep(xs, keep);
      assert |chosen| == (if keep(xs[0]) then 1 else 0) + |rest| by {
        if keep(xs[0]) {
          assert chosen == rest + {xs[0]};
        } else {
          assert chosen == rest;
        }
      }
    }
  }

}
