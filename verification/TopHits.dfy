/** The best file matches so far, in a heap that never holds more than a cap. */
module TopHits {
  import opened Wrappers
  import opened Bytes
  import opened PathSets

  datatype FileHit = FileHit(path: Bytes, size: nat, modified: Option<nat>)

  predicate Newer(a: Option<nat>, b: Option<nat>) {
    a.Some? && (b.None? || a.value > b.value)
  }

  /** `a` ranks at least as high as `b`: most recently modified first, then by
      path. The size decides only between entries of one path. */
  predicate Before(a: FileHit, b: FileHit) {
    || Newer(a.modified, b.modified)
    || (a.modified == b.modified && (Less(a.path, b.path) || (a.path == b.path && a.size >= b.size)))
  }

  lemma BeforeTotal(a: FileHit, b: FileHit)
    ensures Before(a, b) || Before(b, a)
    ensures Before(a, b) && Before(b, a) ==> a == b
  {
    LessTotal(a.path, b.path);
  }

  lemma BeforeTransitive(a: FileHit, b: FileHit, c: FileHit)
    requires Before(a, b) && Before(b, c)
    ensures Before(a, c)
  {
    if Less(a.path, b.path) && Less(b.path, c.path) {
      LessTransitive(a.path, b.path, c.path);
    }
  }

  predicate Ordered(hits: seq<FileHit>) {
    forall i, j | 0 <= i < j < |hits| :: Before(hits[i], hits[j])
  }

  function Insert(sorted: seq<FileHit>, hit: FileHit): (r: seq<FileHit>)
    ensures |r| == |sorted| + 1
    ensures multiset(r) == multiset(sorted) + multiset{hit}
  {
    if sorted == [] then [hit]
    else if Before(hit, sorted[0]) then [hit] + sorted
    else
      assert sorted == [sorted[0]] + sorted[1..];
      [sorted[0]] + Insert(sorted[1..], hit)
  }

  /** All of them, best first. */
  function Sorted(hits: seq<FileHit>): (r: seq<FileHit>)
    ensures |r| == |hits| && multiset(r) == multiset(hits)
  {
    if hits == [] then []
    else
      var last := |hits| - 1;
      assert hits == hits[..last] + [hits[last]];
      Insert(Sorted(hits[..last]), hits[last])
  }

  function Top(sorted: seq<FileHit>, cap: nat): seq<FileHit> {
    if |sorted| <= cap then sorted else sorted[..cap]
  }

  lemma {:induction false} InsertOrdered(sorted: seq<FileHit>, hit: FileHit)
    requires Ordered(sorted)
    ensures Ordered(Insert(sorted, hit))
  {
    if sorted != [] {
      BeforeTotal(hit, sorted[0]);
      if Before(hit, sorted[0]) {
        forall j | 0 <= j < |sorted|
          ensures Before(hit, sorted[j])
        {
          if j > 0 {
            BeforeTransitive(hit, sorted[0], sorted[j]);
          }
        }
      } else {
        var rest := Insert(sorted[1..], hit);
        InsertOrdered(sorted[1..], hit);
        forall j | 0 <= j < |rest|
          ensures Before(sorted[0], rest[j])
        {
          assert rest[j] in multiset(rest);
          assert rest[j] == hit || rest[j] in sorted[1..];
        }
      }
    }
  }

  lemma {:induction false} SortedIsOrdered(hits: seq<FileHit>)
    ensures Ordered(Sorted(hits))
  {
    if hits != [] {
      SortedIsOrdered(hits[..|hits| - 1]);
      InsertOrdered(Sorted(hits[..|hits| - 1]), hits[|hits| - 1]);
    }
  }

  /** What is in front of the cap after an insertion depends only on what was. */
  lemma {:induction false} InsertInFront(sorted: seq<FileHit>, hit: FileHit, cap: nat)
    requires cap <= |sorted|
    ensures Insert(sorted, hit)[..cap] == Insert(sorted[..cap], hit)[..cap]
  {
    if cap > 0 {
      hide Before;
      var first, rest := sorted[0], sorted[1..];
      WithoutFirst(sorted);
      ConsTake(first, rest, cap - 1);
      var front := rest[..cap - 1];
      InsertCons(first, rest, hit);
      InsertCons(first, front, hit);
      hide Insert;
      if Before(hit, first) {
        ConsTake(hit, sorted, cap - 1);
        ConsTake(hit, [first] + front, cap - 1);
        ConsTake(first, front, cap - 1);
        ShorterTake(sorted, cap - 1, cap);
      } else {
        InsertInFront(rest, hit, cap - 1);
        ConsTake(first, Insert(rest, hit), cap - 1);
        ConsTake(first, Insert(front, hit), cap - 1);
      }
    }
  }


  lemma InsertCons(first: FileHit, rest: seq<FileHit>, hit: FileHit)
    ensures Insert([first] + rest, hit) == if Before(hit, first) then [hit] + ([first] + rest)
                                           else [first] + Insert(rest, hit)
  {
    hide Before;
    assert ([first] + rest)[1..] == rest;
  }

  /** Hits are in order in one way only. */
  lemma {:induction false} OrderedUnique(a: seq<FileHit>, b: seq<FileHit>)
    requires Ordered(a) && Ordered(b) && multiset(a) == multiset(b)
    ensures a == b
  {
    assert |multiset(a)| == |a| && |multiset(b)| == |b|;
    if a != [] {
      FirstsAgree(a, b);
      WithoutFirst(a);
      WithoutFirst(b);
      OrderedRest(a);
      OrderedRest(b);
      OrderedUnique(a[1..], b[1..]);
    }
  }

  lemma FirstsAgree(a: seq<FileHit>, b: seq<FileHit>)
    requires Ordered(a) && Ordered(b) && multiset(a) == multiset(b) && a != [] && b != []
    ensures a[0] == b[0]
  {
    assert a[0] in multiset(b) && b[0] in multiset(a);
    BeforeTotal(a[0], b[0]);
    hide Before;
    assert a[0] in b && b[0] in a;
  }

  lemma OrderedRest(hits: seq<FileHit>)
    requires Ordered(hits) && hits != []
    ensures Ordered(hits[1..])
  {
    hide Before;
  }

  /** The last of hits in order is the one that comes after all. */
  lemma OldestIsLast(ordered: seq<FileHit>, oldest: FileHit)
    requires Ordered(ordered) && oldest in multiset(ordered)
    requires forall h | h in multiset(ordered) :: Before(h, oldest)
    ensures ordered != [] && oldest == ordered[|ordered| - 1]
  {
    assert oldest in ordered;
    var last := ordered[|ordered| - 1];
    assert last in multiset(ordered);
    var i :| 0 <= i < |ordered| && ordered[i] == oldest;
    BeforeTotal(oldest, last);
  }

  /** Pushing to the heap and, over the cap, popping its oldest, keeps the
      first `cap` of all hits pushed. */
  method Keep(kept: multiset<FileHit>, hit: FileHit, cap: nat, ghost all: seq<FileHit>)
    returns (updated: multiset<FileHit>, dropped: bool)
    requires kept == multiset(Top(Sorted(all), cap))
    ensures updated == multiset(Top(Sorted(all + [hit]), cap))
    ensures dropped <==> |all| + 1 > cap
  {
    ghost var top := Top(Sorted(all), cap);
    ghost var held := Insert(top, hit);
    TopOfGrown(all, hit, cap);
    hide Insert, Sorted, Before, Top;
    updated := kept + multiset{hit};
    assert updated == multiset(held) && |multiset(held)| == |held|;
    dropped := |updated| > cap;
    if dropped {
      LastIsOldest(held);
      var oldest :| oldest in updated && forall h | h in updated :: Before(h, oldest);
      OldestIsLast(held, oldest);
      WithoutLast(held);
      updated := updated - multiset{oldest};
    }
  }

  /** What the cap leaves of one hit more. */
  lemma TopOfGrown(all: seq<FileHit>, hit: FileHit, cap: nat)
    ensures var held := Insert(Top(Sorted(all), cap), hit);
            && Ordered(held)
            && (|held| > cap <==> |all| + 1 > cap)
            && Top(Sorted(all + [hit]), cap) == if |held| > cap then held[..|held| - 1] else held
  {
    var sorted := Sorted(all);
    GrownSorted(all, hit);
    SortedIsOrdered(all);
    hide Sorted, Insert, Before;
    OrderedTop(sorted, cap);
    InsertOrdered(Top(sorted, cap), hit);
    if cap <= |sorted| {
      InsertInFront(sorted, hit, cap);
    }
  }

  lemma OrderedTop(sorted: seq<FileHit>, cap: nat)
    requires Ordered(sorted)
    ensures Ordered(Top(sorted, cap))
  {
    hide Before;
  }

  lemma GrownSorted(all: seq<FileHit>, hit: FileHit)
    ensures Sorted(all + [hit]) == Insert(Sorted(all), hit)
  {
    hide Insert;
    assert (all + [hit])[..|all|] == all;
  }

  lemma LastIsOldest(ordered: seq<FileHit>)
    requires Ordered(ordered) && ordered != []
    ensures var last := ordered[|ordered| - 1];
            last in multiset(ordered) && forall h | h in multiset(ordered) :: Before(h, last)
  {
    var last := ordered[|ordered| - 1];
    BeforeTotal(last, last);
    hide Before;
    forall h | h in multiset(ordered)
      ensures Before(h, last)
    {
      assert h in ordered;
    }
  }

  /** The heap's contents in whatever order it gives them, then sorted. */
  method Hits(kept: multiset<FileHit>, ghost top: seq<FileHit>) returns (hits: seq<FileHit>)
    requires Ordered(top) && kept == multiset(top)
    ensures hits == top
  {
    var items: seq<FileHit> :| multiset(items) == kept;
    hits := Sorted(items);
    SortedIsOrdered(items);
    OrderedUnique(hits, top);
  }
}
