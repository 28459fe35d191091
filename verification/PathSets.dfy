/** The path set of a project batch: entries are coalesced so that no entry lies
    below another, and a payload lists them sorted. */
module PathSets {
  import opened Bytes

  type Path = Bytes

  /** Byte-level test of the source: `descendant` is `ancestor` or lies below it. */
  predicate Covers(ancestor: Path, descendant: Path) {
    || descendant == ancestor
    || (|ancestor| < |descendant| && ancestor <= descendant && descendant[|ancestor|] == SLASH)
  }

  function Components(path: Path): seq<Bytes> {
    Split(path, SLASH)
  }

  /** The byte-level test is exactly "the components of one are a prefix of the other's". */
  lemma CoversIsComponentPrefix(a: Path, d: Path)
    ensures Covers(a, d) <==> Components(a) <= Components(d)
  {
    if Covers(a, d) && a != d {
      var below := d[|a| + 1..];
      assert d == a + [SLASH] + below;
      SplitAtSeparator(a, SLASH, below);
    }
    if Components(a) <= Components(d) {
      JoinSplit(a, SLASH);
      JoinSplit(d, SLASH);
      var below := Components(d)[|Components(a)|..];
      assert Components(d) == Components(a) + below;
      if below != [] {
        JoinConcat(Components(a), below, SLASH);
      } else {
        assert Components(a) == Components(d);
      }
    }
  }

  lemma CoversTransitive(a: Path, b: Path, c: Path)
    requires Covers(a, b) && Covers(b, c)
    ensures Covers(a, c)
  {
    if a != b && b != c {
      assert c[..|b|] == b;
      assert c[|a|] == b[|a|];
    }
  }

  /** What stays when the entries `candidate` covers are dropped. */
  function Uncovered(paths: seq<Path>, candidate: Path): (kept: seq<Path>)
    ensures forall p :: p in kept <==> p in paths && !Covers(candidate, p)
  {
    if paths == [] then []
    else if Covers(candidate, paths[0]) then Uncovered(paths[1..], candidate)
    else [paths[0]] + Uncovered(paths[1..], candidate)
  }

  function Inserted(paths: seq<Path>, candidate: Path): seq<Path> {
    var kept := Uncovered(paths, candidate);
    if exists p | p in kept :: Covers(p, candidate) then kept else kept + [candidate]
  }

  function InsertedAll(paths: seq<Path>, candidates: seq<Path>): seq<Path> {
    if candidates == [] then paths
    else
      var last := |candidates| - 1;
      Inserted(InsertedAll(paths, candidates[..last]), candidates[last])
  }

  lemma UncoveredSkips(paths: seq<Path>, candidate: Path, i: nat)
    requires i < |paths|
    ensures Uncovered(paths[i..], candidate)
         == (if Covers(candidate, paths[i]) then [] else [paths[i]]) + Uncovered(paths[i + 1..], candidate)
  {
    assert paths[i..][1..] == paths[i + 1..];
  }

  method RetainUncovered(paths: seq<Path>, candidate: Path) returns (kept: seq<Path>)
    ensures kept == Uncovered(paths, candidate)
  {
    kept := [];
    assert paths[0..] == paths;
    for i := 0 to |paths|
      invariant kept + Uncovered(paths[i..], candidate) == Uncovered(paths, candidate)
    {
      hide Covers, Uncovered;
      UncoveredSkips(paths, candidate, i);
      if !Covers(candidate, paths[i]) {
        Associative(kept, [paths[i]], Uncovered(paths[i + 1..], candidate));
        kept := kept + [paths[i]];
      }
    }
  }

  method AnyCovers(paths: seq<Path>, candidate: Path) returns (covered: bool)
    ensures covered <==> exists p | p in paths :: Covers(p, candidate)
  {
    hide Covers;
    for i := 0 to |paths|
      invariant forall k | 0 <= k < i :: !Covers(paths[k], candidate)
    {
      if Covers(paths[i], candidate) {
        return true;
      }
    }
    return false;
  }

  /** `insert_path`: retain what the candidate does not cover, then add the
      candidate unless something kept already covers it. */
  method InsertPath(paths: seq<Path>, candidate: Path) returns (updated: seq<Path>)
    ensures updated == Inserted(paths, candidate)
  {
    updated := RetainUncovered(paths, candidate);
    var covered := AnyCovers(updated, candidate);
    if !covered {
      updated := updated + [candidate];
    }
  }

  predicate Distinct<T(==)>(s: seq<T>) {
    forall i, j :: 0 <= i < j < |s| ==> s[i] != s[j]
  }

  /** `p` is a minimal element of `all` under "is an ancestor or equal". */
  ghost predicate Minimal(all: set<Path>, p: Path) {
    p in all && forall q | q in all && Covers(q, p) :: q == p
  }

  /** `paths` lists each minimal element of `all` once, and these reach all of it. */
  ghost predicate Frontier(paths: seq<Path>, all: set<Path>) {
    && Distinct(paths)
    && (forall p :: p in paths <==> Minimal(all, p))
    && (forall q | q in all :: exists p :: p in paths && Covers(p, q))
  }

  lemma {:induction false} UncoveredDistinct(paths: seq<Path>, candidate: Path)
    requires Distinct(paths)
    ensures Distinct(Uncovered(paths, candidate))
  {
    if paths != [] {
      UncoveredDistinct(paths[1..], candidate);
    }
  }

  /** Some entry reaches `q`. */
  ghost predicate Reached(paths: seq<Path>, q: Path) {
    exists p :: p in paths && Covers(p, q)
  }

  lemma CandidateReached(paths: seq<Path>, candidate: Path)
    ensures Reached(Inserted(paths, candidate), candidate)
  {
    hide Uncovered;
    var kept := Uncovered(paths, candidate);
    if e :| e in kept && Covers(e, candidate) {
      assert Inserted(paths, candidate) == kept;
    } else {
      assert candidate in Inserted(paths, candidate) && Covers(candidate, candidate);
    }
  }

  lemma InsertedReaches(paths: seq<Path>, candidate: Path, q: Path)
    requires q == candidate || Reached(paths, q)
    ensures Reached(Inserted(paths, candidate), q)
  {
    CandidateReached(paths, candidate);
    if q != candidate {
      var updated := Inserted(paths, candidate);
      var p :| p in paths && Covers(p, q);
      hide Covers;
      if Covers(candidate, p) {
        CoversTransitive(candidate, p, q);
        var e :| e in updated && Covers(e, candidate);
        CoversTransitive(e, candidate, q);
      } else {
        assert p in Uncovered(paths, candidate);
        assert p in updated;
      }
    }
  }

  lemma InsertedIsMinimal(paths: seq<Path>, all: set<Path>, candidate: Path, p: Path)
    requires Frontier(paths, all) && p in Inserted(paths, candidate)
    ensures Minimal(all + {candidate}, p)
  {
    hide Covers;
    var kept := Uncovered(paths, candidate);
    forall q | q in all + {candidate} && Covers(q, p)
      ensures q == p
    {
      if p !in kept && q in all {
        var e :| e in paths && Covers(e, q);
        CoversTransitive(e, q, p);
        assert !Covers(candidate, e) ==> e in kept;
        CandidateCovers(candidate, e);
      }
    }
  }

  lemma CandidateCovers(a: Path, d: Path)
    requires Covers(d, a) && Covers(a, d)
    ensures a == d
  {
  }

  lemma InsertedFrontier(paths: seq<Path>, all: set<Path>, candidate: Path)
    requires Frontier(paths, all)
    ensures Frontier(Inserted(paths, candidate), all + {candidate})
  {
    var grown := all + {candidate};
    var updated := Inserted(paths, candidate);
    UncoveredDistinct(paths, candidate);
    forall q | q in grown
      ensures Reached(updated, q)
    {
      InsertedReaches(paths, candidate, q);
    }
    forall p
      ensures p in updated <==> Minimal(grown, p)
    {
      if p in updated {
        InsertedIsMinimal(paths, all, candidate, p);
      }
      if Minimal(grown, p) {
        var e :| e in updated && Covers(e, p);
        InsertedIsOf(paths, all, candidate, e);
      }
    }
    hide Covers, Minimal;
  }

  lemma InsertedIsOf(paths: seq<Path>, all: set<Path>, candidate: Path, e: Path)
    requires Frontier(paths, all) && e in Inserted(paths, candidate)
    ensures e in all + {candidate}
  {
    hide Covers;
  }

  function SetOf(paths: seq<Path>): set<Path> {
    set p | p in paths
  }

  lemma SetOfSnoc(paths: seq<Path>, last: Path)
    ensures SetOf(paths + [last]) == SetOf(paths) + {last}
  {
  }

  /** Inserting any sequence of paths leaves exactly the minimal ones, each once. */
  lemma {:induction false} InsertedAllIsFrontier(candidates: seq<Path>)
    ensures Frontier(InsertedAll([], candidates), SetOf(candidates))
  {
    if candidates != [] {
      var before, last := candidates[..|candidates| - 1], candidates[|candidates| - 1];
      assert candidates == before + [last];
      InsertedAllIsFrontier(before);
      InsertedFrontier(InsertedAll([], before), SetOf(before), last);
      SetOfSnoc(before, last);
    }
  }

  /** Lexicographic order on bytes, the order of Rust strings. */
  predicate Less(a: Bytes, b: Bytes) {
    b != [] && (a == [] || a[0] < b[0] || (a[0] == b[0] && Less(a[1..], b[1..])))
  }

  lemma {:induction false} LessTotal(a: Bytes, b: Bytes)
    ensures a != b ==> Less(a, b) || Less(b, a)
    ensures !(Less(a, b) && Less(b, a))
    ensures !Less(a, a)
  {
    if a != [] && b != [] {
      LessTotal(a[1..], b[1..]);
      if a[1..] == b[1..] && a[0] == b[0] {
        assert a == [a[0]] + a[1..] == b;
      }
    }
    if a != [] {
      LessTotal(a[1..], []);
      IrreflexiveLess(a);
    }
  }

  lemma {:induction false} IrreflexiveLess(a: Bytes)
    ensures !Less(a, a)
  {
    if a != [] {
      IrreflexiveLess(a[1..]);
    }
  }

  lemma {:induction false} LessTransitive(a: Bytes, b: Bytes, c: Bytes)
    requires Less(a, b) && Less(b, c)
    ensures Less(a, c)
  {
    if a != [] && a[0] == b[0] == c[0] {
      LessTransitive(a[1..], b[1..], c[1..]);
    }
  }

  predicate Increasing(s: seq<Path>) {
    forall i, j :: 0 <= i < j < |s| ==> Less(s[i], s[j])
  }

  /** `sort_unstable` then `dedup`: insertion into a strictly increasing list. */
  function SortedInsert(sorted: seq<Path>, p: Path): (r: seq<Path>)
    requires Increasing(sorted)
    ensures Increasing(r)
    ensures forall q :: q in r <==> q in sorted || q == p
  {
    if sorted == [] then [p]
    else if sorted[0] == p then sorted
    else if Less(p, sorted[0]) then
      assert forall j | 0 < j < |sorted| :: Less(p, sorted[j]) by {
        forall j | 0 < j < |sorted|
          ensures Less(p, sorted[j])
        {
          LessTransitive(p, sorted[0], sorted[j]);
        }
      }
      [p] + sorted
    else
      LessTotal(p, sorted[0]);
      assert forall q | q in sorted[1..] :: Less(sorted[0], q);
      [sorted[0]] + SortedInsert(sorted[1..], p)
  }

  function SortedDistinct(paths: seq<Path>): (r: seq<Path>)
    ensures Increasing(r)
    ensures forall p :: p in r <==> p in paths
  {
    if paths == [] then [] else SortedInsert(SortedDistinct(paths[1..]), paths[0])
  }

  lemma NoElements(s: seq<Path>)
    ensures (forall p :: p !in s) ==> s == []
  {
    if s != [] {
      assert s[0] in s;
    }
  }

  lemma {:induction false} IncreasingUnique(a: seq<Path>, b: seq<Path>)
    requires Increasing(a) && Increasing(b)
    requires forall p :: p in a <==> p in b
    ensures a == b
  {
    if a == [] {
      NoElements(b);
    } else {
      assert a[0] in b && b[0] in a;
      LessTotal(a[0], b[0]);
      assert a[0] == b[0];
      forall p
        ensures p in a[1..] <==> p in b[1..]
      {
        IrreflexiveLess(a[0]);
        assert p in a <==> p in b;
        assert a == [a[0]] + a[1..] && b == [b[0]] + b[1..];
      }
      IncreasingUnique(a[1..], b[1..]);
      assert a == [a[0]] + a[1..] && b == [b[0]] + b[1..];
    }
  }

  /** The payload depends only on which paths were inserted, not on their order
      or how often each came. */
  lemma PayloadIsAFunctionOfTheSet(first: seq<Path>, second: seq<Path>)
    requires forall p :: p in first <==> p in second
    ensures SortedDistinct(InsertedAll([], first)) == SortedDistinct(InsertedAll([], second))
  {
    InsertedAllIsFrontier(first);
    InsertedAllIsFrontier(second);
    assert SetOf(first) == SetOf(second);
    IncreasingUnique(SortedDistinct(InsertedAll([], first)), SortedDistinct(InsertedAll([], second)));
  }
}
