/**
 * The species selector's options: the species of the loaded page's
 * characters, put through a `Set` and read back with `Array.from(...).sort()`.
 */
module Species {
  import opened Text
  import opened Characters

  /** No string occurs twice. */
  predicate NoDuplicates(s: seq<string>) {
    forall i, j :: 0 <= i < j < |s| ==> s[i] != s[j]
  }

  /** Ascending in the default sort order, with no ties. */
  predicate StrictlySorted(s: seq<string>) {
    forall i, j :: 0 <= i < j < |s| ==> Less(s[i], s[j])
  }

  /** `results.map((character) => character.species)`. */
  function SpeciesColumn(results: seq<Character>): (r: seq<string>)
    ensures |r| == |results|
    ensures forall i :: 0 <= i < |results| ==> r[i] == results[i].species
    ensures forall c :: c in results ==> c.species in r
    ensures forall x :: x in r ==> exists c :: c in results && c.species == x
  {
    if results == [] then [] else [results[0].species] + SpeciesColumn(results[1..])
  }

  /**
   * The strings of `s` in first-occurrence order, skipping those in `seen`
   * and every repeat: what a `Set` built from `s` holds, in the order
   * `Array.from` reads it back.
   */
  function Distinct(s: seq<string>, seen: set<string>): (r: seq<string>)
    ensures NoDuplicates(r)
    ensures forall x :: x in r <==> x in s && x !in seen
  {
    if s == [] then []
    else if s[0] in seen then Distinct(s[1..], seen)
    else [s[0]] + Distinct(s[1..], seen + {s[0]})
  }

  /** Insert `x` into a strictly sorted list that does not hold it yet. */
  function Insert(x: string, s: seq<string>): (r: seq<string>)
    requires StrictlySorted(s) && x !in s
    ensures StrictlySorted(r)
    ensures multiset(r) == multiset(s) + multiset{x}
  {
    if s == [] then [x]
    else if Less(x, s[0]) then
      LessThanAll(x, s);
      [x] + s
    else
      var rest := Insert(x, s[1..]);
      HeadBelowInsert(x, s, rest);
      assert s == [s[0]] + s[1..];
      [s[0]] + rest
  }

  lemma HeadBelowInsert(x: string, s: seq<string>, rest: seq<string>)
    requires StrictlySorted(s) && s != [] && x != s[0] && !Less(x, s[0])
    requires multiset(rest) == multiset(s[1..]) + multiset{x}
    ensures forall j :: 0 <= j < |rest| ==> Less(s[0], rest[j])
  {
    LessTotal(x, s[0]);
    forall j | 0 <= j < |rest|
      ensures Less(s[0], rest[j])
    {
      assert rest[j] in multiset(rest);
      if rest[j] != x {
        assert rest[j] in s[1..];
      }
    }
  }

  lemma LessThanAll(x: string, s: seq<string>)
    requires StrictlySorted(s) && s != [] && Less(x, s[0])
    ensures forall i :: 0 <= i < |s| ==> Less(x, s[i])
  {
    forall i | 0 < i < |s|
      ensures Less(x, s[i])
    {
      LessTransitive(x, s[0], s[i]);
    }
  }

  /** `sort()` applied to strings that are pairwise different. */
  function SortDistinct(s: seq<string>): (r: seq<string>)
    requires NoDuplicates(s)
    ensures StrictlySorted(r)
    ensures multiset(r) == multiset(s)
  {
    if s == [] then []
    else
      var rest := SortDistinct(s[1..]);
      assert s[0] !in rest by {
        assert s[0] !in s[1..];
        assert s[0] !in multiset(rest);
      }
      assert s == [s[0]] + s[1..];
      Insert(s[0], rest)
  }

  /**
   * Two strictly sorted lists with the same elements are the same list: the
   * options depend only on which species occur, so any correct sort
   * (the insertion sort above, or a browser's own) yields them.
   */
  lemma {:induction false} StrictlySortedUnique(a: seq<string>, b: seq<string>)
    requires StrictlySorted(a) && StrictlySorted(b)
    requires forall x :: x in a <==> x in b
    ensures a == b
  {
    if a != [] {
      assert a[0] in b;
    }
    if b != [] {
      assert b[0] in a;
    }
    if a != [] && b != [] {
      SameHead(a, b);
      forall x
        ensures x in a[1..] <==> x in b[1..]
      {
        if x in a[1..] {
          TailMember(a, b, x);
        }
        if x in b[1..] {
          TailMember(b, a, x);
        }
      }
      StrictlySortedUnique(a[1..], b[1..]);
    }
  }

  /** Two non-empty strictly sorted lists with the same elements start alike: both start with the least. */
  lemma SameHead(a: seq<string>, b: seq<string>)
    requires StrictlySorted(a) && StrictlySorted(b)
    requires forall x :: x in a <==> x in b
    requires a != [] && b != []
    ensures a[0] == b[0]
  {
    assert a[0] in a && b[0] in b;
    var j :| 0 <= j < |b| && b[j] == a[0];
    var k :| 0 <= k < |a| && a[k] == b[0];
    if j > 0 && k > 0 {
      LessAsymmetric(a[0], a[k]);
      assert false;
    }
  }

  lemma TailMember(a: seq<string>, b: seq<string>, x: string)
    requires StrictlySorted(a) && StrictlySorted(b)
    requires forall y :: y in a <==> y in b
    requires a != [] && b != [] && a[0] == b[0]
    requires x in a[1..]
    ensures x in b[1..]
  {
    var i :| 0 <= i < |a[1..]| && a[1..][i] == x;
    assert Less(a[0], a[i + 1]);
    LessIrreflexive(x);
    assert x in b;
    var j :| 0 <= j < |b| && b[j] == x;
    assert j != 0;
    assert b[1..][j - 1] == x;
  }

  /** `Array.from(new Set(xs)).sort()`. */
  function SortedDistinct(xs: seq<string>): (r: seq<string>)
    ensures StrictlySorted(r) && NoDuplicates(r)
    ensures forall x :: x in r <==> x in xs
  {
    var d := Distinct(xs, {});
    var r := SortDistinct(d);
    assert forall x :: x in r <==> x in multiset(d);
    StrictlySortedHasNoDuplicates(r);
    r
  }

  lemma StrictlySortedHasNoDuplicates(s: seq<string>)
    requires StrictlySorted(s)
    ensures NoDuplicates(s)
  {
    forall i, j | 0 <= i < j < |s|
      ensures s[i] != s[j]
    {
      LessIrreflexive(s[i]);
    }
  }

  /** The species options after a successful fetch of a page with these results. */
  function SpeciesOptions(results: seq<Character>): (r: seq<string>)
    ensures StrictlySorted(r) && NoDuplicates(r)
    ensures forall x :: x in r <==> exists c :: c in results && c.species == x
  {
    SortedDistinct(SpeciesColumn(results))
  }

  /** Species seen as Human, Human, Alien give the two options Alien and Human. */
  lemma DedupSortExample()
    ensures SortedDistinct(["Human", "Human", "Alien"]) == ["Alien", "Human"]
  {
    var r := SortedDistinct(["Human", "Human", "Alien"]);
    assert Less("Alien", "Human");
    forall x
      ensures x in r <==> x in ["Alien", "Human"]
    {
    }
    StrictlySortedUnique(r, ["Alien", "Human"]);
  }
}
