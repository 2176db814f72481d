/**
 * The local filter engine of the character explorer: the characters of the
 * loaded page and the predicate `filterCharacters` applies to each of them.
 */
module Characters {
  import opened Text

  /** One character of a page result, as the remote API delivers it. */
  datatype Character = Character(
    id: int,
    name: string,
    status: string,
    species: string,
    gender: string,
    originName: string,
    locationName: string,
    image: string)

  /** The four filter inputs of the page: the search term and the three selector values. */
  datatype Criteria = Criteria(searchTerm: string, status: string, gender: string, species: string)

  /** No search term and every selector on its "All" option. */
  predicate Unfiltered(f: Criteria) {
    f.searchTerm == "" && f.status == "" && f.gender == "" && f.species == ""
  }

  /**
   * A selector test: the empty value matches everything; otherwise the
   * character's field, lower-cased, must equal the selector value as it is
   * (the value itself is not lower-cased).
   */
  predicate FieldMatches(selected: string, field: string)
    ensures FieldMatches(selected, field) ==> IsLower(selected)
    ensures FieldMatches(selected, field) && selected != "" ==> |selected| == |field|
  {
    selected == "" || Lower(field) == selected
  }

  /** The predicate passed to `characters.filter`: all four tests hold. */
  predicate Matches(c: Character, f: Criteria)
    ensures Matches(c, f) ==> |f.searchTerm| <= |c.name|
    ensures Matches(c, f) ==> IsLower(f.status) && IsLower(f.gender) && IsLower(f.species)
  {
    && Contains(Lower(c.name), Lower(f.searchTerm))
    && FieldMatches(f.status, c.status)
    && FieldMatches(f.gender, c.gender)
    && FieldMatches(f.species, c.species)
  }

  /** `filterCharacters`: the characters that match, in their original order. */
  function FilterCharacters(cs: seq<Character>, f: Criteria): (r: seq<Character>)
    ensures |r| <= |cs|
    ensures forall c :: c in r <==> c in cs && Matches(c, f)
  {
    if cs == [] then []
    else if Matches(cs[0], f) then [cs[0]] + FilterCharacters(cs[1..], f)
    else FilterCharacters(cs[1..], f)
  }

  /** `a` is `b` with some elements dropped and the rest kept in order. */
  ghost predicate IsSubsequence<T>(a: seq<T>, b: seq<T>)
    decreases |b|
  {
    if a == [] then true
    else if b == [] then false
    else if a[0] == b[0] then IsSubsequence(a[1..], b[1..])
    else IsSubsequence(a, b[1..])
  }

  /** The filtered list is a subsequence of the loaded list: nothing is added or reordered. */
  lemma {:induction false} FilterIsSubsequence(cs: seq<Character>, f: Criteria)
    ensures IsSubsequence(FilterCharacters(cs, f), cs)
  {
    if cs != [] {
      FilterIsSubsequence(cs[1..], f);
      var rest := FilterCharacters(cs[1..], f);
      if Matches(cs[0], f) {
        assert ([cs[0]] + rest)[1..] == rest;
      } else if rest != [] {
        assert rest[0] in rest;
        assert rest[0] != cs[0];
      }
    }
  }

  /**
   * Multiplicity: a matching character occurs in the filtered list exactly as
   * often as in the loaded list, and a non-matching one not at all.
   */
  lemma {:induction false} FilterCounts(cs: seq<Character>, f: Criteria, c: Character)
    ensures multiset(FilterCharacters(cs, f))[c] == if Matches(c, f) then multiset(cs)[c] else 0
  {
    if cs != [] {
      FilterCounts(cs[1..], f, c);
      assert cs == [cs[0]] + cs[1..];
    }
  }

  /** A list whose every character matches is left as it is. */
  lemma {:induction false} FilterKeepsAllMatching(cs: seq<Character>, f: Criteria)
    requires forall c :: c in cs ==> Matches(c, f)
    ensures FilterCharacters(cs, f) == cs
  {
    if cs != [] {
      FilterKeepsAllMatching(cs[1..], f);
      assert [cs[0]] + cs[1..] == cs;
    }
  }

  /** Filtering the filtered list again with the same criteria changes nothing. */
  lemma FilterIdempotent(cs: seq<Character>, f: Criteria)
    ensures FilterCharacters(FilterCharacters(cs, f), f) == FilterCharacters(cs, f)
  {
    FilterKeepsAllMatching(FilterCharacters(cs, f), f);
  }

  /** With no search term and every selector on "All", the whole page is shown. */
  lemma FilterUnfilteredIsIdentity(cs: seq<Character>, f: Criteria)
    requires Unfiltered(f)
    ensures FilterCharacters(cs, f) == cs
  {
    forall c | c in cs
      ensures Matches(c, f)
    {
      assert Contains(Lower(c.name), Lower(f.searchTerm));
    }
    FilterKeepsAllMatching(cs, f);
  }

  /** The search term is compared case-insensitively: only its lower-cased form matters. */
  lemma {:induction false} SearchTermIgnoresCase(cs: seq<Character>, f: Criteria, g: Criteria)
    requires Lower(f.searchTerm) == Lower(g.searchTerm)
    requires f.status == g.status && f.gender == g.gender && f.species == g.species
    ensures FilterCharacters(cs, f) == FilterCharacters(cs, g)
  {
    if cs != [] {
      SearchTermIgnoresCase(cs[1..], f, g);
    }
  }

  /** A list in which no character matches filters down to nothing. */
  lemma {:induction false} FilterDropsAllNonMatching(cs: seq<Character>, f: Criteria)
    requires forall c :: c in cs ==> !Matches(c, f)
    ensures FilterCharacters(cs, f) == []
  {
    if cs != [] {
      FilterDropsAllNonMatching(cs[1..], f);
    }
  }

  /**
   * A selector value holding an upper-case letter matches no character,
   * because only the character's field is lower-cased before the comparison.
   */
  lemma UpperCaseSelectorMatchesNothing(cs: seq<Character>, f: Criteria)
    requires !IsLower(f.status) || !IsLower(f.gender) || !IsLower(f.species)
    ensures FilterCharacters(cs, f) == []
  {
    forall c | c in cs
      ensures !Matches(c, f)
    {
      assert IsLower(Lower(c.status)) && IsLower(Lower(c.gender)) && IsLower(Lower(c.species));
    }
    FilterDropsAllNonMatching(cs, f);
  }

  /**
   * The filter effect: `filterCharacters` runs only when the loaded list is
   * non-empty; otherwise the visible list keeps its current value.
   */
  function FilterEffect(cs: seq<Character>, f: Criteria, visible: seq<Character>): (r: seq<Character>)
    ensures cs == [] ==> r == visible
    ensures cs != [] ==> r == FilterCharacters(cs, f)
    ensures cs != [] ==> forall c :: c in r <==> c in cs && Matches(c, f)
    ensures cs != [] ==> IsSubsequence(r, cs)
  {
    if |cs| > 0 then FilterIsSubsequence(cs, f); FilterCharacters(cs, f) else visible
  }
}

/** The worked example of the page: two characters of page 1, searched and filtered by status. */
module CharacterExamples {
  import opened Text
  import opened Characters

  function Rick(): Character {
    Character(1, "Rick Sanchez", "Alive", "Human", "Male", "Earth (C-137)", "Citadel of Ricks", "1.jpeg")
  }

  function Morty(): Character {
    Character(2, "Morty Smith", "Alive", "Human", "Male", "unknown", "Citadel of Ricks", "2.jpeg")
  }

  /** Searching "morty" keeps Morty Smith only. */
  lemma SearchExample()
    ensures FilterCharacters([Rick(), Morty()], Criteria("morty", "", "", "")) == [Morty()]
  {
    var f := Criteria("morty", "", "", "");
    LowerFixesLower("morty");
    assert !Matches(Rick(), f) by {
      LowerOmits("Rick Sanchez", 'm');
      NotContainsMissingHead(Lower("Rick Sanchez"), "morty");
    }
    assert Matches(Morty(), f) by {
      var name := Lower("Morty Smith");
      assert name[..5] == "morty";
      assert "morty" <= name[0..];
    }
    assert [Rick(), Morty()][1..] == [Morty()];
  }

  /** The status filter "dead" keeps no one: both characters are alive. */
  lemma StatusExample()
    ensures FilterCharacters([Rick(), Morty()], Criteria("", "dead", "", "")) == []
  {
    assert Lower("Alive") != "dead";
    assert [Rick(), Morty()][1..] == [Morty()];
  }
}
