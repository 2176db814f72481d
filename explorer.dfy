/**
 * The character explorer page as a controller object: its state fields, the
 * fetch of one page (split at the `await` into its start and its outcome),
 * the filter effect, the selector and search handlers, and the two
 * navigation handlers. The network call is not modelled: a fetch is given
 * its already-decoded outcome.
 */
module Explorer {
  import opened Wrappers
  import opened Characters
  import opened Species
  import opened Pagination
  import opened Debounce

  /** The `info` part of a page response. */
  datatype PageInfo = PageInfo(count: int, pages: int, next: Option<string>, prev: Option<string>)

  /** A decoded page response: its `info` and its `results`. */
  datatype PageResult = PageResult(info: PageInfo, results: seq<Character>)

  /**
   * How a fetch settled: with a decoded page, or with the message of the
   * error that was thrown (an HTTP status that is not ok, or a transport or
   * decoding failure).
   */
  datatype FetchOutcome = Fetched(data: PageResult) | Failed(message: string)

  const ErrorPrefix := "Error fetching characters: "

  /** The quiescence window of the search box. */
  const SearchDelay: nat := 300

  /** The message shown for a failed fetch: the fixed prefix followed by the error's own message. */
  function ErrorMessage(message: string): (r: string)
    ensures ErrorPrefix <= r
    ensures r[|ErrorPrefix|..] == message
  {
    ErrorPrefix + message
  }

  /** The pagination record a successful fetch of `page` stores. */
  function PaginationOf(info: PageInfo, page: int): (r: PaginationState)
    ensures r.count == info.count && r.pages == info.pages
    ensures r.next == info.next && r.prev == info.prev
    ensures r.currentPage == page
  {
    PaginationState(info.count, info.pages, info.next, info.prev, page)
  }

  class CharacterExplorer {
    var characters: seq<Character>
    var filteredCharacters: seq<Character>
    var searchTerm: string
    var statusFilter: string
    var genderFilter: string
    var speciesFilter: string
    var speciesOptions: seq<string>
    var loading: bool
    var error: Option<string>
    var pagination: PaginationState
    /** `handleSearchChange`: the search box's debounced setter. */
    const search: Debouncer<string>

    function CurrentCriteria(): Criteria
      reads this
    {
      Criteria(searchTerm, statusFilter, genderFilter, speciesFilter)
    }

    /**
     * The page's invariant: whenever a page with characters is loaded, the
     * visible list is that page filtered by the current criteria; the species
     * options are those of the loaded page; the search box waits 300 units.
     */
    ghost predicate Valid()
      reads this
      ensures Valid() ==> StrictlySorted(speciesOptions)
      ensures Valid() && characters != [] ==>
        forall c :: c in filteredCharacters <==> c in characters && Matches(c, CurrentCriteria())
    {
      && (characters != [] ==> filteredCharacters == FilterCharacters(characters, CurrentCriteria()))
      && speciesOptions == SpeciesOptions(characters)
      && search.delay == SearchDelay
    }

    /** The page as first rendered: nothing loaded, no filters, loading, page 1. */
    constructor ()
      ensures Valid()
      ensures characters == [] && filteredCharacters == [] && speciesOptions == []
      ensures searchTerm == "" && statusFilter == "" && genderFilter == "" && speciesFilter == ""
      ensures loading && error == None
      ensures pagination == Initial
      ensures fresh(search) && search.slot == None
    {
      characters := [];
      filteredCharacters := [];
      searchTerm := "";
      statusFilter := "";
      genderFilter := "";
      speciesFilter := "";
      speciesOptions := [];
      loading := true;
      error := None;
      pagination := Initial;
      search := new Debouncer(SearchDelay);
    }

    /** The filter effect: recompute the visible list, unless no characters are loaded. */
    method RunFilterEffect()
      modifies this`filteredCharacters
      ensures filteredCharacters == FilterEffect(characters, CurrentCriteria(), old(filteredCharacters))
      ensures characters != [] ==> filteredCharacters == FilterCharacters(characters, CurrentCriteria())
      ensures Valid() <==> speciesOptions == SpeciesOptions(characters) && search.delay == SearchDelay
    {
      if |characters| > 0 {
        filteredCharacters := FilterCharacters(characters, CurrentCriteria());
      }
    }

    /** The start of a fetch, before its request is awaited: loading, with the error cleared. */
    method BeginFetch()
      modifies this`loading, this`error
      ensures loading && error == None
      ensures Valid() <==> old(Valid())
    {
      loading := true;
      error := None;
    }

    /**
     * A fetch of `page` settling. A failure shows its message and keeps the
     * loaded page, its pagination and its species options; a success stores
     * the results, the pagination record for `page` and the species options,
     * and the filter effect then runs on the new list. Either way loading ends.
     */
    method SettleFetch(page: int, outcome: FetchOutcome)
      requires Valid()
      modifies this`characters, this`filteredCharacters, this`pagination
      modifies this`speciesOptions, this`loading, this`error
      ensures Valid()
      ensures !loading
      ensures outcome.Failed? ==>
        && error == Some(ErrorMessage(outcome.message))
        && characters == old(characters) && filteredCharacters == old(filteredCharacters)
        && pagination == old(pagination) && speciesOptions == old(speciesOptions)
      ensures outcome.Fetched? ==>
        && error == old(error)
        && characters == outcome.data.results
        && pagination == PaginationOf(outcome.data.info, page)
        && speciesOptions == SpeciesOptions(outcome.data.results)
        && filteredCharacters == FilterEffect(characters, CurrentCriteria(), old(filteredCharacters))
    {
      match outcome
      case Failed(message) => SettleFailure(message);
      case Fetched(data) => SettleSuccess(page, data);
    }

    /** The `catch` block: the error is shown and loading ends; nothing else changes. */
    method SettleFailure(message: string)
      requires Valid()
      modifies this`loading, this`error
      ensures Valid()
      ensures !loading && error == Some(ErrorMessage(message))
    {
      error := Some(ErrorMessage(message));
      loading := false;
    }

    /** The rest of the `try` block once the page is decoded, followed by the filter effect it triggers. */
    method SettleSuccess(page: int, data: PageResult)
      requires Valid()
      modifies this`characters, this`filteredCharacters, this`pagination, this`speciesOptions, this`loading
      ensures Valid()
      ensures !loading
      ensures characters == data.results
      ensures pagination == PaginationOf(data.info, page)
      ensures speciesOptions == SpeciesOptions(data.results)
      ensures filteredCharacters == FilterEffect(characters, CurrentCriteria(), old(filteredCharacters))
    {
      characters := data.results;
      pagination := PaginationOf(data.info, page);
      speciesOptions := SpeciesOptions(data.results);
      loading := false;
      RunFilterEffect();
    }

    /** `fetchCharacters(page)`, from its start to its outcome. */
    method FetchCharacters(page: int, outcome: FetchOutcome)
      requires Valid()
      modifies this`characters, this`filteredCharacters, this`pagination
      modifies this`speciesOptions, this`loading, this`error
      ensures Valid()
      ensures !loading
      ensures outcome.Failed? ==>
        && error == Some(ErrorMessage(outcome.message))
        && characters == old(characters) && filteredCharacters == old(filteredCharacters)
        && pagination == old(pagination) && speciesOptions == old(speciesOptions)
      ensures outcome.Fetched? ==>
        && error == None
        && characters == outcome.data.results
        && pagination == PaginationOf(outcome.data.info, page)
        && speciesOptions == SpeciesOptions(outcome.data.results)
        && filteredCharacters == FilterEffect(characters, CurrentCriteria(), old(filteredCharacters))
    {
      BeginFetch();
      SettleFetch(page, outcome);
    }

    /**
     * `handlePrevPage`. Returns the page the page-change effect then fetches:
     * the new current page when it moved, nothing otherwise.
     */
    method HandlePrevPage() returns (refetch: Option<int>)
      requires Valid()
      modifies this`pagination
      ensures Valid()
      ensures pagination == PrevPage(old(pagination))
      ensures refetch == if Truthy(old(pagination.prev)) then Some(old(pagination.currentPage) - 1) else None
    {
      var before := pagination.currentPage;
      if Truthy(pagination.prev) {
        pagination := pagination.(currentPage := pagination.currentPage - 1);
      }
      refetch := if pagination.currentPage != before then Some(pagination.currentPage) else None;
    }

    /** `handleNextPage`, with the page the page-change effect then fetches. */
    method HandleNextPage() returns (refetch: Option<int>)
      requires Valid()
      modifies this`pagination
      ensures Valid()
      ensures pagination == NextPage(old(pagination))
      ensures refetch == if Truthy(old(pagination.next)) then Some(old(pagination.currentPage) + 1) else None
    {
      var before := pagination.currentPage;
      if Truthy(pagination.next) {
        pagination := pagination.(currentPage := pagination.currentPage + 1);
      }
      refetch := if pagination.currentPage != before then Some(pagination.currentPage) else None;
    }

    /**
     * The status selector's change handler. Storing the value it already
     * holds changes nothing; a new value re-runs the filter effect.
     */
    method SetStatusFilter(value: string)
      requires Valid()
      modifies this`statusFilter, this`filteredCharacters
      ensures Valid()
      ensures statusFilter == value
      ensures filteredCharacters == FilterEffect(characters, CurrentCriteria(), old(filteredCharacters))
    {
      if value != statusFilter {
        statusFilter := value;
        RunFilterEffect();
      }
    }

    /** The gender selector's change handler. */
    method SetGenderFilter(value: string)
      requires Valid()
      modifies this`genderFilter, this`filteredCharacters
      ensures Valid()
      ensures genderFilter == value
      ensures filteredCharacters == FilterEffect(characters, CurrentCriteria(), old(filteredCharacters))
    {
      if value != genderFilter {
        genderFilter := value;
        RunFilterEffect();
      }
    }

    /** The species selector's change handler. */
    method SetSpeciesFilter(value: string)
      requires Valid()
      modifies this`speciesFilter, this`filteredCharacters
      ensures Valid()
      ensures speciesFilter == value
      ensures filteredCharacters == FilterEffect(characters, CurrentCriteria(), old(filteredCharacters))
    {
      if value != speciesFilter {
        speciesFilter := value;
        RunFilterEffect();
      }
    }

    /** A keystroke in the search box: the debouncer schedules `value`, replacing any pending one. */
    method HandleSearchChange(value: string, now: int)
      requires Valid()
      modifies search
      ensures Valid()
      ensures search.slot == Some(Pending(value, now + SearchDelay))
    {
      search.Call(value, now);
    }

    /**
     * The clock reaching `now`: if the search box's timer is due, the search
     * term becomes the pending value and the filter effect runs.
     */
    method AdvanceClock(now: int)
      requires Valid()
      modifies search, this`searchTerm, this`filteredCharacters
      ensures Valid()
      ensures search.slot == Step(SearchDelay, old(search.slot), Tick(now)).0
      ensures var fired := Step(SearchDelay, old(search.slot), Tick(now)).1;
        searchTerm == if fired.Some? then fired.value else old(searchTerm)
      ensures filteredCharacters == FilterEffect(characters, CurrentCriteria(), old(filteredCharacters))
    {
      var fired := search.Tick(now);
      if fired.Some? && fired.value != searchTerm {
        searchTerm := fired.value;
        RunFilterEffect();
      }
    }
  }
}
