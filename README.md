# Rick and Morty character explorer — a Dafny model of its page controller

The explorer is one React page (`src/pages/RickAndMorty.jsx`) that loads one
server page of characters at a time, filters the loaded page locally by name
fragment, status, gender and species, offers the distinct species of the page
as selector options, and moves between server pages with Previous/Next. A
search box feeds the name fragment through a 300-unit debounce.

This project models that logic:

- `wrappers.dfy` — `Option`, for the page's `null`able values.
- `text.dfy` (module `Text`) — ASCII `toLowerCase`, `includes`, and the
  default string order of `sort()`, with the order proved irreflexive,
  transitive and total.
- `characters.dfy` (modules `Characters`, `CharacterExamples`) — the
  `Character` record, the four filter inputs, `filterCharacters` as a pure
  function, the filter effect's empty-list guard, and the lemmas: the result
  is a subsequence of the loaded list, a character is kept iff all four tests
  hold (with its multiplicity), the unfiltered case is the identity, filtering
  is idempotent, and the worked example of two characters.
- `species.dfy` (module `Species`) — `new Set(...)` read back in insertion
  order, an insertion sort standing for `sort()`, and the species options:
  strictly sorted, no duplicates, exactly the species of the page; any two
  strictly sorted lists with the same elements are equal, so the result does
  not depend on which sort algorithm a browser uses.
- `status.dfy` (module `StatusClass`) — `getStatusClass`.
- `pagination.dfy` (module `Pagination`) — the pagination record and the
  Previous/Next transitions.
- `debounce.dfy` (module `Debounce`) — the debounce as a single-slot state
  machine over `Call(value, time)` and `Tick(time)` events, its run over an
  event sequence, and the class holding the pending timer.
- `explorer.dfy` (module `Explorer`) — the page as a class with the page's
  state fields; fetch start and fetch outcome, the filter effect, the three
  selector handlers, the search box, and the navigation handlers, all keeping
  one invariant: when characters are loaded, the visible list is the loaded
  page filtered by the current criteria, and the species options are those of
  the loaded page.

The status, gender and species tests are case-insensitive only on the
character's side: the code lower-cases the character's field but compares it
with the selector value as it is (`character.status.toLowerCase() ===
statusFilter`), and the model does the same. A selector value holding an
upper-case letter therefore matches nothing
(`Characters.UpperCaseSelectorMatchesNothing`); the page's own selector
options are all lower-case, so the page never sends such a value.

## Model

| member | source | states |
|---|---|---|
| Text.LowerChar | src/pages/RickAndMorty.jsx:70-72 | lower-casing one character never yields an upper-case ASCII letter and changes exactly the upper-case ASCII letters, each by 32 |
| Text.Lower | src/pages/RickAndMorty.jsx:70-72 | lower-casing keeps the length, raises each upper-case ASCII letter by 32 at its own position, keeps every other character, and leaves no upper-case ASCII letter |
| Text.LowerIdempotent | src/pages/RickAndMorty.jsx:70-72 | lower-casing twice equals lower-casing once |
| Text.Contains | src/pages/RickAndMorty.jsx:70-72 | `includes` holds only of a fragment no longer than the name, and holds of every prefix of the name, the empty fragment included, so an empty search fragment matches every character |
| Text.NotContainsMissingHead | src/pages/RickAndMorty.jsx:70-72 | a fragment whose first character does not occur in the name is not included in it |
| Text.Less | src/pages/RickAndMorty.jsx:58 | the default string order of `sort()` never puts a string below itself and puts every proper prefix below the longer string |
| Text.LessIrreflexive | src/pages/RickAndMorty.jsx:58 | no string is below itself in the default string order |
| Text.LessTransitive | src/pages/RickAndMorty.jsx:58 | the default string order of `sort()` is transitive |
| Text.LessTotal | src/pages/RickAndMorty.jsx:58 | any two different strings are ordered one way or the other |
| Text.LessAsymmetric | src/pages/RickAndMorty.jsx:58 | no two strings are each below the other |
| Characters.FieldMatches | src/pages/RickAndMorty.jsx:73-79 | a selector test passes only for an empty or all-lower-case selector value, and a non-empty one only for a field of the same length |
| Characters.Matches | src/pages/RickAndMorty.jsx:69-81 | a character passes the filter's callback only if the search fragment is no longer than its name and all three selector values are lower-case |
| Characters.FilterCharacters | src/pages/RickAndMorty.jsx:68-85 | the filtered list is no longer than the loaded one, and a character is in it iff it is loaded and its lower-cased name includes the lower-cased fragment and each selector is empty or equals the lower-cased field |
| Characters.FilterIsSubsequence | src/pages/RickAndMorty.jsx:69-82 | the filtered list is a subsequence of the loaded list: source order kept, nothing re-sorted or added |
| Characters.FilterCounts | src/pages/RickAndMorty.jsx:69-82 | a matching character occurs in the filtered list as often as in the loaded list, a non-matching one never |
| Characters.FilterKeepsAllMatching | src/pages/RickAndMorty.jsx:69-82 | a list whose every character matches is returned unchanged |
| Characters.FilterIdempotent | src/pages/RickAndMorty.jsx:69-82 | filtering the filtered list again with the same criteria gives the same list |
| Characters.FilterUnfilteredIsIdentity | src/pages/RickAndMorty.jsx:70-81 | with an empty fragment and all three selectors empty the filtered list is the loaded list |
| Characters.SearchTermIgnoresCase | src/pages/RickAndMorty.jsx:70-72 | two search terms that lower-case alike give the same filtered list |
| Characters.FilterDropsAllNonMatching | src/pages/RickAndMorty.jsx:69-82 | a list in which nothing matches filters to the empty list |
| Characters.UpperCaseSelectorMatchesNothing | src/pages/RickAndMorty.jsx:73-79 | a status, gender or species value holding an upper-case letter filters every list to empty, since only the field is lower-cased |
| Characters.FilterEffect | src/pages/RickAndMorty.jsx:25-29 | with no characters loaded the visible list keeps its old value; otherwise it is `filterCharacters` of the loaded list, so it holds exactly the matching loaded characters, as a subsequence |
| CharacterExamples.SearchExample | src/pages/RickAndMorty.jsx:69-82 | with Rick Sanchez and Morty Smith loaded, searching "morty" shows exactly Morty Smith |
| CharacterExamples.StatusExample | src/pages/RickAndMorty.jsx:73-74 | with the same two living characters, the status filter "dead" shows no one |
| Species.SpeciesColumn | src/pages/RickAndMorty.jsx:56 | the species column has one entry per character, the i-th being the i-th character's species |
| Species.Distinct | src/pages/RickAndMorty.jsx:55-57 | the `Set` read back holds no duplicates and exactly the given values not already seen |
| Species.Insert | src/pages/RickAndMorty.jsx:58 | inserting a new string into a strictly sorted list keeps it strictly sorted and adds exactly that string |
| Species.SortDistinct | src/pages/RickAndMorty.jsx:58 | sorting pairwise different strings gives a strictly sorted permutation of them |
| Species.StrictlySortedUnique | src/pages/RickAndMorty.jsx:58 | two strictly sorted lists with the same elements are equal, so any correct sort gives the same options |
| Species.SortedDistinct | src/pages/RickAndMorty.jsx:55-58 | `Array.from(new Set(xs)).sort()` is strictly sorted, duplicate-free, and holds exactly the elements of `xs` |
| Species.SpeciesOptions | src/pages/RickAndMorty.jsx:55-58 | the species options are strictly sorted, duplicate-free, and a string is an option iff some character of the page has it as species |
| Species.DedupSortExample | src/pages/RickAndMorty.jsx:55-58 | Human, Human, Alien give the options Alien, Human |
| StatusClass.GetStatusClass | src/pages/RickAndMorty.jsx:99-108 | green iff the lower-cased status is "alive", red iff it is "dead", grey iff it is neither |
| StatusClass.StatusClassIgnoresCase | src/pages/RickAndMorty.jsx:100 | statuses that lower-case alike get the same class |
| StatusClass.StatusClassOfLowered | src/pages/RickAndMorty.jsx:100 | a status and its lower-cased form get the same class |
| StatusClass.StatusClassExamples | src/pages/RickAndMorty.jsx:99-108 | "Alive" is green, "Dead" is red, "unknown" is grey |
| Pagination.Truthy | src/pages/RickAndMorty.jsx:88-94 | a link counts as present iff it is neither `null` nor the empty string, as JavaScript truthiness decides |
| Pagination.PrevPage | src/pages/RickAndMorty.jsx:87-91 | Previous changes nothing iff the previous link is null or empty; otherwise it lowers the current page by exactly 1; count, pages and both links never change |
| Pagination.NextPage | src/pages/RickAndMorty.jsx:93-97 | Next changes nothing iff the next link is null or empty; otherwise it raises the current page by exactly 1; count, pages and both links never change |
| Pagination.PrevNextInverse | src/pages/RickAndMorty.jsx:87-97 | with both links present Previous undoes Next and Next undoes Previous |
| Pagination.InitialIsStuck | src/pages/RickAndMorty.jsx:13-19 | before any fetch settles neither button moves the page |
| Debounce.Step | src/pages/RickAndMorty.jsx:110-116 | a call replaces any pending call by itself, due `delay` later, and fires nothing; a tick fires iff a call is pending and due, fires that call's value and empties the slot, and otherwise leaves the slot as it was |
| Debounce.Run | src/pages/RickAndMorty.jsx:110-116 | over an event sequence the wrapped function runs at most once per event, and never during a sequence of calls alone |
| Debounce.RunAppend | src/pages/RickAndMorty.jsx:110-116 | running two event sequences in turn is running their concatenation |
| Debounce.BurstLeavesLastPending | src/pages/RickAndMorty.jsx:112-115 | a burst of calls fires nothing and leaves exactly the last call pending, due `delay` after it |
| Debounce.BurstFiresLastOnce | src/pages/RickAndMorty.jsx:110-116 | after a burst of calls, a tick at or past the last call's time plus the delay fires once with the last value, and an earlier tick fires nothing |
| Debounce.FiredWereCalled | src/pages/RickAndMorty.jsx:110-116 | every value passed to the wrapped function was pending at the start or was the value of some call |
| Debounce.FiresAtMostOncePerCall | src/pages/RickAndMorty.jsx:110-116 | the wrapped function runs at most once per call, plus once for a call pending at the start |
| Debounce.LastCall | src/pages/RickAndMorty.jsx:112-115 | the last call of an event sequence is a call of it followed only by ticks; when there is none, every event is a tick |
| Debounce.PendingIsLastCall | src/pages/RickAndMorty.jsx:112-115 | starting idle, the pending call after any event sequence is the last call in it, due `delay` after that call |
| Debounce.FiresLastCallWhenDue | src/pages/RickAndMorty.jsx:110-116 | starting idle, a tick that fires a value fires the last call's value, and only when that call was made at least `delay` before the tick |
| Debounce.QuietTicksKeepPending | src/pages/RickAndMorty.jsx:113-114 | ticks all earlier than the pending call's due time fire nothing and leave that call pending |
| Debounce.CallThenQuietTicksFires | src/pages/RickAndMorty.jsx:110-116 | whatever came before, a call followed by ticks all earlier than its due time and then a tick at or past it adds exactly one firing, with that call's value |
| Debounce.QuietWindowExample | src/pages/RickAndMorty.jsx:113-114 | a call at 0 under a 300-unit delay does not fire at a tick at 100 and fires once at a tick at 300 |
| Debounce.KeystrokeExample | src/pages/RickAndMorty.jsx:118-120 | three keystrokes 100 units apart under the 300-unit window give exactly one update, with the last keystroke's value |
| Debounce.Debouncer.constructor | src/pages/RickAndMorty.jsx:110-111 | a new debouncer has the given delay and no pending call |
| Debounce.Debouncer.Call | src/pages/RickAndMorty.jsx:112-115 | a call cancels the pending call and schedules its own value `delay` later |
| Debounce.Debouncer.Tick | src/pages/RickAndMorty.jsx:114 | the clock's tick follows `Step`: a due pending call fires with its value and the slot empties |
| Explorer.ErrorMessage | src/pages/RickAndMorty.jsx:62 | the error shown is the fixed prefix followed by exactly the thrown error's message |
| Explorer.PaginationOf | src/pages/RickAndMorty.jsx:47-53 | a successful fetch stores the response's count, pages and links, with the requested page as current page |
| Explorer.CharacterExplorer.constructor | src/pages/RickAndMorty.jsx:4-19 | the page starts with nothing loaded, empty filters, loading on, no error, page 1, and an idle search debouncer |
| Explorer.CharacterExplorer.Valid | src/pages/RickAndMorty.jsx:25-29 | in a consistent page the species options are strictly sorted and, once characters are loaded, the visible list holds exactly the loaded characters that match the current criteria |
| Explorer.CharacterExplorer.RunFilterEffect | src/pages/RickAndMorty.jsx:25-29 | the filter effect recomputes the visible list from a non-empty loaded list and leaves it alone when the list is empty; afterwards the page invariant holds iff the species options and the search delay are right |
| Explorer.CharacterExplorer.BeginFetch | src/pages/RickAndMorty.jsx:33-34 | a fetch starts by turning loading on and clearing the error, changes nothing else, and so keeps the page invariant exactly when it held before |
| Explorer.CharacterExplorer.SettleFetch | src/pages/RickAndMorty.jsx:40-63 | a settled fetch ends loading; a failure sets the prefixed error and keeps characters, visible list, pagination and species options; a success stores the results, the pagination for the page and the species options, then runs the filter effect; the page invariant holds after both |
| Explorer.CharacterExplorer.SettleFailure | src/pages/RickAndMorty.jsx:61-63 | the catch block sets the prefixed error, ends loading, and changes nothing else |
| Explorer.CharacterExplorer.SettleSuccess | src/pages/RickAndMorty.jsx:46-60 | the try block stores the results, pagination and species options of the page and ends loading, and the filter effect then runs |
| Explorer.CharacterExplorer.FetchCharacters | src/pages/RickAndMorty.jsx:31-66 | both outcomes leave loading off; a failure shows the prefixed message and keeps the prior characters, pagination and species options; a success leaves no error, the page's results as characters and the requested page as current page |
| Explorer.CharacterExplorer.HandlePrevPage | src/pages/RickAndMorty.jsx:87-91 | Previous applies `PrevPage` and changes nothing else; it leads to exactly one fetch, of the new page, when the page moved, and to none otherwise |
| Explorer.CharacterExplorer.HandleNextPage | src/pages/RickAndMorty.jsx:93-97 | Next applies `NextPage` and changes nothing else; it leads to exactly one fetch, of the new page, when the page moved, and to none otherwise |
| Explorer.CharacterExplorer.SetStatusFilter | src/pages/RickAndMorty.jsx:140 | the status selector stores its value and the visible list follows the filter effect on the new criteria |
| Explorer.CharacterExplorer.SetGenderFilter | src/pages/RickAndMorty.jsx:152 | the gender selector stores its value and the visible list follows the filter effect on the new criteria |
| Explorer.CharacterExplorer.SetSpeciesFilter | src/pages/RickAndMorty.jsx:164 | the species selector stores its value and the visible list follows the filter effect on the new criteria |
| Explorer.CharacterExplorer.HandleSearchChange | src/pages/RickAndMorty.jsx:118-120 | a keystroke schedules its value 300 units later, replacing any pending one, and keeps the page invariant |
| Explorer.CharacterExplorer.AdvanceClock | src/pages/RickAndMorty.jsx:118-120 | when the search timer is due the search term becomes the pending value, and the visible list follows the filter effect |

## Left out

- The `fetch` request, the HTTP status check and the JSON decoding (lines 36-44): a fetch is given its decoded outcome, a page result or the message of the thrown error.
- SettleFetch, FetchCharacters: a `Failed` outcome covers only errors thrown before line 46. A body that decodes but lacks `info` throws at line 48 after `setCharacters` (line 46) has run, and one whose `results` is not an array throws at line 56 after `setPagination` (line 47) has run too; such partial updates before the catch (lines 61-63) are not modelled, because the model takes a well-formed decoded page.
- `console.error` (line 64): a diagnostic side effect.
- All JSX: the markup, the CSS classes other than `getStatusClass`, and the choice between the loading, error, "no matches" and grid views (lines 122-254).
- React's scheduling of effects and the race between overlapping fetches: one fetch outcome is applied at a time. The page-change effect (lines 21-23) is the page number the navigation handlers return; the first fetch on mount is the caller's call of `FetchCharacters` with page 1.
- Wall-clock timers behind `setTimeout`/`clearTimeout`: time is an integer and its passing a `Tick` event.
- The debouncer is re-created on every render in the source (line 118 runs in the component body), so a re-render between two keystrokes leaves the earlier timer live; the model keeps one debouncer for the page's lifetime.
- Unicode case folding in `toLowerCase`: only ASCII letters are lower-cased.
- The string order compares Dafny characters (Unicode scalar values) where JavaScript compares UTF-16 code units; the two agree except between characters above U+FFFF and those in U+E000–U+FFFF.
- The default parameter `page = 1` of `fetchCharacters`: the page always calls it with the current page.
- The handlers' functional update `setPagination((prev) => ...)` reads the latest state while the guard reads the rendered one; with one state at a time these coincide.
