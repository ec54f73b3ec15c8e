# Superhero database, modelled and verified in Dafny

The program keeps a catalogue of up to 50 superheroes in memory. It uses
parallel global arrays: `names`, `powers`, `weaknesses`, a two-column
`extraData` (year introduced, comic universe) and `ranking`. The counter
`superheroCount` says how many leading slots are live. It starts with ten
seed heroes, whose ranks 7, 5, 6, 8, 4, 9, 3, 10, 2, 1 are pairwise distinct.
The menu offers these operations:

- case-insensitive substring search by name or by superpower;
- an in-place bubble sort by lower-cased name that moves all six columns together;
- display of a hero, or of all heroes, in upper or lower case;
- adding a hero, refused when the store is full or the rank is already taken;
- a listing by rank that sorts a vector of indices and leaves the arrays alone.

The project has three modules:

- `AsciiText` (`text.dfy`) covers the string helpers: `toUppercase` and
  `toLowercase` over ASCII, the ordering behind `std::string`'s `>`, and
  `std::string::find`. Each is a pure function, and lemmas relate it to an
  independent definition.
- `Heroes` (`heroes.dfy`) holds one hero as a value, `Hero`. It also holds the
  specifications the store is proved against:
  - `Hits`, the indices a search selects;
  - `Render`, the display projection;
  - `SortedByName` and `WithKey`, sortedness and stability (for every
    lower-cased name, the records with that name keep their relative order);
  - `IsRankOrder`, the rank view.
  Next to them are the lemmas about these definitions.
- `Database` (`database.dfy`) has the class `HeroDatabase`. Its fields are
  five `const` arrays with 50 slots each (`extraData` is an `array2` of
  50 × 2) and the variable `count`. `Valid()` requires every column to have 50
  slots, the three string columns to be distinct arrays, `0 <= count <= 50`,
  and the live ranks to be pairwise distinct. The ghost view `Slots()` zips
  the columns into records, and `Records()` is its live prefix. The sort,
  the add and the swap change the arrays in place. The searches, the
  displays, the rank check and the rank view only read them.

Because the columns are separate arrays, "a record's fields travel together"
is a real proof obligation. `SwapHeroes` makes the six `swap` calls of the
source and proves that slots `j` and `j + 1` exchange whole records.

## Model

| member | source | states |
|---|---|---|
| `AsciiText.ToUppercase` | superhero_database.cpp:80-84 | same length, each character mapped by ASCII toupper on its own, and no lower-case letter left |
| `AsciiText.ToLowercase` | superhero_database.cpp:86-90 | same length, each character mapped by ASCII tolower on its own, and no upper-case letter left |
| `AsciiText.LowercaseAbsorbs` | superhero_database.cpp:80-90 | lower-casing an upper-cased or lower-cased string gives the string's lower case: the input's case is forgotten |
| `AsciiText.UppercaseAbsorbs` | superhero_database.cpp:80-90 | the same for upper-casing |
| `AsciiText.CaseFoldUnique` | superhero_database.cpp:80-90 | a string with the same lower case as `s` and no lower-case (upper-case) letter is exactly `toUppercase(s)` (`toLowercase(s)`) |
| `AsciiText.LexLessMeaning` | superhero_database.cpp:155 | the comparison used by the sort is the usual string order: a proper prefix comes first, or the first differing character decides |
| `AsciiText.LexLess` | superhero_database.cpp:155 | `std::string`'s `<` (so `x > y` is `LexLess(y, x)`) is strict: it never holds between equal strings, so no name is greater than itself |
| `AsciiText.LexLessAsymmetric` | superhero_database.cpp:155 | two names are never each strictly greater than the other |
| `AsciiText.LexLessTotal` | superhero_database.cpp:155 | two different names are always ordered one way or the other |
| `AsciiText.LexLessTransitive` | superhero_database.cpp:155 | the comparison is transitive |
| `AsciiText.FindFrom` | superhero_database.cpp:124 | `find` returns the first position at or after the start where the needle occurs, and `npos` exactly when there is none |
| `AsciiText.Contains` | superhero_database.cpp:124 | `find(...) != npos` holds exactly when the needle occurs somewhere in the text |
| `Heroes.Matches` | superhero_database.cpp:121-124 | the per-record test of both searches holds exactly when the lower-cased query occurs somewhere in the lower-cased field (the power search at lines 138-141 makes the same test) |
| `Heroes.MatchesIgnoresCase` | superhero_database.cpp:121-124 | changing the case of the field or of the query never changes whether a record matches |
| `Heroes.Indices` | superhero_database.cpp:220-223 | the index vector holds 0, 1, ..., n - 1 in order |
| `Heroes.Hits` | superhero_database.cpp:123-128 | search results are live indices in strictly increasing (store) order |
| `Heroes.HitsMembership` | superhero_database.cpp:123-124 | an index is reported exactly when it is below the count and its lower-cased field contains the lower-cased query |
| `Heroes.HitsStep` | superhero_database.cpp:123-128 | scanning slot `i` appends `i` to the results exactly when that record matches, and otherwise leaves them as they were |
| `Heroes.HitsNotFound` | superhero_database.cpp:129-130 | the "not found" message appears exactly when no live record matches |
| `Heroes.HitsEmptyQuery` | superhero_database.cpp:121-124 | an empty query reports every live record |
| `Heroes.HitsIgnoreQueryCase` | superhero_database.cpp:121 | upper- or lower-casing the query leaves the result unchanged |
| `Heroes.Render` | superhero_database.cpp:93-106 | year, universe and rank pass through verbatim; name, power and weakness keep their letters and come out all in the chosen case |
| `Heroes.RenderDetermined` | superhero_database.cpp:94-96 | any record with those properties is the rendering, so the display is fully determined |
| `Heroes.RenderIdempotent` | superhero_database.cpp:94-96 | rendering a rendered hero in the same case changes nothing |
| `Heroes.NameLeqTransitive` | superhero_database.cpp:155 | "not greater by lower-cased name" is transitive |
| `Heroes.PairKeyClasses` | superhero_database.cpp:155-163 | exchanging two records with different lower-cased names keeps every equal-name subsequence |
| `Heroes.SwapKeepsKeyClasses` | superhero_database.cpp:155-163 | exchanging neighbours with different lower-cased names keeps every equal-name subsequence |
| `Heroes.SwapStep` | superhero_database.cpp:155-163 | a swap made under the strict `>` permutes the records, keeps every equal-name subsequence, keeps ranks distinct and puts the pair in order |
| `Heroes.SwapPermutes` | superhero_database.cpp:156-163 | an exchange of neighbours keeps the same multiset of records, and distinct ranks stay distinct |
| `Heroes.BubbleStep` | superhero_database.cpp:154-164 | one inner-loop step carries the greatest name of the prefix one slot right and keeps the sorted suffix |
| `Heroes.PassDone` | superhero_database.cpp:153-165 | after a pass the sorted suffix is one slot longer |
| `Heroes.StableSortUnique` | superhero_database.cpp:152-166 | two sequences sorted by lower-cased name with the same equal-name subsequences are equal, so the sort's result is fully determined |
| `Heroes.AppendKeepsRanksDistinct` | superhero_database.cpp:203-211 | appending a hero whose rank no live hero has keeps ranks pairwise distinct |
| `Heroes.RankOrderUnique` | superhero_database.cpp:225-227 | with distinct ranks there is exactly one index order by rank, so the way `std::sort` breaks ties cannot matter |
| `Heroes.RankOrderLast` | superhero_database.cpp:225-227 | a hero ranked behind every other hero is listed last, whatever its slot |
| `Database.SeedRanksDistinct` | superhero_database.cpp:71-73 | the seed ranks are pairwise distinct |
| `Database.SeedRanks` | superhero_database.cpp:71-73 | the seed store has ten slots, ranked 7, 5, 6, 8, 4, 9, 3, 10, 2, 1 |
| `Database.SeedRanksBelow` | superhero_database.cpp:71-73 | no seed rank exceeds 10 |
| `Database.InsertByRank` | superhero_database.cpp:225-227 | inserting an index before the first one of greater rank keeps the vector a rank-ordered list of distinct live indices |
| `Database.InsertAtMembers` | superhero_database.cpp:225 | inserting adds the new index and loses none |
| `Database.HeroDatabase.Valid` | superhero_database.cpp:70-76 | the store invariant: the count stays within 0..50, and no two live slots of the `ranking` column hold the same rank |
| `Database.HeroDatabase.constructor` | superhero_database.cpp:23-76 | the store starts valid with the ten seed heroes in slots 0-9, every other slot empty with rank 0, and count 10 |
| `Database.HeroDatabase.DisplayHero` | superhero_database.cpp:93-107 | the displayed record is the rendering of the six columns of the one slot `index` |
| `Database.HeroDatabase.DisplayAllHeroes` | superhero_database.cpp:110-114 | one rendering per live slot, in slot order |
| `Database.HeroDatabase.SearchByName` | superhero_database.cpp:117-131 | the reported indices are `Hits` over the name column, and `found` is false exactly when nothing matched |
| `Database.HeroDatabase.SearchByPower` | superhero_database.cpp:134-148 | the same over the superpower column |
| `Database.HeroDatabase.SwapHeroes` | superhero_database.cpp:156-163 | the six swaps exchange slots `j` and `j + 1` as whole records and change nothing else |
| `Database.HeroDatabase.WriteSlot` | superhero_database.cpp:178-192 | writing the columns of one slot replaces that slot's record and changes nothing else |
| `Database.HeroDatabase.SortHeroesAlphabetically` | superhero_database.cpp:152-168 | afterwards: live names non-decreasing in lower case; the records are a permutation of the old ones; equal lower-cased names keep their order; ranks stay distinct; count and the slots from count on are unchanged |
| `Database.HeroDatabase.BubblePass` | superhero_database.cpp:154-165 | one pass of the inner loop moves the greatest name of [0, m) to slot m - 1 and keeps everything the sort promises |
| `Database.HeroDatabase.RankTaken` | superhero_database.cpp:198-209 | the duplicate check answers true exactly when some live slot holds the proposed rank |
| `Database.HeroDatabase.AddHero` | superhero_database.cpp:171-215 | Full exactly when the count has reached 50, DuplicateRank exactly when a live slot holds the rank, and in both cases the store is unchanged. Otherwise the hero fills slot `count`, count grows by one, all other slots are untouched, and ranks stay distinct |
| `Database.HeroDatabase.RankOrder` | superhero_database.cpp:219-227 | every live index appears exactly once, ranks are non-decreasing along the list, and the columns are only read |
| `Database.HeroDatabase.InsertionPoint` | superhero_database.cpp:225-227 | the insertion position for an index: every earlier entry has rank no greater than its own, and the entry at that position (if any) has greater rank |

Two scenario methods start from the seed store and prove, through their
assertions, what the operations' contracts imply there. They have no contract
of their own.
`Database.DuplicateRankScenario` proves that adding a hero with Krypto's rank
10 yields DuplicateRank and leaves the ten records as they were.
`Database.RankViewScenario` proves that a hero with rank 11 is stored as
slot 10, and that the rank view lists slot 10 last.

## Left out

- The `main` menu loop and all console traffic (superhero_database.cpp:234-284) are left out, along with the prompts and printing inside each function. The searches return the matching indices and a `found` flag. The caller displays each match with `DisplayHero(i, false)` and prints the not-found message.
- The output layout of `displayHero` (labels, separator line, integer formatting of the rank) is not modelled. `DisplayHero` returns the six displayed values as a `Hero`.
- `AddHero` makes one attempt. The `do ... while` retry loop of `addHero` (superhero_database.cpp:196-210) belongs to the caller, who calls `AddHero` again after `DuplicateRank`.
- `AddHero` takes the typed-in fields as a parameter. The source reads them straight into slot `superheroCount` before it checks the rank (superhero_database.cpp:178-192), and it never leaves after a duplicate rank. The model checks first and then writes the slot. Either way the slot only becomes live once the count grows, so the live records agree.
- A failed `cin >> newRank` on non-numeric input is not modelled.
- The `std::sort` algorithm (superhero_database.cpp:225) is replaced by an insertion sort on the index sequence. Only its result is promised: a permutation of the live indices by non-decreasing rank. `std::sort` is not stable, so no tie order is claimed. Ties cannot occur while ranks are distinct, and `Heroes.RankOrderUnique` shows the order is then unique.
- `::toupper` and `::tolower` change only ASCII letters. Locale-dependent mappings of other characters are not modelled.
- Strings are sequences of Dafny `char` compared by code point. For ASCII text this matches `std::string`'s comparison, which compares as unsigned bytes.
- Ranks are unbounded integers. The source reads a 32-bit `int` but never does arithmetic on it, so the width does not matter. `superheroCount` stays within 0..50.
- `displayHero` on an index outside 0..49 is undefined behaviour in the source, so `DisplayHero` requires an index within capacity.
- `Render` has the two case modes of `displayHero`: upper case when `toUpper` holds, lower case otherwise (superhero_database.cpp:94-96). `RankOrder` claims no order among equal ranks, because `std::sort` (superhero_database.cpp:225) is not stable.
