# AlgoTag crawler core in Dafny

This project models the sequential logic of two crawler classes of a dataset builder for a
competitive-programming judge.

- `edge_extractor.py` (module `EdgeExtractor`, `edge_extractor.dfy`):
  - fetches every solver of a problem by reading its status pages 1, 2, 3, ... until a page ends
    the listing (`get_solved_user_list`);
  - builds the `prob_id -> solvers` dictionary for every configured problem (`save_solved_users`);
  - turns those lists into a similarity graph (`extract_edges`). Two problems are joined, by one
    edge in each direction, when their solver sets overlap by at least `alpha`, that is when
    |S1 ∩ S2| / (|S1| + |S2|) >= alpha (`can_connect`).
- `search.py` (module `Search`, `search.dfy`):
  - selects the problem list of one algorithm tag (`get_prob_list`): at most 50 problems, in
    listing order, each solved at most 1000 times, read page by page until an empty page;
  - builds the tag table (`load_from_web`): at most 30 tag rows, each tag id split out of the
    row's link, then every tag's problem list.

Two support modules are shared:

- `Seqs` (`seqs.dfy`) holds list helpers: flattening, and removing repeats while keeping first
  occurrences.
- `Dicts` (`dicts.dfy`) models Python's `dict` as the source uses it. A dictionary is a map plus
  the order in which keys were first inserted. `d[k] = v` is `Put`, and a run of assignments
  starting from `{}` is `FromEntries`.

The browser is replaced by what it would show:

- a problem's status listing is a finite sequence of pages, and every page past the end shows
  the judge's error marker;
- a tag's problem listing is a finite sequence of pages of `(id, solved count)` rows, and every
  page past the end is empty;
- the whole site is a function from a tag id to that listing.

Each loop of the source is a Dafny method. Each method is proved equal to a specification
function, and lemmas prove what the source promises about those functions. The edge loops are
proved for any connection rule `Rule = (int, int) -> bool`. `extract_edges` uses the rule
`ConnectRule`, built from `CanConnect`.

What the code does at its edges:

- `save_solved_users` builds the whole solver dictionary and writes it once, after the last
  fetch. Edges are pairs of problem ids.
- `can_connect` looks both ids up and divides by |S1| + |S2|, so a missing id or two empty
  solver sets raise. `CanConnect` therefore requires its own two ids to be loaded and not both
  empty. `ExtractEdges`, `CalculateEdges` and `AppendRowEdges` require `PairsDefined`: every
  pair of positions the loops visit can be evaluated.
- A fetched solver list keeps repeated user ids. Sets are only formed inside `extract_edges`.
- A tag id is the second field of `re.split("/problem/tag/", href)`. That field runs from the
  first occurrence of the separator up to the next occurrence, or to the end of the link when
  there is no next occurrence.

The docstring of `load_from_web` (search.py:51-53) differs from its code, and the model follows
the code:

- The docstring speaks of the top 20 tags. The code reads up to 30 tag rows (search.py:63), so
  `MAX_TAGS` is 30, and `ReadRows` keeps exactly 30 rows when there are at least 30.
- The docstring keeps problems "whose number of solved is lesser than 1000". The code skips only
  counts above 1000 (search.py:40). A problem solved exactly 1000 times is kept, as
  `ProbListSolvedBoundary` states.

## Model

| member | source | states |
|---|---|---|
| EdgeExtractor.FirstEnd | edge_extractor.py:28-35 | the first page number at which the listing ends; every earlier page holds a non-empty table |
| EdgeExtractor.SolvedUsersAtPage | edge_extractor.py:46-66 | a page yields no list exactly at the error marker or at an empty table, and otherwise yields its user ids |
| EdgeExtractor.SolvedUserList | edge_extractor.py:25-37 | reference function, no contract of its own; `GetSolvedUserList` is proved equal to it and `SolvedUserListIgnoresLaterPages` states what it ignores |
| EdgeExtractor.GetSolvedUserList | edge_extractor.py:25-37 | the loop returns the user ids of pages 1 .. k-1 concatenated in page order, where k is the first page that is the error marker or an empty table |
| EdgeExtractor.SolvedUserListIgnoresLaterPages | edge_extractor.py:28-33 | pages after the one that ends the listing never change the result |
| EdgeExtractor.SaveSolvedUsers | edge_extractor.py:74-77 | the loop builds the dictionary that assigns each configured id its fetched list, in turn |
| EdgeExtractor.SolvedUsersDataShape | edge_extractor.py:74-77 | the dictionary's keys are exactly the configured ids, listed in order of first configuration and each listed once; an id that is not repeated later holds its own fetched list |
| EdgeExtractor.TimesIsProduct | edge_extractor.py:141 | the repeated addition used by the connection test is multiplication |
| EdgeExtractor.CanConnect | edge_extractor.py:132-141 | `can_connect`, defined only where both ids are loaded and not both sets empty; no contract of its own, its meaning is `CanConnectIsOverlapThreshold` |
| EdgeExtractor.CanConnectIsOverlapThreshold | edge_extractor.py:132-141 | the test without division holds iff the overlap ratio \|S1 ∩ S2\| / (\|S1\| + \|S2\|) is at least alpha as a real number |
| EdgeExtractor.CanConnectSymmetric | edge_extractor.py:134-141 | swapping the two problems does not change the test |
| EdgeExtractor.IntersectionCardinality | edge_extractor.py:136 | the common count is at most each set's size |
| EdgeExtractor.OverlapRatioBounds | edge_extractor.py:134-141 | the overlap ratio lies in [0, 1/2] |
| EdgeExtractor.ConnectedShareASolver | edge_extractor.py:136-141 | with alpha > 0, two connected problems have a common solver |
| EdgeExtractor.UserSets | edge_extractor.py:112-116 | reference function for `users_set`, no contract of its own; `MakeUserSets` is proved equal to it |
| EdgeExtractor.MakeUserSets | edge_extractor.py:112-116 | the loop maps every loaded id to the set of its solver list |
| EdgeExtractor.EdgesIgnoreListOrderAndRepeats | edge_extractor.py:113-116 | reordering or repeating user ids in fetched lists changes neither whether the edges can be computed nor the edges |
| EdgeExtractor.RowPairs | edge_extractor.py:123-126 | one row's pairs all have first position idx1 and a second position strictly between idx1 and idx2 |
| EdgeExtractor.PairsBelow | edge_extractor.py:121-126 | the pairs of the first idx1 rows are valid position pairs x < y with x below idx1 |
| EdgeExtractor.Met | edge_extractor.py:121-126 | the pairs met on reaching (idx1, idx2) are valid position pairs |
| EdgeExtractor.ConnectedPairs | edge_extractor.py:121-126 | every pair the loops visit is two positions x < y of the configured list |
| EdgeExtractor.EdgesOf | edge_extractor.py:127-128 | each pair gives exactly two edges |
| EdgeExtractor.EdgesOfShape | edge_extractor.py:127-128 | edge 2k is the k-th pair's forward edge and edge 2k + 1 is its reverse |
| EdgeExtractor.MetStep | edge_extractor.py:123-128 | one step of the inner loop appends (p1, p2) then (p2, p1) when the pair connects, and nothing otherwise |
| EdgeExtractor.ConnectStep | edge_extractor.py:126-128 | the same step, with the test being `can_connect` on the loaded sets |
| EdgeExtractor.AppendRowEdges | edge_extractor.py:123-128 | the inner loop for one idx1 extends the edges of the earlier rows by exactly that row's edges |
| EdgeExtractor.EdgeList | edge_extractor.py:118-130 | reference function for the returned list, no contract of its own; `CalculateEdges` is proved equal to it and `EdgeListMeaning`, `EdgesShape`, `EdgesSymmetric` and `EdgeCount` state its meaning |
| EdgeExtractor.EdgeListMeaning | edge_extractor.py:119-141 | when every visited pair can be evaluated, positions x < y give the edge (p1, p2) iff \|S1 ∩ S2\| / (\|S1\| + \|S2\|) >= alpha |
| EdgeExtractor.CalculateEdges | edge_extractor.py:118-130 | the nested loops return exactly `EdgeList`, the edges of the connected pairs in loop order |
| EdgeExtractor.ExtractEdges | edge_extractor.py:112-130 | `extract_edges` on the loaded data returns `EdgeList` of its sets, when every visited pair can be evaluated |
| EdgeExtractor.RowPairsExact | edge_extractor.py:123-126 | a row holds (idx1, x) for exactly the connected x below idx2 |
| EdgeExtractor.RowPairsAscending | edge_extractor.py:123 | a row's second positions ascend |
| EdgeExtractor.PairsBelowSound | edge_extractor.py:121-126 | every pair held by the first idx1 rows connects |
| EdgeExtractor.PairsBelowComplete | edge_extractor.py:121-126 | every connected x < y with x below idx1 is held by the first idx1 rows |
| EdgeExtractor.PairsBelowExtends | edge_extractor.py:121-126 | the first idx1 rows hold everything the first idx1 - 1 rows hold, and row idx1 - 1 |
| EdgeExtractor.PairsBelowSorted | edge_extractor.py:121-124 | the pairs come in lexicographic order: outer index ascending, then inner index ascending |
| EdgeExtractor.SortedDistinct | edge_extractor.py:121-124 | pairs in lexicographic order have no repeats |
| EdgeExtractor.ConnectedPairsExact | edge_extractor.py:121-126 | (x, y) with x < y is visited and kept iff its two problems connect |
| EdgeExtractor.ConnectedPairsOrdered | edge_extractor.py:121-128 | the kept pairs are in lexicographic order and distinct |
| EdgeExtractor.EdgesShape | edge_extractor.py:126-128 | the list has two edges per connected pair: edge 2k is the forward edge and edge 2k + 1 the reverse edge, so forward and reverse edges are adjacent |
| EdgeExtractor.EdgesSound | edge_extractor.py:121-128 | every edge joins, in one direction, two problems at positions x < y that connect, so no edge joins a position to itself and every endpoint is a configured id |
| EdgeExtractor.EdgesComplete | edge_extractor.py:121-128 | every two connected positions x < y give both of their edges |
| EdgeExtractor.EdgesSymmetric | edge_extractor.py:126-128 | (a, b) is an edge iff (b, a) is |
| EdgeExtractor.EdgeCount | edge_extractor.py:119-128 | the list length is exactly twice the number of connected position pairs x < y, hence even |
| EdgeExtractor.EdgesShareASolver | edge_extractor.py:121-141 | with alpha > 0, every edge joins two loaded problems that have a common solver |
| EdgeExtractor.ExampleConnections | edge_extractor.py:132-141 | for solver sets {u1,u2}, {u2,u3}, {u4} and alpha = 1/4, only the first two problems connect (a ratio of exactly 1/4 meets the threshold) |
| EdgeExtractor.ExamplePairs | edge_extractor.py:121-126 | in that example only positions 0 and 1 are kept |
| EdgeExtractor.EdgeListExample | edge_extractor.py:119-130 | in that example nothing raises and the edges are exactly [(1, 2), (2, 1)] |
| EdgeExtractor.UserSetsByKeys | edge_extractor.py:113-116 | a map with the loaded keys that holds each key's list as a set is `users_set` |
| Search.FirstEmpty | search.py:31-37 | the first page number whose table is empty; every earlier page is non-empty |
| Search.Qualifying | search.py:38-43 | reference function for the row filter, no contract of its own; its meaning is `QualifyingMembers` and `QualifyingAppend` |
| Search.QualifyingAppend | search.py:38-43 | filtering two runs of rows one after the other keeps row order |
| Search.QualifyingMembers | search.py:38-43 | the filter keeps no more ids than rows, and an id is kept iff a row with that id has at most 1000 solvers |
| Search.QualifyingStep | search.py:38-43 | reading one more row appends its id exactly when it has at most 1000 solvers |
| Search.ProbListWhenFull | search.py:42-47 | once 50 ids are kept, they are the whole problem list, whatever follows |
| Search.ProbList | search.py:26-48 | reference function for `get_prob_list`, no contract of its own; `GetProbList` is proved equal to it and `ProbListProperties` states its meaning |
| Search.ProbListSolvedBoundary | search.py:40-43 | a problem solved exactly 1000 times is kept, and one solved 1001 times is skipped |
| Search.GetProbList | search.py:26-48 | the loop returns `ProbList`: the first 50 qualifying ids before the first empty page, or all of them |
| Search.ProbListProperties | search.py:31-48 | at most 50 ids; a prefix, in page and row order, of the qualifying ids before the first empty page; all of them when there are at most 50; each id comes from a row on such a page with at most 1000 solvers |
| Search.ProbListIgnoresLaterPages | search.py:34-37 | pages after the first empty one never change the result |
| Search.FindFrom | search.py:70 | the first occurrence of the separator at or after `from`, or none |
| Search.FieldFromIsField | search.py:70 | the text from a start index runs to the next occurrence of the separator, or to the end, with no occurrence starting inside it |
| Search.FieldAtUnique | search.py:70 | the field at a given start is unique |
| Search.TagIdOf | search.py:70 | the split's second field, or none where indexing it raises; no contract of its own, its meaning is `TagIdOfMeaning` |
| Search.TagIdOfMeaning | search.py:70 | the split has no second field iff the separator never occurs; otherwise the tag id is the field after the first occurrence |
| Search.LinkFirstOccurrence | search.py:70 | after a host part that does not contain the separator, the separator's first occurrence is where the host part ends |
| Search.LinkField | search.py:70 | an id without '/' that follows the separator is a whole split field |
| Search.TagIdOfLink | search.py:69-70 | a link `host + "/problem/tag/" + id`, with no separator in the host part and no '/' in id, yields id |
| Search.ReadRows | search.py:59-64 | the loop reads at most 30 rows, a prefix of the table: all of them when there are at most 30, and exactly 30 otherwise |
| Search.TagEntriesStep | search.py:66-75 | reading one more linked row appends its assignment |
| Search.TagTable | search.py:59-75 | reference function for `dic`, no contract of its own; `ReadTagTable` is proved equal to it and `TagTableFails`, `TagTableKeys` and `TagTableLastWins` state its meaning |
| Search.TagTableFails | search.py:59-70 | the table fails iff one of the first 30 rows has a link without the separator; rows after the 30th are never read |
| Search.TagTableSize | search.py:59-75 | `dic` holds at most 30 tags, each once |
| Search.TagTableKeys | search.py:61-75 | `dic`'s keys are exactly the tag ids of the first 30 rows |
| Search.ReadRowsIds | search.py:61-64 | the rows read carry exactly the tag ids of the first 30 rows |
| Search.TagEntriesKeys | search.py:69-71 | the assigned keys are exactly the tag ids of the rows read |
| Search.TagTableTagIds | search.py:71-75 | every entry of `dic` records its own key as `tag_id` |
| Search.TagTableLastWins | search.py:71-75 | a tag id keeps the names of the last row that carries it |
| Search.ProblemTableShape | search.py:77-84 | `dic2` has `dic`'s keys in `dic`'s order, and each entry keeps its names and gets that tag's problem list |
| Search.LoadResultShape | search.py:59-84 | the saved table has at most 30 tags in `dic`'s order, each with that tag's problem list of at most 50 ids |
| Search.ReadTagTable | search.py:59-75 | the first loop, with its `iter` cap at 30, returns `dic`, or fails where a link has no separator |
| Search.BuildProblemTable | search.py:77-84 | the second loop returns `dic2` built from `dic`'s values in order |
| Search.LoadResult | search.py:55-84 | reference function for the saved table, no contract of its own; `LoadFromWeb` is proved equal to it and `LoadResultShape` states its meaning |
| Search.LoadFromWeb | search.py:55-84 | `load_from_web` yields the table `LoadResult`, or fails where the split raises |
| Dicts.Dict.Put | edge_extractor.py:77 | an assignment sets the key's value; a new key goes last in the order and an existing key keeps its place |
| Dicts.FromEntries | edge_extractor.py:74-77 | a run of assignments from `{}` gives a well-formed dictionary |
| Dicts.FromEntriesOrder | edge_extractor.py:74-77 | the keys come out in order of first assignment, each once |
| Dicts.FromEntriesKeys | edge_extractor.py:74-77 | the keys are exactly the keys assigned |
| Dicts.FromEntriesLastWins | edge_extractor.py:74-77 | a key holds the value of its last assignment |
| Dicts.FromEntriesValue | search.py:71-75 | every value held was assigned to its key |
| Dicts.FromDistinctEntries | search.py:77-84 | with distinct keys, the order is the assignment order and each key holds its own value |
| Seqs.FlattenAppend | edge_extractor.py:34 | concatenating the pages of two runs is the concatenation of the runs |
| Seqs.FlattenStep | search.py:38-43 | reading one more page appends that page's rows |
| Seqs.FlattenMembers | edge_extractor.py:34 | an element is in the concatenation iff it is in one of the pages |
| Seqs.Dedup | edge_extractor.py:74-77 | the keys without repeats: no repeats, the same members, no longer than the keys |
| Seqs.FirstIndex | edge_extractor.py:74-77 | the index of the first occurrence: the element is there and at no earlier index |
| Seqs.FirstIndexOfInit | edge_extractor.py:74-77 | dropping the last element keeps the first occurrence of what remains |
| Seqs.DedupOrder | edge_extractor.py:74-77 | the keys without repeats come in the order of their first occurrences |
| Seqs.DedupOfDistinct | edge_extractor.py:74-77 | a list without repeats is unchanged |
| Seqs.DistinctCardinality | edge_extractor.py:126-128 | a list without repeats has as many elements as its set |

## Left out

- The browser: Selenium, `driver.get`, `find_element(s)`, `.text`, `get_attribute`, cookies,
  `close` and `quit`. Pages and rows are inputs instead. The status page's error marker
  (`error-v1`) is the page value `ErrorPage`.
- Which table column carries the user id, the problem id or the solved count, and parsing
  them with `int()`. Rows are already typed, so an `IndexError` on a short row and a
  `ValueError` on non-numeric text are not modelled.
- JSON reading and writing, the fallback when the cached file is missing, `save_to_file`, and
  `save_edges_at`. These are file I/O. The conversion between integer ids and JSON string keys
  is left out too: keys are `int` throughout.
- `print` diagnostics. The print in `can_connect` divides by the same sum as the test, and
  `PairsDefined` covers that division as well.
- Floating-point `alpha`: alpha is an exact fraction `num / den` with `den > 0`.
- The unused `user_id` parameter of `load_from_web`, and the constructors that read the problem
  file and start the browser. `main.py` and `feature_extractor.py` are not part of this model.
- A site whose listing never ends. Page sequences are finite, so every loop terminates.
- EdgeExtractor.ExtractEdges: requires `PairsDefined`, that every pair of positions idx1 < idx2
  has both ids loaded and not both solver sets empty. Where this fails the source raises
  `KeyError` or `ZeroDivisionError`, and the model does not describe that failure.
- EdgeExtractor.CalculateEdges: requires `PairsDefined` like `ExtractEdges`, whose loops it
  runs, so the `KeyError` or `ZeroDivisionError` on an unevaluable pair is not modelled.
- EdgeExtractor.AppendRowEdges: requires `PairsDefined` like `ExtractEdges`, whose inner loop it
  is, so the `KeyError` or `ZeroDivisionError` on an unevaluable pair is not modelled.
- EdgeExtractor.CanConnect: is partial in the same way. The specification functions use
  `Connects`, which is false where the source would raise.
- The `extract_edges` loops are split into the methods `MakeUserSets`, `CalculateEdges` and
  `AppendRowEdges`. The `load_from_web` loops are split into `ReadTagTable` and
  `BuildProblemTable`. The statements are those of the source; only the method boundaries are
  new.
- Search.LoadFromWeb: a raising split is the result `None`. The partial `dic` built before the
  failing row is discarded, as the exception would discard it.
