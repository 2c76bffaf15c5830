# package_statistics: a Dafny model of `ContentParser`

`package_statistics.py` reads a Debian repository's `Contents-<arch>.gz` index. The
index has one line per file, giving the file's path and a comma-separated list of
the packages that ship it. For each line the pass counts the comma-separated tokens
after the last space and reports the first columns (the file paths) with the largest
counts, as a dict from path to count. The docstring of `get_statistics`
(package_statistics.py:50-51) calls these "the first n packages with the top # of
files"; the code counts packages per path, and the model follows the code.
This project models the part of class `ContentParser` that does that work, and
proves its properties:

- the constructor's removal of one trailing slash from the repository;
- the URL `_get_contents` fetches;
- `_sort`, the stable sort of a dict's items by count, largest first;
- the pass of `get_statistics` over the decompressed index:
  - split off the first line and put it back unless it is a `FILE`/`LOCATION` header;
  - split the rest into lines, and split each line at its last space;
  - strip the name, and count the packages after the space;
  - keep a bounded dict of at most `count` entries: when the dict is full it is
    sorted, and the smallest entry is evicted if the new line has a larger count;
  - return the sorted dict.

Layout:

- `wrappers.dfy`: `Option` and `Result`.
- `bytes.dfy` (module `Bytes`): the `bytes` operations the pass uses. These are
  `split`, `split(sep, 1)`, `rsplit(sep, 1)`, `strip()` and the substring test `in`.
  Round trips are proved for `split`, `split(sep, 1)` and `rsplit(sep, 1)`.
- `leaderboard.dfy` (module `Leaderboard`): the dict of the pass.
  - A dict is modelled as the sequence of its items in insertion order.
  - `update` with a single key and `popitem` are modelled.
  - `Sort` models `_sort`.
- `content_parser.dfy` (module `ContentParser`):
  - `NormalizeRepository`, `ContentsUrl`, `Lines` and `ParseLine`;
  - `Statistics`, the pass written as a fold of `Step` over the parsed lines;
  - `GetStatistics`, the loop of `get_statistics` as an imperative method, proved equal
    to `Statistics`;
  - the lemmas about what the result is.
- `sample.dfy` (module `Sample`): the scenario of `test_package_statistics.py`. The
  `MOCK_FILE` index is rebuilt byte by byte, and the ten-item result the test
  expects is proved. `test_init` is also covered.

Errors the source raises become `Failure` values of `ContentParser.Error`:
- `EmptyRepository`: `repository[-1]` on an empty string.
- `MissingNewline`: unpacking `split(b"\n", 1)` when the index has no newline.
- `EmptyFrontierIndex`: `list(values)[count - 1]` on an empty dict, which happens
  when `count == 0` and a line parses.

`count` is an unbounded `int`, as in Python:
- A negative `count` never equals the dict's size, so the dict is never full and grows
  without bound.
- This is proved in `RunKeepsAllNames` and `StatisticsNoPadding`.

`dict.update` replaces the count of a key already in the dict; it does not add to it
(package_statistics.py:90-96). See `Update` and `FillRule`. A consequence is that the
result can hold fewer than `count` items even when at least `count` distinct keys were
seen: a key that is read again while the dict is full evicts the last item and then
overwrites its own earlier entry (`ReadmittedKeyShrinks`).

A real Contents index lists each path once, so no key repeats. Under that condition the
result is the top `count` (`StatisticsIsTopK`). A line left out of the result comes with a
full result, and its count is at most every count in the result. The result has `count`
items, or one item per parsed line when fewer lines parse (or `count` is negative).

## Model

| member | source | states |
|---|---|---|
| ContentParser.NormalizeRepository | package_statistics.py:16-20 | fails exactly on the empty string; otherwise the input is the result plus one `/`, or the result unchanged when it does not end in `/` |
| ContentParser.ContentsUrl | package_statistics.py:37 | the reference definition of `f"{self._repository}/Contents-{arch}.gz"`; characterised by `UrlOfNormalized` and `ContentsUrlInjective` |
| ContentParser.UrlOfNormalized | package_statistics.py:16-20 | the URL built from the stored repository is the repository as given, with a `/` added only when it does not already end in one, then `Contents-<arch>.gz` |
| ContentParser.ContentsUrlInjective | package_statistics.py:37 | `f"{repository}/Contents-{arch}.gz"` determines the repository for a given arch, and the arch for a given repository |
| ContentParser.IsHeader | package_statistics.py:65 | the header test: the first line contains `FILE` or `LOCATION`; used by `Lines`, `LinesOfIndex` and `Sample.MockLines` |
| Bytes.Contains | package_statistics.py:65 | the substring test `in`: the pattern occurs at some position of the line |
| ContentParser.Lines | package_statistics.py:63-68 | fails (ValueError) exactly when the index has no newline; otherwise the lines visited are all newline-separated lines of the index, less the first exactly when it contains `FILE` or `LOCATION` |
| ContentParser.LinesOfIndex | package_statistics.py:63-68 | for an index joined from newline-free lines, the loop visits the lines after the first, with the first put back unless it is a header; with a single line it raises |
| ContentParser.ParseLine | package_statistics.py:69-77 | a line is skipped exactly when it has no space; otherwise its increment is at least 1 |
| ContentParser.ParseLineAtLastSpace | package_statistics.py:71-77 | at the last space the key is the stripped text before that space, and the increment is one more than the number of commas after it |
| ContentParser.Step | package_statistics.py:69-96 | the reference definition of one loop iteration; characterised by `EvictionRule`, `FillRule`, `StepKeepsInv`, `StepMembers`, `StepNotFullNames` and `StallKeeps` |
| ContentParser.Run | package_statistics.py:55-96 | the reference definition of the loop as a fold of `Step` over the parsed lines; characterised by `RunInvariant`, `RunProvenance`, `RunKeepsAllNames`, `RunZeroCount`, `RunFailurePersists`, `FillPhase` and `StallPhase` |
| ContentParser.Statistics | package_statistics.py:48-97 | the reference definition of `get_statistics` on a decompressed index; characterised by `StatisticsProperties`, `StatisticsIsSortedFrontier`, `StatisticsNoPadding` and `Sample.MockStatistics`, and implemented by `GetStatistics` |
| ContentParser.GetStatistics | package_statistics.py:48-97 | the loop (header check, per-line parse, fill / sort-and-evict, final sort) returns exactly `Statistics(contents, count)` |
| ContentParser.RunFailurePersists | package_statistics.py:68-92 | an exception raised for a prefix of the lines is the outcome of the whole pass |
| ContentParser.ParseAllPositive | package_statistics.py:77 | every parsed line has a positive increment |
| ContentParser.SortKeepsInv | package_statistics.py:82 | sorting a full dict keeps distinct keys, the size bound and positive counts, and adds no item |
| ContentParser.StepKeepsInv | package_statistics.py:68-96 | one iteration keeps distinct keys, at most `count` items, and positive counts |
| ContentParser.AdmitKeepsInv | package_statistics.py:82-92 | sort, `popitem` and `update` on a full dict keep the invariant |
| ContentParser.StepMembers | package_statistics.py:68-96 | after one iteration each item was in the dict before or is the line's own name and increment |
| ContentParser.RunInvariant | package_statistics.py:55-96 | every dict the loop produces has distinct keys, at most `count` items (`count >= 0`), and positive counts |
| ContentParser.RunProvenance | package_statistics.py:55-96 | every item of the dict is the name and increment of some line visited so far |
| ContentParser.StatisticsProperties | package_statistics.py:48-97 | the result is sorted by count (largest first) with distinct keys; it has at most `count` items and positive counts; each item is the name and increment of some line of the index; it has no more items than there are distinct keys |
| ContentParser.NamesWithinSeen | package_statistics.py:68-96 | the keys of a dict built from visited lines are among the keys of those lines |
| ContentParser.StatisticsIsSortedFrontier | package_statistics.py:97 | the result is a permutation of the final dict, non-increasing by count, and stable: items of equal count keep their order |
| ContentParser.StepNotFullNames | package_statistics.py:93-96 | on a dict that is not full, an iteration always succeeds and adds the line's key, if any, to the keys |
| ContentParser.RunKeepsAllNames | package_statistics.py:79-96 | while fewer distinct keys than `count` have been seen (or `count < 0`), the dict never fills and holds every key seen |
| ContentParser.StatisticsNoPadding | package_statistics.py:79-97 | with fewer distinct keys than `count` (or `count < 0`) the result has each key exactly once, so its size is the number of distinct keys |
| ContentParser.ReadmittedKeyShrinks | package_statistics.py:79-96 | for distinct keys `a` and `b` and `count == 2`, the lines `a 1`, `b 1`, `a 5` hold two distinct keys, yet the dict ends as `{a: 5}`: the full-dict branch pops `b` and `update` overwrites `a` |
| ContentParser.StatisticsIsTopK | package_statistics.py:48-97 | when no two parsed lines share a key: a line left out of the result comes with a result of exactly `count` items, each with a count at least the line's; the result has `count` items, or every distinct key when there are fewer (or `count < 0`) |
| ContentParser.RunTopK | package_statistics.py:55-96 | loop invariant, for distinct keys: every line parsed so far is in the dict, or the dict is full and each of its counts is at least the line's |
| ContentParser.StepTopK | package_statistics.py:68-96 | one iteration with a new key keeps that invariant for every earlier line and establishes it for the line read |
| ContentParser.StallTopK | package_statistics.py:79-85 | a line that does not beat the smallest count of a full dict leaves the sorted dict, and every count in it is at least the line's |
| ContentParser.EvictTopK | package_statistics.py:79-92 | a new key that beats the smallest count of a full dict enters it, and the evicted item, like every item already left out, has a count at most every count that remains |
| ContentParser.RunZeroCount | package_statistics.py:79-85 | with `count == 0` the pass raises IndexError as soon as a line parses, and returns an empty dict when none does |
| ContentParser.EvictionRule | package_statistics.py:79-92 | on a full dict: after the sort the last count is the smallest; a line that does not beat it changes only the order (ties do not evict); a line that beats it evicts exactly that item, overwrites a present key in place or appends a new one, and leaves the rest unchanged |
| ContentParser.SortedLastIsSmallest | package_statistics.py:82-85 | after `_sort` the last item has the smallest count of the dict |
| ContentParser.SortMembers | package_statistics.py:82 | `_sort` keeps every item |
| ContentParser.AdmitShape | package_statistics.py:88-92 | `popitem` then `update` removes the last item, contains the new item, overwrites or appends, and the size says which |
| ContentParser.FillRule | package_statistics.py:93-96 | on a dict that is not full, a new key is appended; a present key takes the new increment in place, replacing its count rather than adding to it |
| ContentParser.FillPhase | package_statistics.py:93-96 | lines with distinct keys fill a dict that is not full in their order: after the first `k <= count` lines the dict is exactly their items |
| ContentParser.StallPhase | package_statistics.py:79-85 | on a full sorted dict, lines that do not beat the smallest count leave the dict as it was |
| ContentParser.StallKeeps | package_statistics.py:79-85 | one such line leaves a full sorted dict unchanged |
| Leaderboard.Sort | package_statistics.py:22-29 | same length, non-increasing by count |
| Leaderboard.SortPermutes | package_statistics.py:22-29 | `_sort` returns the same items, each as often |
| Leaderboard.SortStable | package_statistics.py:22-29 | items of each count keep their relative order (Python's sort is stable, also with `reverse=True`) |
| Leaderboard.SortNames | package_statistics.py:22-29 | `_sort` keeps the keys, and keeps them distinct |
| Leaderboard.StableSortUnique | package_statistics.py:22-29 | two sorted sequences with the same items of each count, in the same order, are equal: `_sort`'s result is determined by sortedness and stability |
| Leaderboard.SortSorted | package_statistics.py:22-29 | `_sort` of an already sorted dict changes nothing |
| Leaderboard.SortAppendLargest | package_statistics.py:22-29 | an item larger than all of a sorted dict moves to the front |
| Leaderboard.Insert | package_statistics.py:22-29 | the insertion step of the model's `Sort` (the source calls Python's `sorted`): the result has one more item; which item, and where, is characterised by `InsertPast`, `InsertCount`, `InsertSorted`, `InsertNames` and `InsertWithFiles` |
| Leaderboard.InsertPast | package_statistics.py:22-29 | an inserted item passes every item of strictly larger count |
| Leaderboard.InsertCount | package_statistics.py:22-29 | one insertion step adds exactly one item and no other |
| Leaderboard.InsertSorted | package_statistics.py:22-29 | inserting into a sorted dict keeps it sorted |
| Leaderboard.InsertNames | package_statistics.py:22-29 | insertion adds one key, and keeps keys distinct when that key is new |
| Leaderboard.InsertWithFiles | package_statistics.py:22-29 | insertion keeps the order of the items of each count, the new item being first among its equals |
| Leaderboard.Update | package_statistics.py:90-96 | `update` with one key overwrites a present key in place (same size) and otherwise appends the item |
| Leaderboard.UpdateNames | package_statistics.py:90-96 | after `update` the keys are the old ones plus `name`, still distinct; the new item is present and every other item is an old one |
| Leaderboard.PopLast | package_statistics.py:88 | `popitem` removes exactly the last item in iteration order |
| Leaderboard.NamesCardinality | package_statistics.py:90-96 | a dict with distinct keys has as many items as keys |
| Bytes.Split | package_statistics.py:68 | `split(sep)` gives at least one part, and no part contains the separator |
| Bytes.SplitCount | package_statistics.py:77 | `split(sep)` gives one more part than there are separators |
| Bytes.JoinSplit | package_statistics.py:68 | joining the parts of `split(sep)` with `sep` gives back the input |
| Bytes.SplitJoin | package_statistics.py:68 | splitting a join of separator-free parts gives back the parts |
| Bytes.SplitOnce | package_statistics.py:63 | `split(sep, 1)` fails exactly when `sep` is absent; otherwise it splits at the first `sep` |
| Bytes.SplitOnceSplit | package_statistics.py:63-68 | `split` of the whole is the first piece of `split(sep, 1)` followed by `split` of the rest |
| Bytes.RSplitOnce | package_statistics.py:71 | `rsplit(sep, 1)` gives one piece exactly when `sep` is absent; otherwise it splits at the last `sep` |
| Bytes.RSplitOnceUnique | package_statistics.py:71 | the split at a `sep` with none after it is the result of `rsplit(sep, 1)` |
| Bytes.Strip | package_statistics.py:75 | `strip()` is the middle slice that drops the maximal whitespace prefix and suffix |
| Bytes.StripPadded | package_statistics.py:75 | `strip()` of a name without surrounding whitespace, padded with whitespace, gives back the name |
| Sample.ParseRow | test_package_statistics.py:8-25 | a row with a printable path padded to column 56 and a comma-separated token list parses to the path and the number of tokens |
| Sample.MockRowValid | test_package_statistics.py:8-25 | each of the 18 data rows is well formed, and its token count is its expected count |
| Sample.MockLines | test_package_statistics.py:7-26 | the lines `get_statistics` visits in `MOCK_FILE`: the header is dropped, then the 18 rows and the empty line after the final newline |
| Sample.SortFirstTen | package_statistics.py:22-29 | `_sort` of the first ten rows' counts (1,2,2,2,5,8,1,1,1,1) is the stable order 8,5,2,2,2,1,1,1,1,1 |
| Sample.RunMock | package_statistics.py:68-96 | the first ten rows fill the dict, the eleventh sorts it, the next six do not evict, and `bin/loginctl` (23) evicts the last item |
| Sample.MockStatistics | test_package_statistics.py:33-51 | `get_statistics("amd64")` on `MOCK_FILE` with the default count returns the test's ten packages, in the test's order |
| Sample.StatisticsTwice | test_package_statistics.py:33-51 | two calls of the loop on `MOCK_FILE` both return the expected result |
| Sample.TrailingSlashRemoved | test_package_statistics.py:83-85 | `ContentParser("https://foo.bar/")` stores `https://foo.bar` |

## Left out

- The HTTP request, the status check and `gzip.decompress` in `_get_contents`
  (package_statistics.py:39-46) are I/O. The model takes the decompressed index as a
  parameter. The tests that mock a failing request or a corrupt archive
  (test_package_statistics.py:55-59, 70-81) only check that those exceptions propagate,
  so they are not modelled.
- The `try`/`except` at package_statistics.py:56-60 only logs and re-raises a fetch error.
- Logging (package_statistics.py:38-44, 59, 66, 86) has no effect on the result and is
  not modelled.
- UTF-8 decoding is not modelled:
  - Keys are kept as bytes, where the source decodes them with `name.decode("utf-8")`.
  - The header test searches the bytes for `FILE`/`LOCATION` where the source decodes
    the first line first. For valid UTF-8 the two agree, since both patterns are ASCII.
  - A `UnicodeDecodeError` on invalid bytes is not modelled.
- The `TypeError` tests (test_package_statistics.py:52-53, 67-68) check that Python
  rejects a call with a missing argument. A Dafny call cannot omit an argument.
- The command-line front end `get_arch_stats` and the argument parsing
  (package_statistics.py:100 onwards) are I/O and formatting around `get_statistics`.
- `ContentParser` is modelled without a class. Its only state is the repository string,
  written once by the constructor and never updated, so `NormalizeRepository` returns
  the stored value.
