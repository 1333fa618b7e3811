# Flickr random picker — a Dafny model

This project models the core of `flickr_random_picker.py`. The program looks for
random Creative-Commons photos on Flickr. It searches a random half-day upload
window, restricted to the licences the configuration names. It takes the first
candidate whose details can be fetched and whose sizes all have an integer
width, and records that candidate's widest size. It writes one row per new photo
and can later download every row's image.

The Flickr API, the HTTP client and the clock are not modelled. Their answers
are inputs:

- a search is a `SearchOutcome`: it failed, or it returned a list of candidates;
- each candidate carries its `Detail`: the fetch failed, or it gave the photo and its sizes;
- a download is a `Response`: a status code and a body, or an exception.

Each operation is modelled over these answers. Where the source loops, the
model is a method with a loop. That method is proved equal to a recursive
specification function. The properties are then proved about that function.

Modules:

- `Wrappers` (`wrappers.dfy`): `Option`.
- `Licenses` (`licenses.dfy`): the licence catalog as a Python dict, kept as
  the key order plus a map. It also holds `getLicense` and the comma-joined
  list of allowed licence ids, and a `Split` that inverts the join.
- `Sizes` (`sizes.dfy`): `sorted(sizes, key=int(width), reverse=True)[0]`. This
  is a stable descending insertion sort, and its head is the first widest size.
- `Picker` (`picker.dfy`): the configuration, the picker built by `__init__`,
  and `pickRandomPhoto`. The method `PickRandomPhoto` returns the pick and the
  trace of waits and API calls it made.
- `Run` (`run.dfy`): the `random_pick` loop. It covers duplicate removal, the
  stop at the first failed pick, and the crash on an unknown licence id. Each
  call to `pickRandomPhoto` is answered from its own sequence of search
  outcomes; `PickResults` lists the picks those calls return.
- `Download` (`download.dfy`): the `download` loop. It covers the skip on a
  non-200 status, the file name taken from the URL, overwriting, and the two
  ways the loop can crash.

## Model

| member | source | states |
|---|---|---|
| Licenses.BuildRegistry | flickr_random_picker.py:27-28 | the dict built from the catalog is well formed (distinct keys, each entry under its own id) and has exactly the catalog's ids as keys |
| Licenses.GetLicense | flickr_random_picker.py:33-34 | `dict.get`: a licence is found exactly when the id is a key, and the licence found carries that id |
| Licenses.LastEntry | flickr_random_picker.py:28 | the reference reading of the comprehension: None exactly when no catalog entry has the id, and otherwise a catalog entry carrying that id |
| Licenses.LastEntryIsLast | flickr_random_picker.py:28 | the entry `LastEntry` finds is followed by no other entry with the same id, so it is the one the comprehension writes last |
| Licenses.GetLicenseOfCatalog | flickr_random_picker.py:28 | for a dict built from a catalog, the lookup fails iff no catalog entry has the id, and otherwise gives `LastEntry`, the LAST catalog entry with that id (later entries overwrite earlier ones) |
| Licenses.InsertKeepsValid | flickr_random_picker.py:28 | one assignment `d[id] = license` keeps the dict well formed and adds exactly that key |
| Licenses.MatchingIdsMembers | flickr_random_picker.py:29-31 | an id is in the allowed list iff it is a key whose licence name is one of the target names, and no id appears twice |
| Licenses.MatchingIdsInCatalogOrder | flickr_random_picker.py:28-31 | when catalog ids are distinct, the allowed ids appear in catalog order, filtered by name |
| Licenses.AllowedIdsEmptyWhenNoneMatch | flickr_random_picker.py:29-31 | when no catalog name is a target, the licence filter is the empty string |
| Licenses.FirstIndex | flickr_random_picker.py:29 | the position of the first comma, used to cut the joined string apart |
| Licenses.Split | flickr_random_picker.py:29 | splitting on "," always gives at least one part |
| Licenses.SplitAtFirstComma | flickr_random_picker.py:29 | splitting cuts at the first comma, so a comma-free first id comes off whole |
| Licenses.SplitJoin | flickr_random_picker.py:29 | splitting a non-empty comma-join of comma-free parts gives the parts back |
| Licenses.AllowedIdsRoundTrip | flickr_random_picker.py:29-31 | when at least one licence matches and ids hold no comma, the search filter splits back into exactly the allowed ids |
| Sizes.InsertByWidth | flickr_random_picker.py:70 | inserting one size adds exactly that size (same multiset plus one) and keeps every width parseable |
| Sizes.InsertBounded | flickr_random_picker.py:70 | inserting introduces no width above a bound that the new size and the list respect |
| Sizes.InsertKeepsSorted | flickr_random_picker.py:70 | inserting into a width-descending list keeps it width-descending |
| Sizes.SortByWidthDesc | flickr_random_picker.py:70 | `sorted(..., reverse=True)` by width gives a permutation that is sorted by width, widest first |
| Sizes.LargestSize | flickr_random_picker.py:70 | the chosen size exists iff the list is non-empty and every width parses as an integer, and it is one of the sizes |
| Sizes.InsertHead | flickr_random_picker.py:70 | after an insertion the head is the new size unless the old head is strictly wider |
| Sizes.FirstWidestCons | flickr_random_picker.py:70 | putting one size in front keeps the first widest size known: it is the new size when that is at least as wide |
| Sizes.SortHeadIsFirstWidest | flickr_random_picker.py:70 | the head of the stable descending sort has maximal width and comes before every other size of that width |
| Sizes.LargestSizeIsFirstWidest | flickr_random_picker.py:70 | the size recorded for a photo is the first of its widest sizes |
| Picker.NewPicker | flickr_random_picker.py:17-31 | the constructed picker keeps the retry count, its licence dict is well formed, and the dict's keys are the catalog's ids |
| Picker.CandidateStep | flickr_random_picker.py:64-73 | one candidate of the loop: a success ends the batch after its own wait and fetch, a failure passes on to the next candidate |
| Picker.TraceAfterIteration | flickr_random_picker.py:52-73 | one outer iteration: a batch without a usable candidate passes on to the next iteration, a successful one ends the pick with its wait, search and detail calls |
| Picker.FetchFirst | flickr_random_picker.py:64-73 | the candidate loop returns `FirstSuccess` of the batch and makes exactly the waits and detail fetches `CandidateTrace` lists |
| Picker.PickRandomPhoto | flickr_random_picker.py:50-74 | the loop returns what `PickResult` gives for the first `retry_error_num` searches, and makes exactly the waits and calls `PickTrace` lists |
| Picker.PickNoneIff | flickr_random_picker.py:52-74 | `None` is returned iff no search in the budget yields a usable candidate |
| Picker.WinningIteration | flickr_random_picker.py:52-73 | the iteration that returns the photo lies within the budget |
| Picker.PickIsFirstSuccess | flickr_random_picker.py:52-73 | the photo returned comes from the first search that yields a usable candidate, and every earlier search yielded none |
| Picker.PickSearchBudget | flickr_random_picker.py:52-58 | there is at most one search per iteration and one wait before each; if nothing is found, exactly `retry_error_num` searches are made, otherwise exactly one per iteration up to the winning one |
| Picker.IterationSearchesOnce | flickr_random_picker.py:52-56 | each outer iteration waits once and searches once, whatever the outcome |
| Picker.CandidateTraceHasNoSearch | flickr_random_picker.py:64-72 | the candidate loop makes no search and no search wait |
| Picker.SearchesUseLicenseFilter | flickr_random_picker.py:42-47 | every search sends the joined ids of the target licences as its licence filter |
| Picker.CandidateTraceHasNoSearchEvent | flickr_random_picker.py:64-72 | no event of the candidate loop is a search |
| Picker.EmptyResultIsFailedSearch | flickr_random_picker.py:57-61 | an empty search result behaves exactly like a failed search, in result and in trace |
| Picker.AllCandidatesTried | flickr_random_picker.py:64-72 | when no candidate succeeds, every candidate failed and each one got its wait and detail fetch |
| Picker.WinnerIndex | flickr_random_picker.py:64-73 | the position of the winning candidate lies within the batch |
| Picker.FirstCandidateWins | flickr_random_picker.py:64-73 | the winner is the first usable candidate, and every earlier candidate failed |
| Picker.WinnerEndsFetching | flickr_random_picker.py:64-73 | a successful batch waits for and fetches exactly the candidates up to the winner, in order, and no later one |
| Picker.DefaultBudgetExhausted | config_sample.py:14 | with the default retry count of 10 and every search failing, the picker returns `None` after exactly 10 waits and 10 searches |
| Run.StoppedStays | flickr_random_picker.py:111-113 | once the loop has stopped (no photo, or a crash), later results change nothing |
| Run.RandomPick | flickr_random_picker.py:77-138 | a failed init ends the run with nothing written; otherwise the loop's final state is `RunSpec` of the first `get_num` pick results |
| Run.IndexOf | flickr_random_picker.py:117 | the first position of an id in the list |
| Run.RunStops | flickr_random_picker.py:108-113 | at most `get_num` picks are made; the loop runs all `get_num` iterations while every pick succeeds, and stops at the first `None` and only there |
| Run.RunRecords | flickr_random_picker.py:116-135 | there is at most one stored id per pick and no id is stored twice; rows follow the stored ids one for one, except after an unknown-licence crash, where the last stored id has no row |
| Run.FirstSeenOrder | flickr_random_picker.py:116-119 | the stored ids are exactly the distinct ids picked, in order of first appearance |
| Run.NewIdComesLast | flickr_random_picker.py:119 | appending a new id keeps the stored ids in first-seen order |
| Run.SeenAgainKeepsOrder | flickr_random_picker.py:117-118 | a repeated id changes neither the stored ids nor their order |
| Run.SeenStep | flickr_random_picker.py:116-119 | one iteration of a running loop keeps the stored ids in first-seen order |
| Run.DuplicateWritesNothing | flickr_random_picker.py:116-118 | picking an already stored photo again writes no row and leaves the stored ids and the status as they were |
| Run.RowsHaveAllowedLicenses | flickr_random_picker.py:122-124 | if every picked photo's licence is a catalog licence named in the targets, the run does not crash and every row's licence is a target name |
| Run.SamePhotoGivesOneRow | flickr_random_picker.py:106-135 | if the same photo is picked every time, the run keeps going to the end and writes exactly one row for that id |
| Download.FileName | flickr_random_picker.py:159 | the file name never holds a "/", so it names a file directly inside the output directory |
| Download.FileNameIsSuffix | flickr_random_picker.py:159 | the file name is a suffix of the URL, and is preceded by "/" unless it is the whole URL |
| Download.FileNameIsLastSegment | flickr_random_picker.py:159 | for `dir + "/" + name` with no "/" in `name`, the file name is `name` |
| Download.DownloadAll | flickr_random_picker.py:141-162 | the loop's final directory, progress and crash flag are `DownloadSpec` of the rows and their responses |
| Download.CrashedStays | flickr_random_picker.py:153-161 | after a crash the later rows are not processed |
| Download.DoneCountsRows | flickr_random_picker.py:148-162 | without a crash every row is processed; a crash stops at the row that caused it, whose request raised or whose status-200 file name cannot be opened |
| Download.NewFilesComeFromOkRows | flickr_random_picker.py:154-162 | every new file is named after the URL of a processed row that got status 200, and that name contains no "/" |
| Download.NoOkResponseWritesNothing | flickr_random_picker.py:153-156 | if no response has status 200, the directory is unchanged, and the run crashes iff some request raised |
| Download.StepEffect | flickr_random_picker.py:152-162 | one row removes no file and advances the progress by at most one, not after a crash; a row without status 200, or one that crashes, leaves the directory exactly as it was; a completed status-200 row writes its body under its URL's file name, overwriting any earlier file, and changes nothing else |
| Download.LastRowEffect | flickr_random_picker.py:152-162 | the last row either changes neither the progress nor the files, or is done after all earlier rows and writes its body under its file name exactly when it got status 200 |
| Download.KeysOnlyGrow | flickr_random_picker.py:160-162 | no file already in the directory is removed; files are only created or overwritten |
| Download.OkRowsLeaveFiles | flickr_random_picker.py:154-162 | every processed row with status 200 leaves a file under its URL's last segment |
| Download.LastSaveAt | flickr_random_picker.py:153-162 | the index of the last row whose status-200 body is saved under the name: that row saves it and no later row does; -1 when no row does |
| Download.LastSaved | flickr_random_picker.py:153-162 | the reference reading of the loop's writes: the body of the `LastSaveAt` row, else the old content; None exactly when the name was not in the directory and no row is saved under it |
| Download.FilesAreLastSaved | flickr_random_picker.py:148-162 | after the loop, each file holds the body of the last completed status-200 row saved under its name (later rows overwrite earlier ones, other rows leave it alone), or its old content; no other file exists |

## Left out

- The Flickr API calls (`licenses.getInfo`, `photos.search`, `photos.getInfo`, `photos.getSizes`) are not modelled. Their answers are inputs: the licence catalog, `SearchOutcome` and `Detail`.
- `fetchRandomDateSearch`'s random window is not modelled: `np.random.random()`, `time.time()`, the 2004-02-10 start, the 12-hour width and `int()` of the bounds. A search is one input outcome; the model keeps only its licence filter.
- `time.sleep` durations (`wait_time`, `wait_time * 2`, 1 second) are not modelled. Only where the waits fall and how many there are is kept, as trace events in `pickRandomPhoto`.
- `Download.DownloadAll`: the one-second sleep before each request is not part of the model.
- The JSON field extraction (`["photos"]["photo"]`, `["urls"]["url"][0]["_content"]`, `["owner"]["username"]`, …) and its `KeyError`/`IndexError` are not modelled. Fields are read off typed datatypes. Inside the `try` of `pickRandomPhoto`, such an error means a failed search or detail, which the inputs already express.
- A missing `"id"` on a search result (`p["id"]`, line 66, outside the `try`) is not modelled: it would crash the picker.
- `datetime.fromtimestamp` on `dateuploaded` and its formatting are not modelled; the row keeps the integer timestamp.
- CSV writing is not modelled: the file itself, the header, quoting, `fp.flush`, and the reading back in `download`. The written rows are a `seq<Row>`, and `download` takes a `seq<Row>`.
- `output_dir.mkdir`, paths other than `output_dir / filename`, and file system errors are not modelled. The only one modelled is the one a name of "", "." or ".." causes.
- `requests.get` timeouts are not modelled separately: any exception from the request is `RequestFailed`, which ends the run.
- The `print` messages, the `tqdm` progress bars, `fire.Fire`, `exit()`, the API key and secret, and `search_extras` are not modelled.
- Picker.NewPicker: the constructor's exceptions are modelled only as a whole. `RandomPick` gets `None` for the catalog and ends with `InitFailed`.
- Licenses.MatchingIdsInCatalogOrder: proved only for catalogs with distinct ids. With repeated ids, Python keeps the first position and the last value, and `MatchingIdsMembers` covers that case.
- Licenses.AllowedIdsRoundTrip: proved only for ids without commas and at least one match. When nothing matches, the filter is "" and `split` gives `[""]`; `AllowedIdsEmptyWhenNoneMatch` covers that case.

## Notes on the code

- A search that fails or comes back empty still uses up one of the `retry_error_num` iterations: the `continue` at lines 59-61 advances the `for` loop. The model follows the code. A batch whose candidates all fail also uses up its iteration (lines 64-72).
- `getLicense` returns `None` for an unknown id, and line 124 then indexes `None`. That raises an uncaught `TypeError`, modelled as status `LicenseMissing`. The rows already written stay.
- `sorted` computes every key before it sorts. So one size whose width does not parse as an integer makes the whole candidate fail, even when other sizes are wider (`LargestSize` is `None`).
- A negative `retry_error_num` or `get_num` makes `range` empty; `Iterations` is `max(n, 0)`.
