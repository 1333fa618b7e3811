/**
  `FlickrRandomPicker` and its `pickRandomPhoto`: the two-tier bounded retry
  that searches a random upload window, then tries the candidates of a
  non-empty result one after another until one photo's details and sizes
  come back.

  The remote calls are inputs: one `SearchOutcome` per search the loop makes,
  and inside a found batch, per candidate, the outcome of its detail fetch.
  The waits and calls the loop makes are reported as a trace of `Event`s.
*/
module Picker {
  import opened Wrappers
  import opened Licenses
  import opened Sizes

  /** The settings the picker reads from its configuration (credentials, wait time and search extras aside). */
  datatype Config = Config(retryErrorNum: int, targetLicenses: seq<string>)

  /** The configuration's defaults. */
  const DefaultRetryErrorNum := 10
  const DefaultTargetLicenses: seq<string> := [
    "Attribution License",
    "United States Government Work",
    "Public Domain Dedication (CC0)",
    "Public Domain Mark"
  ]

  /** The photo metadata a detail fetch returns, reduced to the fields the run writes out. */
  datatype Photo = Photo(
    id: string,
    license: string,
    owner: string,
    url: string,
    rotation: int,
    dateUploaded: int,
    dateTaken: string,
    takenUnknown: string)

  /** Outcome of fetching one candidate's details and its size list. */
  datatype Detail = DetailFailed | Fetched(photo: Photo, sizes: seq<Size>)

  /** A search-result stub, with what fetching its details will give. */
  datatype Candidate = Candidate(id: string, detail: Detail)

  /** Outcome of one window search: an exception, or the list of photos found (possibly empty). */
  datatype SearchOutcome = SearchFailed | Found(candidates: seq<Candidate>)

  /** What `pickRandomPhoto` returns on success. */
  datatype Pick = Pick(photo: Photo, size: Size)

  /**
    The effects of one pick, in order: the wait before a search, a search with
    its licence filter, the (doubled) wait before a detail fetch, and the
    detail fetch of one photo id.
  */
  datatype Event = SearchWait | Search(license: string) | DetailWait | FetchDetail(photoId: string)

  /** The state `__init__` leaves; nothing in it changes afterwards. */
  datatype FlickrPicker = FlickrPicker(licenses: Registry, targetLicenseIds: string, retryErrorNum: int)

  /** `__init__`, given the licence catalog the service returned. */
  function NewPicker(config: Config, catalog: seq<License>): (p: FlickrPicker)
    ensures Valid(p.licenses)
    ensures p.retryErrorNum == config.retryErrorNum
    ensures forall id :: id in p.licenses.order <==> exists i :: 0 <= i < |catalog| && catalog[i].id == id
  {
    var r := BuildRegistry(catalog);
    FlickrPicker(r, AllowedIds(r, config.targetLicenses), config.retryErrorNum)
  }

  /** How many times `range(n)` iterates. */
  function Iterations(n: int): nat {
    if n < 0 then 0 else n
  }

  // ---------------------------------------------------------------------
  // The outcome of a pick, as functions of the inputs

  /** The `try` block for one candidate: its details and sizes, then the widest size. */
  function TryCandidate(c: Candidate): Option<Pick> {
    match c.detail
    case DetailFailed => None
    case Fetched(photo, sizes) =>
      match LargestSize(sizes)
      case None => None
      case Some(size) => Some(Pick(photo, size))
  }

  /** The first candidate of a batch that succeeds. */
  function FirstSuccess(cs: seq<Candidate>): Option<Pick> {
    if cs == [] then None
    else if TryCandidate(cs[0]).Some? then TryCandidate(cs[0])
    else FirstSuccess(cs[1..])
  }

  /** What one outer iteration yields: nothing after a failed or empty search, else the batch's first success. */
  function BatchResult(o: SearchOutcome): Option<Pick> {
    match o
    case SearchFailed => None
    case Found(cs) => if |cs| == 0 then None else FirstSuccess(cs)
  }

  /** The outcome of the outer loop over the searches `os`, one per iteration. */
  function PickResult(os: seq<SearchOutcome>): Option<Pick> {
    if os == [] then None
    else if BatchResult(os[0]).Some? then BatchResult(os[0])
    else PickResult(os[1..])
  }

  /** Waits and detail fetches of the candidate loop, up to and including the first success. */
  function CandidateTrace(cs: seq<Candidate>): seq<Event> {
    if cs == [] then []
    else [DetailWait, FetchDetail(cs[0].id)] + if TryCandidate(cs[0]).Some? then [] else CandidateTrace(cs[1..])
  }

  /** The effects of one outer iteration. */
  function IterationTrace(filter: string, o: SearchOutcome): seq<Event> {
    [SearchWait, Search(filter)] + if o.Found? && |o.candidates| > 0 then CandidateTrace(o.candidates) else []
  }

  /** The effects of the outer loop over the searches `os`. */
  function PickTrace(filter: string, os: seq<SearchOutcome>): seq<Event> {
    if os == [] then []
    else IterationTrace(filter, os[0]) + if BatchResult(os[0]).Some? then [] else PickTrace(filter, os[1..])
  }

  /** The pick made with the searches `searches`, of which the loop uses the first `retry_error_num`. */
  function PickOf(p: FlickrPicker, searches: seq<SearchOutcome>): Option<Pick>
    requires Iterations(p.retryErrorNum) <= |searches|
  {
    PickResult(searches[..Iterations(p.retryErrorNum)])
  }

  /**
    The trace of the outer loop once iteration `i` is over, given `done`, the
    trace of the iterations before it, and `calls`, the detail calls of its batch.
  */
  lemma TraceAfterIteration(f: string, os: seq<SearchOutcome>, i: nat, done: seq<Event>, calls: seq<Event>)
    requires i < |os|
    requires PickResult(os) == PickResult(os[i..])
    requires PickTrace(f, os) == done + PickTrace(f, os[i..])
    requires calls == if os[i].Found? && |os[i].candidates| > 0 then CandidateTrace(os[i].candidates) else []
    ensures BatchResult(os[i]).None? ==>
              && PickResult(os) == PickResult(os[i + 1..])
              && PickTrace(f, os) == done + [SearchWait, Search(f)] + calls + PickTrace(f, os[i + 1..])
    ensures BatchResult(os[i]).Some? ==>
              && PickResult(os) == BatchResult(os[i])
              && PickTrace(f, os) == done + [SearchWait, Search(f)] + calls
  {
    var head := [SearchWait, Search(f)];
    var rest := PickTrace(f, os[i + 1..]);
    assert os[i..][0] == os[i] && os[i..][1..] == os[i + 1..];
    assert IterationTrace(f, os[i]) == head + calls;
    if BatchResult(os[i]).None? {
      assert PickTrace(f, os[i..]) == (head + calls) + rest;
      AppendAssoc(done, head + calls, rest);
      AppendAssoc(done, head, calls);
    } else {
      assert PickTrace(f, os[i..]) == (head + calls) + [];
      assert (head + calls) + [] == head + calls;
      AppendAssoc(done, head, calls);
    }
  }

  lemma AppendAssoc<T>(a: seq<T>, b: seq<T>, c: seq<T>)
    ensures a + (b + c) == (a + b) + c
  {
  }

  lemma TailOfPrefix<T>(s: seq<T>, m: nat)
    requires 0 < m <= |s|
    ensures s[..m][1..] == s[1..][..m - 1]
  {
  }

  /** One candidate, seen from candidate `j` on. */
  lemma CandidateStep(cs: seq<Candidate>, j: nat)
    requires j < |cs|
    ensures TryCandidate(cs[j]).Some? ==>
              FirstSuccess(cs[j..]) == TryCandidate(cs[j]) && CandidateTrace(cs[j..]) == [DetailWait, FetchDetail(cs[j].id)]
    ensures TryCandidate(cs[j]).None? ==>
              && FirstSuccess(cs[j..]) == FirstSuccess(cs[j + 1..])
              && CandidateTrace(cs[j..]) == [DetailWait, FetchDetail(cs[j].id)] + CandidateTrace(cs[j + 1..])
  {
    assert cs[j..][0] == cs[j] && cs[j..][1..] == cs[j + 1..];
  }

  // ---------------------------------------------------------------------
  // The loop

  /**
    The candidate loop of `pickRandomPhoto`: wait, fetch the details of each
    candidate in turn, and stop at the first whose details and sizes come back.
  */
  method FetchFirst(cs: seq<Candidate>) returns (result: Option<Pick>, calls: seq<Event>)
    ensures result == FirstSuccess(cs)
    ensures calls == CandidateTrace(cs)
  {
    var j := 0;
    calls := [];
    while j < |cs|
      invariant 0 <= j <= |cs|
      invariant FirstSuccess(cs) == FirstSuccess(cs[j..])
      invariant CandidateTrace(cs) == calls + CandidateTrace(cs[j..])
    {
      CandidateStep(cs, j);
      AppendAssoc(calls, [DetailWait, FetchDetail(cs[j].id)], CandidateTrace(cs[j + 1..]));
      calls := calls + [DetailWait, FetchDetail(cs[j].id)];
      match cs[j].detail {
        case DetailFailed =>
        case Fetched(photo, sizes) =>
          var size := LargestSize(sizes);
          if size.Some? {
            result := Some(Pick(photo, size.value));
            assert calls + [] == calls;
            return;
          }
      }
      j := j + 1;
    }
    assert cs[j..] == [];
    assert calls + [] == calls;
    result := None;
  }

  /**
    `pickRandomPhoto`: up to `retry_error_num` iterations of wait, search and,
    for a non-empty result, the candidate loop; the first candidate whose
    details and sizes come back is returned at once.
  */
  method PickRandomPhoto(p: FlickrPicker, searches: seq<SearchOutcome>) returns (result: Option<Pick>, trace: seq<Event>)
    requires Iterations(p.retryErrorNum) <= |searches|
    ensures result == PickResult(searches[..Iterations(p.retryErrorNum)])
    ensures trace == PickTrace(p.targetLicenseIds, searches[..Iterations(p.retryErrorNum)])
  {
    var n := Iterations(p.retryErrorNum);
    ghost var os := searches[..n];
    ghost var f := p.targetLicenseIds;
    trace := [];
    var i := 0;
    while i < n
      invariant 0 <= i <= n
      invariant PickResult(os) == PickResult(os[i..])
      invariant PickTrace(f, os) == trace + PickTrace(f, os[i..])
    {
      ghost var done := trace;
      trace := trace + [SearchWait, Search(p.targetLicenseIds)];
      var outcome := searches[i];
      assert outcome == os[i];
      if outcome.SearchFailed? || |outcome.candidates| == 0 {
        // the search raised, or found nothing: on to the next iteration
        TraceAfterIteration(f, os, i, done, []);
        assert trace + [] == trace;
        i := i + 1;
        continue;
      }
      var found, calls := FetchFirst(outcome.candidates);
      assert BatchResult(outcome) == found;
      TraceAfterIteration(f, os, i, done, calls);
      trace := trace + calls;
      if found.Some? {
        result := found;
        return;
      }
      i := i + 1;
    }
    assert os[i..] == [];
    assert trace + [] == trace;
    result := None;
  }

  // ---------------------------------------------------------------------
  // Properties of a pick

  /** A pick is None exactly when no iteration yields a photo. */
  lemma {:induction false} PickNoneIff(os: seq<SearchOutcome>)
    ensures PickResult(os).None? <==> forall i :: 0 <= i < |os| ==> BatchResult(os[i]).None?
    decreases |os|
  {
    if os != [] {
      PickNoneIff(os[1..]);
      assert forall i :: 1 <= i < |os| ==> os[i] == os[1..][i - 1];
    }
  }

  /** The outer iteration a successful pick returns from. */
  function WinningIteration(os: seq<SearchOutcome>): (k: nat)
    requires PickResult(os).Some?
    ensures k < |os|
  {
    if BatchResult(os[0]).Some? then 0 else 1 + WinningIteration(os[1..])
  }

  /** A successful pick is the yield of the first iteration that yields anything. */
  lemma {:induction false} PickIsFirstSuccess(os: seq<SearchOutcome>)
    requires PickResult(os).Some?
    ensures PickResult(os) == BatchResult(os[WinningIteration(os)])
    ensures forall j :: 0 <= j < WinningIteration(os) ==> BatchResult(os[j]).None?
    decreases |os|
  {
    if BatchResult(os[0]).None? {
      var rest := os[1..];
      PickIsFirstSuccess(rest);
      assert os[WinningIteration(os)] == rest[WinningIteration(rest)];
      forall j | 0 <= j < WinningIteration(os)
        ensures BatchResult(os[j]).None?
      {
        if j > 0 { assert os[j] == rest[j - 1]; }
      }
    }
  }

  /** Number of searches in a trace. */
  function Searches(t: seq<Event>): nat {
    if t == [] then 0 else (if t[0].Search? then 1 else 0) + Searches(t[1..])
  }

  /** Number of search waits in a trace. */
  function SearchWaits(t: seq<Event>): nat {
    if t == [] then 0 else (if t[0] == SearchWait then 1 else 0) + SearchWaits(t[1..])
  }

  lemma {:induction false} CountsAppend(a: seq<Event>, b: seq<Event>)
    ensures Searches(a + b) == Searches(a) + Searches(b)
    ensures SearchWaits(a + b) == SearchWaits(a) + SearchWaits(b)
    decreases |a|
  {
    if a != [] {
      assert (a + b)[0] == a[0] && (a + b)[1..] == a[1..] + b;
      CountsAppend(a[1..], b);
    } else {
      assert a + b == b;
    }
  }

  /** Detail fetches, failed or not, never search or wait for a search. */
  lemma {:induction false} CandidateTraceHasNoSearch(cs: seq<Candidate>)
    ensures Searches(CandidateTrace(cs)) == 0 && SearchWaits(CandidateTrace(cs)) == 0
    decreases |cs|
  {
    if cs != [] {
      var tail := if TryCandidate(cs[0]).Some? then [] else CandidateTrace(cs[1..]);
      CandidateTraceHasNoSearch(cs[1..]);
      CountsAppend([DetailWait, FetchDetail(cs[0].id)], tail);
      assert Searches([DetailWait, FetchDetail(cs[0].id)]) == 0;
      assert SearchWaits([DetailWait, FetchDetail(cs[0].id)]) == 0;
    }
  }

  /** Each outer iteration waits once and searches once. */
  lemma IterationSearchesOnce(f: string, o: SearchOutcome)
    ensures Searches(IterationTrace(f, o)) == 1 && SearchWaits(IterationTrace(f, o)) == 1
  {
    var tail := if o.Found? && |o.candidates| > 0 then CandidateTrace(o.candidates) else [];
    if o.Found? { CandidateTraceHasNoSearch(o.candidates); }
    CountsAppend([SearchWait, Search(f)], tail);
    assert Searches([SearchWait, Search(f)]) == 1;
    assert SearchWaits([SearchWait, Search(f)]) == 1;
  }

  /**
    A pick searches once per iteration it runs, each time after exactly one
    wait: `retry_error_num` times when it returns None, and up to the
    iteration it returns from otherwise.
  */
  lemma {:induction false} PickSearchBudget(f: string, os: seq<SearchOutcome>)
    ensures Searches(PickTrace(f, os)) <= |os|
    ensures SearchWaits(PickTrace(f, os)) == Searches(PickTrace(f, os))
    ensures PickResult(os).None? ==> Searches(PickTrace(f, os)) == |os|
    ensures PickResult(os).Some? ==> Searches(PickTrace(f, os)) == WinningIteration(os) + 1
    decreases |os|
  {
    if os != [] {
      var tail := if BatchResult(os[0]).Some? then [] else PickTrace(f, os[1..]);
      PickSearchBudget(f, os[1..]);
      IterationSearchesOnce(f, os[0]);
      CountsAppend(IterationTrace(f, os[0]), tail);
    }
  }

  /** Every search of a pick sends the resolved allowed-id list as its licence filter. */
  lemma {:induction false} SearchesUseLicenseFilter(f: string, os: seq<SearchOutcome>)
    ensures forall e :: e in PickTrace(f, os) && e.Search? ==> e.license == f
    decreases |os|
  {
    if os != [] {
      SearchesUseLicenseFilter(f, os[1..]);
      var o := os[0];
      if o.Found? {
        CandidateTraceHasNoSearchEvent(o.candidates);
      }
    }
  }

  lemma {:induction false} CandidateTraceHasNoSearchEvent(cs: seq<Candidate>)
    ensures forall e :: e in CandidateTrace(cs) ==> !e.Search?
    decreases |cs|
  {
    if cs != [] {
      CandidateTraceHasNoSearchEvent(cs[1..]);
    }
  }

  /**
    An empty search result behaves exactly like a search that raised: the
    same outcome and the same waits and calls, wherever it occurs.
  */
  lemma {:induction false} EmptyResultIsFailedSearch(f: string, os: seq<SearchOutcome>, k: nat)
    requires k < |os| && os[k] == Found([])
    ensures PickResult(os[k := SearchFailed]) == PickResult(os)
    ensures PickTrace(f, os[k := SearchFailed]) == PickTrace(f, os)
    decreases k
  {
    var os' := os[k := SearchFailed];
    if k == 0 {
      assert os'[1..] == os[1..];
    } else {
      assert os'[1..] == os[1..][k - 1 := SearchFailed];
      EmptyResultIsFailedSearch(f, os[1..], k - 1);
    }
  }

  /** Waits and detail fetches for the candidates `cs`, in order. */
  function DetailCalls(cs: seq<Candidate>): seq<Event> {
    if cs == [] then [] else [DetailWait, FetchDetail(cs[0].id)] + DetailCalls(cs[1..])
  }

  /**
    Inside a batch where every candidate fails, each candidate is fetched
    once, in search order.
  */
  lemma {:induction false} AllCandidatesTried(cs: seq<Candidate>)
    requires FirstSuccess(cs).None?
    ensures forall j :: 0 <= j < |cs| ==> TryCandidate(cs[j]).None?
    ensures CandidateTrace(cs) == DetailCalls(cs)
    decreases |cs|
  {
    if cs != [] {
      AllCandidatesTried(cs[1..]);
      assert forall j :: 1 <= j < |cs| ==> cs[j] == cs[1..][j - 1];
    }
  }

  /** Position, in its batch, of the candidate a successful batch returns. */
  function WinnerIndex(cs: seq<Candidate>): (k: nat)
    requires FirstSuccess(cs).Some?
    ensures k < |cs|
  {
    if TryCandidate(cs[0]).Some? then 0 else 1 + WinnerIndex(cs[1..])
  }

  /**
    Inside a batch the candidates are tried in search order, a failed one
    leads to the next, and the first success is the result.
  */
  lemma {:induction false} FirstCandidateWins(cs: seq<Candidate>)
    requires FirstSuccess(cs).Some?
    ensures FirstSuccess(cs) == TryCandidate(cs[WinnerIndex(cs)])
    ensures forall j :: 0 <= j < WinnerIndex(cs) ==> TryCandidate(cs[j]).None?
    decreases |cs|
  {
    if TryCandidate(cs[0]).None? {
      var rest := cs[1..];
      FirstCandidateWins(rest);
      var k := WinnerIndex(rest);
      assert cs[k + 1] == rest[k];
      forall j | 0 <= j < k + 1
        ensures TryCandidate(cs[j]).None?
      {
        if j > 0 { assert cs[j] == rest[j - 1]; }
      }
    }
  }

  /** A successful batch fetches exactly the candidates up to the winner, and no later one. */
  lemma {:induction false} WinnerEndsFetching(cs: seq<Candidate>)
    requires FirstSuccess(cs).Some?
    ensures CandidateTrace(cs) == DetailCalls(cs[..WinnerIndex(cs) + 1])
    decreases |cs|
  {
    var step := [DetailWait, FetchDetail(cs[0].id)];
    if TryCandidate(cs[0]).Some? {
      assert WinnerIndex(cs) == 0;
      assert cs[..1] == [cs[0]];
      assert CandidateTrace(cs) == step + [];
      assert DetailCalls(cs[..1]) == step + DetailCalls([]);
    } else {
      var rest := cs[1..];
      WinnerEndsFetching(rest);
      var k := WinnerIndex(rest);
      assert WinnerIndex(cs) == k + 1;
      var prefix := cs[..k + 2];
      TailOfPrefix(cs, k + 2);
      assert prefix[0] == cs[0];
      assert CandidateTrace(cs) == step + CandidateTrace(rest);
      assert DetailCalls(prefix) == step + DetailCalls(rest[..k + 1]);
      assert CandidateTrace(cs) == DetailCalls(prefix);
    }
  }

  /**
    With every search failing, a pick with the default budget of ten gives
    None after exactly ten waits and ten searches.
  */
  lemma DefaultBudgetExhausted(catalog: seq<License>, searches: seq<SearchOutcome>)
    requires |searches| >= DefaultRetryErrorNum
    requires forall i :: 0 <= i < |searches| ==> searches[i] == SearchFailed
    ensures var p := NewPicker(Config(DefaultRetryErrorNum, DefaultTargetLicenses), catalog);
            var os := searches[..Iterations(p.retryErrorNum)];
            && PickResult(os).None?
            && Searches(PickTrace(p.targetLicenseIds, os)) == 10
            && SearchWaits(PickTrace(p.targetLicenseIds, os)) == 10
  {
    var p := NewPicker(Config(DefaultRetryErrorNum, DefaultTargetLicenses), catalog);
    var os := searches[..Iterations(p.retryErrorNum)];
    PickNoneIff(os);
    PickSearchBudget(p.targetLicenseIds, os);
  }
}
