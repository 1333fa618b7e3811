/**
  `download`: for every row of the output file, fetch the image at its
  `source` URL; a response whose status is not 200 is skipped, otherwise the
  body is saved in the output directory under the URL's last path segment.
  The directory is a map from file name to content; the responses are
  inputs, one per row.
*/
module Download {
  import opened Wrappers
  import opened Run

  /** What the GET of one row's URL gives: a status and body, or an exception. */
  datatype Response = Response(statusCode: int, content: seq<bv8>) | RequestFailed

  /**
    Where the loop is: the directory's files, the number of rows dealt with,
    and whether the run died (an exception from the GET, or a file name that
    names the directory itself).
  */
  datatype DownloadState = DownloadState(files: map<string, seq<bv8>>, done: nat, crashed: bool)

  /** `url.rsplit("/", 1)[-1]`: what follows the last "/", or the whole URL when it has none. */
  function FileName(url: string): (name: string)
    ensures '/' !in name
    decreases |url|
  {
    if url == [] || url[|url| - 1] == '/' then []
    else FileName(url[..|url| - 1]) + [url[|url| - 1]]
  }

  /** The file name is the end of the URL, and whatever precedes it ends in "/". */
  lemma {:induction false} FileNameIsSuffix(url: string)
    ensures |FileName(url)| <= |url| && url[|url| - |FileName(url)|..] == FileName(url)
    ensures |FileName(url)| < |url| ==> url[|url| - |FileName(url)| - 1] == '/'
    decreases |url|
  {
    if url != [] && url[|url| - 1] != '/' {
      var init := url[..|url| - 1];
      FileNameIsSuffix(init);
      var prev := FileName(init);
      assert url[|url| - 1 - |prev|..] == init[|init| - |prev|..] + [url[|url| - 1]];
    }
  }

  /**
    Whether `output_dir / name` is a new file path: an empty name, "." and
    ".." make it the directory itself or its parent, and opening that for
    writing raises.
  */
  predicate Opens(name: string) {
    name != "" && name != "." && name != ".."
  }

  /** One row of the loop. */
  function DownloadStep(st: DownloadState, row: Row, response: Response): DownloadState {
    if st.crashed then st
    else
      match response
      case RequestFailed => st.(crashed := true)
      case Response(code, body) =>
        if code != 200 then st.(done := st.done + 1)
        else
          var name := FileName(row.source);
          if !Opens(name) then st.(crashed := true)
          else DownloadState(st.files[name := body], st.done + 1, false)
  }

  /** The directory and progress after the loop has gone over `rows` with their `responses`. */
  function DownloadSpec(files: map<string, seq<bv8>>, rows: seq<Row>, responses: seq<Response>): DownloadState
    requires |responses| == |rows|
    decreases |rows|
  {
    if rows == [] then DownloadState(files, 0, false)
    else
      var n := |rows| - 1;
      DownloadStep(DownloadSpec(files, rows[..n], responses[..n]), rows[n], responses[n])
  }

  lemma DownloadSpecStep(files: map<string, seq<bv8>>, rows: seq<Row>, responses: seq<Response>, i: nat)
    requires |responses| == |rows| && i < |rows|
    ensures DownloadSpec(files, rows[..i + 1], responses[..i + 1])
            == DownloadStep(DownloadSpec(files, rows[..i], responses[..i]), rows[i], responses[i])
  {
    assert rows[..i + 1][..i] == rows[..i];
    assert responses[..i + 1][..i] == responses[..i];
  }

  /** After a crash nothing more happens. */
  lemma {:induction false} CrashedStays(files: map<string, seq<bv8>>, rows: seq<Row>, responses: seq<Response>, m: nat)
    requires |responses| == |rows| && m <= |rows|
    requires DownloadSpec(files, rows[..m], responses[..m]).crashed || m == |rows|
    ensures DownloadSpec(files, rows, responses) == DownloadSpec(files, rows[..m], responses[..m])
    decreases |rows|
  {
    if m < |rows| {
      var n := |rows| - 1;
      var prev := DownloadSpec(files, rows[..n], responses[..n]);
      assert rows[..n][..m] == rows[..m];
      assert responses[..n][..m] == responses[..m];
      CrashedStays(files, rows[..n], responses[..n], m);
      assert prev.crashed;
      assert DownloadSpec(files, rows, responses) == DownloadStep(prev, rows[n], responses[n]);
    } else {
      assert rows[..m] == rows && responses[..m] == responses;
    }
  }

  /**
    `download`: the loop over the rows, given the output directory's files
    beforehand and the response to each row's request.
  */
  method DownloadAll(files: map<string, seq<bv8>>, rows: seq<Row>, responses: seq<Response>) returns (st: DownloadState)
    requires |responses| == |rows|
    ensures st == DownloadSpec(files, rows, responses)
  {
    var dir := files;
    var i := 0;
    while i < |rows|
      invariant 0 <= i <= |rows|
      invariant DownloadSpec(files, rows[..i], responses[..i]) == DownloadState(dir, i, false)
    {
      DownloadSpecStep(files, rows, responses, i);
      ghost var before := DownloadState(dir, i, false);
      var url := rows[i].source;
      var res := responses[i];
      if res.RequestFailed? {
        // the exception leaves the loop and ends the run
        st := DownloadState(dir, i, true);
        assert DownloadStep(before, rows[i], res) == st;
        CrashedStays(files, rows, responses, i + 1);
        return;
      }
      if res.statusCode != 200 {
        i := i + 1;
        continue;
      }
      var filename := FileName(url);
      if !Opens(filename) {
        st := DownloadState(dir, i, true);
        assert DownloadStep(before, rows[i], res) == st;
        CrashedStays(files, rows, responses, i + 1);
        return;
      }
      dir := dir[filename := res.content];
      i := i + 1;
    }
    st := DownloadState(dir, i, false);
    CrashedStays(files, rows, responses, i);
  }

  // ---------------------------------------------------------------------
  // Properties of the download loop

  /** The file name is the last path segment: whatever precedes the last "/" is dropped. */
  lemma {:induction false} FileNameIsLastSegment(dir: string, name: string)
    requires '/' !in name
    ensures FileName(dir + "/" + name) == name
    decreases |name|
  {
    var url := dir + "/" + name;
    if name != [] {
      var init := name[..|name| - 1];
      assert url[..|url| - 1] == dir + "/" + init;
      assert url[|url| - 1] == name[|name| - 1];
      FileNameIsLastSegment(dir, init);
      assert init + [name[|name| - 1]] == name;
    } else {
      assert url[|url| - 1] == '/';
    }
  }

  /** What one row can do to the directory and the progress. */
  lemma StepEffect(st: DownloadState, row: Row, response: Response)
    ensures var next := DownloadStep(st, row, response);
            && st.files.Keys <= next.files.Keys
            && (next.done == st.done || (next.done == st.done + 1 && !st.crashed && !next.crashed))
            && (next.done == st.done + 1 && response.Response? && response.statusCode == 200 ==>
                  FileName(row.source) in next.files)
            && (forall name :: name in next.files && name !in st.files ==>
                  && next.done == st.done + 1
                  && response.Response? && response.statusCode == 200 && FileName(row.source) == name)
            && (!(response.Response? && response.statusCode == 200) ==> next.files == st.files)
            && (next.done == st.done ==> next.files == st.files)
            && (next.done == st.done + 1 && response.Response? && response.statusCode == 200 ==>
                  next.files == st.files[FileName(row.source) := response.content])
  {
  }

  /** Whether a row ends the run: its request raised, or it got status 200 but its file name cannot be opened. */
  predicate Fails(row: Row, response: Response) {
    response.RequestFailed? || (response.statusCode == 200 && !Opens(FileName(row.source)))
  }

  /** Until a crash every row is dealt with; a crash stops at the row that caused it. */
  lemma {:induction false} DoneCountsRows(files: map<string, seq<bv8>>, rows: seq<Row>, responses: seq<Response>)
    requires |responses| == |rows|
    ensures DownloadSpec(files, rows, responses).done <= |rows|
    ensures !DownloadSpec(files, rows, responses).crashed ==> DownloadSpec(files, rows, responses).done == |rows|
    ensures var st := DownloadSpec(files, rows, responses);
            st.crashed ==> st.done < |rows| && Fails(rows[st.done], responses[st.done])
    decreases |rows|
  {
    if rows != [] {
      var n := |rows| - 1;
      DoneCountsRows(files, rows[..n], responses[..n]);
      var prev := DownloadSpec(files, rows[..n], responses[..n]);
      assert DownloadSpec(files, rows, responses) == DownloadStep(prev, rows[n], responses[n]);
      StepEffect(prev, rows[n], responses[n]);
      if prev.crashed {
        assert rows[..n][prev.done] == rows[prev.done] && responses[..n][prev.done] == responses[prev.done];
      }
    }
  }

  /** Whether a row whose request got `response` saves its body as `name`. */
  predicate SavesAs(row: Row, response: Response, name: string) {
    response.Response? && response.statusCode == 200 && FileName(row.source) == name
  }

  /**
    Every file the loop leaves that was not there before was named after
    the URL of a row it completed with status 200, and names no
    sub-directory.
  */
  lemma {:induction false} NewFilesComeFromOkRows(files: map<string, seq<bv8>>, rows: seq<Row>, responses: seq<Response>)
    requires |responses| == |rows|
    ensures DownloadSpec(files, rows, responses).done <= |rows|
    ensures forall name :: name in DownloadSpec(files, rows, responses).files && name !in files ==>
              && '/' !in name
              && exists k :: 0 <= k < DownloadSpec(files, rows, responses).done && SavesAs(rows[k], responses[k], name)
    decreases |rows|
  {
    DoneCountsRows(files, rows, responses);
    if rows != [] {
      var n := |rows| - 1;
      var rows', responses' := rows[..n], responses[..n];
      NewFilesComeFromOkRows(files, rows', responses');
      DoneCountsRows(files, rows', responses');
      var prev := DownloadSpec(files, rows', responses');
      var st := DownloadSpec(files, rows, responses);
      assert st == DownloadStep(prev, rows[n], responses[n]);
      StepEffect(prev, rows[n], responses[n]);
      assert forall j :: 0 <= j < n ==> rows'[j] == rows[j] && responses'[j] == responses[j];
      forall name | name in st.files && name !in files
        ensures '/' !in name
        ensures exists k :: 0 <= k < st.done && SavesAs(rows[k], responses[k], name)
      {
        if name in prev.files {
          var k :| 0 <= k < prev.done && SavesAs(rows'[k], responses'[k], name);
          assert SavesAs(rows[k], responses[k], name);
        } else {
          assert st.done == prev.done + 1 && !prev.crashed;
          assert SavesAs(rows[n], responses[n], name);
        }
      }
    }
  }

  /** A run in which no response has status 200 writes no file at all. */
  lemma {:induction false} NoOkResponseWritesNothing(files: map<string, seq<bv8>>, rows: seq<Row>, responses: seq<Response>)
    requires |responses| == |rows|
    requires forall k :: 0 <= k < |responses| ==> !(responses[k].Response? && responses[k].statusCode == 200)
    ensures DownloadSpec(files, rows, responses).files == files
    ensures DownloadSpec(files, rows, responses).crashed <==> exists k :: 0 <= k < |responses| && responses[k].RequestFailed?
    decreases |rows|
  {
    if rows != [] {
      var n := |rows| - 1;
      assert forall k :: 0 <= k < n ==> responses[..n][k] == responses[k];
      NoOkResponseWritesNothing(files, rows[..n], responses[..n]);
      var prev := DownloadSpec(files, rows[..n], responses[..n]);
      assert DownloadSpec(files, rows, responses) == DownloadStep(prev, rows[n], responses[n]);
      if exists k :: 0 <= k < n && responses[..n][k].RequestFailed? {
        var k :| 0 <= k < n && responses[..n][k].RequestFailed?;
        assert responses[k].RequestFailed?;
      }
    }
  }

  /** Files already in the directory are only ever overwritten, never removed. */
  lemma {:induction false} KeysOnlyGrow(files: map<string, seq<bv8>>, rows: seq<Row>, responses: seq<Response>)
    requires |responses| == |rows|
    ensures files.Keys <= DownloadSpec(files, rows, responses).files.Keys
    decreases |rows|
  {
    if rows != [] {
      var n := |rows| - 1;
      KeysOnlyGrow(files, rows[..n], responses[..n]);
      var prev := DownloadSpec(files, rows[..n], responses[..n]);
      assert DownloadSpec(files, rows, responses) == DownloadStep(prev, rows[n], responses[n]);
      StepEffect(prev, rows[n], responses[n]);
    }
  }

  /** A row completed with status 200 leaves a file under its URL's last segment. */
  lemma {:induction false} OkRowsLeaveFiles(files: map<string, seq<bv8>>, rows: seq<Row>, responses: seq<Response>)
    requires |responses| == |rows|
    ensures forall k :: 0 <= k < |rows| && k < DownloadSpec(files, rows, responses).done
                        && responses[k].Response? && responses[k].statusCode == 200 ==>
              FileName(rows[k].source) in DownloadSpec(files, rows, responses).files
    decreases |rows|
  {
    if rows != [] {
      var n := |rows| - 1;
      OkRowsLeaveFiles(files, rows[..n], responses[..n]);
      DoneCountsRows(files, rows[..n], responses[..n]);
      var prev := DownloadSpec(files, rows[..n], responses[..n]);
      var st := DownloadSpec(files, rows, responses);
      assert st == DownloadStep(prev, rows[n], responses[n]);
      StepEffect(prev, rows[n], responses[n]);
      forall k | 0 <= k < |rows| && k < st.done && responses[k].Response? && responses[k].statusCode == 200
        ensures FileName(rows[k].source) in st.files
      {
        if k < n {
          assert k < prev.done;
          assert rows[..n][k] == rows[k] && responses[..n][k] == responses[k];
        }
      }
    }
  }

  /** The index of the last of `rows` whose body is saved as `name`, or -1 when none is. */
  function LastSaveAt(rows: seq<Row>, responses: seq<Response>, name: string): (k: int)
    requires |responses| == |rows|
    ensures -1 <= k < |rows|
    ensures k >= 0 ==> SavesAs(rows[k], responses[k], name)
    ensures forall j :: k < j < |rows| ==> !SavesAs(rows[j], responses[j], name)
    decreases |rows|
  {
    if rows == [] then -1
    else
      var n := |rows| - 1;
      if SavesAs(rows[n], responses[n], name) then n
      else
        assert forall j :: 0 <= j < n ==> rows[..n][j] == rows[j] && responses[..n][j] == responses[j];
        LastSaveAt(rows[..n], responses[..n], name)
  }

  /**
    Reference reading of the loop's writes: what the directory holds under
    `name` after `rows` have all been dealt with, namely the body of the last
    of them saved as `name`, or the content that was there before.
  */
  function LastSaved(files: map<string, seq<bv8>>, rows: seq<Row>, responses: seq<Response>, name: string): (c: Option<seq<bv8>>)
    requires |responses| == |rows|
    ensures c.None? <==> name !in files && forall k :: 0 <= k < |rows| ==> !SavesAs(rows[k], responses[k], name)
  {
    var k := LastSaveAt(rows, responses, name);
    if k >= 0 then Some(responses[k].content)
    else if name in files then Some(files[name])
    else None
  }

  /** One more row: it decides `name`'s content if it saves as `name`, and otherwise leaves it as it was. */
  lemma LastSavedStep(files: map<string, seq<bv8>>, rows: seq<Row>, responses: seq<Response>, i: nat, name: string)
    requires |responses| == |rows| && i < |rows|
    ensures LastSaved(files, rows[..i + 1], responses[..i + 1], name)
            == if SavesAs(rows[i], responses[i], name) then Some(responses[i].content)
               else LastSaved(files, rows[..i], responses[..i], name)
  {
    assert rows[..i + 1][..i] == rows[..i] && responses[..i + 1][..i] == responses[..i];
    assert rows[..i + 1][i] == rows[i] && responses[..i + 1][i] == responses[i];
  }

  /** The last row's effect on the whole run: nothing, or one more row done and its file written when it got status 200. */
  lemma LastRowEffect(files: map<string, seq<bv8>>, rows: seq<Row>, responses: seq<Response>)
    requires |responses| == |rows| && rows != []
    ensures var n := |rows| - 1;
            var prev := DownloadSpec(files, rows[..n], responses[..n]);
            var st := DownloadSpec(files, rows, responses);
            && prev.done <= n
            && ((st.done == prev.done && st.files == prev.files)
                || (prev.done == n && st.done == |rows|
                    && st.files == if responses[n].Response? && responses[n].statusCode == 200
                                   then prev.files[FileName(rows[n].source) := responses[n].content]
                                   else prev.files))
  {
    var n := |rows| - 1;
    var prev := DownloadSpec(files, rows[..n], responses[..n]);
    assert DownloadSpec(files, rows, responses) == DownloadStep(prev, rows[n], responses[n]);
    StepEffect(prev, rows[n], responses[n]);
    DoneCountsRows(files, rows[..n], responses[..n]);
  }

  /**
    What the loop leaves in the directory: under each name, the body of the
    last completed status-200 row saved as that name, the old content when
    there is none, and no file when there was none before either.
  */
  lemma {:induction false} FilesAreLastSaved(files: map<string, seq<bv8>>, rows: seq<Row>, responses: seq<Response>)
    requires |responses| == |rows|
    ensures var st := DownloadSpec(files, rows, responses);
            && st.done <= |rows|
            && forall name :: LastSaved(files, rows[..st.done], responses[..st.done], name)
                              == if name in st.files then Some(st.files[name]) else None
    decreases |rows|
  {
    var st := DownloadSpec(files, rows, responses);
    if rows == [] {
      assert rows[..st.done] == [] && responses[..st.done] == [];
    } else {
      var n := |rows| - 1;
      var rows', responses' := rows[..n], responses[..n];
      var prev := DownloadSpec(files, rows', responses');
      LastRowEffect(files, rows, responses);
      FilesAreLastSaved(files, rows', responses');
      if st.done == prev.done {
        assert rows'[..prev.done] == rows[..st.done] && responses'[..prev.done] == responses[..st.done];
      } else {
        assert prev.done == n && st.done == |rows|;
        assert rows' == rows[..n] && rows'[..prev.done] == rows' && responses'[..prev.done] == responses';
        assert rows[..n + 1] == rows && responses[..n + 1] == responses;
        forall name
          ensures LastSaved(files, rows[..st.done], responses[..st.done], name)
                  == if name in st.files then Some(st.files[name]) else None
        {
          LastSavedStep(files, rows, responses, n, name);
        }
      }
    }
  }
}
