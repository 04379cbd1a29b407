/**
 * The extract-and-stage part of `main`: the status gate, the dropping of
 * empty batches by `filter(None, ...)`, and the loop that writes batch `idx`
 * to `extracted_data/repo_<idx>.json`, replacing what was there.
 */
module Pipeline {
  import opened Wrappers
  import opened Paths
  import opened Scrape

  type Batch = seq<RepoRecord>

  /** The fetched response: its status code and the rows its body lists. */
  datatype Response = Response(statusCode: int, rows: seq<Row>)

  datatype Outcome =
    | Staged(batches: nat)          // status 200: this many batches written
    | FetchFailed(statusCode: int)  // any other status: nothing extracted or written
    | ScrapeFailed(error: ScrapeError)  // the scraper raised: nothing written

  /** `filter(None, batches)`: the non-empty batches, in their order. */
  function DropEmpty(batches: seq<Batch>): (kept: seq<Batch>)
    ensures |kept| <= |batches|
    ensures forall k :: 0 <= k < |kept| ==> kept[k] != []
  {
    if batches == [] then []
    else (if batches[0] == [] then [] else [batches[0]]) + DropEmpty(batches[1..])
  }

  /** Filtering a concatenation filters each part: with `DropEmptySingle` this fixes
      the result, order included, for any list of batches. */
  lemma {:induction false} DropEmptyAppend(a: seq<Batch>, b: seq<Batch>)
    ensures DropEmpty(a + b) == DropEmpty(a) + DropEmpty(b)
  {
    if a != [] {
      assert (a + b)[0] == a[0] && (a + b)[1..] == a[1..] + b;
      DropEmptyAppend(a[1..], b);
    } else {
      assert a + b == b;
    }
  }

  /** All records of the batches, in order. */
  function Flatten(batches: seq<Batch>): seq<RepoRecord> {
    if batches == [] then [] else batches[0] + Flatten(batches[1..])
  }

  /** Dropping the empty batches loses no record and reorders none. */
  lemma {:induction false} DropEmptyKeepsRecords(batches: seq<Batch>)
    ensures Flatten(DropEmpty(batches)) == Flatten(batches)
  {
    if batches != [] {
      DropEmptyKeepsRecords(batches[1..]);
      var head := if batches[0] == [] then [] else [batches[0]];
      var rest := DropEmpty(batches[1..]);
      if batches[0] != [] {
        assert (head + rest)[0] == batches[0] && (head + rest)[1..] == rest;
      } else {
        assert head + rest == rest;
      }
    }
  }

  /** A batch survives the filter exactly when it was there and is not empty. */
  lemma {:induction false} DropEmptyMembership(batches: seq<Batch>, b: Batch)
    ensures b in DropEmpty(batches) <==> b in batches && b != []
  {
    if batches != [] {
      DropEmptyMembership(batches[1..], b);
      assert batches == [batches[0]] + batches[1..];
    }
  }

  /** A single batch survives when it is non-empty and disappears when it is empty. */
  lemma DropEmptySingle(b: Batch)
    ensures DropEmpty([b]) == if b == [] then [] else [b]
  {
    assert [b][1..] == [];
  }

  /** The staging area after writing `batches[idx]` to `BatchPath(idx)` for each index in turn. */
  function Stage(files: map<string, Batch>, batches: seq<Batch>): map<string, Batch> {
    if batches == [] then files
    else Stage(files, batches[..|batches| - 1])[BatchPath(|batches| - 1) := batches[|batches| - 1]]
  }

  /** The paths written when `n` batches are staged. */
  ghost function StagedPaths(n: nat): set<string> {
    set i | 0 <= i < n :: BatchPath(i)
  }

  /** After staging, batch `i` is what `BatchPath(i)` holds: no later write replaces it. */
  lemma {:induction false} StageAt(files: map<string, Batch>, batches: seq<Batch>, i: nat)
    requires i < |batches|
    ensures BatchPath(i) in Stage(files, batches)
    ensures Stage(files, batches)[BatchPath(i)] == batches[i]
  {
    var n := |batches| - 1;
    var init := batches[..n];
    if i < n {
      StageAt(files, init, i);
      if BatchPath(n) == BatchPath(i) {
        BatchPathInjective(n, i);
      }
    }
  }

  /** Staging touches only the batch paths: every other path keeps its contents, or its absence. */
  lemma {:induction false} StageElsewhere(files: map<string, Batch>, batches: seq<Batch>, p: string)
    requires p !in StagedPaths(|batches|)
    ensures p in Stage(files, batches) <==> p in files
    ensures p in files ==> Stage(files, batches)[p] == files[p]
  {
    if batches != [] {
      var n := |batches| - 1;
      assert BatchPath(n) in StagedPaths(|batches|);
      assert StagedPaths(n) <= StagedPaths(|batches|);
      StageElsewhere(files, batches[..n], p);
    }
  }

  /** The staging area gains exactly the batch paths. */
  lemma {:induction false} StageKeys(files: map<string, Batch>, batches: seq<Batch>)
    ensures Stage(files, batches).Keys == files.Keys + StagedPaths(|batches|)
  {
    if batches != [] {
      var n := |batches| - 1;
      StageKeys(files, batches[..n]);
      assert StagedPaths(|batches|) == StagedPaths(n) + {BatchPath(n)};
    }
  }

  /** Staging the same batches again changes nothing: each write replaces, none appends. */
  lemma StageIdempotent(files: map<string, Batch>, batches: seq<Batch>)
    ensures Stage(Stage(files, batches), batches) == Stage(files, batches)
  {
    var once := Stage(files, batches);
    var twice := Stage(once, batches);
    StageKeys(files, batches);
    StageKeys(once, batches);
    forall p | p in once
      ensures p in twice && twice[p] == once[p]
    {
      if p in StagedPaths(|batches|) {
        var i :| 0 <= i < |batches| && p == BatchPath(i);
        StageAt(files, batches, i);
        StageAt(once, batches, i);
      } else {
        StageElsewhere(once, batches, p);
      }
    }
  }

  /** What `main` does to the staging area, and how it ends, for one response. */
  function RunSpec(files: map<string, Batch>, response: Response, githubUrl: string): (Outcome, map<string, Batch>) {
    if response.statusCode != 200 then (FetchFailed(response.statusCode), files)
    else
      match Extract(response.rows, githubUrl)
      case Failure(e) => (ScrapeFailed(e), files)
      case Success(recs) =>
        var kept := DropEmpty([recs]);
        (Staged(|kept|), Stage(files, kept))
  }

  /** Without status 200, or when the scraper fails, the staging area is left as it was. */
  lemma RunStagesOnlyOnSuccess(files: map<string, Batch>, response: Response, githubUrl: string)
    ensures var (outcome, files') := RunSpec(files, response, githubUrl);
      && (outcome.Staged? <==> response.statusCode == 200 && Extract(response.rows, githubUrl).Success?)
      && (!outcome.Staged? ==> files' == files)
      && (response.statusCode != 200 ==> outcome == FetchFailed(response.statusCode))
      && (response.statusCode == 200 && Extract(response.rows, githubUrl).Failure? ==>
            outcome == ScrapeFailed(Extract(response.rows, githubUrl).error))
  {
  }

  /**
   * With status 200 and a page that scrapes to `recs`: a non-empty `recs`
   * is written to `extracted_data/repo_0.json` and every other path is left
   * alone; an empty `recs` is dropped and nothing is written.
   */
  lemma RunStagesPage(files: map<string, Batch>, response: Response, githubUrl: string)
    requires response.statusCode == 200
    requires Extract(response.rows, githubUrl).Success?
    ensures var recs := Extract(response.rows, githubUrl).value;
      var (outcome, files') := RunSpec(files, response, githubUrl);
      && (recs == [] ==> outcome == Staged(0) && files' == files)
      && (recs != [] ==> outcome == Staged(1) && files' == files[BatchPath(0) := recs])
  {
    var recs := Extract(response.rows, githubUrl).value;
    DropEmptySingle(recs);
    if recs != [] {
      assert [recs][..0] == [];
      assert Stage(files, [recs]) == Stage(files, [])[BatchPath(0) := recs];
    }
  }

  /** Running `main` twice on the same response leaves the staging area as one run does. */
  lemma RunIdempotent(files: map<string, Batch>, response: Response, githubUrl: string)
    ensures var once := RunSpec(files, response, githubUrl);
      RunSpec(once.1, response, githubUrl) == once
  {
    if response.statusCode == 200 && Extract(response.rows, githubUrl).Success? {
      StageIdempotent(files, DropEmpty([Extract(response.rows, githubUrl).value]));
    }
  }

  /** The staging directory: the JSON files under `extracted_data/`, by path. */
  class StagingArea {
    var files: map<string, Batch>

    constructor (initial: map<string, Batch>)
      ensures files == initial
    {
      files := initial;
    }

    /** `createDataFrame(batch).write.json(BatchPath(idx), mode='overwrite')`. */
    method WriteJson(idx: nat, batch: Batch)
      modifies this
      ensures files == old(files)[BatchPath(idx) := batch]
    {
      files := files[BatchPath(idx) := batch];
    }

    /** `for idx, repo_info in enumerate(batches)`: writes each batch to its own path. */
    method StageAll(batches: seq<Batch>)
      modifies this
      ensures files == Stage(old(files), batches)
    {
      for idx := 0 to |batches|
        invariant files == Stage(old(files), batches[..idx])
      {
        assert batches[..idx + 1][..idx] == batches[..idx];
        WriteJson(idx, batches[idx]);
      }
      assert batches[..|batches|] == batches;
    }

    /**
     * `main` up to the schema: on status 200 scrape the page, drop an empty
     * result and stage what is left; on any other status write nothing.
     */
    method Run(response: Response, githubUrl: string) returns (outcome: Outcome)
      modifies this
      ensures (outcome, files) == RunSpec(old(files), response, githubUrl)
    {
      if response.statusCode == 200 {
        var scraped := ScrapeRepoInfo(Page(response.rows, githubUrl));
        if scraped.Failure? {
          return ScrapeFailed(scraped.error);
        }
        var repoInfoList := DropEmpty([scraped.value]);
        StageAll(repoInfoList);
        outcome := Staged(|repoInfoList|);
      } else {
        outcome := FetchFailed(response.statusCode);
      }
    }
  }
}
