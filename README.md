# scytale_hw: repository scraper and staging, in Dafny

The repository is a small extract-and-load job. It fetches an organisation's
GitHub repository listing page. It turns every `li.Box-row` item of the page into
a repository record. It stages the records as JSON under
`extracted_data/repo_<idx>.json` and then compacts them into one Parquet table
under a fixed eight-column schema.

This project models the two parts of `scytale_test_savannah.py` that hold logic.

- **`scrape_repo_info`** (module `Scrape`). The parsed page is an ordered
  sequence of the matched rows. Each row carries its first
  `itemprop="name codeRepository"` anchor, or none. An anchor carries its text
  nodes and its `href`, if it has one. `ScrapeRepoInfo` is the loop that appends
  one record per row. It is proved equal to the recursive function
  `Extract`, and the lemmas state what `Extract` promises:
  - one record per row, in document order;
  - the name is built by stripping each text node of the anchor and joining
    the results, so only whitespace is removed, at the ends and between nodes
    (`Text`: Python's `str.strip`, BeautifulSoup's `get_text(strip=True)`);
  - the id is `https://github.com` followed by the `href`;
  - the organisation is the last `/`-segment of the source URL (`Text`:
    `str.split('/')[-1]`), the same in every record;
  - five empty placeholders;
  - an empty page gives the empty list;
  - a row without the anchor (`AttributeError`) or without `href`
    (`KeyError`) fails the whole call at the first such row.
- **The staging part of `main`** (module `Pipeline`). Staging is gated on
  status 200. `filter(None, ...)` drops empty batches (`DropEmpty`). The
  `enumerate` loop writes batch `idx` to `BatchPath(idx)` (`Paths`) and replaces
  what that path held. The staging directory is the class `StagingArea`, whose
  `files` map goes from path to batch. Its methods are proved against the
  functions `Stage` and `RunSpec`. The lemmas show three things about staging.
  Batch `i` ends up at path `i`, and no later write replaces it, because the
  decimal rendering of the index is injective. Other paths are left alone.
  Staging the same batches again, or running `main` again on the same
  response, changes nothing.
- **The schema** (module `Schema`) is the function `TableSchema`, the eight columns in order.

Observation, not a guarantee: the scraper stores the organisation under the key
`Organization Name` (scytale_test_savannah.py:25). The schema names the column
`Organization_Name` (scytale_test_savannah.py:55). `Schema.ReadByNameDropsOrganization`
shows that a reader which matches columns by name finds nothing for that column.
It finds the other seven fields as written.

## Behaviour of the code worth knowing

- Nothing checks that the name is non-empty. An anchor whose text is
  all whitespace gives an empty `repository_name`.
- `get_text(strip=True)` strips each text node of the anchor on its own and
  joins the results with no separator. Whitespace between text nodes is
  removed as well as whitespace at the ends: the nodes `"foo "` and `" bar"`
  give `foobar`.
- The organisation is taken from `github_url`, the URL without `/repositories`
  (scytale_test_savannah.py:39). Given `.../orgs/octo-org/repositories`
  instead, line 25 would give `repositories`. `ScrapeScenario.OctoOrgPage` uses
  `https://github.com/orgs/octo-org` and gets `octo-org`.
- For a status other than 200, line 50 reads `.status_code` on the tuple
  built at line 39. That raises before anything is printed, so the run ends
  there and the schema read and Parquet write are never reached. The model
  returns `FetchFailed` and writes nothing.

## Model

| member | source | states |
|---|---|---|
| Text.ContentStart | scytale_test_savannah.py:23 | counts the leading whitespace (Python's `isspace` set): all of it is whitespace and the next character is not |
| Text.ContentEnd | scytale_test_savannah.py:23 | the length without trailing whitespace: everything after it is whitespace and the character before it is not |
| Text.Strip | scytale_test_savannah.py:23 | definition of `str.strip()`; its properties are proved by `StripUnique`, `StripTrimmed`, `StripIdempotent` and `StripKeepsContent` |
| Text.StripUnique | scytale_test_savannah.py:23 | `strip()` removes exactly the surrounding whitespace: any infix with only whitespace outside it and non-space ends is the stripped string |
| Text.StripTrimmed | scytale_test_savannah.py:23 | a stripped string neither starts nor ends with whitespace |
| Text.StripIdempotent | scytale_test_savannah.py:23 | stripping twice is stripping once |
| Text.GetTextStripped | scytale_test_savannah.py:23 | definition of `get_text(strip=True)`; its properties are proved by `GetTextStrippedSingle`, `GetTextStrippedAppend`, `GetTextStrippedTrimmed`, `GetTextStrippedIsStripped` and `GetTextStrippedKeepsContent` |
| Text.GetTextStrippedSingle | scytale_test_savannah.py:23 | `get_text(strip=True)` of an anchor with one text node is that node stripped |
| Text.GetTextStrippedAppend | scytale_test_savannah.py:23 | the text of consecutive node lists is their texts joined; with the one-node case this fixes the text of any anchor |
| Text.GetTextStrippedTrimmed | scytale_test_savannah.py:23 | the extracted anchor text never starts or ends with whitespace, however many text nodes it has |
| Text.GetTextStrippedIsStripped | scytale_test_savannah.py:23 | the extracted anchor text is a fixed point of `strip()` |
| Text.SqueezeAppend | scytale_test_savannah.py:23 | deleting whitespace from a concatenation deletes it from each part |
| Text.SqueezeAllSpace | scytale_test_savannah.py:23 | deleting whitespace from an all-whitespace string leaves nothing |
| Text.StripKeepsContent | scytale_test_savannah.py:23 | `strip()` deletes whitespace only: every non-space character stays, in order |
| Text.GetTextStrippedKeepsContent | scytale_test_savannah.py:23 | `get_text(strip=True)` deletes whitespace only: it keeps every non-space character of the text nodes, in order |
| Text.Split | scytale_test_savannah.py:25 | `split('/')` yields at least one piece and no piece contains `/` |
| Text.JoinSplit | scytale_test_savannah.py:25 | joining the pieces of `split('/')` with `/` gives back the URL |
| Text.SplitJoin | scytale_test_savannah.py:25 | splitting `/`-joined pieces that hold no `/` gives back the pieces |
| Text.LastSegment | scytale_test_savannah.py:25 | definition of `split('/')[-1]`; its properties are proved by `LastSegmentSpec` |
| Text.LastSegmentSpec | scytale_test_savannah.py:25 | `split('/')[-1]` holds no `/`, ends the URL, and is the whole URL or follows its final `/` |
| Paths.DigitChar | scytale_test_savannah.py:48 | the digit character for a value below ten has that value |
| Paths.NatToString | scytale_test_savannah.py:48 | the index in the f-string is rendered as decimal digits without leading zeros |
| Paths.ParseNatToString | scytale_test_savannah.py:48 | reading the decimal rendering back gives the index |
| Paths.NatToStringInjective | scytale_test_savannah.py:48 | distinct indices render differently |
| Paths.BatchPath | scytale_test_savannah.py:48 | definition of the f-string `extracted_data/repo_{idx}.json`; its properties are proved by `BatchPathInjective` (through `NatToStringInjective`) and used by `Pipeline.StageAt` |
| Paths.BatchPathInjective | scytale_test_savannah.py:48 | distinct batch indices name distinct `extracted_data/repo_<idx>.json` paths |
| Scrape.RepoInfo | scytale_test_savannah.py:22-31 | definition of the dictionary built for one row; its properties are proved by `RepoInfoName`, `RepoInfoId`, `RepoInfoOrganization` and `ExtractPlaceholdersEmpty` |
| Scrape.Extract | scytale_test_savannah.py:19-34 | definition of the whole scrape as a function of the rows; its properties are proved by `ExtractEmptyPage`, `ExtractStep`, `ExtractSucceedsIff`, `ExtractOneRecordPerRow`, `ExtractFailsAtFirstBadRow`, `ExtractFailurePersists` and `ExtractSameOrganization`, and `ScrapeRepoInfo` is proved equal to it |
| Scrape.ScrapeRepoInfo | scytale_test_savannah.py:17-34 | the append loop returns exactly `Extract` of the page's rows: the records of all rows in order, or the first row's error |
| Scrape.ExtractFailurePersists | scytale_test_savannah.py:21-24 | once a row raises, the call fails with that error whatever rows follow |
| Scrape.ExtractEmptyPage | scytale_test_savannah.py:19-34 | a page with no matched rows yields the empty list, not an error |
| Scrape.ExtractStep | scytale_test_savannah.py:21-32 | one more row succeeds exactly when the rows before it succeed and the new row is well formed |
| Scrape.ExtractSucceedsIff | scytale_test_savannah.py:21-24 | the call succeeds if and only if every matched row has the name anchor and that anchor has an `href` |
| Scrape.ExtractOneRecordPerRow | scytale_test_savannah.py:21-32 | on success there is exactly one record per row, and record `i` is built from row `i` (document order) |
| Scrape.ExtractFailsAtFirstBadRow | scytale_test_savannah.py:23-24 | on failure the error is the first malformed row's: `AttributeError` when its anchor is missing, `KeyError` when the anchor has no `href`, every earlier row well formed, and no list returned (the row index in the error is the model's addition; Python's exceptions carry none) |
| Scrape.RepoInfoName | scytale_test_savannah.py:23 | `repository_name` has no whitespace at either end, keeps every non-space character of the anchor's text nodes in order, and for one text node is that node stripped |
| Scrape.RepoInfoId | scytale_test_savannah.py:24 | `repository_id` starts with `https://github.com` and the rest of it is the anchor's `href` |
| Scrape.RepoInfoOrganization | scytale_test_savannah.py:25 | `Organization Name` holds no `/`, ends the source URL, and is what follows its final `/` (or the whole URL) |
| Scrape.ExtractSameOrganization | scytale_test_savannah.py:25 | every record of one call carries the same organisation name, the last segment of the source URL |
| Scrape.ExtractPlaceholdersEmpty | scytale_test_savannah.py:26-30 | `num_prs`, `num_prs_merged`, `merged_at`, `repository_owner` and `is_compliant` are empty in every record |
| ScrapeScenario.ExtractTwoRows | scytale_test_savannah.py:21-32 | two well-formed rows give their two records in page order |
| ScrapeScenario.OctoOrgName | scytale_test_savannah.py:25 | the organisation of `https://github.com/orgs/octo-org` is `octo-org` |
| ScrapeScenario.OctoOrgPage | scytale_test_savannah.py:17-34 | the two-row `octo-org` page scrapes to the two expected records, names stripped, placeholders empty |
| Schema.TableSchema | scytale_test_savannah.py:54-63 | definition of the eight-column schema, in order; its consequence for a by-name read is proved by `ReadByNameDropsOrganization` |
| Schema.Lookup | scytale_test_savannah.py:22-31 | definition of the keys of the scraper's dictionary; its consequence for a by-name read is proved by `ReadByNameDropsOrganization` |
| Schema.ReadByName | scytale_test_savannah.py:54-63 | a by-name read of a record yields one value per schema column |
| Schema.ReadByNameDropsOrganization | scytale_test_savannah.py:54-63 | read by name against the schema, a record loses its organisation name (key `Organization Name` versus column `Organization_Name`) and keeps its other seven fields |
| Pipeline.DropEmpty | scytale_test_savannah.py:43-44 | `filter(None, ...)` keeps no empty batch and never adds batches |
| Pipeline.DropEmptyKeepsRecords | scytale_test_savannah.py:43-44 | dropping empty batches loses and reorders no record |
| Pipeline.DropEmptyMembership | scytale_test_savannah.py:43-44 | a batch survives the filter exactly when it was present and is not empty |
| Pipeline.DropEmptySingle | scytale_test_savannah.py:43-44 | the one collected page survives when non-empty and vanishes when empty |
| Pipeline.DropEmptyAppend | scytale_test_savannah.py:43-44 | filtering consecutive lists of batches filters each; with the one-batch case this fixes the filtered list, order included |
| Pipeline.Stage | scytale_test_savannah.py:47-48 | definition of the staging area after the `enumerate` loop; its properties are proved by `StageAt`, `StageElsewhere`, `StageKeys` and `StageIdempotent`, and `StagingArea.StageAll` is proved equal to it |
| Pipeline.StageAt | scytale_test_savannah.py:47-48 | after staging, `extracted_data/repo_<i>.json` holds batch `i` for every `i`: no later write replaces it |
| Pipeline.StageElsewhere | scytale_test_savannah.py:47-48 | staging leaves every path other than the batch paths as it was, present or absent |
| Pipeline.StageKeys | scytale_test_savannah.py:47-48 | staging adds exactly the batch paths to the staging area |
| Pipeline.StageIdempotent | scytale_test_savannah.py:47-48 | staging the same batches twice is staging them once (overwrite, no append) |
| Pipeline.RunSpec | scytale_test_savannah.py:37-50 | definition of `main` up to the schema, as outcome and new staging area; its properties are proved by `RunStagesOnlyOnSuccess`, `RunStagesPage` and `RunIdempotent`, and `StagingArea.Run` is proved equal to it |
| Pipeline.RunStagesOnlyOnSuccess | scytale_test_savannah.py:41-50 | something is staged only on status 200 with a successful scrape; any other status gives `FetchFailed` with that status, a failed scrape gives `ScrapeFailed` with the scraper's error, and in both cases the staging area is unchanged |
| Pipeline.RunStagesPage | scytale_test_savannah.py:41-48 | on status 200 a non-empty page goes to `extracted_data/repo_0.json` and nothing else changes; an empty page writes nothing |
| Pipeline.RunIdempotent | scytale_test_savannah.py:37-50 | running `main` twice on the same response leaves the staging area and outcome of one run |
| Pipeline.StagingArea.WriteJson | scytale_test_savannah.py:48 | the write replaces the contents of the batch's path and changes no other path |
| Pipeline.StagingArea.StageAll | scytale_test_savannah.py:47-48 | the `enumerate` loop leaves the staging area equal to `Stage` of the old one |
| Pipeline.StagingArea.Run | scytale_test_savannah.py:37-50 | `main` up to the schema: the new staging area and the outcome are those of `RunSpec` |

## Left out

- The HTTP GET of `f'{github_url}/repositories'` (scytale_test_savannah.py:38) is network I/O. The response is a parameter: its status code and the rows of its body.
- HTML parsing with BeautifulSoup (`find_all('li', class_='Box-row')`, `find('a', itemprop=...)`) is a foreign library. A page is the sequence of matched rows, and each row gives its first matching anchor.
- Python's `isspace` is modelled by its fixed character set. Unicode normalisation and BeautifulSoup's own text decoding are not modelled.
- The Spark session, `parallelize`/`map`/`collect` over the single response, and `createDataFrame` (scytale_test_savannah.py:9-13, 44, 48) belong to a distributed engine. The map over one element is the single call it makes. An exception inside the map is modelled as the `ScrapeFailed` outcome, with nothing written.
- JSON serialisation is not modelled. A staged path holds the batch of records itself. A Spark JSON write makes a directory of part files, and that layout is not modelled either.
- Compaction (scytale_test_savannah.py:66-69) is not modelled: the schema read of `extracted_data/*.json`, Spark's coercion of `''` into the `IntegerType` columns, and the Parquet write. Their behaviour belongs to the library. `Schema.ReadByName` models only the match of columns by name, without type coercion.
- The diagnostic print for a status other than 200 (scytale_test_savannah.py:50) is I/O. As written it raises before printing, and the model ends the run with `FetchFailed` instead.
- The `__main__` block (hard-coded URL, `show()`, `spark.stop()`, scytale_test_savannah.py:74-85) and `main`'s `return True` after compaction are not modelled.
- Failures of the file system (permissions, partial writes) are not modelled. The staging area is a map from path to batch, and every write succeeds.
