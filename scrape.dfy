/**
 * `scrape_repo_info`: turns the rows of a repository listing page into one
 * repository record per row, in document order.
 *
 * The parsed HTML is abstracted as the ordered sequence of the `li.Box-row`
 * items that `find_all` matches. Each item carries the first `<a>` whose
 * `itemprop` is `name codeRepository`, or none; that anchor carries its text
 * nodes and its `href` attribute, if it has one.
 */
module Scrape {
  import opened Wrappers
  import opened Text

  datatype Anchor = Anchor(texts: seq<string>, href: Option<string>)

  datatype Row = Row(nameAnchor: Option<Anchor>)

  /** The pair `(response, github_url)` handed to the scraper, with the body already split into rows. */
  datatype Page = Page(rows: seq<Row>, sourceUrl: string)

  /** One repository dictionary, field by field in the order `scrape_repo_info` builds it (lines 23-30). */
  datatype RepoRecord = RepoRecord(
    repositoryName: string,
    repositoryId: string,
    organizationName: string,
    numPrs: string,
    numPrsMerged: string,
    mergedAt: string,
    repositoryOwner: string,
    isCompliant: string)

  /**
   * Why a call fails. `MissingNameAnchor`: `find` returned `None` and was
   * dereferenced (an `AttributeError`). `MissingHref`: the anchor has no
   * `href` (a `KeyError`). Python's exceptions carry no row index: only
   * their type tells the two cases apart. The index of the offending row
   * is added by this model, so that the lemmas can say which row failed.
   */
  datatype ScrapeError = MissingNameAnchor(row: nat) | MissingHref(row: nat)

  const SiteOrigin: string := "https://github.com"

  /** A row the scraper can turn into a record. */
  predicate WellFormed(row: Row) {
    row.nameAnchor.Some? && row.nameAnchor.value.href.Some?
  }

  /** The dictionary built for the row at index `idx`, or the error raised while building it. */
  function RepoInfo(row: Row, idx: nat, sourceUrl: string): Result<RepoRecord, ScrapeError> {
    match row.nameAnchor
    case None => Failure(MissingNameAnchor(idx))
    case Some(a) =>
      match a.href
      case None => Failure(MissingHref(idx))
      case Some(h) =>
        Success(RepoRecord(GetTextStripped(a.texts), SiteOrigin + h, LastSegment(sourceUrl), "", "", "", "", ""))
  }

  /** The outcome of scraping the first `|rows|` rows: the records so far, or the first error. */
  function Extract(rows: seq<Row>, sourceUrl: string): Result<seq<RepoRecord>, ScrapeError> {
    if rows == [] then Success([])
    else
      match Extract(rows[..|rows| - 1], sourceUrl)
      case Failure(e) => Failure(e)
      case Success(done) =>
        match RepoInfo(rows[|rows| - 1], |rows| - 1, sourceUrl)
        case Failure(e) => Failure(e)
        case Success(rec) => Success(done + [rec])
  }

  /** `scrape_repo_info`: appends one record per row and stops at the first row it cannot read. */
  method ScrapeRepoInfo(page: Page) returns (r: Result<seq<RepoRecord>, ScrapeError>)
    ensures r == Extract(page.rows, page.sourceUrl)
  {
    var rows := page.rows;
    var repoList: seq<RepoRecord> := [];
    for i := 0 to |rows|
      invariant Extract(rows[..i], page.sourceUrl) == Success(repoList)
    {
      assert rows[..i + 1][..i] == rows[..i];
      var repoInfo := RepoInfo(rows[i], i, page.sourceUrl);
      if repoInfo.Failure? {
        ExtractFailurePersists(rows, i + 1, page.sourceUrl);
        return Failure(repoInfo.error);
      }
      repoList := repoList + [repoInfo.value];
    }
    assert rows[..|rows|] == rows;
    return Success(repoList);
  }

  /** Once a prefix of the rows fails, the whole call fails with the same error. */
  lemma {:induction false} ExtractFailurePersists(rows: seq<Row>, k: nat, sourceUrl: string)
    requires k <= |rows|
    requires Extract(rows[..k], sourceUrl).Failure?
    ensures Extract(rows, sourceUrl) == Extract(rows[..k], sourceUrl)
  {
    if k < |rows| {
      var init := rows[..|rows| - 1];
      assert init[..k] == rows[..k];
      ExtractFailurePersists(init, k, sourceUrl);
    } else {
      assert rows[..k] == rows;
    }
  }

  /** A page without matched rows gives the empty list, not an error. */
  lemma ExtractEmptyPage(sourceUrl: string)
    ensures Extract([], sourceUrl) == Success([])
  {
  }

  /** The call succeeds exactly when every matched row has a name anchor with an `href`. */
  lemma {:induction false} ExtractSucceedsIff(rows: seq<Row>, sourceUrl: string)
    ensures Extract(rows, sourceUrl).Success? <==> forall i :: 0 <= i < |rows| ==> WellFormed(rows[i])
  {
    if rows != [] {
      var init := rows[..|rows| - 1];
      ExtractSucceedsIff(init, sourceUrl);
      ExtractStep(rows, sourceUrl);
      assert forall i :: 0 <= i < |init| ==> init[i] == rows[i];
      assert rows == init + [rows[|rows| - 1]];
    }
  }

  /** One more row succeeds exactly when the rows before it do and it is well formed. */
  lemma ExtractStep(rows: seq<Row>, sourceUrl: string)
    requires rows != []
    ensures Extract(rows, sourceUrl).Success?
        <==> Extract(rows[..|rows| - 1], sourceUrl).Success? && WellFormed(rows[|rows| - 1])
  {
  }

  /**
   * On success there is exactly one record per row, in document order, and
   * the record at index `i` is the one built from row `i`.
   */
  lemma {:induction false} ExtractOneRecordPerRow(rows: seq<Row>, sourceUrl: string)
    requires Extract(rows, sourceUrl).Success?
    ensures var recs := Extract(rows, sourceUrl).value;
      && |recs| == |rows|
      && forall i :: 0 <= i < |rows| ==> RepoInfo(rows[i], i, sourceUrl) == Success(recs[i])
  {
    if rows != [] {
      var init := rows[..|rows| - 1];
      ExtractOneRecordPerRow(init, sourceUrl);
      assert forall i :: 0 <= i < |init| ==> init[i] == rows[i];
    }
  }

  /**
   * On failure the error names the first row that is not well formed, says
   * which of the two lookups failed on it, and no partial list is returned.
   */
  lemma {:induction false} ExtractFailsAtFirstBadRow(rows: seq<Row>, sourceUrl: string)
    requires Extract(rows, sourceUrl).Failure?
    ensures var e := Extract(rows, sourceUrl).error;
      && e.row < |rows|
      && !WellFormed(rows[e.row])
      && (e.MissingNameAnchor? <==> rows[e.row].nameAnchor.None?)
      && forall j :: 0 <= j < e.row ==> WellFormed(rows[j])
  {
    var init := rows[..|rows| - 1];
    assert forall i :: 0 <= i < |init| ==> init[i] == rows[i];
    if Extract(init, sourceUrl).Failure? {
      ExtractFailsAtFirstBadRow(init, sourceUrl);
    } else {
      ExtractSucceedsIff(init, sourceUrl);
    }
  }

  /**
   * The record's name has no whitespace at either end, keeps every
   * non-space character of the anchor's text nodes in order, and for a
   * single text node is that node, stripped.
   */
  lemma RepoInfoName(row: Row, idx: nat, sourceUrl: string)
    requires WellFormed(row)
    ensures RepoInfo(row, idx, sourceUrl).Success?
    ensures var name, a := RepoInfo(row, idx, sourceUrl).value.repositoryName, row.nameAnchor.value;
      && (name == [] || (!IsSpace(name[0]) && !IsSpace(name[|name| - 1])))
      && Squeeze(name) == Squeeze(Concat(a.texts))
      && (|a.texts| == 1 ==> name == Strip(a.texts[0]))
  {
    var a := row.nameAnchor.value;
    var name := RepoInfo(row, idx, sourceUrl).value.repositoryName;
    assert name == GetTextStripped(a.texts);
    GetTextStrippedTrimmed(a.texts);
    GetTextStrippedKeepsContent(a.texts);
    if |a.texts| == 1 {
      assert a.texts == [a.texts[0]];
      GetTextStrippedSingle(a.texts[0]);
    }
  }

  /** The record's id starts with the site origin, and what follows it is the anchor's `href`. */
  lemma RepoInfoId(row: Row, idx: nat, sourceUrl: string)
    requires WellFormed(row)
    ensures RepoInfo(row, idx, sourceUrl).Success?
    ensures var id := RepoInfo(row, idx, sourceUrl).value.repositoryId;
      && |SiteOrigin| <= |id|
      && id[..|SiteOrigin|] == "https://github.com"
      && id[|SiteOrigin|..] == row.nameAnchor.value.href.value
  {
  }

  /**
   * The record's organisation name holds no `/`, ends the source URL, and
   * is either the whole URL or what follows its final `/`.
   */
  lemma RepoInfoOrganization(row: Row, idx: nat, sourceUrl: string)
    requires WellFormed(row)
    ensures RepoInfo(row, idx, sourceUrl).Success?
    ensures var org := RepoInfo(row, idx, sourceUrl).value.organizationName;
      && '/' !in org
      && |org| <= |sourceUrl|
      && org == sourceUrl[|sourceUrl| - |org|..]
      && ('/' !in sourceUrl ==> org == sourceUrl)
      && ('/' in sourceUrl ==> |org| < |sourceUrl| && sourceUrl[|sourceUrl| - |org| - 1] == '/')
  {
    LastSegmentSpec(sourceUrl);
  }

  /** Every record of one successful call names the same organisation, the last segment of the source URL. */
  lemma ExtractSameOrganization(rows: seq<Row>, sourceUrl: string)
    requires Extract(rows, sourceUrl).Success?
    ensures var recs := Extract(rows, sourceUrl).value;
      forall i :: 0 <= i < |recs| ==> recs[i].organizationName == LastSegment(sourceUrl)
  {
    ExtractOneRecordPerRow(rows, sourceUrl);
  }

  /** Every record of a successful call leaves the five placeholder fields empty. */
  lemma ExtractPlaceholdersEmpty(rows: seq<Row>, sourceUrl: string)
    requires Extract(rows, sourceUrl).Success?
    ensures var recs := Extract(rows, sourceUrl).value;
      forall i :: 0 <= i < |recs| ==>
        recs[i].numPrs == recs[i].numPrsMerged == recs[i].mergedAt == recs[i].repositoryOwner == recs[i].isCompliant == ""
  {
    ExtractOneRecordPerRow(rows, sourceUrl);
  }
}

module ScrapeScenario {
  import opened Wrappers
  import opened Text
  import opened Scrape

  /**
   * Two well-formed rows under `https://github.com/orgs/octo-org` give two
   * records for organisation `octo-org`, in page order, with the name text
   * stripped and empty placeholders.
   */
  lemma OctoOrgPage()
    ensures Extract([
        Row(Some(Anchor([" octo-repo\n"], Some("/octo-org/octo-repo")))),
        Row(Some(Anchor(["demo-repo"], Some("/octo-org/demo-repo"))))],
      "https://github.com/orgs/octo-org")
      == Success([
        RepoRecord("octo-repo", "https://github.com/octo-org/octo-repo", "octo-org", "", "", "", "", ""),
        RepoRecord("demo-repo", "https://github.com/octo-org/demo-repo", "octo-org", "", "", "", "", "")])
  {
    assert SiteOrigin + "/octo-org/octo-repo" == "https://github.com/octo-org/octo-repo";
    assert SiteOrigin + "/octo-org/demo-repo" == "https://github.com/octo-org/demo-repo";
    var url := "https://github.com/orgs/octo-org";
    var r0 := Row(Some(Anchor([" octo-repo\n"], Some("/octo-org/octo-repo"))));
    var r1 := Row(Some(Anchor(["demo-repo"], Some("/octo-org/demo-repo"))));
    OctoOrgName();
    OctoRepoText();
    DemoRepoText();
    ExtractTwoRows(r0, r1, url);
  }

  /** Two well-formed rows give the two records built from them, in order. */
  lemma ExtractTwoRows(r0: Row, r1: Row, url: string)
    requires WellFormed(r0) && WellFormed(r1)
    ensures Extract([r0, r1], url) == Success([RepoInfo(r0, 0, url).value, RepoInfo(r1, 1, url).value])
  {
    var rec0, rec1 := RepoInfo(r0, 0, url).value, RepoInfo(r1, 1, url).value;
    assert [r0][..0] == [];
    assert Extract([], url) == Success([]);
    assert [] + [rec0] == [rec0];
    assert Extract([r0], url) == Success([] + [rec0]);
    assert [r0, r1][..1] == [r0];
    assert [rec0] + [rec1] == [rec0, rec1];
    assert Extract([r0, r1], url) == Success([rec0] + [rec1]);
  }

  lemma OctoRepoText()
    ensures GetTextStripped([" octo-repo\n"]) == "octo-repo"
  {
    var t := " octo-repo\n";
    GetTextStrippedSingle(t);
    assert IsSpace(t[0]) && IsSpace(t[10]) && !IsSpace(t[1]) && !IsSpace(t[9]);
    assert IsStrippedInfix(t, 1, 10);
    StripUnique(t, 1, 10);
    assert t[1..10] == "octo-repo";
  }

  lemma DemoRepoText()
    ensures GetTextStripped(["demo-repo"]) == "demo-repo"
  {
    var t := "demo-repo";
    GetTextStrippedSingle(t);
    assert !IsSpace(t[0]) && !IsSpace(t[8]);
    assert IsStrippedInfix(t, 0, 9);
    StripUnique(t, 0, 9);
    assert t[0..9] == t;
  }

  /** The organisation of `https://github.com/orgs/octo-org` is `octo-org`. */
  lemma OctoOrgName()
    ensures LastSegment("https://github.com/orgs/octo-org") == "octo-org"
  {
    var parts := ["https:", "", "github.com", "orgs", "octo-org"];
    assert Join(parts, '/') == "https://github.com/orgs/octo-org";
    SplitJoin(parts, '/');
  }
}
