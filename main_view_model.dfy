/**
 * `MainViewModel`: the naming and path rules applied to a picked document,
 * and the choices of which history row the screens open.
 */
module MainViewModel {
  import opened Wrappers
  import opened Text
  import opened HistoryEntity
  import HistoryRepository
  import Order
  import UserPreferences

  /**
   * What the model needs of an `android.net.Uri`: its string form, its
   * scheme, its decoded path segments and its decoded path.
   */
  datatype UriInfo = UriInfo(text: string, scheme: Option<string>, pathSegments: seq<string>, path: Option<string>)

  /** `lastPathSegment`: the last path segment, or `null` without segments. */
  function LastPathSegment(u: UriInfo): (r: Option<string>)
    ensures r.None? <==> u.pathSegments == []
    ensures r.Some? ==> r.value == u.pathSegments[|u.pathSegments| - 1]
  {
    if u.pathSegments == [] then None else Some(u.pathSegments[|u.pathSegments| - 1])
  }

  /** The naming rule: a name mentioning `.pdf` in any case is kept, any other gets `.pdf` appended. */
  function PdfName(segment: string): (r: string)
    ensures ContainsIgnoreCase(r, ".pdf")
    ensures StartsWith(r, segment)
  {
    if ContainsIgnoreCase(segment, ".pdf") then segment
    else
      ContainsOwnSuffix(segment, ".pdf");
      assert (segment + ".pdf")[..|segment|] == segment;
      segment + ".pdf"
  }

  /**
   * `getDefaultFileName`: the rule applied to the last segment, or to
   * "documento" without one; the name begins with that text and mentions `.pdf`.
   */
  function DefaultFileName(u: UriInfo): (r: string)
    ensures ContainsIgnoreCase(r, ".pdf")
    ensures LastPathSegment(u).Some? ==> StartsWith(r, LastPathSegment(u).value)
    ensures LastPathSegment(u).None? ==> StartsWith(r, "documento")
  {
    PdfName(LastPathSegment(u).GetOr("documento"))
  }

  /**
   * The rule always yields a name mentioning `.pdf` (ignoring case), keeps
   * names that already do, and otherwise only appends.
   */
  lemma PdfNameShape(segment: string)
    ensures ContainsIgnoreCase(PdfName(segment), ".pdf")
    ensures ContainsIgnoreCase(segment, ".pdf") ==> PdfName(segment) == segment
    ensures !ContainsIgnoreCase(segment, ".pdf") ==> PdfName(segment) == segment + ".pdf"
  {
  }

  /** Applying the rule to its own result changes nothing. */
  lemma PdfNameIdempotent(segment: string)
    ensures PdfName(PdfName(segment)) == PdfName(segment)
  {
    PdfNameShape(segment);
  }

  /** A uri without path segments is named "documento.pdf". */
  lemma DefaultFileNameWithoutSegment(u: UriInfo)
    requires u.pathSegments == []
    ensures DefaultFileName(u) == "documento.pdf"
  {
    var d := "documento";
    assert !ContainsIgnoreCase(d, ".pdf") by {
      forall i | 0 <= i <= |d| - 4 ensures !RegionMatchesIgnoreCase(d, i, ".pdf") {
        assert 'a' <= d[i] <= 'z';
        assert !CharEqualsIgnoreCase(d[i + 0], ".pdf"[0]);
      }
    }
  }

  /** Where content uris of the external storage provider point. */
  const StorageRoot: string := "/storage/emulated/0/"

  /**
   * `extractFilePathFromUri`: for a content uri whose last segment holds
   * `:`, the storage root followed by the second `:`-separated part; for a
   * file uri its path; otherwise the uri itself.
   */
  function ExtractFilePath(u: UriInfo): (r: string)
    ensures r == u.text || (u.scheme == Some("file") && u.path == Some(r)) ||
      (u.scheme == Some("content") && StartsWith(r, StorageRoot))
  {
    if u.scheme == Some("content") then
      if u.pathSegments != [] && ':' in u.pathSegments[|u.pathSegments| - 1] then
        var parts := Split(u.pathSegments[|u.pathSegments| - 1], ':');
        if |parts| > 1 then StorageRoot + parts[1] else u.text
      else u.text
    else if u.scheme == Some("file") then u.path.GetOr(u.text)
    else u.text
  }

  /**
   * A content uri whose last segment holds `:` maps into the storage root:
   * the text after the first `:` and up to the next `:` (or the end);
   * anything after a second `:` is dropped.
   */
  lemma ContentPath(u: UriInfo)
    requires u.scheme == Some("content") && u.pathSegments != []
    requires ':' in u.pathSegments[|u.pathSegments| - 1]
    ensures var seg := u.pathSegments[|u.pathSegments| - 1];
      var i := IndexOfChar(seg, ':');
      var part := Split(seg, ':')[1];
      var j := i + 1 + |part|;
      ExtractFilePath(u) == StorageRoot + part &&
      j <= |seg| && seg[i + 1..j] == part && ':' !in part && (j == |seg| || seg[j] == ':')
  {
    var seg := u.pathSegments[|u.pathSegments| - 1];
    SplitSecond(seg, ':');
    var i := IndexOfChar(seg, ':');
    var j := i + 1 + |Split(seg, ':')[1]|;
    assert Split(seg, ':')[1] == seg[i + 1..j];
    assert ExtractFilePath(u) == StorageRoot + Split(seg, ':')[1];
  }

  /** Every other uri maps to its path (file uris with one) or to itself. */
  lemma OtherPaths(u: UriInfo)
    ensures u.scheme == Some("file") ==> ExtractFilePath(u) == (if u.path.Some? then u.path.value else u.text)
    ensures u.scheme != Some("content") && u.scheme != Some("file") ==> ExtractFilePath(u) == u.text
    ensures u.scheme == Some("content") && (u.pathSegments == [] || ':' !in u.pathSegments[|u.pathSegments| - 1]) ==>
      ExtractFilePath(u) == u.text
  {
  }

  /**
   * `extractRealFileNameFromUri`, given what the content resolver reports
   * as display name (`None` when the query yields no cursor, row, column or
   * value): content uris take that name or the default one, file uris their
   * last segment or "documento.pdf", other uris the default name.
   */
  function RealFileName(u: UriInfo, displayName: Option<string>): (r: string)
    ensures u.scheme == Some("content") && displayName.Some? ==> r == displayName.value
    ensures u.scheme == Some("file") ==> r == LastPathSegment(u).GetOr("documento.pdf")
    ensures u.scheme != Some("file") && (u.scheme != Some("content") || displayName.None?) ==>
      r == DefaultFileName(u) && ContainsIgnoreCase(r, ".pdf")
  {
    PdfNameShape(LastPathSegment(u).GetOr("documento"));
    if u.scheme == Some("content") then displayName.GetOr(DefaultFileName(u))
    else if u.scheme == Some("file") then LastPathSegment(u).GetOr("documento.pdf")
    else DefaultFileName(u)
  }

  /** The sighting `addPdfToHistory` registers: no pages yet, page 0, offset 0. */
  function PickedSighting(u: UriInfo, displayName: Option<string>, fileSize: int): (s: HistoryRepository.Sighting)
    ensures s.uri == u.text && s.fileName == RealFileName(u, displayName)
    ensures s.totalPages == 0 && s.currentPage == 0 && s.scrollOffset == 0.0
    ensures s.filePath == Some(ExtractFilePath(u)) && s.fileSizeBytes == fileSize
  {
    HistoryRepository.Sighting(u.text, RealFileName(u, displayName), 0, 0, Some(ExtractFilePath(u)), 0.0, fileSize)
  }

  /** The position of the first accessible row, or -1. */
  function FirstAccessibleIndex(list: seq<PdfHistoryEntity>): (k: int)
    ensures -1 <= k < |list|
    ensures k >= 0 ==> list[k].isAccessible && forall j :: 0 <= j < k ==> !list[j].isAccessible
    ensures k < 0 ==> forall j :: 0 <= j < |list| ==> !list[j].isAccessible
  {
    if list == [] then -1
    else if list[0].isAccessible then 0
    else
      var k := FirstAccessibleIndex(list[1..]);
      if k < 0 then -1 else k + 1
  }

  /** `firstOrNull { it.isAccessible }`. */
  function FirstAccessible(list: seq<PdfHistoryEntity>): (r: Option<PdfHistoryEntity>)
    ensures r.None? <==> forall i :: 0 <= i < |list| ==> !list[i].isAccessible
    ensures r.Some? ==>
      exists i :: 0 <= i < |list| && list[i] == r.value && r.value.isAccessible &&
        forall j :: 0 <= j < i ==> !list[j].isAccessible
  {
    var k := FirstAccessibleIndex(list);
    if k < 0 then None else Some(list[k])
  }

  /** The callback form of `getMostRecentPdf`: the first accessible row of the shown list (empty when unset). */
  function MostRecentAccessible(shown: Option<seq<PdfHistoryEntity>>): (r: Option<PdfHistoryEntity>)
    ensures r.None? <==> shown.None? || forall i :: 0 <= i < |shown.value| ==> !shown.value[i].isAccessible
    ensures r.Some? ==> shown.Some? && r.value in shown.value && r.value.isAccessible
    ensures r.Some? ==>
      exists k :: 0 <= k < |shown.value| && shown.value[k] == r.value &&
        forall j :: 0 <= j < k ==> !shown.value[j].isAccessible
  {
    FirstAccessible(shown.GetOr([]))
  }

  /**
   * On the list as the history observer delivers it, newest first, the
   * first accessible row is the most recent accessible one: no accessible
   * row was read later.
   */
  lemma MostRecentAccessibleIsNewest(shown: seq<PdfHistoryEntity>)
    requires Order.SortedDesc(shown, DateOf)
    ensures var r := MostRecentAccessible(Some(shown));
      r.Some? ==> forall i :: 0 <= i < |shown| && shown[i].isAccessible ==> shown[i].lastReadDate <= r.value.lastReadDate
  {
    var r := MostRecentAccessible(Some(shown));
    if r.Some? {
      var k :| 0 <= k < |shown| && shown[k] == r.value && forall j :: 0 <= j < k ==> !shown[j].isAccessible;
      forall i | 0 <= i < |shown| && shown[i].isAccessible ensures shown[i].lastReadDate <= r.value.lastReadDate {
        if i != k {
          assert k < i;
          assert DateOf(shown[k]) >= DateOf(shown[i]);
        }
      }
    }
  }

  /** `maxByOrNull { it.lastReadDate }`: the position of the first row with the newest date. */
  function MaxDateIndex(list: seq<PdfHistoryEntity>): (k: nat)
    requires list != []
    ensures k < |list|
    ensures forall i :: 0 <= i < |list| ==> list[i].lastReadDate <= list[k].lastReadDate
    ensures forall j :: 0 <= j < k ==> list[j].lastReadDate < list[k].lastReadDate
  {
    if |list| == 1 then 0
    else
      var init := list[..|list| - 1];
      var m := MaxDateIndex(init);
      assert forall i :: 0 <= i < |init| ==> init[i] == list[i];
      if list[m].lastReadDate < list[|list| - 1].lastReadDate then |list| - 1 else m
  }

  /** `getLastReadPdf`: a row with the newest date, the first of several; `null` for an empty or unset list. */
  function LastReadPdf(shown: Option<seq<PdfHistoryEntity>>): (r: Option<PdfHistoryEntity>)
    ensures r.None? <==> shown.None? || shown.value == []
    ensures r.Some? ==>
      exists k :: (0 <= k < |shown.value| && shown.value[k] == r.value &&
        (forall i :: 0 <= i < |shown.value| ==> shown.value[i].lastReadDate <= r.value.lastReadDate) &&
        (forall j :: 0 <= j < k ==> shown.value[j].lastReadDate < r.value.lastReadDate))
  {
    if shown.None? || shown.value == [] then None
    else
      var k := MaxDateIndex(shown.value);
      Some(shown.value[k])
  }

  /** The view model over the history repository. */
  class ViewModel {
    const repository: HistoryRepository.Repository
    /** `_isLoading.value`. */
    var isLoading: bool

    constructor(repository: HistoryRepository.Repository)
      ensures this.repository == repository && !isLoading
    {
      this.repository := repository;
      isLoading := false;
    }

    /**
     * `addPdfToHistory`: registers the picked document under its uri with
     * the derived name, path and size, and is no longer loading afterwards.
     * `displayName` and `fileSize` are what the content resolver reports
     * (`fileSize` 0 when it reports nothing), `thumbnail` what thumbnail
     * generation returned.
     */
    method AddPdfToHistory(u: UriInfo, displayName: Option<string>, fileSize: int, thumbnail: Option<string>, now: int)
      requires repository.Valid()
      modifies this, repository.dao, repository.prefs
      ensures repository.Valid() && !isLoading
      ensures repository.dao.rows ==
        HistoryRepository.AddOrUpdateRows(old(repository.dao.rows), PickedSighting(u, displayName, fileSize), thumbnail, now)
      ensures repository.LastOpened() == Some(u.text)
      ensures repository.prefs.prefs == UserPreferences.WithLastOpenedPdfUri(old(repository.prefs.prefs), Some(u.text))
    {
      isLoading := true;
      var s := PickedSighting(u, displayName, fileSize);
      repository.AddOrUpdatePdf(s, thumbnail, now);
      isLoading := false;
    }

    /**
     * `getLastOpenedPdf`: the row of the stored last-opened uri when that is
     * not blank (`null` if the row is gone, with no fallback); otherwise a
     * row with the newest date.
     */
    method GetLastOpenedPdf() returns (r: Option<PdfHistoryEntity>)
      requires repository.Valid()
      ensures !IsNullOrBlank(repository.LastOpened()) ==>
        var uri := repository.LastOpened().value;
        (r.Some? <==> uri in repository.dao.rows) && (r.Some? ==> r.value == repository.dao.rows[uri])
      ensures IsNullOrBlank(repository.LastOpened()) ==>
        (r.None? <==> repository.dao.rows == map[]) &&
        (r.Some? ==>
          r.value.uri in repository.dao.rows && repository.dao.rows[r.value.uri] == r.value &&
          forall u :: u in repository.dao.rows ==> repository.dao.rows[u].lastReadDate <= r.value.lastReadDate)
    {
      var last := repository.LastOpened();
      if !IsNullOrBlank(last) {
        r := repository.dao.GetPdfByUri(last.value);
      } else {
        r := repository.dao.GetMostRecentPdf();
      }
    }
  }
}
