/**
 * `PdfRepositoryImpl`: the reading history over the `pdf_history` table,
 * kept in step with the "last opened PDF" preference.
 */
module HistoryRepository {
  import opened Wrappers
  import opened HistoryEntity
  import HistoryDao
  import HistoryJson
  import Order
  import Prefs = UserPreferences

  /** The arguments of one `addOrUpdatePdf` call: a document has just been opened or read. */
  datatype Sighting = Sighting(
    uri: string,
    fileName: string,
    totalPages: int,
    currentPage: int,
    filePath: Option<string>,
    scrollOffset: real,
    fileSizeBytes: int)

  /**
   * The `copy` of an existing row: progress, name and page count from the
   * sighting, the date `now`, accessible again; path and thumbnail only when
   * there are new ones, size only when the new one is positive; uri and
   * favourite mark untouched.
   */
  function Merge(old_: PdfHistoryEntity, s: Sighting, thumbnail: Option<string>, now: int): (r: PdfHistoryEntity)
    ensures r.uri == old_.uri && r.isFavorite == old_.isFavorite
    ensures r.lastPageRead == s.currentPage && r.scrollOffset == s.scrollOffset
    ensures r.fileName == s.fileName && r.totalPages == s.totalPages
    ensures r.lastReadDate == now && r.isAccessible
    ensures r.filePath == (if s.filePath.Some? then s.filePath else old_.filePath)
    ensures r.thumbnailPath == (if thumbnail.Some? then thumbnail else old_.thumbnailPath)
    ensures r.fileSizeBytes == (if s.fileSizeBytes > 0 then s.fileSizeBytes else old_.fileSizeBytes)
  {
    old_.(
      lastPageRead := s.currentPage,
      scrollOffset := s.scrollOffset,
      lastReadDate := now,
      fileName := s.fileName,
      totalPages := s.totalPages,
      filePath := if s.filePath.Some? then s.filePath else old_.filePath,
      thumbnailPath := if thumbnail.Some? then thumbnail else old_.thumbnailPath,
      isAccessible := true,
      fileSizeBytes := if s.fileSizeBytes > 0 then s.fileSizeBytes else old_.fileSizeBytes)
  }

  /** The row for a document seen for the first time: not a favourite, accessible. */
  function NewRow(s: Sighting, thumbnail: Option<string>, now: int): (r: PdfHistoryEntity)
    ensures r.uri == s.uri && r.fileName == s.fileName && r.totalPages == s.totalPages
    ensures r.lastPageRead == s.currentPage && r.scrollOffset == s.scrollOffset && r.lastReadDate == now
    ensures r.filePath == s.filePath && r.thumbnailPath == thumbnail && r.fileSizeBytes == s.fileSizeBytes
    ensures r.isAccessible && !r.isFavorite
  {
    PdfHistoryEntity(s.uri, s.fileName, s.totalPages, s.currentPage, s.scrollOffset, now,
                     s.fileSizeBytes, s.filePath, thumbnail, true, false)
  }

  /** The table after `addOrUpdatePdf`: the sighted row merged or created, the others kept. */
  function AddOrUpdateRows(rows: map<string, PdfHistoryEntity>, s: Sighting, thumbnail: Option<string>, now: int): (r: map<string, PdfHistoryEntity>)
    ensures r.Keys == rows.Keys + {s.uri}
    ensures forall u :: u in rows && u != s.uri ==> r[u] == rows[u]
  {
    rows[s.uri := if s.uri in rows then Merge(rows[s.uri], s, thumbnail, now) else NewRow(s, thumbnail, now)]
  }

  /** The table after inserting `list` one row after another with REPLACE. */
  function InsertAll(rows: map<string, PdfHistoryEntity>, list: seq<PdfHistoryEntity>): map<string, PdfHistoryEntity> {
    if list == [] then rows
    else InsertAll(rows, list[..|list| - 1])[list[|list| - 1].uri := list[|list| - 1]]
  }

  /** The inserts add the uris of the list and no others. */
  lemma {:induction false} InsertAllKeys(rows: map<string, PdfHistoryEntity>, list: seq<PdfHistoryEntity>)
    ensures InsertAll(rows, list).Keys == rows.Keys + set e | e in list :: e.uri
  {
    if list != [] {
      var n := |list|;
      var init := list[..n - 1];
      InsertAllKeys(rows, init);
      assert list == init + [list[n - 1]];
      assert (set e | e in list :: e.uri) == (set e | e in init :: e.uri) + {list[n - 1].uri};
    }
  }

  /** A row whose uri the list does not mention is as before. */
  lemma {:induction false} InsertAllUntouched(rows: map<string, PdfHistoryEntity>, list: seq<PdfHistoryEntity>, u: string)
    requires u in rows && forall i :: 0 <= i < |list| ==> list[i].uri != u
    ensures u in InsertAll(rows, list) && InsertAll(rows, list)[u] == rows[u]
  {
    if list != [] {
      var init := list[..|list| - 1];
      assert forall i :: 0 <= i < |init| ==> init[i].uri == list[i].uri;
      InsertAllUntouched(rows, init, u);
    }
  }

  /** Each uri of the list holds the last row the list has for it. */
  lemma {:induction false} InsertAllLast(rows: map<string, PdfHistoryEntity>, list: seq<PdfHistoryEntity>, k: nat)
    requires k < |list| && forall i :: k < i < |list| ==> list[i].uri != list[k].uri
    ensures list[k].uri in InsertAll(rows, list) && InsertAll(rows, list)[list[k].uri] == list[k]
  {
    var n := |list|;
    if k < n - 1 {
      var init := list[..n - 1];
      assert init[k] == list[k];
      assert forall i :: k < i < |init| ==> init[i] == list[i];
      InsertAllLast(rows, init, k);
    }
  }

  /** Inserting rows stored under their own uris keeps every row under its own uri. */
  lemma {:induction false} InsertAllValid(rows: map<string, PdfHistoryEntity>, list: seq<PdfHistoryEntity>)
    requires forall u :: u in rows ==> rows[u].uri == u
    ensures forall u :: u in InsertAll(rows, list) ==> InsertAll(rows, list)[u].uri == u
  {
    if list != [] {
      InsertAllValid(rows, list[..|list| - 1]);
    }
  }

  /** Re-sighting a document with the same arguments at the same moment changes nothing more. */
  lemma AddOrUpdateIdempotent(rows: map<string, PdfHistoryEntity>, s: Sighting, thumbnail: Option<string>, now: int)
    ensures AddOrUpdateRows(AddOrUpdateRows(rows, s, thumbnail, now), s, thumbnail, now) == AddOrUpdateRows(rows, s, thumbnail, now)
  {
    var once := AddOrUpdateRows(rows, s, thumbnail, now);
    var row := once[s.uri];
    assert Merge(row, s, thumbnail, now) == row;
  }

  /** The history repository: the table and the preference store it keeps in step. */
  class Repository {
    const dao: HistoryDao.Table
    const prefs: Prefs.Store

    predicate Valid()
      reads dao, prefs
    {
      dao.Valid() && prefs.Valid()
    }

    constructor(dao: HistoryDao.Table, prefs: Prefs.Store)
      requires dao.Valid() && prefs.Valid()
      ensures this.dao == dao && this.prefs == prefs && Valid()
    {
      this.dao := dao;
      this.prefs := prefs;
    }

    /** The uri the preference store holds as last opened, if any. */
    function LastOpened(): Option<string>
      reads prefs
    {
      Prefs.StringOf(prefs.prefs, Prefs.LastOpenedPdfUri)
    }

    /**
     * `addOrUpdatePdf`: merges the sighting into its row or creates one, then
     * records the uri as last opened. `thumbnail` is what thumbnail
     * generation returned and `now` the clock.
     */
    method AddOrUpdatePdf(s: Sighting, thumbnail: Option<string>, now: int)
      requires Valid()
      modifies dao, prefs
      ensures Valid()
      ensures dao.rows == AddOrUpdateRows(old(dao.rows), s, thumbnail, now)
      ensures prefs.prefs == Prefs.WithLastOpenedPdfUri(old(prefs.prefs), Some(s.uri))
      ensures LastOpened() == Some(s.uri)
    {
      var existing := dao.GetPdfByUri(s.uri);
      if existing.Some? {
        dao.Update(Merge(existing.value, s, thumbnail, now));
      } else {
        dao.Insert(NewRow(s, thumbnail, now));
      }
      prefs.SaveLastOpenedPdfUri(Some(s.uri));
    }

    /** `updateProgress`: the page and offset of that uri's row, dated `now`. */
    method UpdateProgress(uri: string, pageNumber: int, scrollOffset: real, now: int)
      requires Valid()
      modifies dao
      ensures Valid()
      ensures dao.rows == HistoryDao.UpdateWhere(old(dao.rows), uri, e => HistoryDao.WithProgress(e, pageNumber, scrollOffset, now))
    {
      dao.UpdateProgress(uri, pageNumber, scrollOffset, now);
    }

    /** `deletePdf`: the row goes; the last-opened uri is cleared only if it was this one. */
    method DeletePdf(pdf: PdfHistoryEntity)
      requires Valid()
      modifies dao, prefs
      ensures Valid()
      ensures dao.rows == old(dao.rows) - {pdf.uri}
      ensures old(LastOpened()) == Some(pdf.uri) ==> prefs.prefs == Prefs.WithLastOpenedPdfUri(old(prefs.prefs), None)
      ensures old(LastOpened()) != Some(pdf.uri) ==> prefs.prefs == old(prefs.prefs)
      ensures LastOpened() != Some(pdf.uri)
    {
      dao.DeleteByUri(pdf.uri);
      if LastOpened() == Some(pdf.uri) {
        prefs.SaveLastOpenedPdfUri(None);
      }
    }

    /** `clearAllHistory`: no rows and no last-opened uri. */
    method ClearAllHistory()
      requires Valid()
      modifies dao, prefs
      ensures Valid()
      ensures dao.rows == map[]
      ensures prefs.prefs == Prefs.WithLastOpenedPdfUri(old(prefs.prefs), None)
      ensures LastOpened() == None
    {
      dao.ClearAllHistory();
      prefs.SaveLastOpenedPdfUri(None);
    }

    /**
     * `importHistory`: on a successful read every imported row is inserted
     * with REPLACE, in order, and the result is their number; on a failure
     * nothing is inserted and the failure is passed on.
     */
    method ImportHistory(source: HistoryJson.ImportSource) returns (r: Result<int, HistoryJson.ImportError>)
      requires Valid()
      modifies dao
      ensures Valid()
      ensures HistoryJson.Import(source).Failure? ==>
        r == Failure(HistoryJson.Import(source).error) && dao.rows == old(dao.rows)
      ensures HistoryJson.Import(source).Success? ==>
        r == Success(|HistoryJson.Import(source).value|) && dao.rows == InsertAll(old(dao.rows), HistoryJson.Import(source).value)
    {
      var imported := HistoryJson.ImportHistory(source);
      if imported.Failure? {
        return Failure(imported.error);
      }
      var list := imported.value;
      var i := 0;
      while i < |list|
        invariant 0 <= i <= |list|
        invariant dao.Valid()
        invariant dao.rows == InsertAll(old(dao.rows), list[..i])
      {
        assert list[..i + 1][..i] == list[..i];
        dao.Insert(list[i]);
        i := i + 1;
      }
      assert list[..i] == list;
      r := Success(|list|);
    }

    /** `exportHistory`: every row, newest first, written as the export document. */
    method ExportHistory(now: int, sink: HistoryJson.ExportSink)
      returns (result: Result<string, string>, written: Option<HistoryJson.Json>, list: seq<PdfHistoryEntity>)
      requires Valid()
      ensures |list| == |dao.rows| && forall e :: e in list <==> e.uri in dao.rows && dao.rows[e.uri] == e
      ensures Order.SortedDesc(list, DateOf)
      ensures sink.SinkFails? ==> result == Failure(sink.msg)
      ensures !sink.SinkFails? ==> result == Success(HistoryJson.ExportMessage(|dao.rows|))
      ensures sink.Sink? ==> written == Some(HistoryJson.ExportRoot(list, now))
    {
      list := dao.GetAllPdfs();
      result, written := HistoryJson.ExportHistory(list, now, sink);
    }
  }
}
