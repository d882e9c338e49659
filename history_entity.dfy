/** The `pdf_history` row: one opened document and where its reader left off. */
module HistoryEntity {
  import opened Wrappers
  import Progress

  /**
   * `PdfHistoryEntity`. `uri` is the primary key; `lastReadDate` is in
   * milliseconds since the epoch; `scrollOffset` is a `Float` in the app and
   * a `real` here.
   */
  datatype PdfHistoryEntity = PdfHistoryEntity(
    uri: string,
    fileName: string,
    totalPages: int,
    lastPageRead: int,
    scrollOffset: real,
    lastReadDate: int,
    fileSizeBytes: int,
    filePath: Option<string>,
    thumbnailPath: Option<string>,
    isAccessible: bool,
    isFavorite: bool)
  {
    /**
     * `progressPercentage`: `lastPageRead / totalPages × 100` when the page
     * count is positive, else 0. Nothing clamps it to 100.
     */
    function ProgressPercentage(): (p: real)
      ensures totalPages > 0 ==> p * totalPages as real == lastPageRead as real * 100.0
      ensures totalPages <= 0 ==> p == 0.0
    {
      Progress.ExactPercent(lastPageRead, totalPages)
    }
  }

  /** The date a row is ordered by. */
  function DateOf(e: PdfHistoryEntity): int {
    e.lastReadDate
  }

  /** The primary key of a row. */
  function UriOf(e: PdfHistoryEntity): string {
    e.uri
  }

  /**
   * The entity built with only the required fields, as the constructor's
   * defaults fill the rest; `now` stands for `System.currentTimeMillis()`.
   */
  function NewEntity(uri: string, fileName: string, totalPages: int, now: int): (e: PdfHistoryEntity)
    ensures e.uri == uri && e.fileName == fileName && e.totalPages == totalPages
    ensures e.lastPageRead == 0 && e.scrollOffset == 0.0 && e.lastReadDate == now
    ensures e.fileSizeBytes == 0 && e.filePath == None && e.thumbnailPath == None
    ensures e.isAccessible && !e.isFavorite
    ensures e.ProgressPercentage() == 0.0
  {
    PdfHistoryEntity(uri, fileName, totalPages, 0, 0.0, now, 0, None, None, true, false)
  }

  /** The entity as the tests build it: required fields plus a last page read. */
  function AtPage(totalPages: int, lastPageRead: int): PdfHistoryEntity {
    NewEntity("test://pdf", "Test PDF", totalPages, 0).(lastPageRead := lastPageRead)
  }

  /** The percentages the unit tests expect, computed exactly. */
  lemma ProgressExamples()
    ensures AtPage(100, 25).ProgressPercentage() == 25.0
    ensures AtPage(50, 0).ProgressPercentage() == 0.0
    ensures AtPage(20, 20).ProgressPercentage() == 100.0
    ensures AtPage(0, 0).ProgressPercentage() == 0.0
    ensures AtPage(10, 1).ProgressPercentage() == 10.0
    ensures AtPage(100, 33).ProgressPercentage() == 33.0
    ensures AtPage(200, 150).ProgressPercentage() == 75.0
    ensures 22.12 <= AtPage(45, 10).ProgressPercentage() <= 22.32
  {
  }

  /** Without pages the progress is 0 whatever page was last read. */
  lemma ProgressWithoutPages(e: PdfHistoryEntity)
    requires e.totalPages <= 0
    ensures e.ProgressPercentage() == 0.0
  {
  }

  /** From no page to every page the progress stays within 0..100 and reaches 100 at the end. */
  lemma ProgressBounds(e: PdfHistoryEntity)
    requires 0 <= e.lastPageRead <= e.totalPages
    ensures 0.0 <= e.ProgressPercentage() <= 100.0
    ensures e.totalPages > 0 && e.lastPageRead == e.totalPages ==> e.ProgressPercentage() == 100.0
  {
    Progress.ExactPercentBounds(e.lastPageRead, e.totalPages);
    if e.totalPages > 0 && e.lastPageRead == e.totalPages {
      var t := e.totalPages as real;
      var p := e.ProgressPercentage();
      assert (p - 100.0) * t == 0.0;
    }
  }

  /** Past the last page the progress exceeds 100: there is no clamping. */
  lemma ProgressNotClamped(e: PdfHistoryEntity)
    requires 0 < e.totalPages < e.lastPageRead
    ensures e.ProgressPercentage() > 100.0
  {
    var t := e.totalPages as real;
    var p := e.ProgressPercentage();
    assert p * t == e.lastPageRead as real * 100.0;
    assert e.lastPageRead as real * 100.0 > t * 100.0;
  }
}
