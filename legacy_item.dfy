/** `PdfHistoryItem`: the record of the older, list-based history. */
module LegacyItem {
  import Progress

  /**
   * One document in the older history; `lastReadDate` is a `Date`, held
   * here as its milliseconds since the epoch.
   */
  datatype PdfHistoryItem = PdfHistoryItem(
    uri: string,
    fileName: string,
    totalPages: int,
    lastPageRead: int,
    lastReadDate: int,
    fileSizeBytes: int)
  {
    /** `progressPercentage`: `lastPageRead / totalPages × 100`, or 0 without pages. */
    function ProgressPercentage(): (p: real)
      ensures totalPages > 0 ==> p * totalPages as real == lastPageRead as real * 100.0
      ensures totalPages <= 0 ==> p == 0.0
    {
      Progress.ExactPercent(lastPageRead, totalPages)
    }
  }

  /** The date the list is ordered by. */
  function ItemDate(e: PdfHistoryItem): int {
    e.lastReadDate
  }

  /** The identity the list is searched by. */
  function ItemUri(e: PdfHistoryItem): string {
    e.uri
  }

  /** The item built from its required fields; `now` stands for `Date()`. */
  function NewItem(uri: string, fileName: string, totalPages: int, now: int): (e: PdfHistoryItem)
    ensures e.uri == uri && e.fileName == fileName && e.totalPages == totalPages
    ensures e.lastPageRead == 0 && e.fileSizeBytes == 0 && e.lastReadDate == now
    ensures e.ProgressPercentage() == 0.0
  {
    PdfHistoryItem(uri, fileName, totalPages, 0, now, 0)
  }

  /** The last page read gives exactly 100. */
  lemma ProgressFull(e: PdfHistoryItem)
    requires e.totalPages > 0 && e.lastPageRead == e.totalPages
    ensures e.ProgressPercentage() == 100.0
  {
    Progress.ExactPercentBounds(e.lastPageRead, e.totalPages);
    var t := e.totalPages as real;
    var p := e.ProgressPercentage();
    assert (p - 100.0) * t == 0.0;
  }

  /** Within the document the progress stays within 0..100. */
  lemma ProgressBounds(e: PdfHistoryItem)
    requires 0 <= e.lastPageRead <= e.totalPages
    ensures 0.0 <= e.ProgressPercentage() <= 100.0
  {
    Progress.ExactPercentBounds(e.lastPageRead, e.totalPages);
  }
}
