/** `PdfItem`: the simplified record the home and history screens show. */
module PdfItemModel {
  import Progress

  datatype PdfItem = PdfItem(id: int, title: string, totalPages: int, lastReadPage: int, lastReadMillis: int)
  {
    /** `progressPercent`: the whole percentage, truncated toward zero; 0 without pages. */
    function ProgressPercent(): (p: int)
      ensures totalPages <= 0 ==> p == 0
    {
      Progress.WholePercent(lastReadPage, totalPages)
    }
  }

  /** With pages, the percentage is the exact one truncated toward zero. */
  lemma ProgressTruncates(e: PdfItem)
    requires e.totalPages > 0
    ensures e.lastReadPage >= 0 ==>
      e.ProgressPercent() as real <= Progress.ExactPercent(e.lastReadPage, e.totalPages) < e.ProgressPercent() as real + 1.0
    ensures e.lastReadPage < 0 ==>
      e.ProgressPercent() as real - 1.0 < Progress.ExactPercent(e.lastReadPage, e.totalPages) <= e.ProgressPercent() as real
  {
    Progress.WholePercentTruncates(e.lastReadPage, e.totalPages);
  }

  /** Within the document the percentage lies in 0..100 and is 100 on the last page. */
  lemma ProgressBounds(e: PdfItem)
    requires 0 <= e.lastReadPage <= e.totalPages
    ensures 0 <= e.ProgressPercent() <= 100
    ensures e.totalPages > 0 && e.lastReadPage == e.totalPages ==> e.ProgressPercent() == 100
  {
    Progress.WholePercentBounds(e.lastReadPage, e.totalPages);
    if e.totalPages > 0 && e.lastReadPage == e.totalPages {
      Progress.WholePercentFull(e.totalPages);
    }
  }

  /** Reading further never lowers the percentage. */
  lemma ProgressMonotone(e: PdfItem, later: int)
    requires e.lastReadPage <= later
    ensures e.ProgressPercent() <= e.(lastReadPage := later).ProgressPercent()
  {
    Progress.WholePercentMonotone(e.lastReadPage, later, e.totalPages);
  }
}
