/**
 * `PdfViewerActivity`: the reading screen's own state — the page shown,
 * the page count, whether the controls are visible — and the requests it
 * sends to the view model. The requests are collected in `outbox` in the
 * order they are made.
 */
module PdfViewer {
  import opened Wrappers
  import Text
  import Progress
  import MainViewModel

  /** A call the screen makes on the view model. */
  datatype Request =
    | AddOrUpdate(uri: string, fileName: string, totalPages: int, currentPage: int, filePath: Option<string>)
    | UpdateProgress(uri: string, pageNumber: int)

  /** The texts and the bar value of the progress area. */
  datatype ProgressInfo = ProgressInfo(currentPageText: string, totalPagesText: string, progressText: string, progress: int)

  /**
   * `updateProgressInfo`: with pages, the 1-based page, the page count and
   * the whole percentage of pages reached (truncated); without pages, zeros.
   */
  function ProgressInfoFor(currentPage: int, totalPages: int): (r: ProgressInfo)
    ensures totalPages <= 0 ==> r == ProgressInfo("0", "0", "0%", 0)
    ensures totalPages > 0 ==>
      r.currentPageText == Text.IntToString(currentPage + 1) &&
      r.totalPagesText == Text.IntToString(totalPages) &&
      r.progress == Progress.WholePercent(currentPage + 1, totalPages) &&
      r.progressText == Text.IntToString(r.progress) + "%"
  {
    if totalPages > 0 then
      var progress := Progress.WholePercent(currentPage + 1, totalPages);
      ProgressInfo(Text.IntToString(currentPage + 1), Text.IntToString(totalPages), Text.IntToString(progress) + "%", progress)
    else ProgressInfo("0", "0", "0%", 0)
  }

  /**
   * On a page of the document the bar lies in 0..100, never falls when the
   * reader moves on, and is full on the last page (0-based `totalPages - 1`).
   */
  lemma ProgressInfoBounds(currentPage: int, totalPages: int)
    requires 0 <= currentPage < totalPages
    ensures 0 <= ProgressInfoFor(currentPage, totalPages).progress <= 100
    ensures currentPage == totalPages - 1 ==> ProgressInfoFor(currentPage, totalPages).progress == 100
  {
    Progress.WholePercentBounds(currentPage + 1, totalPages);
    if currentPage == totalPages - 1 {
      Progress.WholePercentFull(totalPages);
    }
  }

  /** Moving to a later page never lowers the bar. */
  lemma ProgressInfoMonotone(currentPage: int, later: int, totalPages: int)
    requires currentPage <= later
    ensures ProgressInfoFor(currentPage, totalPages).progress <= ProgressInfoFor(later, totalPages).progress
  {
    if totalPages > 0 {
      Progress.WholePercentMonotone(currentPage + 1, later + 1, totalPages);
    }
  }

  /** `extractFilePath`: the path of a `file` uri; nothing for other uris or without a uri. */
  function FilePathOf(pdfUri: Option<MainViewModel.UriInfo>): (r: Option<string>)
    ensures pdfUri.None? || pdfUri.value.scheme != Some("file") ==> r.None?
    ensures pdfUri.Some? && pdfUri.value.scheme == Some("file") ==> r == pdfUri.value.path
  {
    if pdfUri.Some? && pdfUri.value.scheme == Some("file") then pdfUri.value.path else None
  }

  /** The reading screen. */
  class Viewer {
    const pdfUri: Option<MainViewModel.UriInfo>
    const fileName: string
    const filePath: Option<string>
    var totalPages: int
    var currentPage: int
    var isUiVisible: bool
    /** `FLAG_KEEP_SCREEN_ON`: set while the controls are hidden. */
    var keepScreenOn: bool
    /** Whether the auto-hide of the controls is scheduled. */
    var hideScheduled: bool
    /** What the progress area shows. */
    var info: ProgressInfo
    /** The requests sent to the view model so far. */
    var outbox: seq<Request>

    /** The progress area always shows the current page and page count. */
    predicate Valid()
      reads this
    {
      info == ProgressInfoFor(currentPage, totalPages)
    }

    /**
     * `onCreate`: the name defaults to "Documento" and the start page to 0;
     * the path is known only for `file` uris; no pages yet, controls shown.
     */
    constructor(pdfUri: Option<MainViewModel.UriInfo>, fileNameExtra: Option<string>, currentPageExtra: Option<int>)
      ensures Valid()
      ensures this.pdfUri == pdfUri && fileName == fileNameExtra.GetOr("Documento")
      ensures currentPage == currentPageExtra.GetOr(0) && totalPages == 0
      ensures filePath == FilePathOf(pdfUri)
      ensures isUiVisible && !keepScreenOn && !hideScheduled && outbox == []
      ensures info == ProgressInfo("0", "0", "0%", 0)
    {
      this.pdfUri := pdfUri;
      fileName := fileNameExtra.GetOr("Documento");
      currentPage := currentPageExtra.GetOr(0);
      filePath := FilePathOf(pdfUri);
      totalPages := 0;
      isUiVisible := true;
      keepScreenOn := false;
      hideScheduled := false;
      info := ProgressInfoFor(currentPageExtra.GetOr(0), 0);
      outbox := [];
    }

    /** `onResume`: schedules the auto-hide. */
    method OnResume()
      modifies this
      ensures hideScheduled
      ensures totalPages == old(totalPages) && currentPage == old(currentPage) && isUiVisible == old(isUiVisible)
      ensures keepScreenOn == old(keepScreenOn) && info == old(info) && outbox == old(outbox)
    {
      hideScheduled := true;
    }

    /** `onPause`: saves the progress and cancels the auto-hide. */
    method OnPause()
      modifies this
      ensures !hideScheduled
      ensures outbox == old(outbox) + (if pdfUri.Some? then [UpdateProgress(pdfUri.value.text, currentPage)] else [])
      ensures totalPages == old(totalPages) && currentPage == old(currentPage) && isUiVisible == old(isUiVisible)
      ensures keepScreenOn == old(keepScreenOn) && info == old(info)
    {
      SaveProgress();
      hideScheduled := false;
    }

    /** `hideControls`: controls hidden, screen kept on. */
    method HideControls()
      modifies this
      ensures !isUiVisible && keepScreenOn
      ensures hideScheduled == old(hideScheduled)
      ensures totalPages == old(totalPages) && currentPage == old(currentPage) && info == old(info) && outbox == old(outbox)
    {
      isUiVisible := false;
      keepScreenOn := true;
    }

    /** `showControls`: controls shown, screen no longer kept on, auto-hide scheduled again. */
    method ShowControls()
      modifies this
      ensures isUiVisible && !keepScreenOn && hideScheduled
      ensures totalPages == old(totalPages) && currentPage == old(currentPage) && info == old(info) && outbox == old(outbox)
    {
      isUiVisible := true;
      keepScreenOn := false;
      hideScheduled := true;
    }

    /** The scheduled auto-hide firing. */
    method AutoHide()
      requires hideScheduled
      modifies this
      ensures !isUiVisible && keepScreenOn && !hideScheduled
      ensures totalPages == old(totalPages) && currentPage == old(currentPage) && info == old(info) && outbox == old(outbox)
    {
      hideScheduled := false;
      HideControls();
    }

    /** `toggleControls`, run by `onTap`: flips visibility, so two taps restore it. */
    method ToggleControls()
      modifies this
      ensures isUiVisible == !old(isUiVisible) && keepScreenOn == old(isUiVisible)
      ensures old(isUiVisible) ==> hideScheduled == old(hideScheduled)
      ensures !old(isUiVisible) ==> hideScheduled
      ensures totalPages == old(totalPages) && currentPage == old(currentPage) && info == old(info) && outbox == old(outbox)
    {
      if isUiVisible {
        HideControls();
      } else {
        ShowControls();
      }
    }

    /** `onTap`: toggles the controls and consumes the tap. */
    method OnTap() returns (handled: bool)
      modifies this
      ensures handled
      ensures isUiVisible == !old(isUiVisible)
      ensures totalPages == old(totalPages) && currentPage == old(currentPage) && info == old(info) && outbox == old(outbox)
    {
      ToggleControls();
      handled := true;
    }

    /** `loadComplete`: takes the page count, refreshes the display and registers the document at the current page. */
    method LoadComplete(nbPages: int)
      modifies this
      ensures Valid() && totalPages == nbPages && currentPage == old(currentPage)
      ensures outbox == old(outbox) +
        (if pdfUri.Some? then [AddOrUpdate(pdfUri.value.text, fileName, nbPages, currentPage, filePath)] else [])
      ensures isUiVisible == old(isUiVisible) && hideScheduled == old(hideScheduled) && keepScreenOn == old(keepScreenOn)
    {
      totalPages := nbPages;
      info := ProgressInfoFor(currentPage, totalPages);
      if pdfUri.Some? {
        outbox := outbox + [AddOrUpdate(pdfUri.value.text, fileName, totalPages, currentPage, filePath)];
      }
    }

    /** `onPageChanged`: only the page and the display change; nothing is saved until the screen pauses. */
    method OnPageChanged(page: int, pageCount: int)
      modifies this
      ensures Valid() && currentPage == page && totalPages == old(totalPages)
      ensures outbox == old(outbox)
      ensures isUiVisible == old(isUiVisible) && hideScheduled == old(hideScheduled) && keepScreenOn == old(keepScreenOn)
    {
      currentPage := page;
      info := ProgressInfoFor(currentPage, totalPages);
    }

    /** `saveProgress`: asks for the 0-based current page to be stored. */
    method SaveProgress()
      modifies this
      ensures outbox == old(outbox) + (if pdfUri.Some? then [UpdateProgress(pdfUri.value.text, currentPage)] else [])
      ensures totalPages == old(totalPages) && currentPage == old(currentPage) && info == old(info)
      ensures isUiVisible == old(isUiVisible) && hideScheduled == old(hideScheduled) && keepScreenOn == old(keepScreenOn)
    {
      if pdfUri.Some? {
        outbox := outbox + [UpdateProgress(pdfUri.value.text, currentPage)];
      }
    }
  }
}
