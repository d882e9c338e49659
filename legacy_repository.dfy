/**
 * The older `PdfRepository`: the history as a list held in memory, saved
 * sorted, newest first, under the `pdfs` key of the `pdf_history` shared
 * preferences.
 */
module LegacyRepository {
  import opened Wrappers
  import opened LegacyItem
  import Order

  /** `indexOfFirst { it.uri == uri }`: the first position holding `uri`, or -1. */
  function IndexOfFirst(list: seq<PdfHistoryItem>, uri: string): (i: int)
    ensures -1 <= i < |list|
    ensures i >= 0 ==> list[i].uri == uri && forall j :: 0 <= j < i ==> list[j].uri != uri
    ensures i < 0 ==> forall j :: 0 <= j < |list| ==> list[j].uri != uri
  {
    if list == [] then -1
    else if list[0].uri == uri then 0
    else
      var k := IndexOfFirst(list[1..], uri);
      if k < 0 then -1 else k + 1
  }

  /** The unsorted list after `addOrUpdatePdf`: the first entry for `uri` refreshed in place, or a new entry in front. */
  function AddOrUpdateList(list: seq<PdfHistoryItem>, uri: string, fileName: string, totalPages: int, currentPage: int, now: int): seq<PdfHistoryItem> {
    var i := IndexOfFirst(list, uri);
    if i >= 0 then
      list[i := list[i].(lastPageRead := currentPage, lastReadDate := now, totalPages := totalPages, fileName := fileName)]
    else
      [NewItem(uri, fileName, totalPages, now).(lastPageRead := currentPage)] + list
  }

  /** The unsorted list after `updateProgress` when `uri` is listed. */
  function ProgressList(list: seq<PdfHistoryItem>, uri: string, pageNumber: int, now: int): seq<PdfHistoryItem> {
    var i := IndexOfFirst(list, uri);
    if i >= 0 then list[i := list[i].(lastPageRead := pageNumber, lastReadDate := now)] else list
  }

  /** The entries `removeAll { it.uri == uri }` keeps. */
  function OtherUri(uri: string): PdfHistoryItem -> bool {
    (e: PdfHistoryItem) => e.uri != uri
  }

  /** `removeAll { it.uri == uri }`. */
  function RemoveAll(list: seq<PdfHistoryItem>, uri: string): seq<PdfHistoryItem> {
    Order.Filter(list, OtherUri(uri))
  }

  /**
   * A listed uri is refreshed at its own position: page, date, page count and
   * name replaced, uri and size kept, every other entry untouched.
   */
  lemma AddOrUpdateExisting(list: seq<PdfHistoryItem>, uri: string, fileName: string, totalPages: int, currentPage: int, now: int)
    requires IndexOfFirst(list, uri) >= 0
    ensures var r := AddOrUpdateList(list, uri, fileName, totalPages, currentPage, now);
      var i := IndexOfFirst(list, uri);
      |r| == |list| &&
      r[i].uri == list[i].uri && r[i].fileSizeBytes == list[i].fileSizeBytes &&
      r[i].lastPageRead == currentPage && r[i].lastReadDate == now &&
      r[i].totalPages == totalPages && r[i].fileName == fileName &&
      forall j :: 0 <= j < |list| && j != i ==> r[j] == list[j]
  {
  }

  /** An unlisted uri adds exactly one entry, in front. */
  lemma AddOrUpdateNew(list: seq<PdfHistoryItem>, uri: string, fileName: string, totalPages: int, currentPage: int, now: int)
    requires forall j :: 0 <= j < |list| ==> list[j].uri != uri
    ensures var r := AddOrUpdateList(list, uri, fileName, totalPages, currentPage, now);
      |r| == |list| + 1 && r[1..] == list &&
      r[0] == PdfHistoryItem(uri, fileName, totalPages, currentPage, now, 0)
  {
  }

  /** Uris that were distinct stay distinct after `addOrUpdatePdf`. */
  lemma {:induction false} AddOrUpdateUnique(list: seq<PdfHistoryItem>, uri: string, fileName: string, totalPages: int, currentPage: int, now: int)
    requires Order.UniqueBy(list, ItemUri)
    ensures Order.UniqueBy(AddOrUpdateList(list, uri, fileName, totalPages, currentPage, now), ItemUri)
  {
    var r := AddOrUpdateList(list, uri, fileName, totalPages, currentPage, now);
    if IndexOfFirst(list, uri) >= 0 {
      assert forall j :: 0 <= j < |r| ==> ItemUri(r[j]) == ItemUri(list[j]);
    } else {
      assert forall j :: 1 <= j < |r| ==> r[j] == list[j - 1];
    }
  }

  /** Uris that were distinct stay distinct after `updateProgress`. */
  lemma ProgressUnique(list: seq<PdfHistoryItem>, uri: string, pageNumber: int, now: int)
    requires Order.UniqueBy(list, ItemUri)
    ensures Order.UniqueBy(ProgressList(list, uri, pageNumber, now), ItemUri)
  {
    var r := ProgressList(list, uri, pageNumber, now);
    assert forall j :: 0 <= j < |r| ==> ItemUri(r[j]) == ItemUri(list[j]);
  }

  /** The older history store: the list in memory and the list saved in preferences. */
  class LegacyStore {
    /** `_allPdfs.value`. */
    var pdfs: seq<PdfHistoryItem>
    /** The list the `pdfs` preference holds. */
    var saved: seq<PdfHistoryItem>

    /** What is shown is always the saved list sorted newest first. */
    predicate Valid()
      reads this
    {
      pdfs == Order.SortDesc(saved, ItemDate)
    }

    /** `init { loadPdfs() }`: reads the saved list (empty when unset) and sorts it. */
    constructor(stored: seq<PdfHistoryItem>)
      ensures Valid() && saved == stored
      ensures pdfs == Order.SortDesc(stored, ItemDate) && Order.SortedDesc(pdfs, ItemDate)
    {
      saved := stored;
      pdfs := Order.SortDesc(stored, ItemDate);
    }

    /** `savePdfs`: the list sorted newest first becomes both the saved and the shown list. */
    method SavePdfs(list: seq<PdfHistoryItem>)
      modifies this
      ensures Valid()
      ensures saved == Order.SortDesc(list, ItemDate) && pdfs == saved
    {
      var sorted := Order.SortDesc(list, ItemDate);
      Order.SortDescSorted(sorted, ItemDate);
      saved := sorted;
      pdfs := sorted;
    }

    /** `addOrUpdatePdf`: refresh or add the entry, then save. */
    method AddOrUpdatePdf(uri: string, fileName: string, totalPages: int, currentPage: int, now: int)
      requires Valid()
      modifies this
      ensures Valid() && saved == pdfs
      ensures pdfs == Order.SortDesc(AddOrUpdateList(old(pdfs), uri, fileName, totalPages, currentPage, now), ItemDate)
      ensures IndexOfFirst(old(pdfs), uri) >= 0 ==> |pdfs| == |old(pdfs)|
      ensures IndexOfFirst(old(pdfs), uri) < 0 ==> |pdfs| == |old(pdfs)| + 1
      ensures Order.UniqueBy(old(pdfs), ItemUri) ==> Order.UniqueBy(pdfs, ItemUri)
    {
      var current := AddOrUpdateList(pdfs, uri, fileName, totalPages, currentPage, now);
      if Order.UniqueBy(pdfs, ItemUri) {
        AddOrUpdateUnique(pdfs, uri, fileName, totalPages, currentPage, now);
        Order.SortDescUnique(current, ItemDate, ItemUri);
      }
      SavePdfs(current);
    }

    /** `updateProgress`: refresh page and date of a listed uri and save; an unlisted uri changes and saves nothing. */
    method UpdateProgress(uri: string, pageNumber: int, now: int)
      requires Valid()
      modifies this
      ensures Valid()
      ensures IndexOfFirst(old(pdfs), uri) < 0 ==> pdfs == old(pdfs) && saved == old(saved)
      ensures IndexOfFirst(old(pdfs), uri) >= 0 ==>
        saved == pdfs && pdfs == Order.SortDesc(ProgressList(old(pdfs), uri, pageNumber, now), ItemDate)
      ensures Order.UniqueBy(old(pdfs), ItemUri) ==> Order.UniqueBy(pdfs, ItemUri)
    {
      if IndexOfFirst(pdfs, uri) >= 0 {
        var current := ProgressList(pdfs, uri, pageNumber, now);
        if Order.UniqueBy(pdfs, ItemUri) {
          ProgressUnique(pdfs, uri, pageNumber, now);
          Order.SortDescUnique(current, ItemDate, ItemUri);
        }
        SavePdfs(current);
      }
    }

    /** `deletePdf`: every entry with that uri goes, the rest keep their order, then save. */
    method DeletePdf(pdf: PdfHistoryItem)
      requires Valid()
      modifies this
      ensures Valid() && saved == pdfs
      ensures pdfs == RemoveAll(old(pdfs), pdf.uri)
      ensures forall i :: 0 <= i < |pdfs| ==> pdfs[i].uri != pdf.uri && pdfs[i] in old(pdfs)
      ensures forall i :: 0 <= i < |old(pdfs)| && old(pdfs)[i].uri != pdf.uri ==> old(pdfs)[i] in pdfs
    {
      var current := RemoveAll(pdfs, pdf.uri);
      Order.FilterSorted(pdfs, OtherUri(pdf.uri), ItemDate);
      Order.SortDescSorted(current, ItemDate);
      SavePdfs(current);
    }

    /** `getMostRecentPdf`: the head of the shown list, which has the newest date, or `null`. */
    method GetMostRecentPdf() returns (r: Option<PdfHistoryItem>)
      requires Valid()
      ensures r.None? <==> pdfs == []
      ensures r.Some? ==> r.value == pdfs[0] && forall i :: 0 <= i < |pdfs| ==> pdfs[i].lastReadDate <= r.value.lastReadDate
    {
      if pdfs == [] {
        r := None;
      } else {
        r := Some(pdfs[0]);
        assert forall i :: 0 < i < |pdfs| ==> ItemDate(pdfs[0]) >= ItemDate(pdfs[i]);
      }
    }
  }
}
