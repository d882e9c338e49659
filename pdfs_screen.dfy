/** `PdfsFragment`: the searchable list of every document in the history. */
module PdfsScreen {
  import opened Wrappers
  import opened Text
  import opened HistoryEntity
  import Order

  /** The rows the search keeps: the file name contains the query, case ignored. */
  function NameContains(query: string): PdfHistoryEntity -> bool {
    (e: PdfHistoryEntity) => ContainsIgnoreCase(e.fileName, query)
  }

  /**
   * `filterPdfs`: an empty query shows every row; any other shows exactly
   * the rows whose name contains it, in their original order.
   */
  function FilteredList(all: seq<PdfHistoryEntity>, query: string): (r: seq<PdfHistoryEntity>)
    ensures query == [] ==> r == all
    ensures query != [] ==>
      (forall i :: 0 <= i < |r| ==> r[i] in all && ContainsIgnoreCase(r[i].fileName, query)) &&
      (forall i :: 0 <= i < |all| && ContainsIgnoreCase(all[i].fileName, query) ==> all[i] in r)
  {
    if query == [] then all else Order.Filter(all, NameContains(query))
  }

  /** The search keeps order: the results for a list split in two are the results of each part, in turn. */
  lemma FilteredListConcat(a: seq<PdfHistoryEntity>, b: seq<PdfHistoryEntity>, query: string)
    ensures FilteredList(a + b, query) == if query == [] then a + b else FilteredList(a, query) + FilteredList(b, query)
  {
    if query != [] {
      Order.FilterConcat(a, b, NameContains(query));
    }
  }

  /** A query every name contains shows the full list. */
  lemma FilteredListAll(all: seq<PdfHistoryEntity>, query: string)
    requires forall i :: 0 <= i < |all| ==> ContainsIgnoreCase(all[i].fileName, query)
    ensures FilteredList(all, query) == all
  {
    if query != [] {
      Order.FilterAll(all, NameContains(query));
    }
  }

  /** `updatePdfCount`. */
  function CountLabel(count: int): (r: string)
    ensures count == 0 ==> r == "No hay PDFs"
    ensures count == 1 ==> r == "1 PDF"
    ensures count != 0 && count != 1 ==> r == IntToString(count) + " PDFs"
  {
    if count == 0 then "No hay PDFs"
    else if count == 1 then "1 PDF"
    else IntToString(count) + " PDFs"
  }

  /** Different list sizes give different labels. */
  lemma CountLabelDistinct(a: nat, b: nat)
    requires a != b
    ensures CountLabel(a) != CountLabel(b)
  {
    if a >= 2 && b >= 2 {
      var sa, sb := NatToString(a), NatToString(b);
      if CountLabel(a) == CountLabel(b) {
        assert sa + " PDFs" == sb + " PDFs";
        assert |sa| == |sb|;
        assert sa == (sa + " PDFs")[..|sa|] && sb == (sb + " PDFs")[..|sb|];
        DigitsOfNat(a);
        DigitsOfNat(b);
      }
    } else if a >= 2 || b >= 2 {
      var n := if a >= 2 then a else b;
      var m := if a >= 2 then b else a;
      var shownText := IntToString(n) + " PDFs";
      if m == 0 {
        assert shownText[0] != "No hay PDFs"[0];
      } else {
        assert |shownText| > |"1 PDF"|;
      }
    }
  }

  /** The list screen. */
  class Screen {
    /** The last list received from the history. */
    var allPdfs: seq<PdfHistoryEntity>
    /** The list handed to the adapter. */
    var shown: seq<PdfHistoryEntity>
    var emptyStateVisible: bool
    var countLabel: string
    var clearButtonVisible: bool
    var isRefreshing: bool

    constructor()
      ensures allPdfs == [] && shown == [] && !clearButtonVisible && !isRefreshing
    {
      allPdfs := [];
      shown := [];
      emptyStateVisible := false;
      countLabel := "";
      clearButtonVisible := false;
      isRefreshing := false;
    }

    /**
     * `observeData`: the new list replaces the cached one and is shown in
     * full; the empty state is shown exactly when there are no rows.
     */
    method ObserveData(pdfs: seq<PdfHistoryEntity>)
      modifies this
      ensures allPdfs == pdfs && shown == pdfs
      ensures emptyStateVisible <==> pdfs == []
      ensures countLabel == CountLabel(|pdfs|) && !isRefreshing
      ensures clearButtonVisible == old(clearButtonVisible)
    {
      allPdfs := pdfs;
      shown := pdfs;
      emptyStateVisible := pdfs == [];
      countLabel := CountLabel(|pdfs|);
      isRefreshing := false;
    }

    /** `filterPdfs`: shows the cached rows the query selects. */
    method FilterPdfs(query: string)
      modifies this
      ensures shown == FilteredList(allPdfs, query)
      ensures allPdfs == old(allPdfs) && emptyStateVisible == old(emptyStateVisible) && countLabel == old(countLabel)
      ensures clearButtonVisible == old(clearButtonVisible) && isRefreshing == old(isRefreshing)
    {
      shown := FilteredList(allPdfs, query);
    }

    /**
     * The search box's `afterTextChanged`: the text (empty when absent) is
     * trimmed, the clear button shows when something is left, and the list
     * is filtered by the trimmed query.
     */
    method AfterTextChanged(text: Option<string>)
      modifies this
      ensures clearButtonVisible <==> Trim(text.GetOr("")) != []
      ensures shown == FilteredList(allPdfs, Trim(text.GetOr("")))
      ensures allPdfs == old(allPdfs) && emptyStateVisible == old(emptyStateVisible) && countLabel == old(countLabel)
      ensures isRefreshing == old(isRefreshing)
    {
      var query := Trim(text.GetOr(""));
      clearButtonVisible := query != [];
      FilterPdfs(query);
    }
  }

  /** A query of blanks only trims to the empty query, so it shows everything. */
  lemma BlankQueryShowsAll(all: seq<PdfHistoryEntity>, text: string)
    requires IsBlank(text)
    ensures FilteredList(all, Trim(text)) == all
  {
    TrimEmptyIffBlank(text);
  }
}
