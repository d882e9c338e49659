/**
 * The `pdf_history` table behind `PdfHistoryDao`: rows keyed by `uri`, the
 * SQL writes as map updates, and the SELECTs as reads that promise what
 * their `WHERE` and `ORDER BY` promise.
 */
module HistoryDao {
  import opened Wrappers
  import opened HistoryEntity
  import Order
  import Text

  /** The row after `updateProgress`: the three progress columns set, every other column kept. */
  function WithProgress(e: PdfHistoryEntity, lastPageRead: int, scrollOffset: real, lastReadDate: int): (r: PdfHistoryEntity)
    ensures r.lastPageRead == lastPageRead && r.scrollOffset == scrollOffset && r.lastReadDate == lastReadDate
    ensures r.(lastPageRead := e.lastPageRead, scrollOffset := e.scrollOffset, lastReadDate := e.lastReadDate) == e
  {
    e.(lastPageRead := lastPageRead, scrollOffset := scrollOffset, lastReadDate := lastReadDate)
  }

  /** The row after `updateAccessibility`: only the flag set. */
  function WithAccessibility(e: PdfHistoryEntity, isAccessible: bool): (r: PdfHistoryEntity)
    ensures r.isAccessible == isAccessible && r.(isAccessible := e.isAccessible) == e
  {
    e.(isAccessible := isAccessible)
  }

  /** The row after `updateFavorite`: only the flag set. */
  function WithFavorite(e: PdfHistoryEntity, isFavorite: bool): (r: PdfHistoryEntity)
    ensures r.isFavorite == isFavorite && r.(isFavorite := e.isFavorite) == e
  {
    e.(isFavorite := isFavorite)
  }

  /** A row is marked favourite (`WHERE isFavorite = 1`). */
  predicate IsFavorite(e: PdfHistoryEntity) {
    e.isFavorite
  }

  /**
   * `fileName LIKE '%' || query || '%'`: the name contains the query, with
   * SQLite's ASCII-only case folding.
   */
  predicate NameMatches(query: string, e: PdfHistoryEntity) {
    Text.ContainsIgnoreCase(e.fileName, query)
  }

  /** Applies `f` to the row stored under `uri`, if there is one (`UPDATE … WHERE uri = :uri`). */
  function UpdateWhere(rows: map<string, PdfHistoryEntity>, uri: string, f: PdfHistoryEntity -> PdfHistoryEntity): (r: map<string, PdfHistoryEntity>)
    ensures r.Keys == rows.Keys
    ensures forall u :: u in rows && u != uri ==> r[u] == rows[u]
    ensures uri in rows ==> r[uri] == f(rows[uri])
  {
    if uri in rows then rows[uri := f(rows[uri])] else rows
  }

  /** The `pdf_history` table. */
  class Table {
    /** The rows, by primary key. */
    var rows: map<string, PdfHistoryEntity>

    /** Every row is stored under its own `uri`: the primary key. */
    predicate Valid()
      reads this
    {
      forall u :: u in rows ==> rows[u].uri == u
    }

    /** An empty table. */
    constructor()
      ensures Valid() && rows == map[]
    {
      rows := map[];
    }

    /** `insert` with `OnConflictStrategy.REPLACE`: the row under `pdf.uri` becomes `pdf`, whatever was there. */
    method Insert(pdf: PdfHistoryEntity)
      requires Valid()
      modifies this
      ensures Valid()
      ensures rows == old(rows)[pdf.uri := pdf]
    {
      rows := rows[pdf.uri := pdf];
    }

    /** `@Update`: replaces the row with the same primary key; without one, nothing happens. */
    method Update(pdf: PdfHistoryEntity)
      requires Valid()
      modifies this
      ensures Valid()
      ensures pdf.uri in old(rows) ==> rows == old(rows)[pdf.uri := pdf]
      ensures pdf.uri !in old(rows) ==> rows == old(rows)
    {
      if pdf.uri in rows {
        rows := rows[pdf.uri := pdf];
      }
    }

    /** `@Delete` (by primary key) and `deleteByUri`: that row goes, the others stay. */
    method DeleteByUri(uri: string)
      requires Valid()
      modifies this
      ensures Valid()
      ensures uri !in rows
      ensures rows == old(rows) - {uri}
    {
      rows := rows - {uri};
    }

    /** `clearAllHistory`: `DELETE FROM pdf_history`. */
    method ClearAllHistory()
      requires Valid()
      modifies this
      ensures Valid() && rows == map[]
    {
      rows := map[];
    }

    /** `updateProgress`: sets the progress columns of the row with that uri, if there is one. */
    method UpdateProgress(uri: string, lastPageRead: int, scrollOffset: real, lastReadDate: int)
      requires Valid()
      modifies this
      ensures Valid()
      ensures rows == UpdateWhere(old(rows), uri, e => WithProgress(e, lastPageRead, scrollOffset, lastReadDate))
    {
      rows := UpdateWhere(rows, uri, e => WithProgress(e, lastPageRead, scrollOffset, lastReadDate));
    }

    /** `updateAccessibility`: sets the flag of the row with that uri, if there is one. */
    method UpdateAccessibility(uri: string, isAccessible: bool)
      requires Valid()
      modifies this
      ensures Valid()
      ensures rows == UpdateWhere(old(rows), uri, e => WithAccessibility(e, isAccessible))
    {
      rows := UpdateWhere(rows, uri, e => WithAccessibility(e, isAccessible));
    }

    /** `updateFavorite`: sets the flag of the row with that uri, if there is one. */
    method UpdateFavorite(uri: string, isFavorite: bool)
      requires Valid()
      modifies this
      ensures Valid()
      ensures rows == UpdateWhere(old(rows), uri, e => WithFavorite(e, isFavorite))
    {
      rows := UpdateWhere(rows, uri, e => WithFavorite(e, isFavorite));
    }

    /** `getPdfByUri`: the row with that primary key, or `null`. */
    method GetPdfByUri(uri: string) returns (r: Option<PdfHistoryEntity>)
      requires Valid()
      ensures r.Some? <==> uri in rows
      ensures r.Some? ==> r.value == rows[uri] && r.value.uri == uri
    {
      r := if uri in rows then Some(rows[uri]) else None;
    }

    /**
     * `getAllPdfs` and `getAllPdfsList`: every row once, newest `lastReadDate`
     * first; rows with equal dates in no promised order.
     */
    method GetAllPdfs() returns (r: seq<PdfHistoryEntity>)
      requires Valid()
      ensures Order.SortedDesc(r, DateOf) && Order.UniqueBy(r, UriOf)
      ensures |r| == |rows|
      ensures forall e :: e in r <==> e.uri in rows && rows[e.uri] == e
    {
      r := Order.SortedValues(rows, UriOf, DateOf);
    }

    /** `getMostRecentPdf`: a row with the newest `lastReadDate`, or `null` when the table is empty. */
    method GetMostRecentPdf() returns (r: Option<PdfHistoryEntity>)
      requires Valid()
      ensures r.None? <==> rows == map[]
      ensures r.Some? ==> r.value.uri in rows && rows[r.value.uri] == r.value
      ensures r.Some? ==> forall u :: u in rows ==> rows[u].lastReadDate <= r.value.lastReadDate
    {
      var all := GetAllPdfs();
      if all == [] {
        r := None;
      } else {
        r := Some(all[0]);
        forall u | u in rows ensures rows[u].lastReadDate <= all[0].lastReadDate {
          assert rows[u] in all;
        }
      }
    }

    /** `getFavoritePdfs`: exactly the favourite rows, each once, newest first. */
    method GetFavoritePdfs() returns (r: seq<PdfHistoryEntity>)
      requires Valid()
      ensures Order.SortedDesc(r, DateOf) && Order.UniqueBy(r, UriOf)
      ensures forall e :: e in r <==> e.uri in rows && rows[e.uri] == e && e.isFavorite
    {
      var all := GetAllPdfs();
      r := Order.Filter(all, IsFavorite);
      Order.FilterSorted(all, IsFavorite, DateOf);
      Order.FilterUnique(all, IsFavorite, UriOf);
      forall e | e in all && e.isFavorite ensures e in r {
        var i :| 0 <= i < |all| && all[i] == e;
      }
    }

    /**
     * `searchPdfsByName`: exactly the rows whose name contains `query`
     * (ASCII case ignored), each once; the query has no `ORDER BY`, so no
     * order is promised.
     */
    method SearchPdfsByName(query: string) returns (r: seq<PdfHistoryEntity>)
      requires Valid()
      ensures Order.UniqueBy(r, UriOf)
      ensures forall e :: e in r <==> e.uri in rows && rows[e.uri] == e && NameMatches(query, e)
    {
      var all := GetAllPdfs();
      var matches := (e: PdfHistoryEntity) => NameMatches(query, e);
      r := Order.Filter(all, matches);
      Order.FilterUnique(all, matches, UriOf);
      forall e | e in all && matches(e) ensures e in r {
        var i :| 0 <= i < |all| && all[i] == e;
      }
    }
  }
}
