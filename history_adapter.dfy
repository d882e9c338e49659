/** `PdfHistoryAdapter`: what a history row shows, and how the list tells rows apart. */
module HistoryAdapter {
  import opened Wrappers
  import opened Labels
  import opened HistoryEntity
  import Text
  import Progress

  const KiB: int := 1024
  const MiB: int := 1024 * 1024
  const GiB: int := 1024 * 1024 * 1024

  /**
   * `formatFileSize`: unknown for no size, bytes below 1 KB, and otherwise the
   * largest of GB, MB and KB that is at least 1, with two decimals.
   */
  function FormatFileSize(bytes: int): (l: Label)
    ensures bytes <= 0 ==> l == Plain("Tamaño desconocido")
    ensures 0 < bytes < KiB ==> l == Plain(Text.IntToString(bytes) + " bytes")
    ensures KiB <= bytes < MiB ==> l == Formatted("%.2f KB", bytes as real / KiB as real)
    ensures MiB <= bytes < GiB ==> l == Formatted("%.2f MB", bytes as real / MiB as real)
    ensures GiB <= bytes ==> l == Formatted("%.2f GB", bytes as real / GiB as real)
  {
    if bytes <= 0 then Plain("Tamaño desconocido")
    else
      var kb := bytes as real / 1024.0;
      var mb := kb / 1024.0;
      var gb := mb / 1024.0;
      if gb >= 1.0 then Formatted("%.2f GB", gb)
      else if mb >= 1.0 then Formatted("%.2f MB", mb)
      else if kb >= 1.0 then Formatted("%.2f KB", kb)
      else Plain(Text.IntToString(bytes) + " bytes")
  }

  /** The formatted amount is at least 1 and below 1024 in the unit chosen. */
  lemma FileSizeInRange(bytes: int)
    requires bytes >= KiB
    ensures FormatFileSize(bytes).Formatted?
    ensures bytes < GiB ==> 1.0 <= FormatFileSize(bytes).value < 1024.0
    ensures bytes >= GiB ==> FormatFileSize(bytes).value >= 1.0
  {
  }

  /** `getRelativeTime`, with `now` for the clock. */
  function RelativeTime(now: int, timestamp: int): (l: Label)
    ensures l == Plain("Ahora") <==> now - timestamp < 60000
    ensures var diff := now - timestamp;
      60000 <= diff < 3600000 ==> l == Plain("Hace " + Text.IntToString(diff / 60000) + " min")
    ensures var diff := now - timestamp;
      3600000 <= diff < 86400000 ==> l == Plain("Hace " + Text.IntToString(diff / 3600000) + "h")
    ensures var diff := now - timestamp;
      86400000 <= diff < 7 * 86400000 ==> l == Plain("Hace " + Text.IntToString(diff / 86400000) + " días")
    ensures l.DateText? <==> now - timestamp >= 7 * 86400000
    ensures l.DateText? ==> l == DateText("dd/MM/yyyy", timestamp)
  {
    var diff := now - timestamp;
    if diff < 60000 then Plain("Ahora")
    else if diff < 3600000 then Plain("Hace " + Text.IntToString(diff / 60000) + " min")
    else if diff < 86400000 then Plain("Hace " + Text.IntToString(diff / 3600000) + "h")
    else if diff < 7 * 86400000 then Plain("Hace " + Text.IntToString(diff / 86400000) + " días")
    else DateText("dd/MM/yyyy", timestamp)
  }

  /** The number each bucket shows stays within the bucket: 1..59 minutes, 1..23 hours, 1..6 days. */
  lemma RelativeTimeCounts(diff: int)
    requires diff >= 60000
    ensures diff < 3600000 ==> 1 <= diff / 60000 <= 59
    ensures 3600000 <= diff < 86400000 ==> 1 <= diff / 3600000 <= 23
    ensures 86400000 <= diff < 7 * 86400000 ==> 1 <= diff / 86400000 <= 6
  {
    Progress.DivBounds(diff, 60000);
    Progress.DivBounds(diff, 3600000);
    Progress.DivBounds(diff, 86400000);
  }

  /** The row's percentage: `(lastPageRead.toFloat() / totalPages * 100).toInt()`, or 0 without pages. */
  function Percentage(pdf: PdfHistoryEntity): (p: int)
    ensures pdf.totalPages <= 0 ==> p == 0
    ensures pdf.totalPages > 0 && pdf.lastPageRead >= 0 ==>
      p as real <= pdf.ProgressPercentage() < p as real + 1.0
  {
    if pdf.totalPages > 0 then
      Progress.WholePercentTruncates(pdf.lastPageRead, pdf.totalPages);
      Progress.WholePercent(pdf.lastPageRead, pdf.totalPages)
    else 0
  }

  /** The meta line of a row: the page shown 1-based, the page count only when known, and the relative time. */
  datatype Meta = Meta(page: int, of: Option<int>, when: Label)

  function MetaOf(pdf: PdfHistoryEntity, now: int): (m: Meta)
    ensures m.page == pdf.lastPageRead + 1
    ensures m.of.Some? <==> pdf.totalPages > 0
    ensures m.of.Some? ==> m.of.value == pdf.totalPages
    ensures m.when == RelativeTime(now, pdf.lastReadDate)
  {
    Meta(pdf.lastPageRead + 1, if pdf.totalPages > 0 then Some(pdf.totalPages) else None, RelativeTime(now, pdf.lastReadDate))
  }

  /** The meta line as written: `Página p de t • when` or `Página p • when`, given the text of `when`. */
  function MetaText(m: Meta, whenText: string): (t: string)
    ensures Text.StartsWith(t, "Página " + Text.IntToString(m.page))
    ensures |t| >= |whenText| + 3 && t[|t| - |whenText| - 3..] == " • " + whenText
    ensures m.of.None? ==> t == "Página " + Text.IntToString(m.page) + " • " + whenText
    ensures m.of.Some? ==> var head := "Página " + Text.IntToString(m.page);
      Text.StartsWith(t[|head|..], " de " + Text.IntToString(m.of.value))
  {
    var head := "Página " + Text.IntToString(m.page);
    var t := head + (if m.of.Some? then " de " + Text.IntToString(m.of.value) else "") + (" • " + whenText);
    assert t[..|head|] == head;
    t
  }

  /** `PdfDiffCallback.areItemsTheSame`: the same uri. */
  predicate AreItemsTheSame(a: PdfHistoryEntity, b: PdfHistoryEntity) {
    a.uri == b.uri
  }

  /** `PdfDiffCallback.areContentsTheSame`: the same record. */
  predicate AreContentsTheSame(a: PdfHistoryEntity, b: PdfHistoryEntity) {
    a == b
  }

  /** Rows with the same contents are the same row, and an update of a row's progress is the same row with new contents. */
  lemma DiffCallbackConsistent(a: PdfHistoryEntity, b: PdfHistoryEntity)
    ensures AreContentsTheSame(a, b) ==> AreItemsTheSame(a, b)
    ensures a.lastPageRead != b.lastPageRead ==> !AreContentsTheSame(a, b)
    ensures AreItemsTheSame(a, a.(lastPageRead := b.lastPageRead))
  {
  }
}
