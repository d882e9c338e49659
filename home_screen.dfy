/** `HomeFragment`: the greeting, the two most recent documents and the "continue reading" card. */
module HomeScreen {
  import opened Wrappers
  import opened Text
  import opened HistoryEntity
  import Progress
  import MainViewModel

  /** The part of the day the greeting names. */
  datatype DayPart = Morning | Afternoon | Night

  /**
   * The `when` over `HOUR_OF_DAY`: 6–11 morning, 12–17 afternoon, any other
   * hour night; of the day's 24 hours, six each by day and twelve at night.
   */
  function DayPartOf(hour: int): (p: DayPart)
    ensures p == Morning <==> 6 <= hour < 12
    ensures p == Afternoon <==> 12 <= hour < 18
    ensures p == Night <==> hour < 6 || hour >= 18
  {
    if 6 <= hour <= 11 then Morning
    else if 12 <= hour <= 17 then Afternoon
    else Night
  }

  function GreetingWord(p: DayPart): string {
    match p
    case Morning => "Buenos días"
    case Afternoon => "Buenas tardes"
    case Night => "Buenas noches"
  }

  /** `updateGreeting`: the greeting for the hour, a comma, and the name ("Usuario" when unset). */
  function Greeting(hour: int, userName: Option<string>): (g: string)
    ensures var w := GreetingWord(DayPartOf(hour));
      StartsWith(g, w + ", ") && g[|w| + 2..] == userName.GetOr("Usuario")
  {
    var w := GreetingWord(DayPartOf(hour));
    var g := w + ", " + userName.GetOr("Usuario");
    assert g[..|w| + 2] == w + ", ";
    g
  }

  /**
   * The greeting gives away the part of the day and the name shown: two
   * hours and names with the same greeting fall into the same part and show
   * the same name.
   */
  lemma GreetingDetermines(h1: int, n1: Option<string>, h2: int, n2: Option<string>)
    requires Greeting(h1, n1) == Greeting(h2, n2)
    ensures DayPartOf(h1) == DayPartOf(h2)
    ensures n1.GetOr("Usuario") == n2.GetOr("Usuario")
  {
    var g := Greeting(h1, n1);
    var w1, w2 := GreetingWord(DayPartOf(h1)), GreetingWord(DayPartOf(h2));
    assert w1[4] == g[4] == w2[4] && w1[7] == g[7] == w2[7];
  }

  /** `take(2)`: the first two rows, or all of them when there are fewer. */
  function RecentPdfs(pdfs: seq<PdfHistoryEntity>): (r: seq<PdfHistoryEntity>)
    ensures |r| == if |pdfs| < 2 then |pdfs| else 2
    ensures r == pdfs[..|r|]
    ensures r == [] <==> pdfs == []
  {
    if |pdfs| < 2 then pdfs else pdfs[..2]
  }

  /** What the "continue reading" card shows. */
  datatype Card = Hidden | Shown(title: string, page: int, of: Option<int>, percent: Option<int>)

  /**
   * `updateContinueReadingCard`: visible for a row read beyond its first
   * page; it names the file, shows the 1-based page and, when the page
   * count is known, the count and the whole percentage read.
   */
  function CardFor(pdf: Option<PdfHistoryEntity>): (c: Card)
    ensures c.Shown? <==> pdf.Some? && pdf.value.lastPageRead > 0
    ensures c.Shown? ==> c.title == pdf.value.fileName && c.page == pdf.value.lastPageRead + 1
    ensures c.Shown? ==> (c.of.Some? <==> pdf.value.totalPages > 0) && (c.percent.Some? <==> pdf.value.totalPages > 0)
    ensures c.Shown? && c.of.Some? ==> c.of.value == pdf.value.totalPages
    ensures c.Shown? && c.percent.Some? ==> c.percent.value == Progress.WholePercent(pdf.value.lastPageRead, pdf.value.totalPages)
  {
    if pdf.Some? && pdf.value.lastPageRead > 0 then
      var e := pdf.value;
      if e.totalPages > 0 then
        Shown(e.fileName, e.lastPageRead + 1, Some(e.totalPages), Some(Progress.WholePercent(e.lastPageRead, e.totalPages)))
      else Shown(e.fileName, e.lastPageRead + 1, None, None)
    else Hidden
  }

  /**
   * The card's progress line: `Página p`, then ` / total • pct%` when the
   * count is known; the line ends in `%` exactly when it shows a percentage.
   */
  function CardText(c: Card): (t: string)
    requires c.Shown?
    ensures StartsWith(t, "Página " + IntToString(c.page))
    ensures t[|t| - 1] == '%' <==> c.of.Some? && c.percent.Some?
    ensures !(c.of.Some? && c.percent.Some?) ==> t == "Página " + IntToString(c.page)
    ensures c.of.Some? && c.percent.Some? ==>
      t[|"Página " + IntToString(c.page)|..] == " / " + IntToString(c.of.value) + " • " + IntToString(c.percent.value) + "%"
  {
    var head := "Página " + IntToString(c.page);
    var tail := if c.of.Some? && c.percent.Some? then " / " + IntToString(c.of.value) + " • " + IntToString(c.percent.value) + "%" else "";
    var t := head + tail;
    assert t[..|head|] == head;
    assert tail == [] ==> t[|t| - 1] == IntToString(c.page)[|IntToString(c.page)| - 1];
    t
  }

  /**
   * The percentage on the card is the one of the last page read, truncated,
   * and within 0..100 while the page lies in the document.
   */
  lemma CardPercent(e: PdfHistoryEntity)
    requires 0 < e.lastPageRead <= e.totalPages
    ensures CardFor(Some(e)).percent == Some(Progress.WholePercent(e.lastPageRead, e.totalPages))
    ensures 0 <= CardFor(Some(e)).percent.value <= 100
  {
    Progress.WholePercentBounds(e.lastPageRead, e.totalPages);
  }

  /**
   * The card follows the last-read row: it is shown exactly when the list
   * is not empty and its first newest row has been read beyond page 0.
   */
  lemma CardOfLastRead(pdfs: seq<PdfHistoryEntity>)
    ensures CardFor(MainViewModel.LastReadPdf(Some(pdfs))).Shown? <==>
      pdfs != [] && pdfs[MainViewModel.MaxDateIndex(pdfs)].lastPageRead > 0
  {
  }

  /** The home screen. */
  class Screen {
    var recent: seq<PdfHistoryEntity>
    var emptyStateVisible: bool
    var isRefreshing: bool
    var card: Card
    var greeting: string

    constructor()
      ensures recent == [] && card == Hidden
    {
      recent := [];
      emptyStateVisible := false;
      isRefreshing := false;
      card := Hidden;
      greeting := "";
    }

    /** The history observer: the two most recent rows, the empty state exactly when there are none. */
    method OnPdfs(pdfs: seq<PdfHistoryEntity>)
      modifies this
      ensures recent == RecentPdfs(pdfs)
      ensures emptyStateVisible <==> pdfs == []
      ensures !isRefreshing && card == old(card) && greeting == old(greeting)
    {
      recent := RecentPdfs(pdfs);
      emptyStateVisible := recent == [];
      isRefreshing := false;
    }

    /** The last-read observer: the card for that row. */
    method OnLastRead(pdf: Option<PdfHistoryEntity>)
      modifies this
      ensures card == CardFor(pdf)
      ensures recent == old(recent) && emptyStateVisible == old(emptyStateVisible) && greeting == old(greeting)
      ensures isRefreshing == old(isRefreshing)
    {
      card := CardFor(pdf);
    }

    /** The user-name observer: the greeting for the current hour and name. */
    method OnUserName(hour: int, userName: Option<string>)
      modifies this
      ensures greeting == Greeting(hour, userName)
      ensures recent == old(recent) && emptyStateVisible == old(emptyStateVisible) && card == old(card)
      ensures isRefreshing == old(isRefreshing)
    {
      greeting := Greeting(hour, userName);
    }
  }
}
