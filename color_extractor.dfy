/**
 * `PdfColorExtractor`: the dominant colour of a PDF's first page, cached in
 * memory and in a line-oriented `key|color` file, with a prioritised swatch
 * fallback and an alpha replacement on ARGB colours.
 */
module ColorExtractor {
  import opened Wrappers
  import opened Text
  import Order
  import Progress

  /** The most lines the disk cache keeps after a save. */
  const MaxCacheLines: nat := 100

  /** `DEFAULT_COLOR`: `0xFF6200EE.toInt()`, Material purple, as a signed 32-bit value. */
  const DefaultColor: Int32 := 0xFF6200EE - 0x1_0000_0000

  /** `PdfColorResult`. */
  datatype PdfColorResult = Success(color: Int32) | Error(message: string)

  /** The cache file `pdf_color_cache.txt`: missing, present but unreadable, or its lines. */
  datatype CacheFile = Absent | Unreadable | Present(lines: seq<string>)

  /** The cache key: the absolute path and the modification time, joined by `:`. */
  function CacheKey(absolutePath: string, lastModified: int): (k: string)
    ensures StartsWith(k, absolutePath + ":")
  {
    assert (absolutePath + ":" + IntToString(lastModified))[..|absolutePath| + 1] == absolutePath + ":";
    absolutePath + ":" + IntToString(lastModified)
  }

  /** The line a save appends: `key|color`. */
  function CacheLine(key: string, color: int): string {
    key + "|" + IntToString(color)
  }

  // ---------------------------------------------------------------- disk cache: load

  /** A line that decides the lookup: it splits at `|` into exactly two parts, the first being the key. */
  predicate LineMatches(line: string, key: string) {
    var parts := Split(line, '|');
    |parts| == 2 && parts[0] == key
  }

  /** The colour text of a matching line: what follows the `|`. */
  function LineValue(line: string, key: string): string
    requires LineMatches(line, key)
  {
    Split(line, '|')[1]
  }

  /**
   * The lookup over the lines: the first matching line decides, giving its
   * value parsed as an `Int` (`null` when that is not a number); no matching
   * line gives `null`.
   */
  function Lookup(lines: seq<string>, key: string): (r: Option<Int32>)
    ensures (forall i :: 0 <= i < |lines| ==> !LineMatches(lines[i], key)) ==> r == None
    ensures forall i :: FirstMatchAt(lines, key, i) ==> r == ParseInt32(LineValue(lines[i], key))
  {
    if lines == [] then None
    else if LineMatches(lines[0], key) then ParseInt32(LineValue(lines[0], key))
    else
      var rest := lines[1..];
      assert forall i :: 0 < i < |lines| ==> rest[i - 1] == lines[i];
      forall i | FirstMatchAt(lines, key, i) ensures FirstMatchAt(rest, key, i - 1) {
        assert i != 0;
      }
      Lookup(rest, key)
  }

  /** Line `i` is the first line that decides a lookup of `key`. */
  predicate FirstMatchAt(lines: seq<string>, key: string, i: int) {
    && 0 <= i < |lines| && LineMatches(lines[i], key)
    && forall j :: 0 <= j < i ==> !LineMatches(lines[j], key)
  }

  /** `loadColorFromDiskCache`: no file, or a file that cannot be read, gives `null`. */
  function LoadColor(file: CacheFile, key: string): (r: Option<Int32>)
    ensures !file.Present? ==> r == None
  {
    if file.Present? then Lookup(file.lines, key) else None
  }

  /** `loadColorFromDiskCache` as the app runs it: a pass over the lines that returns at the first match. */
  method LoadColorFromDiskCache(file: CacheFile, key: string) returns (r: Option<Int32>)
    ensures r == LoadColor(file, key)
  {
    if !file.Present? {
      return None;
    }
    var lines := file.lines;
    var i := 0;
    while i < |lines|
      invariant 0 <= i <= |lines|
      invariant Lookup(lines[i..], key) == Lookup(lines, key)
    {
      var parts := Split(lines[i], '|');
      if |parts| == 2 && parts[0] == key {
        return ParseInt32(parts[1]);
      }
      assert lines[i..][1..] == lines[i + 1..];
      i := i + 1;
    }
    return None;
  }

  // ---------------------------------------------------------------- disk cache: save

  /** A line a save of `key` keeps: one that does not start with `key|`. */
  predicate KeptLine(key: string, line: string) {
    !StartsWith(line, key + "|")
  }

  /** `KeptLine` as the filter's predicate. */
  function KeepsLine(key: string): string -> bool {
    line => KeptLine(key, line)
  }

  /**
   * `saveColorToDiskCache` on the lines read: the lines of other keys, cut to
   * the newest 99 when there are 100 or more, then `key|color`.
   */
  function SaveLines(existing: seq<string>, key: string, color: int): (r: seq<string>)
    ensures 1 <= |r| <= MaxCacheLines && r[|r| - 1] == CacheLine(key, color)
    ensures forall i :: 0 <= i < |r| - 1 ==> r[i] in existing && KeptLine(key, r[i])
  {
    var kept := Order.Filter(existing, KeepsLine(key));
    var toKeep := if |kept| >= MaxCacheLines then kept[|kept| - (MaxCacheLines - 1)..] else kept;
    toKeep + [CacheLine(key, color)]
  }

  /** The cache file after `saveColorToDiskCache`; a file that cannot be read is left as it is. */
  function SaveColor(file: CacheFile, key: string, color: int): CacheFile {
    match file
    case Absent => Present(SaveLines([], key, color))
    case Unreadable => Unreadable
    case Present(lines) => Present(SaveLines(lines, key, color))
  }

  /**
   * After a save exactly one line starts with `key|`: the last, `key|color`;
   * the file holds at most 100 lines, and exactly 100 when 99 or more other
   * lines survived the filter.
   */
  lemma SaveLinesShape(existing: seq<string>, key: string, color: int)
    ensures var r := SaveLines(existing, key, color);
      |r| <= MaxCacheLines &&
      r[|r| - 1] == CacheLine(key, color) && StartsWith(r[|r| - 1], key + "|") &&
      (forall i :: 0 <= i < |r| - 1 ==> !StartsWith(r[i], key + "|")) &&
      (|Order.Filter(existing, KeepsLine(key))| >= MaxCacheLines - 1 ==> |r| == MaxCacheLines)
  {
    SaveLinesLast(existing, key, color);
    SaveLinesOthers(existing, key, color);
  }

  /** The last line of a save is `key|color`, and the file holds at most 100 lines. */
  lemma SaveLinesLast(existing: seq<string>, key: string, color: int)
    ensures var r := SaveLines(existing, key, color);
      |r| <= MaxCacheLines &&
      r[|r| - 1] == CacheLine(key, color) && StartsWith(r[|r| - 1], key + "|") &&
      (|Order.Filter(existing, KeepsLine(key))| >= MaxCacheLines - 1 ==> |r| == MaxCacheLines)
  {
    assert (key + "|" + IntToString(color))[..|key + "|"|] == key + "|";
  }

  /** No line before the last one of a save starts with `key|`. */
  lemma SaveLinesOthers(existing: seq<string>, key: string, color: int)
    ensures var r := SaveLines(existing, key, color);
      forall i :: 0 <= i < |r| - 1 ==> !StartsWith(r[i], key + "|")
  {
    var r := SaveLines(existing, key, color);
    var kept := Order.Filter(existing, KeepsLine(key));
    forall i | 0 <= i < |r| - 1 ensures !StartsWith(r[i], key + "|") {
      var k := if |kept| >= MaxCacheLines then |kept| - (MaxCacheLines - 1) + i else i;
      assert r[i] == kept[k];
      assert KeepsLine(key)(kept[k]);
    }
  }

  /**
   * The surviving lines keep their order: they are the newest
   * `min(n, 99)` of the `n` lines of other keys, as the file listed them.
   */
  lemma SaveLinesKeepsNewest(existing: seq<string>, key: string, color: int)
    ensures var r := SaveLines(existing, key, color);
      var kept := Order.Filter(existing, KeepsLine(key));
      var n := if |kept| >= MaxCacheLines then MaxCacheLines - 1 else |kept|;
      |r| == n + 1 && r[..n] == kept[|kept| - n..]
  {
  }

  /** A line kept by a save of `key` never decides a lookup of `key`. */
  lemma KeptLineNoMatch(key: string, line: string)
    requires KeptLine(key, line)
    ensures !LineMatches(line, key)
  {
    if LineMatches(line, key) {
      MatchStartsWithKey(line, key);
    }
  }

  /** A line that decides a lookup of `key` starts with `key|`. */
  lemma MatchStartsWithKey(line: string, key: string)
    requires LineMatches(line, key)
    ensures StartsWith(line, key + "|")
  {
    SplitTwo(line, '|');
    var parts := Split(line, '|');
    assert line == key + "|" + parts[1];
    assert line[..|key + "|"|] == key + "|";
  }

  /** `key|color` decides a lookup of `key` when the key has no `|`. */
  lemma CacheLineMatches(key: string, color: Int32)
    requires '|' !in key
    ensures LineMatches(CacheLine(key, color), key)
    ensures LineValue(CacheLine(key, color), key) == IntToString(color)
  {
    var digits := IntToString(color);
    assert '|' !in digits by {
      forall i | 0 <= i < |digits| ensures digits[i] != '|' {
        assert IsDigit(digits[i]) || digits[i] == '-';
      }
    }
    assert key + "|" + digits == key + ['|'] + digits;
    SplitCons(key, '|', digits);
    assert Split(digits, '|') == [digits];
  }

  /** Round trip: after saving `color` under a key without `|`, loading that key gives `color` back. */
  lemma {:induction false} SaveThenLoad(file: CacheFile, key: string, color: Int32)
    requires '|' !in key && !file.Unreadable?
    ensures LoadColor(SaveColor(file, key, color), key) == Some(color)
  {
    var existing := if file.Present? then file.lines else [];
    var r := SaveLines(existing, key, color);
    assert SaveColor(file, key, color) == Present(r);
    SaveLinesShape(existing, key, color);
    forall j | 0 <= j < |r| - 1 ensures !LineMatches(r[j], key) {
      KeptLineNoMatch(key, r[j]);
    }
    CacheLineMatches(key, color);
    assert FirstMatchAt(r, key, |r| - 1);
    ParseIntToString(color);
  }

  // ---------------------------------------------------------------- swatches and colours

  /** The swatches `Palette` found; each may be missing. */
  datatype Palette = Palette(
    vibrant: Option<Int32>,
    darkVibrant: Option<Int32>,
    lightVibrant: Option<Int32>,
    muted: Option<Int32>,
    darkMuted: Option<Int32>,
    lightMuted: Option<Int32>,
    dominant: Option<Int32>)

  /** The swatches in the order the extractor prefers them. */
  function Swatches(p: Palette): seq<Option<Int32>> {
    [p.vibrant, p.darkVibrant, p.lightVibrant, p.muted, p.darkMuted, p.lightMuted, p.dominant]
  }

  /** The first present value of the list, or `default`. */
  function FirstPresent(s: seq<Option<Int32>>, default: Int32): (c: Int32)
    ensures (forall i :: 0 <= i < |s| ==> s[i].None?) ==> c == default
    ensures forall i :: 0 <= i < |s| && s[i].Some? && (forall j :: 0 <= j < i ==> s[j].None?) ==> c == s[i].value
  {
    if s == [] then default
    else if s[0].Some? then s[0].value
    else
      assert forall i :: 0 < i < |s| ==> s[1..][i - 1] == s[i];
      FirstPresent(s[1..], default)
  }

  /** The `?:` chain over the swatches, ending in `DEFAULT_COLOR`. */
  function ChooseColor(p: Palette): (c: Int32)
    ensures Some(c) in Swatches(p) || (c == DefaultColor && forall o :: o in Swatches(p) ==> o.None?)
    ensures p.vibrant.Some? ==> c == p.vibrant.value
  {
    if p.vibrant.Some? then p.vibrant.value
    else if p.darkVibrant.Some? then p.darkVibrant.value
    else if p.lightVibrant.Some? then p.lightVibrant.value
    else if p.muted.Some? then p.muted.value
    else if p.darkMuted.Some? then p.darkMuted.value
    else if p.lightMuted.Some? then p.lightMuted.value
    else if p.dominant.Some? then p.dominant.value
    else DefaultColor
  }

  /** The chain picks the first present swatch in order of preference, else the default colour. */
  lemma ChooseColorPriority(p: Palette)
    ensures ChooseColor(p) == FirstPresent(Swatches(p), DefaultColor)
  {
    var s := Swatches(p);
    if p.vibrant.None? && p.darkVibrant.None? && p.lightVibrant.None? && p.muted.None?
       && p.darkMuted.None? && p.lightMuted.None? && p.dominant.None? {
      assert forall i :: 0 <= i < |s| ==> s[i].None?;
    } else {
      var k := if p.vibrant.Some? then 0 else if p.darkVibrant.Some? then 1
        else if p.lightVibrant.Some? then 2 else if p.muted.Some? then 3
        else if p.darkMuted.Some? then 4 else if p.lightMuted.Some? then 5 else 6;
      assert s[k].Some? && forall j :: 0 <= j < k ==> s[j].None?;
    }
  }

  /** The unsigned 32-bit pattern a colour stands for. */
  function Unsigned(c: Int32): (u: nat)
    ensures u < 0x1_0000_0000
  {
    if c < 0 then c + 0x1_0000_0000 else c
  }

  /** The colour whose 32-bit pattern is `u`. */
  function Signed(u: nat): (c: Int32)
    requires u < 0x1_0000_0000
    ensures Unsigned(c) == u
  {
    if u > MaxInt32 then u - 0x1_0000_0000 else u
  }

  /** `Color.alpha`: `color >>> 24`. */
  function Alpha(c: Int32): int { Unsigned(c) / 0x100_0000 }
  /** `Color.red`: `(color >> 16) and 0xFF`. */
  function Red(c: Int32): int { Unsigned(c) / 0x1_0000 % 256 }
  /** `Color.green`: `(color >> 8) and 0xFF`. */
  function Green(c: Int32): int { Unsigned(c) / 0x100 % 256 }
  /** `Color.blue`: `color and 0xFF`. */
  function Blue(c: Int32): int { Unsigned(c) % 256 }

  /**
   * `Color.argb(alpha, red, green, blue)` for byte-sized red, green and blue:
   * `(alpha << 24) | (red << 16) | (green << 8) | blue`. The 32-bit shift by
   * 24 keeps only the low byte of `alpha`, and the four bytes do not
   * overlap, so each `|` is a sum.
   */
  function Argb(alpha: int, red: int, green: int, blue: int): Int32
    requires 0 <= red < 256 && 0 <= green < 256 && 0 <= blue < 256
  {
    Signed((alpha % 256) * 0x100_0000 + red * 0x1_0000 + green * 0x100 + blue)
  }

  /** Four bytes packed into a 32-bit pattern read back one by one. */
  lemma Bytes(a: int, r: int, g: int, b: int)
    requires 0 <= a < 256 && 0 <= r < 256 && 0 <= g < 256 && 0 <= b < 256
    ensures var u := a * 0x100_0000 + r * 0x1_0000 + g * 0x100 + b;
      u / 0x100_0000 == a && u / 0x1_0000 % 256 == r && u / 0x100 % 256 == g && u % 256 == b
  {
    var u := a * 0x100_0000 + r * 0x1_0000 + g * 0x100 + b;
    Progress.DivUnique(a, r * 0x1_0000 + g * 0x100 + b, 0x100_0000);
    Progress.DivUnique(a * 256 + r, g * 0x100 + b, 0x1_0000);
    Progress.DivUnique(a, r, 256);
    Progress.DivUnique(a * 0x1_0000 + r * 256 + g, b, 0x100);
    Progress.DivUnique(a * 256 + r, g, 256);
    Progress.DivUnique(u / 256, b, 256);
  }

  /**
   * `applyAlpha`: red, green and blue kept, the alpha byte replaced by the
   * low byte of `alpha` (the whole of it when `alpha` is in 0..255).
   */
  function ApplyAlpha(color: Int32, alpha: int): (r: Int32)
    ensures Red(r) == Red(color) && Green(r) == Green(color) && Blue(r) == Blue(color)
    ensures Alpha(r) == alpha % 256
    ensures 0 <= alpha <= 255 ==> Alpha(r) == alpha
  {
    Bytes(alpha % 256, Red(color), Green(color), Blue(color));
    Argb(alpha, Red(color), Green(color), Blue(color))
  }

  /** The default colour is `0xFF6200EE`, fully opaque. */
  lemma DefaultColorBits()
    ensures Unsigned(DefaultColor) == 0xFF62_00EE
    ensures Alpha(DefaultColor) == 255 && Red(DefaultColor) == 0x62 && Green(DefaultColor) == 0 && Blue(DefaultColor) == 0xEE
  {
    Bytes(255, 0x62, 0, 0xEE);
  }

  // ---------------------------------------------------------------- extraction

  /**
   * What opening and rendering the document gives: an exception (with its
   * message, if any), or the page count and the swatches of the first page.
   */
  datatype Rendering = Fails(message: Option<string>) | Rendered(pageCount: nat, palette: Palette)

  /** The file to extract from: whether it exists and can be read, and how rendering it goes. */
  datatype PdfSource = PdfSource(absolutePath: string, lastModified: int, readable: bool, rendering: Rendering)

  /** Both caches. */
  datatype Caches = Caches(memory: map<string, Int32>, disk: CacheFile)

  /**
   * `extractDominantColor`: memory, then disk (copying a hit into memory),
   * then the file; a rendered colour goes into both caches; failures change
   * no cache.
   */
  function Extract(c: Caches, src: PdfSource): (r: (PdfColorResult, Caches))
    ensures r.0.Error? ==> r.1 == c
    ensures var key := CacheKey(src.absolutePath, src.lastModified);
      r.0.Success? ==>
        (key in r.1.memory && r.1.memory[key] == r.0.color && r.1.memory == c.memory[key := r.0.color] &&
         (r.1.disk == c.disk || r.1.disk == SaveColor(c.disk, key, r.0.color)))
  {
    var key := CacheKey(src.absolutePath, src.lastModified);
    if key in c.memory then (PdfColorResult.Success(c.memory[key]), c)
    else if LoadColor(c.disk, key).Some? then
      var color := LoadColor(c.disk, key).value;
      (PdfColorResult.Success(color), c.(memory := c.memory[key := color]))
    else if !src.readable then (Error("PDF file not accessible"), c)
    else match src.rendering
      case Fails(message) => (Error(message.GetOr("Unknown error")), c)
      case Rendered(pageCount, palette) =>
        if pageCount == 0 then (Error("PDF has no pages"), c)
        else
          var color := ChooseColor(palette);
          (PdfColorResult.Success(color), Caches(c.memory[key := color], SaveColor(c.disk, key, color)))
  }

  /** A memory hit answers from memory and touches neither the disk cache nor the file. */
  lemma ExtractMemoryHit(c: Caches, src: PdfSource)
    requires CacheKey(src.absolutePath, src.lastModified) in c.memory
    ensures Extract(c, src) == (PdfColorResult.Success(c.memory[CacheKey(src.absolutePath, src.lastModified)]), c)
  {
  }

  /** A disk hit is copied into memory and returned; the disk is not written. */
  lemma ExtractDiskHit(c: Caches, src: PdfSource, color: Int32)
    requires CacheKey(src.absolutePath, src.lastModified) !in c.memory
    requires LoadColor(c.disk, CacheKey(src.absolutePath, src.lastModified)) == Some(color)
    ensures Extract(c, src) == (PdfColorResult.Success(color), c.(memory := c.memory[CacheKey(src.absolutePath, src.lastModified) := color]))
  {
  }

  /** Without a cached colour: the error cases, each with its message and no cache written. */
  lemma ExtractFailures(c: Caches, src: PdfSource)
    requires CacheKey(src.absolutePath, src.lastModified) !in c.memory
    requires LoadColor(c.disk, CacheKey(src.absolutePath, src.lastModified)).None?
    ensures !src.readable ==> Extract(c, src) == (Error("PDF file not accessible"), c)
    ensures src.readable && src.rendering.Fails? ==> Extract(c, src) == (Error(src.rendering.message.GetOr("Unknown error")), c)
    ensures src.readable && src.rendering.Rendered? && src.rendering.pageCount == 0 ==> Extract(c, src) == (Error("PDF has no pages"), c)
    ensures Extract(c, src).0.Error? ==> Extract(c, src).1 == c
  {
  }

  /**
   * A rendered colour is the first present swatch (or the default) and ends
   * up in both caches: memory holds it, and a disk lookup finds it when the
   * path has no `|` and the cache file could be read.
   */
  lemma ExtractRendered(c: Caches, src: PdfSource)
    requires CacheKey(src.absolutePath, src.lastModified) !in c.memory
    requires LoadColor(c.disk, CacheKey(src.absolutePath, src.lastModified)).None?
    requires src.readable && src.rendering.Rendered? && src.rendering.pageCount > 0
    ensures var key := CacheKey(src.absolutePath, src.lastModified);
      var color := FirstPresent(Swatches(src.rendering.palette), DefaultColor);
      var (r, c') := Extract(c, src);
      r == PdfColorResult.Success(color) && key in c'.memory && c'.memory[key] == color &&
      ('|' !in src.absolutePath && !c.disk.Unreadable? ==> LoadColor(c'.disk, key) == Some(color))
  {
    var key := CacheKey(src.absolutePath, src.lastModified);
    var color := ChooseColor(src.rendering.palette);
    ChooseColorPriority(src.rendering.palette);
    if '|' !in src.absolutePath && !c.disk.Unreadable? {
      var digits := IntToString(src.lastModified);
      assert '|' !in digits by {
        forall i | 0 <= i < |digits| ensures digits[i] != '|' {
          assert IsDigit(digits[i]) || digits[i] == '-';
        }
      }
      assert key == src.absolutePath + ":" + digits;
      assert '|' !in key;
      SaveThenLoad(c.disk, key, color);
    }
  }

  /** After a success, the same file asks again: the same colour, from memory, with nothing changed. */
  lemma ExtractAgain(c: Caches, src: PdfSource)
    requires Extract(c, src).0.Success?
    ensures var (r, c') := Extract(c, src); Extract(c', src) == (r, c')
  {
  }

  /** The extractor's state: the in-memory map and the cache file. */
  class ColorCache {
    var memory: map<string, Int32>
    var disk: CacheFile

    /** A fresh process: nothing in memory, the cache file as found. */
    constructor(disk: CacheFile)
      ensures memory == map[] && this.disk == disk
    {
      memory := map[];
      this.disk := disk;
    }

    /** `extractDominantColor`, one call at a time. */
    method ExtractDominantColor(src: PdfSource) returns (r: PdfColorResult)
      modifies this
      ensures (r, Caches(memory, disk)) == Extract(Caches(old(memory), old(disk)), src)
    {
      var key := CacheKey(src.absolutePath, src.lastModified);
      if key in memory {
        return PdfColorResult.Success(memory[key]);
      }
      var cached := LoadColorFromDiskCache(disk, key);
      if cached.Some? {
        memory := memory[key := cached.value];
        return PdfColorResult.Success(cached.value);
      }
      if !src.readable {
        return Error("PDF file not accessible");
      }
      match src.rendering
      case Fails(message) =>
        r := Error(message.GetOr("Unknown error"));
      case Rendered(pageCount, palette) =>
        if pageCount == 0 {
          return Error("PDF has no pages");
        }
        var color := ChooseColor(palette);
        memory := memory[key := color];
        disk := SaveColor(disk, key, color);
        r := PdfColorResult.Success(color);
    }

    /** `clearCache`: memory emptied and the cache file deleted, so no key is found any more. */
    method ClearCache()
      modifies this
      ensures memory == map[] && disk == Absent
      ensures forall key :: LoadColor(disk, key) == None
    {
      memory := map[];
      disk := Absent;
    }
  }
}
