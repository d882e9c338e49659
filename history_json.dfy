/**
 * History backup (`HistoryExportImport`): the reading history written as an
 * org.json document and read back, with the import defaults. JSON is a
 * value here; its text form and the streams are outside the model.
 */
module HistoryJson {
  import opened Wrappers
  import opened HistoryEntity
  import Text

  /** An org.json value. Numbers written from `Int`/`Long` are `JInt`, from `Double` `JReal`. */
  datatype Json =
    | JNull
    | JBool(b: bool)
    | JInt(i: int)
    | JReal(r: real)
    | JString(s: string)
    | JArray(items: seq<Json>)
    | JObject(fields: map<string, Json>)

  /** Why an import failed: the exceptions the `try` turns into `Result.failure`. */
  datatype ImportError =
    | CannotRead              // no input stream
    | ReadFailed(msg: string) // the stream threw while reading
    | NotAnObject(msg: string) // `JSONObject(text)` rejected the text
    | BadField(key: string)   // a `getX(key)` found no value, or one of the wrong type
    | BadElement(index: nat)  // `getJSONObject(i)` found no object

  /** The message the app shows for an import failure it raises itself. */
  function CannotReadMessage(): string {
    "No se pudo leer el archivo"
  }

  /**
   * The message of the caught exception, where the model knows it: the
   * app's own text for a missing stream, the thrown message for a failed
   * read or a rejected text, and `None` for the texts org.json composes.
   */
  function ErrorMessage(e: ImportError): Option<string> {
    match e
    case CannotRead => Some(CannotReadMessage())
    case ReadFailed(msg) => Some(msg)
    case NotAnObject(msg) => Some(msg)
    case BadField(_) => None
    case BadElement(_) => None
  }

  /** What `contentResolver` gives the import: no stream, a failing read, or text that parses (or not) as a JSON object. */
  datatype ImportSource =
    | NoStream
    | ReadFails(msg: string)
    | Unparsable(msg: string)
    | Parsed(doc: Json)

  /** What `contentResolver` gives the export: no stream (nothing is written), a stream, or one that fails. */
  datatype ExportSink = NoSink | Sink | SinkFails(msg: string)

  // ---------------------------------------------------------------- export

  /** The ten keys of an exported record; `thumbnailPath` is not among them. */
  function RecordKeys(): set<string> {
    {"uri", "fileName", "totalPages", "lastPageRead", "scrollOffset", "lastReadDate",
     "fileSizeBytes", "filePath", "isAccessible", "isFavorite"}
  }

  /** The keys the import reads with a throwing getter. */
  function RequiredKeys(): set<string> {
    {"uri", "fileName", "totalPages", "lastPageRead", "scrollOffset", "lastReadDate"}
  }

  /** One history row as an export object; a missing `filePath` is written as `""`. */
  function ExportEntry(e: PdfHistoryEntity): (j: Json)
    ensures j.JObject? && j.fields.Keys == RecordKeys()
    ensures j.fields["filePath"] == JString(e.filePath.GetOr(""))
  {
    JObject(map[
      "uri" := JString(e.uri),
      "fileName" := JString(e.fileName),
      "totalPages" := JInt(e.totalPages),
      "lastPageRead" := JInt(e.lastPageRead),
      "scrollOffset" := JReal(e.scrollOffset),
      "lastReadDate" := JInt(e.lastReadDate),
      "fileSizeBytes" := JInt(e.fileSizeBytes),
      "filePath" := JString(e.filePath.GetOr("")),
      "isAccessible" := JBool(e.isAccessible),
      "isFavorite" := JBool(e.isFavorite)])
  }

  /** The `history` array: one object per row, in list order. */
  function ExportRecords(list: seq<PdfHistoryEntity>): (items: seq<Json>)
    ensures |items| == |list| && forall i :: 0 <= i < |list| ==> items[i] == ExportEntry(list[i])
  {
    seq(|list|, i requires 0 <= i < |list| => ExportEntry(list[i]))
  }

  /** The exported document; `now` stands for `System.currentTimeMillis()`. */
  function ExportRoot(list: seq<PdfHistoryEntity>, now: int): (doc: Json)
    ensures doc.JObject? && doc.fields.Keys == {"version", "exportDate", "totalEntries", "history"}
    ensures doc.fields["version"] == JInt(1) && doc.fields["totalEntries"] == JInt(|list|)
    ensures doc.fields["history"].JArray? && |doc.fields["history"].items| == |list|
  {
    JObject(map[
      "version" := JInt(1),
      "exportDate" := JInt(now),
      "totalEntries" := JInt(|list|),
      "history" := JArray(ExportRecords(list))])
  }

  /** The success message of an export. */
  function ExportMessage(count: int): string {
    "Historial exportado: " + Text.IntToString(count) + " entradas"
  }

  /**
   * `exportHistory`: builds the array element by element, then writes the
   * document to the sink. Without a stream nothing is written and the export
   * still reports success; a failing stream reports its failure.
   */
  method ExportHistory(list: seq<PdfHistoryEntity>, now: int, sink: ExportSink)
    returns (result: Result<string, string>, written: Option<Json>)
    ensures sink.SinkFails? ==> result == Failure(sink.msg) && written == None
    ensures !sink.SinkFails? ==> result == Success(ExportMessage(|list|))
    ensures sink.Sink? ==> written == Some(ExportRoot(list, now))
    ensures !sink.Sink? ==> written == None
  {
    var items: seq<Json> := [];
    var i := 0;
    while i < |list|
      invariant 0 <= i <= |list|
      invariant items == ExportRecords(list[..i])
    {
      items := items + [ExportEntry(list[i])];
      i := i + 1;
    }
    assert list[..i] == list;
    var root := JObject(map[
      "version" := JInt(1),
      "exportDate" := JInt(now),
      "totalEntries" := JInt(|list|),
      "history" := JArray(items)]);
    match sink
    case NoSink =>
      result, written := Success(ExportMessage(|list|)), None;
    case Sink =>
      result, written := Success(ExportMessage(|list|)), Some(root);
    case SinkFails(msg) =>
      result, written := Failure(msg), None;
  }

  // ---------------------------------------------------------------- import getters

  /** `Double.toInt()`/`toLong()`: truncation toward zero. */
  function TruncReal(x: real): (n: int)
    ensures x >= 0.0 ==> n as real <= x < n as real + 1.0
    ensures x < 0.0 ==> n as real - 1.0 < x <= n as real
  {
    if x >= 0.0 then x.Floor else -((-x).Floor)
  }

  /** `getString(key)`: the value must be a string. */
  function GetString(fields: map<string, Json>, key: string): (r: Result<string, ImportError>)
    ensures r.Success? <==> key in fields && fields[key].JString?
    ensures r.Success? ==> r.value == fields[key].s
    ensures r.Failure? ==> r.error == BadField(key)
  {
    if key in fields && fields[key].JString? then Success(fields[key].s) else Failure(BadField(key))
  }

  /** `getInt(key)` and `getLong(key)`: the value must be a number; a fraction is cut off. */
  function GetInt(fields: map<string, Json>, key: string): (r: Result<int, ImportError>)
    ensures r.Success? <==> key in fields && (fields[key].JInt? || fields[key].JReal?)
    ensures r.Success? && fields[key].JInt? ==> r.value == fields[key].i
    ensures r.Failure? ==> r.error == BadField(key)
  {
    if key !in fields then Failure(BadField(key))
    else match fields[key]
      case JInt(i) => Success(i)
      case JReal(x) => Success(TruncReal(x))
      case _ => Failure(BadField(key))
  }

  /** `getDouble(key)`: the value must be a number. */
  function GetDouble(fields: map<string, Json>, key: string): (r: Result<real, ImportError>)
    ensures r.Success? <==> key in fields && (fields[key].JInt? || fields[key].JReal?)
    ensures r.Success? && fields[key].JReal? ==> r.value == fields[key].r
    ensures r.Failure? ==> r.error == BadField(key)
  {
    if key !in fields then Failure(BadField(key))
    else match fields[key]
      case JInt(i) => Success(i as real)
      case JReal(x) => Success(x)
      case _ => Failure(BadField(key))
  }

  /** `optLong(key, fallback)`: a number, else the fallback. */
  function OptLong(fields: map<string, Json>, key: string, fallback: int): (n: int)
    ensures key !in fields ==> n == fallback
  {
    if key !in fields then fallback
    else match fields[key]
      case JInt(i) => i
      case JReal(x) => TruncReal(x)
      case _ => fallback
  }

  /** `optString(key)`: a string, else `""`. */
  function OptString(fields: map<string, Json>, key: string): (s: string)
    ensures key !in fields ==> s == ""
  {
    if key in fields && fields[key].JString? then fields[key].s else ""
  }

  /** `optBoolean(key, fallback)`: a boolean, else the fallback. */
  function OptBoolean(fields: map<string, Json>, key: string, fallback: bool): (b: bool)
    ensures key !in fields ==> b == fallback
  {
    if key in fields && fields[key].JBool? then fields[key].b else fallback
  }

  /** `takeIf { it.isNotEmpty() }`. */
  function NonEmpty(s: string): (r: Option<string>)
    ensures r.Some? <==> s != []
    ensures r.Some? ==> r.value == s
  {
    if s == [] then None else Some(s)
  }

  // ---------------------------------------------------------------- import

  /**
   * One array element as a history row. The required fields are read in the
   * order the constructor call lists them, so the first bad one is reported;
   * the optional ones fall back to their defaults, and `thumbnailPath` is
   * never read.
   */
  function ImportEntry(j: Json, index: nat): (r: Result<PdfHistoryEntity, ImportError>)
    ensures r.Success? ==> j.JObject? && RequiredKeys() <= j.fields.Keys
    ensures !j.JObject? ==> r == Failure(BadElement(index))
    ensures r.Success? ==> r.value.thumbnailPath == None
    ensures r.Success? && "fileSizeBytes" !in j.fields ==> r.value.fileSizeBytes == 0
    ensures r.Success? && "filePath" !in j.fields ==> r.value.filePath == None
    ensures r.Success? && "isAccessible" !in j.fields ==> r.value.isAccessible
    ensures r.Success? && "isFavorite" !in j.fields ==> !r.value.isFavorite
  {
    if !j.JObject? then Failure(BadElement(index))
    else
      var f := j.fields;
      match GetString(f, "uri")
      case Failure(e) => Failure(e)
      case Success(uri) =>
        match GetString(f, "fileName")
        case Failure(e) => Failure(e)
        case Success(fileName) =>
          match GetInt(f, "totalPages")
          case Failure(e) => Failure(e)
          case Success(totalPages) =>
            match GetInt(f, "lastPageRead")
            case Failure(e) => Failure(e)
            case Success(lastPageRead) =>
              match GetDouble(f, "scrollOffset")
              case Failure(e) => Failure(e)
              case Success(scrollOffset) =>
                match GetInt(f, "lastReadDate")
                case Failure(e) => Failure(e)
                case Success(lastReadDate) =>
                  Success(PdfHistoryEntity(
                    uri, fileName, totalPages, lastPageRead, scrollOffset, lastReadDate,
                    OptLong(f, "fileSizeBytes", 0),
                    NonEmpty(OptString(f, "filePath")),
                    None,
                    OptBoolean(f, "isAccessible", true),
                    OptBoolean(f, "isFavorite", false)))
  }

  /** The elements in order; the first element that fails fails the whole import. */
  function ImportAll(items: seq<Json>): (r: Result<seq<PdfHistoryEntity>, ImportError>)
    ensures r.Success? ==> |r.value| == |items|
  {
    if items == [] then Success([])
    else
      match ImportAll(items[..|items| - 1])
      case Failure(e) => Failure(e)
      case Success(done) =>
        match ImportEntry(items[|items| - 1], |items| - 1)
        case Failure(e) => Failure(e)
        case Success(pdf) => Success(done + [pdf])
  }

  /** `JSONObject(text).getJSONArray("history")`, then every element. */
  function ImportRoot(doc: Json): (r: Result<seq<PdfHistoryEntity>, ImportError>)
    ensures !doc.JObject? ==> r.Failure?
    ensures doc.JObject? && ("history" !in doc.fields || !doc.fields["history"].JArray?) ==> r == Failure(BadField("history"))
  {
    if !doc.JObject? then Failure(NotAnObject("not a JSON object"))
    else if "history" in doc.fields && doc.fields["history"].JArray? then ImportAll(doc.fields["history"].items)
    else Failure(BadField("history"))
  }

  /** The whole import, from what the content resolver delivers. */
  function Import(source: ImportSource): (r: Result<seq<PdfHistoryEntity>, ImportError>)
    ensures source.NoStream? ==> r.Failure? && ErrorMessage(r.error) == Some("No se pudo leer el archivo")
    ensures source.ReadFails? ==> r.Failure? && ErrorMessage(r.error) == Some(source.msg)
    ensures source.Unparsable? ==> r.Failure? && ErrorMessage(r.error) == Some(source.msg)
  {
    match source
    case NoStream => Failure(CannotRead)
    case ReadFails(msg) => Failure(ReadFailed(msg))
    case Unparsable(msg) => Failure(NotAnObject(msg))
    case Parsed(doc) => ImportRoot(doc)
  }

  /**
   * `importHistory`: reads the elements one by one into a growing list and
   * stops at the first one that throws, returning only the failure.
   */
  method ImportHistory(source: ImportSource) returns (r: Result<seq<PdfHistoryEntity>, ImportError>)
    ensures r == Import(source)
  {
    match source
    case NoStream => return Failure(CannotRead);
    case ReadFails(msg) => return Failure(ReadFailed(msg));
    case Unparsable(msg) => return Failure(NotAnObject(msg));
    case Parsed(doc) =>
      if !doc.JObject? {
        return Failure(NotAnObject("not a JSON object"));
      }
      if !("history" in doc.fields && doc.fields["history"].JArray?) {
        return Failure(BadField("history"));
      }
      var items := doc.fields["history"].items;
      var list: seq<PdfHistoryEntity> := [];
      var i := 0;
      while i < |items|
        invariant 0 <= i <= |items|
        invariant ImportAll(items[..i]) == Success(list)
      {
        assert items[..i + 1][..i] == items[..i];
        var entry := ImportEntry(items[i], i);
        if entry.Failure? {
          ImportAllPrefixFailure(items, i + 1);
          return Failure(entry.error);
        }
        list := list + [entry.value];
        i := i + 1;
      }
      assert items[..i] == items;
      return Success(list);
  }

  // ---------------------------------------------------------------- properties

  /** What a row looks like after a round trip: no thumbnail, and an empty path reads as none. */
  function Normalize(e: PdfHistoryEntity): PdfHistoryEntity {
    e.(thumbnailPath := None, filePath := NonEmpty(e.filePath.GetOr("")))
  }

  /** Reading back an exported record gives the row without thumbnail and with an empty path dropped. */
  lemma ImportExportEntry(e: PdfHistoryEntity, index: nat)
    ensures ImportEntry(ExportEntry(e), index) == Success(Normalize(e))
  {
    var f := ExportEntry(e).fields;
    assert GetString(f, "uri") == Success(e.uri);
    assert GetString(f, "fileName") == Success(e.fileName);
    assert GetInt(f, "totalPages") == Success(e.totalPages);
    assert GetInt(f, "lastPageRead") == Success(e.lastPageRead);
    assert GetDouble(f, "scrollOffset") == Success(e.scrollOffset);
    assert GetInt(f, "lastReadDate") == Success(e.lastReadDate);
  }

  /** Every row normalised, in order. */
  function NormalizeAll(list: seq<PdfHistoryEntity>): (r: seq<PdfHistoryEntity>)
    ensures |r| == |list| && forall i :: 0 <= i < |list| ==> r[i] == Normalize(list[i])
  {
    seq(|list|, i requires 0 <= i < |list| => Normalize(list[i]))
  }

  lemma {:induction false} ImportAllExport(list: seq<PdfHistoryEntity>)
    ensures ImportAll(ExportRecords(list)) == Success(NormalizeAll(list))
  {
    var items := ExportRecords(list);
    if list == [] {
      assert items == [];
    } else {
      var n := |list|;
      var init := list[..n - 1];
      ImportAllExport(init);
      ImportExportEntry(list[n - 1], n - 1);
      ImportAllSnoc(ExportRecords(init), ExportEntry(list[n - 1]), NormalizeAll(init), Normalize(list[n - 1]));
      ExportRecordsSnoc(list);
      NormalizeAllSnoc(list);
    }
  }

  /** The export of a non-empty list is the export of all but its last row, then that row's record. */
  lemma ExportRecordsSnoc(list: seq<PdfHistoryEntity>)
    requires list != []
    ensures ExportRecords(list) == ExportRecords(list[..|list| - 1]) + [ExportEntry(list[|list| - 1])]
  {
    var init := list[..|list| - 1];
    assert forall i :: 0 <= i < |init| ==> init[i] == list[i];
    SnocEq(ExportRecords(list), ExportRecords(init), ExportEntry(list[|list| - 1]));
  }

  /** Normalising a non-empty list is normalising all but its last row, then that row. */
  lemma NormalizeAllSnoc(list: seq<PdfHistoryEntity>)
    requires list != []
    ensures NormalizeAll(list) == NormalizeAll(list[..|list| - 1]) + [Normalize(list[|list| - 1])]
  {
    var init := list[..|list| - 1];
    assert forall i :: 0 <= i < |init| ==> init[i] == list[i];
    SnocEq(NormalizeAll(list), NormalizeAll(init), Normalize(list[|list| - 1]));
  }

  /** A sequence that is `b` followed by `x`, element by element, is `b + [x]`. */
  lemma SnocEq<T>(a: seq<T>, b: seq<T>, x: T)
    requires |a| == |b| + 1 && a[|b|] == x
    requires forall i :: 0 <= i < |b| ==> a[i] == b[i]
    ensures a == b + [x]
  {
  }

  /** A successful import of a prefix, followed by a successful last element. */
  lemma ImportAllSnoc(init: seq<Json>, last: Json, done: seq<PdfHistoryEntity>, pdf: PdfHistoryEntity)
    requires ImportAll(init) == Success(done)
    requires ImportEntry(last, |init|) == Success(pdf)
    ensures ImportAll(init + [last]) == Success(done + [pdf])
  {
    var items := init + [last];
    assert items[..|items| - 1] == init;
    assert items[|items| - 1] == last;
  }

  /**
   * Round trip: importing the export of a history gives back the same rows
   * in the same order, except that `thumbnailPath` is lost and an empty
   * `filePath` comes back as none.
   */
  lemma ExportImportRoundTrip(list: seq<PdfHistoryEntity>, now: int)
    ensures ImportRoot(ExportRoot(list, now)) == Success(NormalizeAll(list))
  {
    ImportAllExport(list);
  }

  /** Once a prefix of the elements fails, the whole import fails the same way. */
  lemma {:induction false} ImportAllPrefixFailure(items: seq<Json>, k: nat)
    requires k <= |items| && ImportAll(items[..k]).Failure?
    ensures ImportAll(items) == ImportAll(items[..k])
    decreases |items| - k
  {
    var n := |items|;
    if k == n {
      assert items[..k] == items;
    } else {
      assert items[..n - 1][..k] == items[..k];
      ImportAllPrefixFailure(items[..n - 1], k);
    }
  }

  /** A successful import yields one row per element, each the import of that element. */
  lemma {:induction false} ImportAllElementwise(items: seq<Json>)
    requires ImportAll(items).Success?
    ensures forall i :: 0 <= i < |items| ==> ImportEntry(items[i], i) == Success(ImportAll(items).value[i])
  {
    if items != [] {
      var n := |items|;
      assert forall i :: 0 <= i < n - 1 ==> items[..n - 1][i] == items[i];
      ImportAllElementwise(items[..n - 1]);
    }
  }

  /** One bad element fails the whole import: no partial list is returned. */
  lemma {:induction false} ImportAllFailsOnBadElement(items: seq<Json>, k: nat)
    requires k < |items| && ImportEntry(items[k], k).Failure?
    ensures ImportAll(items).Failure?
  {
    var n := |items|;
    if k < n - 1 {
      assert items[..n - 1][k] == items[k];
      ImportAllFailsOnBadElement(items[..n - 1], k);
    }
  }

  /** An element lacking a required field fails the whole import. */
  lemma ImportFailsOnMissingField(items: seq<Json>, k: nat, key: string)
    requires k < |items| && items[k].JObject?
    requires key in RequiredKeys() && key !in items[k].fields
    ensures ImportAll(items).Failure?
  {
    ImportAllFailsOnBadElement(items, k);
  }
}
