/**
 * `ChangelogManager`: on start-up, records the changes of the running build
 * in the changelog table once per version, gated by the `last_version_code`
 * value of the `changelog_prefs` preferences.
 */
module ChangelogManager {
  import opened Wrappers
  import opened ChangelogEntryModel
  import ChangelogDao

  /** `BuildConfig.VERSION_CODE` of the release build. */
  const ReleaseVersionCode: int := 11
  /** `BuildConfig.VERSION_NAME` of the release build (the debug build appends "-DEBUG"). */
  const ReleaseVersionName: string := "5.1.2"
  /** The date all entries of versions 3 and 4 carry: 15 October 2025, in milliseconds. */
  const FixedDate: int := 1760582400000

  /** What version code 8 records, in order: descriptions and change types. */
  const Version8Descriptions: seq<string> := [
    "Nueva pantalla de inicio rediseñada con tarjeta destacada de última lectura",
    "Saludo personalizado y sección de PDFs recientes en el inicio",
    "Compatibilidad con Android 15 y dispositivos con páginas de 16 KB",
    "Actualización a NDK r27 para soporte de Pixel 9 y ARM v9+",
    "Optimización de compilación (30-50% más rápido) y reducción del APK",
    "Diseño Material You con tarjetas redondeadas y degradados modernos",
    "Corrección de APIs deprecadas y build sin advertencias"]
  const Version8Types: seq<string> := ["FEATURE", "FEATURE", "IMPROVEMENT", "IMPROVEMENT", "IMPROVEMENT", "FEATURE", "BUGFIX"]

  /** What version codes 3 and 4 record, in order; the last one, the storage migration, is hidden. */
  const Version3Descriptions: seq<string> := [
    "Persistencia mejorada de PDFs abiertos con historial completo",
    "Implementado pull-to-refresh para actualizar el progreso de lectura",
    "Permisos de almacenamiento persistentes con opción configurable",
    "Manejo mejorado de errores para PDFs eliminados o movidos",
    "Implementado sistema interno de registro de cambios",
    "Migración de SharedPreferences a Room Database para mayor robustez"]
  const Version3Types: seq<string> := ["IMPROVEMENT", "FEATURE", "FEATURE", "BUGFIX", "FEATURE", "IMPROVEMENT"]

  /** The seven changes of version code 8, all visible and dated `now`. */
  function Version8Entries(name: string, code: int, now: int): seq<ChangelogEntry> {
    seq(7, i requires 0 <= i < 7 => NewEntry(name, code, now, Version8Descriptions[i], Version8Types[i], true))
  }

  /** The six changes of version codes 3 and 4, dated `FixedDate`; only the sixth is hidden. */
  function Version3Entries(name: string, code: int): seq<ChangelogEntry> {
    seq(6, i requires 0 <= i < 6 => NewEntry(name, code, FixedDate, Version3Descriptions[i], Version3Types[i], i != 5))
  }

  /** The description of the single entry any other version records. */
  function GenericDescription(name: string): string {
    "Actualización a versión " + name
  }

  /**
   * What `addChangelogEntries` records for a build, in insertion order: at
   * least one entry, each still without an id and carrying the build's
   * version name and code.
   */
  function EntriesFor(name: string, code: int, now: int): (es: seq<ChangelogEntry>)
    ensures |es| >= 1
    ensures forall i :: 0 <= i < |es| ==> es[i].id == 0 && es[i].versionName == name && es[i].versionCode == code
  {
    if code == 8 then Version8Entries(name, code, now)
    else if code == 3 || code == 4 then Version3Entries(name, code)
    else [NewEntry(name, code, now, GenericDescription(name), "IMPROVEMENT", true)]
  }

  /** Version code 8 records seven entries, all visible and dated `now`. */
  lemma Version8Shape(name: string, now: int)
    ensures var es := EntriesFor(name, 8, now);
      |es| == 7 && forall i :: 0 <= i < |es| ==> es[i].isUserVisible && es[i].changeDate == now
  {
  }

  /**
   * Version codes 3 and 4 record six entries dated `FixedDate`, of which
   * exactly one, the storage migration, is hidden.
   */
  lemma Version3Shape(name: string, code: int, now: int)
    requires code == 3 || code == 4
    ensures var es := EntriesFor(name, code, now);
      |es| == 6 && (forall i :: 0 <= i < |es| ==> es[i].changeDate == FixedDate) &&
      (forall i :: 0 <= i < |es| ==> (!es[i].isUserVisible <==> i == 5)) &&
      es[5].changeDescription == Version3Descriptions[5]
  {
  }

  /** Any other version records one visible improvement naming the version, dated `now`. */
  lemma GenericShape(name: string, code: int, now: int)
    requires code != 8 && code != 3 && code != 4
    ensures EntriesFor(name, code, now) == [ChangelogEntry(0, name, code, now, "Actualización a versión " + name, "IMPROVEMENT", true)]
  {
  }

  /** The release build takes the generic branch. */
  lemma ReleaseBuildEntry(now: int)
    ensures var es := EntriesFor(ReleaseVersionName, ReleaseVersionCode, now);
      |es| == 1 && es[0].changeDescription == "Actualización a versión 5.1.2" &&
      es[0].changeType == "IMPROVEMENT" && es[0].isUserVisible
  {
    GenericShape(ReleaseVersionName, ReleaseVersionCode, now);
  }

  /** The manager: the build it runs in, the changelog table and the stored version gate. */
  class Manager {
    const versionName: string
    const versionCode: int
    const table: ChangelogDao.ChangelogTable
    /** `last_version_code` in `changelog_prefs`; `None` when never written. */
    var storedCode: Option<int>

    constructor(versionName: string, versionCode: int, table: ChangelogDao.ChangelogTable, storedCode: Option<int>)
      ensures this.versionName == versionName && this.versionCode == versionCode
      ensures this.table == table && this.storedCode == storedCode
    {
      this.versionName := versionName;
      this.versionCode := versionCode;
      this.table := table;
      this.storedCode := storedCode;
    }

    /** `getInt("last_version_code", -1)`. */
    function LastVersionCode(): int
      reads this
    {
      storedCode.GetOr(-1)
    }

    /** The gate: entries are due when the stored code is below the running one. */
    predicate Due()
      reads this
    {
      LastVersionCode() < versionCode
    }

    /**
     * `addChangelogEntries`: the build's entries appended with fresh ids,
     * `now` standing for the clock.
     */
    method AddChangelogEntries(now: int)
      requires table.Valid()
      modifies table
      ensures table.Valid()
      ensures ChangelogDao.AssignAll(old(table.State()), EntriesFor(versionName, versionCode, now)).Some?
      ensures table.State() == ChangelogDao.AssignAll(old(table.State()), EntriesFor(versionName, versionCode, now)).value
    {
      var entries := EntriesFor(versionName, versionCode, now);
      ChangelogDao.AssignAllFresh(table.State(), entries);
      if versionCode == 8 || versionCode == 3 || versionCode == 4 {
        var _ := table.InsertAll(entries);
      } else {
        ChangelogDao.AssignAllSingle(table.State(), entries[0]);
        var _ := table.Insert(entries[0]);
      }
    }

    /**
     * `initializeChangelog`: when due, appends the build's entries and then
     * stores the running code; otherwise changes nothing. Afterwards the gate
     * is closed, so a second run on the same build adds nothing.
     */
    method InitializeChangelog(now: int)
      requires table.Valid()
      modifies this, table
      ensures table.Valid()
      ensures old(Due()) ==>
        ChangelogDao.AssignAll(old(table.State()), EntriesFor(versionName, versionCode, now)).Some? &&
        table.State() == ChangelogDao.AssignAll(old(table.State()), EntriesFor(versionName, versionCode, now)).value &&
        storedCode == Some(versionCode)
      ensures !old(Due()) ==> table.State() == old(table.State()) && storedCode == old(storedCode)
      ensures !Due()
    {
      if Due() {
        AddChangelogEntries(now);
        storedCode := Some(versionCode);
      }
    }

    /** `logChange`: appends exactly one entry for the running build with a fresh id, dated `now`. */
    method LogChange(description: string, changeType: string, isUserVisible: bool, now: int)
      requires table.Valid()
      modifies table
      ensures table.Valid()
      ensures var e := NewEntry(versionName, versionCode, now, description, changeType, isUserVisible);
        var k := old(table.nextId);
        k !in old(table.rows) && table.rows == old(table.rows)[k := e.(id := k)] && table.nextId == k + 1
    {
      var e := NewEntry(versionName, versionCode, now, description, changeType, isUserVisible);
      ChangelogDao.AssignAppends(table.State(), e);
      var _ := table.Insert(e);
    }
  }
}
