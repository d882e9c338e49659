/** `ChangelogEntry`: one row of the `changelog_entries` table. */
module ChangelogEntryModel {

  /**
   * One recorded change. `id` 0 stands for "not yet assigned": the primary
   * key is autogenerated, so the table gives such an entry a fresh id.
   */
  datatype ChangelogEntry = ChangelogEntry(
    id: int,
    versionName: string,
    versionCode: int,
    changeDate: int,
    changeDescription: string,
    changeType: string,
    isUserVisible: bool)

  /** The primary key. */
  function IdOf(e: ChangelogEntry): int {
    e.id
  }

  /** The column `getAllChanges` orders by. */
  function DateOf(e: ChangelogEntry): int {
    e.changeDate
  }

  /** The column `getAllVersions` orders by. */
  function CodeOf(e: ChangelogEntry): int {
    e.versionCode
  }

  /** `WHERE isUserVisible = 1`. */
  predicate IsVisible(e: ChangelogEntry) {
    e.isUserVisible
  }

  /** An entry built without an id: the id is left at its default 0. */
  function NewEntry(versionName: string, versionCode: int, changeDate: int, description: string, changeType: string, isUserVisible: bool): ChangelogEntry {
    ChangelogEntry(0, versionName, versionCode, changeDate, description, changeType, isUserVisible)
  }
}
