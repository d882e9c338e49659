/** `ChangelogAdapter`: how one changelog entry is shown, and how the list tells entries apart. */
module ChangelogAdapter {
  import opened Text
  import opened Labels
  import opened ChangelogEntryModel
  import ChangelogManager

  /** The drawable chosen for a change type. */
  datatype Icon = FeatureIcon | BugfixIcon | ImprovementIcon | ChangeIcon

  /** The `when` over the upper-cased change type. */
  function IconFor(changeType: string): Icon {
    var t := UpperAsciiString(changeType);
    if t == "FEATURE" then FeatureIcon
    else if t == "BUGFIX" then BugfixIcon
    else if t == "IMPROVEMENT" then ImprovementIcon
    else ChangeIcon
  }

  /** Types that differ only in the case of their letters get the same icon. */
  lemma IconIgnoresCase(a: string, b: string)
    requires |a| == |b| && forall i :: 0 <= i < |a| ==> CharEqualsIgnoreCase(a[i], b[i])
    ensures IconFor(a) == IconFor(b)
  {
    assert UpperAsciiString(a) == UpperAsciiString(b);
  }

  /** Upper-casing leaves a string without lower-case ASCII letters as it is. */
  lemma UpperFixed(s: string)
    requires forall i :: 0 <= i < |s| ==> !('a' <= s[i] <= 'z')
    ensures UpperAsciiString(s) == s
  {
  }

  /** The three known types have their own icons. */
  lemma KnownTypeIcons()
    ensures IconFor("FEATURE") == FeatureIcon
    ensures IconFor("BUGFIX") == BugfixIcon
    ensures IconFor("IMPROVEMENT") == ImprovementIcon
  {
    FixedTypeIcon("FEATURE");
    FixedTypeIcon("BUGFIX");
    FixedTypeIcon("IMPROVEMENT");
  }

  /** A type already in upper case is compared as it is. */
  lemma FixedTypeIcon(t: string)
    requires forall i :: 0 <= i < |t| ==> !('a' <= t[i] <= 'z')
    ensures t == "FEATURE" ==> IconFor(t) == FeatureIcon
    ensures t == "BUGFIX" ==> IconFor(t) == BugfixIcon
    ensures t == "IMPROVEMENT" ==> IconFor(t) == ImprovementIcon
  {
    UpperFixed(t);
  }

  /** A type the manager uses is one of the three known ones. */
  predicate IsKnownType(t: string) {
    t == "FEATURE" || t == "BUGFIX" || t == "IMPROVEMENT"
  }

  /** A known type never gets the generic icon. */
  lemma KnownTypeIcon(t: string)
    requires IsKnownType(t)
    ensures IconFor(t) != ChangeIcon
  {
    KnownTypeIcons();
  }

  /** The generic icon goes exactly to the types that are none of the three known ones once upper-cased. */
  lemma IconGenericIff(t: string)
    ensures IconFor(t) == ChangeIcon <==> !IsKnownType(UpperAsciiString(t))
  {
  }

  /** Every entry the manager records has a type with its own icon. */
  lemma RecordedEntriesHaveIcons(name: string, code: int, now: int)
    ensures var es := ChangelogManager.EntriesFor(name, code, now);
      forall i :: 0 <= i < |es| ==> IconFor(es[i].changeType) != ChangeIcon
  {
    var es := ChangelogManager.EntriesFor(name, code, now);
    forall i | 0 <= i < |es| ensures IconFor(es[i].changeType) != ChangeIcon {
      var t := es[i].changeType;
      if code == 8 {
        assert t == ChangelogManager.Version8Types[i];
      } else if code == 3 || code == 4 {
        assert t == ChangelogManager.Version3Types[i];
      }
      assert IsKnownType(t);
      KnownTypeIcon(t);
    }
  }

  /** `"v${entry.versionName}"`. */
  function VersionLabel(e: ChangelogEntry): string {
    "v" + e.versionName
  }

  /** The version label starts with `v` and tells versions apart. */
  lemma VersionLabelInjective(a: ChangelogEntry, b: ChangelogEntry)
    ensures VersionLabel(a)[0] == 'v' && VersionLabel(a)[1..] == a.versionName
    ensures VersionLabel(a) == VersionLabel(b) <==> a.versionName == b.versionName
  {
    if VersionLabel(a) == VersionLabel(b) {
      assert VersionLabel(a)[1..] == VersionLabel(b)[1..];
    }
  }

  /** `formatDate`: the change date in the `dd/MM/yyyy` pattern. */
  function DateLabel(e: ChangelogEntry): Label {
    DateText("dd/MM/yyyy", e.changeDate)
  }

  /** `ChangelogDiffCallback.areItemsTheSame`: the same id. */
  predicate AreItemsTheSame(a: ChangelogEntry, b: ChangelogEntry) {
    a.id == b.id
  }

  /** `ChangelogDiffCallback.areContentsTheSame`: the same record. */
  predicate AreContentsTheSame(a: ChangelogEntry, b: ChangelogEntry) {
    a == b
  }

  /** Equal contents imply the same item, and an edited entry is still the same item. */
  lemma DiffCallbackConsistent(a: ChangelogEntry, b: ChangelogEntry)
    ensures AreContentsTheSame(a, b) ==> AreItemsTheSame(a, b)
    ensures a.changeDescription != b.changeDescription ==> !AreContentsTheSame(a, b)
    ensures AreItemsTheSame(a, a.(changeDescription := b.changeDescription, isUserVisible := b.isUserVisible))
  {
  }
}
