/**
 * The `changelog_entries` table behind `ChangelogDao`: rows keyed by an
 * autogenerated id that is never reused, plain `@Insert` (which aborts on a
 * clashing key), `@Update` and `@Delete` by id, and the SELECTs as reads
 * that promise what their `WHERE` and `ORDER BY` promise.
 */
module ChangelogDao {
  import opened Wrappers
  import opened ChangelogEntryModel
  import Order

  /** The rows by id, and the id the next autogenerated key receives. */
  datatype Store = Store(rows: map<int, ChangelogEntry>, nextId: int)

  /**
   * Every row is stored under its own id, no row has the unassigned id 0,
   * and every id in use lies below the next one to be generated.
   */
  predicate StoreValid(st: Store) {
    st.nextId >= 1 &&
    forall k :: k in st.rows ==> st.rows[k].id == k && k != 0 && k < st.nextId
  }

  /** The key an insert of `e` uses: a fresh one for id 0, its own otherwise. */
  function KeyFor(st: Store, e: ChangelogEntry): int {
    if e.id == 0 then st.nextId else e.id
  }

  /**
   * One `@Insert` with the default ABORT strategy: `None` when an explicit
   * id is already taken; otherwise the row is added under its key and the
   * key counter moves past it.
   */
  function Assign(st: Store, e: ChangelogEntry): Option<Store> {
    var k := KeyFor(st, e);
    if k in st.rows then None
    else Some(Store(st.rows[k := e.(id := k)], if k >= st.nextId then k + 1 else st.nextId))
  }

  /** `insertAll`: the entries inserted in order in one transaction; a single abort undoes them all. */
  function AssignAll(st: Store, entries: seq<ChangelogEntry>): Option<Store>
    decreases |entries|
  {
    if entries == [] then Some(st)
    else
      match Assign(st, entries[0])
      case None => None
      case Some(next) => AssignAll(next, entries[1..])
  }

  /**
   * An insert fails only on a taken explicit id; otherwise it adds exactly
   * one row, replaces none, and keeps the table valid.
   */
  lemma AssignAppends(st: Store, e: ChangelogEntry)
    requires StoreValid(st)
    ensures Assign(st, e).None? <==> e.id != 0 && e.id in st.rows
    ensures Assign(st, e).Some? ==>
      var r := Assign(st, e).value;
      StoreValid(r) && r.nextId >= st.nextId &&
      r.rows.Keys == st.rows.Keys + {KeyFor(st, e)} && KeyFor(st, e) !in st.rows &&
      r.rows[KeyFor(st, e)] == e.(id := KeyFor(st, e)) &&
      forall k :: k in st.rows ==> r.rows[k] == st.rows[k]
  {
  }

  /** A run of inserts keeps the table valid and never replaces or drops a row. */
  lemma {:induction false} AssignAllAppends(st: Store, entries: seq<ChangelogEntry>)
    requires StoreValid(st)
    ensures AssignAll(st, entries).Some? ==>
      var r := AssignAll(st, entries).value;
      StoreValid(r) && r.nextId >= st.nextId && |r.rows| == |st.rows| + |entries| &&
      forall k :: k in st.rows ==> k in r.rows && r.rows[k] == st.rows[k]
    decreases |entries|
  {
    if entries != [] {
      AssignAppends(st, entries[0]);
      var step := Assign(st, entries[0]);
      if step.Some? {
        AssignAllAppends(step.value, entries[1..]);
      }
    }
  }

  /**
   * Entries without ids are always inserted: the i-th receives the id
   * `nextId + i`, and the table gains exactly those keys.
   */
  lemma {:induction false} AssignAllFresh(st: Store, entries: seq<ChangelogEntry>)
    requires StoreValid(st)
    requires forall i :: 0 <= i < |entries| ==> entries[i].id == 0
    ensures AssignAll(st, entries).Some?
    ensures var r := AssignAll(st, entries).value;
      r.nextId == st.nextId + |entries| &&
      (forall k :: k in r.rows <==> k in st.rows || st.nextId <= k < st.nextId + |entries|) &&
      (forall k :: k in st.rows ==> r.rows[k] == st.rows[k]) &&
      (forall i :: 0 <= i < |entries| ==> r.rows[st.nextId + i] == entries[i].(id := st.nextId + i))
    decreases |entries|
  {
    if entries != [] {
      AssignAppends(st, entries[0]);
      var next := Assign(st, entries[0]).value;
      var rest := entries[1..];
      assert forall i :: 0 <= i < |rest| ==> rest[i] == entries[i + 1];
      AssignAllFresh(next, rest);
      var r := AssignAll(st, entries).value;
      assert r == AssignAll(next, rest).value;
      forall i | 0 <= i < |entries|
        ensures r.rows[st.nextId + i] == entries[i].(id := st.nextId + i)
      {
        if i > 0 {
          assert next.nextId + (i - 1) == st.nextId + i;
        }
      }
    }
  }

  /** A single insert is the one-element run. */
  lemma AssignAllSingle(st: Store, e: ChangelogEntry)
    ensures AssignAll(st, [e]) == Assign(st, e)
  {
    var one := [e];
    assert one[1..] == [];
  }

  /** The `changelog_entries` table. */
  class ChangelogTable {
    /** The rows, by primary key. */
    var rows: map<int, ChangelogEntry>
    /** The AUTOINCREMENT counter: the id the next row without one receives. */
    var nextId: int

    function State(): Store
      reads this
    {
      Store(rows, nextId)
    }

    predicate Valid()
      reads this
    {
      StoreValid(State())
    }

    /** An empty table whose first generated id is 1. */
    constructor()
      ensures Valid() && rows == map[] && nextId == 1
    {
      rows := map[];
      nextId := 1;
    }

    /** `insert`: adds the entry, or aborts and changes nothing when its explicit id is taken. */
    method Insert(entry: ChangelogEntry) returns (inserted: bool)
      requires Valid()
      modifies this
      ensures Valid()
      ensures inserted <==> Assign(old(State()), entry).Some?
      ensures inserted ==> State() == Assign(old(State()), entry).value
      ensures !inserted ==> State() == old(State())
    {
      AssignAppends(State(), entry);
      var step := Assign(State(), entry);
      inserted := step.Some?;
      if inserted {
        rows, nextId := step.value.rows, step.value.nextId;
      }
    }

    /** `insertAll`: inserts the entries in order, all or none. */
    method InsertAll(entries: seq<ChangelogEntry>) returns (inserted: bool)
      requires Valid()
      modifies this
      ensures Valid()
      ensures inserted <==> AssignAll(old(State()), entries).Some?
      ensures inserted ==> State() == AssignAll(old(State()), entries).value
      ensures !inserted ==> State() == old(State())
    {
      var pending := State();
      var i := 0;
      var aborted := false;
      while i < |entries| && !aborted
        invariant 0 <= i <= |entries|
        invariant StoreValid(pending)
        invariant !aborted ==> AssignAll(old(State()), entries) == AssignAll(pending, entries[i..])
        invariant aborted ==> AssignAll(old(State()), entries).None?
        invariant rows == old(rows) && nextId == old(nextId)
        decreases |entries| - i, !aborted
      {
        assert entries[i..][1..] == entries[i + 1..];
        AssignAppends(pending, entries[i]);
        var step := Assign(pending, entries[i]);
        if step.None? {
          aborted := true;
        } else {
          pending := step.value;
          i := i + 1;
        }
      }
      inserted := !aborted;
      if inserted {
        rows, nextId := pending.rows, pending.nextId;
      }
    }

    /** `@Update`: replaces the row with the entry's id; without one, nothing happens. */
    method Update(entry: ChangelogEntry)
      requires Valid()
      modifies this
      ensures Valid() && nextId == old(nextId)
      ensures entry.id in old(rows) ==> rows == old(rows)[entry.id := entry]
      ensures entry.id !in old(rows) ==> rows == old(rows)
    {
      if entry.id in rows {
        rows := rows[entry.id := entry];
      }
    }

    /** `@Delete`: the row with the entry's id goes; its id is not handed out again. */
    method Delete(entry: ChangelogEntry)
      requires Valid()
      modifies this
      ensures Valid() && nextId == old(nextId)
      ensures rows == old(rows) - {entry.id}
    {
      rows := rows - {entry.id};
    }

    /** `getAllChanges`: every row once, newest `changeDate` first; equal dates in no promised order. */
    method GetAllChanges() returns (r: seq<ChangelogEntry>)
      requires Valid()
      ensures Order.SortedDesc(r, DateOf) && Order.UniqueBy(r, IdOf)
      ensures |r| == |rows|
      ensures forall e :: e in r <==> e.id in rows && rows[e.id] == e
    {
      assert forall k :: k in rows ==> IdOf(rows[k]) == k;
      r := Order.SortedValues(rows, IdOf, DateOf);
    }

    /** `getUserVisibleChanges`: exactly the visible rows, each once, newest first. */
    method GetUserVisibleChanges() returns (r: seq<ChangelogEntry>)
      requires Valid()
      ensures Order.SortedDesc(r, DateOf) && Order.UniqueBy(r, IdOf)
      ensures forall e :: e in r <==> e.id in rows && rows[e.id] == e && e.isUserVisible
    {
      var all := GetAllChanges();
      r := Order.Filter(all, IsVisible);
      Order.FilterSorted(all, IsVisible, DateOf);
      Order.FilterUnique(all, IsVisible, IdOf);
      forall e | e in all && e.isUserVisible ensures e in r {
        var i :| 0 <= i < |all| && all[i] == e;
      }
    }

    /** `getChangesByVersion`: exactly the rows of that version name, each once; no order is promised. */
    method GetChangesByVersion(versionName: string) returns (r: seq<ChangelogEntry>)
      requires Valid()
      ensures Order.UniqueBy(r, IdOf)
      ensures forall e :: e in r <==> e.id in rows && rows[e.id] == e && e.versionName == versionName
    {
      var all := GetAllChanges();
      var ofVersion := (e: ChangelogEntry) => e.versionName == versionName;
      r := Order.Filter(all, ofVersion);
      Order.FilterUnique(all, ofVersion, IdOf);
      forall e | e in all && ofVersion(e) ensures e in r {
        var i :| 0 <= i < |all| && all[i] == e;
      }
    }

    /** `getAllVersions`: every version name in the table, each exactly once. */
    method GetAllVersions() returns (r: seq<string>)
      requires Valid()
      ensures forall i, j :: 0 <= i < j < |r| ==> r[i] != r[j]
      ensures forall v :: v in r <==> exists k :: k in rows && rows[k].versionName == v
    {
      assert forall k :: k in rows ==> IdOf(rows[k]) == k;
      var all := Order.SortedValues(rows, IdOf, CodeOf);
      var names := seq(|all|, i requires 0 <= i < |all| => all[i].versionName);
      r := Order.Distinct(names);
      forall v | v in r ensures exists k :: k in rows && rows[k].versionName == v {
        var i :| 0 <= i < |names| && names[i] == v;
        assert all[i] in all;
        assert all[i].id in rows && rows[all[i].id] == all[i];
      }
      forall v | exists k :: k in rows && rows[k].versionName == v ensures v in r {
        var k :| k in rows && rows[k].versionName == v;
        assert IdOf(rows[k]) == k;
        assert rows[k] in all;
        var i :| 0 <= i < |all| && all[i] == rows[k];
        assert names[i] == v;
      }
    }
  }
}
