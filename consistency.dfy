/**
 * The agreement between physical memory and the page tables of the
 * registered processes, and the state changes that keep it:
 *  - every present frame owned by a registered process is the frame of a
 *    present entry in that process's table, at the page the frame records;
 *  - every present entry of a registered table names a frame in range that
 *    is present and owned by that (pid, page).
 */
module Consistency {
  import opened Common
  import opened Frames
  import opened PageTables

  type Tables = map<Pid, seq<PageEntry>>

  /** Frame `i`, if present and owned by a registered process, is named by that process's entry for its page. */
  ghost predicate FrameBacked(fr: Frame, i: int, tables: Tables) {
    fr.present == 1 && fr.pid.Some? && fr.pid.value in tables ==>
      && fr.pageNumber.Some?
      && InRange(tables[fr.pid.value], fr.pageNumber.value)
      && tables[fr.pid.value][fr.pageNumber.value].present == 1
      && tables[fr.pid.value][fr.pageNumber.value].frameNumber == Some(i)
  }

  /** Entry `j` of process `p`, if present, names a frame in range owned by (p, j). */
  ghost predicate EntryBacked(fs: seq<Frame>, p: Pid, j: int, e: PageEntry) {
    e.present == 1 ==>
      && e.frameNumber.Some?
      && 0 <= e.frameNumber.value < |fs|
      && fs[e.frameNumber.value].present == 1
      && fs[e.frameNumber.value].pid == Some(p)
      && fs[e.frameNumber.value].pageNumber == Some(j)
  }

  ghost predicate TableBacked(fs: seq<Frame>, p: Pid, t: seq<PageEntry>) {
    forall j {:trigger EntryBacked(fs, p, j, t[j])} :: 0 <= j < |t| ==> EntryBacked(fs, p, j, t[j])
  }

  /** Every present frame owned by a registered process is backed by a present entry naming it. */
  ghost predicate FramesBacked(fs: seq<Frame>, tables: Tables) {
    forall i {:trigger FrameBacked(fs[i], i, tables)} :: 0 <= i < |fs| ==> FrameBacked(fs[i], i, tables)
  }

  /** Every present entry of a registered table names a present frame owned by that (pid, page). */
  ghost predicate EntriesBacked(fs: seq<Frame>, tables: Tables) {
    forall p {:trigger TableBacked(fs, p, tables[p])} :: p in tables ==> TableBacked(fs, p, tables[p])
  }

  /** The whole invariant: frames and tables well shaped, and each side backs the other. */
  ghost predicate Consistent(fs: seq<Frame>, tables: Tables) {
    && TableShape(fs)
    && (forall p :: p in tables ==> Shaped(tables[p]))
    && FramesBacked(fs, tables)
    && EntriesBacked(fs, tables)
  }

  /** `fs2` differs from `fs` at most in use and modified bits. */
  ghost predicate SameOwners(fs: seq<Frame>, fs2: seq<Frame>) {
    |fs2| == |fs| && forall i :: 0 <= i < |fs| ==> fs2[i] == fs[i].(use := fs2[i].use, modified := fs2[i].modified)
  }

  /** `t2` differs from `t` at most in use and modified bits. */
  ghost predicate SameMapping(t: seq<PageEntry>, t2: seq<PageEntry>) {
    |t2| == |t| && forall j :: 0 <= j < |t| ==> t2[j] == t[j].(use := t2[j].use, modified := t2[j].modified)
  }

  /** Registering a process no frame belongs to keeps the invariant. */
  lemma RegisterPreserves(fs: seq<Frame>, tables: Tables, pid: Pid, numPages: int)
    requires Consistent(fs, tables) && pid !in tables
    requires forall i :: 0 <= i < |fs| ==> !OwnedBy(fs[i], pid)
    ensures Consistent(fs, tables[pid := CreatePageTable(numPages)])
  {
    var tables2 := tables[pid := CreatePageTable(numPages)];
    CreatedIsShaped(numPages);
    forall i | 0 <= i < |fs| ensures FrameBacked(fs[i], i, tables2) {
      assert FrameBacked(fs[i], i, tables);
    }
    forall p | p in tables2 ensures TableBacked(fs, p, tables2[p]) {
      if p != pid {
        assert TableBacked(fs, p, tables[p]);
      }
    }
  }

  /** Dropping a process's table keeps the invariant, whatever frames it still holds. */
  lemma UnregisterPreserves(fs: seq<Frame>, tables: Tables, pid: Pid)
    requires Consistent(fs, tables)
    ensures Consistent(fs, tables - {pid})
  {
    var tables2 := tables - {pid};
    forall i | 0 <= i < |fs| ensures FrameBacked(fs[i], i, tables2) {
      assert FrameBacked(fs[i], i, tables);
    }
    forall p | p in tables2 ensures TableBacked(fs, p, tables2[p]) {
      assert TableBacked(fs, p, tables[p]);
    }
  }

  /** Changing only use and modified bits, in frames or entries, keeps the invariant. */
  lemma OwnershipPreserved(fs: seq<Frame>, fs2: seq<Frame>, tables: Tables, tables2: Tables)
    requires Consistent(fs, tables)
    requires SameOwners(fs, fs2)
    requires tables2.Keys == tables.Keys && forall p :: p in tables ==> SameMapping(tables[p], tables2[p])
    ensures Consistent(fs2, tables2)
  {
    assert TableShape(fs2) by {
      forall i | 0 <= i < |fs2| ensures fs2[i].frameNumber == i && WellFormed(fs2[i]) {
        assert fs2[i] == fs[i].(use := fs2[i].use, modified := fs2[i].modified);
      }
    }
    forall p | p in tables2 ensures Shaped(tables2[p]) {
      assert SameMapping(tables[p], tables2[p]);
    }
    forall i | 0 <= i < |fs2| ensures FrameBacked(fs2[i], i, tables2) {
      assert FrameBacked(fs[i], i, tables);
      if fs2[i].present == 1 && fs2[i].pid.Some? && fs2[i].pid.value in tables2 {
        assert SameMapping(tables[fs[i].pid.value], tables2[fs[i].pid.value]);
      }
    }
    forall p | p in tables2 ensures TableBacked(fs2, p, tables2[p]) {
      assert SameMapping(tables[p], tables2[p]);
      assert TableBacked(fs, p, tables[p]);
      forall j | 0 <= j < |tables2[p]| ensures EntryBacked(fs2, p, j, tables2[p][j]) {
        assert EntryBacked(fs, p, j, tables[p][j]);
      }
    }
  }

  /** A present entry of a registered table is resident: its frame is in range and owned by that (pid, page). */
  lemma EntryResident(fs: seq<Frame>, tables: Tables, pid: Pid, page: int)
    requires Consistent(fs, tables)
    requires pid in tables && InRange(tables[pid], page) && tables[pid][page].present == 1
    ensures var f := tables[pid][page].frameNumber.value;
      0 <= f < |fs| && OwnedBy(fs[f], pid) && fs[f].pageNumber == Some(page)
  {
    assert TableBacked(fs, pid, tables[pid]);
    assert EntryBacked(fs, pid, page, tables[pid][page]);
  }

  /** No present entry of a consistent state names a frame that is not present. */
  lemma AbsentFrameUnreferenced(fs: seq<Frame>, tables: Tables, f: int)
    requires Consistent(fs, tables) && 0 <= f < |fs| && fs[f].present == 0
    ensures forall p, j :: p in tables && 0 <= j < |tables[p]| && tables[p][j].present == 1 ==>
      tables[p][j].frameNumber != Some(f)
  {
    forall p, j | p in tables && 0 <= j < |tables[p]| && tables[p][j].present == 1
      ensures tables[p][j].frameNumber != Some(f)
    {
      assert TableBacked(fs, p, tables[p]);
      assert EntryBacked(fs, p, j, tables[p][j]);
    }
  }

  /** Loading an absent page of a registered process into a free frame keeps the invariant. */
  lemma LoadPreserves(fs: seq<Frame>, tables: Tables, pid: Pid, page: int, f: int)
    requires Consistent(fs, tables)
    requires pid in tables && InRange(tables[pid], page) && tables[pid][page].present == 0
    requires 0 <= f < |fs| && IsFree(fs[f])
    ensures Consistent(fs[f := LoadedFrame(f, pid, page)], tables[pid := MarkedPresent(tables[pid], page, f)])
  {
    var fs2 := fs[f := LoadedFrame(f, pid, page)];
    var tables2 := tables[pid := MarkedPresent(tables[pid], page, f)];
    AbsentFrameUnreferenced(fs, tables, f);
    forall i | 0 <= i < |fs2| ensures FrameBacked(fs2[i], i, tables2) {
      assert FrameBacked(fs[i], i, tables);
    }
    forall p | p in tables2 ensures TableBacked(fs2, p, tables2[p]) {
      assert TableBacked(fs, p, tables[p]);
      forall j | 0 <= j < |tables2[p]| ensures EntryBacked(fs2, p, j, tables2[p][j]) {
        assert EntryBacked(fs, p, j, tables[p][j]);
      }
    }
  }

  /** The tables after the victim's own entry has been marked absent, when its process is registered. */
  function VictimUpdated(tables: Tables, victimPid: Pid, victimPage: int): (r: Tables)
    ensures r.Keys == tables.Keys
    ensures forall p :: p in r && p != victimPid ==> r[p] == tables[p]
    ensures victimPid in tables ==> r[victimPid] == MarkedAbsent(tables[victimPid], victimPage)
  {
    if victimPid in tables then tables[victimPid := MarkedAbsent(tables[victimPid], victimPage)] else tables
  }

  /** Freeing the present frame `v` and marking its owner's entry absent (if registered) keeps the invariant. */
  lemma EvictPreserves(fs: seq<Frame>, tables: Tables, v: int)
    requires Consistent(fs, tables)
    requires 0 <= v < |fs| && fs[v].present == 1
    ensures Consistent(fs[v := EmptyFrame(v)], VictimUpdated(tables, fs[v].pid.value, fs[v].pageNumber.value))
  {
    var q, k := fs[v].pid.value, fs[v].pageNumber.value;
    var fs2 := fs[v := EmptyFrame(v)];
    var tables2 := VictimUpdated(tables, q, k);
    assert FrameBacked(fs[v], v, tables);
    forall i | 0 <= i < |fs2| ensures FrameBacked(fs2[i], i, tables2) {
      assert FrameBacked(fs[i], i, tables);
      if i != v && fs[i].present == 1 && fs[i].pid == Some(q) && q in tables {
        assert fs[i].pageNumber.value != k;
      }
    }
    forall p | p in tables2 ensures TableBacked(fs2, p, tables2[p]) {
      assert TableBacked(fs, p, tables[p]);
      forall j | 0 <= j < |tables2[p]| ensures EntryBacked(fs2, p, j, tables2[p][j]) {
        assert EntryBacked(fs, p, j, tables[p][j]);
      }
    }
  }

  /** Marking two different pages, one present and one absent, gives the same table in either order. */
  lemma MarksCommute(t: seq<PageEntry>, page: int, f: int, k: int)
    requires page != k
    ensures MarkedPresent(MarkedAbsent(t, k), page, f) == MarkedAbsent(MarkedPresent(t, page, f), k)
  {
  }

  /**
   * Replacement: evicting the present frame `v`, loading an absent page of
   * a registered process into it, and then marking the victim's own entry
   * absent keeps the invariant.
   */
  lemma {:induction false} ReplacePreserves(fs: seq<Frame>, tables: Tables, pid: Pid, page: int, v: int)
    requires Consistent(fs, tables)
    requires pid in tables && InRange(tables[pid], page) && tables[pid][page].present == 0
    requires 0 <= v < |fs| && fs[v].present == 1
    ensures Consistent(fs[v := LoadedFrame(v, pid, page)],
                       VictimUpdated(tables[pid := MarkedPresent(tables[pid], page, v)],
                                     fs[v].pid.value, fs[v].pageNumber.value))
  {
    var q, k := fs[v].pid.value, fs[v].pageNumber.value;
    EvictPreserves(fs, tables, v);
    var fs1 := fs[v := EmptyFrame(v)];
    var tables1 := VictimUpdated(tables, q, k);
    assert FrameBacked(fs[v], v, tables);
    if q == pid {
      assert k != page;
    }
    LoadPreserves(fs1, tables1, pid, page, v);
    assert fs1[v := LoadedFrame(v, pid, page)] == fs[v := LoadedFrame(v, pid, page)];
    if q == pid {
      MarksCommute(tables[pid], page, v, k);
    }
    assert tables1[pid := MarkedPresent(tables1[pid], page, v)]
        == VictimUpdated(tables[pid := MarkedPresent(tables[pid], page, v)], q, k);
  }

  /** Freeing the frame of one present entry and marking the entry absent keeps the invariant. */
  lemma FreeOnePreserves(fs: seq<Frame>, tables: Tables, pid: Pid, page: int)
    requires Consistent(fs, tables)
    requires pid in tables && InRange(tables[pid], page) && tables[pid][page].present == 1
    ensures var f := tables[pid][page].frameNumber.value;
      && 0 <= f < |fs| && OwnedBy(fs[f], pid) && fs[f].pageNumber == Some(page)
      && Consistent(fs[f := EmptyFrame(f)], tables[pid := MarkedAbsent(tables[pid], page)])
  {
    assert TableBacked(fs, pid, tables[pid]);
    assert EntryBacked(fs, pid, page, tables[pid][page]);
    var f := tables[pid][page].frameNumber.value;
    EvictPreserves(fs, tables, f);
    assert VictimUpdated(tables, pid, page) == tables[pid := MarkedAbsent(tables[pid], page)];
  }

  /** A registered process whose table has no present entry owns no frame. */
  lemma NoEntriesNoFrames(fs: seq<Frame>, tables: Tables, pid: Pid)
    requires Consistent(fs, tables) && pid in tables
    requires forall j :: 0 <= j < |tables[pid]| ==> tables[pid][j].present == 0
    ensures forall i :: 0 <= i < |fs| ==> !OwnedBy(fs[i], pid)
  {
    forall i | 0 <= i < |fs| ensures !OwnedBy(fs[i], pid) {
      assert FrameBacked(fs[i], i, tables);
    }
  }
}
