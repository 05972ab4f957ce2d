/**
 * Pull-based anti-entropy between the replicas of a global table. For every (target,
 * source) pair the engine keeps a watermark: the latest timestamp of a source-originated
 * write already pulled into the target. A pass scans the source for newer writes that
 * originated there, writes each into the target unless it loses a conflict, and advances
 * the watermark.
 */
module Replication {
  import opened Types
  import opened Items
  import opened Store
  import opened ConflictResolver
  import Metadata

  /** target region -> source region -> watermark. */
  type Watermarks = map<Region, map<Region, int>>

  /*** Maxima of timestamps ***/

  /** `w` is the largest of `floor` and the timestamps in `stamps`. */
  ghost predicate IsMaxStamp(w: int, floor: int, stamps: set<int>)
  {
    && floor <= w
    && (forall t :: t in stamps ==> t <= w)
    && (w == floor || w in stamps)
  }

  /** The witness for the choice in MaxStamp: a non-empty set has an element (not a property of the model). */
  lemma HasElement(stamps: set<int>)
    requires stamps != {}
    ensures exists x :: x in stamps
  {
    if forall x :: x !in stamps {
      assert false;
    }
  }

  ghost function MaxStamp(floor: int, stamps: set<int>): int
    decreases stamps
  {
    if stamps == {} then floor
    else
      HasElement(stamps);
      var x :| x in stamps;
      var m := MaxStamp(floor, stamps - {x});
      if x > m then x else m
  }

  lemma {:induction false} MaxStampIsMax(floor: int, stamps: set<int>)
    ensures IsMaxStamp(MaxStamp(floor, stamps), floor, stamps)
    decreases stamps
  {
    if stamps != {} {
      forall x | x in stamps
        ensures IsMaxStamp(var m := MaxStamp(floor, stamps - {x}); if x > m then x else m, floor, stamps)
      {
        MaxStampIsMax(floor, stamps - {x});
        var w := MaxStamp(floor, stamps - {x});
        forall t | t in stamps ensures t <= (if x > w then x else w) {
          if t != x {
            assert t in stamps - {x};
          }
        }
      }
    }
  }

  /** The maximum is unique, so any loop that computes one computes MaxStamp. */
  lemma MaxStampUnique(w: int, floor: int, stamps: set<int>)
    requires IsMaxStamp(w, floor, stamps)
    ensures w == MaxStamp(floor, stamps)
  {
    MaxStampIsMax(floor, stamps);
  }

  /** The timestamps of the listed items that originated at `origin`. */
  function StampsOf(items: seq<Item>, origin: Region): set<int>
  {
    set j | 0 <= j < |items| && items[j].origin == origin :: items[j].timestamp
  }

  /** The timestamps of the items of `t` passing `f` that originated at `origin`. */
  function SelectedStamps(t: Table, f: ScanFilter, origin: Region): set<int>
  {
    set k | k in Selected(t, f) && t[k].origin == origin :: t[k].timestamp
  }

  lemma StampsOfSnoc(items: seq<Item>, i: nat, origin: Region)
    requires i < |items|
    ensures StampsOf(items[..i + 1], origin) ==
      StampsOf(items[..i], origin) + (if items[i].origin == origin then {items[i].timestamp} else {})
  {
    var a, b := items[..i + 1], items[..i];
    assert forall j :: 0 <= j < i ==> a[j] == b[j];
    assert a[i] == items[i];
  }

  /** One more scanned item keeps a running maximum of the timestamps from `origin` exact. */
  lemma MaxStampSnoc(w: int, floor: int, items: seq<Item>, i: nat, origin: Region)
    requires i < |items| && IsMaxStamp(w, floor, StampsOf(items[..i], origin))
    ensures items[i].origin == origin ==>
      IsMaxStamp(if items[i].timestamp > w then items[i].timestamp else w, floor, StampsOf(items[..i + 1], origin))
    ensures items[i].origin != origin ==> IsMaxStamp(w, floor, StampsOf(items[..i + 1], origin))
  {
    StampsOfSnoc(items, i, origin);
  }

  /** A scan yields the same timestamps as the table it scanned. */
  lemma ScanStamps(items: seq<Item>, t: Table, f: ScanFilter, origin: Region)
    requires IsScan(items, t, f)
    ensures StampsOf(items, origin) == SelectedStamps(t, f, origin)
  {
    forall x | x in SelectedStamps(t, f, origin)
      ensures x in StampsOf(items, origin)
    {
      var k :| k in Selected(t, f) && t[k].origin == origin && t[k].timestamp == x;
      var i :| 0 <= i < |items| && items[i].key == k;
      assert items[i] == t[k];
    }
  }

  /*** Bootstrap of the watermarks ***/

  /** Every item in every replica of the table originated at a region of the replica set. */
  ghost predicate OriginsKnownAt(replicas: map<(TableName, Region), Table>, table: TableName, t: Region, regions: set<Region>)
  {
    forall k :: k in TableOf(replicas, table, t) ==> TableOf(replicas, table, t)[k].origin in regions
  }

  ghost predicate OriginsKnown(replicas: map<(TableName, Region), Table>, table: TableName, regions: set<Region>)
  {
    forall t :: t in regions ==> OriginsKnownAt(replicas, table, t, regions)
  }

  /** Per source: the latest timestamp (at least 0) of the target's items written at that source. */
  ghost function BootRow(replicas: map<(TableName, Region), Table>, table: TableName, t: Region, regions: set<Region>): map<Region, int>
  {
    map s | s in regions :: MaxStamp(0, SelectedStamps(TableOf(replicas, table, t), All, s))
  }

  /**
   * The bootstrap: every (target, source) pair of the replica set gets the latest timestamp
   * among the target's items that originated at the source, or 0. It fails when some item
   * originated outside the replica set (the source dereferences a missing entry there).
   */
  ghost function Bootstrap(replicas: map<(TableName, Region), Table>, table: TableName, regions: set<Region>)
    : (r: Option<Watermarks>)
    ensures r.Some? ==> r.value.Keys == regions
    ensures r.Some? ==> forall t :: t in regions ==> r.value[t].Keys == regions
    ensures r.Some? ==> forall t, s :: t in regions && s in regions ==>
      0 <= r.value[t][s] && forall k :: k in SelectedKeysFrom(TableOf(replicas, table, t), s) ==>
        TableOf(replicas, table, t)[k].timestamp <= r.value[t][s]
  {
    if OriginsKnown(replicas, table, regions)
    then
      BootRowsBound(replicas, table, regions);
      Some(map t | t in regions :: BootRow(replicas, table, t, regions))
    else None
  }

  /** The keys of the items of `t` that originated at `origin`. */
  function SelectedKeysFrom(t: Table, origin: Region): set<Key>
  {
    set k | k in t && t[k].origin == origin
  }

  /** Each bootstrap watermark is at least 0 and at least the timestamp of every item it covers. */
  lemma BootRowsBound(replicas: map<(TableName, Region), Table>, table: TableName, regions: set<Region>)
    ensures forall t, s :: t in regions && s in regions ==>
      0 <= BootRow(replicas, table, t, regions)[s] && forall k :: k in SelectedKeysFrom(TableOf(replicas, table, t), s) ==>
        TableOf(replicas, table, t)[k].timestamp <= BootRow(replicas, table, t, regions)[s]
  {
    forall t, s | t in regions && s in regions
      ensures 0 <= BootRow(replicas, table, t, regions)[s] && forall k :: k in SelectedKeysFrom(TableOf(replicas, table, t), s) ==>
        TableOf(replicas, table, t)[k].timestamp <= BootRow(replicas, table, t, regions)[s]
    {
      var tt := TableOf(replicas, table, t);
      MaxStampIsMax(0, SelectedStamps(tt, All, s));
      forall k | k in SelectedKeysFrom(tt, s)
        ensures tt[k].timestamp <= BootRow(replicas, table, t, regions)[s]
      {
        assert k in Selected(tt, All);
        assert tt[k].timestamp in SelectedStamps(tt, All, s);
      }
    }
  }

  /**
   * A row of running maxima over a whole scan of a replica, every item of which came from the
   * replica set, is that replica's bootstrap row.
   */
  lemma ScannedRow(items: seq<Item>, t: Table, regions: set<Region>, row: map<Region, int>)
    requires IsScan(items, t, All)
    requires row.Keys == regions
    requires forall j :: 0 <= j < |items| ==> items[j].origin in regions
    requires forall s :: s in regions ==> IsMaxStamp(row[s], 0, StampsOf(items, s))
    ensures forall k :: k in t ==> t[k].origin in regions
    ensures row == map s | s in regions :: MaxStamp(0, SelectedStamps(t, All, s))
  {
    forall s | s in regions
      ensures row[s] == MaxStamp(0, SelectedStamps(t, All, s))
    {
      ScanStamps(items, t, All, s);
      MaxStampUnique(row[s], 0, SelectedStamps(t, All, s));
    }
    forall k | k in t
      ensures t[k].origin in regions
    {
      assert k in Selected(t, All);
      var j :| 0 <= j < |items| && items[j].key == k;
    }
  }

  function Zeros(regions: set<Region>): map<Region, int>
  {
    map s | s in regions :: 0
  }

  /** The watermarks a pass uses: the cached ones, or a fresh bootstrap on first use of the table. */
  ghost function MarksFor(marks: map<TableName, Watermarks>, replicas: map<(TableName, Region), Table>,
                          table: TableName, regions: set<Region>): Option<Watermarks>
  {
    if table in marks then Some(marks[table]) else Bootstrap(replicas, table, regions)
  }

  /*** One pass ***/

  /** A scanned source copy is written unless it conflicts with the target's copy and loses. */
  predicate Applies(s: Item, t: Option<Item>, master: Region)
  {
    t.None? || !IsConflict(Some(s), t) || IsWinner(s, t.value, master)
  }

  function ApplyOne(tgt: Table, s: Item, master: Region): Table
  {
    if Applies(s, Find(tgt, s.key), master) then tgt[s.key := s] else tgt
  }

  /** The target after processing the scanned items first to last. */
  function ApplyScan(tgt: Table, items: seq<Item>, master: Region): Table
    decreases |items|
  {
    if items == [] then tgt
    else ApplyOne(ApplyScan(tgt, items[..|items| - 1], master), items[|items| - 1], master)
  }

  /** One more scanned item is applied on top of the ones before it. */
  lemma ApplyScanSnoc(tgt: Table, items: seq<Item>, i: nat, master: Region)
    requires i < |items|
    ensures ApplyScan(tgt, items[..i + 1], master) == ApplyOne(ApplyScan(tgt, items[..i], master), items[i], master)
  {
    assert items[..i + 1][..i] == items[..i];
  }

  /** The replicas after the listed items were written into the target one by one; untouched when none were. */
  function ScanWritten(replicas: map<(TableName, Region), Table>, table: TableName, target: Region,
                       items: seq<Item>, master: Region): map<(TableName, Region), Table>
  {
    if items == [] then replicas
    else replicas[(table, target) := ApplyScan(TableOf(replicas, table, target), items, master)]
  }

  /** Writing one more scanned item applies it to the target as the earlier ones left it. */
  lemma ScanWrittenSnoc(replicas: map<(TableName, Region), Table>, table: TableName, target: Region,
                        items: seq<Item>, i: nat, master: Region)
    requires i < |items|
    ensures var before := ScanWritten(replicas, table, target, items[..i], master);
      ScanWritten(replicas, table, target, items[..i + 1], master) ==
        before[(table, target) := ApplyOne(TableOf(before, table, target), items[i], master)]
  {
    ApplyScanSnoc(TableOf(replicas, table, target), items, i, master);
  }

  function KeysOf(items: seq<Item>): set<Key>
  {
    set i | 0 <= i < |items| :: items[i].key
  }

  /** The keys of the source's items that originated there after the watermark. */
  function Pending(src: Table, source: Region, since: int): set<Key>
  {
    Selected(src, NewerFrom(source, since))
  }

  /** The target after a pass, independent of the order the scan returns items in. */
  function Pulled(tgt: Table, src: Table, source: Region, since: int, master: Region): Table
  {
    map k | k in tgt.Keys + Pending(src, source, since) ::
      if k in Pending(src, source, since) && Applies(src[k], Find(tgt, k), master) then src[k] else tgt[k]
  }

  datatype PullOutcome = Replicated(count: nat) | BootstrapFailed | NoWatermark

  /**
   * The effect of one `pullItems(table, target, source)`: its outcome, the new watermarks and
   * the new replica contents. The outcome counts the items scanned, not the items written.
   */
  ghost function Pull(marks: map<TableName, Watermarks>, replicas: map<(TableName, Region), Table>,
                      table: TableName, target: Region, source: Region, meta: Metadata.TableMetadata)
    : (r: (PullOutcome, map<TableName, Watermarks>, map<(TableName, Region), Table>))
    ensures !r.0.Replicated? ==> r.2 == replicas
    ensures r.0 == BootstrapFailed ==> table !in marks && r.1 == marks
    ensures r.0 == NoWatermark ==> table in r.1 && (target !in r.1[table] || source !in r.1[table][target])
    ensures r.0 == NoWatermark ==> forall t :: t in marks && t != table ==> t in r.1 && r.1[t] == marks[t]
  {
    match MarksFor(marks, replicas, table, meta.regions)
    case None => (BootstrapFailed, marks, replicas)
    case Some(m) =>
      if target !in m || source !in m[target] then (NoWatermark, marks[table := m], replicas)
      else Pass(m, marks, replicas, table, target, source, meta.master)
  }

  /** A pass with the watermarks `m` of the table, which hold the (target, source) pair. */
  ghost function Pass(m: Watermarks, marks: map<TableName, Watermarks>, replicas: map<(TableName, Region), Table>,
                      table: TableName, target: Region, source: Region, master: Region)
    : (r: (PullOutcome, map<TableName, Watermarks>, map<(TableName, Region), Table>))
    requires target in m && source in m[target]
    ensures r.0.Replicated? && table in r.1 && target in r.1[table] && source in r.1[table][target]
    ensures m[target][source] <= r.1[table][target][source]
  {
    var lastSync := m[target][source];
    var src := TableOf(replicas, table, source);
    var tgt := TableOf(replicas, table, target);
    var w := MaxStamp(lastSync, SelectedStamps(src, NewerFrom(source, lastSync), source));
    MaxStampIsMax(lastSync, SelectedStamps(src, NewerFrom(source, lastSync), source));
    ( Replicated(|Pending(src, source, lastSync)|),
      marks[table := m[target := m[target][source := w]]],
      if Pending(src, source, lastSync) == {} then replicas
      else replicas[(table, target) := Pulled(tgt, src, source, lastSync, master)] )
  }

  /*** Lemmas about a pass ***/

  lemma {:induction false} ApplyScanAt(tgt: Table, src: Table, items: seq<Item>, master: Region, k: Key)
    requires forall i :: 0 <= i < |items| ==> items[i].key in src && src[items[i].key] == items[i]
    requires forall i, j :: 0 <= i < j < |items| ==> items[i].key != items[j].key
    ensures k in KeysOf(items) ==> k in src
    ensures Find(ApplyScan(tgt, items, master), k) ==
      if k in KeysOf(items) && Applies(src[k], Find(tgt, k), master) then Some(src[k]) else Find(tgt, k)
    decreases |items|
  {
    if items != [] {
      var n := |items| - 1;
      var p, x := items[..n], items[n];
      assert forall i :: 0 <= i < n ==> p[i] == items[i];
      assert KeysOf(items) == KeysOf(p) + {x.key} by {
        forall y | y in KeysOf(items) ensures y in KeysOf(p) + {x.key} {
          var i :| 0 <= i < |items| && items[i].key == y;
          if i < n { assert p[i].key == y; }
        }
      }
      ApplyScanAt(tgt, src, p, master, k);
      if k == x.key {
        assert k !in KeysOf(p);
        ApplyScanAt(tgt, src, p, master, x.key);
      }
    }
  }

  lemma {:induction false} DistinctKeysCount(items: seq<Item>)
    requires forall i, j :: 0 <= i < j < |items| ==> items[i].key != items[j].key
    ensures |KeysOf(items)| == |items|
    decreases |items|
  {
    if items != [] {
      var n := |items| - 1;
      var p := items[..n];
      assert forall i :: 0 <= i < n ==> p[i] == items[i];
      assert KeysOf(items) == KeysOf(p) + {items[n].key} by {
        forall y | y in KeysOf(items) ensures y in KeysOf(p) + {items[n].key} {
          var i :| 0 <= i < |items| && items[i].key == y;
          if i < n { assert p[i].key == y; }
        }
      }
      DistinctKeysCount(p);
    }
  }

  lemma FindExtensional(a: Table, b: Table)
    requires forall k :: Find(a, k) == Find(b, k)
    ensures a == b
  {
    assert a.Keys == b.Keys by {
      forall k ensures k in a <==> k in b {
        assert Find(a, k) == Find(b, k);
      }
    }
    forall k | k in a ensures a[k] == b[k] {
      assert Find(a, k) == Find(b, k);
    }
  }

  /**
   * Processing a scan of the pending items one by one, in whatever order the scan returned
   * them, gives the target `Pulled` describes; the scan has one item per pending key.
   */
  lemma ScanPullsPending(tgt: Table, src: Table, source: Region, since: int, master: Region, items: seq<Item>)
    requires IsScan(items, src, NewerFrom(source, since))
    ensures ApplyScan(tgt, items, master) == Pulled(tgt, src, source, since, master)
    ensures |items| == |Pending(src, source, since)|
  {
    var f := NewerFrom(source, since);
    assert KeysOf(items) == Pending(src, source, since) by {
      forall k | k in Pending(src, source, since) ensures k in KeysOf(items) {
        var i :| 0 <= i < |items| && items[i].key == k;
      }
    }
    forall k ensures Find(ApplyScan(tgt, items, master), k) == Find(Pulled(tgt, src, source, since, master), k) {
      ApplyScanAt(tgt, src, items, master, k);
    }
    FindExtensional(ApplyScan(tgt, items, master), Pulled(tgt, src, source, since, master));
    DistinctKeysCount(items);
  }

  /** Only pending keys of the target can change. */
  lemma PullTouchesOnlyPending(tgt: Table, src: Table, source: Region, since: int, master: Region, k: Key)
    requires k !in Pending(src, source, since)
    ensures Find(Pulled(tgt, src, source, since, master), k) == Find(tgt, k)
  {
  }

  /** A pending copy is written exactly when it does not conflict with the target's copy, or wins. */
  lemma PulledAtPending(tgt: Table, src: Table, source: Region, since: int, master: Region, k: Key)
    requires k in Pending(src, source, since)
    ensures Find(Pulled(tgt, src, source, since, master), k) ==
      if k !in tgt || !IsConflict(Some(src[k]), Some(tgt[k])) || IsWinner(src[k], tgt[k], master)
      then Some(src[k]) else Some(tgt[k])
  {
  }

  /**
   * Without a conflict the source copy is written whatever the causal order: a target copy
   * whose version strictly dominates the pending copy's is still overwritten by it.
   */
  lemma DominatedCopyOverwrites(tgt: Table, src: Table, source: Region, since: int, master: Region, k: Key)
    requires k in Pending(src, source, since) && k in tgt
    requires Versions.Dominates(tgt[k].version, src[k].version)
    ensures Find(Pulled(tgt, src, source, since, master), k) == Some(src[k])
  {
  }

  /** The replicas a pass leaves: the target replica rewritten when something is pending. */
  lemma PassReplicas(m: Watermarks, marks: map<TableName, Watermarks>, replicas: map<(TableName, Region), Table>,
                     table: TableName, target: Region, source: Region, master: Region)
    requires target in m && source in m[target]
    ensures var src := TableOf(replicas, table, source);
      var lastSync := m[target][source];
      Pass(m, marks, replicas, table, target, source, master).2 ==
        if Pending(src, source, lastSync) == {} then replicas
        else replicas[(table, target) := Pulled(TableOf(replicas, table, target), src, source, lastSync, master)]
  {
  }

  /** The watermarks a pass leaves: those of the table with the (target, source) one advanced. */
  lemma PassMarks(m: Watermarks, marks: map<TableName, Watermarks>, replicas: map<(TableName, Region), Table>,
                  table: TableName, target: Region, source: Region, master: Region)
    requires target in m && source in m[target]
    ensures var lastSync := m[target][source];
      var src := TableOf(replicas, table, source);
      var w := MaxStamp(lastSync, SelectedStamps(src, NewerFrom(source, lastSync), source));
      Pass(m, marks, replicas, table, target, source, master).1 == marks[table := m[target := m[target][source := w]]]
  {
  }

  /**
   * A pass changes only the target replica, and that only when something is pending, and
   * only the (target, source) watermark of the table.
   */
  lemma PassFrame(m: Watermarks, marks: map<TableName, Watermarks>, replicas: map<(TableName, Region), Table>,
                  table: TableName, target: Region, source: Region, master: Region)
    requires target in m && source in m[target]
    ensures var r := Pass(m, marks, replicas, table, target, source, master);
      && (forall p :: p in replicas && p != (table, target) ==> p in r.2 && r.2[p] == replicas[p])
      && (Pending(TableOf(replicas, table, source), source, m[target][source]) == {} ==> r.2 == replicas)
      && (forall t :: t in marks && t != table ==> t in r.1 && r.1[t] == marks[t])
      && table in r.1 && r.1[table].Keys == m.Keys
      && (forall t, s :: t in m && s in m[t] && (t, s) != (target, source) ==>
            s in r.1[table][t] && r.1[table][t][s] == m[t][s])
  {
    PassReplicas(m, marks, replicas, table, target, source, master);
    PassMarks(m, marks, replicas, table, target, source, master);
  }

  /**
   * The (target, source) watermark never decreases, and ends at or above the timestamp of
   * every item the pass scanned.
   */
  lemma PassAdvancesWatermark(m: Watermarks, marks: map<TableName, Watermarks>, replicas: map<(TableName, Region), Table>,
                              table: TableName, target: Region, source: Region, master: Region)
    requires target in m && source in m[target]
    ensures var r := Pass(m, marks, replicas, table, target, source, master);
      var src := TableOf(replicas, table, source);
      && table in r.1 && target in r.1[table] && source in r.1[table][target]
      && m[target][source] <= r.1[table][target][source]
      && (forall k :: k in Pending(src, source, m[target][source]) ==> src[k].timestamp <= r.1[table][target][source])
  {
    var lastSync := m[target][source];
    var src := TableOf(replicas, table, source);
    var stamps := SelectedStamps(src, NewerFrom(source, lastSync), source);
    var w := MaxStamp(lastSync, stamps);
    MaxStampIsMax(lastSync, stamps);
    assert Pass(m, marks, replicas, table, target, source, master).1[table][target][source] == w;
    forall k | k in Pending(src, source, lastSync)
      ensures src[k].timestamp <= w
    {
      assert src[k].timestamp in stamps;
    }
  }

  /** Once the watermark is the maximum of the scanned timestamps, nothing is pending any more. */
  lemma NothingPendingAfterPass(src: Table, source: Region, since: int)
    ensures Pending(src, source, MaxStamp(since, SelectedStamps(src, NewerFrom(source, since), source))) == {}
  {
    var stamps := SelectedStamps(src, NewerFrom(source, since), source);
    var w := MaxStamp(since, stamps);
    MaxStampIsMax(since, stamps);
    forall k | k in src
      ensures !Passes(NewerFrom(source, w), src[k])
    {
      if src[k].origin == source && src[k].timestamp > since {
        assert k in Selected(src, NewerFrom(source, since));
        assert src[k].timestamp in stamps;
      }
    }
  }

  /** Processing a scan of the pending items in order, tracking the latest timestamp, is a pass. */
  lemma PassByScan(m: Watermarks, marks: map<TableName, Watermarks>, replicas: map<(TableName, Region), Table>,
                   table: TableName, target: Region, source: Region, master: Region,
                   scan: seq<Item>, written: map<(TableName, Region), Table>, w: int)
    requires target in m && source in m[target]
    requires IsScan(scan, TableOf(replicas, table, source), NewerFrom(source, m[target][source]))
    requires |scan| == 0 ==> written == replicas
    requires |scan| > 0 ==> written == replicas[(table, target) := ApplyScan(TableOf(replicas, table, target), scan, master)]
    requires IsMaxStamp(w, m[target][source], StampsOf(scan, source))
    ensures Pass(m, marks, replicas, table, target, source, master) ==
      (Replicated(|scan|), marks[table := m[target := m[target][source := w]]], written)
  {
    var lastSync := m[target][source];
    var src := TableOf(replicas, table, source);
    ScanPullsPending(TableOf(replicas, table, target), src, source, lastSync, master, scan);
    ScanStamps(scan, src, NewerFrom(source, lastSync), source);
    MaxStampUnique(w, lastSync, SelectedStamps(src, NewerFrom(source, lastSync), source));
  }

  /** How a pull unfolds, given the watermarks it starts from. */
  lemma PullCases(marks: map<TableName, Watermarks>, replicas: map<(TableName, Region), Table>,
                  table: TableName, target: Region, source: Region, meta: Metadata.TableMetadata)
    ensures MarksFor(marks, replicas, table, meta.regions).None? ==>
      Pull(marks, replicas, table, target, source, meta) == (BootstrapFailed, marks, replicas)
    ensures MarksFor(marks, replicas, table, meta.regions).Some? ==>
      var m := MarksFor(marks, replicas, table, meta.regions).value;
      Pull(marks, replicas, table, target, source, meta) ==
        if target !in m || source !in m[target] then (NoWatermark, marks[table := m], replicas)
        else Pass(m, marks, replicas, table, target, source, meta.master)
  {
  }

  /** A pull that replicated ran a pass with the table's watermarks. */
  lemma ReplicatedPullIsPass(marks: map<TableName, Watermarks>, replicas: map<(TableName, Region), Table>,
                             table: TableName, target: Region, source: Region, meta: Metadata.TableMetadata)
    requires Pull(marks, replicas, table, target, source, meta).0.Replicated?
    ensures MarksFor(marks, replicas, table, meta.regions).Some?
    ensures var m := MarksFor(marks, replicas, table, meta.regions).value;
      && target in m && source in m[target]
      && Pull(marks, replicas, table, target, source, meta) == Pass(m, marks, replicas, table, target, source, meta.master)
  {
  }

  /** A pull of a table whose watermarks are cached, and hold the pair, is a pass with them. */
  lemma CachedPullIsPass(marks: map<TableName, Watermarks>, replicas: map<(TableName, Region), Table>,
                         table: TableName, target: Region, source: Region, meta: Metadata.TableMetadata)
    requires table in marks && target in marks[table] && source in marks[table][target]
    ensures Pull(marks, replicas, table, target, source, meta) == Pass(marks[table], marks, replicas, table, target, source, meta.master)
  {
  }

  /** Pulling a replica into itself leaves it as it was. */
  lemma PulledIntoItself(src: Table, source: Region, since: int, master: Region)
    ensures Pulled(src, src, source, since, master) == src
  {
  }

  /** A second pass with the watermarks the first one left behind scans nothing. */
  lemma SecondPassScansNothing(m: Watermarks, marks: map<TableName, Watermarks>, replicas: map<(TableName, Region), Table>,
                               table: TableName, target: Region, source: Region, master: Region)
    requires target in m && source in m[target]
    ensures var r := Pass(m, marks, replicas, table, target, source, master);
      && table in r.1 && target in r.1[table] && source in r.1[table][target]
      && Pass(r.1[table], r.1, r.2, table, target, source, master).0 == Replicated(0)
  {
    var lastSync := m[target][source];
    var src := TableOf(replicas, table, source);
    var w := MaxStamp(lastSync, SelectedStamps(src, NewerFrom(source, lastSync), source));
    var r := Pass(m, marks, replicas, table, target, source, master);
    assert table in r.1 && target in r.1[table] && source in r.1[table][target] && r.1[table][target][source] == w by {
      assert r.1 == marks[table := m[target := m[target][source := w]]];
    }
    assert TableOf(r.2, table, source) == src by {
      if Pending(src, source, lastSync) != {} {
        if target == source {
          PulledIntoItself(src, source, lastSync, master);
        } else {
          assert (table, source) != (table, target);
        }
      }
    }
    NothingPendingAfterPass(src, source, lastSync);
  }

  /*** Pulls in sequence ***/

  /** A later watermark leaves fewer keys pending. */
  lemma PendingMono(t: Table, source: Region, since: int, later: int)
    requires since <= later
    ensures Pending(t, source, later) <= Pending(t, source, since)
  {
  }

  /**
   * A pass writes into `tgt` only items that originated at `from`, so when it pulls from
   * elsewhere, or from the replica itself, no key originated at `own` becomes pending.
   */
  lemma PulledAddsNonePending(tgt: Table, src: Table, from: Region, since2: int, master: Region,
                              own: Region, since: int)
    requires Pending(tgt, own, since) == {}
    requires from != own || src == tgt
    ensures Pending(Pulled(tgt, src, from, since2, master), own, since) == {}
  {
    if src == tgt {
      PulledIntoItself(src, from, since2, master);
    } else {
      var t := Pulled(tgt, src, from, since2, master);
      forall k | k in t
        ensures !Passes(NewerFrom(own, since), t[k])
      {
        if k in Pending(src, from, since2) && Applies(src[k], Find(tgt, k), master) {
          assert t[k].origin == from;
        } else {
          assert k !in Pending(tgt, own, since);
        }
      }
    }
  }

  /**
   * The (target, source) pair of the table has cached watermarks and nothing at the source
   * is newer than its watermark: pulling the pair would scan nothing.
   */
  ghost predicate Settled(marks: map<TableName, Watermarks>, replicas: map<(TableName, Region), Table>,
                          table: TableName, target: Region, source: Region)
  {
    && table in marks && target in marks[table] && source in marks[table][target]
    && Pending(TableOf(replicas, table, source), source, marks[table][target][source]) == {}
  }

  /** For a cached pair, being settled is exactly a pull returning 0. */
  lemma SettledIffPullsZero(marks: map<TableName, Watermarks>, replicas: map<(TableName, Region), Table>,
                            table: TableName, target: Region, source: Region, meta: Metadata.TableMetadata)
    requires table in marks && target in marks[table] && source in marks[table][target]
    ensures Settled(marks, replicas, table, target, source) <==>
      Pull(marks, replicas, table, target, source, meta).0 == Replicated(0)
  {
    CachedPullIsPass(marks, replicas, table, target, source, meta);
  }

  /** A pull that replicated leaves its own pair settled. */
  lemma PullSettles(marks: map<TableName, Watermarks>, replicas: map<(TableName, Region), Table>,
                    table: TableName, target: Region, source: Region, meta: Metadata.TableMetadata)
    requires Pull(marks, replicas, table, target, source, meta).0.Replicated?
    ensures var r := Pull(marks, replicas, table, target, source, meta);
      Settled(r.1, r.2, table, target, source)
  {
    ReplicatedPullIsPass(marks, replicas, table, target, source, meta);
    var m := MarksFor(marks, replicas, table, meta.regions).value;
    SecondPassScansNothing(m, marks, replicas, table, target, source, meta.master);
    var r := Pass(m, marks, replicas, table, target, source, meta.master);
    CachedPullIsPass(r.1, r.2, table, target, source, meta);
    SettledIffPullsZero(r.1, r.2, table, target, source, meta);
  }

  /** A pass of any pair of any table, run with the watermarks cached for it, keeps a settled pair settled. */
  lemma PassKeepsSettled(m: Watermarks, marks: map<TableName, Watermarks>, replicas: map<(TableName, Region), Table>,
                         table2: TableName, target2: Region, source2: Region, master: Region,
                         table: TableName, target: Region, source: Region)
    requires target2 in m && source2 in m[target2]
    requires table2 == table ==> table2 in marks && m == marks[table2]
    requires Settled(marks, replicas, table, target, source)
    ensures var r := Pass(m, marks, replicas, table2, target2, source2, master);
      Settled(r.1, r.2, table, target, source)
  {
    var r := Pass(m, marks, replicas, table2, target2, source2, master);
    var since := marks[table][target][source];
    PassFrame(m, marks, replicas, table2, target2, source2, master);
    PassAdvancesWatermark(m, marks, replicas, table2, target2, source2, master);
    assert since <= r.1[table][target][source];
    PendingMono(TableOf(r.2, table, source), source, since, r.1[table][target][source]);
    var own := TableOf(replicas, table, source);
    assert Pending(TableOf(r.2, table, source), source, since) == {} by {
      if (table2, target2) == (table, source) {
        var lastSync := m[target2][source2];
        var src2 := TableOf(replicas, table, source2);
        if Pending(src2, source2, lastSync) != {} {
          assert TableOf(r.2, table, source) == Pulled(own, src2, source2, lastSync, master);
          PulledAddsNonePending(own, src2, source2, lastSync, master, source, since);
        }
      }
    }
  }

  /** Any pull, of any pair of any table, keeps a settled pair settled. */
  lemma PullKeepsSettled(marks: map<TableName, Watermarks>, replicas: map<(TableName, Region), Table>,
                         table2: TableName, target2: Region, source2: Region, meta2: Metadata.TableMetadata,
                         table: TableName, target: Region, source: Region)
    requires Settled(marks, replicas, table, target, source)
    ensures var r := Pull(marks, replicas, table2, target2, source2, meta2);
      Settled(r.1, r.2, table, target, source)
  {
    match MarksFor(marks, replicas, table2, meta2.regions)
    case None =>
    case Some(m) =>
      if target2 in m && source2 in m[target2] {
        PassKeepsSettled(m, marks, replicas, table2, target2, source2, meta2.master, table, target, source);
      }
  }

  /** One `pullItems` call: the table, the target and source regions, and the table's metadata. */
  datatype PullCall = PullCall(table: TableName, target: Region, source: Region, meta: Metadata.TableMetadata)

  /** The watermarks and replicas after the calls are made one after another. */
  ghost function RunPulls(marks: map<TableName, Watermarks>, replicas: map<(TableName, Region), Table>,
                          calls: seq<PullCall>): (map<TableName, Watermarks>, map<(TableName, Region), Table>)
    decreases |calls|
  {
    if calls == [] then (marks, replicas)
    else
      var r := Pull(marks, replicas, calls[0].table, calls[0].target, calls[0].source, calls[0].meta);
      RunPulls(r.1, r.2, calls[1..])
  }

  /** A settled pair stays settled through any sequence of pulls. */
  lemma {:induction false} PullsKeepSettled(marks: map<TableName, Watermarks>, replicas: map<(TableName, Region), Table>,
                                            calls: seq<PullCall>, table: TableName, target: Region, source: Region)
    requires Settled(marks, replicas, table, target, source)
    ensures var s := RunPulls(marks, replicas, calls);
      Settled(s.0, s.1, table, target, source)
    decreases |calls|
  {
    if calls != [] {
      var c := calls[0];
      PullKeepsSettled(marks, replicas, c.table, c.target, c.source, c.meta, table, target, source);
      var r := Pull(marks, replicas, c.table, c.target, c.source, c.meta);
      PullsKeepSettled(r.1, r.2, calls[1..], table, target, source);
    }
  }

  /**
   * After a pull of a pair replicated, pulling the pair again returns 0, whatever pulls of any
   * pairs come in between, as long as no client writes to the table in the meantime.
   */
  lemma SecondPullReturnsZero(marks: map<TableName, Watermarks>, replicas: map<(TableName, Region), Table>,
                              table: TableName, target: Region, source: Region, meta: Metadata.TableMetadata,
                              between: seq<PullCall>)
    requires Pull(marks, replicas, table, target, source, meta).0.Replicated?
    ensures var r := Pull(marks, replicas, table, target, source, meta);
      var s := RunPulls(r.1, r.2, between);
      Pull(s.0, s.1, table, target, source, meta).0 == Replicated(0)
  {
    PullSettles(marks, replicas, table, target, source, meta);
    var r := Pull(marks, replicas, table, target, source, meta);
    PullsKeepSettled(r.1, r.2, between, table, target, source);
    var s := RunPulls(r.1, r.2, between);
    SettledIffPullsZero(s.0, s.1, table, target, source, meta);
  }

  /** The outcome of each call when the calls are made one after another. */
  ghost function Outcomes(marks: map<TableName, Watermarks>, replicas: map<(TableName, Region), Table>,
                          calls: seq<PullCall>): (o: seq<PullOutcome>)
    ensures |o| == |calls|
    decreases |calls|
  {
    if calls == [] then []
    else
      var r := Pull(marks, replicas, calls[0].table, calls[0].target, calls[0].source, calls[0].meta);
      [r.0] + Outcomes(r.1, r.2, calls[1..])
  }

  /** The first call is made first: its outcome is among the outcomes, and the rest run on its result. */
  lemma PullsStep(marks: map<TableName, Watermarks>, replicas: map<(TableName, Region), Table>,
                     calls: seq<PullCall>)
    requires calls != []
    ensures var r := Pull(marks, replicas, calls[0].table, calls[0].target, calls[0].source, calls[0].meta);
      var o := Outcomes(marks, replicas, calls);
      && r.0 in o
      && (forall x :: x in Outcomes(r.1, r.2, calls[1..]) ==> x in o)
      && RunPulls(marks, replicas, calls) == RunPulls(r.1, r.2, calls[1..])
  {
    var r := Pull(marks, replicas, calls[0].table, calls[0].target, calls[0].source, calls[0].meta);
    assert Outcomes(marks, replicas, calls) == [r.0] + Outcomes(r.1, r.2, calls[1..]);
  }

  /** Every pair named in `calls` is settled. */
  ghost predicate AllSettled(marks: map<TableName, Watermarks>, replicas: map<(TableName, Region), Table>,
                             calls: seq<PullCall>)
  {
    forall c :: c in calls ==> Settled(marks, replicas, c.table, c.target, c.source)
  }

  /** A pull that replicates settles its own pair and keeps the pairs before it settled. */
  lemma PullExtendsSettled(marks: map<TableName, Watermarks>, replicas: map<(TableName, Region), Table>,
                           earlier: seq<PullCall>, c: PullCall)
    requires AllSettled(marks, replicas, earlier)
    requires Pull(marks, replicas, c.table, c.target, c.source, c.meta).0.Replicated?
    ensures var r := Pull(marks, replicas, c.table, c.target, c.source, c.meta);
      AllSettled(r.1, r.2, earlier + [c])
  {
    var r := Pull(marks, replicas, c.table, c.target, c.source, c.meta);
    forall e | e in earlier
      ensures Settled(r.1, r.2, e.table, e.target, e.source)
    {
      PullKeepsSettled(marks, replicas, c.table, c.target, c.source, c.meta, e.table, e.target, e.source);
    }
    PullSettles(marks, replicas, c.table, c.target, c.source, c.meta);
  }

  /** Pulls that all replicate settle their own pairs and keep the pairs settled before them. */
  lemma {:induction false} RoundSettles(marks: map<TableName, Watermarks>, replicas: map<(TableName, Region), Table>,
                                        earlier: seq<PullCall>, round: seq<PullCall>)
    requires AllSettled(marks, replicas, earlier)
    requires forall o :: o in Outcomes(marks, replicas, round) ==> o.Replicated?
    ensures var s := RunPulls(marks, replicas, round);
      AllSettled(s.0, s.1, earlier) && AllSettled(s.0, s.1, round)
    decreases |round|
  {
    if round != [] {
      var c := round[0];
      var r := Pull(marks, replicas, c.table, c.target, c.source, c.meta);
      PullExtendsSettled(marks, replicas, earlier, c);
      PullsStep(marks, replicas, round);
      RoundSettles(r.1, r.2, earlier + [c], round[1..]);
      var s := RunPulls(r.1, r.2, round[1..]);
      AllSettledSplit(s.0, s.1, earlier, c, round);
    }
  }

  /** The pairs settled before and during a round, split back into the two lists. */
  lemma AllSettledSplit(marks: map<TableName, Watermarks>, replicas: map<(TableName, Region), Table>,
                        earlier: seq<PullCall>, c: PullCall, round: seq<PullCall>)
    requires round != [] && round[0] == c
    requires AllSettled(marks, replicas, earlier + [c]) && AllSettled(marks, replicas, round[1..])
    ensures AllSettled(marks, replicas, earlier) && AllSettled(marks, replicas, round)
  {
    assert c in earlier + [c];
    forall e | e in earlier
      ensures Settled(marks, replicas, e.table, e.target, e.source)
    {
      assert e in earlier + [c];
    }
    forall e | e in round
      ensures Settled(marks, replicas, e.table, e.target, e.source)
    {
      if e != c {
        assert e in round[1..];
      }
    }
  }

  /** Pulls of settled pairs all return 0 and leave those pairs settled. */
  lemma {:induction false} SettledPullsReturnZero(marks: map<TableName, Watermarks>, replicas: map<(TableName, Region), Table>,
                                                  round: seq<PullCall>)
    requires AllSettled(marks, replicas, round)
    ensures forall o :: o in Outcomes(marks, replicas, round) ==> o == Replicated(0)
    decreases |round|
  {
    if round != [] {
      var c := round[0];
      var r := Pull(marks, replicas, c.table, c.target, c.source, c.meta);
      SettledIffPullsZero(marks, replicas, c.table, c.target, c.source, c.meta);
      forall e | e in round[1..]
        ensures Settled(r.1, r.2, e.table, e.target, e.source)
      {
        PullKeepsSettled(marks, replicas, c.table, c.target, c.source, c.meta, e.table, e.target, e.source);
      }
      SettledPullsReturnZero(r.1, r.2, round[1..]);
      assert Outcomes(marks, replicas, round) == [r.0] + Outcomes(r.1, r.2, round[1..]);
    }
  }

  /**
   * A round of pulls that all replicate, made again with no client writes in between, returns
   * 0 on every pull.
   */
  lemma RoundTwoReturnsZero(marks: map<TableName, Watermarks>, replicas: map<(TableName, Region), Table>,
                            round: seq<PullCall>)
    requires forall o :: o in Outcomes(marks, replicas, round) ==> o.Replicated?
    ensures var s := RunPulls(marks, replicas, round);
      forall o :: o in Outcomes(s.0, s.1, round) ==> o == Replicated(0)
  {
    RoundSettles(marks, replicas, [], round);
    var s := RunPulls(marks, replicas, round);
    SettledPullsReturnZero(s.0, s.1, round);
  }

  /**
   * Two regions write the same key concurrently, `a` at the master and `b` elsewhere, as first
   * writes. Pulling in either direction detects the conflict and keeps the master's copy, so
   * both replicas converge on it.
   */
  lemma MasterCopyConverges(a: Item, b: Item, master: Region, other: Region,
                            tMaster: Table, tOther: Table, sinceAtOther: int, sinceAtMaster: int)
    requires master != other
    requires a.key == b.key && a.origin == master && b.origin == other
    requires a.version == Versions.Single(master) && b.version == Versions.Single(other)
    requires tMaster == map[a.key := a] && tOther == map[b.key := b]
    requires a.timestamp > sinceAtOther && b.timestamp > sinceAtMaster
    ensures IsConflict(Some(a), Some(b))
    ensures Find(Pulled(tOther, tMaster, master, sinceAtOther, master), a.key) == Some(a)
    ensures Find(Pulled(tMaster, tOther, other, sinceAtMaster, master), a.key) == Some(a)
  {
    assert master in a.version && other in b.version;
    assert Versions.Count(b.version, master) == 0 && Versions.Count(a.version, other) == 0;
    assert a.key in Pending(tMaster, master, sinceAtOther);
    assert b.key in Pending(tOther, other, sinceAtMaster);
  }
}
