/**
 * The core of `list_unused_disks_to_csv`: collect the disk URLs that instances
 * reference, keep the disks whose `selfLink` is not among them, label each kept
 * disk with a storage tier, and emit one report row per kept disk after a header.
 */
module UnusedDisks {
  import opened Inventory

  // ---------------------------------------------------------------------------
  // The attached set
  // ---------------------------------------------------------------------------

  /** The `source` URLs named by a list of disk references. */
  function Sources(refs: seq<AttachedDisk>): set<string>
  {
    if refs == [] then {} else Sources(refs[..|refs| - 1]) + {refs[|refs| - 1].source}
  }

  /** The attached set: the union, over all instances, of the sources of their disk references. */
  function AttachedSources(instances: seq<Instance>): set<string>
  {
    if instances == [] then {}
    else AttachedSources(instances[..|instances| - 1]) + Sources(DiskRefs(instances[|instances| - 1]))
  }

  /** Some disk reference of some instance names `src` as its source. */
  ghost predicate Referenced(instances: seq<Instance>, src: string)
  {
    exists i, k :: 0 <= i < |instances| && 0 <= k < |DiskRefs(instances[i])| && DiskRefs(instances[i])[k].source == src
  }

  lemma {:induction false} SourcesIff(refs: seq<AttachedDisk>, src: string)
    ensures src in Sources(refs) <==> exists k :: 0 <= k < |refs| && refs[k].source == src
  {
    if refs != [] {
      var init := refs[..|refs| - 1];
      SourcesIff(init, src);
      if src in Sources(init) {
        var k :| 0 <= k < |init| && init[k].source == src;
        assert refs[k] == init[k];
      }
      if exists k :: 0 <= k < |refs| && refs[k].source == src {
        var k :| 0 <= k < |refs| && refs[k].source == src;
        if k < |init| {
          assert init[k] == refs[k];
        }
      }
    }
  }

  /** A URL is in the attached set exactly when some instance references it. */
  lemma {:induction false} AttachedSourcesIff(instances: seq<Instance>, src: string)
    ensures src in AttachedSources(instances) <==> Referenced(instances, src)
  {
    if instances != [] {
      var n := |instances| - 1;
      var init := instances[..n];
      AttachedSourcesIff(init, src);
      SourcesIff(DiskRefs(instances[n]), src);
      if Referenced(init, src) {
        var i, k :| 0 <= i < |init| && 0 <= k < |DiskRefs(init[i])| && DiskRefs(init[i])[k].source == src;
        assert init[i] == instances[i];
      }
      if src in Sources(DiskRefs(instances[n])) {
        var k :| 0 <= k < |DiskRefs(instances[n])| && DiskRefs(instances[n])[k].source == src;
        assert Referenced(instances, src);
      }
      if Referenced(instances, src) {
        var i, k :| 0 <= i < |instances| && 0 <= k < |DiskRefs(instances[i])| && DiskRefs(instances[i])[k].source == src;
        if i < n {
          assert init[i] == instances[i];
          assert Referenced(init, src);
        }
      }
    }
  }

  /** The attached set of a concatenation of listings is the union of their attached sets. */
  lemma {:induction false} AttachedSourcesAppend(a: seq<Instance>, b: seq<Instance>)
    ensures AttachedSources(a + b) == AttachedSources(a) + AttachedSources(b)
  {
    if b == [] {
      assert a + b == a;
    } else {
      var n := |b| - 1;
      AttachedSourcesAppend(a, b[..n]);
      assert (a + b)[..|a + b| - 1] == a + b[..n];
      assert (a + b)[|a + b| - 1] == b[n];
    }
  }

  /** An instance without disk references (no `disks` key, or an empty list) adds nothing, wherever it is listed. */
  lemma DisklessInstanceAddsNothing(before: seq<Instance>, instance: Instance, after: seq<Instance>)
    requires DiskRefs(instance) == []
    ensures AttachedSources(before + [instance] + after) == AttachedSources(before + after)
  {
    AttachedSourcesAppend(before + [instance], after);
    AttachedSourcesAppend(before, [instance]);
    AttachedSourcesAppend(before, after);
    assert [instance][..0] == [];
  }

  /**
   * Builds the attached set the way the source does: start from the empty set
   * and add the source of every disk reference of every instance.
   */
  method CollectAttached(instances: seq<Instance>) returns (attached: set<string>)
    ensures attached == AttachedSources(instances)
    ensures forall src :: src in attached <==> Referenced(instances, src)
  {
    attached := {};
    for i := 0 to |instances|
      invariant attached == AttachedSources(instances[..i])
    {
      var refs := DiskRefs(instances[i]);
      for k := 0 to |refs|
        invariant attached == AttachedSources(instances[..i]) + Sources(refs[..k])
      {
        assert refs[..k + 1][..k] == refs[..k];
        attached := attached + {refs[k].source};
      }
      assert refs[..|refs|] == refs;
      assert instances[..i + 1][..i] == instances[..i];
    }
    assert instances[..|instances|] == instances;
    forall src
      ensures src in attached <==> Referenced(instances, src)
    {
      AttachedSourcesIff(instances, src);
    }
  }

  // ---------------------------------------------------------------------------
  // The unused disks
  // ---------------------------------------------------------------------------

  /**
   * The disks whose `selfLink` is not in the attached set, in listing order.
   * Every listed disk is either kept or has its `selfLink` attached, never both.
   */
  function Unused(disks: seq<Disk>, attached: set<string>): seq<Disk>
  {
    if disks == [] then []
    else if disks[0].selfLink in attached then Unused(disks[1..], attached)
    else [disks[0]] + Unused(disks[1..], attached)
  }

  /**
   * Partition: a disk is kept exactly when it is listed and its `selfLink` is not
   * attached, so every listed disk is either kept or attached, never both.
   */
  lemma {:induction false} UnusedPartition(disks: seq<Disk>, attached: set<string>)
    ensures |Unused(disks, attached)| <= |disks|
    ensures forall d :: d in Unused(disks, attached) <==> d in disks && d.selfLink !in attached
  {
    if disks != [] {
      UnusedPartition(disks[1..], attached);
      assert disks == [disks[0]] + disks[1..];
    }
  }

  /** Filtering distributes over concatenation: no kept disk moves across a boundary. */
  lemma {:induction false} UnusedAppend(a: seq<Disk>, b: seq<Disk>, attached: set<string>)
    ensures Unused(a + b, attached) == Unused(a, attached) + Unused(b, attached)
  {
    if a == [] {
      assert a + b == b;
    } else {
      var kept := if a[0].selfLink in attached then [] else [a[0]];
      assert (a + b)[0] == a[0];
      assert (a + b)[1..] == a[1..] + b;
      assert Unused(a + b, attached) == kept + Unused(a[1..] + b, attached);
      UnusedAppend(a[1..], b, attached);
      assert Unused(a, attached) == kept + Unused(a[1..], attached);
    }
  }

  /** Every kept disk is kept as many times as it is listed; an attached one, never. */
  lemma {:induction false} UnusedMultiplicity(disks: seq<Disk>, attached: set<string>, d: Disk)
    ensures multiset(Unused(disks, attached))[d] == if d.selfLink in attached then 0 else multiset(disks)[d]
  {
    if disks != [] {
      UnusedMultiplicity(disks[1..], attached, d);
      assert disks == [disks[0]] + disks[1..];
    }
  }

  /** A listing whose every disk is attached leaves nothing unused. */
  lemma {:induction false} NothingUnused(disks: seq<Disk>, attached: set<string>)
    requires forall d :: d in disks ==> d.selfLink in attached
    ensures Unused(disks, attached) == []
  {
    if disks != [] {
      assert disks[0] in disks;
      NothingUnused(disks[1..], attached);
    }
  }

  /** The kept disk listed at `j` sits in the unused list right after the disks kept before it. */
  lemma UnusedPosition(disks: seq<Disk>, attached: set<string>, j: int)
    requires 0 <= j < |disks| && disks[j].selfLink !in attached
    ensures |Unused(disks[..j], attached)| < |Unused(disks, attached)|
    ensures Unused(disks, attached)[|Unused(disks[..j], attached)|] == disks[j]
  {
    var rest := disks[j..];
    assert disks == disks[..j] + rest;
    UnusedAppend(disks[..j], rest, attached);
    assert rest == [disks[j]] + rest[1..];
    assert Unused(rest, attached) == [disks[j]] + Unused(rest[1..], attached);
  }

  /** Kept disks appear in the unused list in their listing order. */
  lemma UnusedOrder(disks: seq<Disk>, attached: set<string>, i: int, j: int)
    requires 0 <= i < j < |disks|
    requires disks[i].selfLink !in attached && disks[j].selfLink !in attached
    ensures |Unused(disks[..i], attached)| < |Unused(disks[..j], attached)|
  {
    assert disks[..j] == disks[..i] + disks[i..j];
    UnusedAppend(disks[..i], disks[i..j], attached);
    assert disks[i] in disks[i..j];
  }

  // ---------------------------------------------------------------------------
  // The tier label
  // ---------------------------------------------------------------------------

  /** `sub` occurs in `s` starting at position `i`. */
  ghost predicate OccursAt(s: string, sub: string, i: nat)
  {
    i + |sub| <= |s| && s[i..i + |sub|] == sub
  }

  /** `sub` is a substring of `s`. */
  ghost predicate Mentions(s: string, sub: string)
  {
    exists i: nat :: OccursAt(s, sub, i)
  }

  /** Python's substring test `sub in s` (true for an empty `sub`). */
  function Contains(s: string, sub: string): (found: bool)
    ensures found <==> Mentions(s, sub)
    decreases |s|
  {
    if |s| < |sub| then false
    else if s[..|sub|] == sub then (assert OccursAt(s, sub, 0); true)
    else (MentionsPastHead(s, sub); Contains(s[1..], sub))
  }

  /** When `sub` does not start `s`, it occurs in `s` exactly when it occurs in `s[1..]`. */
  lemma MentionsPastHead(s: string, sub: string)
    requires |sub| <= |s| && s[..|sub|] != sub
    ensures Mentions(s, sub) <==> Mentions(s[1..], sub)
  {
    if Mentions(s, sub) {
      var i: nat :| OccursAt(s, sub, i);
      assert i != 0;
      assert s[1..][i - 1..i - 1 + |sub|] == s[i..i + |sub|];
      assert OccursAt(s[1..], sub, i - 1);
    }
    if Mentions(s[1..], sub) {
      var i: nat :| OccursAt(s[1..], sub, i);
      assert s[1..][i..i + |sub|] == s[i + 1..i + 1 + |sub|];
      assert OccursAt(s, sub, i + 1);
    }
  }

  /**
   * The tier label of a disk's optional `type`: markers are tried in the order
   * `pd-ssd`, `pd-balanced`, `pd-standard`; an absent type or no match gives "unknown".
   */
  function Classify(diskType: Option<string>): (tier: string)
    ensures tier in {"SSD", "Balanced", "Standard", "unknown"}
    ensures tier == "SSD" <==> diskType.Some? && Mentions(diskType.value, "pd-ssd")
    ensures tier == "Balanced" <==>
      diskType.Some? && !Mentions(diskType.value, "pd-ssd") && Mentions(diskType.value, "pd-balanced")
    ensures tier == "Standard" <==>
      diskType.Some? && !Mentions(diskType.value, "pd-ssd") && !Mentions(diskType.value, "pd-balanced")
      && Mentions(diskType.value, "pd-standard")
    ensures tier == "unknown" <==>
      diskType.None? || (!Mentions(diskType.value, "pd-ssd") && !Mentions(diskType.value, "pd-balanced")
                         && !Mentions(diskType.value, "pd-standard"))
  {
    match diskType
    case None => "unknown"
    case Some(t) =>
      if Contains(t, "pd-ssd") then "SSD"
      else if Contains(t, "pd-balanced") then "Balanced"
      else if Contains(t, "pd-standard") then "Standard"
      else "unknown"
  }

  // ---------------------------------------------------------------------------
  // The report
  // ---------------------------------------------------------------------------

  /** One CSV row: disk name, zone and tier label. */
  datatype Row = Row(name: string, zone: string, tier: string)

  const Header := Row("Disk Name", "Zone", "Disk Type")

  /** The file the report is written to. */
  const CsvFile := "unused_disks.csv"

  /** The row written for one unused disk. */
  function DiskRow(disk: Disk): Row
  {
    Row(disk.name, disk.zone, Classify(disk.diskType))
  }

  /** `rows` is the header followed by one row per disk of `unused`, in that order. */
  ghost predicate IsReport(rows: seq<Row>, unused: seq<Disk>)
  {
    |rows| == |unused| + 1 && rows[0] == Header
    && forall i :: 0 <= i < |unused| ==> rows[i + 1] == DiskRow(unused[i])
  }

  /** Writes the header, then one row per unused disk, appending as the CSV writer does. */
  method WriteRows(unused: seq<Disk>) returns (rows: seq<Row>)
    ensures IsReport(rows, unused)
  {
    rows := [Header];
    for i := 0 to |unused|
      invariant |rows| == i + 1 && rows[0] == Header
      invariant forall k :: 0 <= k < i ==> rows[k + 1] == DiskRow(unused[k])
    {
      var disk := unused[i];
      rows := rows + [Row(disk.name, disk.zone, Classify(disk.diskType))];
    }
  }

  /** The listing whose failure ended the run. */
  datatype Stage = ListingDisks | ListingInstances

  /** A run either stops before writing anything, or writes the report to a file. */
  datatype Outcome = Aborted(failedAt: Stage, error: string) | Written(file: string, rows: seq<Row>)

  /**
   * The whole run, given the outcomes of the two listings. A failed disk listing
   * ends the run before the instances are listed; a failed instance listing ends
   * it before anything is written; otherwise the report of the unused disks is written.
   */
  method ListUnusedDisksToCsv(disksFetch: Fetch<Disk>, instancesFetch: Fetch<Instance>) returns (outcome: Outcome)
    ensures disksFetch.ProcessFailed? ==> outcome == Aborted(ListingDisks, disksFetch.error)
    ensures disksFetch.Fetched? && instancesFetch.ProcessFailed? ==>
      outcome == Aborted(ListingInstances, instancesFetch.error)
    ensures disksFetch.Fetched? && instancesFetch.Fetched? ==>
      outcome.Written? && outcome.file == CsvFile
      && IsReport(outcome.rows, Unused(disksFetch.records, AttachedSources(instancesFetch.records)))
  {
    if disksFetch.ProcessFailed? {
      return Aborted(ListingDisks, disksFetch.error);
    }
    var allDisks := disksFetch.records;
    if instancesFetch.ProcessFailed? {
      return Aborted(ListingInstances, instancesFetch.error);
    }
    var instances := instancesFetch.records;
    var attached := CollectAttached(instances);
    var unused := Unused(allDisks, attached);
    var rows := WriteRows(unused);
    return Written(CsvFile, rows);
  }

  /** Identical listings give identical reports. */
  lemma ReportDeterministic(rows1: seq<Row>, rows2: seq<Row>, unused: seq<Disk>)
    requires IsReport(rows1, unused) && IsReport(rows2, unused)
    ensures rows1 == rows2
  {
    assert forall i :: 0 <= i < |rows1| ==> rows1[i] == rows2[i] by {
      forall i | 0 <= i < |rows1|
        ensures rows1[i] == rows2[i]
      {
        if i > 0 {
          assert rows1[(i - 1) + 1] == DiskRow(unused[i - 1]);
        }
      }
    }
  }

  /** When every listed disk is attached, the report is the header row alone. */
  lemma AllAttachedHeaderOnly(disks: seq<Disk>, instances: seq<Instance>, rows: seq<Row>)
    requires forall d :: d in disks ==> d.selfLink in AttachedSources(instances)
    requires IsReport(rows, Unused(disks, AttachedSources(instances)))
    ensures rows == [Header]
  {
    NothingUnused(disks, AttachedSources(instances));
  }

  /**
   * Two disks, the first attached to the only instance: the report lists just
   * the second, labelled "Standard".
   */
  lemma OneAttachedOneUnused(rows: seq<Row>)
    requires IsReport(rows, Unused(
      [ Disk("u/A", "d1", "z1", Some("pd-ssd")), Disk("u/B", "d2", "z1", Some("pd-standard")) ],
      AttachedSources([Instance(Some([AttachedDisk("u/A")]))])))
    ensures rows == [Header, Row("d2", "z1", "Standard")]
  {
    var diskB := Disk("u/B", "d2", "z1", Some("pd-standard"));
    ExampleAttached();
    ExampleUnused(diskB);
    ExampleTier();
    assert rows[1] == DiskRow(diskB);
  }

  /** The example's attached set, its unused list and the second disk's tier. */
  lemma ExampleAttached()
    ensures AttachedSources([Instance(Some([AttachedDisk("u/A")]))]) == {"u/A"}
  {
  }

  lemma ExampleUnused(diskB: Disk)
    requires diskB.selfLink == "u/B"
    ensures Unused([Disk("u/A", "d1", "z1", Some("pd-ssd")), diskB], {"u/A"}) == [diskB]
  {
    var disks := [Disk("u/A", "d1", "z1", Some("pd-ssd")), diskB];
    assert disks[1..] == [diskB];
    assert [diskB][1..] == [];
    assert "u/B" !in {"u/A"} by { assert "u/B"[2] != "u/A"[2]; }
    assert Unused([diskB], {"u/A"}) == [diskB] + Unused([], {"u/A"});
  }

  lemma ExampleTier()
    ensures Classify(Some("pd-standard")) == "Standard"
  {
    var ssd := "pd-ssd";
    assert Contains("pd-standard", ssd) == Contains("d-standard", ssd) by { assert "pd-standard"[4] != ssd[4]; }
    assert Contains("d-standard", ssd) == Contains("-standard", ssd) by { assert "d-standard"[0] != ssd[0]; }
    assert Contains("-standard", ssd) == Contains("standard", ssd) by { assert "-standard"[0] != ssd[0]; }
    assert Contains("standard", ssd) == Contains("tandard", ssd) by { assert "standard"[0] != ssd[0]; }
    assert Contains("tandard", ssd) == Contains("andard", ssd) by { assert "tandard"[0] != ssd[0]; }
    assert !Contains("andard", ssd) by { assert "andard"[0] != ssd[0]; }
  }
}
