/**
 * Properties of the disk assembler stated on its pure specification
 * (`AncestorChain`, `Path`, `Attach`, `Step`, `Assemble`), which the
 * imperative `GetAllDisks` is proved to follow.
 */
module AssemblyProperties {
  import opened Wrappers
  import opened Devices
  import opened SystemDisk
  import opened SystemDisks

  /** Whether the classification loop acts on `d` at all. */
  predicate Classified(d: Device) {
    d.IsDisk() || d.IsPartition()
  }

  /** The nodes that become keys of the root registry: the chain roots of the classified devices. */
  function RootKeys(devices: seq<Device>): set<string>
  {
    set i | 0 <= i < |devices| && Classified(devices[i]) :: AncestorChain(devices[i])[0].node
  }

  /** The roots of a list are those of all but its last device, plus the last device's chain root if it is classified. */
  lemma RootKeysLast(devices: seq<Device>)
    requires devices != []
    ensures var last := devices[|devices| - 1];
            RootKeys(devices) ==
              RootKeys(devices[..|devices| - 1]) + if Classified(last) then {AncestorChain(last)[0].node} else {}
  {
    var prefix := devices[..|devices| - 1];
    var last := devices[|devices| - 1];
    forall k | k in RootKeys(prefix) ensures k in RootKeys(devices) {
      var i :| 0 <= i < |prefix| && Classified(prefix[i]) && AncestorChain(prefix[i])[0].node == k;
      assert devices[i] == prefix[i];
    }
    forall k | k in RootKeys(devices) ensures k in RootKeys(prefix) || (Classified(last) && k == AncestorChain(last)[0].node) {
      var i :| 0 <= i < |devices| && Classified(devices[i]) && AncestorChain(devices[i])[0].node == k;
      if i < |prefix| {
        assert prefix[i] == devices[i];
      }
    }
    if Classified(last) {
      assert AncestorChain(last)[0].node in RootKeys(devices);
    }
  }

  /**
   * The registry holds exactly the chain roots of the classified devices:
   * keys are never removed, an unclassified device adds none, and the
   * intermediate and last elements of a chain never become keys of their own.
   */
  lemma {:induction false} AssembleKeys(devices: seq<Device>)
    ensures Assemble(devices).Keys == RootKeys(devices)
    decreases |devices|
  {
    if devices != [] {
      AssembleKeys(devices[..|devices| - 1]);
      RootKeysLast(devices);
    }
  }

  /** Enumerating more devices never removes a key. */
  lemma {:induction false} AssembleKeysGrow(devices: seq<Device>, more: seq<Device>)
    ensures Assemble(devices).Keys <= Assemble(devices + more).Keys
  {
    AssembleKeys(devices);
    AssembleKeys(devices + more);
    forall k | k in RootKeys(devices) ensures k in RootKeys(devices + more) {
      var i :| 0 <= i < |devices| && Classified(devices[i]) && AncestorChain(devices[i])[0].node == k;
      assert (devices + more)[i] == devices[i];
    }
  }

  /** Every node of `t` has at most one partition. */
  ghost predicate Linear(t: Tree)
  {
    |t.partitions| <= 1 && forall c <- t.partitions :: Linear(c)
  }

  /** The devices along the first-partition path of `t`, from the top. */
  function Spine(t: Tree): (devices: seq<Device>)
    ensures |devices| >= 1 && devices[0] == t.device
  {
    [t.device] + if |t.partitions| == 0 then [] else Spine(t.partitions[0])
  }

  /** Number of nodes of `t`. */
  function Size(t: Tree): nat
  {
    1 + SizeAll(t.partitions)
  }

  function SizeAll(ts: seq<Tree>): nat
  {
    if ts == [] then 0 else Size(ts[0]) + SizeAll(ts[1..])
  }

  /**
   * The builders made for `chain[i..]` form a linear path that spells the
   * chain out in order, one builder per element.
   */
  lemma {:induction false} PathIsChain(chain: seq<Device>, i: nat)
    requires i < |chain|
    ensures Linear(Path(chain, i))
    ensures Spine(Path(chain, i)) == chain[i..]
    ensures Size(Path(chain, i)) == |chain| - i
    decreases |chain| - i
  {
    if i + 1 < |chain| {
      PathIsChain(chain, i + 1);
      assert Path(chain, i).partitions == [Path(chain, i + 1)];
      assert SizeAll([Path(chain, i + 1)]) == Size(Path(chain, i + 1)) + SizeAll([]);
      assert chain[i..] == [chain[i]] + chain[i + 1..];
    }
  }

  /**
   * A partition whose chain has length k adds one child to its root, made of
   * k - 1 fresh nodes, and changes nothing else.
   */
  lemma AttachAddsOneChild(staged: map<string, Tree>, chain: seq<Device>)
    requires |chain| >= 2
    ensures var r := Attach(staged, chain);
            var before := if chain[0].node in staged then staged[chain[0].node].partitions else [];
            && |r[chain[0].node].partitions| == |before| + 1
            && r[chain[0].node].partitions[..|before|] == before
            && Linear(r[chain[0].node].partitions[|before|])
            && Spine(r[chain[0].node].partitions[|before|]) == chain[1..]
            && Size(r[chain[0].node].partitions[|before|]) == |chain| - 1
  {
    PathIsChain(chain, 1);
  }

  /**
   * Devices listed disk-first: each device fits after the devices listed
   * before it (see `FitsAfter`).
   */
  ghost predicate DisksFirst(devices: seq<Device>)
    decreases |devices|
  {
    devices == [] ||
    (DisksFirst(devices[..|devices| - 1]) && FitsAfter(devices[..|devices| - 1], devices[|devices| - 1]))
  }

  /**
   * A disk whose node no earlier disk has, or a partition directly under a
   * disk listed earlier; any other device fits anywhere.
   */
  predicate FitsAfter(earlier: seq<Device>, d: Device)
  {
    && (d.IsDisk() ==> d.node !in DiskNodes(earlier))
    && (d.IsPartition() ==> UnderListedDisk(earlier, d))
  }

  /** `p`'s parent is a disk listed in `earlier`. */
  predicate UnderListedDisk(earlier: seq<Device>, p: Device)
  {
    p.parent.Some? && p.parent.value.IsDisk() && p.parent.value in earlier
  }

  /** The nodes of the disks listed in `devices`. */
  function DiskNodes(devices: seq<Device>): set<string>
    decreases |devices|
  {
    if devices == [] then {}
    else
      var last := devices[|devices| - 1];
      DiskNodes(devices[..|devices| - 1]) + if last.IsDisk() then {last.node} else {}
  }

  /** Leaves for the partitions of `devices` directly under `disk`, in enumeration order. */
  function PartitionsOf(devices: seq<Device>, disk: Device): seq<Tree>
    decreases |devices|
  {
    if devices == [] then []
    else
      var last := devices[|devices| - 1];
      PartitionsOf(devices[..|devices| - 1], disk) +
      if last.IsPartition() && last.parent == Some(disk) then [Tree(last, [])] else []
  }

  /** Every disk listed in `devices` contributes its node. */
  lemma {:induction false} DiskInNodes(devices: seq<Device>, d: Device)
    requires d in devices && d.IsDisk()
    ensures d.node in DiskNodes(devices)
    decreases |devices|
  {
    if devices[|devices| - 1] != d {
      InPrefix(devices, d);
      DiskInNodes(devices[..|devices| - 1], d);
    }
  }

  /**
   * Under the disk-first layout, a disk whose node no listed disk has has
   * no partition among the listed devices.
   */
  lemma {:induction false} NewDiskHasNoPartitions(devices: seq<Device>, disk: Device)
    requires DisksFirst(devices) && disk.IsDisk() && disk.node !in DiskNodes(devices)
    ensures PartitionsOf(devices, disk) == []
    decreases |devices|
  {
    if devices != [] {
      var prefix := devices[..|devices| - 1];
      var last := devices[|devices| - 1];
      NewDiskHasNoPartitions(prefix, disk);
      if last.IsPartition() && last.parent == Some(disk) {
        DiskInNodes(prefix, disk);
        assert false;
      }
    }
  }

  /** A listed device other than the last is listed before the last. */
  lemma InPrefix(devices: seq<Device>, d: Device)
    requires d in devices && d != devices[|devices| - 1]
    ensures d in devices[..|devices| - 1]
  {
    var i :| 0 <= i < |devices| && devices[i] == d;
    assert devices[..|devices| - 1][i] == d;
  }

  /** If `disk` is a disk, `staged` holds under its node `disk` with its partitions of `devices` in order. */
  ghost predicate LaidOut(devices: seq<Device>, staged: map<string, Tree>, disk: Device)
  {
    disk.IsDisk() ==> disk.node in staged && staged[disk.node] == Tree(disk, PartitionsOf(devices, disk))
  }

  /** `staged` holds, under each disk's node, that disk with its partitions of `devices` in order. */
  ghost predicate Layout(devices: seq<Device>, staged: map<string, Tree>)
  {
    forall d {:trigger LaidOut(devices, staged, d)} :: d in devices ==> LaidOut(devices, staged, d)
  }

  lemma LayoutDisk(devices: seq<Device>)
    requires |devices| > 0 && DisksFirst(devices) && devices[|devices| - 1].IsDisk()
    requires Layout(devices[..|devices| - 1], Assemble(devices[..|devices| - 1]))
    ensures Layout(devices, Assemble(devices))
  {
    var prefix := devices[..|devices| - 1];
    var last := devices[|devices| - 1];
    var staged := Assemble(prefix);
    NewDiskHasNoPartitions(prefix, last);
    forall d | d in devices ensures LaidOut(devices, Assemble(devices), d) {
      if d != last && d.IsDisk() {
        InPrefix(devices, d);
        assert LaidOut(prefix, staged, d);
        DiskInNodes(prefix, d);
      }
    }
  }

  /** A partition listed after its disk is attached as a single leaf under that disk's root. */
  lemma PartitionStep(devices: seq<Device>)
    requires |devices| > 0 && DisksFirst(devices) && devices[|devices| - 1].IsPartition()
    ensures var last := devices[|devices| - 1];
            && UnderListedDisk(devices[..|devices| - 1], last)
            && AncestorChain(last) == [last.parent.value, last]
            && Assemble(devices) == Attach(Assemble(devices[..|devices| - 1]), [last.parent.value, last])
  {
    var last := devices[|devices| - 1];
    var d := last.parent.value;
    assert AncestorChain(d) == [d];
  }

  lemma LayoutPartition(devices: seq<Device>)
    requires |devices| > 0 && DisksFirst(devices) && devices[|devices| - 1].IsPartition()
    requires Layout(devices[..|devices| - 1], Assemble(devices[..|devices| - 1]))
    ensures Layout(devices, Assemble(devices))
  {
    var prefix := devices[..|devices| - 1];
    var last := devices[|devices| - 1];
    PartitionStep(devices);
    var d := last.parent.value;
    var staged := Assemble(prefix);
    assert LaidOut(prefix, staged, d);
    assert Path([d, last], 1) == Tree(last, []);
    var after := Attach(staged, [d, last]);
    forall x | x in devices ensures LaidOut(devices, after, x) {
      if x != last && x.IsDisk() {
        InPrefix(devices, x);
        assert LaidOut(prefix, staged, x);
        if x.node == d.node {
          assert x == d;
          assert PartitionsOf(devices, d) == PartitionsOf(prefix, d) + [Tree(last, [])];
        } else {
          assert PartitionsOf(devices, x) == PartitionsOf(prefix, x);
        }
      }
    }
  }

  lemma LayoutOther(devices: seq<Device>)
    requires |devices| > 0 && !Classified(devices[|devices| - 1])
    requires Layout(devices[..|devices| - 1], Assemble(devices[..|devices| - 1]))
    ensures Layout(devices, Assemble(devices))
  {
    var prefix := devices[..|devices| - 1];
    var last := devices[|devices| - 1];
    var staged := Assemble(prefix);
    assert Assemble(devices) == staged;
    forall d | d in devices ensures LaidOut(devices, staged, d) {
      if d != last && d.IsDisk() {
        InPrefix(devices, d);
        assert LaidOut(prefix, staged, d);
        assert PartitionsOf(devices, d) == PartitionsOf(prefix, d);
      }
    }
  }

  /**
   * Under the disk-first layout the assembler does what its callers expect:
   * one root per listed disk, holding that disk's partitions in enumeration
   * order.
   */
  lemma {:induction false} DisksFirstLayout(devices: seq<Device>)
    requires DisksFirst(devices)
    ensures Layout(devices, Assemble(devices))
    decreases |devices|
  {
    if devices != [] {
      DisksFirstLayout(devices[..|devices| - 1]);
      var last := devices[|devices| - 1];
      if last.IsDisk() {
        LayoutDisk(devices);
      } else if last.IsPartition() {
        LayoutPartition(devices);
      } else {
        LayoutOther(devices);
      }
    }
  }

  /** Under the disk-first layout the only roots are the listed disks. */
  lemma {:induction false} DisksFirstKeys(devices: seq<Device>)
    requires DisksFirst(devices)
    ensures Assemble(devices).Keys == DiskNodes(devices)
    decreases |devices|
  {
    if devices != [] {
      var prefix := devices[..|devices| - 1];
      var last := devices[|devices| - 1];
      DisksFirstKeys(prefix);
      if last.IsPartition() {
        PartitionStep(devices);
        DiskInNodes(prefix, last.parent.value);
      }
    }
  }
}
