/**
 * `Disk`, the frozen node of a disk tree, and `Disk.Builder`, the mutable
 * staging node it is frozen from.
 *
 * Both classes carry a ghost field `tree`: the shape (device and ordered
 * partitions, recursively) of the subtree below the object. The local
 * invariants `Staged` and `FrozenNode` tie it to the real fields one node at a
 * time, so that no recursive function over the heap is needed and `tree`
 * doubles as the termination measure of `Build`.
 */
module SystemDisk {
  import opened Wrappers
  import opened Strings
  import opened Devices

  /** A device with its partitions, in order: the shape of a disk tree. */
  datatype Tree = Tree(device: Device, partitions: seq<Tree>)

  class Disk {
    /** The underlying device of this disk. */
    const device: Device
    /** The disk this one is a partition of, if any. */
    var parentDisk: Disk?
    /** The partitions of this disk. */
    var partitions: seq<Disk>
    ghost var tree: Tree

    constructor (device: Device)
      ensures this.device == device && parentDisk == null && partitions == []
      ensures tree == Tree(device, [])
    {
      this.device := device;
      parentDisk := null;
      partitions := [];
      tree := Tree(device, []);
    }

    predicate IsPartition()
      reads this
    {
      parentDisk != null
    }

    function DeviceMajor(): (major: string)
      ensures "MAJOR" in device.properties ==> major == device.properties["MAJOR"]
      ensures "MAJOR" !in device.properties ==> major == "0"
    {
      device.PropertyValue("MAJOR").GetOr("0")
    }

    function DeviceMinor(): (minor: string)
      ensures "MINOR" in device.properties ==> minor == device.properties["MINOR"]
      ensures "MINOR" !in device.properties ==> minor == "0"
    {
      device.PropertyValue("MINOR").GetOr("0")
    }

    /** "MAJOR:MINOR"; the first ":" separates the two when MAJOR has none. */
    function DeviceId(): (id: string)
      ensures |id| == |DeviceMajor()| + 1 + |DeviceMinor()|
      ensures id[..|DeviceMajor()|] == DeviceMajor() && id[|DeviceMajor()|] == ':'
      ensures id[|DeviceMajor()| + 1..] == DeviceMinor()
      ensures ':' !in DeviceMajor() ==> FirstIndexOf(id, ':') == Some(|DeviceMajor()|)
    {
      var id := DeviceMajor() + ":" + DeviceMinor();
      assert ':' !in DeviceMajor() ==> FirstIndexOf(id, ':') == Some(|DeviceMajor()|) by {
        if ':' !in DeviceMajor() { FirstIndexOfAfter(DeviceMajor(), ':', DeviceMinor()); }
      }
      id
    }

    /** True only when the sysfs attribute "removable" is exactly "1". */
    function Removable(): (removable: bool)
      ensures removable <==> "removable" in device.attributes && device.attributes["removable"] == "1"
    {
      device.AttributeValue("removable") == Some("1")
    }

    /** True only when the sysfs attribute "ro" is exactly "1". */
    function ReadOnly(): (readOnly: bool)
      ensures readOnly <==> "ro" in device.attributes && device.attributes["ro"] == "1"
    {
      device.AttributeValue("ro") == Some("1")
    }
  }

  /** MAJOR "8" and MINOR "0" give the device id "8:0". */
  lemma DeviceIdOfSda(d: Disk)
    requires d.device.properties == map["MAJOR" := "8", "MINOR" := "0"]
    ensures d.DeviceId() == "8:0"
  {
  }

  /** Without MAJOR and MINOR the device id is "0:0". */
  lemma DeviceIdDefaults(d: Disk)
    requires "MAJOR" !in d.device.properties && "MINOR" !in d.device.properties
    ensures d.DeviceId() == "0:0"
  {
  }

  /** The local invariant of a frozen disk: its partitions are in `D`, point back to it, and have the shapes its `tree` lists. */
  ghost predicate FrozenNode(d: Disk, D: set<Disk>)
    reads d, D
  {
    && d.tree.device == d.device
    && |d.tree.partitions| == |d.partitions|
    && forall i :: 0 <= i < |d.partitions| ==>
         d.partitions[i] in D && d.partitions[i].parentDisk == d && d.tree.partitions[i] == d.partitions[i].tree
  }

  /** Every disk of `D` is consistent with its shape. */
  ghost predicate Frozen(D: set<Disk>)
    reads D
  {
    forall d {:trigger FrozenNode(d, D)} :: d in D ==> FrozenNode(d, D)
  }

  lemma FrozenUnion(D1: set<Disk>, D2: set<Disk>)
    requires Frozen(D1) && Frozen(D2)
    ensures Frozen(D1 + D2)
  {
    forall d | d in D1 + D2 ensures FrozenNode(d, D1 + D2) {
      assert FrozenNode(d, D1) || FrozenNode(d, D2);
    }
  }

  /**
   * In a frozen forest every listed partition reports `IsPartition`, and no
   * disk is a partition of two different disks.
   */
  lemma FrozenForest(D: set<Disk>, a: Disk, b: Disk, i: nat, j: nat)
    requires Frozen(D) && a in D && b in D
    requires i < |a.partitions| && j < |b.partitions|
    ensures a.partitions[i].IsPartition()
    ensures a.partitions[i] == b.partitions[j] ==> a == b
  {
    assert FrozenNode(a, D) && FrozenNode(b, D);
  }

  class Builder {
    const device: Device
    var partitions: seq<Builder>
    var parent: Builder?
    ghost var tree: Tree

    constructor (device: Device)
      ensures this.device == device && partitions == [] && parent == null
      ensures tree == Tree(device, [])
    {
      this.device := device;
      partitions := [];
      parent := null;
      tree := Tree(device, []);
    }

    /** `set(parent:)`: changes only `parent`, and returns the same builder. */
    method SetParent(parent: Builder) returns (self: Builder)
      modifies this`parent
      ensures self == this && this.parent == parent
    {
      this.parent := parent;
      self := this;
    }

    /** `add(partition:)`: appends, without deduplication, and returns the same builder. */
    method Add(partition: Builder) returns (self: Builder)
      modifies this`partitions
      ensures self == this && partitions == old(partitions) + [partition]
    {
      partitions := partitions + [partition];
      self := this;
    }

    /**
     * `build(parent:)`: a fresh disk for this builder with the given parent,
     * whose partitions are the builder's partitions built in order, each
     * with the new disk as its parent; recursively the same shape as the
     * builder.
     */
    method Build(parent: Disk?, ghost S: set<Builder>) returns (disk: Disk, ghost D: set<Disk>)
      requires this in S && Consistent(S)
      decreases tree
      ensures fresh(D) && disk in D && Frozen(D)
      ensures disk.device == device && disk.parentDisk == parent && disk.tree == tree
      ensures |disk.partitions| == |partitions|
      ensures forall i :: 0 <= i < |partitions| ==>
                disk.partitions[i].device == partitions[i].device && disk.partitions[i].parentDisk == disk
    {
      assert Staged(this, S);
      disk := new Disk(device);
      disk.parentDisk := parent;
      disk.tree := tree;
      D := {disk};
      var built: seq<Disk> := [];
      for i := 0 to |partitions|
        invariant |built| == i && disk in D && fresh(D)
        invariant disk.parentDisk == parent && disk.tree == tree && disk.partitions == []
        invariant forall j :: 0 <= j < i ==>
                    built[j] in D && built[j] != disk && built[j].parentDisk == disk &&
                    built[j].tree == partitions[j].tree && built[j].device == partitions[j].device
        invariant forall d <- D :: d != disk ==> FrozenNode(d, D)
      {
        var partition, partitionDisks := partitions[i].Build(disk, S);
        forall d | d in D + partitionDisks && d != disk ensures FrozenNode(d, D + partitionDisks) {
          assert FrozenNode(d, D) || FrozenNode(d, partitionDisks);
        }
        built := built + [partition];
        D := D + partitionDisks;
      }
      disk.partitions := built;
      forall d | d in D ensures FrozenNode(d, D) {
        if d != disk {
          assert forall j :: 0 <= j < |d.partitions| ==> d.partitions[j] != disk;
        }
      }
    }
  }

  /** The local invariant of a staged builder: its partitions are in `S`, have it as parent, and have the shapes its `tree` lists. */
  ghost predicate Staged(b: Builder, S: set<Builder>)
    reads b, S
  {
    && b.tree.device == b.device
    && |b.tree.partitions| == |b.partitions|
    && forall i :: 0 <= i < |b.partitions| ==>
         b.partitions[i] in S && b.partitions[i].parent == b && b.tree.partitions[i] == b.partitions[i].tree
  }

  /** Every builder of `S` is consistent with its shape. */
  ghost predicate Consistent(S: set<Builder>)
    reads S
  {
    forall b {:trigger Staged(b, S)} :: b in S ==> Staged(b, S)
  }

  /** A fresh builder without partitions keeps a consistent set consistent. */
  lemma ConsistentGrow(S: set<Builder>, b: Builder)
    requires Consistent(S) && b.partitions == [] && b.tree == Tree(b.device, [])
    ensures Consistent(S + {b})
  {
    forall x | x in S + {b} ensures Staged(x, S + {b}) {
      if x in S {
        assert Staged(x, S);
      }
    }
  }
}
