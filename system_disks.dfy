/**
 * `SystemDisks`: rebuilds the disk/partition forest from the flat list of
 * block devices the backend enumerates.
 *
 * The imperative code (`GetDiskTreeFor`, `AttachPartition`, `GetAllDisks`)
 * is proved against pure definitions: `AncestorChain` for the ancestor walk,
 * and `Assemble`, a fold of `Step` over the devices, for the map of root
 * builders. Properties of the algorithm are lemmas about those definitions
 * (see module AssemblyProperties).
 */
module SystemDisks {
  import opened Wrappers
  import opened Devices
  import opened SystemDisk

  /**
   * The chain from the nearest disk-typed ancestor of `d` down to `d`, root
   * first. If no ancestor is a disk, the chain ends at the topmost ancestor
   * and no root is invented.
   */
  function AncestorChain(d: Device): (chain: seq<Device>)
    ensures |chain| >= 1 && chain[|chain| - 1] == d
    ensures forall i, k :: 0 <= i && k == i + 1 && k < |chain| ==> chain[k].parent == Some(chain[i])
    ensures forall i :: 0 < i < |chain| ==> !chain[i].IsDisk()
    ensures !chain[0].IsDisk() ==> chain[0].parent == None
    decreases d
  {
    if d.IsDisk() then [d]
    else
      match d.parent
      case None => [d]
      case Some(p) => AncestorChain(p) + [d]
  }

  /** `getDiskTreeFor(device:)`: prepends each record while walking up, stopping after the first disk. */
  method GetDiskTreeFor(device: Device) returns (tree: seq<Device>)
    ensures tree == AncestorChain(device)
  {
    tree := [];
    var current: Option<Device> := Some(device);
    while current.Some?
      invariant current.Some? ==> AncestorChain(device) == AncestorChain(current.value) + tree
      invariant current.None? ==> tree == AncestorChain(device)
      decreases Depth(current)
    {
      var c := current.value;
      tree := [c] + tree;
      if c.IsDisk() {
        break;
      }
      current := c.parent;
    }
  }

  /** The shape of the linear path of builders made for `chain[i..]`: each element's only partition is the next. */
  function Path(chain: seq<Device>, i: nat): Tree
    requires i < |chain|
    decreases |chain| - i
  {
    Tree(chain[i], if i + 1 == |chain| then [] else [Path(chain, i + 1)])
  }

  /**
   * Lines 19-34 on shapes: the root builder under the chain root's node is
   * reused (or made), and a new path for the rest of the chain is appended
   * to its partitions.
   */
  function Attach(staged: map<string, Tree>, chain: seq<Device>): (r: map<string, Tree>)
    requires |chain| >= 1
    ensures r.Keys == staged.Keys + {chain[0].node}
    ensures forall k <- staged :: k != chain[0].node ==> r[k] == staged[k]
    ensures chain[0].node in staged ==>
              r[chain[0].node].device == staged[chain[0].node].device &&
              r[chain[0].node].partitions == staged[chain[0].node].partitions + if |chain| > 1 then [Path(chain, 1)] else []
    ensures chain[0].node !in staged ==>
              r[chain[0].node].device == chain[0] &&
              r[chain[0].node].partitions == if |chain| > 1 then [Path(chain, 1)] else []
  {
    var key := chain[0].node;
    var root := if key in staged then staged[key] else Tree(chain[0], []);
    staged[key := Tree(root.device, root.partitions + if |chain| > 1 then [Path(chain, 1)] else [])]
  }

  /** One iteration of the classification loop, on shapes. */
  function Step(staged: map<string, Tree>, device: Device): (r: map<string, Tree>)
    ensures device.IsDisk() ==> r == staged[device.node := Tree(device, [])]
    ensures device.IsDisk() || device.IsPartition() ==> r.Keys == staged.Keys + {AncestorChain(device)[0].node}
    ensures !device.IsDisk() && !device.IsPartition() ==> r == staged
  {
    if device.IsDisk() then staged[device.node := Tree(device, [])]
    else if device.IsPartition() then Attach(staged, AncestorChain(device))
    else staged
  }

  /** The root builders' shapes, keyed by device node, after the classification loop over `devices`. */
  function Assemble(devices: seq<Device>): map<string, Tree>
    decreases |devices|
  {
    if devices == [] then map[]
    else Step(Assemble(devices[..|devices| - 1]), devices[|devices| - 1])
  }

  /**
   * The invariant of `deviceMap`: all builders are consistent, the root
   * builders have no parent (so they are nobody's partition), and no builder
   * is stored under two keys.
   */
  ghost predicate Registry(deviceMap: map<string, Builder>, S: set<Builder>)
    reads S
  {
    && Consistent(S)
    && (forall k <- deviceMap :: deviceMap[k] in S && deviceMap[k].parent == null)
    && (forall k1 <- deviceMap, k2 <- deviceMap :: k1 != k2 ==> deviceMap[k1] != deviceMap[k2])
  }

  /** The shapes of the root builders. */
  ghost function Staging(deviceMap: map<string, Builder>): map<string, Tree>
    reads deviceMap.Values
  {
    map k | k in deviceMap :: deviceMap[k].tree
  }

  /** `b` is consistent with its shape except that the shape has one more, last, partition. */
  ghost predicate AwaitsLast(b: Builder, S: set<Builder>)
    reads b, S
  {
    && b.tree.device == b.device
    && |b.tree.partitions| == |b.partitions| + 1
    && forall i :: 0 <= i < |b.partitions| ==>
         b.partitions[i] in S && b.partitions[i].parent == b && b.tree.partitions[i] == b.partitions[i].tree
  }

  /**
   * Lines 29-32: a fresh builder for `d` is made with `parentBuilder` as
   * parent and appended to its partitions; it gets the shape `parentBuilder`
   * was waiting for, which makes `parentBuilder` consistent again.
   */
  method Extend(parentBuilder: Builder, d: Device, ghost S: set<Builder>) returns (builder: Builder, ghost S': set<Builder>)
    requires parentBuilder in S && AwaitsLast(parentBuilder, S)
    requires parentBuilder.tree.partitions[|parentBuilder.tree.partitions| - 1].device == d
    requires forall b {:trigger Staged(b, S)} :: b in S && b != parentBuilder ==> Staged(b, S)
    modifies parentBuilder`partitions
    ensures fresh(builder) && S' == S + {builder}
    ensures builder.device == d && builder.parent == parentBuilder && builder.partitions == []
    ensures builder.tree == old(parentBuilder.tree.partitions[|parentBuilder.tree.partitions| - 1])
    ensures parentBuilder.partitions == old(parentBuilder.partitions) + [builder]
    ensures forall b {:trigger Staged(b, S')} :: b in S' && b != builder ==> Staged(b, S')
  {
    builder := new Builder(d);
    builder := builder.SetParent(parentBuilder);
    builder.tree := parentBuilder.tree.partitions[|parentBuilder.tree.partitions| - 1];
    var _ := parentBuilder.Add(builder);
    S' := S + {builder};
    forall b | b in S' && b != builder ensures Staged(b, S') {
      if b != parentBuilder {
        assert old(Staged(b, S));
        forall i | 0 <= i < |b.partitions| ensures b.partitions[i] in S' && b.partitions[i].parent == b {
          assert old(b.partitions[i].parent) == b;
        }
      }
    }
  }

  /**
   * Lines 28-34: walks `chain[1..]`, hanging a fresh builder for each element
   * under the previous one, starting at `rootBuilder`, whose shape already
   * shows the chain attached (`rootTree` is its shape before).
   */
  method AppendChain(rootBuilder: Builder, chain: seq<Device>, ghost rootTree: Tree, ghost S: set<Builder>)
    returns (ghost S': set<Builder>)
    requires |chain| >= 1 && rootBuilder in S
    requires rootBuilder.tree == Tree(rootTree.device, rootTree.partitions + if |chain| > 1 then [Path(chain, 1)] else [])
    requires rootTree.device == rootBuilder.device && |rootTree.partitions| == |rootBuilder.partitions|
    requires forall i :: 0 <= i < |rootBuilder.partitions| ==>
               rootBuilder.partitions[i] in S && rootBuilder.partitions[i].parent == rootBuilder &&
               rootTree.partitions[i] == rootBuilder.partitions[i].tree
    requires forall b {:trigger Staged(b, S)} :: b in S && b != rootBuilder ==> Staged(b, S)
    modifies rootBuilder`partitions
    ensures Consistent(S') && S <= S' && fresh(S' - S)
    ensures |chain| == 1 ==> rootBuilder.partitions == old(rootBuilder.partitions)
    ensures |chain| > 1 ==>
              |rootBuilder.partitions| == |old(rootBuilder.partitions)| + 1 &&
              rootBuilder.partitions[..|old(rootBuilder.partitions)|] == old(rootBuilder.partitions)
  {
    S' := S;
    var currentBuilder := rootBuilder;
    ghost var rootParts := rootBuilder.partitions;
    ghost var first: Builder? := null;
    for j := 1 to |chain|
      invariant rootBuilder in S' && (j == 1 <==> currentBuilder == rootBuilder)
      invariant rootBuilder.tree == old(rootBuilder.tree)
      invariant j == 1 ==> rootBuilder.partitions == rootParts
      invariant j > 1 ==> first != null && rootBuilder.partitions == rootParts + [first]
      invariant j > 1 ==> fresh(currentBuilder) && currentBuilder.partitions == [] && currentBuilder.tree == Path(chain, j - 1)
      invariant j > 1 ==> currentBuilder.device == chain[j - 1]
      invariant currentBuilder in S'
      invariant S <= S' && fresh(S' - S)
      invariant forall b {:trigger Staged(b, S')} :: b in S' && b != currentBuilder ==> Staged(b, S')
      invariant forall i :: 0 <= i < |rootParts| ==>
                  rootParts[i] in S && rootParts[i].parent == rootBuilder && rootTree.partitions[i] == rootParts[i].tree
    {
      if j > 1 {
        assert currentBuilder.tree.partitions == [Path(chain, j)];
      }
      var builder;
      builder, S' := Extend(currentBuilder, chain[j], S');
      if j == 1 {
        first := builder;
      }
      currentBuilder := builder;
    }
    assert Staged(currentBuilder, S');
  }

  /**
   * Gives the parentless builder `b` a new shape; every other builder stays
   * consistent, since none has `b` among its partitions.
   */
  ghost method Reshape(b: Builder, t: Tree, S: set<Builder>)
    requires b in S && b.parent == null && Consistent(S)
    modifies b`tree
    ensures b.tree == t
    ensures forall x {:trigger Staged(x, S)} :: x in S && x != b ==> Staged(x, S)
  {
    b.tree := t;
    forall x | x in S && x != b ensures Staged(x, S) {
      assert old(Staged(x, S));
      forall i | 0 <= i < |x.partitions| ensures x.partitions[i] != b {
        assert old(x.partitions[i].parent) == x;
      }
    }
  }

  /** Storing `b` under `key`, with every other builder's shape as in `staged`, stages `b`'s shape under `key`. */
  lemma StagingUpdate(deviceMap: map<string, Builder>, key: string, b: Builder, staged: map<string, Tree>)
    requires staged.Keys == deviceMap.Keys
    requires forall k <- deviceMap :: k != key ==> deviceMap[k].tree == staged[k]
    ensures Staging(deviceMap[key := b]) == staged[key := b.tree]
  {
  }

  /**
   * Lines 20-26: the builder stored under the chain root's node, or a fresh
   * builder for the root, which is then stored under that node.
   */
  method StoreRoot(deviceMap: map<string, Builder>, root: Device, ghost S: set<Builder>)
    returns (deviceMap': map<string, Builder>, builder: Builder, ghost S': set<Builder>)
    requires Registry(deviceMap, S)
    ensures Registry(deviceMap', S') && S <= S' && fresh(S' - S)
    ensures deviceMap' == deviceMap[root.node := builder] && builder in S' && builder.parent == null
    ensures root.node in deviceMap ==> builder == deviceMap[root.node]
    ensures root.node !in deviceMap ==> fresh(builder) && builder.device == root && builder.tree == Tree(root, [])
    ensures Staging(deviceMap') == Staging(deviceMap)[root.node := builder.tree]
  {
    S' := S;
    if root.node in deviceMap {
      builder := deviceMap[root.node];
    } else {
      builder := new Builder(root);
      ConsistentGrow(S', builder);
      S' := S' + {builder};
    }
    deviceMap' := deviceMap[root.node := builder];
  }

  /**
   * Lines 19-34: the `partition` branch. The root builder is the one stored
   * under the chain root's node, or a fresh one that is stored there; it
   * gains one new partition: a chain of fresh builders, one per further
   * chain element, each the only partition of the one before. No other
   * existing builder is touched.
   */
  method AttachPartition(deviceMap: map<string, Builder>, device: Device, ghost S: set<Builder>)
    returns (deviceMap': map<string, Builder>, ghost S': set<Builder>)
    requires Registry(deviceMap, S)
    modifies if AncestorChain(device)[0].node in deviceMap then {deviceMap[AncestorChain(device)[0].node]} else {}
    ensures Registry(deviceMap', S') && S <= S' && fresh(S' - S)
    ensures Staging(deviceMap') == Attach(old(Staging(deviceMap)), AncestorChain(device))
    ensures AncestorChain(device)[0].node in deviceMap' &&
            deviceMap' == deviceMap[AncestorChain(device)[0].node := deviceMap'[AncestorChain(device)[0].node]]
    ensures AncestorChain(device)[0].node in deviceMap ==>
              deviceMap'[AncestorChain(device)[0].node] == deviceMap[AncestorChain(device)[0].node]
    ensures AncestorChain(device)[0].node !in deviceMap ==> fresh(deviceMap'[AncestorChain(device)[0].node])
  {
    var tree := GetDiskTreeFor(device);
    deviceMap', S' := AttachChain(deviceMap, tree, S);
  }

  /** The `partition` branch once the ancestor chain `tree` of the device is known. */
  method AttachChain(deviceMap: map<string, Builder>, tree: seq<Device>, ghost S: set<Builder>)
    returns (deviceMap': map<string, Builder>, ghost S': set<Builder>)
    requires |tree| >= 1 && Registry(deviceMap, S)
    modifies if tree[0].node in deviceMap then {deviceMap[tree[0].node]} else {}
    ensures Registry(deviceMap', S') && S <= S' && fresh(S' - S)
    ensures Staging(deviceMap') == Attach(old(Staging(deviceMap)), tree)
    ensures tree[0].node in deviceMap' && deviceMap' == deviceMap[tree[0].node := deviceMap'[tree[0].node]]
    ensures tree[0].node in deviceMap ==> deviceMap'[tree[0].node] == deviceMap[tree[0].node]
    ensures tree[0].node !in deviceMap ==> fresh(deviceMap'[tree[0].node])
  {
    ghost var staged := Staging(deviceMap);
    var root := tree[0];
    var currentBuilder;
    deviceMap', currentBuilder, S' := StoreRoot(deviceMap, root, S);
    ghost var rootTree := currentBuilder.tree;
    assert Staged(currentBuilder, S');
    assert rootTree == if root.node in staged then staged[root.node] else Tree(root, []);
    // The shape the root builder will have once the chain is attached.
    Reshape(currentBuilder, Tree(rootTree.device, rootTree.partitions + if |tree| > 1 then [Path(tree, 1)] else []), S');
    S' := AppendChain(currentBuilder, tree, rootTree, S');
    assert Registry(deviceMap', S') by {
      assert forall k <- deviceMap' :: deviceMap'[k] in S' && deviceMap'[k].parent == null;
    }
    forall k | k in deviceMap && k != root.node ensures deviceMap[k].tree == staged[k] {
      assert deviceMap[k] != currentBuilder;
    }
    StagingUpdate(deviceMap, root.node, currentBuilder, staged);
  }

  /** Every staged shape sits under its own root device's node. */
  lemma {:induction false} AssembleKeyNodes(devices: seq<Device>)
    ensures forall k <- Assemble(devices) :: Assemble(devices)[k].device.node == k
    decreases |devices|
  {
    if devices != [] {
      AssembleKeyNodes(devices[..|devices| - 1]);
    }
  }

  /**
   * Lines 9-40: the classification loop. A disk stores a fresh builder
   * under its node (replacing any earlier one, with its partitions); a
   * partition attaches its ancestor chain; any other type is skipped.
   */
  method Classify(blockDevices: seq<Device>) returns (deviceMap: map<string, Builder>, ghost S: set<Builder>)
    ensures Registry(deviceMap, S) && fresh(S)
    ensures Staging(deviceMap) == Assemble(blockDevices)
  {
    deviceMap := map[];
    S := {};
    for i := 0 to |blockDevices|
      invariant Registry(deviceMap, S) && fresh(S)
      invariant Staging(deviceMap) == Assemble(blockDevices[..i])
    {
      var device := blockDevices[i];
      assert blockDevices[..i + 1][..i] == blockDevices[..i];
      if device.IsDisk() {
        var builder := new Builder(device);
        ConsistentGrow(S, builder);
        StagingUpdate(deviceMap, device.node, builder, Staging(deviceMap));
        deviceMap := deviceMap[device.node := builder];
        S := S + {builder};
      } else if device.IsPartition() {
        deviceMap, S := AttachPartition(deviceMap, device, S);
      }
      // Any other type is only reported (line 39), which is not modelled.
    }
    assert blockDevices[..|blockDevices|] == blockDevices;
  }

  /** The device nodes of `disks`. */
  function Nodes(disks: seq<Disk>): set<string>
  {
    set i | 0 <= i < |disks| :: disks[i].device.node
  }

  lemma NodesAppend(disks: seq<Disk>, disk: Disk)
    ensures Nodes(disks + [disk]) == Nodes(disks) + {disk.device.node}
  {
    var extended := disks + [disk];
    assert extended[|disks|] == disk;
    forall x | x in Nodes(disks) ensures x in Nodes(extended) {
      var i :| 0 <= i < |disks| && disks[i].device.node == x;
      assert extended[i] == disks[i];
    }
  }

  /**
   * Line 42: every stored builder is built into a top-level disk, one per
   * key, in an unspecified order.
   */
  method FreezeAll(deviceMap: map<string, Builder>, ghost S: set<Builder>, ghost staged: map<string, Tree>)
    returns (disks: seq<Disk>, ghost D: set<Disk>)
    requires Registry(deviceMap, S) && Staging(deviceMap) == staged
    requires forall k <- staged :: staged[k].device.node == k
    ensures fresh(D) && Frozen(D)
    ensures Nodes(disks) == staged.Keys
    ensures forall i, j :: 0 <= i < j < |disks| ==> disks[i].device.node != disks[j].device.node
    ensures forall i :: 0 <= i < |disks| ==>
              disks[i] in D && disks[i].parentDisk == null && disks[i].device.node in staged &&
              disks[i].tree == staged[disks[i].device.node]
  {
    disks := [];
    D := {};
    var remaining := deviceMap.Keys;
    while remaining != {}
      invariant remaining <= deviceMap.Keys && fresh(D) && Frozen(D)
      invariant Registry(deviceMap, S) && Staging(deviceMap) == staged
      invariant Nodes(disks) == deviceMap.Keys - remaining
      invariant forall i, j :: 0 <= i < j < |disks| ==> disks[i].device.node != disks[j].device.node
      invariant forall i :: 0 <= i < |disks| ==>
                  disks[i] in D && disks[i].parentDisk == null && disks[i].device.node in staged &&
                  disks[i].tree == staged[disks[i].device.node]
      decreases remaining
    {
      var key :| key in remaining;
      ghost var previous := disks;
      assert Staged(deviceMap[key], S) && staged[key] == deviceMap[key].tree;
      var disk, built := deviceMap[key].Build(null, S);
      FrozenUnion(D, built);
      disks := disks + [disk];
      D := D + built;
      remaining := remaining - {key};
      NodesAppend(previous, disk);
    }
  }

  /**
   * Lines 7-43, `getAllDisks()`, over the enumerated `blockDevices`: the
   * result has one top-level disk per staged key, in an unspecified order,
   * each with the staged shape and no parent.
   */
  method GetAllDisks(blockDevices: seq<Device>) returns (disks: seq<Disk>, ghost D: set<Disk>)
    ensures fresh(D) && Frozen(D)
    ensures Nodes(disks) == Assemble(blockDevices).Keys
    ensures forall i, j :: 0 <= i < j < |disks| ==> disks[i].device.node != disks[j].device.node
    ensures forall i :: 0 <= i < |disks| ==>
              disks[i] in D && disks[i].parentDisk == null && disks[i].device.node in Assemble(blockDevices) &&
              disks[i].tree == Assemble(blockDevices)[disks[i].device.node]
  {
    var deviceMap, S := Classify(blockDevices);
    AssembleKeyNodes(blockDevices);
    disks, D := FreezeAll(deviceMap, S, Assemble(blockDevices));
  }
}
