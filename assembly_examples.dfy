/**
 * Small device lists run through the assembler's specification, showing
 * what it does as written: an out-of-order disk drops the partitions
 * already attached under its node, intermediate chain elements are not
 * shared, and devices of other types can enter the forest as ancestors.
 */
module AssemblyExamples {
  import opened Wrappers
  import opened Devices
  import opened SystemDisk
  import opened SystemDisks

  /** A record with only the fields the assembler reads. */
  function Dev(node: string, devType: string, parent: Option<Device>): (d: Device)
    ensures d.node == node && d.devType == Some(devType) && d.parent == parent
  {
    Device(node, Some(devType), None, true, map[], map[], parent)
  }

  function Sda(): Device { Dev("/dev/sda", "disk", None) }
  function Sda1(): Device { Dev("/dev/sda1", "partition", Some(Sda())) }
  function Sda2(): Device { Dev("/dev/sda2", "partition", Some(Sda())) }

  /** Disk first: one root holding its partitions in enumeration order. */
  lemma DiskThenPartitions()
    ensures Assemble([Sda(), Sda1(), Sda2()]) ==
            map["/dev/sda" := Tree(Sda(), [Tree(Sda1(), []), Tree(Sda2(), [])])]
  {
    var all := [Sda(), Sda1(), Sda2()];
    assert all[..2] == [Sda(), Sda1()] && all[..2][..1] == [Sda()] && all[..2][..1][..0] == [];
    var s1 := Assemble([Sda()]);
    assert s1 == map["/dev/sda" := Tree(Sda(), [])];
    assert AncestorChain(Sda1()) == [Sda(), Sda1()];
    assert Path([Sda(), Sda1()], 1) == Tree(Sda1(), []);
    var s2 := Attach(s1, [Sda(), Sda1()]);
    assert Assemble(all[..2]) == s2;
    assert s2.Keys == {"/dev/sda"} && s2["/dev/sda"].partitions == [] + [Tree(Sda1(), [])];
    assert s2["/dev/sda"] == Tree(Sda(), [Tree(Sda1(), [])]);
    assert s2 == map["/dev/sda" := Tree(Sda(), [Tree(Sda1(), [])])];
    assert AncestorChain(Sda2()) == [Sda(), Sda2()];
    assert Path([Sda(), Sda2()], 1) == Tree(Sda2(), []);
    var s3 := Attach(s2, [Sda(), Sda2()]);
    assert Assemble(all) == s3;
    assert s3.Keys == {"/dev/sda"} && s3["/dev/sda"].partitions == [Tree(Sda1(), [])] + [Tree(Sda2(), [])];
    assert s3["/dev/sda"] == Tree(Sda(), [Tree(Sda1(), []), Tree(Sda2(), [])]);
  }

  /**
   * A disk enumerated after one of its partitions replaces the builder
   * that partition created, so the partition is lost.
   */
  lemma LateDiskDropsPartitions()
    ensures Assemble([Sda1()]) == map["/dev/sda" := Tree(Sda(), [Tree(Sda1(), [])])]
    ensures Assemble([Sda1(), Sda()]) == map["/dev/sda" := Tree(Sda(), [])]
  {
    var all := [Sda1(), Sda()];
    assert all[..1] == [Sda1()] && all[..1][..0] == [];
    assert AncestorChain(Sda()) == [Sda()];
    assert AncestorChain(Sda1()) == [Sda(), Sda1()];
  }

  /**
   * Two partitions under one intermediate device: each chain makes its own
   * builder for the intermediate, which then appears twice under the disk.
   */
  lemma SharedIntermediateDuplicated()
    ensures var group := Dev("/dev/sda5", "partition", Some(Sda()));
            var lv1 := Dev("/dev/sda6", "partition", Some(group));
            var lv2 := Dev("/dev/sda7", "partition", Some(group));
            Assemble([Sda(), lv1, lv2]) ==
              map["/dev/sda" := Tree(Sda(), [Tree(group, [Tree(lv1, [])]), Tree(group, [Tree(lv2, [])])])]
  {
    var group := Dev("/dev/sda5", "partition", Some(Sda()));
    var lv1 := Dev("/dev/sda6", "partition", Some(group));
    var lv2 := Dev("/dev/sda7", "partition", Some(group));
    var all := [Sda(), lv1, lv2];
    assert all[..2] == [Sda(), lv1] && all[..2][..1] == [Sda()] && all[..2][..1][..0] == [];
    var s1 := Assemble([Sda()]);
    assert s1 == map["/dev/sda" := Tree(Sda(), [])];
    assert AncestorChain(group) == [Sda(), group];
    assert AncestorChain(lv1) == [Sda(), group, lv1];
    assert Path([Sda(), group, lv1], 1) == Tree(group, [Tree(lv1, [])]);
    var s2 := Attach(s1, [Sda(), group, lv1]);
    assert Assemble(all[..2]) == s2;
    assert s2.Keys == {"/dev/sda"} && s2["/dev/sda"].partitions == [] + [Tree(group, [Tree(lv1, [])])];
    assert s2["/dev/sda"] == Tree(Sda(), [Tree(group, [Tree(lv1, [])])]);
    assert s2 == map["/dev/sda" := Tree(Sda(), [Tree(group, [Tree(lv1, [])])])];
    assert AncestorChain(lv2) == [Sda(), group, lv2];
    assert Path([Sda(), group, lv2], 1) == Tree(group, [Tree(lv2, [])]);
    var s3 := Attach(s2, [Sda(), group, lv2]);
    assert Assemble(all) == s3;
    assert s3.Keys == {"/dev/sda"} &&
           s3["/dev/sda"].partitions == [Tree(group, [Tree(lv1, [])])] + [Tree(group, [Tree(lv2, [])])];
    assert s3["/dev/sda"] == Tree(Sda(), [Tree(group, [Tree(lv1, [])]), Tree(group, [Tree(lv2, [])])]);
  }

  /**
   * The chain sda, sda1, dm-0 enumerated in that order: sda1 is attached
   * once for itself and once more, as a fresh builder, on dm-0's chain.
   */
  lemma NestedChainRepeatsPartition()
    ensures var dm0 := Dev("/dev/dm-0", "partition", Some(Sda1()));
            Assemble([Sda(), Sda1(), dm0]) ==
              map["/dev/sda" := Tree(Sda(), [Tree(Sda1(), []), Tree(Sda1(), [Tree(dm0, [])])])]
  {
    var dm0 := Dev("/dev/dm-0", "partition", Some(Sda1()));
    var all := [Sda(), Sda1(), dm0];
    assert all[..2] == [Sda(), Sda1()] && all[..2][..1] == [Sda()] && all[..2][..1][..0] == [];
    var s1 := Assemble([Sda()]);
    assert s1 == map["/dev/sda" := Tree(Sda(), [])];
    assert AncestorChain(Sda1()) == [Sda(), Sda1()];
    assert Path([Sda(), Sda1()], 1) == Tree(Sda1(), []);
    var s2 := Attach(s1, [Sda(), Sda1()]);
    assert Assemble(all[..2]) == s2;
    assert s2.Keys == {"/dev/sda"} && s2["/dev/sda"].partitions == [] + [Tree(Sda1(), [])];
    assert s2["/dev/sda"] == Tree(Sda(), [Tree(Sda1(), [])]);
    assert s2 == map["/dev/sda" := Tree(Sda(), [Tree(Sda1(), [])])];
    assert AncestorChain(dm0) == [Sda(), Sda1(), dm0];
    assert Path([Sda(), Sda1(), dm0], 1) == Tree(Sda1(), [Tree(dm0, [])]);
    var s3 := Attach(s2, [Sda(), Sda1(), dm0]);
    assert Assemble(all) == s3;
    assert s3.Keys == {"/dev/sda"} && s3["/dev/sda"].partitions == [Tree(Sda1(), [])] + [Tree(Sda1(), [Tree(dm0, [])])];
    assert s3["/dev/sda"] == Tree(Sda(), [Tree(Sda1(), []), Tree(Sda1(), [Tree(dm0, [])])]);
  }

  /**
   * A device of another type is skipped when enumerated itself, but enters
   * the forest as an ancestor on a partition's chain, and as a root when
   * the chain reaches no disk.
   */
  lemma OtherTypedAncestorAppears()
    ensures var loop := Dev("/dev/loop0", "loop", None);
            var p := Dev("/dev/loop0p1", "partition", Some(loop));
            && Assemble([loop]) == map[]
            && Assemble([loop, p]) == map["/dev/loop0" := Tree(loop, [Tree(p, [])])]
  {
    var loop := Dev("/dev/loop0", "loop", None);
    var p := Dev("/dev/loop0p1", "partition", Some(loop));
    var all := [loop, p];
    assert all[..1] == [loop] && all[..1][..0] == [];
    assert AncestorChain(p) == [loop, p];
  }
}
