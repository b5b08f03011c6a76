# libSystem disk topology, in Dafny

A model of the core of libSystem, a Swift library for Linux block devices. The model covers:

- **Disk topology assembler.** `SystemDisks.getAllDisks()` walks the flat list of udev block devices. It hangs each partition's ancestor chain under a root builder keyed by device node, then freezes every root builder into a tree of `Disk` objects.
- **`Disk` and `Disk.Builder`.** The frozen node with its derived accessors, and the mutable staging node it is built from.
- **Mount option codec.** `MountpointOption.string()` and `MountpointOption.from(string:)`.
- **devpath tree predicates.** The test helper's valid-device filter, root finder and direct-children filter.

The udev backend is a value here. A `Device` is the record the core reads: node, DEVTYPE, devpath, the initialized flag, the property and attribute maps, and the parent record. The parent is held inline, so the parent relation is acyclic by construction.

The imperative parts keep their form:

- `getDiskTreeFor` is a `while` loop.
- The classification loop updates a `map<string, Builder>` of shared builder objects.
- `Builder.set`/`add` change fields in place.
- `build` creates `Disk` objects and assigns their fields.

Each method is proved against a pure definition. `AncestorChain` specifies the ancestor walk. `Assemble` specifies the map of root shapes: a fold of `Step`, with `Attach` for the partition branch. The properties of the algorithm are lemmas about those definitions. Both classes carry a ghost field `tree`, the shape of the subtree below the object. The local invariants `Staged` (builders) and `FrozenNode` (disks) tie it to the real fields one node at a time.

The assembler is modelled as written, including behaviour that looks unintended (see `AssemblyExamples`):

- **Late disks.** A disk enumerated after one of its partitions replaces the builder that partition created, so the partition is lost (`LateDiskDropsPartitions`).
- **No reuse.** Every chain element after the root gets a fresh builder, so shared intermediates are not shared. Two partitions under one intermediate give two copies of it (`SharedIntermediateDuplicated`). For the chain sda → sda1 → dm-0, sda ends up with two partitions: the leaf sda1, and a second sda1 that holds dm-0 (`NestedChainRepeatsPartition`). One might expect one builder per device node, so that sda has the single partition sda1 holding dm-0. The code does not reuse builders below the root, and the model follows the code.
- **Other types.** A device whose DEVTYPE is neither "disk" nor "partition" is skipped when enumerated itself. It still enters the forest as an ancestor on a partition's chain, and as a root when that chain reaches no disk (`OtherTypedAncestorAppears`).
- **Disk-first lists.** When every disk comes before its partitions, no two listed disks share a node, and each partition sits directly under a listed disk, the result is what a caller expects. There is one root per disk, holding that disk's partitions in enumeration order (`DisksFirstLayout`, `DisksFirstKeys`).

## Model

| member | source | states |
|---|---|---|
| Devices.Device.PropertyValue | Sources/SystemDevices/Device.swift:298-304 | present exactly when the property is in the record's map, with its value |
| Devices.Device.AttributeValue | Sources/SystemDevices/Device.swift:314-320 | present exactly when the attribute is in the record's map, with its value |
| Devices.Device.IsDisk | Sources/System/Disks/SystemDisks.swift:12 | DEVTYPE is "disk" |
| Devices.Device.IsPartition | Sources/System/Disks/SystemDisks.swift:18 | DEVTYPE is "partition" |
| SystemDisks.AncestorChain | Sources/System/Disks/SystemDisks.swift:45-58 | the chain is non-empty; it ends with the device; each element is the parent of the next; only the first may be a disk; a non-disk first element has no parent |
| SystemDisks.GetDiskTreeFor | Sources/System/Disks/SystemDisks.swift:45-58 | the prepend-and-walk-up loop returns exactly `AncestorChain(device)` |
| SystemDisks.Attach | Sources/System/Disks/SystemDisks.swift:19-34 | the partition branch on shapes: the chain root's key is added; the root keeps its shape and gains the chain path as last partition, or is new with only that partition; other keys are unchanged |
| SystemDisks.Path | Sources/System/Disks/SystemDisks.swift:28-34 | the shape of the builders made for `chain[i..]`: each element holds the next as its only partition (`PathIsChain`) |
| SystemDisks.Step | Sources/System/Disks/SystemDisks.swift:11-40 | a disk replaces its key's shape by a partitionless one; a partition adds its chain root's key; any other type changes nothing |
| SystemDisks.Assemble | Sources/System/Disks/SystemDisks.swift:11-40 | the root shapes after the loop: `Step` folded over the devices in enumeration order; `Classify` is proved to build it and `AssemblyProperties` states its properties |
| SystemDisks.Extend | Sources/System/Disks/SystemDisks.swift:29-32 | a fresh builder for the element, with the current builder as parent and no partitions, is appended to the current builder's partitions |
| SystemDisks.AppendChain | Sources/System/Disks/SystemDisks.swift:28-34 | the loop over `tree.dropFirst()` adds exactly one partition to the root builder (none for a one-element chain), keeps its earlier partitions, and leaves all builders consistent with their shapes |
| SystemDisks.StoreRoot | Sources/System/Disks/SystemDisks.swift:20-26 | the builder under the root's node is reused, or a fresh one for the root is created, and stored under that node |
| SystemDisks.AttachPartition | Sources/System/Disks/SystemDisks.swift:18-37 | the partition branch updates the root shapes exactly as `Attach` on the device's ancestor chain; only the chain root's key changes and it is present afterwards; an existing root builder is reused, otherwise a fresh one is stored |
| SystemDisks.AttachChain | Sources/System/Disks/SystemDisks.swift:20-34 | the same, given the chain |
| SystemDisks.Classify | Sources/System/Disks/SystemDisks.swift:9-40 | after the loop, the root builders' shapes are `Assemble(blockDevices)`; builders stay consistent, roots have no parent, and no builder is stored twice |
| SystemDisks.AssembleKeyNodes | Sources/System/Disks/SystemDisks.swift:13-26 | every key holds the shape of the device with that node |
| SystemDisks.NodesAppend | Sources/System/Disks/SystemDisks.swift:42 | proof helper for the result of `deviceMap.map`: appending a disk adds its node to the nodes of the result |
| SystemDisks.FreezeAll | Sources/System/Disks/SystemDisks.swift:42 | one top-level disk per key, with distinct nodes; each has no parent and the shape staged under its key |
| SystemDisks.GetAllDisks | Sources/System/Disks/SystemDisks.swift:7-43 | one parentless top-level disk per key of `Assemble(blockDevices)`, shaped as staged there; the disks form a consistent frozen forest |
| SystemDisk.Disk.constructor | Sources/System/Disks/SystemDisk.swift:56-58 | a disk for the device with no parent and no partitions |
| SystemDisk.Disk.IsPartition | Sources/System/Disks/SystemDisk.swift:11 | a parent disk is set; `FrozenForest` shows every listed partition reports it |
| SystemDisk.Disk.DeviceMajor | Sources/System/Disks/SystemDisk.swift:20-22 | the MAJOR property, or "0" when absent |
| SystemDisk.Disk.DeviceMinor | Sources/System/Disks/SystemDisk.swift:24-26 | the MINOR property, or "0" when absent |
| SystemDisk.Disk.DeviceId | Sources/System/Disks/SystemDisk.swift:28-30 | major, ":", minor; the first ":" separates them when the major part has none |
| SystemDisk.DeviceIdOfSda | Sources/System/Disks/SystemDisk.swift:28-30 | MAJOR "8" and MINOR "0" give "8:0" |
| SystemDisk.DeviceIdDefaults | Sources/System/Disks/SystemDisk.swift:20-30 | without MAJOR and MINOR the id is "0:0" |
| SystemDisk.Disk.Removable | Sources/System/Disks/SystemDisk.swift:32-34 | true exactly when the "removable" attribute is present and equals "1" |
| SystemDisk.Disk.ReadOnly | Sources/System/Disks/SystemDisk.swift:36-38 | true exactly when the "ro" attribute is present and equals "1" |
| SystemDisk.FrozenForest | Sources/System/Disks/SystemDisk.swift:8-14 | in a frozen forest every listed partition reports `IsPartition` (its parent is set), and no disk is a partition of two disks |
| SystemDisk.FrozenUnion | Sources/System/Disks/SystemDisk.swift:91-94 | proof helper for the `map` over partitions in `build`: the union of two frozen forests is frozen |
| SystemDisk.Builder.constructor | Sources/System/Disks/SystemDisk.swift:70-72 | a builder for the device with no partitions and no parent |
| SystemDisk.Builder.SetParent | Sources/System/Disks/SystemDisk.swift:74-78 | changes only `parent` and returns the same builder |
| SystemDisk.Builder.Add | Sources/System/Disks/SystemDisk.swift:80-84 | appends the partition at the end, keeping the earlier ones and without deduplication, and returns the same builder |
| SystemDisk.Builder.Build | Sources/System/Disks/SystemDisk.swift:86-97 | a fresh disk for the builder's device with the given parent; its partitions are the builder's partitions built in the same order and number, each with the new disk as parent; recursively the same shape as the builder |
| SystemDisk.ConsistentGrow | Sources/System/Disks/SystemDisk.swift:70-72 | proof helper: adding a fresh builder without partitions keeps the builders consistent with their shapes |
| AssemblyProperties.AssembleKeys | Sources/System/Disks/SystemDisks.swift:11-40 | the map's keys are exactly the chain roots of the disks and partitions seen: keys are never removed, other types add none, and intermediate chain elements never become keys |
| AssemblyProperties.RootKeysLast | Sources/System/Disks/SystemDisks.swift:11-40 | one more device adds its chain root to the roots exactly when it is a disk or a partition |
| AssemblyProperties.AssembleKeysGrow | Sources/System/Disks/SystemDisks.swift:11-40 | enumerating more devices never removes a key |
| AssemblyProperties.PathIsChain | Sources/System/Disks/SystemDisks.swift:28-34 | the builders made for a chain suffix form a linear path that spells the suffix in order, one node per element |
| AssemblyProperties.AttachAddsOneChild | Sources/System/Disks/SystemDisks.swift:22-34 | for a chain of length k ≥ 2 the root gains exactly one partition, at the end, earlier ones kept; it is a linear path of k-1 nodes spelling `chain[1..]` |
| AssemblyProperties.DiskInNodes | Sources/System/Disks/SystemDisks.swift:12-13 | every listed disk contributes its node |
| AssemblyProperties.InPrefix | Sources/System/Disks/SystemDisks.swift:11 | proof helper: a listed device other than the last is listed before it |
| AssemblyProperties.NewDiskHasNoPartitions | Sources/System/Disks/SystemDisks.swift:18-34 | in a disk-first list, a disk whose node no listed disk has has no partition listed |
| AssemblyProperties.LayoutDisk | Sources/System/Disks/SystemDisks.swift:12-15 | a disk at the end of a disk-first list keeps the layout: its root is the disk with no partitions |
| AssemblyProperties.PartitionStep | Sources/System/Disks/SystemDisks.swift:18-34 | in a disk-first list a partition's chain is its disk and itself, and the step attaches it under its disk's key |
| AssemblyProperties.LayoutPartition | Sources/System/Disks/SystemDisks.swift:18-34 | a partition at the end of a disk-first list is appended as a leaf under its disk's root and keeps the layout |
| AssemblyProperties.LayoutOther | Sources/System/Disks/SystemDisks.swift:39 | a device of another type keeps the layout |
| AssemblyProperties.DisksFirstLayout | Sources/System/Disks/SystemDisks.swift:7-43 | when every disk is listed before its partitions, under a node no earlier disk has, and every partition sits directly under a listed disk, each disk's root holds the disk and its partitions in enumeration order |
| AssemblyProperties.DisksFirstKeys | Sources/System/Disks/SystemDisks.swift:7-43 | in that case the roots are exactly the listed disks |
| AssemblyExamples.Dev | Sources/SystemDevices/Device.swift:58-96 | fixture: a record with the given node, type and parent, standing in for the udev getters |
| AssemblyExamples.DiskThenPartitions | Sources/System/Disks/SystemDisks.swift:11-40 | sda, sda1, sda2 give one root sda with leaves sda1 and sda2 in order |
| AssemblyExamples.LateDiskDropsPartitions | Sources/System/Disks/SystemDisks.swift:13 | sda1 then sda: the disk's builder replaces the one holding sda1, which is lost |
| AssemblyExamples.SharedIntermediateDuplicated | Sources/System/Disks/SystemDisks.swift:28-34 | two partitions under one intermediate give two copies of the intermediate under the disk |
| AssemblyExamples.NestedChainRepeatsPartition | Sources/System/Disks/SystemDisks.swift:28-34 | sda, sda1, dm-0 give sda the partitions [sda1, sda1 holding dm-0] |
| AssemblyExamples.OtherTypedAncestorAppears | Sources/System/Disks/SystemDisks.swift:18-39 | a skipped non-disk device still becomes a root when a partition's chain ends at it |
| Mountpoint.MountpointOption.ToString | Sources/System/Mountpoint.swift:14-28 | a list is written as name "=" items joined by ":"; a number or string as name "=" value; a boolean as the name when true and "no" + name when false |
| Mountpoint.From | Sources/System/Mountpoint.swift:30-56 | without "=" a boolean named by the whole input, false exactly when it starts with "no"; a leading "=" traps; only a leading "=" traps; never a number |
| Mountpoint.ColonsAreNotAnInt | Sources/System/Mountpoint.swift:51-55 | a value of colons only never parses as an `Int`, so the number branch is unreachable |
| Mountpoint.FromSplitsAtFirstEquals | Sources/System/Mountpoint.swift:39-53 | the name is everything before the first "=", the value everything after, further "=" included; a list of its non-empty ":"-pieces if there is one, else the raw string |
| Mountpoint.ListRoundTrip | Sources/System/Mountpoint.swift:14-56 | a list with a non-empty "="-free name and non-empty ":"-free items reads back as itself |
| Mountpoint.EnabledFlagRoundTrip | Sources/System/Mountpoint.swift:25-36 | a true flag with an "="-free name not starting with "no" reads back as itself |
| Mountpoint.ClearedFlagGainsPrefix | Sources/System/Mountpoint.swift:25-33 | a false flag reads back as the false flag named "no" + name, never as itself |
| Mountpoint.NumberReadsBackAsList | Sources/System/Mountpoint.swift:19-20 | a number is written as its digits and reads back as a one-item list |
| Mountpoint.WellSeparatedListRoundTrip | Sources/System/Mountpoint.swift:39-48 | parsing then writing reproduces "name=value" when the value has no empty ":"-piece |
| Strings.FirstIndexOf | Sources/System/Mountpoint.swift:31 | the offset of the first occurrence, or none exactly when absent |
| Strings.FirstIndexOfAfter | Sources/System/Mountpoint.swift:31 | the first occurrence after a prefix free of it sits right after that prefix |
| Strings.Split | Sources/System/Mountpoint.swift:45 | the pieces are non-empty and separator-free, and there are none exactly when the string is separators only |
| Strings.OnlySeparators | Sources/System/Mountpoint.swift:45 | every character is the separator: exactly the strings `split` turns into no pieces |
| Strings.SplitLeadingSeparator | Sources/System/Mountpoint.swift:45 | a leading separator yields no piece |
| Strings.SplitTrailingSeparator | Sources/System/Mountpoint.swift:45 | a trailing separator yields no piece |
| Strings.SplitDoubledSeparator | Sources/System/Mountpoint.swift:45 | two adjacent separators split like one, so empty pieces are dropped; with `JoinSplit` this fixes `split` on every input |
| Strings.SplitAtFirst | Sources/System/Mountpoint.swift:45 | a first separator after a non-empty run cuts that run off as the first piece |
| Strings.SplitJoin | Sources/System/Mountpoint.swift:17-45 | splitting the join of non-empty separator-free items gives the items back |
| Strings.JoinSplit | Sources/System/Mountpoint.swift:17-45 | joining the split of a well-separated string gives the string back |
| Strings.JoinCons | Sources/System/Mountpoint.swift:17 | joining a head and a non-empty rest puts one separator between them |
| Strings.WellSeparatedTail | Sources/System/Mountpoint.swift:45 | the text after a separator of a well-separated string is well separated |
| Strings.NatToString | Sources/System/Mountpoint.swift:20 | a non-empty string of decimal digits with no leading zero, "0" exactly for 0; `NatToStringValue` gives its value |
| Strings.IntToString | Sources/System/Mountpoint.swift:20 | the canonical decimal form: a "-" at the front exactly when n < 0 and nowhere else, then digits with no leading zero (so never "-0"); `ParseIntToString` reads it back |
| Strings.ParseInt | Sources/System/Mountpoint.swift:51 | a result only for a sign or digit first, and only within the 64-bit range; `ParseIntDigits`, `ParseIntRejects` and `ParseIntNoDigits` give its value on every input |
| Strings.Unsigned | Sources/System/Mountpoint.swift:51 | the text after a leading "+" or "-", or all of it without one |
| Strings.NatToStringValue | Sources/System/Mountpoint.swift:20 | the digits written for n denote n |
| Strings.ParseIntDigits | Sources/System/Mountpoint.swift:51 | `Int()` of a digit string with an optional sign is its signed value when that fits 64 bits, and nil otherwise |
| Strings.ParseIntRejects | Sources/System/Mountpoint.swift:51 | `Int()` is nil when any character after the optional sign is not a digit |
| Strings.ParseIntNoDigits | Sources/System/Mountpoint.swift:51 | `Int()` is nil for the empty string and a lone sign |
| Strings.ParseIntToString | Sources/System/Mountpoint.swift:20-51 | printing a 64-bit `Int` and parsing it back gives the same `Int` |
| Strings.Join | Sources/System/Mountpoint.swift:17 | `joined(separator:)`: the items with one separator between neighbours; `SplitJoin` and `JoinSplit` relate it to `Split` |
| Strings.HasPrefix | Sources/System/Mountpoint.swift:32 | `hasPrefix` / `starts(with:)`: the first characters of the string are the prefix |
| DeviceTreeHelper.Filter | Tests/SystemDevicesTests/SystemDevicesTest.swift:8-15 | an order-keeping subsequence holding every kept element as often as the input and no other |
| DeviceTreeHelper.FilterMembers | Tests/SystemDevicesTests/SystemDevicesTest.swift:8-15 | an element is in the result exactly when it is in the input and kept |
| DeviceTreeHelper.IsValidDevice | Tests/SystemDevicesTests/SystemDevicesTest.swift:8-11 | initialized, with a devpath that starts with "/" |
| DeviceTreeHelper.FilterValidDevices | Tests/SystemDevicesTests/SystemDevicesTest.swift:7-12 | exactly the initialized devices whose devpath starts with "/", in input order and multiplicity |
| DeviceTreeHelper.Excludes | Tests/SystemDevicesTests/SystemDevicesTest.swift:16-23 | both have a devpath, the paths differ, and the device's path starts with the other's path and "/" |
| DeviceTreeHelper.IsRoot | Tests/SystemDevicesTests/SystemDevicesTest.swift:15-24 | no listed device excludes the device |
| DeviceTreeHelper.FindRootDevices | Tests/SystemDevicesTests/SystemDevicesTest.swift:14-25 | an order-keeping subsequence; a device is kept exactly when no listed device with a different path has a path p such that its own path starts with p + "/" |
| DeviceTreeHelper.PathlessIsRoot | Tests/SystemDevicesTests/SystemDevicesTest.swift:17-20 | a listed device without a devpath is always a root |
| DeviceTreeHelper.ExcludesShortens | Tests/SystemDevicesTests/SystemDevicesTest.swift:17-22 | an excluding device has a strictly shorter path, so two devices never exclude each other, and identical paths never exclude |
| DeviceTreeHelper.Shortest | Tests/SystemDevicesTests/SystemDevicesTest.swift:14-25 | a listed device with the shortest devpath |
| DeviceTreeHelper.RootsNonEmpty | Tests/SystemDevicesTests/SystemDevicesTest.swift:14-25 | a non-empty list always has a root |
| DeviceTreeHelper.DropFirst | Tests/SystemDevicesTests/SystemDevicesTest.swift:114-115 | `dropFirst(k)`: the string after its first k characters, or empty when shorter |
| DeviceTreeHelper.IsChild | Tests/SystemDevicesTests/SystemDevicesTest.swift:107-116 | both have a devpath, the paths differ, the child's starts with the device's and "/", and no "/" follows; `ChildShape` and `ShapeIsChild` give its meaning |
| DeviceTreeHelper.ChildShape | Tests/SystemDevicesTests/SystemDevicesTest.swift:107-116 | a child's devpath is the device's devpath, "/", and a name without "/" (possibly empty) |
| DeviceTreeHelper.ShapeIsChild | Tests/SystemDevicesTests/SystemDevicesTest.swift:107-116 | conversely, any such devpath is a child's |
| DeviceTreeHelper.Children | Tests/SystemDevicesTests/SystemDevicesTest.swift:107-116 | an order-keeping subsequence of exactly the children, each as often as listed; never the device itself or a device without a devpath |
| DeviceTreeHelper.ChildIsNotRoot | Tests/SystemDevicesTests/SystemDevicesTest.swift:14-116 | a listed device's child is never a root |

## Left out

- The udev backend: `Device`, `DeviceEnumerator`, `SystemDevices`, `findAllBlockDevices`. Reference counting and C calls become a record value, and enumeration becomes the `blockDevices` parameter.
- `DeviceMonitor`, `ProcessInfo` (reading /proc/self/mounts), the `diskutil` command line and JSON output: file and socket I/O and presentation.
- The `Mountpoint` record (Mountpoint.swift:59-66): a plain record of fields that only the /proc/self/mounts reader fills in, with no logic of its own. Its options are `MountpointOption` values, which are modelled.
- The diagnostic `print` for unhandled device types (SystemDisks.swift:39) and all printing in the test helper. The model only skips those devices.
- `Disk.name`, `type`, `fileSystem`, `uniqueId`, `deviceNode`: force-unwrapping or direct reads of backend values, with no logic of their own.
- The order of `getAllDisks` results. It comes from dictionary iteration; the model picks keys in an unspecified order, and the contracts do not depend on it.
- A `nil` device node, used as a dictionary key with a forced conversion: the model's node is always a string.
- SystemDisks.AttachPartition: does not model `tree.first!` trapping, because the chain is never empty.
- Mountpoint.From: a leading "=" is modelled as the result `Trapped`, not as a process crash.
- Swift `String` works on grapheme clusters. The model uses one `char` per character, with no Unicode normalisation.
