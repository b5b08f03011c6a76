/**
 * The devpath predicates of the device-tree test helper: which devices are
 * valid, which are roots of the udev path tree, and which are the direct
 * children of a device. The printing that walks this tree is not modelled.
 */
module DeviceTreeHelper {
  import opened Wrappers
  import opened Devices
  import opened Strings

  /** `r` is `s` with some elements left out, the rest in their order. */
  ghost predicate Subsequence<T>(r: seq<T>, s: seq<T>)
    decreases |s|
  {
    if r == [] then true
    else if s == [] then false
    else (r[0] == s[0] && Subsequence(r[1..], s[1..])) || Subsequence(r, s[1..])
  }

  /**
   * Swift's `filter`: the elements of `s` that satisfy `keep`, in order,
   * each as often as it occurs in `s`.
   */
  function Filter<T(==, !new)>(s: seq<T>, keep: T -> bool): (r: seq<T>)
    ensures Subsequence(r, s)
    ensures forall x :: keep(x) ==> multiset(r)[x] == multiset(s)[x]
    ensures forall x :: !keep(x) ==> multiset(r)[x] == 0
    decreases |s|
  {
    if s == [] then []
    else
      var rest := Filter(s[1..], keep);
      assert s == [s[0]] + s[1..];
      if keep(s[0]) then [s[0]] + rest else rest
  }

  /** Filtering keeps exactly the elements that satisfy the predicate. */
  lemma FilterMembers<T(!new)>(s: seq<T>, keep: T -> bool)
    ensures forall x :: x in Filter(s, keep) <==> x in s && keep(x)
  {
    var r := Filter(s, keep);
    forall x ensures x in r <==> x in s && keep(x) {
      assert x in r <==> multiset(r)[x] > 0;
      assert x in s <==> multiset(s)[x] > 0;
    }
  }

  /** Initialized, with a devpath that starts with "/". */
  predicate IsValidDevice(d: Device)
  {
    d.initialized && d.devicePath.Some? && HasPrefix(d.devicePath.value, "/")
  }

  /** `filterValidDevices(from:)` */
  function FilterValidDevices(devices: seq<Device>): (r: seq<Device>)
    ensures Subsequence(r, devices)
    ensures forall d :: IsValidDevice(d) ==> multiset(r)[d] == multiset(devices)[d]
    ensures forall d :: !IsValidDevice(d) ==> d !in r
  {
    Filter(devices, IsValidDevice)
  }

  /**
   * `other` keeps `d` out of the roots: both have a devpath, the paths
   * differ, and `d`'s path lies below `other`'s.
   */
  predicate Excludes(other: Device, d: Device)
  {
    && other.devicePath.Some? && d.devicePath.Some?
    && d.devicePath.value != other.devicePath.value
    && HasPrefix(d.devicePath.value, other.devicePath.value + "/")
  }

  /** No device in `devices` excludes `d`. */
  predicate IsRoot(devices: seq<Device>, d: Device)
  {
    forall other <- devices :: !Excludes(other, d)
  }

  /** `findRootDevices(from:)` */
  function FindRootDevices(validDevices: seq<Device>): (r: seq<Device>)
    ensures Subsequence(r, validDevices)
    ensures forall d :: d in r <==> d in validDevices && IsRoot(validDevices, d)
    ensures forall d :: IsRoot(validDevices, d) ==> multiset(r)[d] == multiset(validDevices)[d]
  {
    var keep := (d: Device) => IsRoot(validDevices, d);
    FilterMembers(validDevices, keep);
    Filter(validDevices, keep)
  }

  /** A device without a devpath is never excluded, so it is a root whenever listed. */
  lemma PathlessIsRoot(validDevices: seq<Device>, d: Device)
    requires d in validDevices && d.devicePath.None?
    ensures d in FindRootDevices(validDevices)
  {
  }

  /** Exclusion needs a strictly shorter path, so two devices never exclude each other. */
  lemma ExcludesShortens(a: Device, b: Device)
    ensures Excludes(a, b) ==> PathLength(a) < PathLength(b) && !Excludes(b, a)
  {
  }

  /** How deep `d` sits in the path tree, for picking a device nothing can exclude. */
  function PathLength(d: Device): nat
  {
    if d.devicePath.Some? then |d.devicePath.value| else 0
  }

  /** An element of `devices` with the shortest path. */
  function Shortest(devices: seq<Device>): (m: Device)
    requires devices != []
    ensures m in devices
    ensures forall d <- devices :: PathLength(m) <= PathLength(d)
    decreases |devices|
  {
    if |devices| == 1 then devices[0]
    else
      var m := Shortest(devices[1..]);
      assert forall d <- devices :: d == devices[0] || d in devices[1..];
      if PathLength(devices[0]) <= PathLength(m) then devices[0] else m
  }

  /** Every non-empty list of devices has a root: one with the shortest path. */
  lemma {:induction false} RootsNonEmpty(validDevices: seq<Device>)
    requires validDevices != []
    ensures FindRootDevices(validDevices) != []
  {
    var m := Shortest(validDevices);
    forall other | other in validDevices ensures !Excludes(other, m) {
      ExcludesShortens(other, m);
    }
    assert m in FindRootDevices(validDevices);
  }

  /** `String.dropFirst(k)`: `s` without its first `k` characters, or empty when shorter. */
  function DropFirst(s: string, k: nat): (r: string)
    ensures k <= |s| ==> s == s[..k] + r
    ensures k > |s| ==> r == []
  {
    if k <= |s| then s[k..] else []
  }

  /**
   * The `children` filter: `child` has a devpath different from `device`'s,
   * below it, with no further "/" after the separating one.
   */
  predicate IsChild(device: Device, child: Device)
  {
    && child.devicePath.Some? && device.devicePath.Some?
    && child.devicePath.value != device.devicePath.value
    && var childPath := child.devicePath.value;
       var currentPath := device.devicePath.value;
       var relativePath := DropFirst(childPath, |currentPath|);
       HasPrefix(childPath, currentPath + "/") && '/' !in DropFirst(relativePath, 1)
  }

  /** A child's devpath is the parent's devpath, "/", and one name without "/" (possibly empty). */
  lemma ChildShape(device: Device, child: Device)
    requires IsChild(device, child)
    ensures var p := device.devicePath.value;
            var c := child.devicePath.value;
            && |c| >= |p| + 1
            && c == p + "/" + c[|p| + 1..]
            && '/' !in c[|p| + 1..]
  {
    var p := device.devicePath.value;
    var c := child.devicePath.value;
    assert c[..|p| + 1] == p + "/";
    assert c == c[..|p| + 1] + c[|p| + 1..];
    assert DropFirst(DropFirst(c, |p|), 1) == c[|p| + 1..];
  }

  /** Conversely, the devpath of `device` followed by "/" and any name without "/" is a child's. */
  lemma ShapeIsChild(device: Device, child: Device, name: string)
    requires device.devicePath.Some? && '/' !in name
    requires child.devicePath == Some(device.devicePath.value + "/" + name)
    ensures IsChild(device, child)
  {
    var p := device.devicePath.value;
    var c := child.devicePath.value;
    assert c[..|p| + 1] == p + "/";
    assert c[|p|..] == "/" + name;
    assert DropFirst(c[|p|..], 1) == name;
  }

  /** `children` of `device` among `validDevices`. */
  function Children(validDevices: seq<Device>, device: Device): (r: seq<Device>)
    ensures Subsequence(r, validDevices)
    ensures forall c :: c in r <==> c in validDevices && IsChild(device, c)
    ensures forall c :: IsChild(device, c) ==> multiset(r)[c] == multiset(validDevices)[c]
    ensures forall c <- r :: c.devicePath.Some? && c.devicePath != device.devicePath
  {
    var keep := (c: Device) => IsChild(device, c);
    FilterMembers(validDevices, keep);
    Filter(validDevices, keep)
  }

  /** A device listed as another listed device's child is never a root. */
  lemma ChildIsNotRoot(validDevices: seq<Device>, device: Device, child: Device)
    requires device in validDevices && child in Children(validDevices, device)
    ensures child !in FindRootDevices(validDevices)
  {
    assert Excludes(device, child);
  }
}
