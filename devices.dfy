/**
 * The block-device records that the udev backend hands to the disk
 * assembler. The backend itself (libudev handles, enumeration, reference
 * counting) is not part of this model: a `Device` is the value the core
 * reads from it.
 */
module Devices {
  import opened Wrappers

  /**
   * One udev device. `node` is the device node (`/dev/sda1`), `devType` the
   * udev DEVTYPE ("disk", "partition", or anything else, possibly absent),
   * `devicePath` the kernel devpath, and `parent` the record that
   * `udev_device_get_parent` returns. Because a parent is held inside its
   * child, the parent relation is acyclic by construction.
   */
  datatype Device = Device(
    node: string,
    devType: Option<string>,
    devicePath: Option<string>,
    initialized: bool,
    properties: map<string, string>,
    attributes: map<string, string>,
    parent: Option<Device>)
  {
    predicate IsDisk() {
      devType == Some("disk")
    }

    predicate IsPartition() {
      devType == Some("partition")
    }

    /** `propertyValue(of:)`: the udev property, if present. */
    function PropertyValue(name: string): (r: Option<string>)
      ensures r.Some? <==> name in properties
      ensures r.Some? ==> r.value == properties[name]
    {
      if name in properties then Some(properties[name]) else None
    }

    /** `systemAttributeValue(of:)`: the sysfs attribute, if present. */
    function AttributeValue(name: string): (r: Option<string>)
      ensures r.Some? <==> name in attributes
      ensures r.Some? ==> r.value == attributes[name]
    {
      if name in attributes then Some(attributes[name]) else None
    }
  }

  /** Number of records reachable by following `parent` links; a termination measure. */
  function Depth(d: Option<Device>): nat
  {
    match d
    case None => 0
    case Some(x) => 1 + Depth(x.parent)
  }
}
