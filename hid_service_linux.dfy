/**
 The Linux HID service: what happens to its device registry when udev reports
 a device added or removed, when the (possibly deferred) access step
 completes, and what `Connect` hands back.

 The operating system is given as values: the descriptor ioctls as a
 `NodeIo` record, the monitor's current devices as a map from syspath to
 device node, and the report-descriptor parser as a function parameter.
 */
module HidService {
  import opened Wrappers
  import opened HidDevice

  /** What the report-descriptor parser reports for one descriptor. */
  datatype DescriptorDetails = DescriptorDetails(
    collections: seq<HidCollectionInfo>,
    hasReportId: bool,
    maxInputReportSize: int,
    maxOutputReportSize: int,
    maxFeatureReportSize: int)

  /**
   The answers the kernel gives for device nodes: which nodes open read-only,
   the size the descriptor-size ioctl reports for a node (absent: the ioctl
   fails), and the bytes the descriptor ioctl yields for a node and a size
   (absent: the ioctl fails).
   */
  datatype NodeIo = NodeIo(
    openable: set<string>,
    descriptorSize: map<string, int>,
    descriptor: map<(string, int), seq<uint8>>)

  /** An open connection to a registered device through its current node. */
  datatype HidConnection = HidConnection(info: HidDeviceInfo, devNode: string)

  /** An access request handed to the permission broker, to be completed later (or never). */
  datatype PendingAccess = PendingAccess(devNode: string, info: HidDeviceInfo)

  /** The build and the machine the service runs on. */
  datatype Platform = Platform(chromeOsBuild: bool, runningOnChromeOs: bool, brokerClientAvailable: bool)

  /** How `OnDeviceAdded` reaches the access-complete step. */
  datatype AccessStep = CompleteNow | AskBroker | GiveUp

  type Registry = map<string, HidDeviceInfo>

  /** Every registered record is filed under its own device id. */
  ghost predicate WellKeyed(devices: Registry)
  {
    forall id :: id in devices ==> devices[id].deviceId == id
  }

  /**
   The access step: immediate outside ChromeOS and on a ChromeOS build not
   running on ChromeOS; through the permission broker on ChromeOS, and
   abandoned there when no broker client is available.
   */
  function AccessStepFor(platform: Platform): (step: AccessStep)
    ensures step == CompleteNow <==> !(platform.chromeOsBuild && platform.runningOnChromeOs)
    ensures step == GiveUp <==> platform.chromeOsBuild && platform.runningOnChromeOs && !platform.brokerClientAvailable
  {
    if platform.chromeOsBuild && platform.runningOnChromeOs then
      if platform.brokerClientAvailable then AskBroker else GiveUp
    else
      CompleteNow
  }

  /** The node opens and both descriptor ioctls succeed. */
  predicate DescriptorReadable(io: NodeIo, node: string)
  {
    && node in io.openable
    && node in io.descriptorSize
    && (node, io.descriptorSize[node]) in io.descriptor
  }

  function DescriptorBytes(io: NodeIo, node: string): seq<uint8>
    requires DescriptorReadable(io, node)
  {
    io.descriptor[(node, io.descriptorSize[node])]
  }

  /** The record with the parser's results written into its descriptor fields. */
  function WithDescriptor(info: HidDeviceInfo, details: DescriptorDetails): HidDeviceInfo
  {
    info.(
      collections := details.collections,
      hasReportId := details.hasReportId,
      maxInputReportSize := details.maxInputReportSize,
      maxOutputReportSize := details.maxOutputReportSize,
      maxFeatureReportSize := details.maxFeatureReportSize)
  }

  /** Registering a record: filed under its device id unless that id is already taken. */
  function WithDevice(devices: Registry, info: HidDeviceInfo): (r: Registry)
    ensures r.Keys == devices.Keys + {info.deviceId}
    ensures forall id :: id in devices ==> r[id] == devices[id]
    ensures info.deviceId !in devices ==> r[info.deviceId] == info
    ensures WellKeyed(devices) ==> WellKeyed(r)
  {
    if info.deviceId in devices then devices else devices[info.deviceId := info]
  }

  /** Unregistering a device id: exactly that entry goes, all others stay. */
  function WithoutDevice(devices: Registry, id: string): (r: Registry)
    ensures r.Keys == devices.Keys - {id}
    ensures forall k :: k in r ==> r[k] == devices[k]
    ensures WellKeyed(devices) ==> WellKeyed(r)
  {
    devices - {id}
  }

  /**
   The registry after the access-complete step for `info` through `node`;
   the grant flag the step receives plays no part in it. A failed open or
   either failed ioctl leaves the registry unchanged; otherwise the device
   appears under its id, carrying its identity fields unchanged and the
   parser's results, unless that id was already registered. No other entry
   changes.
   */
  function AccessComplete(devices: Registry, node: string, info: HidDeviceInfo, io: NodeIo,
                          parse: seq<uint8> -> DescriptorDetails): (r: Registry)
    ensures !DescriptorReadable(io, node) ==> r == devices
    ensures DescriptorReadable(io, node) ==> r.Keys == devices.Keys + {info.deviceId}
    ensures forall id :: id in devices ==> r[id] == devices[id]
    ensures DescriptorReadable(io, node) && info.deviceId !in devices ==>
      var d := parse(DescriptorBytes(io, node));
      && r[info.deviceId].deviceId == info.deviceId
      && r[info.deviceId].vendorId == info.vendorId
      && r[info.deviceId].productId == info.productId
      && r[info.deviceId].serialNumber == info.serialNumber
      && r[info.deviceId].productName == info.productName
      && r[info.deviceId].collections == d.collections
      && r[info.deviceId].hasReportId == d.hasReportId
      && r[info.deviceId].maxInputReportSize == d.maxInputReportSize
      && r[info.deviceId].maxOutputReportSize == d.maxOutputReportSize
      && r[info.deviceId].maxFeatureReportSize == d.maxFeatureReportSize
  {
    if DescriptorReadable(io, node) then
      WithDevice(devices, WithDescriptor(info, parse(DescriptorBytes(io, node))))
    else
      devices
  }

  /**
   `Connect`'s answer: nothing for an unknown id or for a device the monitor
   no longer knows, otherwise a connection through the node the monitor
   reports now. The node is looked up in `live`, the monitor's state at
   connect time, so no node recorded at registration is ever reused.
   */
  function ConnectTo(devices: Registry, live: map<string, string>, id: string): (r: Option<HidConnection>)
    ensures r.None? <==> id !in devices || devices[id].deviceId !in live
    ensures r.Some? ==> r.value.info == devices[id] && r.value.devNode == live[devices[id].deviceId]
  {
    if id !in devices then None
    else
      var info := devices[id];
      if info.deviceId in live then Some(HidConnection(info, live[info.deviceId])) else None
  }

  /**
   No pending state is kept: a removal that overtakes a deferred access
   request does not stop the late completion from registering the device.
   */
  lemma LateCompletionAfterRemoval(devices: Registry, node: string, info: HidDeviceInfo, io: NodeIo,
                                   parse: seq<uint8> -> DescriptorDetails)
    requires DescriptorReadable(io, node)
    ensures var r := AccessComplete(WithoutDevice(devices, info.deviceId), node, info, io, parse);
      info.deviceId in r && r[info.deviceId] == WithDescriptor(info, parse(DescriptorBytes(io, node)))
  {
  }

  /** Removing a device undoes registering it, whatever state the registry was in before. */
  lemma RemoveUndoesAdd(devices: Registry, node: string, info: HidDeviceInfo, io: NodeIo,
                        parse: seq<uint8> -> DescriptorDetails)
    ensures WithoutDevice(AccessComplete(devices, node, info, io, parse), info.deviceId)
         == WithoutDevice(devices, info.deviceId)
  {
    var r := AccessComplete(devices, node, info, io, parse);
    assert WithoutDevice(r, info.deviceId).Keys == WithoutDevice(devices, info.deviceId).Keys;
  }

  /** After a removal the device can no longer be connected to. */
  lemma ConnectAfterRemoval(devices: Registry, live: map<string, string>, id: string)
    ensures ConnectTo(WithoutDevice(devices, id), live, id).None?
  {
  }

  /**
   An accepted device whose node is readable, and whose syspath is not yet
   registered, can be connected to while the monitor still knows it, and the
   connection carries the identity extracted from udev.
   */
  lemma AddedDeviceConnects(devices: Registry, device: Option<UdevDevice>, io: NodeIo,
                            parse: seq<uint8> -> DescriptorDetails, live: map<string, string>)
    requires ExtractDeviceInfo(device).Some?
    requires DescriptorReadable(io, device.value.devnode)
    requires device.value.syspath.value !in devices && device.value.syspath.value in live
    ensures var info := ExtractDeviceInfo(device).value;
      var c := ConnectTo(AccessComplete(devices, device.value.devnode, info, io, parse), live, device.value.syspath.value);
      && c.Some?
      && c.value.devNode == live[device.value.syspath.value]
      && c.value.info.deviceId == device.value.syspath.value
      && c.value.info.vendorId == info.vendorId && c.value.info.productId == info.productId
  {
  }

  /**
   The service object: its registry of devices, keyed by syspath, updated by
   the udev observer callbacks and read by `Connect`.
   */
  class HidServiceLinux {
    var devices: Registry

    ghost predicate Valid()
      reads this
    {
      WellKeyed(devices)
    }

    /** A new service starts with an empty registry (enumeration then arrives as add events). */
    constructor ()
      ensures Valid() && devices == map[]
    {
      devices := map[];
    }

    method AddDevice(info: HidDeviceInfo)
      requires Valid()
      modifies this
      ensures Valid()
      ensures devices == WithDevice(old(devices), info)
    {
      if info.deviceId !in devices {
        devices := devices[info.deviceId := info];
      }
    }

    method RemoveDevice(id: string)
      requires Valid()
      modifies this
      ensures Valid()
      ensures devices == WithoutDevice(old(devices), id)
    {
      devices := devices - {id};
    }

    /**
     A udev add event: an accepted device goes through the access step for
     this platform. It completes at once, is handed back as a pending broker
     request (the registry then unchanged), or is abandoned. A rejected
     device changes nothing.
     */
    method OnDeviceAdded(device: Option<UdevDevice>, platform: Platform, io: NodeIo,
                         parse: seq<uint8> -> DescriptorDetails)
      returns (pending: Option<PendingAccess>)
      requires Valid()
      modifies this
      ensures Valid()
      ensures ExtractDeviceInfo(device).None? ==> devices == old(devices) && pending.None?
      ensures ExtractDeviceInfo(device).Some? ==>
        var info := ExtractDeviceInfo(device).value;
        match AccessStepFor(platform)
        case CompleteNow =>
          pending.None? && devices == AccessComplete(old(devices), device.value.devnode, info, io, parse)
        case AskBroker =>
          pending == Some(PendingAccess(device.value.devnode, info)) && devices == old(devices)
        case GiveUp =>
          pending.None? && devices == old(devices)
    {
      pending := None;
      var extracted := ExtractDeviceInfo(device);
      if extracted.None? {
        return;
      }
      var info := extracted.value;
      var devNode := device.value.devnode;
      var step := AccessStepFor(platform);
      if step == AskBroker {
        pending := Some(PendingAccess(devNode, info));
      } else if step == CompleteNow {
        OnRequestAccessComplete(devNode, info, true, io, parse);
      }
    }

    /**
     The access-complete step. `success` is not consulted: the node is
     opened, its descriptor size and descriptor are read, and only when all
     three succeed is the record, with the parser's results filled in,
     registered.
     */
    method OnRequestAccessComplete(path: string, info: HidDeviceInfo, success: bool, io: NodeIo,
                                   parse: seq<uint8> -> DescriptorDetails)
      requires Valid()
      modifies this
      ensures Valid()
      ensures devices == AccessComplete(old(devices), path, info, io, parse)
    {
      if path !in io.openable {
        return;
      }
      if path !in io.descriptorSize {
        return;
      }
      var descSize := io.descriptorSize[path];
      if (path, descSize) !in io.descriptor {
        return;
      }
      var bytes := io.descriptor[(path, descSize)];
      var details := parse(bytes);
      AddDevice(WithDescriptor(info, details));
    }

    /** A udev remove event: the entry for the device's syspath goes, if it has one. */
    method OnDeviceRemoved(device: UdevDevice)
      requires Valid()
      modifies this
      ensures Valid()
      ensures device.syspath.None? ==> devices == old(devices)
      ensures device.syspath.Some? ==> devices == WithoutDevice(old(devices), device.syspath.value)
    {
      if device.syspath.Some? {
        RemoveDevice(device.syspath.value);
      }
    }

    /**
     A connection to a registered device through the node the monitor
     reports for it now, or nothing when the id is unknown or the monitor no
     longer knows the device.
     */
    method Connect(deviceId: string, live: map<string, string>) returns (c: Option<HidConnection>)
      requires Valid()
      ensures c == ConnectTo(devices, live, deviceId)
      ensures c.None? <==> deviceId !in devices || deviceId !in live
      ensures c.Some? ==> c.value.devNode == live[deviceId] && c.value.info.deviceId == deviceId
    {
      if deviceId !in devices {
        return None;
      }
      var info := devices[deviceId];
      if info.deviceId in live {
        c := Some(HidConnection(info, live[info.deviceId]));
      } else {
        c := None;
      }
    }
  }
}
