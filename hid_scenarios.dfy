/**
 Client scenarios: what a caller of the service can conclude from the
 contracts alone, on desktop Linux and on ChromeOS.
 */
module HidScenarios {
  import opened Wrappers
  import opened HidDevice
  import opened HidService

  /** A node whose descriptor reads as four bytes, and a parser that reports them as one input report. */
  const ExampleIo := NodeIo({"/dev/hidraw0"}, map["/dev/hidraw0" := 4], map[("/dev/hidraw0", 4) := [5, 1, 9, 2]])

  function ExampleParse(bytes: seq<uint8>): DescriptorDetails
  {
    DescriptorDetails([HidCollectionInfo(1, 2, {})], false, |bytes|, 0, 0)
  }

  const Syspath := "/sys/devices/hidraw0"
  const ExampleInfo := HidDeviceInfo(Syspath, 0x046d, 0xc52b, "", "", [], false, 0, 0, 0)
  const Registered := WithDescriptor(ExampleInfo, ExampleParse([5, 1, 9, 2]))

  /** Desktop Linux: a device can be connected to once it is plugged in. */
  method ScenarioDesktopPlugIn()
  {
    var service := new HidServiceLinux();
    var device := Some(HidrawNode(map[HidIdKey := "3:046d:c52b"]));
    ExtractExampleRecord(device);
    assert DescriptorReadable(ExampleIo, "/dev/hidraw0");

    var pending := service.OnDeviceAdded(device,
                                         Platform(false, false, false), ExampleIo, ExampleParse);
    assert service.devices == map[Syspath := Registered];
    var c := service.Connect(Syspath, map[Syspath := "/dev/hidraw0"]);
    assert c == Some(HidConnection(Registered, "/dev/hidraw0"));
  }

  /** Desktop Linux: once the monitor has lost the device, or it has been removed, `Connect` fails. */
  method ScenarioDesktopUnplug()
  {
    var service := new HidServiceLinux();
    service.AddDevice(Registered);
    var gone := service.Connect(Syspath, map[]);
    assert gone.None?;

    service.OnDeviceRemoved(HidrawNode(map[HidIdKey := "3:046d:c52b"]));
    assert service.devices == map[];
    var c := service.Connect(Syspath, map[Syspath := "/dev/hidraw0"]);
    assert c.None?;
  }

  /**
   ChromeOS: the access request is deferred; the device is removed before
   the broker answers, and a late refusal still registers it.
   */
  method ScenarioChromeOsLateRefusal()
  {
    var service := new HidServiceLinux();
    var device := Some(HidrawNode(map[HidIdKey := "3:046d:c52b"]));
    ExtractExampleRecord(device);
    assert DescriptorReadable(ExampleIo, "/dev/hidraw0");

    var pending := service.OnDeviceAdded(device,
                                         Platform(true, true, true), ExampleIo, ExampleParse);
    assert pending == Some(PendingAccess("/dev/hidraw0", ExampleInfo)) && service.devices == map[];

    service.OnDeviceRemoved(HidrawNode(map[HidIdKey := "3:046d:c52b"]));
    service.OnRequestAccessComplete("/dev/hidraw0", ExampleInfo, false, ExampleIo, ExampleParse);
    assert service.devices == map[Syspath := Registered];
  }
}
