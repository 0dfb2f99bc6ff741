/**
 The device record the Linux HID service builds, and the identity extraction
 `HidServiceLinux::OnDeviceAdded` performs on a udev device before it asks
 for access: a chain of guards (device, syspath, `hidraw` subsystem, parent,
 parent's `HID_ID` with exactly three `:`-separated fields) followed by two
 hexadecimal parses and two optional string properties.
 */
module HidDevice {
  import opened Wrappers
  import opened HidStrings

  type uint8 = x: int | 0 <= x < 0x100
  type uint16 = x: int | 0 <= x < 0x1_0000

  const HidrawSubsystem: string := "hidraw"
  const HidIdKey: string := "HID_ID"
  const HidNameKey: string := "HID_NAME"
  const HidUniqueKey: string := "HID_UNIQ"

  /** One top-level collection, as the report-descriptor parser reports it. */
  datatype HidCollectionInfo = HidCollectionInfo(usagePage: nat, usage: nat, reportIds: set<int>)

  datatype HidDeviceInfo = HidDeviceInfo(
    deviceId: string,
    vendorId: uint16,
    productId: uint16,
    productName: string,
    serialNumber: string,
    collections: seq<HidCollectionInfo>,
    hasReportId: bool,
    maxInputReportSize: int,
    maxOutputReportSize: int,
    maxFeatureReportSize: int)

  /** A udev device as the service sees it; `None` where libudev returns NULL. */
  datatype UdevDevice = UdevDevice(
    syspath: Option<string>,
    subsystem: Option<string>,
    devnode: string,
    parentProperties: Option<map<string, string>>)

  /** A default-constructed record with only the device id set. */
  function NewDeviceInfo(deviceId: string): HidDeviceInfo
  {
    HidDeviceInfo(deviceId, 0, 0, "", "", [], false, 0, 0, 0)
  }

  /** Nothing derived from the report descriptor has been filled in yet. */
  predicate NoDescriptorYet(info: HidDeviceInfo)
  {
    && info.collections == []
    && !info.hasReportId
    && info.maxInputReportSize == 0
    && info.maxOutputReportSize == 0
    && info.maxFeatureReportSize == 0
  }

  /** The value of an optional string property, or the empty string when it is absent. */
  function PropertyOrEmpty(properties: map<string, string>, key: string): string
  {
    if key in properties then properties[key] else ""
  }

  /**
   The id kept for one `HID_ID` field: the 32-bit parse result narrowed to
   the 16-bit record field, or the default 0 when the field does not parse
   (empty, not hexadecimal, or too large for 32 bits).
   */
  function IdField(field: string): (id: uint16)
    ensures field != [] && AllHexDigits(field) && HexValue(field) < 0x1_0000_0000 ==> id == HexValue(field) % 0x1_0000
    ensures field == [] || !AllHexDigits(field) || HexValue(field) >= 0x1_0000_0000 ==> id == 0
  {
    match ParseHex(field)
    case Some(v) => v % 0x1_0000
    case None => 0
  }

  /** The guards before the `HID_ID` property is examined. */
  predicate IsHidrawWithParent(device: Option<UdevDevice>)
  {
    && device.Some?
    && device.value.syspath.Some?
    && device.value.subsystem == Some(HidrawSubsystem)
    && device.value.parentProperties.Some?
  }

  /** The device passes every guard: its parent's `HID_ID` holds exactly two separators. */
  predicate IsAcceptedHidraw(device: Option<UdevDevice>)
  {
    && IsHidrawWithParent(device)
    && HidIdKey in device.value.parentProperties.value
    && Count(device.value.parentProperties.value[HidIdKey], ':') == 2
  }

  /** The identity part of `OnDeviceAdded`: a record for an accepted device, `None` otherwise. */
  function ExtractDeviceInfo(device: Option<UdevDevice>): (r: Option<HidDeviceInfo>)
    ensures r.Some? <==> IsAcceptedHidraw(device)
    ensures r.Some? ==> r.value.deviceId == device.value.syspath.value
    ensures r.Some? ==> NoDescriptorYet(r.value)
    ensures r.Some? ==>
      && r.value.serialNumber == PropertyOrEmpty(device.value.parentProperties.value, HidUniqueKey)
      && r.value.productName == PropertyOrEmpty(device.value.parentProperties.value, HidNameKey)
  {
    if device.None? then None
    else
      var d := device.value;
      if d.syspath.None? then None
      else if d.subsystem.None? || d.subsystem.value != HidrawSubsystem then None
      else if d.parentProperties.None? then None
      else
        var properties := d.parentProperties.value;
        if HidIdKey !in properties then None
        else
          var parts := Split(properties[HidIdKey], ':');
          if |parts| != 3 then None
          else
            var info := NewDeviceInfo(d.syspath.value);
            var info := info.(vendorId := IdField(parts[1]), productId := IdField(parts[2]));
            var info := if HidUniqueKey in properties then info.(serialNumber := properties[HidUniqueKey]) else info;
            var info := if HidNameKey in properties then info.(productName := properties[HidNameKey]) else info;
            Some(info)
  }

  /**
   For `HID_ID` = bus:vendor:product, the vendor and product ids are read
   from the second and third fields, each independently of whether the other
   parses.
   */
  lemma ExtractIdFields(device: Option<UdevDevice>, bus: string, vendor: string, product: string)
    requires IsHidrawWithParent(device)
    requires HidIdKey in device.value.parentProperties.value
    requires device.value.parentProperties.value[HidIdKey] == bus + ":" + vendor + ":" + product
    requires ':' !in bus && ':' !in vendor && ':' !in product
    ensures ExtractDeviceInfo(device).Some?
    ensures ExtractDeviceInfo(device).value.vendorId == IdField(vendor)
    ensures ExtractDeviceInfo(device).value.productId == IdField(product)
  {
    var parts := [bus, vendor, product];
    assert parts[1..] == [vendor, product] && parts[1..][1..] == [product];
    assert Join([vendor, product], ':') == vendor + [':'] + product;
    assert Join(parts, ':') == bus + [':'] + (vendor + [':'] + product);
    assert device.value.parentProperties.value[HidIdKey] == Join(parts, ':');
    SplitJoin(parts, ':');
  }

  /** A udev hidraw node whose parent carries exactly the given properties. */
  function HidrawNode(properties: map<string, string>): UdevDevice
  {
    UdevDevice(Some("/sys/devices/hidraw0"), Some(HidrawSubsystem), "/dev/hidraw0", Some(properties))
  }

  /**
   A hexadecimal field whose value fits in 16 bits is kept unchanged, however
   many leading zeros it has; a corollary of the contract of `IdField`.
   */
  lemma IdFieldOfShortHex(field: string)
    requires field != [] && AllHexDigits(field) && HexValue(field) < 0x1_0000
    ensures IdField(field) == HexValue(field)
  {
  }

  /** The value of a four-digit field, digit by digit. */
  lemma HexValueOfFour(s: string)
    requires |s| == 4 && AllHexDigits(s)
    ensures HexValue(s) == ((DigitValue(s[0]) * 16 + DigitValue(s[1])) * 16 + DigitValue(s[2])) * 16 + DigitValue(s[3])
  {
    assert s[..3][..2] == s[..2] && s[..2][..1] == s[..1] && s[..1][..0] == [];
    assert HexValue(s[..1]) == DigitValue(s[0]);
    assert HexValue(s[..2]) == HexValue(s[..1]) * 16 + DigitValue(s[1]);
    assert HexValue(s[..3]) == HexValue(s[..2]) * 16 + DigitValue(s[2]);
    assert HexValue(s) == HexValue(s[..3]) * 16 + DigitValue(s[3]);
  }

  /** The value of a five-digit field, digit by digit. */
  lemma HexValueOfFive(s: string)
    requires |s| == 5 && AllHexDigits(s)
    ensures HexValue(s) == HexValue(s[..4]) * 16 + DigitValue(s[4])
    ensures HexValue(s[..4]) == ((DigitValue(s[0]) * 16 + DigitValue(s[1])) * 16 + DigitValue(s[2])) * 16 + DigitValue(s[3])
  {
    HexValueOfFour(s[..4]);
  }

  /** The ids kept for the literal fields used in the examples below. */
  lemma IdFieldExamples()
    ensures IdField("046d") == 0x046d && IdField("c52b") == 0xc52b
    ensures IdField("zz") == 0 && IdField("12345") == 0x2345
  {
    HexValueOfFour("046d");
    HexValueOfFour("c52b");
    HexValueOfFive("12345");
    ShortHexParses("12345");
    assert !IsHexDigit("zz"[0]);
  }

  /** `HID_ID` "3:046d:c52b" yields vendor 0x046d and product 0xc52b. */
  lemma ExtractExampleIds(device: Option<UdevDevice>)
    requires device == Some(HidrawNode(map[HidIdKey := "3:046d:c52b"]))
    ensures var r := ExtractDeviceInfo(device);
      && r.Some?
      && r.value.vendorId == 0x046d && r.value.productId == 0xc52b
      && r.value.serialNumber == "" && r.value.productName == ""
  {
    var r := ExtractDeviceInfo(device);
    assert r.Some? && r.value.vendorId == IdField("046d") && r.value.productId == IdField("c52b") by {
      ExtractIdFields(device, "3", "046d", "c52b");
    }
    IdFieldExamples();
  }

  /** The whole record extracted for the example node. */
  lemma ExtractExampleRecord(device: Option<UdevDevice>)
    requires device == Some(HidrawNode(map[HidIdKey := "3:046d:c52b"]))
    ensures ExtractDeviceInfo(device) == Some(HidDeviceInfo("/sys/devices/hidraw0", 0x046d, 0xc52b, "", "", [], false, 0, 0, 0))
  {
    ExtractExampleIds(device);
  }

  /** `HID_ID` "3:046d" has two fields, so no record is produced. */
  lemma ExtractExampleTwoFields(device: Option<UdevDevice>)
    requires device == Some(HidrawNode(map[HidIdKey := "3:046d"]))
    ensures ExtractDeviceInfo(device).None?
  {
    var parts := ["3", "046d"];
    assert "3:046d" == Join(parts, ':');
    SplitJoin(parts, ':');
  }

  /**
   A vendor field that is not hexadecimal leaves the vendor id at 0 without
   rejecting the device; a product field wider than 16 bits keeps its low
   16 bits.
   */
  lemma ExtractExampleDefaultAndNarrowing(device: Option<UdevDevice>)
    requires device == Some(HidrawNode(map[HidIdKey := "3:zz:12345"]))
    ensures var r := ExtractDeviceInfo(device);
      r.Some? && r.value.vendorId == 0 && r.value.productId == 0x2345
  {
    ExtractIdFields(device, "3", "zz", "12345");
    IdFieldExamples();
  }
}
