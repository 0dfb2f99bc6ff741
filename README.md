# Linux HID device service — a Dafny model

This project models the device bookkeeping of Chromium's Linux HID service
(`HidServiceLinux`, in `device/hid/hid_service_linux.cc`). udev reports
`hidraw` device nodes as they appear and disappear. For each added node the
service does four things:

- it builds a `HidDeviceInfo` from the node and its parent's udev properties
  (`HID_ID` = `bus:vendor:product` in hexadecimal, `HID_UNIQ`, `HID_NAME`);
- it passes the node through a platform-dependent access step (at once on
  Linux, through the permission broker on ChromeOS);
- it opens the node and reads its report descriptor with two ioctls, and has
  the descriptor parsed;
- it registers the finished record under the device's syspath.

A removed node's entry is dropped. `Connect` hands out a connection for a
registered id, through the node the udev monitor reports at that moment.

Files and modules:

- `wrappers.dfy` (`Wrappers`): `Option`.
- `hid_strings.dfy` (`HidStrings`): the split on `:` and the hexadecimal
  field parse applied to `HID_ID`. Each comes with its partner: `Join` for
  the split, the encoder `ToHex` for the parse. The split has round-trip
  lemmas in both directions. The parse has encode-then-parse
  (`ParseHexRoundTrip`) and `ShortHexParses`, which ties short fields to
  their digit value `HexValue`. Parse-then-encode does not hold, because of
  leading zeros and upper-case digits.
- `hid_device_info.dfy` (`HidDevice`): the udev device as a value
  (`UdevDevice`), the `HidDeviceInfo` record, and the identity extraction
  `ExtractDeviceInfo` as a pure function to `Option<HidDeviceInfo>`, with
  worked examples.
- `hid_service_linux.dfy` (`HidService`): the registry as a
  `map<string, HidDeviceInfo>`, its pure transitions, the platform access
  step, and the class `HidServiceLinux` whose methods update the registry in
  place. Its invariant `Valid()` says every entry is filed under its own
  device id.
- `hid_scenarios.dfy` (`HidScenarios`): client methods that drive the class
  through plug-in, unplug, and a ChromeOS broker refusal that arrives after
  the device was removed.

The operating system enters as values:

- the kernel's answers for device nodes are a `NodeIo` record: the nodes
  that open read-only, the result of the descriptor-size ioctl, and the
  result of the descriptor ioctl (an absent entry is a failed call);
- the udev monitor's current devices are a map from syspath to device node;
- the report-descriptor parser is a function parameter from bytes to
  `DescriptorDetails`.

Where the intended design and the code differ, the model follows the code:

- The access-complete step never reads its `success` flag
  (`hid_service_linux.cc:159-198`). A refused access still registers the
  device when the node opens and both descriptor ioctls succeed.
- The service keeps no set of pending additions. A removal that overtakes a
  deferred broker request does not cancel it, and the late completion
  registers the device (`LateCompletionAfterRemoval`,
  `ScenarioChromeOsLateRefusal`).
- Nothing checks the monitor's membership when access completes. Only
  `Connect` consults the monitor.

Assumptions about code that is not part of this model:

- `HidService::AddDevice`, `RemoveDevice` and `GetDeviceInfo` live in the
  base class `device/hid/hid_service.cc`, which is not part of this model.
  `AddDevice` is taken to file a record under its `device_id` only when that
  id is not registered yet (`WithDevice`). `RemoveDevice` erases the entry
  (`WithoutDevice`). `GetDeviceInfo` looks the id up.
- `device/hid/hid_device_info.h` is not part of this model.
  `vendor_id` and `product_id` are taken to be 16-bit fields. The 32-bit
  parse result is therefore narrowed modulo 2^16 on assignment
  (`ExtractExampleDefaultAndNarrowing`: `"12345"` gives `0x2345`).
- `base::SplitString` and `base::HexStringToUInt` are not part of this
  model. They are given as a plain split and a plain hexadecimal parse (see
  "Left out").

## Model

| member | source | states |
|---|---|---|
| `HidStrings.Split` | device/hid/hid_service_linux.cc:102-106 | the `HID_ID` fields: one more than the number of `:` characters, none containing `:` |
| `HidStrings.JoinSplit` | device/hid/hid_service_linux.cc:102-106 | joining the split fields with `:` gives back the original property value |
| `HidStrings.SplitJoin` | device/hid/hid_service_linux.cc:102-106 | `:`-free fields joined with `:` split back into exactly those fields |
| `HidStrings.ParseHex` | device/hid/hid_service_linux.cc:108-114 | the hexadecimal read of one `HID_ID` field: a success means a non-empty field of hexadecimal digits and yields its value, which fits in 32 bits |
| `HidStrings.ParseHexRoundTrip` | device/hid/hid_service_linux.cc:108-114 | every 32-bit value written in hexadecimal parses back to itself |
| `HidStrings.ShortHexParses` | device/hid/hid_service_linux.cc:108-114 | any field of one to eight hexadecimal digits parses successfully, to its value |
| `HidStrings.HexValueBound` | device/hid/hid_service_linux.cc:108-114 | k hexadecimal digits denote a value below 16^k, so a parse can overflow only past eight digits |
| `HidDevice.ExtractDeviceInfo` | device/hid/hid_service_linux.cc:76-122 | a record exists iff device, syspath, subsystem exactly `hidraw`, parent, `HID_ID` all present and `HID_ID` has exactly two `:`; its device id is the syspath; its serial and name are `HID_UNIQ` / `HID_NAME` or empty when absent; no descriptor field is set yet |
| `HidDevice.ExtractIdFields` | device/hid/hid_service_linux.cc:102-114 | for `HID_ID` = bus:vendor:product the device is accepted and vendor/product ids come from the second and third fields, each independently of the other |
| `HidDevice.IdField` | device/hid/hid_service_linux.cc:108-114 | the id stored for a field: for a non-empty hexadecimal field whose value fits in 32 bits, that value mod 2^16 (so a long zero-padded field is narrowed too); for an empty field, a non-hexadecimal one or one that overflows 32 bits, the default 0 |
| `HidDevice.IdFieldOfShortHex` | device/hid/hid_service_linux.cc:108-114 | a hexadecimal field whose value fits in 16 bits, with any number of leading zeros, is stored as its exact value |
| `HidDevice.IdFieldExamples` | device/hid/hid_service_linux.cc:108-114 | `046d` gives 0x046d, `c52b` gives 0xc52b, a non-hexadecimal field leaves the default 0, `12345` is narrowed to 0x2345 |
| `HidDevice.ExtractExampleIds` | device/hid/hid_service_linux.cc:102-122 | `"3:046d:c52b"` yields vendor 0x046d and product 0xc52b, with serial and name empty |
| `HidDevice.ExtractExampleRecord` | device/hid/hid_service_linux.cc:87-122 | the complete record extracted for the example node, every other field at its default |
| `HidDevice.ExtractExampleTwoFields` | device/hid/hid_service_linux.cc:102-106 | `"3:046d"` has two fields and produces no record |
| `HidDevice.ExtractExampleDefaultAndNarrowing` | device/hid/hid_service_linux.cc:108-114 | a vendor field that fails to parse leaves the vendor id 0 without rejecting the device |
| `HidService.AccessStepFor` | device/hid/hid_service_linux.cc:125-150 | the access step completes at once unless this is a ChromeOS build running on ChromeOS; there it is abandoned exactly when no broker client exists, and otherwise deferred to the broker |
| `HidService.WithDevice` | device/hid/hid_service_linux.cc:198 | registering adds exactly the record's device id to the keys, changes no existing entry, files the record when the id was new, and keeps every entry under its own id |
| `HidService.WithoutDevice` | device/hid/hid_service_linux.cc:153-157 | removal takes out exactly the given key, leaves every other entry unchanged, and keeps every entry under its own id |
| `HidService.ConnectTo` | device/hid/hid_service_linux.cc:53-69 | no connection iff the id is unregistered or the monitor cannot resolve the registered device id; otherwise the registered record and the node the monitor reports now |
| `HidService.AccessComplete` | device/hid/hid_service_linux.cc:163-198 | the registry after open, the two descriptor ioctls, parsing and `AddDevice`: a failed open or either failed ioctl leaves it unchanged; otherwise the device id is added, no other entry changes, and a new entry keeps the extracted identity and carries the parser's results |
| `HidService.LateCompletionAfterRemoval` | device/hid/hid_service_linux.cc:153-198 | a completion arriving after the device's removal still registers it when the node is readable |
| `HidService.RemoveUndoesAdd` | device/hid/hid_service_linux.cc:153-198 | removing a device after its access step gives the same registry as removing it without that step |
| `HidService.ConnectAfterRemoval` | device/hid/hid_service_linux.cc:53-69 | after removal of an id, `Connect` on that id yields nothing |
| `HidService.AddedDeviceConnects` | device/hid/hid_service_linux.cc:53-69 | an accepted device with a readable node, not yet registered, can be connected to while the monitor knows it, carrying its syspath and ids |
| `HidService.HidServiceLinux.constructor` | device/hid/hid_service_linux.cc:43-51 | a new service has an empty registry |
| `HidService.HidServiceLinux.AddDevice` | device/hid/hid_service_linux.cc:198 | the registry becomes `WithDevice` of the old one; the invariant is kept |
| `HidService.HidServiceLinux.RemoveDevice` | device/hid/hid_service_linux.cc:156 | the registry becomes `WithoutDevice` of the old one; the invariant is kept |
| `HidService.HidServiceLinux.OnDeviceAdded` | device/hid/hid_service_linux.cc:76-151 | a rejected device changes nothing; an accepted one completes at once, is handed back as a pending broker request with the registry unchanged, or is abandoned, as the platform dictates |
| `HidService.HidServiceLinux.OnRequestAccessComplete` | device/hid/hid_service_linux.cc:159-199 | the registry becomes `AccessComplete` of the old one, which does not depend on the `success` flag |
| `HidService.HidServiceLinux.OnDeviceRemoved` | device/hid/hid_service_linux.cc:153-157 | a device without syspath changes nothing; otherwise exactly the entry for its syspath is removed |
| `HidService.HidServiceLinux.Connect` | device/hid/hid_service_linux.cc:53-69 | nothing iff the id is unregistered or no longer known to the monitor; otherwise a connection carrying the registered record and the current node |

## Left out

- udev and the device monitor are left out: the `DeviceMonitorLinux` singleton, observer registration, the initial enumeration and the destructor (`hid_service_linux.cc:43-51`, `71-74`). The monitor's state is a map parameter, and enumeration is a sequence of `OnDeviceAdded` calls.
- The ChromeOS permission broker is left out: the DBus client, `PostTask` to the UI loop and weak-pointer lifetime (`hid_service_linux.cc:125-145`). A deferred request is returned as a `PendingAccess` value; its completion is a later `OnRequestAccessComplete` call, or never happens.
- `DCHECK(client)` is left out: the model follows release builds, where a missing broker client drops the device; debug builds stop the process.
- File opening, the `HIDIOCGRDESCSIZE` / `HIDIOCGRDESC` ioctls and file closing are operating-system I/O. They are the `NodeIo` record; the descriptor bytes are taken as the kernel returns them.
- The report-descriptor parser `HidReportDescriptor::GetDetails` is not part of this model. It is an uninterpreted function parameter, and nothing is said about its item-stream semantics.
- Logging is left out, and so is `bus_type`, which this file never sets.
- `udev_device_get_devnode` returning NULL is left out: the device node is always a string here.
- HidStrings.Split: `base::SplitString` also trims whitespace around each field and turns an empty string into no fields; the model does neither. Neither changes whether a `HID_ID` has three fields, but trimming changes field values: for `HID_ID` `"3: 046d:c52b"` the source stores vendor 0x046d, while the model stores 0, because `" 046d"` does not parse.
- HidStrings.ParseHex: `base::HexStringToUInt` also accepts a leading `+` and a `0x`/`0X` prefix, and rejects leading whitespace; the model accepts only hexadecimal digits.
