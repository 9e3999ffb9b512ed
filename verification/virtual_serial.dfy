/** The Kotlin half of the virtual serial port (`VirtualSerialDriver.kt`):
    it classifies attached USB devices, selects the printer, and for every
    chunk arriving from the pseudo-terminal decides whether the USB port
    must be (re)opened, with which line speed, and what to write to it.
    The USB manager's answers (attached devices, permissions, whether
    opening and writing succeed) are parameters; what the driver does to
    the outside world is returned as a list of effects. */
module VirtualSerial {
  import opened Wrappers
  import opened Text
  import opened Lists
  import Platform
  import PrinterProber
  import SerialData
  import VspPty

  /** `SerialDriverClass`. */
  datatype SerialDriverClass = Prolific | Cdc | Ftdi | Ch341 | Cp21xx | Unknown {
    /** The enum constant's `name`. */
    function Name(): string {
      match this
      case Prolific => "PROLIFIC"
      case Cdc => "CDC"
      case Ftdi => "FTDI"
      case Ch341 => "CH341"
      case Cp21xx => "CP21XX"
      case Unknown => "UNKNOWN"
    }
  }

  /** `SerialDriverClass.valueOf`: the constant with exactly that name, or
      an `IllegalArgumentException`. */
  function ValueOf(name: string): (r: Result<SerialDriverClass, string>)
    ensures r.Ok? ==> r.value.Name() == name
    ensures r.Err? ==> forall c: SerialDriverClass :: c.Name() != name
  {
    if name == "PROLIFIC" then Ok(Prolific)
    else if name == "CDC" then Ok(Cdc)
    else if name == "FTDI" then Ok(Ftdi)
    else if name == "CH341" then Ok(Ch341)
    else if name == "CP21XX" then Ok(Cp21xx)
    else if name == "UNKNOWN" then Ok(Unknown)
    else Err("IllegalArgumentException")
  }

  /** Saving a class by name and reading it back gives the same class. */
  lemma ValueOfName(c: SerialDriverClass)
    ensures ValueOf(c.Name()) == Ok(c)
  {
  }

  /** The class for a probed driver (the `when` in `updateDevicesList`). */
  function ClassOf(probed: Option<PrinterProber.UsbDriver>): (c: SerialDriverClass)
    ensures c == Unknown <==> probed.None?
  {
    match probed
    case None => Unknown
    case Some(d) =>
      match d
      case Cp21xxDriver => Cp21xx
      case FtdiDriver => Ftdi
      case ProlificDriver => Prolific
      case Ch34xDriver => Ch341
      case CdcAcmDriver => Cdc
  }

  /** An attached device as the USB manager reports it, with whether the
      app holds permission for it. */
  datatype UsbDevice = UsbDevice(deviceName: string, productId: int, vendorId: int, permitted: bool)

  datatype ConnectedUsbDevice = ConnectedUsbDevice(
    deviceName: string,
    productId: int,
    vendorId: int,
    driverClass: SerialDriverClass,
    isSelected: bool,
    autoDetect: bool,
    device: UsbDevice)

  /** `createDriver`: a driver of the device's class, none for UNKNOWN. */
  function CreateDriver(d: ConnectedUsbDevice): (r: Option<PrinterProber.UsbDriver>)
    ensures r.None? <==> d.driverClass == Unknown
    ensures ClassOf(r) == d.driverClass
  {
    match d.driverClass
    case Cp21xx => Some(PrinterProber.Cp21xxDriver)
    case Ftdi => Some(PrinterProber.FtdiDriver)
    case Prolific => Some(PrinterProber.ProlificDriver)
    case Ch341 => Some(PrinterProber.Ch34xDriver)
    case Cdc => Some(PrinterProber.CdcAcmDriver)
    case Unknown => None
  }

  /** `id()`: decimal vendor id followed by decimal product id. */
  function Id(d: ConnectedUsbDevice): (r: string)
    ensures IntToString(d.vendorId) <= r
    ensures |r| == |IntToString(d.vendorId)| + |IntToString(d.productId)|
    ensures r[|IntToString(d.vendorId)|..] == IntToString(d.productId)
  {
    IntToString(d.vendorId) + IntToString(d.productId)
  }

  /** Two different devices can share an id: vendor 1 with product 23 and
      vendor 12 with product 3 both give "123". */
  lemma IdNotInjective(u: UsbDevice)
    ensures var a := ConnectedUsbDevice("a", 23, 1, Unknown, false, false, u);
            var b := ConnectedUsbDevice("b", 3, 12, Unknown, false, false, u);
            (a.vendorId, a.productId) != (b.vendorId, b.productId) && Id(a) == Id(b)
  {
    assert NatToString(1) == "1";
    assert NatToString(3) == "3";
    assert NatToString(2) == "2";
    assert NatToString(23) == NatToString(2) + [DigitChar(3)] == "23";
    assert NatToString(12) == NatToString(1) + [DigitChar(2)] == "12";
  }

  /* ---------- driver state ---------- */

  /** The saved printer: custom driver name and product/vendor ids. */
  datatype Prefs = Prefs(customDriver: Option<string>, pid: int, vid: int)

  /** The driver built for the selected device. */
  datatype Selection = Selection(driver: PrinterProber.UsbDriver, device: UsbDevice)

  /** The prober maps a device's ids to the driver it would use. */
  type Prober = PrinterProber.UsbDeviceId -> Option<PrinterProber.UsbDriver>

  datatype Driver = Driver(
    prober: Prober,
    devices: seq<ConnectedUsbDevice>,
    selected: Option<Selection>,
    prefs: Prefs,
    requested: Option<ConnectedUsbDevice>,
    portOpen: bool,
    currentBaudrate: Platform.int32)

  /** What the driver does to the outside world. */
  datatype Effect =
    | RequestPermission(deviceName: string)
    | ToastRequestingPermission
    | ToastNoDriver
    | UsbAttached(deviceName: string)
    | ClosePort
    | OpenPort(deviceName: string)
    | SetParameters(baudRate: int, dataBits: int, stopBits: int, parity: int)
    | SetDtr
    | SetRts
    | StartReader
    | Write(bytes: seq<byte>)

  /** The effects device selection can have. */
  predicate SelectionEffect(e: Effect) {
    e.RequestPermission? || e.ToastRequestingPermission? || e.ToastNoDriver? || e.UsbAttached?
  }

  const StopBits1 := 1
  const ParityNone := 0

  /** A freshly constructed driver: nothing selected, no port, and
      `currentBaudrate` -1. */
  function NewDriver(prefs: Prefs): (d: Driver)
    ensures d.prober == PrinterProber.Probe
    ensures d.selected.None? && !d.portOpen && d.currentBaudrate == -1 && d.prefs == prefs
  {
    Driver(PrinterProber.Probe, [], None, prefs, None, false, -1)
  }

  /** Marks exactly the devices with the given vendor and product id as
      selected. */
  function MarkSelected(devices: seq<ConnectedUsbDevice>, vendorId: int, productId: int)
    : (r: seq<ConnectedUsbDevice>)
    ensures |r| == |devices|
    ensures forall i :: 0 <= i < |r| ==>
      && (r[i].isSelected <==> devices[i].vendorId == vendorId && devices[i].productId == productId)
      && r[i].(isSelected := devices[i].isSelected) == devices[i]
  {
    seq(|devices|, i requires 0 <= i < |devices| =>
      devices[i].(isSelected := devices[i].vendorId == vendorId && devices[i].productId == productId))
  }

  /** `tryToSelectDevice`. */
  function TryToSelect(st: Driver, device: ConnectedUsbDevice): (r: (Driver, seq<Effect>))
    ensures device.driverClass == Unknown ==> r.0 == st && r.1 == [ToastNoDriver]
    ensures device.driverClass != Unknown && !device.device.permitted ==>
      r.0 == st.(requested := Some(device)) && r.1 == [RequestPermission(device.device.deviceName), ToastRequestingPermission]
    ensures device.driverClass != Unknown && device.device.permitted ==>
      && r.0.selected == Some(Selection(CreateDriver(device).value, device.device))
      && r.0.prefs == Prefs(Some(device.driverClass.Name()), device.productId, device.vendorId)
      && |r.0.devices| == |st.devices|
      && (forall i :: 0 <= i < |st.devices| ==>
            (r.0.devices[i].isSelected <==>
               st.devices[i].vendorId == device.vendorId && st.devices[i].productId == device.productId))
      && r.0.portOpen == st.portOpen && r.0.currentBaudrate == st.currentBaudrate
      && r.1 == [UsbAttached(device.device.deviceName)]
    ensures r.0.prober == st.prober && r.0.portOpen == st.portOpen && r.0.currentBaudrate == st.currentBaudrate
    ensures |r.0.devices| == |st.devices|
    ensures forall i :: 0 <= i < |st.devices| ==> r.0.devices[i].(isSelected := false) == st.devices[i].(isSelected := false)
    ensures forall e :: e in r.1 ==> SelectionEffect(e)
  {
    if device.driverClass == Unknown then (st, [ToastNoDriver])
    else if !device.device.permitted then
      (st.(requested := Some(device)), [RequestPermission(device.device.deviceName), ToastRequestingPermission])
    else
      (st.(selected := Some(Selection(CreateDriver(device).value, device.device)),
           prefs := Prefs(Some(device.driverClass.Name()), device.productId, device.vendorId),
           devices := MarkSelected(st.devices, device.vendorId, device.productId)),
       [UsbAttached(device.device.deviceName)])
  }

  /** Kotlin `isNullOrBlank` on a present string: only whitespace. */
  predicate IsBlank(s: string) {
    forall i :: 0 <= i < |s| ==> s[i] in {' ', '\t', '\n', '\r', '\U{000B}', '\U{000C}'}
  }

  /** The device matches the saved printer. */
  predicate MatchesSaved(prefs: Prefs, productId: int, vendorId: int) {
    productId == prefs.pid && vendorId == prefs.vid
  }

  /** A saved printer with a non-blank custom driver name overrides the
      probed class. */
  predicate HasOverride(prefs: Prefs) {
    prefs.customDriver.Some? && !IsBlank(prefs.customDriver.value)
  }

  /** The per-device step of `updateDevicesList`: probe, then apply the
      saved override; `valueOf` on an unknown saved name throws. */
  function Classify(prober: Prober, u: UsbDevice, prefs: Prefs): (r: Result<ConnectedUsbDevice, string>)
    ensures r.Ok? ==> r.value.device == u && r.value.deviceName == u.deviceName
    ensures r.Ok? ==> r.value.productId == u.productId && r.value.vendorId == u.vendorId && !r.value.isSelected
    ensures r.Ok? ==> (r.value.autoDetect <==>
                       prober(PrinterProber.UsbDeviceId(u.vendorId, u.productId)).Some?)
    ensures MatchesSaved(prefs, u.productId, u.vendorId) && HasOverride(prefs) ==>
      (r.Ok? <==> ValueOf(prefs.customDriver.value).Ok?) &&
      (r.Ok? ==> r.value.driverClass.Name() == prefs.customDriver.value)
    ensures !(MatchesSaved(prefs, u.productId, u.vendorId) && HasOverride(prefs)) ==>
      r.Ok? && r.value.driverClass == ClassOf(prober(PrinterProber.UsbDeviceId(u.vendorId, u.productId)))
  {
    var probed := ClassOf(prober(PrinterProber.UsbDeviceId(u.vendorId, u.productId)));
    var autoDetected := probed != Unknown;
    if MatchesSaved(prefs, u.productId, u.vendorId) && HasOverride(prefs) then
      match ValueOf(prefs.customDriver.value)
      case Err(e) => Err(e)
      case Ok(c) => Ok(ConnectedUsbDevice(u.deviceName, u.productId, u.vendorId, c, false, autoDetected, u))
    else
      Ok(ConnectedUsbDevice(u.deviceName, u.productId, u.vendorId, probed, false, autoDetected, u))
  }

  function ClassifyAll(prober: Prober, usb: seq<UsbDevice>, prefs: Prefs): (r: Result<seq<ConnectedUsbDevice>, string>)
    ensures r.Ok? ==> |r.value| == |usb|
    ensures r.Ok? ==> forall i :: 0 <= i < |usb| ==> Classify(prober, usb[i], prefs) == Ok(r.value[i])
    ensures r.Err? <==> exists i :: 0 <= i < |usb| && Classify(prober, usb[i], prefs).Err?
  {
    if |usb| == 0 then Ok([])
    else
      match Classify(prober, usb[0], prefs)
      case Err(e) => Err(e)
      case Ok(d) =>
        match ClassifyAll(prober, usb[1..], prefs)
        case Err(e) =>
          var i :| 0 <= i < |usb[1..]| && Classify(prober, usb[1..][i], prefs).Err?;
          assert Classify(prober, usb[i + 1], prefs).Err?;
          Err(e)
        case Ok(rest) =>
          assert forall i :: 1 <= i < |usb| ==> usb[i] == usb[1..][i - 1];
          Ok([d] + rest)
  }

  /** A listed device the saved printer's ids select: it matches them, has
      a known class and may be opened. */
  predicate SavedEligible(prefs: Prefs, d: ConnectedUsbDevice) {
    MatchesSaved(prefs, d.productId, d.vendorId) && d.driverClass != Unknown && d.device.permitted
  }

  /** The saved printer is tried first: `tryToSelectDevice` on every device
      of the freshly built `list` that matches it and has a known class, in
      list order. Selection only flips the `isSelected` flags, which this
      walk does not read, so it walks the list as built. */
  function SelectSaved(st: Driver, list: seq<ConnectedUsbDevice>, from: nat, effects: seq<Effect>)
    : (r: (Driver, seq<Effect>))
    requires from <= |list| && |st.devices| == |list|
    ensures |r.0.devices| == |st.devices| && r.0.portOpen == st.portOpen
    ensures r.0.currentBaudrate == st.currentBaudrate
    ensures forall i :: 0 <= i < |st.devices| ==>
      r.0.devices[i].(isSelected := false) == st.devices[i].(isSelected := false)
    ensures r.0.prefs.pid == st.prefs.pid && r.0.prefs.vid == st.prefs.vid && r.0.prober == st.prober
    ensures effects <= r.1 && forall e :: e in r.1 ==> e in effects || SelectionEffect(e)
    ensures r.0.selected != st.selected ==>
      (exists i :: from <= i < |list| && SavedEligible(st.prefs, list[i]) &&
        r.0.selected == Some(Selection(CreateDriver(list[i]).value, list[i].device)))
    ensures (exists i :: from <= i < |list| && SavedEligible(st.prefs, list[i])) ==>
      (exists j :: from <= j < |list| && SavedEligible(st.prefs, list[j]) &&
        r.0.selected == Some(Selection(CreateDriver(list[j]).value, list[j].device)))
    decreases |list| - from
  {
    if from == |list| then (st, effects)
    else
      var d := list[from];
      if MatchesSaved(st.prefs, d.productId, d.vendorId) && d.driverClass != Unknown then
        var (st1, e1) := TryToSelect(st, d);
        var r := SelectSaved(st1, list, from + 1, effects + e1);
        assert st1.prefs.pid == st.prefs.pid && st1.prefs.vid == st.prefs.vid;
        assert forall x :: SavedEligible(st1.prefs, x) == SavedEligible(st.prefs, x);
        r
      else SelectSaved(st, list, from + 1, effects)
  }

  predicate HasKnownClass(d: ConnectedUsbDevice) {
    d.driverClass != Unknown
  }

  /** `updateDevicesList`: list and classify every attached device, then
      select the saved printer, and only if nothing is selected after that,
      the first device of a known class. */
  function UpdateDevicesList(st: Driver, usb: seq<UsbDevice>): (r: Result<(Driver, seq<Effect>), string>)
    ensures r.Err? <==> ClassifyAll(st.prober, usb, st.prefs).Err?
    ensures r.Ok? ==> |r.value.0.devices| == |usb|
    ensures r.Ok? ==> forall i :: 0 <= i < |usb| ==>
      r.value.0.devices[i].(isSelected := false) == ClassifyAll(st.prober, usb, st.prefs).value[i]
    ensures r.Ok? ==> r.value.0.portOpen == st.portOpen && r.value.0.currentBaudrate == st.currentBaudrate
    ensures r.Ok? ==> r.value.0.prober == st.prober && forall e :: e in r.value.1 ==> SelectionEffect(e)
  {
    match ClassifyAll(st.prober, usb, st.prefs)
    case Err(e) => Err(e)
    case Ok(listed) =>
      var st1 := st.(devices := listed);
      var (st2, e2) := SelectSaved(st1, listed, 0, []);
      if st2.selected.None? then
        match FirstMatch(st2.devices, HasKnownClass)
        case None => Ok((st2, e2))
        case Some(d) =>
          var (st3, e3) := TryToSelect(st2, d);
          Ok((st3, e2 + e3))
      else Ok((st2, e2))
  }

  /** A device newly selected by the update was permitted, and when an
      attached device is the saved printer and eligible, one such device is
      what ends up selected. */
  lemma {:induction false} UpdateSelectsSaved(st: Driver, usb: seq<UsbDevice>)
    requires UpdateDevicesList(st, usb).Ok?
    ensures var s := UpdateDevicesList(st, usb).value.0.selected;
      s.Some? && s != st.selected ==> s.value.device.permitted
    ensures var s := UpdateDevicesList(st, usb).value.0.selected;
      var listed := ClassifyAll(st.prober, usb, st.prefs).value;
      (exists i :: 0 <= i < |usb| && SavedEligible(st.prefs, listed[i])) ==>
        (exists j :: 0 <= j < |usb| && SavedEligible(st.prefs, listed[j]) &&
          s == Some(Selection(CreateDriver(listed[j]).value, usb[j])))
  {
    var listed := ClassifyAll(st.prober, usb, st.prefs).value;
    var st1 := st.(devices := listed);
    var saved := SelectSaved(st1, listed, 0, []);
    if saved.0.selected.None? {
      var first := FirstMatch(saved.0.devices, HasKnownClass);
      if first.Some? {
        var tried := TryToSelect(saved.0, first.value);
        assert UpdateDevicesList(st, usb).value.0 == tried.0;
      }
    }
  }

  /* ---------- data from the pseudo-terminal ---------- */

  /** The reconnection rule of `onDataReceived`. */
  predicate NewConnectionRequired(st: Driver, data: SerialData.SerialData) {
    (data.isStartPacket || st.currentBaudrate != data.baudrate) && st.selected.Some?
  }

  /** How configuring an opened port goes: `setParameters` may throw, and
      so may raising the modem lines. */
  datatype Configure = Configured | ParametersRejected | ModemLinesRejected

  /** What the USB stack does this time: whether opening the port
      succeeds, how configuring it goes and whether writing to it
      succeeds. */
  datatype Usb = Usb(devices: seq<UsbDevice>, openSucceeds: bool, configure: Configure, writeSucceeds: bool)

  /** Reopening gets as far as starting the reader: the port opens and
      every configuring call it makes returns. The modem lines are only
      raised for a new connection. */
  predicate ReopenCompletes(usb: Usb, newConnection: bool) {
    usb.openSucceeds && (usb.configure == Configured || (usb.configure == ModemLinesRejected && !newConnection))
  }

  /** The write at the end of `onDataReceived`: only a chunk longer than its
      status byte is written, without that byte; a failed write closes the
      port. */
  function WriteStage(st: Driver, effects: seq<Effect>, data: SerialData.SerialData, usb: Usb)
    : (r: (Driver, seq<Effect>))
    requires |data.data| >= 1
    ensures |data.data| <= 1 ==> r == (st, effects)
    ensures effects <= r.1
    ensures |data.data| > 1 ==> |r.1| > |effects| && r.1[|effects|] == Write(data.data[1..])
    ensures forall e :: e in r.1 ==> e in effects || e == Write(data.data[1..]) || e == ClosePort
    ensures r.0.currentBaudrate == st.currentBaudrate
    ensures usb.writeSucceeds ==> r.0 == st
    ensures !usb.writeSucceeds && |data.data| > 1 ==> !r.0.portOpen
  {
    if |data.data| > 1 then
      if usb.writeSucceeds then (st, effects + [Write(data.data[1..])])
      else (st.(portOpen := false), effects + [Write(data.data[1..]), ClosePort])
    else (st, effects)
  }

  /** The effects of reopening the port for a chunk. */
  predicate ReopenEffect(e: Effect, rate: int, newConnection: bool) {
    || e.ClosePort? || e.OpenPort? || e == StartReader
    || e == SetParameters(rate, 8, StopBits1, ParityNone)
    || (newConnection && (e == SetDtr || e == SetRts))
  }

  /** Devices are listed again only while nothing is selected; an exception
      from the listing is `None`. */
  function Refresh(st: Driver, usb: Usb): (r: Option<(Driver, seq<Effect>)>)
    ensures st.selected.Some? ==> r == Some((st, []))
    ensures r.Some? ==> r.value.0.currentBaudrate == st.currentBaudrate && r.value.0.portOpen == st.portOpen
    ensures r.Some? ==> forall e :: e in r.value.1 ==> SelectionEffect(e)
  {
    if st.selected.None? then
      match UpdateDevicesList(st, usb.devices)
      case Err(_) => None
      case Ok(p) => Some(p)
    else Some((st, []))
  }

  /** Closing an open port, opening the selected device and configuring it:
      line speed from the chunk, 8 data bits, one stop bit, no parity, and
      the modem lines raised only for a new connection; then the reader is
      started. An exception from configuring leaves the port open and
      stops before the reader. */
  function Reopen(st: Driver, effects: seq<Effect>, data: SerialData.SerialData, rate: int, usb: Usb, newConnection: bool)
    : (r: (Driver, seq<Effect>))
    requires st.selected.Some?
    ensures effects <= r.1 && OpenPort(st.selected.value.device.deviceName) in r.1
    ensures forall e :: e in r.1 ==> e in effects || ReopenEffect(e, rate, newConnection)
    ensures r.0.selected == st.selected
    ensures r.0.portOpen <==> usb.openSucceeds
    ensures ReopenCompletes(usb, newConnection) ==> r.0.currentBaudrate == data.baudrate && StartReader in r.1
    ensures ReopenCompletes(usb, newConnection) && newConnection ==> SetDtr in r.1 && SetRts in r.1
    ensures !ReopenCompletes(usb, newConnection) ==> forall e :: e in r.1 && e == StartReader ==> e in effects
    ensures (!usb.openSucceeds || usb.configure == ParametersRejected) ==>
      && r.0.currentBaudrate == st.currentBaudrate
      && forall e :: e in r.1 ==> e in effects || e.ClosePort? || e.OpenPort?
    ensures usb.openSucceeds && usb.configure == ModemLinesRejected ==>
      r.0.currentBaudrate == data.baudrate && SetParameters(rate, 8, StopBits1, ParityNone) in r.1
  {
    var begun := effects + (if st.portOpen then [ClosePort] else []) + [OpenPort(st.selected.value.device.deviceName)];
    if !usb.openSucceeds then
      (st.(portOpen := false), begun)
    else if usb.configure == ParametersRejected then
      (st.(portOpen := true), begun)
    else
      var configured := begun + [SetParameters(rate, 8, StopBits1, ParityNone)];
      var st2 := st.(portOpen := true, currentBaudrate := data.baudrate);
      if newConnection && usb.configure == ModemLinesRejected then (st2, configured)
      else (st2, configured + (if newConnection then [SetDtr, SetRts] else []) + [StartReader])
  }

  /** Reopening the selected device and then writing the chunk; an
      exception from opening or configuring skips the write. */
  function ReopenAndWrite(st: Driver, effects: seq<Effect>, data: SerialData.SerialData, rate: int,
                          usb: Usb, newConnection: bool)
    : (r: (Driver, seq<Effect>))
    requires st.selected.Some? && |data.data| >= 1
    ensures newConnection && ReopenCompletes(usb, newConnection) ==> SetDtr in r.1 && SetRts in r.1
    ensures ReopenCompletes(usb, newConnection) && usb.writeSucceeds ==>
      r.0.portOpen && r.0.currentBaudrate == data.baudrate && r.0.selected == st.selected
    ensures !ReopenCompletes(usb, newConnection) ==>
      && (r.0.portOpen <==> usb.openSucceeds)
      && forall e :: e in r.1 && (e.Write? || e == StartReader) ==> e in effects
  {
    var (st2, e2) := Reopen(st, effects, data, rate, usb, newConnection);
    if !ReopenCompletes(usb, newConnection) then (st2, e2)
    else WriteStage(st2, e2, data, usb)
  }

  /** What reopening and writing can do: selection effects from before,
      the reopening itself with the chunk's line settings, and the write of
      the chunk without its status byte. */
  lemma ReopenAndWriteEffects(st: Driver, effects: seq<Effect>, data: SerialData.SerialData, rate: int,
                              usb: Usb, newConnection: bool)
    requires st.selected.Some? && |data.data| >= 1
    requires forall e :: e in effects ==> SelectionEffect(e)
    ensures var r := ReopenAndWrite(st, effects, data, rate, usb, newConnection);
      && (forall e :: e in r.1 ==> SelectionEffect(e) || ReopenEffect(e, rate, newConnection) || e == Write(data.data[1..]))
      && (SetDtr in r.1 ==> newConnection)
      && (forall e :: e in r.1 && e.SetParameters? ==> e == SetParameters(rate, 8, StopBits1, ParityNone))
      && (forall e :: e in r.1 && e.Write? ==> |data.data| > 1 && e.bytes == data.data[1..])
      && ((exists e :: e in r.1 && e.SetParameters?) ==> r.0.currentBaudrate == data.baudrate)
      && ((forall e :: e in r.1 ==> !e.OpenPort?) ==> r.0.currentBaudrate == st.currentBaudrate)
  {
    var r := ReopenAndWrite(st, effects, data, rate, usb, newConnection);
    var (st2, e2) := Reopen(st, effects, data, rate, usb, newConnection);
    forall e | e in r.1
      ensures SelectionEffect(e) || ReopenEffect(e, rate, newConnection) || e == Write(data.data[1..])
    {
      if e in e2 && e !in effects {
        assert ReopenEffect(e, rate, newConnection);
      }
    }
  }

  /** The reconnection branch of `onDataReceived`, taken when a new
      connection is required or the port is not open; `rate` is the line
      speed the native side decodes from the chunk's baud rate. */
  function Reconnect(st: Driver, data: SerialData.SerialData, rate: int, usb: Usb, newConnection: bool)
    : (r: (Driver, seq<Effect>))
    requires |data.data| >= 1
    ensures forall e :: e in r.1 ==>
      SelectionEffect(e) || ReopenEffect(e, rate, newConnection) || e == Write(data.data[1..])
    ensures SetDtr in r.1 ==> newConnection
    ensures (exists e :: e in r.1 && e.SetParameters?) ==> r.0.currentBaudrate == data.baudrate
    ensures (forall e :: e in r.1 ==> !e.OpenPort?) ==> r.0.currentBaudrate == st.currentBaudrate
    ensures forall e :: e in r.1 && e.SetParameters? ==>
      e == SetParameters(rate, 8, StopBits1, ParityNone)
    ensures forall e :: e in r.1 && e.Write? ==> |data.data| > 1 && e.bytes == data.data[1..]
    ensures newConnection && st.selected.Some? && ReopenCompletes(usb, newConnection) ==> SetDtr in r.1 && SetRts in r.1
    ensures st.selected.Some? && ReopenCompletes(usb, newConnection) && usb.writeSucceeds ==>
      r.0.portOpen && r.0.currentBaudrate == data.baudrate && r.0.selected == st.selected
  {
    match Refresh(st, usb)
    case None => (st, [])
    case Some((st1, e1)) =>
      if st1.selected.None? then (st1, e1)
      else
        ReopenAndWriteEffects(st1, e1, data, rate, usb, newConnection);
        ReopenAndWrite(st1, e1, data, rate, usb, newConnection)
  }

  /** `onDataReceived`. The outer `try` swallows every exception, so an
      exception ends the call with whatever was done before it; a null
      chunk does nothing. */
  function OnDataReceived(st: Driver, chunk: Option<SerialData.SerialData>, usb: Usb): (r: (Driver, seq<Effect>))
    requires chunk.Some? ==> |chunk.value.data| >= 1
    ensures chunk.None? ==> r == (st, [])
    ensures chunk.Some? && st.selected.Some? && ReopenCompletes(usb, true) && usb.writeSucceeds ==>
      r.0.portOpen && r.0.currentBaudrate == chunk.value.baudrate && r.0.selected == st.selected
    ensures chunk.Some? && SetDtr in r.1 ==> NewConnectionRequired(st, chunk.value)
    ensures chunk.Some? && NewConnectionRequired(st, chunk.value) && ReopenCompletes(usb, true) ==> SetDtr in r.1 && SetRts in r.1
    ensures chunk.Some? && (exists e :: e in r.1 && e.SetParameters?) ==> r.0.currentBaudrate == chunk.value.baudrate
    ensures (forall e :: e in r.1 ==> !e.OpenPort?) ==> r.0.currentBaudrate == st.currentBaudrate
    ensures chunk.Some? ==> forall e :: e in r.1 && e.SetParameters? ==>
      e == SetParameters(VspPty.GetBaudrateJni(chunk.value.baudrate), 8, StopBits1, ParityNone)
    ensures chunk.Some? ==> forall e :: e in r.1 && e.Write? ==> |chunk.value.data| > 1 && e.bytes == chunk.value.data[1..]
    ensures chunk.Some? && !NewConnectionRequired(st, chunk.value) && st.portOpen && |chunk.value.data| > 1 ==>
      Write(chunk.value.data[1..]) in r.1
  {
    if chunk.None? then (st, [])
    else
      var data := chunk.value;
      var newConnection := NewConnectionRequired(st, data);
      if newConnection || !st.portOpen then Reconnect(st, data, VspPty.GetBaudrateJni(data.baudrate), usb, newConnection)
      else WriteStage(st, [], data, usb)
  }

  /** When the port opens for a new connection but `setParameters`
      throws, the exception is swallowed with the port left open: the line
      speed is not recorded, no reader is started and nothing is written. */
  lemma RejectedParametersLeavePortOpen(st: Driver, data: SerialData.SerialData, usb: Usb)
    requires |data.data| >= 1 && NewConnectionRequired(st, data)
    requires usb.openSucceeds && usb.configure == ParametersRejected
    ensures var r := OnDataReceived(st, Some(data), usb);
      && r.0.portOpen && r.0.currentBaudrate == st.currentBaudrate
      && forall e :: e in r.1 ==> !e.Write? && e != StartReader
  {
  }

  /** Once a chunk has gone through over a healthy link, a following data
      chunk at the same baud rate is written without reopening the port. */
  lemma SteadyLinkNoReopen(st: Driver, first: SerialData.SerialData, next: SerialData.SerialData, usb: Usb, usb2: Usb)
    requires |first.data| >= 1 && |next.data| >= 1
    requires st.selected.Some? && ReopenCompletes(usb, true) && usb.writeSucceeds
    requires next.baudrate == first.baudrate && !next.isStartPacket
    ensures var st1 := OnDataReceived(st, Some(first), usb).0;
            var r := OnDataReceived(st1, Some(next), usb2);
            (forall e :: e in r.1 ==> !e.OpenPort? && !e.SetParameters?) &&
            (|next.data| > 1 ==> Write(next.data[1..]) in r.1)
  {
    var st1 := OnDataReceived(st, Some(first), usb).0;
    assert !NewConnectionRequired(st1, next) && st1.portOpen;
  }
}
