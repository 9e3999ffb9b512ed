/** `PrinterProber.kt`: the vendor/product id pairs of known printer
    boards and the USB-serial driver each is probed with. The library's
    probe table is a map filled by `addProduct` in table order, later
    entries overwriting earlier ones. */
module PrinterProber {
  import opened Wrappers

  datatype UsbDeviceId = UsbDeviceId(vendorId: int, productId: int)

  /** The USB-serial library's driver classes. */
  datatype UsbDriver = ProlificDriver | CdcAcmDriver | FtdiDriver | Ch34xDriver | Cp21xxDriver

  const ProlificDevices: seq<UsbDeviceId> := [UsbDeviceId(1659, 8963)]

  const CdcDevices: seq<UsbDeviceId> := [
    UsbDeviceId(11417, 1), UsbDeviceId(11417, 2),
    UsbDeviceId(9025, 16), UsbDeviceId(9025, 54), UsbDeviceId(9025, 61), UsbDeviceId(9025, 62),
    UsbDeviceId(9025, 63), UsbDeviceId(9025, 66), UsbDeviceId(9025, 67), UsbDeviceId(9025, 68),
    UsbDeviceId(9025, 69), UsbDeviceId(9025, 73), UsbDeviceId(9025, 32822), UsbDeviceId(9025, 32824),
    UsbDeviceId(9025, 32825),
    UsbDeviceId(1155, 5824),
    UsbDeviceId(1003, 8260),
    UsbDeviceId(7855, 4), UsbDeviceId(7855, 41),
    UsbDeviceId(3368, 516),
    UsbDeviceId(7504, 24617)]

  const FtdiDevices: seq<UsbDeviceId> := [
    UsbDeviceId(1027, 24577), UsbDeviceId(1027, 24592), UsbDeviceId(1027, 24593),
    UsbDeviceId(1027, 24596), UsbDeviceId(1027, 24597)]

  const Ch341Devices: seq<UsbDeviceId> := [UsbDeviceId(6790, 29987)]

  const Cp21xxDevices: seq<UsbDeviceId> := [
    UsbDeviceId(4292, 60000), UsbDeviceId(4292, 60016), UsbDeviceId(4292, 60017), UsbDeviceId(4292, 60032)]

  /** `ProbeTable.addProduct` for every id of a list, in order. */
  function AddProducts(table: map<UsbDeviceId, UsbDriver>, ids: seq<UsbDeviceId>, d: UsbDriver)
    : (r: map<UsbDeviceId, UsbDriver>)
    ensures forall id :: id in ids ==> id in r && r[id] == d
    ensures forall id :: id !in ids ==> (id in r <==> id in table) && (id in table ==> r[id] == table[id])
    decreases |ids|
  {
    if |ids| == 0 then table else AddProducts(table[ids[0] := d], ids[1..], d)
  }

  /** `getCustomPrinterProber`. */
  function CustomProbeTable(): map<UsbDeviceId, UsbDriver> {
    var t1 := AddProducts(map[], ProlificDevices, ProlificDriver);
    var t2 := AddProducts(t1, CdcDevices, CdcAcmDriver);
    var t3 := AddProducts(t2, FtdiDevices, FtdiDriver);
    var t4 := AddProducts(t3, Ch341Devices, Ch34xDriver);
    AddProducts(t4, Cp21xxDevices, Cp21xxDriver)
  }

  /** The prober's answer for a device: the driver the table holds, or none. */
  function Probe(id: UsbDeviceId): (r: Option<UsbDriver>)
    ensures r.Some? <==> id in CustomProbeTable()
  {
    var t := CustomProbeTable();
    if id in t then Some(t[id]) else None
  }

  /** The lists the table is built from, as one reference lookup. */
  function ListedDriver(id: UsbDeviceId): Option<UsbDriver> {
    if id in ProlificDevices then Some(ProlificDriver)
    else if id in CdcDevices then Some(CdcAcmDriver)
    else if id in FtdiDevices then Some(FtdiDriver)
    else if id in Ch341Devices then Some(Ch34xDriver)
    else if id in Cp21xxDevices then Some(Cp21xxDriver)
    else None
  }

  /** The five lists share no pair, so no `addProduct` overwrites another
      list's entry. */
  lemma TablesDisjoint()
    ensures forall id :: id in ProlificDevices ==> id !in CdcDevices && id !in FtdiDevices && id !in Ch341Devices && id !in Cp21xxDevices
    ensures forall id :: id in CdcDevices ==> id !in FtdiDevices && id !in Ch341Devices && id !in Cp21xxDevices
    ensures forall id :: id in FtdiDevices ==> id !in Ch341Devices && id !in Cp21xxDevices
    ensures forall id :: id in Ch341Devices ==> id !in Cp21xxDevices
  {
    ProlificApart();
    CdcApart();
    FtdiApart();
  }

  lemma ProlificApart()
    ensures forall id :: id in ProlificDevices ==> id !in CdcDevices && id !in FtdiDevices && id !in Ch341Devices && id !in Cp21xxDevices
  {
  }

  lemma CdcApart()
    ensures forall id :: id in CdcDevices ==> id !in FtdiDevices && id !in Ch341Devices && id !in Cp21xxDevices
  {
  }

  lemma FtdiApart()
    ensures forall id :: id in FtdiDevices ==> id !in Ch341Devices && id !in Cp21xxDevices
  {
  }

  /** Probing agrees with the lists: every listed pair gets its own list's
      driver and an unlisted pair gets none. */
  lemma ProbeMatchesLists(id: UsbDeviceId)
    ensures Probe(id) == ListedDriver(id)
  {
    var t1 := AddProducts(map[], ProlificDevices, ProlificDriver);
    var t2 := AddProducts(t1, CdcDevices, CdcAcmDriver);
    var t3 := AddProducts(t2, FtdiDevices, FtdiDriver);
    var t4 := AddProducts(t3, Ch341Devices, Ch34xDriver);
    var t5 := AddProducts(t4, Cp21xxDevices, Cp21xxDriver);
    assert t5 == CustomProbeTable();
    TablesDisjoint();
    if id in Cp21xxDevices {
      assert t5[id] == Cp21xxDriver;
    } else if id in Ch341Devices {
      assert t4[id] == Ch34xDriver;
    } else if id in FtdiDevices {
      assert t3[id] == FtdiDriver;
    } else if id in CdcDevices {
      assert t2[id] == CdcAcmDriver;
    } else if id in ProlificDevices {
      assert t1[id] == ProlificDriver;
    } else {
      assert id !in t1;
      assert id !in t5;
    }
  }

  /** In the lists, vendor 9025 (Arduino) appears only among CDC boards,
      1027 only among FTDI ones and 4292 only among CP21xx ones. */
  lemma ListedFamilies(id: UsbDeviceId)
    requires ListedDriver(id).Some?
    ensures id.vendorId == 9025 ==> ListedDriver(id) == Some(CdcAcmDriver)
    ensures id.vendorId == 1027 ==> ListedDriver(id) == Some(FtdiDriver)
    ensures id.vendorId == 4292 ==> ListedDriver(id) == Some(Cp21xxDriver)
  {
    if id in ProlificDevices {
      assert id.vendorId == 1659;
    } else if id in CdcDevices {
      assert id.vendorId != 1027 && id.vendorId != 4292;
    } else if id in FtdiDevices {
      assert id.vendorId == 1027;
    } else if id in Ch341Devices {
      assert id.vendorId == 6790;
    }
  }

  /** The same families, as the prober sees them. */
  lemma VendorFamilies(id: UsbDeviceId)
    requires ListedDriver(id).Some?
    ensures id.vendorId == 9025 ==> Probe(id) == Some(CdcAcmDriver)
    ensures id.vendorId == 1027 ==> Probe(id) == Some(FtdiDriver)
    ensures id.vendorId == 4292 ==> Probe(id) == Some(Cp21xxDriver)
  {
    ProbeMatchesLists(id);
    ListedFamilies(id);
  }
}
