/** `NetworkStatusViewModel.kt`: the list of the device's IP addresses
    shown to the user. Every address of every interface that is neither
    loopback nor link-local is listed, typed by the interface name, and
    the list is sorted by three stable sorts: by address, then by type,
    then by IP version.

    The interface enumeration is a parameter: the interfaces and addresses
    it produced before it finished or threw. */
module Network {
  import opened Wrappers
  import opened Text
  import opened Lists

  datatype IPAddressType = Wifi | Ethernet | VPN | Cellular {
    /** The enum's `ordinal`. */
    function Ordinal(): nat {
      match this
      case Wifi => 0
      case Ethernet => 1
      case VPN => 2
      case Cellular => 3
    }
  }

  datatype IPAddress = IPAddress(addressType: IPAddressType, address: string, port: string, isIpv6: bool)

  datatype InetAddress = InetAddress(hostAddress: string, isLoopback: bool, isLinkLocal: bool)

  datatype NetworkInterface = NetworkInterface(name: string, addresses: seq<InetAddress>)

  /* ---------- one address ---------- */

  /** The `when` on the interface name, first match wins. */
  function Classify(name: string): (r: IPAddressType)
    ensures r == Ethernet <==> !StartsWith(name, "wlan") && StartsWith(name, "eth")
    ensures r == VPN <==> !StartsWith(name, "wlan") && !StartsWith(name, "eth") && StartsWith(name, "tun")
    ensures r == Cellular <==>
      && !StartsWith(name, "wlan") && !StartsWith(name, "eth") && !StartsWith(name, "tun")
      && (StartsWith(name, "ppp") || StartsWith(name, "rmnet") || StartsWith(name, "v4-rmnet"))
  {
    if StartsWith(name, "wlan") then Wifi
    else if StartsWith(name, "eth") then Ethernet
    else if StartsWith(name, "tun") then VPN
    else if StartsWith(name, "ppp") then Cellular
    else if StartsWith(name, "rmnet") || StartsWith(name, "v4-rmnet") then Cellular
    else Wifi
  }

  /** The listed prefixes exclude one another, so every listed family gets
      its own type, whatever the rest of the name. */
  lemma ClassifyFamilies(name: string)
    ensures StartsWith(name, "wlan") ==> Classify(name) == Wifi
    ensures StartsWith(name, "eth") ==> Classify(name) == Ethernet
    ensures StartsWith(name, "tun") ==> Classify(name) == VPN
    ensures StartsWith(name, "ppp") || StartsWith(name, "rmnet") || StartsWith(name, "v4-rmnet") ==> Classify(name) == Cellular
  {
  }

  /** `ipAddress.contains(":")`. */
  predicate IsIpv6Text(address: string) {
    ':' in address
  }

  predicate Listed(a: InetAddress) {
    !a.isLoopback && !a.isLinkLocal
  }

  /** The entry the loop adds for address `a` of interface `intf`. */
  function Entry(intf: NetworkInterface, a: InetAddress): IPAddress {
    IPAddress(Classify(intf.name), a.hostAddress, "", IsIpv6Text(a.hostAddress))
  }

  /** The entries one interface contributes, in enumeration order. */
  function InterfaceEntries(intf: NetworkInterface, i: nat): (r: seq<IPAddress>)
    requires i <= |intf.addresses|
    ensures |r| <= |intf.addresses| - i
    ensures forall x :: x in r <==>
      exists j ::
        && i <= j < |intf.addresses| && Listed(intf.addresses[j])
        && x == Entry(intf, intf.addresses[j])
    decreases |intf.addresses| - i
  {
    if i == |intf.addresses| then []
    else
      var a := intf.addresses[i];
      var rest := InterfaceEntries(intf, i + 1);
      if Listed(a) then [Entry(intf, a)] + rest
      else rest
  }

  /** What the enumeration loop collects. */
  function Collect(interfaces: seq<NetworkInterface>): (r: seq<IPAddress>)
    ensures forall x :: x in r ==> IsIpv6Text(x.address) == x.isIpv6 && x.port == ""
    ensures forall x :: x in r ==>
      exists k, j ::
        && 0 <= k < |interfaces| && x.addressType == Classify(interfaces[k].name)
        && 0 <= j < |interfaces[k].addresses| && Listed(interfaces[k].addresses[j])
        && interfaces[k].addresses[j].hostAddress == x.address
    decreases |interfaces|
  {
    if |interfaces| == 0 then []
    else
      var rest := Collect(interfaces[1..]);
      assert forall k :: 1 <= k < |interfaces| ==> interfaces[1..][k - 1] == interfaces[k];
      InterfaceEntries(interfaces[0], 0) + rest
  }

  /** An entry is collected exactly when it is the entry of a listed
      address of some interface: nothing else is added and nothing listed
      is dropped. */
  lemma {:induction false} CollectMembers(interfaces: seq<NetworkInterface>)
    ensures forall x :: x in Collect(interfaces) <==>
      exists k, j ::
        && 0 <= k < |interfaces| && 0 <= j < |interfaces[k].addresses| && Listed(interfaces[k].addresses[j])
        && x == Entry(interfaces[k], interfaces[k].addresses[j])
    decreases |interfaces|
  {
    if |interfaces| > 0 {
      var tail := interfaces[1..];
      CollectMembers(tail);
      var head := InterfaceEntries(interfaces[0], 0);
      assert Collect(interfaces) == head + Collect(tail);
      forall x ensures x in Collect(interfaces) <==>
        exists k, j ::
          && 0 <= k < |interfaces| && 0 <= j < |interfaces[k].addresses| && Listed(interfaces[k].addresses[j])
          && x == Entry(interfaces[k], interfaces[k].addresses[j])
      {
        if x in head {
          var j :| 0 <= j < |interfaces[0].addresses| && Listed(interfaces[0].addresses[j])
                   && x == Entry(interfaces[0], interfaces[0].addresses[j]);
        } else if x in Collect(tail) {
          var k, j :| && 0 <= k < |tail| && 0 <= j < |tail[k].addresses| && Listed(tail[k].addresses[j])
                      && x == Entry(tail[k], tail[k].addresses[j]);
          assert interfaces[k + 1] == tail[k];
        }
        if exists k, j ::
             && 0 <= k < |interfaces| && 0 <= j < |interfaces[k].addresses| && Listed(interfaces[k].addresses[j])
             && x == Entry(interfaces[k], interfaces[k].addresses[j])
        {
          var k, j :| && 0 <= k < |interfaces| && 0 <= j < |interfaces[k].addresses| && Listed(interfaces[k].addresses[j])
                      && x == Entry(interfaces[k], interfaces[k].addresses[j]);
          if k == 0 {
            assert x in head;
          } else {
            assert tail[k - 1] == interfaces[k];
            assert x in Collect(tail);
          }
        }
      }
    }
  }

  /* ---------- the three sorts ---------- */

  predicate AddressLe(a: IPAddress, b: IPAddress) { StrLe(a.address, b.address) }
  predicate TypeLe(a: IPAddress, b: IPAddress) { a.addressType.Ordinal() <= b.addressType.Ordinal() }
  predicate VersionLe(a: IPAddress, b: IPAddress) { !a.isIpv6 || b.isIpv6 }

  /** The order the published list is in: IPv4 before IPv6, then by type,
      then by address text. */
  predicate KeyLe(a: IPAddress, b: IPAddress) {
    || (!a.isIpv6 && b.isIpv6)
    || (a.isIpv6 == b.isIpv6 && a.addressType.Ordinal() < b.addressType.Ordinal())
    || (a.isIpv6 == b.isIpv6 && a.addressType == b.addressType && StrLe(a.address, b.address))
  }

  lemma Preorders()
    ensures TotalPreorder(AddressLe) && TotalPreorder(TypeLe) && TotalPreorder(VersionLe)
  {
    forall a: IPAddress, b: IPAddress ensures AddressLe(a, b) || AddressLe(b, a) {
      StrLeTotal(a.address, b.address);
    }
    forall a: IPAddress, b: IPAddress, c: IPAddress | AddressLe(a, b) && AddressLe(b, c)
      ensures AddressLe(a, c)
    {
      StrLeTransitive(a.address, b.address, c.address);
    }
  }

  /** The chained `Lex` order is `KeyLe`. */
  lemma LexIsKey(a: IPAddress, b: IPAddress)
    ensures Lex(VersionLe, Lex(TypeLe, AddressLe))(a, b) <==> KeyLe(a, b)
  {
    var inner := Lex(TypeLe, AddressLe);
    assert inner(a, b) == ((TypeLe(a, b) && !TypeLe(b, a)) || (TypeLe(a, b) && TypeLe(b, a) && AddressLe(a, b)));
    assert Lex(VersionLe, inner)(a, b) == ((VersionLe(a, b) && !VersionLe(b, a)) || (VersionLe(a, b) && VersionLe(b, a) && inner(a, b)));
    assert a.addressType.Ordinal() == b.addressType.Ordinal() <==> a.addressType == b.addressType;
  }

  /** `sortedBy { it.address }.sortedBy { it.type.ordinal }.sortedBy { it.isIpv6 }`. */
  function SortAddresses(xs: seq<IPAddress>): (r: seq<IPAddress>)
    ensures multiset(r) == multiset(xs)
    ensures forall i, j :: 0 <= i < j < |r| ==> KeyLe(r[i], r[j])
  {
    Preorders();
    var byAddress := SortBy(xs, AddressLe);
    SortBySorted(xs, AddressLe);
    var byType := SortBy(byAddress, TypeLe);
    SortByStable(byAddress, TypeLe, AddressLe);
    var byVersion := SortBy(byType, VersionLe);
    SortByStable(byType, VersionLe, Lex(TypeLe, AddressLe));
    forall i, j | 0 <= i < j < |byVersion|
      ensures KeyLe(byVersion[i], byVersion[j])
    {
      LexIsKey(byVersion[i], byVersion[j]);
    }
    byVersion
  }

  /** `KeyLe` is antisymmetric up to equal keys, so the published order is
      fully determined except among entries with the same address, type
      and version. */
  lemma KeyLeAntisymmetric(a: IPAddress, b: IPAddress)
    requires KeyLe(a, b) && KeyLe(b, a)
    ensures a.isIpv6 == b.isIpv6 && a.addressType == b.addressType && a.address == b.address
  {
    if a.addressType.Ordinal() == b.addressType.Ordinal() {
      assert a.addressType == b.addressType;
    }
    StrLeAntisymmetric(a.address, b.address);
  }

  /* ---------- scanIPAddresses ---------- */

  /** `scanIPAddresses`: the published list, and whether an enumeration
      exception was logged. The list collected before an exception is
      published all the same. */
  function ScanIpAddresses(enumerated: seq<NetworkInterface>, threw: bool): (r: (seq<IPAddress>, bool))
    ensures multiset(r.0) == multiset(Collect(enumerated))
    ensures forall i, j :: 0 <= i < j < |r.0| ==> KeyLe(r.0[i], r.0[j])
    ensures r.1 == threw
  {
    (SortAddresses(Collect(enumerated)), threw)
  }

  /** The published list holds exactly the entries of the listed addresses:
      every address that is neither loopback nor link-local is published,
      with its interface's type, and nothing else is. */
  lemma ScanPublishesListed(enumerated: seq<NetworkInterface>, threw: bool)
    ensures forall x :: x in ScanIpAddresses(enumerated, threw).0 <==>
      exists k, j ::
        && 0 <= k < |enumerated| && 0 <= j < |enumerated[k].addresses| && Listed(enumerated[k].addresses[j])
        && x == Entry(enumerated[k], enumerated[k].addresses[j])
  {
    var listed := ScanIpAddresses(enumerated, threw).0;
    CollectMembers(enumerated);
    forall x ensures x in listed <==> x in Collect(enumerated) {
      assert x in listed <==> x in multiset(listed);
    }
  }

  /** Loopback and link-local addresses never reach the list. */
  lemma NoLoopbackListed(enumerated: seq<NetworkInterface>, threw: bool)
    ensures forall x :: x in ScanIpAddresses(enumerated, threw).0 ==>
      exists k, j ::
        && 0 <= k < |enumerated| && 0 <= j < |enumerated[k].addresses|
        && enumerated[k].addresses[j].hostAddress == x.address
        && !enumerated[k].addresses[j].isLoopback && !enumerated[k].addresses[j].isLinkLocal
  {
    var listed := ScanIpAddresses(enumerated, threw).0;
    forall x | x in listed
      ensures exists k, j ::
        && 0 <= k < |enumerated| && 0 <= j < |enumerated[k].addresses|
        && enumerated[k].addresses[j].hostAddress == x.address
        && !enumerated[k].addresses[j].isLoopback && !enumerated[k].addresses[j].isLinkLocal
    {
      assert x in multiset(listed);
      assert x in Collect(enumerated);
    }
  }
}
