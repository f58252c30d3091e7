/**
 * `DPDKDeviceArg::parse`: a device argument is either a port number or a
 * PCI address `dddd:bb:dd.f`, and it names a device when the port it
 * resolves to lies below the number of ports DPDK knows.
 */
module DeviceArg {
  import opened Results
  import opened PciAddress

  /** The outcomes of `parse`: a resolved port, or one of its two errors. */
  datatype ArgResult =
    | Resolved(port: nat)
    | BadFormat   // "invalid id or invalid PCI address format"
    | Unresolved  // "Cannot resolve PCI address to DPDK device"

  /** The final range check on the port id. */
  function Resolve(portId: int, devCount: nat): ArgResult {
    if 0 <= portId < devCount then Resolved(portId) else Unresolved
  }

  /**
   * The index of the field the scanner stops in (`d`) and that field's
   * digit count (`p`).
   */
  function LastField(s: string): nat {
    |FieldsOf(s, AcceptedLength(s))| - 1
  }

  function LastWidth(s: string): nat {
    |FieldsOf(s, AcceptedLength(s))[LastField(s)]|
  }

  /** The four cells of `data` after the scan of `s`. */
  function ScannedValues(s: string, prior: seq<nat>): (v: seq<nat>)
    requires |prior| == 4
    ensures |v| == 4
  {
    FieldValues(s, AcceptedLength(s), prior)
  }

  /** The port `get_port_from_pci` gives for what the scan of `s` left in `data`. */
  function PciPort(s: string, prior: seq<nat>, portFromPci: (nat, nat, nat, nat) -> int): int
    requires |prior| == 4
  {
    var v := ScannedValues(s, prior);
    portFromPci(v[0], v[1], v[2], v[3])
  }

  /**
   * The format error as the source tests it: the whole string was consumed,
   * the last field has a digit, and it is not the fourth field.
   */
  predicate RejectedAsWritten(s: string) {
    AcceptedLength(s) == |s| && LastWidth(s) != 0 && LastField(s) != 3
  }

  /**
   * A complete PCI address: the whole string is consumed and it ends in the
   * fourth field, which has its digit (the success test of the Ethernet
   * address scanner this loop follows).
   */
  predicate CompleteAddress(s: string) {
    AcceptedLength(s) == |s| && LastWidth(s) != 0 && LastField(s) == 3
  }

  /**
   * `parse` as written, on the pre-18.05 branch. `intArg` is the outcome of
   * `IntArg().parse(str, port_id)`, `devCount` is `dev_count()`,
   * `portFromPci` stands for `get_port_from_pci` and `prior` is the
   * indeterminate content of `data[4]`.
   */
  method ParseDeviceArg(str: string, intArg: Option<int>, devCount: nat,
                        portFromPci: (nat, nat, nat, nat) -> int, prior: seq<nat>)
    returns (r: ArgResult)
    requires |prior| == 4
    ensures intArg.Some? ==> r == Resolve(intArg.value, devCount)
    ensures intArg.None? ==> (r == BadFormat <==> RejectedAsWritten(str))
    ensures intArg.None? && !RejectedAsWritten(str) ==> r == Resolve(PciPort(str, prior, portFromPci), devCount)
    ensures r.Resolved? ==> r.port < devCount
  {
    var portId: int;
    if intArg.Some? {
      portId := intArg.value;
    } else {
      var stop, d, p, data := ScanPciAddress(str, prior);
      if stop == |str| && p != 0 && d != 3 {
        return BadFormat;
      }
      portId := portFromPci(data[0], data[1], data[2], data[3]);
    }
    if 0 <= portId < devCount {
      r := Resolved(portId);
    } else {
      r := Unresolved;
    }
  }

  /**
   * As written, a string whose scan ends right after a separator is not a
   * format error: "0:" reaches `get_port_from_pci` with the bus, device and
   * function cells never written, although it is not a complete address.
   */
  lemma TrailingSeparatorAccepted(prior: seq<nat>)
    requires |prior| == 4
    ensures !RejectedAsWritten("0:")
    ensures !CompleteAddress("0:")
    ensures ScannedValues("0:", prior) == [0, prior[1], prior[2], prior[3]]
  {
    var s := "0:";
    assert FieldsOf(s, 0) == [""] && SeparatorsOf(s, 0) == [];
    assert s[0] == '0' && !IsSeparator(s[0]);
    assert "" + ['0'] == "0";
    assert [""][0 := "0"] == ["0"];
    assert FieldsOf(s, 1) == ["0"] && SeparatorsOf(s, 1) == [];
    assert s[1] == ':' && IsSeparator(s[1]);
    assert FieldsOf(s, 2) == ["0", ""] && SeparatorsOf(s, 2) == [':'];
    assert IsHexString("0") && HexValue("0") == 0;
    MaximalIsAccepted(s, 2);
  }

  /**
   * As written, a string the scanner refuses at its first character is not
   * a format error either, and the port is looked up from `data` as it was.
   */
  lemma UnscannedAccepted(prior: seq<nat>)
    requires |prior| == 4
    ensures !RejectedAsWritten("x")
    ensures !CompleteAddress("x")
    ensures ScannedValues("x", prior) == prior
  {
    var s := "x";
    assert FieldsOf(s, 0) == [""];
    assert s[0] == 'x' && !IsSeparator(s[0]);
    assert "" + ['x'] == "x";
    assert [""][0 := "x"] == ["x"];
    assert FieldsOf(s, 1) == ["x"];
    assert !IsHexString(FieldsOf(s, 1)[0]) by {
      assert !IsHexDigit(FieldsOf(s, 1)[0][0]);
    }
    assert !WellFormedPrefix(s, 1);
    MaximalIsAccepted(s, 0);
  }

  /**
   * `parse` with the format test it evidently intends: anything but a
   * complete address is a format error.
   */
  method ParseDeviceArgChecked(str: string, intArg: Option<int>, devCount: nat,
                               portFromPci: (nat, nat, nat, nat) -> int, prior: seq<nat>)
    returns (r: ArgResult)
    requires |prior| == 4
    ensures intArg.Some? ==> r == Resolve(intArg.value, devCount)
    ensures intArg.None? ==> (r == BadFormat <==> !CompleteAddress(str))
    ensures intArg.None? && CompleteAddress(str) ==> r == Resolve(PciPort(str, prior, portFromPci), devCount)
    ensures r.Resolved? ==> r.port < devCount
  {
    var portId: int;
    if intArg.Some? {
      portId := intArg.value;
    } else {
      var stop, d, p, data := ScanPciAddress(str, prior);
      if !(stop == |str| && p != 0 && d == 3) {
        return BadFormat;
      }
      portId := portFromPci(data[0], data[1], data[2], data[3]);
    }
    if 0 <= portId < devCount {
      r := Resolved(portId);
    } else {
      r := Unresolved;
    }
  }

  /** A complete address determines every cell of `data`: the prior content never leaks. */
  lemma CompleteIgnoresPrior(s: string, prior: seq<nat>, prior': seq<nat>)
    requires CompleteAddress(s) && |prior| == 4 && |prior'| == 4
    ensures ScannedValues(s, prior) == ScannedValues(s, prior')
  {
    var fs := FieldsOf(s, AcceptedLength(s));
    assert |fs| == 4 && |fs[3]| >= 1;
    assert forall k :: 0 <= k < 3 ==> |fs[k]| >= 1;
  }

  /**
   * Every address written `dddd:bb:dd.f` is parsed as that address: with
   * the evident test it is complete, and the port is looked up from its own
   * four fields, whatever `data` held before.
   */
  lemma FormattedAddressParses(domain: nat, bus: nat, device: nat, func: nat, prior: seq<nat>,
                               portFromPci: (nat, nat, nat, nat) -> int)
    requires domain < 0x1_0000 && bus < 0x100 && device < 0x100 && func < 0x10
    requires |prior| == 4
    ensures var s := FormatAddress(domain, bus, device, func);
      && CompleteAddress(s) && !RejectedAsWritten(s)
      && PciPort(s, prior, portFromPci) == portFromPci(domain, bus, device, func)
  {
    var s := FormatAddress(domain, bus, device, func);
    FormatScanRoundTrip(domain, bus, device, func, prior);
  }
}
