# DPDK device configuration bookkeeping

A Dafny model of the configuration bookkeeping that Click's DPDK support does
in `lib/dpdkdevice.cc`, with proofs of what it guarantees:

- **Queue slots** (`Slots`): `set_slot` claims a slot in a growable
  `Vector<bool>`, either the slot asked for or, for id 0, the first free one.
- **Queue registration** (`Device`): `add_queue`, `add_rx_queue` and
  `add_tx_queue` register an element's RX or TX queue on a device. The elements
  must agree on promiscuous mode and on descriptor counts, and no two elements
  may share a queue. `DPDKDevice` is a class whose fields are the `info`
  record, which the methods update field by field in the source's order. Each
  method is proved equal to an all-or-nothing specification function,
  `AddQueueSpec`.
- **Device initialization** (`Device`): the part of `initialize_device` that
  fills in defaults (at least one queue per direction, 256 descriptors) and
  checks the result against the limits the device reports.
- **NUMA placement** (`Numa`): `get_port_numa_node`, and the scan over all
  ports at the start of `alloc_pktmbufs` that counts the packet-buffer pools.
- **PCI address scanner** (`PciAddress`): the loop `DPDKDeviceArg::parse` uses
  to read `dddd:bb:dd.f`. The loop is a method over a four-cell array. It is
  proved against an independent description of the address format: the
  characters read so far are cut into fields at the separators. The scan stops
  exactly where the longest well-formed prefix ends, and the array holds the
  hexadecimal values of the fields read. A formatter, `FormatAddress`, is
  proved to be inverted by the scanner.
- **Argument parsing** (`DeviceArg`): `DPDKDeviceArg::parse` ties these parts
  together. It takes a port number or a PCI address, applies the end-of-scan
  format test, and checks the port against the number of ports.

Calls into DPDK are inputs of the model:
- `dev_count()` is a number;
- `rte_eth_dev_socket_id` is a socket id or a function from ports to socket ids;
- `rte_eth_dev_info_get` gives a `DevLimits` record;
- `get_port_from_pci` is a function parameter;
- the outcome of `IntArg().parse` is an `Option<int>`.

The process-wide `_is_initialized` flag is a parameter of the registration
methods, which only read it. The indeterminate initial contents of the
scanner's uninitialized `unsigned data[4]` are a parameter, `prior`.

Files: `results.dfy` (Option), `slots.dfy`, `device.dfy`, `numa.dfy`,
`pci.dfy`, `devicearg.dfy`.

## Model

| member | source | states |
|---|---|---|
| Slots.Resize | lib/dpdkdevice.cc:303-308 | `resize(n, false)` gives length n, keeps the old cells below n, and makes new cells false |
| Slots.FirstFree | lib/dpdkdevice.cc:297-302 | the index the search loop stops at is at most the size, every earlier slot is taken, and the slot there is free |
| Slots.Claim | lib/dpdkdevice.cc:306-312 | claiming slot id grows the vector to hold id and sets slot id; every other cell keeps its old value, and new cells are false |
| Slots.SetSlot | lib/dpdkdevice.cc:296-313 | a nonzero id is kept; id 0 becomes the first free slot and always succeeds; the call fails exactly when the slot was already taken, and then the vector is unchanged; otherwise the result is the vector with that slot claimed |
| Slots.ClaimsCommute | lib/dpdkdevice.cc:306-312 | claiming two slots gives the same vector in either order |
| Slots.ClaimedStaysTaken | lib/dpdkdevice.cc:309-311 | a claimed slot, and every slot taken before, is taken afterwards, so claiming it again is refused |
| Slots.AutoSlotsIncrease | lib/dpdkdevice.cc:297-305 | two automatic assignments in a row hand out strictly increasing slots |
| Numa.GetPortNumaNode | lib/dpdkdevice.cc:48-54 | the result is -1 exactly for ports beyond the device count; otherwise it is the reported socket, with -1 read as 0 |
| Numa.PoolCount | lib/dpdkdevice.cc:63-76 | no pools exactly when every port's node is at most -1; otherwise the count is one more than the highest node, that node is reached, and every known port's node indexes the pool array in bounds |
| Device.AddQueueSpec | lib/dpdkdevice.cc:315-356 | the error cases in the source's order (after initialization, promiscuous disagreement, descriptor disagreement, shared queue); when nothing else disagrees it succeeds exactly when the queue is free; a refusal changes nothing; promiscuous mode is only switched on; a zero descriptor count changes nothing; the requested or first free queue is claimed; the other direction is untouched; consistency is kept |
| Device.DPDKDevice.constructor | lib/dpdkdevice.cc:30-31 | a new device has the given port id and an empty record: no queues, no descriptor counts, promiscuous mode off |
| Device.DPDKDevice.AddQueue | lib/dpdkdevice.cc:315-356 | the field-by-field update, with its early returns, ends in the outcome, record and queue id that AddQueueSpec gives |
| Device.DPDKDevice.AddRxQueue | lib/dpdkdevice.cc:358-362 | an RX registration as AddQueueSpec states it |
| Device.DPDKDevice.AddTxQueue | lib/dpdkdevice.cc:364-368 | a TX registration, never asking for promiscuous mode, as AddQueueSpec states it |
| Device.AfterInitNothingChanges | lib/dpdkdevice.cc:319-322 | after initialization every registration is refused and leaves the record and the id unchanged |
| Device.RepeatedRegistration | lib/dpdkdevice.cc:337-352 | after a successful registration, asking again for the same explicit queue is refused as shared, and an automatic request gets a different queue |
| Device.RegistrationsKeepConsistent | lib/dpdkdevice.cc:324-353 | registrations from a fresh device keep "no queues means no descriptor count and no promiscuous request" |
| Device.WithDefaults | lib/dpdkdevice.cc:126-146 | at least one queue per direction; zero descriptor counts become 256, and so does the RX count whenever there was no RX queue; existing queues are kept, and so are requested counts (the RX one whenever there is an RX queue) |
| Device.CheckLimits | lib/dpdkdevice.cc:149-166 | success exactly when both queue counts are within the maxima and both descriptor counts are within [min, max]; each error is reported exactly when its limit is violated and every limit checked before it (RX queues, TX queues, RX descriptors, TX descriptors) holds |
| Device.DPDKDevice.InitializeDevice | lib/dpdkdevice.cc:126-166 | the record is rewritten to WithDefaults of the old record, and the result is CheckLimits of the new one |
| PciAddress.DigitValue | lib/dpdkdevice.cc:434-439 | a hex digit of either case has the value the three branches compute, below 16 |
| PciAddress.ScannerTests | lib/dpdkdevice.cc:441-454 | in a well-formed state, the separator test accepts exactly the separator due next after a nonempty field, and the width test refuses a digit exactly when the field is full |
| PciAddress.WellFormedStep | lib/dpdkdevice.cc:432-454 | a well-formed prefix stays well-formed after one more character exactly when the scanner accepts that character |
| PciAddress.WellFormedPrefixClosed | lib/dpdkdevice.cc:432-458 | every prefix of a well-formed prefix is well-formed |
| PciAddress.AcceptedLength | lib/dpdkdevice.cc:432-458 | where the scan stops: the length of the longest well-formed prefix, since no longer prefix is well-formed |
| PciAddress.MaximalIsAccepted | lib/dpdkdevice.cc:432-458 | the scan stops at the first character that cannot extend the well-formed prefix |
| PciAddress.AppendDigit | lib/dpdkdevice.cc:456 | `(p ? data[d] << 4 : 0) + digit` on a field of at most three digits is the value of the field with the digit appended, with no 32-bit wrap-around |
| PciAddress.ScanChar | lib/dpdkdevice.cc:433-457 | one iteration accepts exactly the characters the address format allows; an accepted separator moves to the next field and an accepted digit extends the current one; the array then holds the new fields' values; a refused character changes nothing |
| PciAddress.ScanPciAddress | lib/dpdkdevice.cc:428-458 | the loop stops after the longest well-formed prefix, with `d` and `p` the last field's index and digit count and `data` the fields' values (untouched cells keep their prior content) |
| PciAddress.ScannedBounds | lib/dpdkdevice.cc:432-458 | at the end of the scan `d <= 3`, and every field that got a digit fits its width: domain below 16^4, bus and device below 256, function below 16 |
| PciAddress.FormatScanRoundTrip | lib/dpdkdevice.cc:427-458 | an in-range address written `dddd:bb:dd.f` is scanned to its end as four complete fields whose values are the address's own |
| DeviceArg.ParseDeviceArg | lib/dpdkdevice.cc:413-479 | a port number is range-checked directly; otherwise the format error is reported exactly for the literal end-of-scan condition, and any other string is resolved through `get_port_from_pci` of the scanned cells; a resolved port is below the device count |
| DeviceArg.TrailingSeparatorAccepted | lib/dpdkdevice.cc:460-467 | as written, "0:" passes the format test although it is not a complete address, and reaches `get_port_from_pci` with three cells never written |
| DeviceArg.UnscannedAccepted | lib/dpdkdevice.cc:460-467 | as written, "x" passes the format test although it is not a complete address, and the port is looked up from the uninitialized array |
| DeviceArg.ParseDeviceArgChecked | lib/dpdkdevice.cc:460-463 | with the corrected test, the format error is reported exactly when the string is not a complete address |
| DeviceArg.CompleteIgnoresPrior | lib/dpdkdevice.cc:456-467 | for a complete address the looked-up cells do not depend on the array's prior content |
| DeviceArg.FormattedAddressParses | lib/dpdkdevice.cc:427-467 | every formatted address is complete, passes both tests, and is looked up by its own domain, bus, device and function |

## Left out

- `elements/analysis/fromipsumdump.hh` holds declarations only, with no function bodies, so it has no behaviour to model.
- DPDK and EAL calls are inputs, not models. This covers `rte_eth_dev_info_get`, `rte_eth_dev_socket_id`, `dev_count`, `get_port_from_pci` and `IntArg().parse`.
- `initialize_device` after the range checks (lines 168 onwards) is not modelled: device configuration, queue setup, MAC, MTU and promiscuous setters, and device start. These are all foreign calls. So is the RSS configuration before line 126 and the driver name.
- Only the pre-18.05 branches are modelled. The 18.05 path is left out: default ring sizes taken from the device (lines 136-140) and the port lookup by name in `parse` (lines 420-425).
- `alloc_pktmbufs` is modelled only as its counting scan. Allocating the pool array and creating the mempools (lines 77-101) are heap and foreign calls. `get_mpool`, `initialize`, `free_pkt` and the getters are not modelled.
- `Numa.PoolCount`: the device table is a sequence of port ids, standing for the keys of the `HashTable`. Iteration order does not affect the maximum.
- `Slots.SetSlot`: ids are unbounded naturals. The 32-bit `unsigned` id is not modelled, so neither is the wrap of `id + 1` at 2^32 - 1.
- `DeviceArg.ParseDeviceArg`: the port id is an unbounded integer, and both bounds are checked as written. The source stores the `int` returned by `get_port_from_pci` in `portid_t`, which truncates it and makes `port_id >= 0` always true; that is not modelled.
- `DPDKDevice.constructor`: `DevInfo`'s default constructor is declared in the header `click/dpdkdevice.hh`, which is not part of this model; its record is taken to be empty (promiscuous mode off, both descriptor counts 0, no queues), which is what `add_queue` and `initialize_device` treat as "not configured yet".
- Error messages and the `ErrorHandler` are not modelled. Errors are values of `DeviceError` and `ArgResult`.
- The tuning constants at lines 481-507 are not used, except `DEF_DEV_RXDESC` and `DEF_DEV_TXDESC` (256).

## Findings

| source | as written | input that shows it | evidently intended | confidence | as-written member | corrected member |
|---|---|---|---|---|---|---|
| lib/dpdkdevice.cc:460 | the format error is raised only when the scan consumed the whole string, the last field has a digit, and it is not the fourth field, i.e. `s == end && p != 0 && d != 3` | "0:": the scan ends after the separator with `p == 0`, so no error, and `get_port_from_pci` reads three cells never written; "x" is refused at its first character, so `s != end`, and the whole array is used uninitialized | the success test of the Ethernet-address scanner this loop was adapted from: a format error unless `s == end && p != 0 && d == 3` | likely; not executed | DeviceArg.TrailingSeparatorAccepted | DeviceArg.ParseDeviceArgChecked |
