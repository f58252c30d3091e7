/**
 * NUMA placement of DPDK ports: the socket a port is attached to, and the
 * number of packet-buffer pools (one per socket) the devices need.
 */
module Numa {
  import opened Results

  /**
   * `get_port_numa_node`: -1 for a port beyond the `devCount` ports DPDK
   * knows, otherwise the socket DPDK reports (`socketId`), with DPDK's -1
   * ("unknown") read as socket 0.
   */
  function GetPortNumaNode(portId: nat, devCount: nat, socketId: int): (node: int)
    ensures node == -1 <==> portId >= devCount
    ensures portId < devCount && socketId >= -1 ==> node >= 0
    ensures portId < devCount && socketId == -1 ==> node == 0
    ensures portId < devCount && socketId != -1 ==> node == socketId
  {
    if portId >= devCount then -1
    else if socketId == -1 then 0
    else socketId
  }

  /** The NUMA node of `port`, with DPDK's answers given by `socketOf`. */
  function NodeOf(port: nat, devCount: nat, socketOf: nat -> int): int {
    GetPortNumaNode(port, devCount, socketOf(port))
  }

  /** Every port lies below `devCount` and has a socket id of at least -1. */
  predicate Known(ports: seq<nat>, devCount: nat, socketOf: nat -> int) {
    forall i :: 0 <= i < |ports| ==> ports[i] < devCount && socketOf(ports[i]) >= -1
  }

  /**
   * The socket-counting scan at the start of `alloc_pktmbufs`: the highest
   * NUMA node over all configured ports, starting from -1. None when that
   * maximum stays -1 (no pool can be allocated); otherwise the number of
   * pools, one more than the highest node.
   */
  method PoolCount(ports: seq<nat>, devCount: nat, socketOf: nat -> int) returns (r: Option<nat>)
    ensures r.None? <==> forall i :: 0 <= i < |ports| ==> NodeOf(ports[i], devCount, socketOf) <= -1
    ensures r.Some? ==> forall i :: 0 <= i < |ports| ==> NodeOf(ports[i], devCount, socketOf) < r.value
    ensures r.Some? ==> exists i :: 0 <= i < |ports| && NodeOf(ports[i], devCount, socketOf) == r.value - 1
    // When every port is below the device count (which `initialize` checks
    // before allocating) and, as assumed of DPDK, no socket id is below -1,
    // every nonempty device table gets pools and every port's node indexes
    // them in bounds.
    ensures Known(ports, devCount, socketOf) ==> (r.Some? <==> |ports| > 0)
    ensures Known(ports, devCount, socketOf) && r.Some? ==>
      forall i :: 0 <= i < |ports| ==> 0 <= NodeOf(ports[i], devCount, socketOf) < r.value
  {
    var maxSocket := -1;
    for i := 0 to |ports|
      invariant maxSocket >= -1
      invariant forall j :: 0 <= j < i ==> NodeOf(ports[j], devCount, socketOf) <= maxSocket
      invariant Known(ports, devCount, socketOf) && i > 0 ==> maxSocket >= 0
      invariant maxSocket == -1 || exists j :: 0 <= j < i && NodeOf(ports[j], devCount, socketOf) == maxSocket
    {
      var numaNode := GetPortNumaNode(ports[i], devCount, socketOf(ports[i]));
      if numaNode > maxSocket {
        maxSocket := numaNode;
      }
    }
    if maxSocket == -1 {
      return None;
    }
    r := Some(maxSocket + 1);
  }
}
