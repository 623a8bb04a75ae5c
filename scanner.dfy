/**
 * The scanning engine of network_scanner.py: the port sets, one TCP probe
 * (`check_port`), the port scan of one host (`scan_ports`) and the sweep of an
 * address range (`scan_ips`).
 *
 * The network is replaced by the oracles bundled in `Probes`; the thread pools
 * are replaced by completion orders: `as_completed` hands back every submitted
 * task exactly once, in an order nobody controls, so a completion order is any
 * sequence with the same elements as the submitted one.
 */
module Scanner {
  import opened Wrappers
  import opened Text
  import opened Seqs

  /** The well-known ports probed by default. */
  const COMMON_PORTS: seq<int> :=
    [21, 22, 23, 25, 53, 80, 110, 135, 139, 143,
     443, 445, 993, 995, 1723, 3306, 3389, 5900, 8080]

  const HOSTNAME_NOT_FOUND := "Hostname not found"

  /** `range(1, 65536)`: every TCP port. */
  function AllPorts(): seq<int> {
    seq(65535, k => k + 1)
  }

  /** `ports_to_scan`: every port when `all_ports` is set, the well-known list otherwise. */
  function PortsToScan(allPorts: bool): seq<int> {
    if allPorts then AllPorts() else COMMON_PORTS
  }

  lemma PortsToScanShape(allPorts: bool)
    ensures StrictlyIncreasing(PortsToScan(allPorts)) && Distinct(PortsToScan(allPorts))
    ensures forall p :: p in PortsToScan(allPorts) ==> 1 <= p <= 65535
    ensures allPorts ==> forall p :: 1 <= p <= 65535 ==> p in PortsToScan(allPorts)
  {
    var ports := PortsToScan(allPorts);
    if allPorts {
      forall p | 1 <= p <= 65535 ensures p in ports {
        assert ports[p - 1] == p;
      }
    } else {
      assert forall k :: 0 <= k < |ports| - 1 ==> ports[k] < ports[k + 1];
      AdjacentIncreasing(ports);
    }
  }

  lemma {:induction false} AdjacentIncreasing(s: seq<int>)
    requires forall k :: 0 <= k < |s| - 1 ==> s[k] < s[k + 1]
    ensures StrictlyIncreasing(s)
    decreases |s|
  {
    if |s| > 1 {
      var t := s[1..];
      AdjacentIncreasing(t);
      forall i, j | 0 <= i < j < |s| ensures s[i] < s[j] {
        if i > 0 {
          assert t[i - 1] < t[j - 1];
        } else if j > 1 {
          assert t[0] < t[j - 1];
        }
      }
    }
  }

  // ---------------------------------------------------------------- oracles

  /** How one `ping` subprocess ended. */
  datatype PingRun = Exited(code: int) | TimedOut | Crashed

  /** What `socket.gethostbyaddr` did: a name, `socket.herror`, or another exception. */
  datatype Lookup = Named(name: string) | HostError | LookupFailure

  datatype Probes = Probes(
    runPing: string -> PingRun,            // the ping subprocess for one address
    reverseLookup: string -> Lookup,       // the reverse DNS lookup for one address
    connects: (string, int) -> bool)       // connect_ex(...) == 0 for one (address, port)

  /** `ping_ip`: reachable exactly when ping exits with status 0; `None` when it raised. */
  function PingIp(run: PingRun): (r: Option<bool>)
    ensures r == None <==> run == Crashed
    ensures r == Some(true) <==> run == Exited(0)
  {
    match run
    case Exited(code) => Some(code == 0)
    case TimedOut => Some(false)
    case Crashed => None
  }

  /** `resolve_hostname`: the name, the placeholder on `herror`, `None` when another exception escapes. */
  function ResolveHostname(answer: Lookup): (r: Option<string>)
    ensures r == None <==> answer == LookupFailure
    ensures answer.Named? ==> r == Some(answer.name)
    ensures answer == HostError ==> r == Some(HOSTNAME_NOT_FOUND)
  {
    match answer
    case Named(name) => Some(name)
    case HostError => Some(HOSTNAME_NOT_FOUND)
    case LookupFailure => None
  }

  // ------------------------------------------------------------- port scan

  /** `check_port`: the port itself when the connection succeeded, `None` otherwise. */
  function CheckPort(ip: string, port: int, connects: (string, int) -> bool): (r: Option<int>)
    ensures r.Some? <==> connects(ip, port)
    ensures r.Some? ==> r.value == port
  {
    if connects(ip, port) then Some(port) else None
  }

  /** `if result:` on the value of `check_port`: present and not the falsy port 0. */
  function Reported(ip: string, connects: (string, int) -> bool): int -> bool {
    port => var result := CheckPort(ip, port, connects); result.Some? && result.value != 0
  }

  /** The result of `scan_ports`, in terms of the probed ports only. */
  function OpenPorts(ip: string, ports: seq<int>, connects: (string, int) -> bool): seq<int> {
    SortAscending(Filter(ports, Reported(ip, connects)))
  }

  /** The open ports are sorted and are exactly the probed non-zero ports that connected. */
  lemma OpenPortsMeaning(ip: string, ports: seq<int>, connects: (string, int) -> bool)
    ensures Sorted(OpenPorts(ip, ports, connects))
    ensures forall p :: p in OpenPorts(ip, ports, connects) <==> p in ports && p != 0 && connects(ip, p)
    ensures forall p :: multiset(OpenPorts(ip, ports, connects))[p] ==
                        if p != 0 && connects(ip, p) then multiset(ports)[p] else 0
  {
    var keep := Reported(ip, connects);
    forall p ensures multiset(OpenPorts(ip, ports, connects))[p] ==
      if p != 0 && connects(ip, p) then multiset(ports)[p] else 0
    {
      FilterCount(ports, keep, p);
    }
  }

  /** Without repeated ports, each open port is reported once, in strictly increasing order. */
  lemma OpenPortsStrictlyIncreasing(ip: string, ports: seq<int>, connects: (string, int) -> bool)
    requires Distinct(ports)
    ensures StrictlyIncreasing(OpenPorts(ip, ports, connects))
  {
    var r := OpenPorts(ip, ports, connects);
    DistinctCount(ports);
    OpenPortsMeaning(ip, ports, connects);
    assert forall p :: multiset(r)[p] <= multiset(ports)[p];
    DistinctCount(r);
    SortedDistinct(r);
  }

  /**
   * `scan_ports`: probes every port of `ports`, takes the results in the
   * completion order `completion`, collects the reported ones and sorts them.
   */
  method ScanPorts(ip: string, ports: seq<int>, connects: (string, int) -> bool, completion: seq<int>)
    returns (openPorts: seq<int>)
    requires multiset(completion) == multiset(ports)
    ensures openPorts == OpenPorts(ip, ports, connects)
    ensures Sorted(openPorts)
    ensures forall p :: p in openPorts <==> p in ports && p != 0 && connects(ip, p)
  {
    var collected := [];
    var i := 0;
    while i < |completion|
      invariant 0 <= i <= |completion|
      invariant collected == Filter(completion[..i], Reported(ip, connects))
    {
      var result := CheckPort(ip, completion[i], connects);
      if result.Some? && result.value != 0 {
        collected := collected + [result.value];
      }
      assert completion[..i + 1][..i] == completion[..i];
      i := i + 1;
    }
    assert completion[..i] == completion;
    var inOrder := Filter(ports, Reported(ip, connects));
    FilterPermutation(completion, ports, Reported(ip, connects));
    openPorts := SortAscending(collected);
    SortedUnique(openPorts, SortAscending(inOrder));
    OpenPortsMeaning(ip, ports, connects);
  }

  /** Two completion orders of one port scan give the same list. */
  lemma ScanPortsDeterministic(ip: string, ports: seq<int>, connects: (string, int) -> bool,
                               first: seq<int>, second: seq<int>)
    requires multiset(first) == multiset(ports) && multiset(second) == multiset(ports)
    ensures SortAscending(Filter(first, Reported(ip, connects))) ==
            SortAscending(Filter(second, Reported(ip, connects)))
  {
    FilterPermutation(first, second, Reported(ip, connects));
    SortedUnique(SortAscending(Filter(first, Reported(ip, connects))),
                 SortAscending(Filter(second, Reported(ip, connects))));
  }

  // -------------------------------------------------------------- host scan

  /** One entry of the list `scan_ips` returns: `(ip, hostname, ports)`. */
  datatype HostRecord = HostRecord(ip: string, hostname: string, ports: seq<int>)

  /** `f"{network}.{i}"`. */
  function Address(network: string, i: int): string {
    network + "." + IntToString(i)
  }

  /** The addresses `scan_ips` submits, for `i` in `range(start, end + 1)`. */
  function Addresses(network: string, start: int, end: int): (ips: seq<string>)
    ensures |ips| == if start <= end then end - start + 1 else 0
    ensures forall k :: 0 <= k < |ips| ==> ips[k] == Address(network, start + k)
  {
    seq(if start <= end then end - start + 1 else 0, k => Address(network, start + k))
  }

  lemma AddressInjective(network: string, i: int, j: int)
    ensures Address(network, i) == Address(network, j) <==> i == j
  {
    var a, b := Address(network, i), Address(network, j);
    if a == b {
      assert a[|network| + 1..] == IntToString(i);
      assert b[|network| + 1..] == IntToString(j);
      IntToStringInjective(i, j);
    }
  }

  /** No address is submitted twice. */
  lemma AddressesDistinct(network: string, start: int, end: int)
    ensures Distinct(Addresses(network, start, end))
  {
    forall k, l | 0 <= k < l < |Addresses(network, start, end)|
      ensures Addresses(network, start, end)[k] != Addresses(network, start, end)[l]
    {
      AddressesDiffer(network, start, end, k, l);
    }
  }

  lemma AddressesDiffer(network: string, start: int, end: int, k: nat, l: nat)
    requires k < l < |Addresses(network, start, end)|
    ensures Addresses(network, start, end)[k] != Addresses(network, start, end)[l]
  {
    AddressInjective(network, start + k, start + l);
  }

  /** The submitted addresses are those of the octets `start` to `end`, both included. */
  lemma AddressesMember(network: string, start: int, end: int)
    ensures forall ip :: ip in Addresses(network, start, end) <==>
                           exists i :: start <= i <= end && ip == Address(network, i)
  {
    var ips := Addresses(network, start, end);
    forall ip ensures ip in ips <==> exists i :: start <= i <= end && ip == Address(network, i) {
      if exists i :: start <= i <= end && ip == Address(network, i) {
        var i :| start <= i <= end && ip == Address(network, i);
        assert ips[i - start] == ip;
      }
    }
  }

  /** A start above the end submits nothing, and the scan returns the empty list. */
  lemma ReversedRangeScansNothing(network: string, start: int, end: int, probes: Probes, fullScan: bool,
                                  portsToScan: seq<int>, completion: seq<string>)
    requires start > end
    requires multiset(completion) == multiset(Addresses(network, start, end))
    ensures Records(completion, probes, fullScan, portsToScan) == []
  {
    assert |completion| == |multiset(completion)| == 0;
  }

  /** Whether the body of the `as_completed` loop appends an entry for `ip`. */
  function Kept(probes: Probes): string -> bool {
    ip => PingIp(probes.runPing(ip)) == Some(true) && ResolveHostname(probes.reverseLookup(ip)).Some?
  }

  /** The entry appended for a kept address. */
  function RecordFor(ip: string, probes: Probes, fullScan: bool, portsToScan: seq<int>): (r: HostRecord)
    requires Kept(probes)(ip)
  {
    HostRecord(ip, ResolveHostname(probes.reverseLookup(ip)).value,
               if fullScan then OpenPorts(ip, portsToScan, probes.connects) else [])
  }

  /** The list `scan_ips` builds from the reachability results taken in the order `ips`. */
  function Records(ips: seq<string>, probes: Probes, fullScan: bool, portsToScan: seq<int>): seq<HostRecord> {
    if ips == [] then []
    else
      var ip := ips[|ips| - 1];
      Records(ips[..|ips| - 1], probes, fullScan, portsToScan) +
        (if Kept(probes)(ip) then [RecordFor(ip, probes, fullScan, portsToScan)] else [])
  }

  lemma RecordsSnoc(ips: seq<string>, ip: string, probes: Probes, fullScan: bool, portsToScan: seq<int>)
    ensures Records(ips + [ip], probes, fullScan, portsToScan) ==
      Records(ips, probes, fullScan, portsToScan) +
        (if Kept(probes)(ip) then [RecordFor(ip, probes, fullScan, portsToScan)] else [])
  {
    assert (ips + [ip])[..|ips|] == ips;
  }

  function IpsOf(records: seq<HostRecord>): (ips: seq<string>)
    ensures |ips| == |records| && forall k :: 0 <= k < |ips| ==> ips[k] == records[k].ip
  {
    if records == [] then [] else IpsOf(records[..|records| - 1]) + [records[|records| - 1].ip]
  }

  /** Every entry is the one built for its own address, and the addresses are the kept ones, in order. */
  lemma {:induction false} RecordsShape(ips: seq<string>, probes: Probes, fullScan: bool, portsToScan: seq<int>)
    ensures IpsOf(Records(ips, probes, fullScan, portsToScan)) == Filter(ips, Kept(probes))
    ensures forall r :: r in Records(ips, probes, fullScan, portsToScan) ==>
      r.ip in ips && Kept(probes)(r.ip) && r == RecordFor(r.ip, probes, fullScan, portsToScan)
    decreases |ips|
  {
    if ips != [] {
      var init, ip := ips[..|ips| - 1], ips[|ips| - 1];
      assert ips == init + [ip];
      RecordsShape(init, probes, fullScan, portsToScan);
      RecordsSnoc(init, ip, probes, fullScan, portsToScan);
      var before := Records(init, probes, fullScan, portsToScan);
      var records := Records(ips, probes, fullScan, portsToScan);
      if Kept(probes)(ip) {
        assert records[..|records| - 1] == before;
      } else {
        assert records == before;
      }
      assert forall x :: x in init ==> x in ips;
    }
  }

  /**
   * What `scan_ips` returns, whatever the completion order: every reachable
   * address of the range exactly once, no other address, each with its hostname
   * and its port list.
   */
  lemma ScanReportCensus(network: string, start: int, end: int, probes: Probes, fullScan: bool,
                         allPorts: bool, completion: seq<string>)
    requires multiset(completion) == multiset(Addresses(network, start, end))
    ensures var report := Records(completion, probes, fullScan, PortsToScan(allPorts));
      && (forall ip :: multiset(IpsOf(report))[ip] ==
            if ip in Addresses(network, start, end) && Kept(probes)(ip) then 1 else 0)
      && (forall r :: r in report ==>
            && r.ip in Addresses(network, start, end)
            && PingIp(probes.runPing(r.ip)) == Some(true)
            && Some(r.hostname) == ResolveHostname(probes.reverseLookup(r.ip))
            && r.ports == if fullScan then OpenPorts(r.ip, PortsToScan(allPorts), probes.connects) else [])
  {
    var addresses := Addresses(network, start, end);
    var report := Records(completion, probes, fullScan, PortsToScan(allPorts));
    RecordsShape(completion, probes, fullScan, PortsToScan(allPorts));
    AddressesDistinct(network, start, end);
    DistinctCount(addresses);
    forall ip ensures multiset(IpsOf(report))[ip] == if ip in addresses && Kept(probes)(ip) then 1 else 0 {
      FilterCount(completion, Kept(probes), ip);
    }
    forall r | r in report ensures r.ip in addresses {
      assert r.ip in multiset(completion);
    }
  }

  /** Two completion orders give two orderings of the same entries. */
  lemma ScanReportPermutation(ips: seq<string>, other: seq<string>, probes: Probes, fullScan: bool,
                              portsToScan: seq<int>)
    requires multiset(ips) == multiset(other)
    ensures multiset(Records(ips, probes, fullScan, portsToScan)) ==
            multiset(Records(other, probes, fullScan, portsToScan))
  {
    forall r ensures multiset(Records(ips, probes, fullScan, portsToScan))[r] ==
                     multiset(Records(other, probes, fullScan, portsToScan))[r]
    {
      RecordsCount(ips, probes, fullScan, portsToScan, r);
      RecordsCount(other, probes, fullScan, portsToScan, r);
    }
    MultisetExtensional(multiset(Records(ips, probes, fullScan, portsToScan)),
                        multiset(Records(other, probes, fullScan, portsToScan)));
  }

  lemma {:induction false} RecordsCount(ips: seq<string>, probes: Probes, fullScan: bool,
                                        portsToScan: seq<int>, r: HostRecord)
    ensures multiset(Records(ips, probes, fullScan, portsToScan))[r] ==
      if Kept(probes)(r.ip) && r == RecordFor(r.ip, probes, fullScan, portsToScan)
      then multiset(ips)[r.ip] else 0
    decreases |ips|
  {
    if ips != [] {
      var init, ip := ips[..|ips| - 1], ips[|ips| - 1];
      assert ips == init + [ip];
      RecordsCount(init, probes, fullScan, portsToScan, r);
      RecordsSnoc(init, ip, probes, fullScan, portsToScan);
    }
  }

  /**
   * `scan_ips`: pings every address of `network.start` .. `network.end`, takes
   * the results in the completion order `completion`, and for each reachable
   * address resolves the hostname and, when `fullScan` is set, scans its ports
   * (in the completion order `portCompletion(ip)`).
   */
  method ScanIps(start: int, end: int, network: string, fullScan: bool, allPorts: bool,
                 probes: Probes, completion: seq<string>, portCompletion: string -> seq<int>)
    returns (reachable: seq<HostRecord>)
    requires multiset(completion) == multiset(Addresses(network, start, end))
    requires forall ip :: multiset(portCompletion(ip)) == multiset(PortsToScan(allPorts))
    ensures reachable == Records(completion, probes, fullScan, PortsToScan(allPorts))
    ensures multiset(reachable) ==
      multiset(Records(Addresses(network, start, end), probes, fullScan, PortsToScan(allPorts)))
  {
    reachable := [];
    var portsToScan := PortsToScan(allPorts);
    var i := 0;
    while i < |completion|
      invariant 0 <= i <= |completion|
      invariant reachable == Records(completion[..i], probes, fullScan, portsToScan)
    {
      var ip := completion[i];
      assert completion[..i + 1] == completion[..i] + [ip];
      RecordsSnoc(completion[..i], ip, probes, fullScan, portsToScan);
      var reply := PingIp(probes.runPing(ip));
      // reply == None: the probe raised; the error is printed and the address dropped
      if reply.Some? && reply.value {
        var hostname := ResolveHostname(probes.reverseLookup(ip));
        // hostname == None: the lookup raised; likewise printed and dropped
        if hostname.Some? {
          var ports := [];
          if fullScan {
            ports := ScanPorts(ip, portsToScan, probes.connects, portCompletion(ip));
          }
          reachable := reachable + [HostRecord(ip, hostname.value, ports)];
        }
      }
      i := i + 1;
    }
    assert completion[..i] == completion;
    ScanReportPermutation(completion, Addresses(network, start, end), probes, fullScan, portsToScan);
  }
}
