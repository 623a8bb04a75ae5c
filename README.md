# Network scanner: the scanning logic, modelled and verified

`network_scanner.py` sweeps one `/24` range of IPv4 addresses. It checks the
base prefix and the octet range the user typed. It pings every address of the
range on a thread pool. For each address that answers it resolves the hostname
and, on request, probes TCP ports on a second thread pool. It returns the list
of reachable hosts and can write that list to a numbered CSV file.

This project models that logic in Dafny and proves what it promises. The
network, the subprocesses and the thread pools are replaced by parameters:

- `Scanner.Probes` bundles three oracles. `runPing` says how the `ping`
  subprocess for an address ended (exit code, timeout, or another exception).
  `reverseLookup` says what `socket.gethostbyaddr` did (a name, `socket.herror`,
  or another exception). `connects` says whether `connect_ex` succeeded for an
  (address, port) pair.
- A completion order stands for `concurrent.futures.as_completed`. It is any
  sequence with the same elements, and the same multiplicities, as the submitted
  tasks. `ScanIps` takes one for the pings and, through `portCompletion`, one
  per host for its port probes.

Modules, one per concern:

- `Text` (text.dfy): `str(int)`, reading digits back, `str.isdigit` on ASCII,
  `str.split` on one character and `str.join`, with their round trips.
- `Seqs` (seqs.dfy): `sorted` on integers (an insertion sort), in-order filtering,
  and how both behave when the input is reordered.
- `Validation` (validation.dfy): the prefix and range checks of
  `get_ip_range_and_base` and the default prefix `"172.16.172"`.
- `Scanner` (scanner.dfy): `COMMON_PORTS`, `ping_ip`, `resolve_hostname`,
  `check_port`, `scan_ports`, and `scan_ips`.
- `Export` (export.dfy): the file-name counter of `export_to_csv`, the rows it
  writes, and a reader for the port cell that proves the rendering loses nothing.

The methods `ScanPorts`, `ScanIps` and `NextFilename` keep the loops of the
source. Each is proved against a specification function:

- `OpenPorts` is the sorted in-order filter of the probed ports.
- `Records` is the list built when the ping results arrive in a given order.
- `CsvName` gives the file name for a counter.

The lemmas then state what those functions mean.

## Model

| member | source | states |
|---|---|---|
| `Text.IsDigits` | network_scanner.py:117 | No contract; defined as `part.isdigit()` on ASCII: at least one character, and every character in `'0'..'9'`. Its use is stated by `EmptyPieceRejected` and `ValidBaseOfPieces`. |
| `Text.DigitsValue` | network_scanner.py:117 | No contract; defined as `int(part)` for a digit string, leading zeros allowed. Its meaning is proved by `NatToStringRoundTrip` and `LeadingZerosAccepted`. |
| `Text.IntToString` | network_scanner.py:82 | `str(i)`: a non-empty string that starts with `-` or a digit. Its meaning is proved by `IntToStringRoundTrip`. |
| `Text.Join` | network_scanner.py:147 | No contract; defined as `sep.join(parts)`. Its meaning is proved by `JoinSplit`, `SplitJoin` and `JoinStartsWithFirst`. |
| `Text.JoinSplit` | network_scanner.py:117 | Joining the pieces of `base_ip.split(".")` with `"."` gives `base_ip` back. |
| `Text.SplitJoin` | network_scanner.py:117 | Splitting dot-free pieces joined with dots gives those pieces back. |
| `Text.Split` | network_scanner.py:117 | A split yields at least one piece, and no piece contains the separator. |
| `Text.SplitAppend` | network_scanner.py:82 | A separator followed by separator-free text adds exactly that text as a last piece. This is the step that splits `f"{network}.{i}"` into the prefix's pieces plus the octet (used by `ScannedAddressIsDottedQuad`). |
| `Text.NatToStringRoundTrip` | network_scanner.py:117 | `int(str(n)) == n` for every non-negative `n`. |
| `Text.NatToStringShort` | network_scanner.py:117 | A number below 1000 has at most three digits, so the digit limit of `int` never refuses an octet written without leading zeros. |
| `Text.IntToStringRoundTrip` | network_scanner.py:82 | `str(i)` reads back as `i` for every integer, negative ones included, so different octets give different text. |
| `Text.JoinStartsWithFirst` | network_scanner.py:147 | A joined string starts with its first piece. This is why a rendered non-empty port list never equals `"None"` (used by `PortsCellRoundTrip`). |
| `Seqs.SortAscending` | network_scanner.py:70 | `sorted` returns an ascending list with the same elements and multiplicities. |
| `Seqs.SortedUnique` | network_scanner.py:70 | Two ascending lists with the same elements and multiplicities are equal. |
| `Seqs.Filter` | network_scanner.py:65-68 | No contract beyond a length bound; defined as the kept elements in input order, which is the append-if loop. Its meaning is proved by `FilterCount` and `FilterPermutation`. |
| `Seqs.FilterCount` | network_scanner.py:65-68 | Collecting the kept results keeps every occurrence of a kept value and no other value. |
| `Seqs.FilterPermutation` | network_scanner.py:65-68 | Collecting from two orderings of the same tasks gives two orderings of the same list. |
| `Seqs.DistinctCount` | network_scanner.py:81-84 | A list has no repeats exactly when every multiplicity is at most one. This turns the duplicate-free address list into "each address appears at most once" (used by `ScanReportCensus`). |
| `Validation.BaseOrDefault` | network_scanner.py:114-115 | A non-empty answer is kept as it is. An empty one becomes `"172.16.172"`, as `EmptyInputUsesDefault` states. |
| `Validation.ValidOctet` | network_scanner.py:117 | No contract; defined as `part.isdigit()` on ASCII, at most 4300 digits, and value at most 255. Its meaning is proved by `ValidBaseOfPieces`, `LeadingZerosAccepted` and `EmptyPieceRejected`. |
| `Validation.ValidBase` | network_scanner.py:117 | No contract; defined as "the split on `.` has three pieces, each a `ValidOctet`". Its meaning is proved by `ValidBaseParts`, `ValidBaseOfPieces` and `ValidBaseOfOctets`. |
| `Validation.ValidRange` | network_scanner.py:124 | No contract; defined as `0 <= start <= 255 and 0 <= end <= 255`. Its use is stated by `EmptyInputUsesDefault` and `ReversedRangeAccepted`. |
| `Validation.GetIpRangeAndBase` | network_scanner.py:113-130 | No contract; defined as the default for an empty answer, then the prefix test, then the range test, with `None` for `(None, None, None)`. Its meaning is proved by `EmptyInputUsesDefault`, `ReversedRangeAccepted` and `AcceptedTargetScansDottedQuads`. |
| `Validation.ValidBaseParts` | network_scanner.py:117 | An accepted prefix is three valid octets (digits, at most 4300 of them so that `int` does not raise, value at most 255) joined by two dots. |
| `Validation.ValidBaseOfPieces` | network_scanner.py:117-130 | For three dot-free pieces joined by dots, the prefix test passes exactly when every piece is non-empty, all digits, short enough for `int`, and at most 255. |
| `Validation.ValidBaseOfOctets` | network_scanner.py:117 | Three decimal numbers joined by dots pass exactly when each is at most 255. |
| `Validation.LeadingZerosAccepted` | network_scanner.py:117 | `"001.002.255"` passes: leading zeros are allowed. |
| `Validation.EmptyPieceRejected` | network_scanner.py:117 | `"1..2"` is refused, because an empty piece is not a digit string. |
| `Validation.EmptyInputUsesDefault` | network_scanner.py:114-115 | An empty answer takes the default `"172.16.172"`. That prefix passes, so the result then depends on the range alone. |
| `Validation.AcceptedTargetScansDottedQuads` | network_scanner.py:113-130 | Once the answers are accepted, every address of the range to be scanned splits into four valid dotted octets. |
| `Validation.ReversedRangeAccepted` | network_scanner.py:124-125 | A start above the end is accepted: an empty base answer with start 200 and end 50 gives `(200, 50, "172.16.172")`. |
| `Validation.ScannedAddressIsDottedQuad` | network_scanner.py:82 | An address built from an accepted prefix and an octet in 0..255 splits into four valid octets. |
| `Scanner.COMMON_PORTS` | network_scanner.py:13-16 | No contract; the 19 ports of the source, in its order. Its shape is proved by `PortsToScanShape`. |
| `Scanner.AllPorts` | network_scanner.py:78 | No contract; defined as `range(1, 65536)`, the `k`-th element being `k + 1`. Its meaning is proved by `PortsToScanShape`. |
| `Scanner.PortsToScan` | network_scanner.py:78 | No contract; defined as `AllPorts()` when `all_ports` is set, otherwise `COMMON_PORTS`. Its meaning is proved by `PortsToScanShape`. |
| `Scanner.PortsToScanShape` | network_scanner.py:78 | Both port sets are strictly increasing and lie within 1..65535. With `all_ports` set, every port 1..65535 is included. |
| `Scanner.PingIp` | network_scanner.py:19-27 | `ping_ip` is true exactly when ping exits with status 0. A timeout gives false. Any other exception propagates. |
| `Scanner.ResolveHostname` | network_scanner.py:30-35 | `resolve_hostname` returns the name, or `"Hostname not found"` on `herror`. It raises on any other exception. |
| `Scanner.CheckPort` | network_scanner.py:54-61 | `check_port` returns the port exactly when the connection succeeded, and `None` otherwise. |
| `Scanner.Reported` | network_scanner.py:66-67 | No contract; defined as `if result:` on the value of `check_port`: a port is reported when it connected and is not the falsy port 0. Its meaning is proved by `OpenPortsMeaning`. |
| `Scanner.OpenPorts` | network_scanner.py:65-70 | No contract; defined as the ascending sort of the probed ports, in submission order, that are non-zero and connected. Its meaning is proved by `OpenPortsMeaning` and `OpenPortsStrictlyIncreasing`, and `ScanPorts` is proved equal to it. |
| `Scanner.OpenPortsMeaning` | network_scanner.py:50-70 | The scan result is ascending. It holds a port exactly when that port was probed, is non-zero and connected. Each such port appears as often as it was probed. |
| `Scanner.OpenPortsStrictlyIncreasing` | network_scanner.py:50-70 | When no port is probed twice, each open port is reported once, in strictly increasing order. |
| `Scanner.ScanPorts` | network_scanner.py:50-70 | For every completion order, the result equals `OpenPorts`: sorted, and exactly the probed non-zero ports that connected. |
| `Scanner.ScanPortsDeterministic` | network_scanner.py:63-70 | Two completion orders of one port scan return the same list. |
| `Scanner.Address` | network_scanner.py:82 | No contract; defined as `network + "." + str(i)`. Its meaning is proved by `AddressInjective` and `ScannedAddressIsDottedQuad`. |
| `Scanner.Addresses` | network_scanner.py:81-84 | One address per `i` from `start` to `end` inclusive, in order: the `k`-th is `network + "." + str(start + k)`. There are none when `start > end`. |
| `Scanner.AddressInjective` | network_scanner.py:82 | Two octets give the same address only when they are equal. |
| `Scanner.AddressesDistinct` | network_scanner.py:81-84 | No address is submitted twice. |
| `Scanner.AddressesMember` | network_scanner.py:83 | The submitted addresses are exactly those of the octets `start` to `end`, both ends included. |
| `Scanner.ReversedRangeScansNothing` | network_scanner.py:83 | When `start > end`, nothing is submitted and the scan returns the empty list. |
| `Scanner.Kept` | network_scanner.py:89-105 | No contract; defined as "the ping returned true and the hostname lookup did not raise": the addresses for which an entry is appended. Its use is stated by `RecordsShape` and `ScanReportCensus`. |
| `Scanner.RecordFor` | network_scanner.py:90-98 | No contract; defined as `(ip, hostname, ports)` with `ports` the port scan under `full_scan` and `[]` otherwise. Its meaning is stated by `ScanReportCensus`. |
| `Scanner.Records` | network_scanner.py:86-98 | No contract; defined as the entries appended while the ping results arrive in a given order. Its meaning is proved by `RecordsShape`, `RecordsCount`, `ScanReportCensus` and `ScanReportPermutation`, and `ScanIps` is proved equal to it. |
| `Scanner.RecordsShape` | network_scanner.py:86-98 | The entries follow the completion order. Their addresses are the kept addresses, in that order. Each entry is the one built for its own address. |
| `Scanner.RecordsCount` | network_scanner.py:86-98 | An entry occurs as often as its address completed, provided the address was kept and the entry is the one built for it. Otherwise it occurs zero times. |
| `Scanner.ScanReportCensus` | network_scanner.py:86-107 | For every completion order, each address of the range whose ping succeeded and whose hostname lookup did not raise appears exactly once, and no other address appears. Each entry holds its hostname. Its port list is `[]` without `full_scan`, and otherwise the port scan of `ports_to_scan`. |
| `Scanner.ScanReportPermutation` | network_scanner.py:86-98 | Two completion orders give the same entries, possibly in different orders. |
| `Scanner.ScanIps` | network_scanner.py:73-107 | The returned list is the one built in completion order. It is a reordering of the list built in address order. |
| `Export.CsvName` | network_scanner.py:137 | No contract; defined as `f"{base_filename}_{counter}.csv"`. Its meaning is proved by `CsvNameInjective`, `CsvNamesBelow` and `DefaultFirstFilename`. |
| `Export.DefaultFirstFilename` | network_scanner.py:133-137 | With the default base name, the first file name tried is `scan_result_1.csv`. |
| `Export.CsvNameInjective` | network_scanner.py:137 | Different counters give different file names. |
| `Export.CsvNamesBelow` | network_scanner.py:136-138 | The counters `1 .. c-1` name `c-1` different files, which is why the counter loop ends. |
| `Export.NextFilename` | network_scanner.py:136-140 | The counter is the least `n >= 1` such that `base_n.csv` is not an existing file, and the file name is `base_n.csv`. |
| `Export.PortsCell` | network_scanner.py:147 | No contract; defined as `", ".join(map(str, ports)) if ports else "None"`. Its meaning is proved by `PortsCellRoundTrip` and `PortsCellNoneIffEmpty`. |
| `Export.HEADER` | network_scanner.py:145 | No contract; the header row `["IP Address", "Hostname", "Open Ports"]`. Its place is stated by `CsvTable`. |
| `Export.CsvRow` | network_scanner.py:146-147 | No contract; defined as `[ip, hostname, PortsCell(ports)]`. Its use is stated by `CsvTable`. |
| `Export.IntStrings` | network_scanner.py:147 | `map(str, ports)`: one decimal string per port, in order. |
| `Export.CsvTable` | network_scanner.py:145-147 | The header row `IP Address, Hostname, Open Ports`, then one row `[ip, hostname, ports cell]` per entry, in order. |
| `Export.ExportToCsv` | network_scanner.py:133-147 | The file written is the first unused numbered name, and its rows are `CsvTable(data)`. |
| `Export.JoinSpaced` | network_scanner.py:147 | Joining with `", "` is joining, with `","`, the pieces after the first each preceded by a space. |
| `Export.ParseSpaced` | network_scanner.py:147 | The comma-separated pieces of a rendered port list read back as that list. |
| `Export.PortsCellRoundTrip` | network_scanner.py:147 | Reading the port cell back gives the port list that was rendered, empty lists (`"None"`) included. |
| `Export.PortsCellNoneIffEmpty` | network_scanner.py:147 | The cell is `"None"` exactly when the port list is empty. |

## Left out

- The `ping` subprocess, the Windows/Unix flag switch and the one-second timeout (network_scanner.py:19-27) are OS process I/O. They become the `runPing` oracle, whose answer `PingIp` interprets.
- Socket creation, `connect_ex` and the 0.3-second timeouts (network_scanner.py:38-61) are network I/O. They become the `connects` oracle. Any exception in `check_port` counts as "not connected".
- `scan_single_port` (network_scanner.py:38-47) is never called. It duplicates `check_port`.
- `socket.gethostbyaddr` (network_scanner.py:33) is a DNS call. It becomes the `reverseLookup` oracle.
- The thread pools, their worker counts of 50 and 100, and concurrency in general are not modelled. Only their effect on order is kept, as a completion order: any order that yields every submitted task once.
- Exceptions raised by the thread pool itself, such as failing to start a thread, are not modelled.
- All printing and colours (colorama) are left out. The `except Exception` branch of `scan_ips` is modelled only as "the address is dropped", without the message.
- `input()`, `.strip()` and the `int()` conversion of the two octet answers (network_scanner.py:113, 121-122) are left out. So is the `ValueError` path they lead to. `GetIpRangeAndBase` takes the stripped base answer and the two integers.
- The default arguments of `scan_ips` (`network="172.16.172"`, `full_scan=False`, `all_ports=False`, network_scanner.py:73) and of `scan_ports` (`ports=COMMON_PORTS`, network_scanner.py:50) are not modelled. Every call site passes every argument (network_scanner.py:96, 183), so `ScanIps` and `ScanPorts` take them all.
- `main` and `ask_full_port_scan` (network_scanner.py:151-202) are left out. They are menu flow that only passes the user's answers to `scan_ips` and `export_to_csv`.
- `str.isdigit` and `int` are modelled on ASCII digits only. For a Unicode decimal digit such as `"٣"` both succeed (`int` gives 3), so the source accepts `"٣.٣.٣"` and the model refuses it. For a digit such as `"²"`, `isdigit` is true but `int` raises `ValueError`, so both refuse it.
- The model assumes an interpreter with the 4300-digit limit on `int`: Python 3.11 and later, or the 3.10.7, 3.9.14, 3.8.14 and 3.7.14 security releases and their successors, with the default `sys.get_int_max_str_digits()`. On an older interpreter `int` takes any length, so the source accepts a base of 4301 zeros followed by `".1.1"`, which the model refuses. A program or environment that changes the limit is not modelled either.
- Creating and writing the CSV file and the `csv` module's quoting are filesystem I/O. They are left out: the existing files are a set parameter, and the rows are returned as data. The race between `os.path.exists` and `open` is not modelled.
- `Ping_Test.py` is a top-level script of prompts and pings with no separable logic. It is not part of this model.

Three behaviours of `network_scanner.py` that a reader might not expect, and that the model keeps:

- `scan_ips` returns only the reachable hosts, not one record per address.
- It returns them in completion order, not in ascending address order.
- A start octet above the end octet is accepted rather than refused, and the scan is then empty.
