# Neti network scanner: a verified model of its core

Neti is a LAN scanner written in Go. This is a Dafny model of its core:

- **The address enumerator.** `GetIPsFromSubnet` walks an IPv4 CIDR block with the in-place byte carry of `incrementIP`, then drops the network and broadcast addresses.
- **The scan coordinator.** `ScanSubnet` decides for each address whether the host is reachable, which ports are reported, and whether a MAC and a hostname are filled in. It then counts completions, reports progress and sorts the hosts. `getOpenPorts` and `getOpenUDPPorts` sweep fixed port lists.
- **Two MAC resolvers.**
  - `Resolver` in package `macaddr` is the one the scanner uses. It tries the cache, then the local interfaces, then the ARP table, then a reload, then an ARP request followed by one more reload.
  - The older `MACResolver` in package `main` does the same without the ARP request.
  - Each is a class holding a `cache` map and an `arpLoaded` flag.
- **The platform ARP-table loaders.**
  - The `/proc/net/arp` text parser (two copies).
  - The Windows `GetIpNetTable` buffer decoder.
  - The Darwin placeholder, which only sets the flag.
- **The OUI registry.** `loadOUICache` parses the IEEE "(base 16)" lines. `mac2manufacturer` maps a MAC to its vendor.

Everything that touches the network, the clock or the operating system becomes an input value:
- **Per host:** an ICMP reply flag, the set of TCP ports that accept, the set of UDP ports that reply, and the reverse-DNS answer (`HostOracle`).
- **MAC lookups:** the MAC of a local interface, and snapshots of the ARP sources at each load (`MacProbe`).
- **ARP sources:** the lines of `/proc/net/arp` or an open failure, and the `GetIpNetTable` return codes with the filled buffer (`ArpSource`, `IpNetTableCall`).
- **The OUI file:** its lines, or an open failure.

The platform is a constructor parameter, in place of `runtime.GOOS`.

Modules, one per file:
- `Wrappers`: Option and Result.
- `Text`: Go's `strings.Fields`, `TrimSpace`, `ReplaceAll` and `Contains`, an ASCII-only `ToUpper`, plus decimal and hex digits.
- `IPv4`: the big-endian value of a byte sequence, `incrementIP`, and dotted-decimal formatting and parsing.
- `Entries`: a map filled by a sequence of writes in which the last write wins.
- `MacAddress`: the colon, hyphen and dotted forms of `net.ParseMAC`, `isValidMAC`, and upper-case hex formatting.
- `ArpTable`: the loaders as functions on the state `(cache, loaded)`.
- `Macaddr`: `Resolver`.
- `LegacyMac`: `MACResolver` and its Linux and Windows loaders.
- `Oui`: the OUI registry and vendor lookup.
- `NetScan`: `Scanner`.

The classes' methods are proved against the spec functions: each method's new state equals the function applied to its old state. The properties are proved about those functions.

Three behaviours of the code are worth stating plainly:
- **/31 and /32 blocks are not stripped.** The code drops the first and last address only when more than two addresses were produced. A /31 therefore keeps both of its addresses and a /32 keeps its one (`NetScan.HostAddressCount`).
- **Nothing resets `arpLoaded`.** `reloadARPTable` just calls the loader, and every loader returns at once when the flag is set. A reload after one successful load therefore changes nothing (`ArpTable.LoadedIsFixpoint`, `Macaddr.ResolveWhenLoaded`).
- **The sort comparator is not an order on mixed input.** It compares numerically when both addresses are IPv4, and falls back to string order otherwise. With an address that is not IPv4 in the list, it can be cyclic (`NetScan.ComparatorCycle`).

## Model

| member | source | states |
|---|---|---|
| IPv4.IncrementIP | scanner.go:304-311 | the in-place carry loop leaves exactly `Increment` of the old bytes |
| IPv4.IncrementValue | scanner.go:304-311 | incrementing adds one to the big-endian value modulo 256^len |
| IPv4.IncrementCarry | scanner.go:305-310 | trailing 0xFF bytes become 0x00, the byte before them is bumped, every byte left of it is unchanged |
| IPv4.ParseFormatIPv4 | scanner.go:66 | dotted-decimal formatting of four bytes parses back to the same bytes |
| IPv4.BytesOfValue | scanner.go:175-176 | four bytes are determined by their big-endian value |
| NetScan.ParseCidr | scanner.go:59-62 | a parsed block has a prefix of at most 32 and a four-byte address |
| NetScan.ParseFormatCidr | scanner.go:59-62 | every IPv4 block, written as dotted quad "/" decimal prefix, parses back to itself |
| NetScan.ParseExampleBlock | scanner.go:59-62 | "192.168.1.0/30" parses to the block 192.168.1.0 with prefix 30 |
| NetScan.ParseCidrNoSlash | scanner.go:59-62 | a string without '/' is rejected |
| NetScan.ParseCidrRejects | scanner.go:59-62 | "a/m" is rejected when a is not a dotted-quad IPv4 address, or m is empty, has a non-digit, or exceeds 32 |
| NetScan.ParseCidrAccepts | scanner.go:59-62 | otherwise "a/m" is accepted with a's bytes and m's value |
| NetScan.ContainsIffInBlock | scanner.go:65 | the block contains exactly the values from the masked base to base + 2^(32-p) - 1 |
| NetScan.GuardExact | scanner.go:65 | from the base, the loop guard holds for exactly 2^(32-p) increments (p >= 1) |
| NetScan.ZeroPrefixNeverExits | scanner.go:65 | for /0 every address and its increment are contained, so the loop never exits |
| NetScan.WalkBlock | scanner.go:64-67 | the in-place walk appends the block's addresses in ascending order from the base, one per iteration |
| NetScan.Scanner.GetIPsFromSubnet | scanner.go:58-75 | a malformed CIDR gives an error; otherwise the block's addresses minus first and last when more than two |
| NetScan.HostAddressCount | scanner.go:70-72 | 2^(32-p) - 2 addresses up to /30, two for /31, one for /32 |
| NetScan.HostAddressesAscending | scanner.go:64-72 | the i-th returned address is base + i (+1 when stripped), strictly ascending and inside the block |
| NetScan.Scanner.constructor | scanner.go:49-55 | concurrency 20, timeout 500 ms, TCP and UDP off, a fresh resolver in its initial state |
| NetScan.Scanner.GetOpenPorts | scanner.go:191-205 | the accepting ports among 80, 443, 22, 21, 23, 25, 53, 135, 139, 445, in list order |
| NetScan.Scanner.GetOpenUdpPorts | scanner.go:207-246 | the replying ports among the UDP list, in list order |
| NetScan.OpenAmongMembers | scanner.go:195-201 | a port is reported iff it is in the list and open |
| NetScan.OpenAmongOrder | scanner.go:195-201 | the reported ports are a subsequence of the list |
| NetScan.OpenAmongDistinct | scanner.go:195-201 | a list without repeats gives a report without repeats |
| NetScan.PortListsDistinct | scanner.go:192-193 | neither list repeats a port; 53 is the only port on both |
| NetScan.ReachableIffIcmpOrTcp | scanner.go:110-125 | reachable iff ICMP replied or TCP found a port; UDP is probed only when enabled and ICMP or TCP succeeded |
| NetScan.OpenPortsOrder | scanner.go:121-122 | open ports are the TCP hits in list order followed by the UDP hits, each without repeats |
| NetScan.DnsPortTwice | scanner.go:121-122 | port 53 open on TCP and UDP appears twice in the list |
| NetScan.HostnameSpec | scanner.go:134-139 | hostname is the first reverse name minus one trailing dot, empty on error or no names |
| NetScan.ScanHostSpec | scanner.go:97-151 | a host record exactly when reachable, for that address, matching its probes; MAC and name only after an ICMP reply; the resolver only grows |
| NetScan.Scanner.ScanOne | scanner.go:97-151 | one pipeline's record and resolver state are those of `ScanHost` |
| NetScan.ScanAllKeepsReachable | scanner.go:87-167 | the scan keeps exactly the reachable addresses, in input order |
| NetScan.ScanAllRecordsMatch | scanner.go:127-151 | every kept record carries its own host's ports, MAC rule and hostname rule |
| NetScan.ScanAllResolverGrows | scanner.go:127-130 | across a scan the resolver's keys only grow, the flag stays set, no empty MAC is stored |
| NetScan.FoundCount | scanner.go:143-151 | the number of hosts found is the number of reachable addresses |
| NetScan.ProgressLogSpec | scanner.go:157-163 | the callback sees completed = 1..total in order, with found <= completed and found non-decreasing |
| NetScan.FoundBounds | scanner.go:157-163 | hosts found among the first k addresses are at most k and at most the final count |
| NetScan.Scanner.ScanSubnet | scanner.go:78-188 | result is the sorted sequential scan with Total = Completed = len(ips), and the progress log when a callback is given |
| NetScan.SortHostsSpec | scanner.go:170-181 | the sorted hosts are a permutation of the found hosts; when all are IPv4, ascending by numeric value |
| NetScan.InsertSorted | scanner.go:170-181 | inserting an IPv4 host into a numerically sorted list keeps it sorted |
| NetScan.ComparatorCycle | scanner.go:170-181 | on mixed input the comparator is cyclic: 2.0.0.0 < 10.0.0.0 < "1x" < 2.0.0.0 |
| MacAddress.ParseJoinHex | macaddr_windows.go:97-100 | the upper-case colon form of six bytes parses back to those bytes |
| MacAddress.HyphenatedZeroIsValid | macaddr/arp_linux.go:52-55 | the zero check is a literal string comparison, so "00-00-00-00-00-00" is valid |
| MacAddress.ValidMacLength | macaddr.go:164-167 | a string `isValidMAC` accepts has at least 14 characters |
| ArpTable.CacheGet | macaddr/resolver.go:101-108 | returns the cached MAC, or "" when the address is absent |
| ArpTable.ArpLineEntryShape | macaddr/arp_linux.go:37-45 | a line writes iff it has at least four fields and field 3 is a valid MAC; the write is field 0 mapped to upper-case field 3 |
| ArpTable.LinuxLoadSkipsHeader | macaddr/arp_linux.go:35 | the first line never affects the load |
| ArpTable.LinuxLoadIgnoresShortLine | macaddr/arp_linux.go:40 | a line with fewer than four fields changes nothing |
| ArpTable.LinuxLoadLastWins | macaddr/arp_linux.go:37-49 | after a load the flag is set; an address maps to the entry of its last valid line, else keeps its old value |
| ArpTable.LinuxLoadStorable | macaddr/arp_linux.go:43-45 | the load never stores the colon zero MAC or an empty string, and only adds keys |
| ArpTable.RowCount | macaddr_windows.go:76-83 | rows decoded = the claimed count, or fewer when the next row would overrun the buffer |
| ArpTable.RowsTile | macaddr_windows.go:76-85 | the decoded rows, laid end to end, are exactly the bytes after the 4-byte count up to 4 + 24*n, with no gap or overlap |
| ArpTable.RowEntryShape | macaddr_windows.go:88-105 | a stored row gives the address bytes low to high and the six MAC bytes, which is valid and not zero |
| ArpTable.WindowsLoadStorable | macaddr_windows.go:97-105 | the Windows load never stores the zero MAC and only adds keys |
| ArpTable.DarwinLoadIdempotent | macaddr/arp_darwin.go:12-27 | the placeholder sets the flag, leaves the cache alone, and is idempotent |
| ArpTable.LoadedIsFixpoint | macaddr/arp_linux.go:24-26 | once loaded, every loader leaves cache and flag unchanged |
| ArpTable.FailedLoadRetries | macaddr_windows.go:57-69 | an open failure or a failed size/fill call leaves the state unchanged and unloaded |
| Entries.FoldLastWins | macaddr/arp_linux.go:37-45 | after a fill, a key holds the value of its last write, or its old value if never written |
| Entries.FoldKeysGrow | macaddr/arp_linux.go:37-45 | a fill never removes a key |
| Macaddr.Resolver.constructor | macaddr/resolver.go:33-58 | the platform picks the loader; the loader runs once, or with none the flag is set over an empty cache |
| Macaddr.InitialState | macaddr/resolver.go:33-58 | no loader on Windows and other platforms: loaded, empty; Darwin: loaded, empty; Linux: one Linux load |
| Macaddr.Resolver.LoadLinuxArpTable | macaddr/arp_linux.go:19-50 | the line loop leaves exactly the Linux load of the old state |
| Macaddr.Resolver.LoadDarwinArpTable | macaddr/arp_darwin.go:12-27 | the placeholder leaves exactly the Darwin load of the old state |
| Macaddr.Resolver.EnsureArpTableLoaded | macaddr/resolver.go:119-132 | the loader runs only when the flag is clear |
| Macaddr.Resolver.ReloadArpTable | macaddr/resolver.go:135-140 | reload runs the loader without clearing the flag |
| Macaddr.Resolver.GetMacAddress | macaddr/resolver.go:61-98 | the answer and new state are the step sequence `Resolve` |
| Macaddr.LoadStepMonotone | macaddr/resolver.go:119-140 | a load only adds keys, is a no-op when loaded, and keeps the cache free of empty MACs |
| Macaddr.ResolveCacheHit | macaddr/resolver.go:62-65 | a cache hit returns the cached MAC and changes nothing |
| Macaddr.ResolveLocalInterface | macaddr/resolver.go:69-75 | on a miss, a local interface MAC is stored and returned |
| Macaddr.ResolveAnswerIsCached | macaddr/resolver.go:61-98 | the answer is "" or the value now cached for the address |
| Macaddr.ResolveMonotone | macaddr/resolver.go:61-140 | a lookup never removes keys, never clears the flag, never stores "" |
| Macaddr.ResolveTwice | macaddr/resolver.go:63-64 | after a non-empty answer, a second lookup is a cache hit with the same answer |
| Macaddr.ResolveWhenLoaded | macaddr/resolver.go:78-97 | once loaded, a miss with no local MAC returns "" and changes nothing |
| LegacyMac.MacResolver.constructor | macaddr.go:38-63 | the platform picks the loader; the loader runs once, or with none the flag is set over an empty cache |
| LegacyMac.MacResolver.LoadLinuxArpTable | macaddr_linux.go:19-50 | the line loop leaves exactly the Linux load of the old state |
| LegacyMac.MacResolver.LoadWindowsArpTable | macaddr_windows.go:34-110 | the row loop leaves exactly the Windows decode of the old state; flag set only after the loop |
| LegacyMac.MacResolver.EnsureArpTableLoaded | macaddr.go:108-121 | the loader runs only when the flag is clear |
| LegacyMac.MacResolver.ReloadArpTable | macaddr.go:124-129 | reload runs the loader without clearing the flag |
| LegacyMac.MacResolver.GetMacAddress | macaddr.go:66-95 | the answer and new state are the legacy step sequence, ending in the final cache lookup |
| LegacyMac.LoadStepMonotone | macaddr.go:108-129 | a Linux or Windows load only adds keys, is a no-op when loaded, stores no empty MAC |
| LegacyMac.ResolveCacheHit | macaddr.go:68-70 | a cache hit returns the cached MAC and changes nothing |
| LegacyMac.ResolveLocalInterface | macaddr.go:74-80 | on a miss, a local interface MAC is stored and returned |
| LegacyMac.ResolveAnswerIsCached | macaddr.go:82-94 | the answer is "" or the value now cached for the address |
| LegacyMac.ResolveMonotone | macaddr.go:66-129 | a lookup never removes keys, never clears the flag, never stores "" |
| LegacyMac.AgreesWithPackageResolver | macaddr.go:66-95 | on Linux, whenever the legacy resolver finds a MAC, the package resolver gives the same answer and state |
| LegacyMac.FallbackCanFind | macaddr.go:82-94 | the legacy resolver returns "" where the ARP-request fallback of the package resolver finds the MAC |
| Oui.LoadOuiCache | oui.go:56-86 | the line loop leaves exactly `OuiTable`: the fill up to the first panicking line, and where it panicked |
| Oui.FirstPanicIsFirst | oui.go:79 | the reported panic line panics and no earlier line does |
| Oui.PanicIffBlankPrefix | oui.go:69-79 | a line panics iff it has the marker and a tab and only whitespace before the tab |
| Oui.OnlyMarkedTabbedLinesWrite | oui.go:69-76 | only lines with "(base 16)" and a tab do anything |
| Oui.WrittenKey | oui.go:78-80 | the key is the first field before the first tab with every "-" removed |
| Oui.WrittenVendor | oui.go:83 | the vendor is the text after the first tab, trimmed of surrounding whitespace |
| Oui.OuiTableLastWins | oui.go:66-85 | a key is present iff some line writes it, and holds the vendor of its last such line |
| Oui.MissingFileEmptyCache | oui.go:57-63 | with no file the cache is empty: every lookup is "" or "Invalid MAC" |
| Oui.Mac2Manufacturer | oui.go:89-105 | the result is "Invalid MAC", "" or a vendor of the cache, and a vendor only when it is stored under the first six characters of the colon-stripped, upper-cased MAC |
| Oui.ColonMacLookup | oui.go:94-104 | for a MAC in the resolvers' "%02X:" form, the key looked up is the first three bytes as six hex digits |
| Oui.InvalidMacExactly | oui.go:95-98 | "Invalid MAC" exactly when fewer than six characters remain after removing colons |
| Oui.CaseInsensitive | oui.go:94 | lower- and upper-case forms of a MAC give the same result |
| Oui.HyphenatedMacNotFound | oui.go:94 | a hyphenated MAC keeps its "-", so it never matches a loaded key |

## Left out

- Goroutines, the wait group, the semaphore and the mutexes. The scan and the resolvers are modelled sequentially: each host's pipeline runs to completion in input order, and the loaders' double-checked locking becomes a single flag test.
- `pingIP`, TCP dials, UDP send/receive with deadlines and retries, `net.LookupAddr`, `net.Interfaces` and `sendARPRequest` are network calls. Their outcomes are inputs (`HostOracle`, `MacProbe`), and the timing fields `ProcessTime` and `ICMPResponseTime` are not modelled.
- Snapshots of the ARP table: the model takes one snapshot of the OS table for each loader call, and nothing in it models how the kernel fills the table.
- `updateOUIFile` (HTTP download and file creation) and the `sync.Once` guard around `loadOUICache` are I/O and concurrency. `Oui.Mac2Manufacturer` takes the loaded cache as a parameter.
- Library parsing: `net.ParseCIDR` and the comparator's `net.ParseIP(...).To4()` are modelled for IPv4 dotted-decimal text only. IPv6 and IPv4-in-IPv6 forms (such as "::ffff:1.0.0.0") are not modelled.
- `MacAddress.IsValidMac` models the colon, hyphen and dotted (`0000.0000.0000`) forms of `net.ParseMAC` with 6, 8 or 20 bytes, as Go does. Nothing else of `net.ParseMAC` is modelled.
- `bufio.Scanner`: the file is a sequence of lines, and its 64 KiB token limit is not modelled. Characters are Unicode code points, and nothing models bytes that are not valid UTF-8.
- DLL loading and the `unsafe` casts in `loadWindowsARPTable`:
  - the calls' return codes and the filled buffer are inputs;
  - the buffer is read little-endian;
  - the buffer is at least four bytes long.
- The Windows loader exists only for `MACResolver`, because package `macaddr` has no Windows file. The Darwin loader exists only for `Resolver`, because package `main` has no Darwin file. A platform without a loader is marked loaded at construction.
- NetScan.Scanner.GetIPsFromSubnet: requires a nonzero prefix, because for /0 the source's loop never terminates (`NetScan.ZeroPrefixNeverExits` proves the guard always holds).
- NetScan.SortHostsSpec: `sort.Slice` is an unstable pattern-defeating quicksort, and the model sorts by insertion. Ordering is proved only when every address is dotted-decimal IPv4 text. Go's comparator also treats IPv4-mapped IPv6 text as IPv4 (`To4` returns its four bytes), while the model orders such text as a string: for the hosts "2.0.0.0" and "::ffff:1.0.0.0", Go puts the second first and the model the first. `GetIPsFromSubnet` only produces dotted-decimal text, so a scan never sorts such an address. On equal keys, and on mixed input where the comparator is not an order, the model's arrangement need not be the one Go produces.
- Oui.Mac2Manufacturer: upper-casing maps ASCII letters only, while Go's `strings.ToUpper` also maps non-ASCII letters. The length guard counts characters, while Go's `len` counts UTF-8 bytes. On non-ASCII input the model can therefore differ: for "ééé" the model says "Invalid MAC", while Go looks up "ÉÉÉ" (6 bytes) and returns "". On ASCII input the two agree.
- NetScan.ProgressLogSpec: the per-step found values, and found <= completed, hold for the sequential schedule only. In the program a host is appended in one locked section and `completed` is counted in a later one. Two reachable hosts can both append before either counts, so the first callback can report (1, total, 2). The final counts, and the set and order of the returned hosts, do not depend on the schedule.
- The OUI panic on a line whose text before the tab is all whitespace is an outcome of the model (`Oui.LoadOuiCache` returns where it stopped) rather than a crash of the process.
- `ui.go` and `main.go` (console output and argument handling) are not part of this model.
