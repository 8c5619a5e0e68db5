/**
 * The OS neighbour (ARP) table as the MAC resolvers read it, stated as
 * functions of the resolver state: the `/proc/net/arp` text loader of
 * macaddr/arp_linux.go and macaddr_linux.go, the `GetIpNetTable` row decoder
 * of macaddr_windows.go, and the Darwin placeholder of macaddr/arp_darwin.go.
 * Every loader first returns if the table is already loaded, and sets the
 * flag only after a complete pass.
 */
module ArpTable {
  import opened Wrappers
  import opened Text
  import opened IPv4
  import opened Entries
  import opened MacAddress

  /** The two fields every loader reads and writes: the IP to MAC cache and `arpLoaded`. */
  datatype ArpState = ArpState(cache: map<string, string>, loaded: bool)

  /** `runtime.GOOS`, reduced to the cases the resolvers tell apart. */
  datatype Platform = Linux | Windows | Darwin | OtherOS

  /** The buffer `GetIpNetTable` fills: at least its four-byte entry count. */
  type TableBuffer = b: seq<byte> | |b| >= 4 witness [0, 0, 0, 0]

  /**
   * One run of the Windows API calls: whether iphlpapi.dll and its
   * `GetIpNetTable` procedure load, the return codes of the size query and
   * of the fill call, and the bytes the fill call leaves in the buffer.
   */
  datatype IpNetTableCall = IpNetTableCall(procFound: bool, sizeRet: nat, fillRet: nat, buf: TableBuffer)

  /** The neighbour table as one loader call finds it: the lines of /proc/net/arp (None if it cannot be opened) and the Windows call. */
  datatype ArpSource = ArpSource(procNetArp: Option<seq<string>>, ipNetTable: IpNetTableCall)

  /**
   * What one MAC lookup observes outside the resolver: the MAC of a local
   * interface holding the address ("" if none), and the neighbour table at
   * each of the (at most three) loader calls.
   */
  datatype MacProbe = MacProbe(localMac: string, atEnsure: ArpSource, atReload: ArpSource, afterArpRequest: ArpSource)

  /** `getMACFromCache`: the cached MAC, or "" when the address is not cached. */
  function CacheGet(cache: map<string, string>, ip: string): (mac: string)
    ensures mac != "" ==> ip in cache && cache[ip] == mac
    ensures ip in cache ==> mac == cache[ip]
  {
    if ip in cache then cache[ip] else ""
  }

  /** A value a loader may store: non-empty and not the literal all-zero MAC. */
  predicate Storable(mac: string) {
    mac != "" && mac != ZeroMac
  }

  predicate AllStorable(cache: map<string, string>) {
    forall k :: k in cache ==> Storable(cache[k])
  }

  // ================================================================ Linux: /proc/net/arp

  /**
   * One line of /proc/net/arp: with at least four whitespace-separated fields
   * and a valid MAC in the fourth, the first field maps to the upper-cased MAC.
   */
  function ArpLineEntry(line: string): Option<Entry> {
    var f := Fields(line);
    if |f| >= 4 && IsValidMac(f[3]) then Some(Entry(f[0], ToUpper(f[3]))) else None
  }

  /** Every line after the first (the header, which is never parsed). */
  function Body(lines: seq<string>): seq<string> {
    if lines == [] then [] else lines[1..]
  }

  /** `loadLinuxARPTable`, as a function of the state and of the file. */
  function LinuxLoad(st: ArpState, file: Option<seq<string>>): ArpState {
    if st.loaded then st
    else match file
      case None => st
      case Some(lines) => ArpState(Fold(st.cache, Body(lines), ArpLineEntry), true)
  }

  /** A line yields an entry exactly when it has four fields and a valid fourth; the entry is a non-empty key and a storable MAC. */
  lemma ArpLineEntryShape(line: string)
    ensures ArpLineEntry(line).Some? <==> |Fields(line)| >= 4 && IsValidMac(Fields(line)[3])
    ensures ArpLineEntry(line).Some? ==>
      var e := ArpLineEntry(line).value;
      e.key == Fields(line)[0] && e.key != "" && Storable(e.value) && ToUpper(e.value) == e.value
  {
    var f := Fields(line);
    if |f| >= 4 && IsValidMac(f[3]) {
      ValidMacLength(f[3]);
      ToUpperNotZeroMac(f[3]);
      ToUpperIdempotent(f[3]);
    }
  }

  /** The header line is never parsed: whatever it holds, the result is the same. */
  lemma LinuxLoadSkipsHeader(st: ArpState, h1: string, h2: string, rest: seq<string>)
    ensures LinuxLoad(st, Some([h1] + rest)) == LinuxLoad(st, Some([h2] + rest))
  {
    assert Body([h1] + rest) == rest == Body([h2] + rest);
  }

  /** A line with fewer than four fields changes nothing. */
  lemma LinuxLoadIgnoresShortLine(st: ArpState, lines: seq<string>, line: string)
    requires lines != [] && |Fields(line)| < 4
    ensures LinuxLoad(st, Some(lines + [line])) == LinuxLoad(st, Some(lines))
  {
    assert Body(lines + [line]) == Body(lines) + [line];
    FoldSnoc(st.cache, Body(lines), line, ArpLineEntry);
  }

  /**
   * After a load from a readable file, an address's MAC is the one on the
   * last line that gives it a valid MAC; an address no line names keeps its
   * cached value. The flag is set however many lines there are.
   */
  lemma LinuxLoadLastWins(st: ArpState, lines: seq<string>, ip: string)
    requires !st.loaded
    ensures LinuxLoad(st, Some(lines)).loaded
    ensures var last := LastFor(Body(lines), ArpLineEntry, ip);
      last.Some? ==> var f := Fields(Body(lines)[last.value]);
        ip in LinuxLoad(st, Some(lines)).cache && LinuxLoad(st, Some(lines)).cache[ip] == ToUpper(f[3])
    ensures LastFor(Body(lines), ArpLineEntry, ip).None? ==>
      CacheGet(LinuxLoad(st, Some(lines)).cache, ip) == CacheGet(st.cache, ip)
  {
    FoldLastWins(st.cache, Body(lines), ArpLineEntry, ip);
  }

  /** A Linux load never stores an empty value or the all-zero MAC. */
  lemma LinuxLoadStorable(st: ArpState, file: Option<seq<string>>)
    requires AllStorable(st.cache)
    ensures AllStorable(LinuxLoad(st, file).cache)
    ensures st.cache.Keys <= LinuxLoad(st, file).cache.Keys
  {
    if !st.loaded && file.Some? {
      var body := Body(file.value);
      forall j | 0 <= j < |body| && ArpLineEntry(body[j]).Some?
        ensures Storable(ArpLineEntry(body[j]).value.value)
      {
        ArpLineEntryShape(body[j]);
      }
      FoldKeepsValues(st.cache, body, ArpLineEntry, Storable);
      FoldKeysGrow(st.cache, body, ArpLineEntry);
    }
  }

  // ================================================================ Windows: GetIpNetTable

  const NoError: nat := 0
  const ErrorInsufficientBuffer: nat := 122
  /** `unsafe.Sizeof(MIB_IPNETROW{})`: Index, PhysAddrLen, PhysAddr[8], Addr, Type. */
  const RowSize: nat := 24

  /** A `uint32` read from memory on a little-endian machine. */
  function LittleEndian32(b: seq<byte>): nat
    requires |b| == 4
  {
    b[0] as int + 256 * (b[1] as int) + 65536 * (b[2] as int) + 16777216 * (b[3] as int)
  }

  /** The number of rows the table claims: the `uint32` at the start of the buffer. */
  function EntryCount(buf: TableBuffer): nat {
    LittleEndian32(buf[..4])
  }

  /** The number of rows decoded: the claimed count, cut short at the first row that would overrun the buffer. */
  function RowCount(buf: TableBuffer): (n: nat)
    ensures n <= EntryCount(buf) && 4 + RowSize * n <= |buf|
    ensures n == EntryCount(buf) || |buf| < 4 + RowSize * (n + 1)
  {
    var fit := (|buf| - 4) / RowSize;
    if EntryCount(buf) <= fit then EntryCount(buf) else fit
  }

  /** The first `n` rows: row i is the 24 bytes at offset 4 + 24·i. */
  function Rows(buf: seq<byte>, n: nat): (rows: seq<seq<byte>>)
    requires 4 + RowSize * n <= |buf|
    ensures |rows| == n
    ensures forall i :: 0 <= i < n ==> rows[i] == buf[4 + RowSize * i..4 + RowSize * i + RowSize]
  {
    seq(n, i requires 0 <= i < n => buf[4 + RowSize * i..4 + RowSize * i + RowSize])
  }

  /** Rows laid end to end. */
  function Concat(rows: seq<seq<byte>>): (r: seq<byte>)
    decreases |rows|
  {
    if rows == [] then [] else Concat(rows[..|rows| - 1]) + rows[|rows| - 1]
  }

  /**
   * The rows tile the buffer: laid end to end, the first `n` rows are exactly
   * the bytes after the 4-byte count up to 4 + 24·n, with no gap or overlap.
   */
  lemma {:induction false} RowsTile(buf: seq<byte>, n: nat)
    requires 4 + RowSize * n <= |buf|
    ensures |Concat(Rows(buf, n))| == RowSize * n
    ensures Concat(Rows(buf, n)) == buf[4..4 + RowSize * n]
  {
    if n > 0 {
      var rows := Rows(buf, n);
      var lo := 4 + RowSize * (n - 1);
      RowsTile(buf, n - 1);
      assert rows[..n - 1] == Rows(buf, n - 1);
      assert rows[n - 1] == buf[lo..lo + RowSize];
      assert buf[4..lo] + buf[lo..lo + RowSize] == buf[4..4 + RowSize * n];
    }
  }

  /**
   * One `MIB_IPNETROW`: with `PhysAddrLen` 6, the address `Addr` (bytes 16-19,
   * printed low byte first) maps to the six bytes of `PhysAddr` (bytes 8-13)
   * as upper-case hex pairs, unless that text is the all-zero MAC.
   */
  function RowEntry(row: seq<byte>): Option<Entry> {
    if |row| != RowSize || LittleEndian32(row[4..8]) != 6 then None
    else
      var mac := JoinHex(row[8..14]);
      if mac == ZeroMac then None else Some(Entry(FormatIPv4(row[16..20]), mac))
  }

  /** The Windows loader of macaddr_windows.go, as a function of the state and of the API call. */
  function WindowsLoad(st: ArpState, call: IpNetTableCall): ArpState {
    if st.loaded then st
    else if !call.procFound || call.sizeRet != ErrorInsufficientBuffer || call.fillRet != NoError then st
    else ArpState(Fold(st.cache, Rows(call.buf, RowCount(call.buf)), RowEntry), true)
  }

  /**
   * A decoded row's key is the dotted decimal of `Addr` taken low byte first,
   * and its value is a valid six-byte MAC in upper case that parses back to
   * `PhysAddr`.
   */
  lemma RowEntryShape(row: seq<byte>)
    requires RowEntry(row).Some?
    ensures var e := RowEntry(row).value; var a := LittleEndian32(row[16..20]);
      && ParseIPv4(e.key) == Some([a % 256, a / 256 % 256, a / 65536 % 256, a / 16777216])
      && ParseMac(e.value) == Some(row[8..14])
      && Storable(e.value) && IsValidMac(e.value)
  {
    var e := RowEntry(row).value;
    var b := row[16..20];
    ParseFormatIPv4(b);
    ParseJoinHex(row[8..14]);
    LittleEndianBytes(b);
  }

  lemma LittleEndianBytes(b: seq<byte>)
    requires |b| == 4
    ensures var a := LittleEndian32(b); [a % 256, a / 256 % 256, a / 65536 % 256, a / 16777216] == b
  {
    var a := LittleEndian32(b);
    var lo1: int := b[0];
    var lo2: int := b[0] as int + 256 * (b[1] as int);
    var lo3: int := lo2 + 65536 * (b[2] as int);
    var hi1: int := b[1] as int + 256 * (b[2] as int) + 65536 * (b[3] as int);
    var hi2: int := b[2] as int + 256 * (b[3] as int);
    DivMod256(lo1, hi1);
    DivMod256(b[1], b[2] as int + 256 * (b[3] as int));
    DivMod65536(lo2, hi2);
    DivMod256(b[2], b[3]);
    DivMod16777216(lo3, b[3]);
  }

  lemma DivMod256(lo: nat, hi: nat)
    requires lo < 256
    ensures (lo + 256 * hi) % 256 == lo && (lo + 256 * hi) / 256 == hi
  {
  }

  lemma DivMod65536(lo: nat, hi: nat)
    requires lo < 65536
    ensures (lo + 65536 * hi) / 65536 == hi
  {
  }

  lemma DivMod16777216(lo: nat, hi: nat)
    requires lo < 16777216
    ensures (lo + 16777216 * hi) / 16777216 == hi
  {
  }

  /** A Windows load never stores an empty value or the all-zero MAC, and never removes a key. */
  lemma WindowsLoadStorable(st: ArpState, call: IpNetTableCall)
    requires AllStorable(st.cache)
    ensures AllStorable(WindowsLoad(st, call).cache)
    ensures st.cache.Keys <= WindowsLoad(st, call).cache.Keys
  {
    if WindowsLoad(st, call) != st {
      var rows := Rows(call.buf, RowCount(call.buf));
      forall j | 0 <= j < |rows| && RowEntry(rows[j]).Some?
        ensures Storable(RowEntry(rows[j]).value.value)
      {
        RowEntryShape(rows[j]);
      }
      FoldKeepsValues(st.cache, rows, RowEntry, Storable);
      FoldKeysGrow(st.cache, rows, RowEntry);
    }
  }

  // ================================================================ Darwin placeholder

  /** `loadDarwinARPTable`: sets the flag, never touches the cache. */
  function DarwinLoad(st: ArpState): ArpState {
    if st.loaded then st else st.(loaded := true)
  }

  /** The Darwin loader is idempotent, keeps the cache, and always leaves the table loaded. */
  lemma DarwinLoadIdempotent(st: ArpState)
    ensures DarwinLoad(DarwinLoad(st)) == DarwinLoad(st)
    ensures DarwinLoad(st).cache == st.cache && DarwinLoad(st).loaded
  {
  }

  // ================================================================ shared facts

  /** Once the table is loaded, every loader is a no-op; so a reload after a successful load changes nothing. */
  lemma LoadedIsFixpoint(st: ArpState, src: ArpSource)
    requires st.loaded
    ensures LinuxLoad(st, src.procNetArp) == st
    ensures WindowsLoad(st, src.ipNetTable) == st
    ensures DarwinLoad(st) == st
  {
  }

  /** A failed open or a failed API call leaves the state unchanged and the table still unloaded, so a later call retries. */
  lemma FailedLoadRetries(st: ArpState, call: IpNetTableCall)
    requires !st.loaded
    ensures LinuxLoad(st, None) == st && !LinuxLoad(st, None).loaded
    ensures (!call.procFound || call.sizeRet != ErrorInsufficientBuffer || call.fillRet != NoError) ==>
      WindowsLoad(st, call) == st
  {
  }
}
