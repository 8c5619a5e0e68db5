/**
 * macaddr.go with its loaders macaddr_linux.go and macaddr_windows.go: the
 * older `MACResolver` of the main package. It has the same cache, flag and
 * lookup steps as the `macaddr` package's resolver, minus the final ARP
 * request: after the reload the answer is whatever the cache holds.
 */
module LegacyMac {
  import opened Wrappers
  import opened Text
  import opened IPv4
  import opened Entries
  import opened MacAddress
  import opened ArpTable
  import Macaddr

  /** The loaders the main package registers: Linux and Windows (no file of it assigns a Darwin loader). */
  datatype Loader = LinuxProcNetArp | WindowsIpNetTable | NoLoader

  /** The `runtime.GOOS` switch of `NewMACResolver`. */
  function LoaderFor(p: Platform): Loader {
    match p
    case Linux => LinuxProcNetArp
    case Windows => WindowsIpNetTable
    case Darwin => NoLoader
    case OtherOS => NoLoader
  }

  function LoadStep(loader: Loader, st: ArpState, src: ArpSource): ArpState {
    match loader
    case LinuxProcNetArp => LinuxLoad(st, src.procNetArp)
    case WindowsIpNetTable => WindowsLoad(st, src.ipNetTable)
    case NoLoader => st
  }

  function Initial(loader: Loader, src: ArpSource): ArpState {
    if loader == NoLoader then ArpState(map[], true)
    else LoadStep(loader, ArpState(map[], false), src)
  }

  function Ensure(loader: Loader, st: ArpState, src: ArpSource): ArpState {
    if st.loaded then st else LoadStep(loader, st, src)
  }

  /** `GetMACAddress` of macaddr.go; `afterArpRequest` of the probe is never consulted. */
  function Resolve(loader: Loader, st: ArpState, ip: string, p: MacProbe): Macaddr.Lookup {
    if CacheGet(st.cache, ip) != "" then Macaddr.Lookup(CacheGet(st.cache, ip), st)
    else if p.localMac != "" then Macaddr.Lookup(p.localMac, st.(cache := st.cache[ip := p.localMac]))
    else
      var s1 := Ensure(loader, st, p.atEnsure);
      if CacheGet(s1.cache, ip) != "" then Macaddr.Lookup(CacheGet(s1.cache, ip), s1)
      else
        var s2 := LoadStep(loader, s1, p.atReload);
        Macaddr.Lookup(CacheGet(s2.cache, ip), s2)
  }

  lemma LoadStepMonotone(loader: Loader, st: ArpState, src: ArpSource)
    ensures st.cache.Keys <= LoadStep(loader, st, src).cache.Keys
    ensures st.loaded ==> LoadStep(loader, st, src) == st
    ensures Macaddr.NoEmptyValue(st.cache) ==> Macaddr.NoEmptyValue(LoadStep(loader, st, src).cache)
  {
    var empty := (s: string) => s != "";
    if loader == LinuxProcNetArp && !st.loaded && src.procNetArp.Some? {
      var body := Body(src.procNetArp.value);
      FoldKeysGrow(st.cache, body, ArpLineEntry);
      if Macaddr.NoEmptyValue(st.cache) {
        forall j | 0 <= j < |body| && ArpLineEntry(body[j]).Some?
          ensures ArpLineEntry(body[j]).value.value != ""
        {
          ArpLineEntryShape(body[j]);
        }
        FoldKeepsValues(st.cache, body, ArpLineEntry, empty);
      }
    }
    if loader == WindowsIpNetTable && WindowsLoad(st, src.ipNetTable) != st {
      var buf := src.ipNetTable.buf;
      var rows := Rows(buf, RowCount(buf));
      FoldKeysGrow(st.cache, rows, RowEntry);
      if Macaddr.NoEmptyValue(st.cache) {
        forall j | 0 <= j < |rows| && RowEntry(rows[j]).Some?
          ensures RowEntry(rows[j]).value.value != ""
        {
          RowEntryShape(rows[j]);
        }
        FoldKeepsValues(st.cache, rows, RowEntry, empty);
      }
    }
  }

  /** A cache hit answers at once without calling any loader. */
  lemma ResolveCacheHit(loader: Loader, st: ArpState, ip: string, p: MacProbe)
    requires ip in st.cache && st.cache[ip] != ""
    ensures Resolve(loader, st, ip, p) == Macaddr.Lookup(st.cache[ip], st)
  {
  }

  /** A miss answered by a local interface stores that MAC and returns it. */
  lemma ResolveLocalInterface(loader: Loader, st: ArpState, ip: string, p: MacProbe)
    requires CacheGet(st.cache, ip) == "" && p.localMac != ""
    ensures Resolve(loader, st, ip, p) == Macaddr.Lookup(p.localMac, ArpState(st.cache[ip := p.localMac], st.loaded))
  {
  }

  /** The answer after the reload is the final cache lookup: "" or `cache[ip]`. */
  lemma ResolveAnswerIsCached(loader: Loader, st: ArpState, ip: string, p: MacProbe)
    ensures var r := Resolve(loader, st, ip, p);
      r.mac == CacheGet(r.after.cache, ip) && (r.mac != "" ==> ip in r.after.cache && r.after.cache[ip] == r.mac)
  {
  }

  /** A lookup only adds keys, never clears `arpLoaded`, and never writes an empty value. */
  lemma ResolveMonotone(loader: Loader, st: ArpState, ip: string, p: MacProbe)
    ensures var r := Resolve(loader, st, ip, p);
      st.cache.Keys <= r.after.cache.Keys && (st.loaded ==> r.after.loaded)
      && (Macaddr.NoEmptyValue(st.cache) ==> Macaddr.NoEmptyValue(r.after.cache))
  {
    var s1 := Ensure(loader, st, p.atEnsure);
    LoadStepMonotone(loader, st, p.atEnsure);
    LoadStepMonotone(loader, s1, p.atReload);
  }

  /**
   * Without the ARP-request fallback the old resolver can miss where the
   * package resolver finds a MAC; whenever the old one does find a MAC, the
   * package resolver (with the same Linux loader) answers the same and
   * leaves the same state.
   */
  lemma AgreesWithPackageResolver(st: ArpState, ip: string, p: MacProbe)
    requires Resolve(LinuxProcNetArp, st, ip, p).mac != ""
    ensures Macaddr.Resolve(Macaddr.LinuxProcNetArp, st, ip, p) == Resolve(LinuxProcNetArp, st, ip, p)
  {
  }

  /**
   * The package resolver's load after its ARP request can find what this
   * resolver misses: when the first two reads of the table fail and the
   * third lists the address, only the package resolver answers.
   */
  lemma FallbackCanFind(st: ArpState, ip: string, p: MacProbe)
    requires !st.loaded && CacheGet(st.cache, ip) == "" && p.localMac == ""
    requires p.atEnsure.procNetArp.None? && p.atReload.procNetArp.None?
    requires p.afterArpRequest.procNetArp.Some?
    requires LastFor(Body(p.afterArpRequest.procNetArp.value), ArpLineEntry, ip).Some?
    ensures Resolve(LinuxProcNetArp, st, ip, p) == Macaddr.Lookup("", st)
    ensures Macaddr.Resolve(Macaddr.LinuxProcNetArp, st, ip, p).mac != ""
  {
    var body := Body(p.afterArpRequest.procNetArp.value);
    FoldLastWins(st.cache, body, ArpLineEntry, ip);
    ArpLineEntryShape(body[LastFor(body, ArpLineEntry, ip).value]);
  }

  class MacResolver {
    var cache: map<string, string>
    var arpLoaded: bool
    const loader: Loader

    function State(): ArpState
      reads this
    {
      ArpState(cache, arpLoaded)
    }

    /** `NewMACResolver`. */
    constructor (platform: Platform, src: ArpSource)
      ensures loader == LoaderFor(platform)
      ensures State() == Initial(loader, src)
    {
      cache := map[];
      arpLoaded := false;
      loader := LoaderFor(platform);
      new;
      if loader != NoLoader {
        RunLoader(src);
      } else {
        arpLoaded := true;
      }
    }

    method RunLoader(src: ArpSource)
      modifies this
      ensures State() == LoadStep(loader, old(State()), src)
    {
      match loader
      case LinuxProcNetArp => LoadLinuxArpTable(src.procNetArp);
      case WindowsIpNetTable => LoadWindowsArpTable(src.ipNetTable);
      case NoLoader =>
    }

    /** `loadLinuxARPTable` of macaddr_linux.go. */
    method LoadLinuxArpTable(file: Option<seq<string>>)
      modifies this
      ensures State() == LinuxLoad(old(State()), file)
    {
      if arpLoaded {
        return;
      }
      if file.None? {
        return;
      }
      var body := Body(file.value);
      var i := 0;
      while i < |body|
        invariant 0 <= i <= |body|
        invariant !arpLoaded
        invariant cache == Fold(old(cache), body[..i], ArpLineEntry)
      {
        var fields := Fields(body[i]);
        if |fields| >= 4 {
          var ip, mac := fields[0], fields[3];
          if IsValidMac(mac) {
            cache := cache[ip := ToUpper(mac)];
          }
        }
        assert body[..i + 1] == body[..i] + [body[i]];
        FoldSnoc(old(cache), body[..i], body[i], ArpLineEntry);
        i := i + 1;
      }
      assert body[..i] == body;
      arpLoaded := true;
    }

    /**
     * `loadWindowsARPTable`: after the two `GetIpNetTable` calls succeed,
     * decode up to `count` rows of 24 bytes after the 4-byte count, stopping
     * at the first row that would overrun the buffer.
     */
    method LoadWindowsArpTable(call: IpNetTableCall)
      modifies this
      ensures State() == WindowsLoad(old(State()), call)
    {
      if arpLoaded {
        return;
      }
      if !call.procFound {
        return;
      }
      if call.sizeRet != ErrorInsufficientBuffer {
        return;
      }
      if call.fillRet != NoError {
        return;
      }
      var buf := call.buf;
      var count := LittleEndian32(buf[..4]);
      ghost var start := cache;
      var i := 0;
      while i < count
        invariant i <= RowCount(buf)
        invariant cache == Fold(start, Rows(buf, i), RowEntry)
      {
        var offset := 4 + i * RowSize;
        if offset + RowSize > |buf| {
          break;
        }
        var row := buf[offset..offset + RowSize];
        var entry := DecodeRow(row);
        if entry.Some? {
          cache := cache[entry.value.key := entry.value.value];
        }
        RowStep(start, buf, i);
        i := i + 1;
      }
      RowsDone(buf, i, count);
      arpLoaded := true;
    }

    function GetMacFromCache(ip: string): string
      reads this
    {
      CacheGet(cache, ip)
    }

    method EnsureArpTableLoaded(src: ArpSource)
      modifies this
      ensures State() == Ensure(loader, old(State()), src)
    {
      if arpLoaded {
        return;
      }
      if loader != NoLoader {
        RunLoader(src);
      }
    }

    method ReloadArpTable(src: ArpSource)
      modifies this
      ensures State() == LoadStep(loader, old(State()), src)
    {
      if loader != NoLoader {
        RunLoader(src);
      }
    }

    /** `GetMACAddress` of macaddr.go. */
    method GetMacAddress(ip: string, p: MacProbe) returns (mac: string)
      modifies this
      ensures Macaddr.Lookup(mac, State()) == Resolve(loader, old(State()), ip, p)
    {
      mac := GetMacFromCache(ip);
      if mac != "" {
        return;
      }
      if p.localMac != "" {
        cache := cache[ip := p.localMac];
        return p.localMac;
      }
      EnsureArpTableLoaded(p.atEnsure);
      mac := GetMacFromCache(ip);
      if mac != "" {
        return;
      }
      ReloadArpTable(p.atReload);
      mac := GetMacFromCache(ip);
    }
  }

  /** The body of the `loadWindowsARPTable` loop for one row, before the map is written. */
  method DecodeRow(row: seq<byte>) returns (entry: Option<Entry>)
    requires |row| == RowSize
    ensures entry == RowEntry(row)
  {
    var ipStr := FormatIPv4(row[16..20]);
    if LittleEndian32(row[4..8]) == 6 {
      var mac := JoinHex(row[8..14]);
      if mac != ZeroMac {
        return Some(Entry(ipStr, mac));
      }
    }
    return None;
  }

  /** Decoding one more row writes its entry, if any, over the map so far. */
  lemma RowStep(m: map<string, string>, buf: seq<byte>, i: nat)
    requires 4 + RowSize * (i + 1) <= |buf|
    ensures var row := buf[4 + i * RowSize..4 + i * RowSize + RowSize];
      Fold(m, Rows(buf, i + 1), RowEntry) ==
        match RowEntry(row)
        case None => Fold(m, Rows(buf, i), RowEntry)
        case Some(e) => Fold(m, Rows(buf, i), RowEntry)[e.key := e.value]
  {
    RowsSnoc(buf, i);
    FoldSnoc(m, Rows(buf, i), buf[4 + i * RowSize..4 + i * RowSize + RowSize], RowEntry);
  }

  /** The loop stops after the claimed count, or at the first row that would overrun: after `RowCount` rows. */
  lemma RowsDone(buf: TableBuffer, i: nat, count: nat)
    requires count == LittleEndian32(buf[..4]) && i <= RowCount(buf)
    requires i >= count || 4 + i * RowSize + RowSize > |buf|
    ensures i == RowCount(buf)
  {
  }

  lemma RowsSnoc(buf: seq<byte>, i: nat)
    requires 4 + RowSize * (i + 1) <= |buf|
    ensures Rows(buf, i + 1) == Rows(buf, i) + [buf[4 + i * RowSize..4 + i * RowSize + RowSize]]
  {
  }
}
