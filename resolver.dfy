/**
 * macaddr/resolver.go with its platform loaders (macaddr/arp_linux.go,
 * macaddr/arp_darwin.go): the `Resolver` that scanner.go asks for MAC
 * addresses. It keeps an IP to MAC cache and an `arpLoaded` flag. A lookup
 * tries the cache, then the local interfaces, then the ARP table
 * (ensure-loaded, reload), and finally provokes an ARP request and reloads
 * once more. The interface scan, the ARP request and the OS table are what
 * a `MacProbe` records; the mutex is left out (calls are sequential).
 */
module Macaddr {
  import opened Wrappers
  import opened Text
  import opened Entries
  import opened MacAddress
  import opened ArpTable

  /** The loaders this package registers: Linux and the Darwin placeholder. */
  datatype Loader = LinuxProcNetArp | DarwinPlaceholder | NoLoader

  /** The `runtime.GOOS` switch of `NewResolver`; no file of the package assigns a Windows loader. */
  function LoaderFor(p: Platform): Loader {
    match p
    case Linux => LinuxProcNetArp
    case Darwin => DarwinPlaceholder
    case Windows => NoLoader
    case OtherOS => NoLoader
  }

  /** One call of `loadARPTableFunc`, or nothing when there is none. */
  function LoadStep(loader: Loader, st: ArpState, src: ArpSource): ArpState {
    match loader
    case LinuxProcNetArp => LinuxLoad(st, src.procNetArp)
    case DarwinPlaceholder => DarwinLoad(st)
    case NoLoader => st
  }

  /** The state `NewResolver` leaves: one load on an empty cache, or "loaded" with nothing when there is no loader. */
  function Initial(loader: Loader, src: ArpSource): ArpState {
    if loader == NoLoader then ArpState(map[], true)
    else LoadStep(loader, ArpState(map[], false), src)
  }

  /** `ensureARPTableLoaded`: run the loader only when the table is not loaded. */
  function Ensure(loader: Loader, st: ArpState, src: ArpSource): ArpState {
    if st.loaded then st else LoadStep(loader, st, src)
  }

  /** The answer of one lookup and the state it leaves. */
  datatype Lookup = Lookup(mac: string, after: ArpState)

  /** `GetMACAddress`, step by step, as a function of the state and of what the lookup observes. */
  function Resolve(loader: Loader, st: ArpState, ip: string, p: MacProbe): Lookup {
    if CacheGet(st.cache, ip) != "" then Lookup(CacheGet(st.cache, ip), st)
    else if p.localMac != "" then Lookup(p.localMac, st.(cache := st.cache[ip := p.localMac]))
    else
      var s1 := Ensure(loader, st, p.atEnsure);
      if CacheGet(s1.cache, ip) != "" then Lookup(CacheGet(s1.cache, ip), s1)
      else
        var s2 := LoadStep(loader, s1, p.atReload);
        if CacheGet(s2.cache, ip) != "" then Lookup(CacheGet(s2.cache, ip), s2)
        else
          var s3 := LoadStep(loader, s2, p.afterArpRequest);
          Lookup(CacheGet(s3.cache, ip), s3)
  }

  predicate NoEmptyValue(cache: map<string, string>) {
    forall k :: k in cache ==> cache[k] != ""
  }

  /** What a loader leaves behind: keys only added, the flag never cleared, no empty value written. */
  lemma LoadStepMonotone(loader: Loader, st: ArpState, src: ArpSource)
    ensures st.cache.Keys <= LoadStep(loader, st, src).cache.Keys
    ensures st.loaded ==> LoadStep(loader, st, src) == st
    ensures !st.loaded && loader == DarwinPlaceholder ==> LoadStep(loader, st, src).loaded
    ensures NoEmptyValue(st.cache) ==> NoEmptyValue(LoadStep(loader, st, src).cache)
  {
    if loader == LinuxProcNetArp && !st.loaded && src.procNetArp.Some? {
      var body := Body(src.procNetArp.value);
      FoldKeysGrow(st.cache, body, ArpLineEntry);
      if NoEmptyValue(st.cache) {
        forall j | 0 <= j < |body| && ArpLineEntry(body[j]).Some?
          ensures ArpLineEntry(body[j]).value.value != ""
        {
          ArpLineEntryShape(body[j]);
        }
        FoldKeepsValues(st.cache, body, ArpLineEntry, (s: string) => s != "");
      }
    }
  }

  /** A cache hit answers at once and changes nothing: no loader runs. */
  lemma ResolveCacheHit(loader: Loader, st: ArpState, ip: string, p: MacProbe)
    requires ip in st.cache && st.cache[ip] != ""
    ensures Resolve(loader, st, ip, p) == Lookup(st.cache[ip], st)
  {
  }

  /** A miss answered by a local interface stores that MAC under the address and changes nothing else. */
  lemma ResolveLocalInterface(loader: Loader, st: ArpState, ip: string, p: MacProbe)
    requires CacheGet(st.cache, ip) == "" && p.localMac != ""
    ensures Resolve(loader, st, ip, p) == Lookup(p.localMac, ArpState(st.cache[ip := p.localMac], st.loaded))
  {
  }

  /**
   * The answer is always what the cache holds for the address when the lookup
   * returns: "" or `cache[ip]`, never a value absent from the cache.
   */
  lemma ResolveAnswerIsCached(loader: Loader, st: ArpState, ip: string, p: MacProbe)
    ensures var r := Resolve(loader, st, ip, p);
      r.mac == CacheGet(r.after.cache, ip) && (r.mac != "" ==> ip in r.after.cache && r.after.cache[ip] == r.mac)
  {
  }

  /** A lookup only adds keys, never clears `arpLoaded`, and never writes an empty value. */
  lemma ResolveMonotone(loader: Loader, st: ArpState, ip: string, p: MacProbe)
    ensures var r := Resolve(loader, st, ip, p);
      st.cache.Keys <= r.after.cache.Keys && (st.loaded ==> r.after.loaded)
      && (NoEmptyValue(st.cache) ==> NoEmptyValue(r.after.cache))
  {
    var s1 := Ensure(loader, st, p.atEnsure);
    LoadStepMonotone(loader, st, p.atEnsure);
    var s2 := LoadStep(loader, s1, p.atReload);
    LoadStepMonotone(loader, s1, p.atReload);
    LoadStepMonotone(loader, s2, p.afterArpRequest);
  }

  /** Once a lookup has found a MAC, a second lookup of the same address finds it in the cache. */
  lemma ResolveTwice(loader: Loader, st: ArpState, ip: string, p: MacProbe, q: MacProbe)
    requires Resolve(loader, st, ip, p).mac != ""
    ensures var r := Resolve(loader, st, ip, p); Resolve(loader, r.after, ip, q) == r
  {
    var r := Resolve(loader, st, ip, p);
    ResolveAnswerIsCached(loader, st, ip, p);
    ResolveCacheHit(loader, r.after, ip, q);
  }

  /**
   * Once the table is loaded, the reloads (including the one after the ARP
   * request) change nothing: a miss that no local interface answers is "",
   * and the state is unchanged.
   */
  lemma ResolveWhenLoaded(loader: Loader, st: ArpState, ip: string, p: MacProbe)
    requires st.loaded && CacheGet(st.cache, ip) == "" && p.localMac == ""
    ensures Resolve(loader, st, ip, p) == Lookup("", st)
  {
    LoadStepMonotone(loader, st, p.atReload);
    LoadStepMonotone(loader, st, p.afterArpRequest);
  }

  /** `NewResolver`: with no loader the table counts as loaded and the cache is empty; otherwise exactly one load runs. */
  lemma InitialState(p: Platform, src: ArpSource)
    ensures LoaderFor(p) == NoLoader <==> p == Windows || p == OtherOS
    ensures LoaderFor(p) == NoLoader ==> Initial(LoaderFor(p), src) == ArpState(map[], true)
    ensures p == Darwin ==> Initial(LoaderFor(p), src) == ArpState(map[], true)
    ensures p == Linux ==> Initial(LoaderFor(p), src) == LinuxLoad(ArpState(map[], false), src.procNetArp)
  {
  }

  class Resolver {
    var cache: map<string, string>
    var arpLoaded: bool
    const loader: Loader

    function State(): ArpState
      reads this
    {
      ArpState(cache, arpLoaded)
    }

    /** `NewResolver`. */
    constructor (platform: Platform, src: ArpSource)
      ensures loader == LoaderFor(platform)
      ensures State() == Initial(loader, src)
    {
      cache := map[];
      arpLoaded := false;
      loader := LoaderFor(platform);
      new;
      if loader != NoLoader {
        RunLoader(src);
      } else {
        arpLoaded := true;
      }
    }

    /** `loadARPTableFunc(r)`, when there is one. */
    method RunLoader(src: ArpSource)
      modifies this
      ensures State() == LoadStep(loader, old(State()), src)
    {
      match loader
      case LinuxProcNetArp => LoadLinuxArpTable(src.procNetArp);
      case DarwinPlaceholder => LoadDarwinArpTable();
      case NoLoader =>
    }

    /** `loadLinuxARPTable`: skip the header line, then store every valid MAC under its address. */
    method LoadLinuxArpTable(file: Option<seq<string>>)
      modifies this
      ensures State() == LinuxLoad(old(State()), file)
    {
      if arpLoaded {
        return;
      }
      if file.None? {
        return;
      }
      var body := Body(file.value);
      var i := 0;
      while i < |body|
        invariant 0 <= i <= |body|
        invariant !arpLoaded
        invariant cache == Fold(old(cache), body[..i], ArpLineEntry)
      {
        var fields := Fields(body[i]);
        if |fields| >= 4 {
          var ip, mac := fields[0], fields[3];
          if IsValidMac(mac) {
            cache := cache[ip := ToUpper(mac)];
          }
        }
        assert body[..i + 1] == body[..i] + [body[i]];
        FoldSnoc(old(cache), body[..i], body[i], ArpLineEntry);
        i := i + 1;
      }
      assert body[..i] == body;
      arpLoaded := true;
    }

    /** `loadDarwinARPTable`: only marks the table loaded. */
    method LoadDarwinArpTable()
      modifies this
      ensures State() == DarwinLoad(old(State()))
    {
      if arpLoaded {
        return;
      }
      arpLoaded := true;
    }

    /** `getMACFromCache`. */
    function GetMacFromCache(ip: string): string
      reads this
    {
      CacheGet(cache, ip)
    }

    /** `ensureARPTableLoaded`. */
    method EnsureArpTableLoaded(src: ArpSource)
      modifies this
      ensures State() == Ensure(loader, old(State()), src)
    {
      if arpLoaded {
        return;
      }
      if loader != NoLoader {
        RunLoader(src);
      }
    }

    /** `reloadARPTable`: calls the loader again without clearing `arpLoaded`. */
    method ReloadArpTable(src: ArpSource)
      modifies this
      ensures State() == LoadStep(loader, old(State()), src)
    {
      if loader != NoLoader {
        RunLoader(src);
      }
    }

    /** `GetMACAddress`. */
    method GetMacAddress(ip: string, p: MacProbe) returns (mac: string)
      modifies this
      ensures Lookup(mac, State()) == Resolve(loader, old(State()), ip, p)
    {
      mac := GetMacFromCache(ip);
      if mac != "" {
        return;
      }
      if p.localMac != "" {
        cache := cache[ip := p.localMac];
        return p.localMac;
      }
      EnsureArpTableLoaded(p.atEnsure);
      mac := GetMacFromCache(ip);
      if mac != "" {
        return;
      }
      ReloadArpTable(p.atReload);
      mac := GetMacFromCache(ip);
      if mac != "" {
        return;
      }
      // sendARPRequest(ip): its only effect is on the OS table the next load sees.
      ReloadArpTable(p.afterArpRequest);
      mac := GetMacFromCache(ip);
    }
  }
}
