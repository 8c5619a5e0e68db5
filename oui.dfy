/**
 * oui.go: the IEEE OUI registry read into a prefix-to-vendor map, and the
 * lookup of a MAC address's vendor by its first three bytes. The registry
 * file is given as its lines (or `None` when it cannot be opened); the
 * download and the once-only lazy load are left out.
 */
module Oui {
  import opened Wrappers
  import opened Text
  import opened Entries
  import opened IPv4
  import opened MacAddress

  const Base16Marker: string := "(base 16)"
  const InvalidMac: string := "Invalid MAC"

  /** What one registry line does to the map. */
  datatype LineOutcome = Skip | Write(entry: Entry) | Panic

  /**
   * One iteration of the `loadOUICache` loop: a line with "(base 16)" and a
   * tab is split at its first tab; the first field before the tab, with every
   * '-' removed, maps to the trimmed text after it. With nothing but space
   * before the tab, `strings.Fields(parts[0])[0]` indexes an empty slice.
   */
  function OuiLine(line: string): LineOutcome {
    if !HasSubstring(line, Base16Marker) then Skip
    else match IndexOf(line, '\t')
      case None => Skip
      case Some(t) =>
        var fs := Fields(line[..t]);
        if fs == [] then Panic
        else Write(Entry(RemoveChar(fs[0], '-'), TrimSpace(line[t + 1..])))
  }

  function OuiEntry(line: string): Option<Entry> {
    match OuiLine(line)
    case Write(e) => Some(e)
    case _ => None
  }

  /** The index of the first line that panics, if any. */
  function FirstPanic(lines: seq<string>): (r: Option<nat>)
    ensures r.Some? ==> r.value < |lines|
    decreases |lines|
  {
    if lines == [] then None
    else match FirstPanic(lines[..|lines| - 1])
      case Some(i) => Some(i)
      case None => if OuiLine(lines[|lines| - 1]) == Panic then Some(|lines| - 1) else None
  }

  lemma FirstPanicSnoc(lines: seq<string>, line: string)
    ensures FirstPanic(lines + [line]) ==
      if FirstPanic(lines).Some? then FirstPanic(lines)
      else if OuiLine(line) == Panic then Some(|lines|) else None
  {
    assert (lines + [line])[..|lines|] == lines;
  }

  /** A panic found in a prefix is the first panic of the whole file. */
  lemma {:induction false} FirstPanicPrefix(lines: seq<string>, k: nat)
    requires k <= |lines| && FirstPanic(lines[..k]).Some?
    ensures FirstPanic(lines) == FirstPanic(lines[..k])
    decreases |lines| - k
  {
    if k == |lines| {
      assert lines[..k] == lines;
    } else {
      var init := lines[..|lines| - 1];
      assert init[..k] == lines[..k];
      FirstPanicPrefix(init, k);
    }
  }

  /** `FirstPanic` names the line that panics and no earlier one does; `None` means no line panics. */
  lemma {:induction false} FirstPanicIsFirst(lines: seq<string>)
    ensures var r := FirstPanic(lines);
      && (r.Some? ==> OuiLine(lines[r.value]) == Panic && forall j :: 0 <= j < r.value ==> OuiLine(lines[j]) != Panic)
      && (r.None? ==> forall j :: 0 <= j < |lines| ==> OuiLine(lines[j]) != Panic)
    decreases |lines|
  {
    if lines != [] {
      var init := lines[..|lines| - 1];
      FirstPanicIsFirst(init);
      assert forall j :: 0 <= j < |init| ==> init[j] == lines[j];
    }
  }

  /**
   * What `loadOUICache` leaves in `ouiCache`, and whether it panicked (at
   * which line): the entries of every line read before the panic, if any.
   */
  function OuiTable(file: Option<seq<string>>): (map<string, string>, Option<nat>) {
    match file
    case None => (map[], None)
    case Some(lines) =>
      match FirstPanic(lines)
      case None => (Fold(map[], lines, OuiEntry), None)
      case Some(i) => (Fold(map[], lines[..i], OuiEntry), Some(i))
  }

  /** `loadOUICache`, the registry read line by line into a fresh map. */
  method LoadOuiCache(file: Option<seq<string>>) returns (cache: map<string, string>, panicAt: Option<nat>)
    ensures (cache, panicAt) == OuiTable(file)
  {
    cache := map[];
    panicAt := None;
    if file.None? {
      return;
    }
    var lines := file.value;
    var i := 0;
    while i < |lines|
      invariant 0 <= i <= |lines|
      invariant FirstPanic(lines[..i]).None?
      invariant cache == Fold(map[], lines[..i], OuiEntry)
    {
      var line := lines[i];
      var outcome := ScanLine(line);
      match outcome {
        case Skip =>
        case Panic =>
          panicAt := Some(i);
          PanicStops(lines, i);
          return;
        case Write(e) =>
          cache := cache[e.key := e.value];
      }
      LineStep(lines, i);
      i := i + 1;
    }
    assert lines[..i] == lines;
  }

  /** The body of the `loadOUICache` loop for one line, before the map is written. */
  method ScanLine(line: string) returns (outcome: LineOutcome)
    ensures outcome == OuiLine(line)
  {
    if !HasSubstring(line, Base16Marker) {
      return Skip;
    }
    var tab := IndexOf(line, '\t');
    if tab.None? {
      return Skip;
    }
    var fields := Fields(line[..tab.value]);
    if fields == [] {
      return Panic;
    }
    var prefix := RemoveChar(fields[0], '-');
    var vendor := TrimSpace(line[tab.value + 1..]);
    return Write(Entry(prefix, vendor));
  }

  /** One more line read without a panic: its entry, if any, is written over the map so far. */
  lemma LineStep(lines: seq<string>, i: nat)
    requires i < |lines| && FirstPanic(lines[..i]).None? && OuiLine(lines[i]) != Panic
    ensures FirstPanic(lines[..i + 1]).None?
    ensures Fold(map[], lines[..i + 1], OuiEntry) ==
      match OuiLine(lines[i])
      case Write(e) => Fold(map[], lines[..i], OuiEntry)[e.key := e.value]
      case _ => Fold(map[], lines[..i], OuiEntry)
  {
    assert lines[..i + 1] == lines[..i] + [lines[i]];
    FirstPanicSnoc(lines[..i], lines[i]);
    FoldSnoc(map[], lines[..i], lines[i], OuiEntry);
  }

  /** The first line that panics ends the load with the entries of the lines before it. */
  lemma PanicStops(lines: seq<string>, i: nat)
    requires i < |lines| && FirstPanic(lines[..i]).None? && OuiLine(lines[i]) == Panic
    ensures OuiTable(Some(lines)) == (Fold(map[], lines[..i], OuiEntry), Some(i))
  {
    assert lines[..i + 1] == lines[..i] + [lines[i]];
    FirstPanicSnoc(lines[..i], lines[i]);
    FirstPanicPrefix(lines, i + 1);
  }

  /** A line panics exactly when it has the marker and a tab with only space before the first tab. */
  lemma PanicIffBlankPrefix(line: string)
    ensures OuiLine(line) == Panic <==>
      HasSubstring(line, Base16Marker) && '\t' in line && AllSpace(line[..IndexOf(line, '\t').value])
  {
    if HasSubstring(line, Base16Marker) && '\t' in line {
      FieldsEmptyIffAllSpace(line[..IndexOf(line, '\t').value]);
    }
  }

  /** Lines without the marker, or without a tab, change nothing. */
  lemma OnlyMarkedTabbedLinesWrite(line: string)
    ensures OuiLine(line) != Skip <==> HasSubstring(line, Base16Marker) && '\t' in line
  {
  }

  /** Only a line with a tab writes; `t` below is the position of its first tab. */
  lemma WritingLineHasTab(line: string)
    requires OuiLine(line).Write?
    ensures IndexOf(line, '\t').Some?
  {
  }

  /** A written key is the first field before the first tab with its '-' characters removed. */
  lemma WrittenKey(line: string, t: nat)
    requires OuiLine(line).Write? && IndexOf(line, '\t') == Some(t)
    ensures OuiLine(line).entry.key == RemoveChar(Fields(line[..t])[0], '-')
    ensures '-' !in OuiLine(line).entry.key
  {
  }

  /** A written vendor is the text after the first tab without surrounding space. */
  lemma WrittenVendor(line: string, t: nat)
    requires OuiLine(line).Write? && IndexOf(line, '\t') == Some(t)
    ensures OuiLine(line).entry.value == TrimSpace(line[t + 1..])
    ensures var v := OuiLine(line).entry.value; v == [] || (!IsSpace(v[0]) && !IsSpace(v[|v| - 1]))
  {
    TrimSpaceShape(line[t + 1..]);
  }

  lemma EntryIsWrite(line: string, e: Entry)
    requires OuiEntry(line) == Some(e)
    ensures OuiLine(line) == Write(e)
  {
  }

  /**
   * The registry as loaded: every key is written by some line and carries no
   * '-', and the last line that writes a prefix decides its vendor.
   */
  lemma OuiTableLastWins(lines: seq<string>, k: string)
    requires FirstPanic(lines).None?
    ensures var cache := OuiTable(Some(lines)).0;
      && (k in cache <==> LastFor(lines, OuiEntry, k).Some?)
      && (k in cache ==> '-' !in k && OuiLine(lines[LastFor(lines, OuiEntry, k).value]) == Write(Entry(k, cache[k])))
  {
    FoldLastWins(map[], lines, OuiEntry, k);
    var last := LastFor(lines, OuiEntry, k);
    if last.Some? {
      var line := lines[last.value];
      EntryIsWrite(line, OuiEntry(line).value);
      WritingLineHasTab(line);
      WrittenKey(line, IndexOf(line, '\t').value);
    }
  }

  /** Without the file the map is empty, and every lookup answers "" or "Invalid MAC". */
  lemma MissingFileEmptyCache(mac: string)
    ensures OuiTable(None) == (map[], None)
    ensures Mac2Manufacturer(map[], mac) == (if |RemoveChar(mac, ':')| < 6 then InvalidMac else "")
  {
  }

  // ---------------------------------------------------------------- lookup

  /** `macPrefix` before it is cut: colons removed, then upper-cased. */
  function Normalise(mac: string): string {
    ToUpper(RemoveChar(mac, ':'))
  }

  /** `mac2manufacturer`, given the loaded map. */
  function Mac2Manufacturer(cache: map<string, string>, mac: string): (r: string)
    ensures r == InvalidMac || r == "" || r in cache.Values
    ensures r != InvalidMac && r != "" ==>
      var p := Normalise(mac); |p| >= 6 && p[..6] in cache && cache[p[..6]] == r
  {
    var p := Normalise(mac);
    if |p| < 6 then InvalidMac
    else if p[..6] in cache then cache[p[..6]]
    else ""
  }

  /**
   * For a MAC in the form the resolvers produce ("%02X:" six times), the
   * registry key looked up is the first three bytes as six hex digits.
   */
  lemma ColonMacLookup(cache: map<string, string>, bs: seq<byte>)
    requires |bs| == 6
    ensures var k := HexPair(bs[0]) + HexPair(bs[1]) + HexPair(bs[2]);
      Mac2Manufacturer(cache, JoinHex(bs)) == if k in cache then cache[k] else ""
  {
    RemoveColonJoinHex(bs);
    HexDigitsUpper(bs);
    var d := HexDigits(bs);
    assert bs[1..][1..] == bs[2..] && bs[2..][1..] == bs[3..];
    assert HexDigits(bs[2..]) == HexPair(bs[2]) + HexDigits(bs[3..]);
    assert HexDigits(bs[1..]) == HexPair(bs[1]) + HexDigits(bs[2..]);
    assert d == HexPair(bs[0]) + (HexPair(bs[1]) + (HexPair(bs[2]) + HexDigits(bs[3..])));
    assert d[..6] == HexPair(bs[0]) + HexPair(bs[1]) + HexPair(bs[2]);
  }

  /** "Invalid MAC" exactly for short input, as long as no vendor is literally "Invalid MAC". */
  lemma InvalidMacExactly(cache: map<string, string>, mac: string)
    requires forall k :: k in cache ==> cache[k] != InvalidMac
    ensures Mac2Manufacturer(cache, mac) == InvalidMac <==> |RemoveChar(mac, ':')| < 6
  {
  }

  /** Letter case does not matter: a MAC and its upper-case form have the same vendor. */
  lemma CaseInsensitive(cache: map<string, string>, mac: string)
    ensures Mac2Manufacturer(cache, ToUpper(mac)) == Mac2Manufacturer(cache, mac)
  {
    RemoveCharToUpper(mac, ':');
    ToUpperIdempotent(RemoveChar(mac, ':'));
  }

  /**
   * Only colons are removed: a hyphenated MAC ("00-1A-2B-...") keeps a '-' in
   * its prefix, which no key of a loaded registry has, so it finds no vendor.
   */
  lemma HyphenatedMacNotFound(lines: seq<string>, mac: string)
    requires FirstPanic(lines).None?
    requires |mac| >= 6 && ':' !in mac && mac[2] == '-'
    ensures Mac2Manufacturer(OuiTable(Some(lines)).0, mac) == ""
  {
    var p := Normalise(mac);
    assert RemoveChar(mac, ':') == mac;
    assert p[..6][2] == '-';
    OuiTableLastWins(lines, p[..6]);
  }
}
