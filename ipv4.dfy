/**
 * IPv4 addresses as Go's `net.IP` holds them: a slice of bytes, most
 * significant first. The in-place increment of scanner.go's `incrementIP`,
 * the dotted-decimal form of `IP.String`, and the IPv4 branch of `net.ParseIP`.
 */
module IPv4 {
  import opened Wrappers
  import opened Text

  type byte = x: int | 0 <= x < 256

  const Two32: nat := 0x1_0000_0000

  function Pow256(n: nat): (p: nat)
    ensures p >= 1
  {
    if n == 0 then 1 else 256 * Pow256(n - 1)
  }

  /** The big-endian value of a byte string (`binary.BigEndian.Uint32` for four bytes). */
  function ValueOf(s: seq<byte>): nat {
    if s == [] then 0 else ValueOf(s[..|s| - 1]) * 256 + s[|s| - 1]
  }

  lemma {:induction false} ValueBound(s: seq<byte>)
    ensures ValueOf(s) < Pow256(|s|)
  {
    if s != [] {
      ValueBound(s[..|s| - 1]);
    }
  }

  // ---------------------------------------------------------------- increment

  /** Add one with carry, starting at the last byte; an all-0xFF string wraps to all zeros. */
  function Increment(s: seq<byte>): (r: seq<byte>)
    ensures |r| == |s|
  {
    if s == [] then []
    else if s[|s| - 1] == 255 then Increment(s[..|s| - 1]) + [0]
    else s[..|s| - 1] + [s[|s| - 1] + 1]
  }

  lemma ModBelow(x: nat, m: nat)
    requires x < m
    ensures x % m == x
  {
  }

  lemma ModSelf(m: nat)
    requires m > 0
    ensures m % m == 0
  {
  }

  /** Increment is addition of one modulo 256^len. */
  lemma {:induction false} IncrementValue(s: seq<byte>)
    ensures ValueOf(Increment(s)) == (ValueOf(s) + 1) % Pow256(|s|)
  {
    if s != [] {
      var init, last := s[..|s| - 1], s[|s| - 1];
      var v, p := ValueOf(init), Pow256(|init|);
      ValueBound(init);
      assert Pow256(|s|) == 256 * p;
      assert ValueOf(s) == v * 256 + last;
      if last == 255 {
        IncrementValue(init);
        assert Increment(s)[..|s| - 1] == Increment(init);
        assert ValueOf(Increment(s)) == ValueOf(Increment(init)) * 256;
        if v + 1 < p {
          ModBelow(v + 1, p);
          ModBelow(ValueOf(s) + 1, Pow256(|s|));
        } else {
          assert v + 1 == p;
          ModSelf(p);
          ModSelf(Pow256(|s|));
        }
      } else {
        assert Increment(s)[..|s| - 1] == init;
        ModBelow(ValueOf(s) + 1, Pow256(|s|));
      }
    }
  }

  /**
   * The shape of an increment: `j` is the last byte that is not 0xFF (or -1 if
   * there is none). Every byte after `j` becomes 0x00, byte `j` goes up by one,
   * and every byte before `j` is unchanged.
   */
  lemma {:induction false} IncrementCarry(s: seq<byte>, j: int)
    requires -1 <= j < |s|
    requires j >= 0 ==> s[j] != 255
    requires forall k :: j < k < |s| ==> s[k] == 255
    ensures forall k :: 0 <= k < |s| ==>
      Increment(s)[k] == (if k < j then s[k] else if k == j then s[k] + 1 else 0)
  {
    if s != [] && j < |s| - 1 {
      var init := s[..|s| - 1];
      IncrementCarry(init, j);
      assert Increment(s) == Increment(init) + [0];
    }
  }

  /** scanner.go's `incrementIP`: the byte-wise carry loop, in place. */
  method IncrementIP(ip: array<byte>)
    modifies ip
    ensures ip[..] == Increment(old(ip[..]))
  {
    ghost var s := ip[..];
    var j := ip.Length - 1;
    while j >= 0
      invariant -1 <= j < ip.Length
      invariant forall k :: 0 <= k <= j ==> ip[k] == s[k]
      invariant forall k :: j < k < ip.Length ==> ip[k] == 0 && s[k] == 255
    {
      ip[j] := if ip[j] == 255 then 0 else ip[j] + 1;
      if ip[j] > 0 {
        IncrementCarry(s, j);
        return;
      }
      j := j - 1;
    }
    IncrementCarry(s, -1);
  }

  // ---------------------------------------------------------------- bytes of a value

  /** The `n`-byte big-endian encoding of `v`. */
  function BytesOf(v: nat, n: nat): (b: seq<byte>)
    requires v < Pow256(n)
    ensures |b| == n && ValueOf(b) == v
  {
    if n == 0 then []
    else
      var b := BytesOf(v / 256, n - 1) + [v % 256];
      assert b[..n - 1] == BytesOf(v / 256, n - 1);
      b
  }

  lemma {:induction false} BytesOfValue(b: seq<byte>)
    ensures ValueOf(b) < Pow256(|b|) && BytesOf(ValueOf(b), |b|) == b
  {
    ValueBound(b);
    if b != [] {
      var init := b[..|b| - 1];
      BytesOfValue(init);
      ValueBound(init);
      assert ValueOf(b) / 256 == ValueOf(init);
    }
  }

  lemma Pow256Of4()
    ensures Pow256(4) == Two32
  {
  }

  /** For an address, increment is addition of one modulo 2^32. */
  lemma IncrementAddress(ip: seq<byte>)
    requires |ip| == 4
    ensures ValueOf(Increment(ip)) == (ValueOf(ip) + 1) % Two32
  {
    IncrementValue(ip);
    Pow256Of4();
  }

  /** The four bytes of a 32-bit address value. */
  function FromValue(v: nat): (b: seq<byte>)
    requires v < Two32
    ensures |b| == 4 && ValueOf(b) == v
  {
    Pow256Of4();
    BytesOf(v, 4)
  }

  lemma FromValueOf(b: seq<byte>)
    requires |b| == 4
    ensures ValueOf(b) < Two32 && FromValue(ValueOf(b)) == b
  {
    Pow256Of4();
    BytesOfValue(b);
  }

  // ---------------------------------------------------------------- text form

  /** `net.IP.String()` of a four-byte address: dotted decimal. */
  function FormatIPv4(b: seq<byte>): string
    requires |b| == 4
  {
    Decimal(b[0]) + "." + (Decimal(b[1]) + "." + (Decimal(b[2]) + "." + Decimal(b[3])))
  }

  /** The pieces of `s` between occurrences of `sep` (`strings.Split`). */
  function Split(s: string, sep: char): (parts: seq<string>)
    ensures |parts| >= 1
    decreases |s|
  {
    match IndexOf(s, sep)
    case None => [s]
    case Some(i) => [s[..i]] + Split(s[i + 1..], sep)
  }

  lemma SplitAt(a: string, sep: char, rest: string)
    requires sep !in a
    ensures Split(a + [sep] + rest, sep) == [a] + Split(rest, sep)
  {
    var s := a + [sep] + rest;
    var i := IndexOf(s, sep).value;
    assert s[..|a|] == a && s[|a|] == sep;
    assert s[i + 1..] == rest;
  }

  /** One IPv4 field: one to three digits, no leading zero, at most 255. */
  function ParseOctet(f: string): Option<byte> {
    if 1 <= |f| <= 3 && AllDigits(f) && (|f| == 1 || f[0] != '0') && DigitsValue(f) <= 255
    then Some(DigitsValue(f))
    else None
  }

  /** The IPv4 branch of `net.ParseIP`: exactly four dot-separated octets. */
  function ParseIPv4(s: string): (r: Option<seq<byte>>)
    ensures r.Some? ==> |r.value| == 4
  {
    var fs := Split(s, '.');
    if |fs| != 4 then None
    else match (ParseOctet(fs[0]), ParseOctet(fs[1]), ParseOctet(fs[2]), ParseOctet(fs[3]))
      case (Some(a), Some(b), Some(c), Some(d)) => Some([a, b, c, d])
      case _ => None
  }

  predicate IsIPv4(s: string) {
    ParseIPv4(s).Some?
  }

  lemma DecimalHasNoDot(n: nat)
    ensures '.' !in Decimal(n)
  {
    var d := Decimal(n);
    assert forall i :: 0 <= i < |d| ==> IsDigit(d[i]);
  }

  lemma ParseOctetDecimal(n: byte)
    ensures ParseOctet(Decimal(n)) == Some(n)
  {
  }

  lemma SplitThree(d1: string, d2: string, d3: string)
    requires '.' !in d1 && '.' !in d2 && '.' !in d3
    ensures Split(d1 + "." + (d2 + "." + d3), '.') == [d1, d2, d3]
  {
    assert Split(d3, '.') == [d3];
    SplitAt(d2, '.', d3);
    SplitAt(d1, '.', d2 + "." + d3);
  }

  lemma SplitFour(d0: string, d1: string, d2: string, d3: string)
    requires '.' !in d0 && '.' !in d1 && '.' !in d2 && '.' !in d3
    ensures Split(d0 + "." + (d1 + "." + (d2 + "." + d3)), '.') == [d0, d1, d2, d3]
  {
    SplitThree(d1, d2, d3);
    SplitAt(d0, '.', d1 + "." + (d2 + "." + d3));
  }

  lemma SplitFormatIPv4(b: seq<byte>)
    requires |b| == 4
    ensures Split(FormatIPv4(b), '.') == [Decimal(b[0]), Decimal(b[1]), Decimal(b[2]), Decimal(b[3])]
  {
    DecimalHasNoDot(b[0]);
    DecimalHasNoDot(b[1]);
    DecimalHasNoDot(b[2]);
    DecimalHasNoDot(b[3]);
    SplitFour(Decimal(b[0]), Decimal(b[1]), Decimal(b[2]), Decimal(b[3]));
  }

  /** Parsing the dotted-decimal form gives back the four bytes. */
  lemma ParseFormatIPv4(b: seq<byte>)
    requires |b| == 4
    ensures ParseIPv4(FormatIPv4(b)) == Some(b)
  {
    SplitFormatIPv4(b);
    ParseOctetDecimal(b[0]);
    ParseOctetDecimal(b[1]);
    ParseOctetDecimal(b[2]);
    ParseOctetDecimal(b[3]);
    assert [b[0], b[1], b[2], b[3]] == b;
  }
}
