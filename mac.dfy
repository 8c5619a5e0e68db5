/**
 * Hardware addresses as text: the check `isValidMAC` makes (Go's
 * `net.ParseMAC` accepts the string and it is not the literal all-zero
 * colon form) and the upper-case colon form the Windows loader prints.
 */
module MacAddress {
  import opened Wrappers
  import opened Text
  import opened IPv4

  const ZeroMac: string := "00:00:00:00:00:00"

  function HexByte(hi: char, lo: char): byte
    requires IsHexDigit(hi) && IsHexDigit(lo)
  {
    HexValue(hi) * 16 + HexValue(lo)
  }

  /**
   * Two-digit groups separated by `sep`, the last group ending the string
   * (the `xx:xx:...` and `xx-xx-...` forms).
   */
  function PairGroups(s: string, sep: char): (r: Option<seq<byte>>)
    ensures r.Some? ==> |s| == 3 * |r.value| - 1
    decreases |s|
  {
    if |s| < 2 || !IsHexDigit(s[0]) || !IsHexDigit(s[1]) then None
    else if |s| == 2 then Some([HexByte(s[0], s[1])])
    else if s[2] != sep then None
    else match PairGroups(s[3..], sep)
      case None => None
      case Some(rest) => Some([HexByte(s[0], s[1])] + rest)
  }

  /** Four-digit groups separated by `sep` (the `xxxx.xxxx.xxxx` form). */
  function QuadGroups(s: string, sep: char): (r: Option<seq<byte>>)
    ensures r.Some? ==> 2 * |s| + 2 == 5 * |r.value|
    decreases |s|
  {
    if |s| < 4 || !IsHexDigit(s[0]) || !IsHexDigit(s[1]) || !IsHexDigit(s[2]) || !IsHexDigit(s[3]) then None
    else
      var pair := [HexByte(s[0], s[1]), HexByte(s[2], s[3])];
      if |s| == 4 then Some(pair)
      else if s[4] != sep then None
      else match QuadGroups(s[5..], sep)
        case None => None
        case Some(rest) => Some(pair + rest)
  }

  predicate AllowedLength(n: int) {
    n == 6 || n == 8 || n == 20
  }

  /**
   * `net.ParseMAC`: at least 14 characters; if the third character is ':' or
   * '-', two-digit groups separated by it; otherwise, if the fifth is '.',
   * four-digit groups separated by '.'. Either way 6, 8 or 20 bytes.
   */
  function ParseMac(s: string): (r: Option<seq<byte>>)
    ensures r.Some? ==> AllowedLength(|r.value|) && |s| >= 14
  {
    if |s| < 14 then None
    else if s[2] == ':' || s[2] == '-' then
      if (|s| + 1) % 3 != 0 || !AllowedLength((|s| + 1) / 3) then None
      else PairGroups(s, s[2])
    else if s[4] == '.' then
      if (|s| + 1) % 5 != 0 || !AllowedLength(2 * (|s| + 1) / 5) then None
      else QuadGroups(s, '.')
    else None
  }

  /** `isValidMAC`: the string parses, and it is not literally "00:00:00:00:00:00". */
  predicate IsValidMac(s: string) {
    ParseMac(s).Some? && s != ZeroMac
  }

  /** A valid MAC is at least 14 characters long; in particular it is never empty. */
  lemma ValidMacLength(s: string)
    requires IsValidMac(s)
    ensures |s| >= 14
  {
  }

  /**
   * The zero check compares strings, not bytes: the hyphenated all-zero
   * address is valid, and so is the upper-case form of any valid address.
   */
  lemma HyphenatedZeroIsValid()
    ensures IsValidMac("00-00-00-00-00-00")
  {
    var s := "00-00-00-00-00-00";
    assert s[3..][3..][3..][3..][3..] == "00";
    assert PairGroups(s, '-').Some?;
  }

  // ---------------------------------------------------------------- printing

  /** `%02X` of one byte. */
  function HexPair(b: byte): (r: string)
    ensures |r| == 2 && IsHexDigit(r[0]) && IsHexDigit(r[1]) && HexByte(r[0], r[1]) == b
  {
    [HexChar(b / 16), HexChar(b % 16)]
  }

  /** Bytes as upper-case hex pairs joined by ':' (`"%02X:%02X:..."`). */
  function JoinHex(bs: seq<byte>): (r: string)
    requires bs != []
    ensures |r| == 3 * |bs| - 1
    ensures forall i :: 0 <= i < |r| ==> UpperChar(r[i]) == r[i]
  {
    if |bs| == 1 then HexPair(bs[0])
    else HexPair(bs[0]) + ":" + JoinHex(bs[1..])
  }

  /** Bytes as upper-case hex pairs with no separator. */
  function HexDigits(bs: seq<byte>): (r: string)
    ensures |r| == 2 * |bs|
  {
    if bs == [] then [] else HexPair(bs[0]) + HexDigits(bs[1..])
  }

  /** The bare hex digits are already upper case. */
  lemma {:induction false} HexDigitsUpper(bs: seq<byte>)
    ensures ToUpper(HexDigits(bs)) == HexDigits(bs)
  {
    if bs != [] {
      HexDigitsUpper(bs[1..]);
      var h := HexPair(bs[0]);
      assert h == [HexChar(bs[0] / 16), HexChar(bs[0] % 16)];
      assert ToUpper(h) == h;
      assert ToUpper(h + HexDigits(bs[1..])) == ToUpper(h) + ToUpper(HexDigits(bs[1..]));
    }
  }

  /** Removing the colons from the colon form leaves the bare hex digits. */
  lemma {:induction false} RemoveColonJoinHex(bs: seq<byte>)
    requires bs != []
    ensures RemoveChar(JoinHex(bs), ':') == HexDigits(bs)
  {
    var h := HexPair(bs[0]);
    assert ':' !in h by {
      assert IsHexDigit(h[0]) && IsHexDigit(h[1]);
    }
    if |bs| == 1 {
      assert HexDigits(bs) == h + HexDigits(bs[1..]);
    } else {
      RemoveColonJoinHex(bs[1..]);
      RemoveCharConcat(h + ":", JoinHex(bs[1..]), ':');
      RemoveCharConcat(h, ":", ':');
    }
  }

  /** Parsing the colon form gives back the bytes. */
  lemma {:induction false} PairGroupsJoinHex(bs: seq<byte>)
    requires bs != []
    ensures PairGroups(JoinHex(bs), ':') == Some(bs)
  {
    var s := JoinHex(bs);
    var h := HexPair(bs[0]);
    assert s[0] == h[0] && s[1] == h[1];
    if |bs| > 1 {
      PairGroupsJoinHex(bs[1..]);
      assert s[2] == ':';
      assert s[3..] == JoinHex(bs[1..]);
      assert [bs[0]] + bs[1..] == bs;
    } else {
      assert bs == [bs[0]];
    }
  }

  /** Every six-byte address the Windows loader prints is accepted by `net.ParseMAC`, with the same bytes. */
  lemma ParseJoinHex(bs: seq<byte>)
    requires |bs| == 6
    ensures ParseMac(JoinHex(bs)) == Some(bs)
  {
    PairGroupsJoinHex(bs);
    assert JoinHex(bs)[2] == ':';
  }

  /** Upper-casing a string that is not the all-zero form never produces it. */
  lemma ToUpperNotZeroMac(s: string)
    requires s != ZeroMac
    ensures ToUpper(s) != ZeroMac
  {
  }
}
