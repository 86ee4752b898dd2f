/** The address/name codec and the name synthesis of dns/utils.go: an IPv6
    address and a prefix length become an `ip6.arpa.` reverse name and back,
    and a reverse name inside a zone maps to a forward host name and back. */
module Nibble {
  import opened Text
  import opened Hex
  import opened DnsTypes
  import Configuration
  import Decimal

  /** The suffix of every reverse name. */
  const Suffix: string := ".ip6.arpa."

  /** `reverse`: the runes of `s` swapped pairwise from both ends, in place. */
  method Reverse(s: string) returns (r: string)
    ensures r == Reversed(s)
  {
    var a := new char[|s|](k requires 0 <= k < |s| => s[k]);
    var n := a.Length;
    var i, j := 0, n - 1;
    while i < n / 2
      invariant 0 <= i <= n / 2 && j == n - 1 - i
      invariant forall k :: 0 <= k < i ==> a[k] == s[n - 1 - k] && a[n - 1 - k] == s[k]
      invariant forall k :: i <= k < n - i ==> a[k] == s[k]
    {
      a[i], a[j] := a[j], a[i];
      i, j := i + 1, j - 1;
    }
    r := a[..];
    forall k | 0 <= k < n
      ensures r[k] == Reversed(s)[k]
    {
      ReversedAt(s, k);
    }
  }

  // ---------------------------------------------------------------- decoding

  /** The hex text `NibbleToIPv6` decodes: the name without one `.ip6.arpa.`
      suffix, its dots taken out, read back to front. */
  function NibbleDigits(nibble: string): string {
    Reversed(Join(Split(TrimSuffix(nibble, Suffix), '.'), ""))
  }

  /** The decoded bytes fit the 16-byte buffer; with more, `NibbleToIPv6`
      would index past its end. */
  predicate NibbleFits(nibble: string) {
    |DecodeString(NibbleDigits(nibble))| <= 16
  }

  function Padded(d: seq<byte>): Address
    requires |d| <= 16
  {
    d + seq(16 - |d|, i => 0)
  }

  /** The address `NibbleToIPv6(nibble)` returns: the decoded bytes first,
      zeros after them. */
  function NibbleAddress(nibble: string): (ip: Address)
    requires NibbleFits(nibble)
    ensures var d := DecodeString(NibbleDigits(nibble));
      ip[..|d|] == d && forall i :: |d| <= i < 16 ==> ip[i] == 0
  {
    Padded(DecodeString(NibbleDigits(nibble)))
  }

  /** `NibbleToIPv6`: fills a zeroed 16-byte buffer with the decoded bytes. */
  method NibbleToIPv6(nibble: string) returns (ip: Address)
    requires NibbleFits(nibble)
    ensures ip == NibbleAddress(nibble)
  {
    var padded := new byte[16](k => 0);
    var stripped := TrimSuffix(nibble, Suffix);
    var b := Reverse(Join(Split(stripped, '.'), ""));
    var decodedBytes := DecodeString(b);
    for i := 0 to |decodedBytes|
      invariant padded[..i] == decodedBytes[..i]
      invariant forall k :: i <= k < 16 ==> padded[k] == 0
    {
      padded[i] := decodedBytes[i];
    }
    ip := padded[..];
    assert ip == decodedBytes + seq(16 - |decodedBytes|, k => 0);
  }

  /** Only the runes other than dots, after the suffix is stripped, decide the
      address: the dots may fall anywhere. */
  lemma NibbleDotsIrrelevant(n1: string, n2: string)
    requires Remove(TrimSuffix(n1, Suffix), '.') == Remove(TrimSuffix(n2, Suffix), '.')
    ensures NibbleDigits(n1) == NibbleDigits(n2)
    ensures NibbleFits(n1) ==> NibbleFits(n2) && NibbleAddress(n1) == NibbleAddress(n2)
  {
    JoinSplitRemoves(TrimSuffix(n1, Suffix), '.');
    JoinSplitRemoves(TrimSuffix(n2, Suffix), '.');
  }

  /** Names whose digits decode alike name the same address. */
  lemma SameDigitsSameAddress(n1: string, n2: string)
    requires NibbleFits(n1)
    requires DecodeString(NibbleDigits(n1)) == DecodeString(NibbleDigits(n2))
    ensures NibbleFits(n2) && NibbleAddress(n1) == NibbleAddress(n2)
  {
  }

  // ---------------------------------------------------------------- encoding

  /** The prefix keeps no more hex digits than the address has; otherwise
      the slice in `IPv6ToNibble` would panic. */
  predicate PrefixFits(ip: seq<byte>, prefix: int) {
    prefix <= 128 ==> (128 - prefix) / 4 <= 2 * |ip|
  }

  /** How many hex digits `IPv6ToNibble` keeps: all but the last
      `(128 - prefix) / 4`, or all when `prefix` is over 128. */
  function KeptNibbles(ipLen: nat, prefix: int): (k: int)
    requires prefix <= 128 ==> (128 - prefix) / 4 <= 2 * ipLen
    ensures 0 <= k <= 2 * ipLen
    ensures prefix > 128 ==> k == 2 * ipLen
    ensures ipLen == 16 && 0 <= prefix <= 128 ==> k == (prefix + 3) / 4
  {
    if prefix <= 128 then 2 * ipLen - (128 - prefix) / 4 else 2 * ipLen
  }

  /** `IPv6ToNibble`: the kept hex digits of the address, dotted, reversed,
      then `.ip6.arpa.`. */
  function IPv6ToNibble(ip: seq<byte>, prefix: int): string
    requires PrefixFits(ip, prefix)
  {
    var encodedBytes := EncodeToString(ip);
    var kept := if prefix <= 128 then encodedBytes[..|encodedBytes| - (128 - prefix) / 4] else encodedBytes;
    Reversed(Join(Explode(kept), ".")) + Suffix
  }

  /** `IPv6ToNibble` in terms of the kept digits. */
  lemma IPv6ToNibbleKept(ip: seq<byte>, prefix: int)
    requires PrefixFits(ip, prefix)
    ensures IPv6ToNibble(ip, prefix) ==
      Reversed(Join(Explode(EncodeToString(ip)[..KeptNibbles(|ip|, prefix)]), ".")) + Suffix
  {
    KeptSlice(EncodeToString(ip), |ip|, prefix);
  }

  /** The digits `IPv6ToNibble` slices off are those after the kept ones. */
  lemma KeptSlice(e: string, ipLen: nat, prefix: int)
    requires |e| == 2 * ipLen
    requires prefix <= 128 ==> (128 - prefix) / 4 <= 2 * ipLen
    ensures (if prefix <= 128 then e[..|e| - (128 - prefix) / 4] else e) == e[..KeptNibbles(ipLen, prefix)]
  {
    assert e[..|e|] == e;
  }

  /** The labels of a reverse name for the nibbles `digits` (most significant
      first): each nibble as a label of its own, least significant first. */
  function ArpaLabels(digits: string): (r: string)
    ensures |r| == 2 * |digits|
  {
    if digits == [] then [] else [digits[|digits| - 1], '.'] + ArpaLabels(digits[..|digits| - 1])
  }

  /** The reverse name of section 2.5 of RFC 3596 for the nibbles `digits`. */
  function ArpaName(digits: string): string {
    ArpaLabels(digits) + "ip6.arpa."
  }

  /** Label `i` of `ArpaLabels(digits)` is nibble `|digits| - 1 - i`. */
  lemma {:induction false} ArpaLabelsAt(digits: string, i: int)
    requires 0 <= i < |digits|
    ensures ArpaLabels(digits)[2 * i] == digits[|digits| - 1 - i]
    ensures ArpaLabels(digits)[2 * i + 1] == '.'
  {
    if i > 0 {
      ArpaLabelsAt(digits[..|digits| - 1], i - 1);
    }
  }

  lemma {:induction false} DottedIsArpaLabels(x: string)
    requires x != []
    ensures Join(Explode(x), ".") + "." == ArpaLabels(Reversed(x))
  {
    ArpaLabelsOfReversed(x);
    if |x| > 1 {
      DottedIsArpaLabels(x[1..]);
      DottedCons(x);
    } else {
      assert Reversed(x[1..]) == [];
      assert Explode(x) == [[x[0]]];
    }
  }

  lemma ArpaLabelsOfReversed(x: string)
    requires x != []
    ensures ArpaLabels(Reversed(x)) == [x[0], '.'] + ArpaLabels(Reversed(x[1..]))
  {
    var rx := Reversed(x);
    assert rx == Reversed(x[1..]) + [x[0]];
    assert rx[..|rx| - 1] == Reversed(x[1..]);
  }

  lemma DottedCons(x: string)
    requires |x| > 1
    ensures Join(Explode(x), ".") + "." == [x[0], '.'] + (Join(Explode(x[1..]), ".") + ".")
  {
    DottedStep(x, '.');
  }

  /** The labels of two runs of nibbles: the later run's labels come first. */
  lemma {:induction false} ArpaLabelsAppend(a: string, b: string)
    ensures ArpaLabels(a + b) == ArpaLabels(b) + ArpaLabels(a)
  {
    if b == [] {
      assert a + b == a;
    } else {
      var b' := b[..|b| - 1];
      assert (a + b)[..|a + b| - 1] == a + b';
      assert (a + b)[|a + b| - 1] == b[|b| - 1];
      ArpaLabelsAppend(a, b');
    }
  }

  /** The labels of four digits. */
  lemma LabelsFour(d: string)
    requires |d| == 4
    ensures ArpaLabels(d) == [d[3], '.', d[2], '.', d[1], '.', d[0], '.']
  {
    var d3, d2, d1 := d[..3], d[..2], d[..1];
    assert ArpaLabels(d) == [d[3], '.'] + ArpaLabels(d3);
    assert d3[..2] == d2 && d3[2] == d[2];
    assert ArpaLabels(d3) == [d[2], '.'] + ArpaLabels(d2);
    assert d2[..1] == d1 && d2[1] == d[1];
    assert ArpaLabels(d2) == [d[1], '.'] + ArpaLabels(d1);
    assert d1[..0] == [] && d1[0] == d[0];
    assert ArpaLabels(d1) == [d[0], '.'];
  }

  /** The dotted, reversed digits followed by the suffix are the RFC 3596
      reverse name of those digits. */
  lemma DottedIsArpaName(kept: string)
    requires kept != []
    ensures Reversed(Join(Explode(kept), ".")) + Suffix == ArpaName(kept)
  {
    var d := Join(Explode(Reversed(kept)), ".");
    ReversedDotted(kept, '.');
    ReversedDottedLabels(kept);
    SuffixAfterLabels(d);
  }

  /** The dotted reversal of the digits, with a last dot, is their labels. */
  lemma ReversedDottedLabels(kept: string)
    requires kept != []
    ensures Join(Explode(Reversed(kept)), ".") + "." == ArpaLabels(kept)
  {
    DottedIsArpaLabels(Reversed(kept));
    ReversedInvolution(kept);
  }

  lemma SuffixAfterLabels(d: string)
    ensures d + Suffix == (d + ".") + "ip6.arpa."
  {
    assert Suffix == "." + "ip6.arpa.";
  }

  /** Whenever it keeps a digit, `IPv6ToNibble` writes the RFC 3596 reverse
      name of the kept leading nibbles of the address; keeping none, it writes
      `.ip6.arpa.`. */
  lemma IPv6ToNibbleIsArpaName(ip: seq<byte>, prefix: int)
    requires PrefixFits(ip, prefix)
    ensures var k := KeptNibbles(|ip|, prefix);
      IPv6ToNibble(ip, prefix) == if k == 0 then Suffix else ArpaName(EncodeToString(ip)[..k])
  {
    var k := KeptNibbles(|ip|, prefix);
    var kept := EncodeToString(ip)[..k];
    IPv6ToNibbleKept(ip, prefix);
    if k > 0 {
      DottedIsArpaName(kept);
    } else {
      assert kept == [];
    }
  }

  /** The reverse name keeping `k` digits is `2k - 1` runes of labels
      and then the suffix. */
  lemma IPv6ToNibbleLength(ip: seq<byte>, prefix: int)
    requires PrefixFits(ip, prefix)
    ensures var k := KeptNibbles(|ip|, prefix);
      |IPv6ToNibble(ip, prefix)| == (if k == 0 then 0 else 2 * k - 1) + |Suffix|
  {
    IPv6ToNibbleIsArpaName(ip, prefix);
  }

  /** `IPv6ToNibble` writes lower-case text ending in the suffix. */
  lemma IPv6ToNibbleShape(ip: seq<byte>, prefix: int)
    requires PrefixFits(ip, prefix)
    ensures NoUpper(IPv6ToNibble(ip, prefix)) && HasSuffix(IPv6ToNibble(ip, prefix), Suffix)
  {
    var kept := EncodeToString(ip)[..KeptNibbles(|ip|, prefix)];
    IPv6ToNibbleKept(ip, prefix);
    EncodedPrefixNoUpper(ip, KeptNibbles(|ip|, prefix));
    ReversedDottedNoUpper(kept);
    assert NoUpper(Suffix);
    AppendKeepsShape(Reversed(Join(Explode(kept), ".")), Suffix);
  }

  /** Leading hex digits of an encoding are lower-case. */
  lemma EncodedPrefixNoUpper(ip: seq<byte>, k: int)
    requires 0 <= k <= 2 * |ip|
    ensures NoUpper(EncodeToString(ip)[..k])
  {
    var e := EncodeToString(ip);
    EncodedIsHex(ip);
    forall c | c in e[..k]
      ensures c in e
    {
    }
  }

  /** The reversed dotted join of lower-case runes is lower-case. */
  lemma ReversedDottedNoUpper(kept: string)
    requires NoUpper(kept)
    ensures NoUpper(Reversed(Join(Explode(kept), ".")))
  {
    DottedMembers(kept, '.');
    ReversedMembers(Join(Explode(kept), "."));
  }

  /** Decoding what `IPv6ToNibble` wrote gives back the address truncated to
      the whole bytes among the kept digits, padded with zeros: an odd last
      digit is lost. */
  lemma NibbleRoundTrip(ip: Address, prefix: int)
    requires PrefixFits(ip, prefix)
    ensures var k := KeptNibbles(16, prefix);
      NibbleFits(IPv6ToNibble(ip, prefix))
      && NibbleAddress(IPv6ToNibble(ip, prefix)) == Padded(ip[..k / 2])
  {
    var k := KeptNibbles(16, prefix);
    var kept := EncodeToString(ip)[..k];
    var x := Reversed(Join(Explode(kept), "."));
    IPv6ToNibbleKept(ip, prefix);
    TrimAppendedSuffix(x, Suffix);
    JoinSplitRemoves(x, '.');
    RemoveReversed(Join(Explode(kept), "."), '.');
    RemoveDotted(kept, '.');
    EncodedIsHex(ip);
    assert '.' !in kept;
    RemoveAbsent(kept, '.');
    ReversedInvolution(kept);
    assert NibbleDigits(IPv6ToNibble(ip, prefix)) == kept;
    DecodeEncodedPrefix(ip, k);
  }

  /** With a prefix of whole bytes, the round trip is the address with its
      low `128 - prefix` bits cleared. */
  lemma NibbleRoundTripWholeBytes(ip: Address, prefix: int)
    requires 0 <= prefix <= 128 && prefix % 8 == 0
    ensures NibbleFits(IPv6ToNibble(ip, prefix))
    ensures forall i :: 0 <= i < 16 ==>
      NibbleAddress(IPv6ToNibble(ip, prefix))[i] == if i < prefix / 8 then ip[i] else 0
  {
    NibbleRoundTrip(ip, prefix);
    assert KeptNibbles(16, prefix) / 2 == prefix / 8;
  }

  // ---------------------------------------------------------------- synthesis

  /** The zone's own reverse name, `IPv6ToNibble(net.ParseIP(Prefix), Mask)`. */
  function ZoneNibbles(prefix: Configuration.Domain, net: NetIP): string
    requires PrefixFits(net.parseIP(prefix.prefix), prefix.mask)
  {
    IPv6ToNibble(net.parseIP(prefix.prefix), prefix.mask)
  }

  /** `GetNameForIPv6`: the nibble labels in front of the zone's reverse name,
      dots taken out and reversed, then the zone's forward name. */
  function GetNameForIPv6(name: string, prefix: Configuration.Domain, net: NetIP): (r: string)
    requires PrefixFits(net.parseIP(prefix.prefix), prefix.mask)
    ensures HasSuffix(r, "." + prefix.reverseDomain + ".")
  {
    var p := ZoneNibbles(prefix, net);
    var digits := TrimSuffix(name, "." + p);
    var strippedDigits := Reversed(Join(Split(digits, '.'), ""));
    assert strippedDigits + "." + prefix.reverseDomain + "." == strippedDigits + ("." + prefix.reverseDomain + ".");
    AppendedHasSuffix(strippedDigits, "." + prefix.reverseDomain + ".");
    strippedDigits + "." + prefix.reverseDomain + "."
  }

  /** Every name `GetNameForIPv6` writes is a single label, without dots,
      in the zone's forward domain; that label is the non-dot runes in front
      of the zone's reverse name, read back to front. */
  lemma GetNameForIPv6Label(name: string, prefix: Configuration.Domain, net: NetIP)
    requires PrefixFits(net.parseIP(prefix.prefix), prefix.mask)
    ensures var r := GetNameForIPv6(name, prefix, net);
      var host := Reversed(Remove(TrimSuffix(name, "." + ZoneNibbles(prefix, net)), '.'));
      r == host + "." + prefix.reverseDomain + "." && '.' !in host
  {
    var digits := TrimSuffix(name, "." + ZoneNibbles(prefix, net));
    JoinSplitRemoves(digits, '.');
    RemoveReversed(digits, '.');
    var host := Reversed(Remove(digits, '.'));
    assert '.' !in host by {
      RemoveReversed(digits, '.');
    }
  }

  /** The reverse name `GetIPv6ForName` decodes: the host digits in front of
      the zone's forward name, dotted and reversed, then the zone's reverse name. */
  function ForwardNibbleName(name: string, prefix: Configuration.Domain, net: NetIP): string
    requires PrefixFits(net.parseIP(prefix.prefix), prefix.mask)
  {
    var p := ZoneNibbles(prefix, net);
    var digits := TrimSuffix(name, "." + prefix.domain + ".");
    Reversed(Join(Explode(digits), ".")) + "." + p
  }

  /** `GetIPv6ForName` neither panics on the prefix nor overruns the buffer. */
  predicate AddressFits(name: string, prefix: Configuration.Domain, net: NetIP) {
    PrefixFits(net.parseIP(prefix.prefix), prefix.mask) && NibbleFits(ForwardNibbleName(name, prefix, net))
  }

  /** `GetIPv6ForName`: the text of the address the synthesised reverse name decodes to. */
  function GetIPv6ForName(name: string, prefix: Configuration.Domain, net: NetIP): string
    requires AddressFits(name, prefix, net)
  {
    net.ipString(NibbleAddress(ForwardNibbleName(name, prefix, net)))
  }

  /** Dropping the dots of a reversed dotted join leaves the reversed runes
      other than dots. */
  lemma RemoveReversedDotted(x: string)
    ensures Remove(Reversed(Join(Explode(x), ".")), '.') == Reversed(Remove(x, '.'))
  {
    RemoveReversed(Join(Explode(x), "."), '.');
    RemoveDotted(x, '.');
  }

  /** The digits of a name ending in the suffix are its other runes, dots
      dropped, read back to front. */
  lemma NibbleDigitsOfSuffixed(body: string)
    ensures NibbleDigits(body + Suffix) == Reversed(Remove(body, '.'))
  {
    TrimAppendedSuffix(body, Suffix);
    JoinSplitRemoves(body, '.');
  }

  lemma RemoveAroundDot(a: string, b: string)
    ensures Remove(a + "." + b, '.') == Remove(a, '.') + Remove(b, '.')
  {
    assert Remove(".", '.') == "" by {
      assert "."[0] == '.' && "."[1..] == [];
    }
    calc {
      Remove(a + "." + b, '.');
      { RemoveAppend(a + ".", b, '.'); }
      Remove(a + ".", '.') + Remove(b, '.');
      { RemoveAppend(a, ".", '.'); }
      Remove(a, '.') + Remove(b, '.');
    }
  }

  /** The digits of a reverse name made of the dotted, reversed runes of
      `digits`, a dot, then the dotted, reversed `kept` and the suffix. */
  lemma DigitsOfJoinedName(digits: string, kept: string)
    requires '.' !in kept
    ensures NibbleDigits(Reversed(Join(Explode(digits), ".")) + "." + Reversed(Join(Explode(kept), ".")) + Suffix)
      == kept + Remove(digits, '.')
  {
    var h := Reversed(Join(Explode(digits), "."));
    var xp := Reversed(Join(Explode(kept), "."));
    var rd := Reversed(Remove(digits, '.'));
    calc {
      NibbleDigits(h + "." + xp + Suffix);
      { NibbleDigitsOfSuffixed(h + "." + xp); }
      Reversed(Remove(h + "." + xp, '.'));
      { RemoveAroundDot(h, xp); }
      Reversed(Remove(h, '.') + Remove(xp, '.'));
      { RemoveReversedDotted(digits); RemoveReversedDotted(kept); RemoveAbsent(kept, '.'); }
      Reversed(rd + Reversed(kept));
      { ReversedAppend(rd, Reversed(kept)); }
      Reversed(Reversed(kept)) + Reversed(rd);
      { ReversedInvolution(kept); ReversedInvolution(Remove(digits, '.')); }
      kept + Remove(digits, '.');
    }
  }

  /** The hex digits `GetIPv6ForName` decodes are the zone's kept prefix
      digits followed by the non-dot runes of the host part, most significant
      first. */
  lemma ForwardDigits(name: string, prefix: Configuration.Domain, net: NetIP)
    requires PrefixFits(net.parseIP(prefix.prefix), prefix.mask)
    ensures var ip := net.parseIP(prefix.prefix);
      NibbleDigits(ForwardNibbleName(name, prefix, net)) ==
        EncodeToString(ip)[..KeptNibbles(|ip|, prefix.mask)]
        + Remove(TrimSuffix(name, "." + prefix.domain + "."), '.')
  {
    var ip := net.parseIP(prefix.prefix);
    var kept := EncodeToString(ip)[..KeptNibbles(|ip|, prefix.mask)];
    var digits := TrimSuffix(name, "." + prefix.domain + ".");
    IPv6ToNibbleKept(ip, prefix.mask);
    assert ForwardNibbleName(name, prefix, net) ==
      Reversed(Join(Explode(digits), ".")) + "." + Reversed(Join(Explode(kept), ".")) + Suffix;
    EncodedIsHex(ip);
    assert '.' !in kept;
    DigitsOfJoinedName(digits, kept);
  }

  /** The reverse name for the host nibbles `host` (most significant first,
      written least significant first as labels) inside the zone. */
  function HostReverseName(host: string, prefix: Configuration.Domain, net: NetIP): string
    requires PrefixFits(net.parseIP(prefix.prefix), prefix.mask)
  {
    Join(Explode(Reversed(host)), ".") + ("." + ZoneNibbles(prefix, net))
  }

  /** The reverse name of lower-case host nibbles is lower-case and ends in
      the suffix. */
  lemma HostReverseNameShape(host: string, prefix: Configuration.Domain, net: NetIP)
    requires PrefixFits(net.parseIP(prefix.prefix), prefix.mask)
    requires NoUpper(host)
    ensures NoUpper(HostReverseName(host, prefix, net)) && HasSuffix(HostReverseName(host, prefix, net), Suffix)
  {
    var p := ZoneNibbles(prefix, net);
    var h := Join(Explode(Reversed(host)), ".");
    IPv6ToNibbleShape(net.parseIP(prefix.prefix), prefix.mask);
    DottedNoUpper(host);
    assert HostReverseName(host, prefix, net) == (h + ".") + p;
    AppendKeepsShape(h + ".", p);
  }

  /** The dotted reversal of lower-case runes is lower-case, and so is it
      with a dot after it. */
  lemma DottedNoUpper(host: string)
    requires NoUpper(host)
    ensures NoUpper(Join(Explode(Reversed(host)), ".") + ".")
  {
    ReversedMembers(host);
    DottedMembers(Reversed(host), '.');
  }

  /** Lower-case text in front of a lower-case name ending in the suffix
      gives such a name again. */
  lemma AppendKeepsShape(w: string, p: string)
    requires NoUpper(w) && NoUpper(p) && HasSuffix(p, Suffix)
    ensures NoUpper(w + p) && HasSuffix(w + p, Suffix)
  {
    assert (w + p)[|w + p| - |Suffix|..] == p[|p| - |Suffix|..];
  }

  /** Every rune of the name `GetNameForIPv6` writes comes from the question
      name or the zone's forward domain, or is a dot. */
  lemma GetNameForIPv6Members(name: string, prefix: Configuration.Domain, net: NetIP)
    requires PrefixFits(net.parseIP(prefix.prefix), prefix.mask)
    ensures forall c :: c in GetNameForIPv6(name, prefix, net) ==> c in name || c in prefix.reverseDomain || c == '.'
  {
    var digits := TrimSuffix(name, "." + ZoneNibbles(prefix, net));
    GetNameForIPv6Label(name, prefix, net);
    TrimSuffixMembers(name, "." + ZoneNibbles(prefix, net));
    RemoveMembers(digits, '.');
    ReversedMembers(Remove(digits, '.'));
  }

  /** For a reverse name made of host labels in front of the zone's reverse
      name, `GetNameForIPv6` writes the host nibbles most significant first,
      without dots, in front of the zone's forward name. */
  lemma GetNameForHostReverseName(host: string, prefix: Configuration.Domain, net: NetIP)
    requires PrefixFits(net.parseIP(prefix.prefix), prefix.mask)
    requires '.' !in host
    ensures GetNameForIPv6(HostReverseName(host, prefix, net), prefix, net) ==
      host + "." + prefix.reverseDomain + "."
  {
    var p := ZoneNibbles(prefix, net);
    GetNameForIPv6Label(HostReverseName(host, prefix, net), prefix, net);
    HostLabelDigits(host, "." + p);
  }

  /** The host labels in front of a zone, dots taken out and reversed, are
      the host nibbles again. */
  lemma HostLabelDigits(host: string, zone: string)
    requires '.' !in host
    ensures Reversed(Remove(TrimSuffix(Join(Explode(Reversed(host)), ".") + zone, zone), '.')) == host
  {
    var h := Join(Explode(Reversed(host)), ".");
    calc {
      Reversed(Remove(TrimSuffix(h + zone, zone), '.'));
      { TrimAppendedSuffix(h, zone); }
      Reversed(Remove(h, '.'));
      { RemoveDotted(Reversed(host), '.'); }
      Reversed(Remove(Reversed(host), '.'));
      { RemoveReversed(host, '.'); RemoveAbsent(host, '.'); }
      Reversed(Reversed(host));
      { ReversedInvolution(host); }
      host;
    }
  }

  /** Name synthesis is undone by address synthesis: for a reverse zone and
      its forward zone (same prefix and mask, the forward zone's name being
      the reverse zone's `reverseDomain`), the forward name written for a
      reverse name maps back to the address that reverse name decodes to. */
  lemma NameSynthesisRoundTrip(host: string, rev: Configuration.Domain, fwd: Configuration.Domain, net: NetIP)
    requires PrefixFits(net.parseIP(rev.prefix), rev.mask)
    requires fwd.prefix == rev.prefix && fwd.mask == rev.mask && fwd.domain == rev.reverseDomain
    requires '.' !in host
    requires NibbleFits(HostReverseName(host, rev, net))
    ensures var forward := GetNameForIPv6(HostReverseName(host, rev, net), rev, net);
      AddressFits(forward, fwd, net)
      && GetIPv6ForName(forward, fwd, net) == net.ipString(NibbleAddress(HostReverseName(host, rev, net)))
  {
    GetNameForHostReverseName(host, rev, net);
    assert HostReverseName(host, fwd, net) == HostReverseName(host, rev, net);
    assert host + "." + rev.reverseDomain + "." == host + "." + fwd.domain + ".";
    ForwardOfHostName(host, fwd, net);
  }

  /** The reverse name `GetIPv6ForName` decodes for a host in the zone is the
      reverse name of that host's labels. */
  lemma ForwardOfHostName(host: string, prefix: Configuration.Domain, net: NetIP)
    requires PrefixFits(net.parseIP(prefix.prefix), prefix.mask)
    ensures ForwardNibbleName(host + "." + prefix.domain + ".", prefix, net) == HostReverseName(host, prefix, net)
  {
    var tail := "." + prefix.domain + ".";
    assert host + "." + prefix.domain + "." == host + tail;
    ReversedLabelsBeforeZone(host, tail, ZoneNibbles(prefix, net));
  }

  /** Trimming the forward tail off a host name and reversing its dotted
      runes gives the dotted runes of the reversed host. */
  lemma ReversedLabelsBeforeZone(host: string, tail: string, p: string)
    ensures Reversed(Join(Explode(TrimSuffix(host + tail, tail)), ".")) + "." + p ==
      Join(Explode(Reversed(host)), ".") + ("." + p)
  {
    TrimAppendedSuffix(host, tail);
    ReversedDotted(host, '.');
    var h := Reversed(Join(Explode(host), "."));
    assert h + "." + p == h + ("." + p);
  }

  lemma OddPredecessor(n: int)
    requires n % 2 == 1
    ensures (n - 1) % 2 == 0
  {
  }

  /** For a single host label without dots, the digits decoded are the
      zone's kept digits and then that label. */
  lemma ForwardDigitsOfLabel(host: string, prefix: Configuration.Domain, net: NetIP)
    requires PrefixFits(net.parseIP(prefix.prefix), prefix.mask)
    requires '.' !in host
    ensures var ip := net.parseIP(prefix.prefix);
      NibbleDigits(ForwardNibbleName(host + "." + prefix.domain + ".", prefix, net)) ==
        EncodeToString(ip)[..KeptNibbles(|ip|, prefix.mask)] + host
  {
    var tail := "." + prefix.domain + ".";
    assert host + "." + prefix.domain + "." == host + tail;
    TrimAppendedSuffix(host, tail);
    ForwardDigits(host + tail, prefix, net);
    RemoveAbsent(host, '.');
  }

  /** A forward name whose host label holds 34 or more hex digits decodes to
      more than 16 bytes: `NibbleToIPv6` would index past its buffer, so
      `GetIPv6ForName` panics on it. */
  lemma LongLabelOverruns(host: string, prefix: Configuration.Domain, net: NetIP)
    requires PrefixFits(net.parseIP(prefix.prefix), prefix.mask)
    requires |host| >= 34 && forall i :: 0 <= i < |host| ==> FromHexChar(host[i]) >= 0
    ensures !AddressFits(host + "." + prefix.domain + ".", prefix, net)
  {
    var ip := net.parseIP(prefix.prefix);
    var kept := EncodeToString(ip)[..KeptNibbles(|ip|, prefix.mask)];
    assert '.' !in host by {
      assert FromHexChar('.') == -1;
    }
    ForwardDigitsOfLabel(host, prefix, net);
    EncodedIsHex(ip);
    HexRun(kept, host);
  }

  /** Hex digits followed by hex digits decode to more than 16 bytes once
      there are 34 of them. */
  lemma HexRun(kept: string, host: string)
    requires forall i :: 0 <= i < |kept| ==> FromHexChar(kept[i]) >= 0
    requires |host| >= 34 && forall i :: 0 <= i < |host| ==> FromHexChar(host[i]) >= 0
    ensures |DecodeString(kept + host)| > 16
  {
    var all := kept + host;
    forall i | 0 <= i < |all|
      ensures FromHexChar(all[i]) >= 0
    {
      if i < |kept| {
        assert all[i] == kept[i];
      } else {
        assert all[i] == host[i - |kept|];
      }
    }
    DecodeHexLength(all);
  }

  /** A host label whose digits, with the zone's kept digits, come to an odd
      count loses its last digit: it names the same address as the label
      without it. */
  lemma ShortLabelDropsLastNibble(host: string, prefix: Configuration.Domain, net: NetIP)
    requires PrefixFits(net.parseIP(prefix.prefix), prefix.mask)
    requires host != [] && '.' !in host
    requires (KeptNibbles(|net.parseIP(prefix.prefix)|, prefix.mask) + |host|) % 2 == 1
    requires AddressFits(host + "." + prefix.domain + ".", prefix, net)
    ensures var shorter := host[..|host| - 1];
      AddressFits(shorter + "." + prefix.domain + ".", prefix, net)
      && GetIPv6ForName(host + "." + prefix.domain + ".", prefix, net)
         == GetIPv6ForName(shorter + "." + prefix.domain + ".", prefix, net)
  {
    var shorter := host[..|host| - 1];
    ShortLabelSameBytes(host, prefix, net);
    SameDigitsSameAddress(
      ForwardNibbleName(host + "." + prefix.domain + ".", prefix, net),
      ForwardNibbleName(shorter + "." + prefix.domain + ".", prefix, net));
  }

  lemma ShortLabelSameBytes(host: string, prefix: Configuration.Domain, net: NetIP)
    requires PrefixFits(net.parseIP(prefix.prefix), prefix.mask)
    requires host != [] && '.' !in host
    requires (KeptNibbles(|net.parseIP(prefix.prefix)|, prefix.mask) + |host|) % 2 == 1
    ensures var shorter := host[..|host| - 1];
      DecodeString(NibbleDigits(ForwardNibbleName(host + "." + prefix.domain + ".", prefix, net)))
      == DecodeString(NibbleDigits(ForwardNibbleName(shorter + "." + prefix.domain + ".", prefix, net)))
  {
    var ip := net.parseIP(prefix.prefix);
    var kept := EncodeToString(ip)[..KeptNibbles(|ip|, prefix.mask)];
    var shorter := host[..|host| - 1];
    OddPredecessor(KeptNibbles(|ip|, prefix.mask) + |host|);
    DecodeDropsLoneDigit(kept + shorter, host[|host| - 1]);
    AppendLast(kept, host);
    ForwardDigitsOfLabel(host, prefix, net);
    ForwardDigitsOfLabel(shorter, prefix, net);
  }

  /** `SplitPrefix`: the text before the first `/`, and the integer value
      (0 when it is not a number) of the text between the first and the
      next `/`. Without a `/` the source indexes past the split and panics. */
  function SplitPrefix(prefix: string): (r: (string, int))
    requires '/' in prefix
    ensures '/' !in r.0 && |r.0| < |prefix| && prefix[..|r.0|] == r.0 && prefix[|r.0|] == '/'
    ensures r.1 == Decimal.Atoi(TakeUntil(prefix[|r.0| + 1..], '/'))
  {
    var splitAddress := Split(prefix, '/');
    SplitAtFirst(prefix, '/');
    SplitAtFirst(prefix[|TakeUntil(prefix, '/')| + 1..], '/');
    var mask := Decimal.Atoi(splitAddress[1]);
    (splitAddress[0], mask)
  }

  /** `SplitPrefix` undoes writing an address text, a `/` and a 64-bit
      mask in decimal. */
  lemma SplitPrefixRoundTrip(address: string, mask: int)
    requires '/' !in address
    requires Decimal.MinInt64 <= mask <= Decimal.MaxInt64
    ensures SplitPrefix(address + "/" + Decimal.FormatInt(mask)) == (address, mask)
  {
    var s := address + "/" + Decimal.FormatInt(mask);
    SplitCons(address, '/', Decimal.FormatInt(mask));
    SplitAtFirst(s, '/');
    Decimal.FormatIntRunes(mask);
    var m := Decimal.FormatInt(mask);
    SplitNone(m, '/');
    SplitAtFirst(m, '/');
    Decimal.AtoiFormatInt(mask);
  }
}
