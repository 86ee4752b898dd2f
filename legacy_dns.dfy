/** The older server of `dns/dns.go`: one hard-wired zone (the prefix
    `2001:470:1f23:ff::/64`, its reverse zone, and the forward domain
    `ipv6.ellefsen.za.net.`), its own `IPv6ToNibble`, the two name
    synthesisers, and the query loop that appends one record per AAAA or PTR
    question to the reply. */
module LegacyDns {
  import opened Wrappers
  import opened Text
  import opened Hex
  import opened Decimal
  import opened DnsTypes
  import Nibble
  import Responses

  /** The package-level variables `prefix`, `mask` and `domain`, which the
      name synthesisers read. */
  datatype Settings = Settings(prefix: string, mask: int, domain: string)

  /** Their values in the source. */
  const Package: Settings := Settings("2001:470:1f23:ff::", 64, "ipv6.ellefsen.za.net.")

  /** The reverse zone the server registers its handler for,
      `f.f.0.0.3.2.f.1.0.7.4.0.1.0.0.2.ip6.arpa.`, written as its runs of
      labels. */
  const ReverseZone: string := "f.f.0.0." + ("3.2.f.1." + "0.7.4.0.1.0.0.2.") + "ip6.arpa."

  /** The sixteen network nibbles of `2001:470:1f23:ff::`. */
  const NetworkDigits: string := "200104701f2300ff"

  /** `ip` is the address `2001:470:1f23:ff::`: bytes 20 01 04 70 1f 23 00 ff,
      then eight zero bytes. */
  predicate IsPrefixAddress(ip: seq<byte>) {
    |ip| == 16
    && ip[0] == 0x20 && ip[1] == 0x01 && ip[2] == 0x04 && ip[3] == 0x70
    && ip[4] == 0x1f && ip[5] == 0x23 && ip[6] == 0x00 && ip[7] == 0xff
    && forall i :: 8 <= i < 16 ==> ip[i] == 0
  }

  /** `net.ParseIP` reads the prefix text as the address it denotes. */
  predicate ParsesPrefix(net: NetIP) {
    IsPrefixAddress(net.parseIP(Package.prefix))
  }

  // ---------------------------------------------------------------- encoding

  /** The slice `encodedBytes[0:(128 - prefix) / 4]` is in range. */
  predicate LegacyPrefixFits(ip: seq<byte>, prefix: int) {
    0 <= Quo(128 - prefix, 4) <= 2 * |ip|
  }

  /** The prefixes this `IPv6ToNibble` accepts on a 16-byte address: Go's
      division truncates toward zero, so 129 to 131 slip through as well. */
  lemma LegacyPrefixRange(ip: Address, prefix: int)
    ensures LegacyPrefixFits(ip, prefix) <==> -3 <= prefix <= 131
  {
  }

  /** This revision's `IPv6ToNibble`: the first `(128 - prefix) / 4` hex
      digits of the address, dotted, reversed, then `.ip6.arpa.`. */
  function IPv6ToNibble(ip: seq<byte>, prefix: int): string
    requires LegacyPrefixFits(ip, prefix)
  {
    var encodedBytes := EncodeToString(ip)[..Quo(128 - prefix, 4)];
    Reversed(Join(Explode(encodedBytes), ".")) + Nibble.Suffix
  }

  /** It writes the RFC 3596 reverse name of the first `(128 - prefix) / 4`
      nibbles, or just `.ip6.arpa.` when it keeps none. */
  lemma IPv6ToNibbleIsArpaName(ip: seq<byte>, prefix: int)
    requires LegacyPrefixFits(ip, prefix)
    ensures var k := Quo(128 - prefix, 4);
      IPv6ToNibble(ip, prefix) == if k == 0 then Nibble.Suffix else Nibble.ArpaName(EncodeToString(ip)[..k])
  {
    var k := Quo(128 - prefix, 4);
    if k > 0 {
      Nibble.DottedIsArpaName(EncodeToString(ip)[..k]);
    } else {
      assert EncodeToString(ip)[..k] == [];
    }
  }

  /** On a prefix length that is a whole number of nibbles, this encoder
      keeps as many digits as the later one does for the complementary
      length: the two agree on `/64`, and only there on the same argument. */
  lemma IPv6ToNibbleComplement(ip: Address, prefix: int)
    requires 0 <= prefix <= 128 && prefix % 4 == 0
    ensures LegacyPrefixFits(ip, prefix) && Nibble.PrefixFits(ip, 128 - prefix)
    ensures IPv6ToNibble(ip, prefix) == Nibble.IPv6ToNibble(ip, 128 - prefix)
  {
    Nibble.IPv6ToNibbleKept(ip, 128 - prefix);
    assert Quo(128 - prefix, 4) == Nibble.KeptNibbles(16, 128 - prefix);
  }

  lemma HighChunk(b: seq<byte>)
    requires IsPrefixAddress(b)
    ensures EncodeToString(b[0..4]) == "20010470"
  {
    calc {
      EncodeToString(b[0..4]);
      { EncodeSliceStep(b, 0, 4); }
      "20" + EncodeToString(b[1..4]);
      { EncodeSliceStep(b, 1, 4); }
      "2001" + EncodeToString(b[2..4]);
      { EncodeSliceStep(b, 2, 4); }
      "200104" + EncodeToString(b[3..4]);
      { EncodeSliceStep(b, 3, 4); }
      "20010470" + EncodeToString(b[4..4]);
      "20010470";
    }
  }

  lemma LowChunk(b: seq<byte>)
    requires IsPrefixAddress(b)
    ensures EncodeToString(b[4..8]) == "1f2300ff"
  {
    calc {
      EncodeToString(b[4..8]);
      { EncodeSliceStep(b, 4, 8); }
      "1f" + EncodeToString(b[5..8]);
      { EncodeSliceStep(b, 5, 8); }
      "1f23" + EncodeToString(b[6..8]);
      { EncodeSliceStep(b, 6, 8); }
      "1f2300" + EncodeToString(b[7..8]);
      { EncodeSliceStep(b, 7, 8); }
      "1f2300ff" + EncodeToString(b[8..8]);
      "1f2300ff";
    }
  }

  /** The first sixteen hex digits of the prefix address are its network
      nibbles. */
  lemma PrefixDigits(b: seq<byte>)
    requires IsPrefixAddress(b)
    ensures EncodeToString(b)[..16] == NetworkDigits
  {
    EncodedPrefixSplit(b, 8, 16);
    assert EncodeToString(b)[16..16] == [];
    SliceSplit(b, 4, 8);
    assert b[..4] == b[0..4] && b[..8] == b[0..8];
    EncodeAppend(b[0..4], b[4..8]);
    HighChunk(b);
    LowChunk(b);
  }

  /** The last four nibbles of a run become its first four labels. */
  lemma LastFourLabels(d: string)
    requires |d| >= 4
    ensures Nibble.ArpaLabels(d) ==
      [d[|d| - 1], '.', d[|d| - 2], '.', d[|d| - 3], '.', d[|d| - 4], '.'] + Nibble.ArpaLabels(d[..|d| - 4])
  {
    var n := |d|;
    var init, last := d[..n - 4], d[n - 4..];
    assert d == init + last;
    Nibble.ArpaLabelsAppend(init, last);
    Nibble.LabelsFour(last);
    assert last[0] == d[n - 4] && last[1] == d[n - 3] && last[2] == d[n - 2] && last[3] == d[n - 1];
  }

  /** The reverse name of the network nibbles is the registered zone. */
  lemma ArpaNameOfNetwork()
    ensures Nibble.ArpaName(NetworkDigits) == ReverseZone
  {
    var d := NetworkDigits;
    assert d[..12] == "200104701f23" && d[..8] == "20010470" && d[..4] == "2001" && d[..0] == "";
    LastFourLabels(d);
    LastFourLabels(d[..12]);
    LastFourLabels(d[..8]);
    LastFourLabels(d[..4]);
    assert d[..12][..8] == d[..8] && d[..8][..4] == d[..4];
  }

  lemma ZoneFromDigits(ip: seq<byte>, digits: string, zone: string)
    requires 16 <= 2 * |ip| && EncodeToString(ip)[..16] == digits && digits != []
    requires Nibble.ArpaName(digits) == zone
    ensures LegacyPrefixFits(ip, 64) && IPv6ToNibble(ip, 64) == zone
  {
    IPv6ToNibbleIsArpaName(ip, 64);
  }

  /** With the hard-wired prefix and mask, both revisions of `IPv6ToNibble`
      compute the reverse zone the server registers. */
  lemma ZoneIsReverseZone(ip: Address)
    requires IsPrefixAddress(ip)
    ensures LegacyPrefixFits(ip, Package.mask) && IPv6ToNibble(ip, Package.mask) == ReverseZone
    ensures Nibble.PrefixFits(ip, Package.mask) && Nibble.IPv6ToNibble(ip, Package.mask) == ReverseZone
  {
    NetworkZone(ip);
    ZoneFromDigits(ip, EncodeToString(ip)[..16], ReverseZone);
    IPv6ToNibbleComplement(ip, 64);
  }

  /** The reverse name of the first sixteen hex digits of the prefix address
      is the registered zone. */
  lemma NetworkZone(ip: Address)
    requires IsPrefixAddress(ip)
    ensures Nibble.ArpaName(EncodeToString(ip)[..16]) == ReverseZone
  {
    PrefixDigits(ip);
    ArpaNameOfNetwork();
  }

  // ---------------------------------------------------------------- names

  /** The reverse zone as `getNameForIPv6` and `getIPv6ForName` compute it. */
  function ZoneNibbles(s: Settings, net: NetIP): string
    requires LegacyPrefixFits(net.parseIP(s.prefix), s.mask)
  {
    IPv6ToNibble(net.parseIP(s.prefix), s.mask)
  }

  /** With the source's settings the zone is the registered reverse zone. */
  lemma PackageZone(net: NetIP)
    requires ParsesPrefix(net)
    ensures LegacyPrefixFits(net.parseIP(Package.prefix), Package.mask)
    ensures ZoneNibbles(Package, net) == ReverseZone
  {
    ZoneIsReverseZone(net.parseIP(Package.prefix));
  }

  /** `getNameForIPv6`: the labels in front of the reverse zone, dots taken
      out and reversed, then the forward domain. */
  function GetNameForIPv6(name: string, s: Settings, net: NetIP): (r: string)
    requires LegacyPrefixFits(net.parseIP(s.prefix), s.mask)
    ensures HasSuffix(r, "." + s.domain)
  {
    var p := ZoneNibbles(s, net);
    var digits := TrimSuffix(name, "." + p);
    var strippedDigits := Reversed(Join(Split(digits, '.'), ""));
    assert strippedDigits + "." + s.domain == strippedDigits + ("." + s.domain);
    AppendedHasSuffix(strippedDigits, "." + s.domain);
    strippedDigits + "." + s.domain
  }

  /** Every name `getNameForIPv6` writes is one label, without dots, in the
      forward domain; that label is the non-dot runes in front of the reverse
      zone, read back to front. */
  lemma GetNameForIPv6Label(name: string, s: Settings, net: NetIP)
    requires LegacyPrefixFits(net.parseIP(s.prefix), s.mask)
    ensures var host := Reversed(Remove(TrimSuffix(name, "." + ZoneNibbles(s, net)), '.'));
      GetNameForIPv6(name, s, net) == host + "." + s.domain && '.' !in host
  {
    var digits := TrimSuffix(name, "." + ZoneNibbles(s, net));
    JoinSplitRemoves(digits, '.');
    RemoveReversed(digits, '.');
  }

  /** The reverse name `getIPv6ForName` decodes: the runes in front of the
      forward domain, dotted and reversed, then the reverse zone with no dot
      in between. */
  function ForwardNibbleName(name: string, s: Settings, net: NetIP): string
    requires LegacyPrefixFits(net.parseIP(s.prefix), s.mask)
  {
    var p := ZoneNibbles(s, net);
    var digits := TrimSuffix(name, "." + s.domain);
    Reversed(Join(Explode(digits), ".")) + p
  }

  /** `getIPv6ForName` neither panics on the prefix nor overruns the buffer. */
  predicate AddressFits(name: string, s: Settings, net: NetIP) {
    LegacyPrefixFits(net.parseIP(s.prefix), s.mask) && Nibble.NibbleFits(ForwardNibbleName(name, s, net))
  }

  /** `getIPv6ForName`: the text of the address the synthesised reverse name
      decodes to. */
  function GetIPv6ForName(name: string, s: Settings, net: NetIP): string
    requires AddressFits(name, s, net)
  {
    net.ipString(Nibble.NibbleAddress(ForwardNibbleName(name, s, net)))
  }

  /** The missing dot between the host labels and the zone is harmless: the
      hex digits decoded are the kept prefix nibbles followed by the non-dot
      runes in front of the forward domain. */
  lemma ForwardDigits(name: string, s: Settings, net: NetIP)
    requires LegacyPrefixFits(net.parseIP(s.prefix), s.mask)
    ensures Nibble.NibbleDigits(ForwardNibbleName(name, s, net)) ==
      EncodeToString(net.parseIP(s.prefix))[..Quo(128 - s.mask, 4)] + Remove(TrimSuffix(name, "." + s.domain), '.')
  {
    var ip := net.parseIP(s.prefix);
    var kept := EncodeToString(ip)[..Quo(128 - s.mask, 4)];
    var digits := TrimSuffix(name, "." + s.domain);
    var h := Reversed(Join(Explode(digits), "."));
    var xp := Reversed(Join(Explode(kept), "."));
    calc {
      Nibble.NibbleDigits(ForwardNibbleName(name, s, net));
      { ForwardNameParts(name, s, net); }
      Nibble.NibbleDigits((h + xp) + Nibble.Suffix);
      { Nibble.NibbleDigitsOfSuffixed(h + xp); }
      Reversed(Remove(h + xp, '.'));
      { RemoveAppend(h, xp, '.'); }
      Reversed(Remove(h, '.') + Remove(xp, '.'));
      { KeptDigitsUndotted(ip, Quo(128 - s.mask, 4)); }
      Reversed(Remove(h, '.') + Reversed(kept));
      { Nibble.RemoveReversedDotted(digits); }
      Reversed(Reversed(Remove(digits, '.')) + Reversed(kept));
      { ReversedAppend(Reversed(Remove(digits, '.')), Reversed(kept)); }
      Reversed(Reversed(kept)) + Reversed(Reversed(Remove(digits, '.')));
      { ReversedInvolution(kept); ReversedInvolution(Remove(digits, '.')); }
      kept + Remove(digits, '.');
    }
  }

  /** The reverse name `getIPv6ForName` builds is the dotted host runes,
      reversed, then the dotted kept digits, reversed, then the suffix. */
  lemma ForwardNameParts(name: string, s: Settings, net: NetIP)
    requires LegacyPrefixFits(net.parseIP(s.prefix), s.mask)
    ensures var kept := EncodeToString(net.parseIP(s.prefix))[..Quo(128 - s.mask, 4)];
      ForwardNibbleName(name, s, net) ==
        (Reversed(Join(Explode(TrimSuffix(name, "." + s.domain)), ".")) + Reversed(Join(Explode(kept), "."))) + Nibble.Suffix
  {
  }

  lemma KeptDigitsUndotted(ip: seq<byte>, k: int)
    requires 0 <= k <= 2 * |ip|
    ensures var kept := EncodeToString(ip)[..k];
      Remove(Reversed(Join(Explode(kept), ".")), '.') == Reversed(kept)
  {
    var kept := EncodeToString(ip)[..k];
    EncodedIsHex(ip);
    assert '.' !in kept;
    Nibble.RemoveReversedDotted(kept);
    RemoveAbsent(kept, '.');
  }

  /** With the source's settings, the digits decoded for a forward name are
      the sixteen network nibbles, then the host runes other than dots. */
  lemma PackageForwardDigits(name: string, net: NetIP)
    requires ParsesPrefix(net)
    ensures LegacyPrefixFits(net.parseIP(Package.prefix), Package.mask)
    ensures Nibble.NibbleDigits(ForwardNibbleName(name, Package, net)) ==
      NetworkDigits + Remove(TrimSuffix(name, "." + Package.domain), '.')
  {
    PackageZone(net);
    ForwardDigits(name, Package, net);
    PrefixDigits(net.parseIP(Package.prefix));
  }

  /** A dot in front of the zone's labels does not change the digits read. */
  lemma DotBeforeZone(j: string, zone: string)
    ensures Nibble.NibbleDigits(j + ("." + (zone + Nibble.Suffix))) == Nibble.NibbleDigits(j + (zone + Nibble.Suffix))
  {
    calc {
      Nibble.NibbleDigits(j + ("." + (zone + Nibble.Suffix)));
      { assert j + ("." + (zone + Nibble.Suffix)) == (j + "." + zone) + Nibble.Suffix; }
      Nibble.NibbleDigits((j + "." + zone) + Nibble.Suffix);
      { Nibble.NibbleDigitsOfSuffixed(j + "." + zone); }
      Reversed(Remove(j + "." + zone, '.'));
      { Nibble.RemoveAroundDot(j, zone); RemoveAppend(j, zone, '.'); }
      Reversed(Remove(j + zone, '.'));
      { Nibble.NibbleDigitsOfSuffixed(j + zone); }
      Nibble.NibbleDigits((j + zone) + Nibble.Suffix);
      { assert j + (zone + Nibble.Suffix) == (j + zone) + Nibble.Suffix; }
      Nibble.NibbleDigits(j + (zone + Nibble.Suffix));
    }
  }

  /** The reverse name inside the zone for the host nibbles `host` (most
      significant first). */
  function HostReverseName(host: string, s: Settings, net: NetIP): string
    requires LegacyPrefixFits(net.parseIP(s.prefix), s.mask)
  {
    Join(Explode(Reversed(host)), ".") + ("." + ZoneNibbles(s, net))
  }

  /** Name synthesis is undone by address synthesis: the forward name written
      for a host's reverse name is that host label, and its address is the one
      the reverse name decodes to, the dropped dot notwithstanding. */
  lemma NameSynthesisRoundTrip(host: string, s: Settings, net: NetIP)
    requires LegacyPrefixFits(net.parseIP(s.prefix), s.mask)
    requires '.' !in host
    ensures GetNameForIPv6(HostReverseName(host, s, net), s, net) == host + "." + s.domain
    ensures AddressFits(host + "." + s.domain, s, net) <==> Nibble.NibbleFits(HostReverseName(host, s, net))
    ensures Nibble.NibbleFits(HostReverseName(host, s, net)) ==>
      GetIPv6ForName(host + "." + s.domain, s, net) == net.ipString(Nibble.NibbleAddress(HostReverseName(host, s, net)))
  {
    var ip := net.parseIP(s.prefix);
    var zone := Reversed(Join(Explode(EncodeToString(ip)[..Quo(128 - s.mask, 4)]), "."));
    var j := Join(Explode(Reversed(host)), ".");
    GetNameForIPv6Label(HostReverseName(host, s, net), s, net);
    Nibble.HostLabelDigits(host, "." + ZoneNibbles(s, net));
    HostForwardName(host, s, net);
    assert ZoneNibbles(s, net) == zone + Nibble.Suffix;
    DotBeforeZone(j, zone);
  }

  /** The reverse name `getIPv6ForName` decodes for a host label: the
      host's dotted, reversed runes, then the zone. */
  lemma HostForwardName(host: string, s: Settings, net: NetIP)
    requires LegacyPrefixFits(net.parseIP(s.prefix), s.mask)
    ensures ForwardNibbleName(host + "." + s.domain, s, net) == Join(Explode(Reversed(host)), ".") + ZoneNibbles(s, net)
  {
    var tail := "." + s.domain;
    assert host + "." + s.domain == host + tail;
    TrimAppendedSuffix(host, tail);
    ReversedDotted(host, '.');
  }

  // ---------------------------------------------------------------- queries

  /** The reply being built: its questions (copied from the request by
      `SetReply`) and the answer records appended so far, `None` standing for
      the nil record `dns.NewRR` returns on text it cannot parse. */
  class Msg<R> {
    var question: seq<Question>
    var answer: seq<Option<R>>

    constructor (question: seq<Question>)
      ensures this.question == question && answer == []
    {
      this.question := question;
      answer := [];
    }
  }

  /** `appendAnswer`: the record parsed from the answer text goes at the end
      of the answer section, a parse failure appending nil. */
  method AppendAnswer<R>(m: Msg<R>, answer: string, newRR: string -> Option<R>)
    modifies m
    ensures m.answer == old(m.answer) + [newRR(answer)]
    ensures m.question == old(m.question)
  {
    m.answer := m.answer + [newRR(answer)];
  }

  /** A question `parseQuery` can answer without a panic. */
  predicate QuestionFits(q: Question, s: Settings, net: NetIP) {
    (q.qtype == TypeAAAA ==> AddressFits(q.name, s, net))
    && (q.qtype == TypePTR ==> LegacyPrefixFits(net.parseIP(s.prefix), s.mask))
  }

  predicate Answered(q: Question) {
    q.qtype == TypeAAAA || q.qtype == TypePTR
  }

  /** An AAAA question for a host label of 34 or more hex digits in the
      domain makes `getIPv6ForName` index past the 16-byte buffer: the
      server panics on a question any client can send. */
  lemma LongLabelOverruns(host: string, s: Settings, net: NetIP)
    requires LegacyPrefixFits(net.parseIP(s.prefix), s.mask)
    requires |host| >= 34 && forall i :: 0 <= i < |host| ==> FromHexChar(host[i]) >= 0
    ensures !QuestionFits(Question(host + "." + s.domain, TypeAAAA), s, net)
  {
    var name := host + "." + s.domain;
    assert name == host + ("." + s.domain);
    TrimAppendedSuffix(host, "." + s.domain);
    assert '.' !in host by {
      assert FromHexChar('.') == -1;
    }
    RemoveAbsent(host, '.');
    ForwardDigits(name, s, net);
    EncodedIsHex(net.parseIP(s.prefix));
    Nibble.HexRun(EncodeToString(net.parseIP(s.prefix))[..Quo(128 - s.mask, 4)], host);
  }

  /** The answer text for one question: an AAAA record for the synthesised
      address, a PTR record for the synthesised name, none for other types. */
  function AnswerText(q: Question, s: Settings, net: NetIP): (r: Option<string>)
    requires QuestionFits(q, s, net)
    ensures r.Some? <==> Answered(q)
  {
    if q.qtype == TypeAAAA then Some(Responses.AaaaLine(q.name, GetIPv6ForName(q.name, s, net)))
    else if q.qtype == TypePTR then Some(Responses.PtrLine(q.name, GetNameForIPv6(q.name, s, net)))
    else None
  }

  /** The record `parseQuery` appends for one question, if any. */
  function Record<R>(q: Question, newRR: string -> Option<R>, s: Settings, net: NetIP): seq<Option<R>>
    requires QuestionFits(q, s, net)
  {
    match AnswerText(q, s, net) case Some(t) => [newRR(t)] case None => []
  }

  /** Every question of `qs` fits, first to last. */
  predicate AllFit(qs: seq<Question>, s: Settings, net: NetIP) {
    qs == [] || (QuestionFits(qs[0], s, net) && AllFit(qs[1..], s, net))
  }

  /** `AllFit` holds exactly when each question fits. */
  lemma {:induction false} AllFitEach(qs: seq<Question>, s: Settings, net: NetIP)
    ensures AllFit(qs, s, net) <==> forall i :: 0 <= i < |qs| ==> QuestionFits(qs[i], s, net)
  {
    if qs != [] {
      AllFitEach(qs[1..], s, net);
      assert forall i :: 1 <= i < |qs| ==> qs[i] == qs[1..][i - 1];
    }
  }

  /** Two runs of questions all fit exactly when each run does. */
  lemma {:induction false} AllFitAppend(a: seq<Question>, b: seq<Question>, s: Settings, net: NetIP)
    ensures AllFit(a + b, s, net) <==> AllFit(a, s, net) && AllFit(b, s, net)
  {
    if a == [] {
      assert a + b == b;
    } else {
      assert (a + b)[0] == a[0] && (a + b)[1..] == a[1..] + b;
      AllFitAppend(a[1..], b, s, net);
    }
  }

  /** The records `parseQuery` appends for the questions `qs`, in order. */
  function QueryAnswers<R>(qs: seq<Question>, newRR: string -> Option<R>, s: Settings, net: NetIP): seq<Option<R>>
    requires AllFit(qs, s, net)
  {
    if qs == [] then []
    else Record(qs[0], newRR, s, net) + QueryAnswers(qs[1..], newRR, s, net)
  }

  /** The number of questions of type AAAA or PTR. */
  function AnsweredCount(qs: seq<Question>): nat {
    if qs == [] then 0 else (if Answered(qs[0]) then 1 else 0) + AnsweredCount(qs[1..])
  }

  /** The answers for two runs of questions are the answers for each, one
      after the other. */
  lemma {:induction false} QueryAnswersAppend<R>(a: seq<Question>, b: seq<Question>, newRR: string -> Option<R>, s: Settings, net: NetIP)
    requires AllFit(a, s, net) && AllFit(b, s, net)
    ensures AllFit(a + b, s, net)
    ensures QueryAnswers(a + b, newRR, s, net) == QueryAnswers(a, newRR, s, net) + QueryAnswers(b, newRR, s, net)
  {
    AllFitAppend(a, b, s, net);
    if a == [] {
      assert a + b == b;
    } else {
      assert (a + b)[0] == a[0] && (a + b)[1..] == a[1..] + b;
      AllFitAppend(a[1..], b, s, net);
      QueryAnswersAppend(a[1..], b, newRR, s, net);
    }
  }

  /** Exactly one record is appended per AAAA or PTR question. */
  lemma {:induction false} QueryAnswersCount<R>(qs: seq<Question>, newRR: string -> Option<R>, s: Settings, net: NetIP)
    requires AllFit(qs, s, net)
    ensures |QueryAnswers(qs, newRR, s, net)| == AnsweredCount(qs)
  {
    if qs != [] {
      QueryAnswersCount(qs[1..], newRR, s, net);
    }
  }

  /** What `parseQuery` appends for a lone AAAA question: the record parsed
      from `<name> AAAA <address>`. */
  lemma AddressQueryAnswer<R>(name: string, newRR: string -> Option<R>, s: Settings, net: NetIP)
    requires AddressFits(name, s, net)
    ensures AllFit([Question(name, TypeAAAA)], s, net)
    ensures QueryAnswers([Question(name, TypeAAAA)], newRR, s, net) ==
      [newRR(name + " AAAA " + GetIPv6ForName(name, s, net))]
  {
    assert [Question(name, TypeAAAA)][1..] == [];
  }

  /** `parseQuery`: for each question in order, append the AAAA or PTR
      record synthesised for it; other types get nothing. */
  method ParseQuery<R>(m: Msg<R>, newRR: string -> Option<R>, s: Settings, net: NetIP)
    requires AllFit(m.question, s, net)
    modifies m
    ensures m.question == old(m.question)
    ensures m.answer == old(m.answer) + QueryAnswers(m.question, newRR, s, net)
  {
    for i := 0 to |m.question|
      invariant m.question == old(m.question)
      invariant AllFit(m.question[..i], s, net)
      invariant m.answer == old(m.answer) + QueryAnswers(m.question[..i], newRR, s, net)
    {
      QueryAnswersSnoc(m.question, i, newRR, s, net);
      AnswerQuestion(m, m.question[i], newRR, s, net);
    }
    assert m.question[..|m.question|] == m.question;
  }

  /** One pass of the `parseQuery` loop: the switch on the question type. */
  method AnswerQuestion<R>(m: Msg<R>, q: Question, newRR: string -> Option<R>, s: Settings, net: NetIP)
    requires QuestionFits(q, s, net)
    modifies m
    ensures m.question == old(m.question)
    ensures m.answer == old(m.answer) + Record(q, newRR, s, net)
  {
    if q.qtype == TypeAAAA {
      var address := GetIPv6ForName(q.name, s, net);
      AppendAnswer(m, Responses.AaaaLine(q.name, address), newRR);
    } else if q.qtype == TypePTR {
      var domain := GetNameForIPv6(q.name, s, net);
      AppendAnswer(m, Responses.PtrLine(q.name, domain), newRR);
    }
  }

  /** One more question answered: its record, if it gets one, follows those
      of the questions before it. */
  lemma QueryAnswersSnoc<R>(qs: seq<Question>, i: int, newRR: string -> Option<R>, s: Settings, net: NetIP)
    requires 0 <= i < |qs|
    requires AllFit(qs, s, net)
    ensures QuestionFits(qs[i], s, net) && AllFit(qs[..i], s, net) && AllFit(qs[..i + 1], s, net)
    ensures QueryAnswers(qs[..i + 1], newRR, s, net) == QueryAnswers(qs[..i], newRR, s, net) + Record(qs[i], newRR, s, net)
  {
    assert qs[..i + 1] + qs[i + 1..] == qs;
    AllFitAppend(qs[..i + 1], qs[i + 1..], s, net);
    assert qs[..i] + [qs[i]] == qs[..i + 1];
    AllFitAppend(qs[..i], [qs[i]], s, net);
    assert [qs[i]][1..] == [];
    QueryAnswersAppend(qs[..i], [qs[i]], newRR, s, net);
  }

  /** `handleDNSRequest` on the reply `m`: standard queries are answered,
      every other opcode leaves the reply without answers added. */
  method HandleDnsRequest<R>(opcode: int, m: Msg<R>, newRR: string -> Option<R>, s: Settings, net: NetIP)
    requires opcode == OpcodeQuery ==> AllFit(m.question, s, net)
    modifies m
    ensures m.question == old(m.question)
    ensures opcode == OpcodeQuery ==> m.answer == old(m.answer) + QueryAnswers(m.question, newRR, s, net)
    ensures opcode != OpcodeQuery ==> m.answer == old(m.answer)
  {
    if opcode == OpcodeQuery {
      ParseQuery(m, newRR, s, net);
    }
  }
}
