/** The examples of `dns/utils_test.go`, stated on the model: the reverse
    names of `2001:db8::1` for three prefix lengths, the addresses read back
    from two of them, and a CIDR split. `net.ParseIP("2001:db8::1")` is
    taken to be the address it denotes; `net.IP.String` stays uninterpreted,
    so the expected address texts are stated as bytes. The expected reverse
    names are written as the test's strings cut into runs of labels. */
module Vectors {
  import opened Text
  import opened Hex
  import opened DnsTypes
  import opened Nibble

  /** `2001:db8::1`: bytes 20 01 0d b8, eleven zero bytes, then 01. */
  predicate IsDocAddress(ip: seq<byte>) {
    |ip| == 16 && ip[0] == 0x20 && ip[1] == 0x01 && ip[2] == 0x0d && ip[3] == 0xb8
    && (forall i :: 4 <= i < 15 ==> ip[i] == 0) && ip[15] == 0x01
  }

  /** `2001:db8::`: bytes 20 01 0d b8, then twelve zero bytes. */
  predicate IsDocNetwork(ip: seq<byte>) {
    |ip| == 16 && ip[0] == 0x20 && ip[1] == 0x01 && ip[2] == 0x0d && ip[3] == 0xb8
    && forall i :: 4 <= i < 16 ==> ip[i] == 0
  }

  /** The eight digits of four consecutive bytes. */
  lemma EncodeFour(b: seq<byte>, k: int)
    requires 0 <= k && k + 4 <= |b|
    ensures EncodeToString(b[k..k + 4]) ==
      [Digits[b[k] / 16], Digits[b[k] % 16], Digits[b[k + 1] / 16], Digits[b[k + 1] % 16],
       Digits[b[k + 2] / 16], Digits[b[k + 2] % 16], Digits[b[k + 3] / 16], Digits[b[k + 3] % 16]]
  {
    EncodeSliceStep(b, k, k + 4);
    EncodeSliceStep(b, k + 1, k + 4);
    EncodeSliceStep(b, k + 2, k + 4);
    EncodeSliceStep(b, k + 3, k + 4);
    assert b[k + 4..k + 4] == [];
  }

  /** Encoding a slice is encoding its two halves. */
  lemma EncodeSlices(b: seq<byte>, i: int, j: int, k: int)
    requires 0 <= i <= j <= k <= |b|
    ensures EncodeToString(b[i..k]) == EncodeToString(b[i..j]) + EncodeToString(b[j..k])
  {
    assert b[i..k] == b[i..j] + b[j..k];
    EncodeAppend(b[i..j], b[j..k]);
  }

  lemma DocDigits(ip: seq<byte>)
    requires IsDocAddress(ip)
    ensures EncodeToString(ip) == "20010db8" + "00000000" + "00000000" + "00000001"
  {
    assert ip == ip[0..16];
    EncodeSlices(ip, 0, 8, 16);
    EncodeSlices(ip, 0, 4, 8);
    EncodeSlices(ip, 8, 12, 16);
    NetworkChunk(ip);
    ZeroChunk(ip, 4);
    ZeroChunk(ip, 8);
    LastChunk(ip);
  }

  lemma NetworkChunk(ip: seq<byte>)
    requires IsDocAddress(ip)
    ensures EncodeToString(ip[0..4]) == "20010db8"
  {
    EncodeFour(ip, 0);
  }

  lemma ZeroChunk(b: seq<byte>, k: int)
    requires 0 <= k && k + 4 <= |b|
    requires forall i :: k <= i < k + 4 ==> b[i] == 0
    ensures EncodeToString(b[k..k + 4]) == "00000000"
  {
    EncodeFour(b, k);
    assert b[k] == 0 && b[k + 1] == 0 && b[k + 2] == 0 && b[k + 3] == 0;
  }

  lemma LastChunk(ip: seq<byte>)
    requires IsDocAddress(ip)
    ensures EncodeToString(ip[12..16]) == "00000001"
  {
    EncodeFour(ip, 12);
    assert ip[12] == 0 && ip[13] == 0 && ip[14] == 0;
  }

  /** The labels of eight digits. */
  lemma LabelsEight(d: string)
    requires |d| == 8
    ensures ArpaLabels(d) ==
      [d[7], '.', d[6], '.', d[5], '.', d[4], '.', d[3], '.', d[2], '.', d[1], '.', d[0], '.']
  {
    var lo, hi := d[..4], d[4..];
    assert d == lo + hi;
    ArpaLabelsAppend(lo, hi);
    LabelsFour(lo);
    LabelsFour(hi);
    assert hi[0] == d[4] && hi[1] == d[5] && hi[2] == d[6] && hi[3] == d[7];
    assert lo[0] == d[0] && lo[1] == d[1] && lo[2] == d[2] && lo[3] == d[3];
  }

  lemma DocLabels()
    ensures ArpaLabels("20010db8") == "8.b.d.0.1.0.0.2."
    ensures ArpaLabels("00000000") == "0.0.0.0.0.0.0.0."
    ensures ArpaLabels("00000001") == "1.0.0.0.0.0.0.0."
    ensures ArpaLabels("0000") == "0.0.0.0."
  {
    LabelsEight("20010db8");
    LabelsEight("00000000");
    LabelsEight("00000001");
    LabelsFour("0000");
  }

  /** The first 16 and 20 digits of four runs of eight. */
  lemma KeptRuns(e: string, a: string, b: string, c: string, d: string)
    requires |a| == 8 && |b| == 8 && |c| == 8 && |d| == 8 && e == a + b + c + d
    ensures e[..16] == a + b && e[..20] == a + b + c[..4] && e[..32] == e
  {
  }

  /** `IPv6ToNibble` as the reverse name of the kept digits, when it keeps some. */
  lemma NameOfKept(ip: seq<byte>, prefix: int, digits: string)
    requires PrefixFits(ip, prefix) && digits != []
    requires EncodeToString(ip)[..KeptNibbles(|ip|, prefix)] == digits
    ensures IPv6ToNibble(ip, prefix) == ArpaName(digits)
  {
    IPv6ToNibbleIsArpaName(ip, prefix);
  }

  lemma DocName128()
    ensures ArpaName("20010db8" + "00000000" + "00000000" + "00000001") ==
      "1.0.0.0.0.0.0.0." + ("0.0.0.0.0.0.0.0." + ("0.0.0.0.0.0.0.0." + "8.b.d.0.1.0.0.2.")) + "ip6.arpa."
  {
    DocLabels();
    calc {
      ArpaName("20010db8" + "00000000" + "00000000" + "00000001");
      ArpaLabels("20010db8" + "00000000" + "00000000" + "00000001") + "ip6.arpa.";
      { ArpaLabelsAppend("20010db8" + "00000000" + "00000000", "00000001"); }
      ArpaLabels("00000001") + ArpaLabels("20010db8" + "00000000" + "00000000") + "ip6.arpa.";
      { ArpaLabelsAppend("20010db8" + "00000000", "00000000"); }
      ArpaLabels("00000001") + (ArpaLabels("00000000") + ArpaLabels("20010db8" + "00000000")) + "ip6.arpa.";
      { ArpaLabelsAppend("20010db8", "00000000"); }
      ArpaLabels("00000001") + (ArpaLabels("00000000") + (ArpaLabels("00000000") + ArpaLabels("20010db8"))) + "ip6.arpa.";
      "1.0.0.0.0.0.0.0." + ("0.0.0.0.0.0.0.0." + ("0.0.0.0.0.0.0.0." + "8.b.d.0.1.0.0.2.")) + "ip6.arpa.";
    }
  }

  lemma DocName64()
    ensures ArpaName("20010db8" + "00000000") == "0.0.0.0.0.0.0.0." + "8.b.d.0.1.0.0.2." + "ip6.arpa."
  {
    DocLabels();
    calc {
      ArpaName("20010db8" + "00000000");
      ArpaLabels("20010db8" + "00000000") + "ip6.arpa.";
      { ArpaLabelsAppend("20010db8", "00000000"); }
      ArpaLabels("00000000") + ArpaLabels("20010db8") + "ip6.arpa.";
      "0.0.0.0.0.0.0.0." + "8.b.d.0.1.0.0.2." + "ip6.arpa.";
    }
  }

  lemma DocName80()
    ensures ArpaName("20010db8" + "00000000" + "0000") ==
      "0.0.0.0." + ("0.0.0.0.0.0.0.0." + "8.b.d.0.1.0.0.2.") + "ip6.arpa."
  {
    DocLabels();
    calc {
      ArpaName("20010db8" + "00000000" + "0000");
      ArpaLabels("20010db8" + "00000000" + "0000") + "ip6.arpa.";
      { ArpaLabelsAppend("20010db8" + "00000000", "0000"); }
      ArpaLabels("0000") + ArpaLabels("20010db8" + "00000000") + "ip6.arpa.";
      { ArpaLabelsAppend("20010db8", "00000000"); }
      ArpaLabels("0000") + (ArpaLabels("00000000") + ArpaLabels("20010db8")) + "ip6.arpa.";
      "0.0.0.0." + ("0.0.0.0.0.0.0.0." + "8.b.d.0.1.0.0.2.") + "ip6.arpa.";
    }
  }

  /** dns/utils_test.go, `/128`: all 32 nibbles. */
  lemma IPv6ToNibble128(ip: seq<byte>)
    requires IsDocAddress(ip)
    ensures PrefixFits(ip, 128)
    ensures IPv6ToNibble(ip, 128) ==
      "1.0.0.0.0.0.0.0." + ("0.0.0.0.0.0.0.0." + ("0.0.0.0.0.0.0.0." + "8.b.d.0.1.0.0.2.")) + "ip6.arpa."
  {
    DocDigits(ip);
    KeptRuns(EncodeToString(ip), "20010db8", "00000000", "00000000", "00000001");
    NameOfKept(ip, 128, "20010db8" + "00000000" + "00000000" + "00000001");
    DocName128();
  }

  /** dns/utils_test.go, `/64`: the sixteen network nibbles. */
  lemma IPv6ToNibble64(ip: seq<byte>)
    requires IsDocAddress(ip)
    ensures PrefixFits(ip, 64)
    ensures IPv6ToNibble(ip, 64) == "0.0.0.0.0.0.0.0." + "8.b.d.0.1.0.0.2." + "ip6.arpa."
  {
    DocDigits(ip);
    KeptRuns(EncodeToString(ip), "20010db8", "00000000", "00000000", "00000001");
    NameOfKept(ip, 64, "20010db8" + "00000000");
    DocName64();
  }

  /** dns/utils_test.go, `/80`: twenty nibbles, `(80 + 3) / 4`. */
  lemma IPv6ToNibble80(ip: seq<byte>)
    requires IsDocAddress(ip)
    ensures PrefixFits(ip, 80)
    ensures IPv6ToNibble(ip, 80) ==
      "0.0.0.0." + ("0.0.0.0.0.0.0.0." + "8.b.d.0.1.0.0.2.") + "ip6.arpa."
  {
    DocDigits(ip);
    KeptRuns(EncodeToString(ip), "20010db8", "00000000", "00000000", "00000001");
    assert "00000000"[..4] == "0000";
    NameOfKept(ip, 80, "20010db8" + "00000000" + "0000");
    DocName80();
  }

  /** dns/utils_test.go, `NibbleToIPv6` of the `/128` name: `2001:db8::1`. */
  lemma NibbleToIPv6Of128(ip: Address, name: string)
    requires IsDocAddress(ip)
    requires name == "1.0.0.0.0.0.0.0." + ("0.0.0.0.0.0.0.0." + ("0.0.0.0.0.0.0.0." + "8.b.d.0.1.0.0.2.")) + "ip6.arpa."
    ensures NibbleFits(name) && NibbleAddress(name) == ip
  {
    IPv6ToNibble128(ip);
    NibbleRoundTrip(ip, 128);
    assert Padded(ip[..16]) == ip;
  }

  /** dns/utils_test.go, `NibbleToIPv6` of the `/64` name: `2001:db8::`. */
  lemma NibbleToIPv6Of64(ip: Address, name: string)
    requires IsDocAddress(ip)
    requires name == "0.0.0.0.0.0.0.0." + "8.b.d.0.1.0.0.2." + "ip6.arpa."
    ensures NibbleFits(name) && IsDocNetwork(NibbleAddress(name))
  {
    IPv6ToNibble64(ip);
    NibbleRoundTripWholeBytes(ip, 64);
  }

  /** dns/utils_test.go, `SplitPrefix("2003::/8")`. */
  lemma SplitPrefixExample()
    ensures SplitPrefix("2003::/8") == ("2003::", 8)
  {
    assert Decimal.FormatInt(8) == "8";
    assert "2003::" + "/" + "8" == "2003::/8";
    SplitPrefixRoundTrip("2003::", 8);
  }
}
