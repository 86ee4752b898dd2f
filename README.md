# go-dns in Dafny

go-dns is a small authoritative DNS server for IPv6 zones. Each zone is
configured with an IPv6 prefix and a mask, a forward domain and a reverse
domain. The server answers both kinds of question without stored records:

- a `PTR` question for a name under `ip6.arpa.` gets a host name made from
  that name's nibbles;
- an `AAAA` question for such a host name gets back the address its nibbles
  spell.

This project models the core of the server and proves what the core
promises:

- the `ip6.arpa.` nibble codec of section 2.5 of RFC 3596 (`dns/utils.go`);
- the name synthesis built on it;
- the three response strategies (`dns/responses.go`);
- the SOA text and the memoised configuration load (`config/config.go`);
- the older single-zone server in `dns/dns.go`, with its own nibble encoder,
  its two name synthesisers and its query loop.

The modules are:

| module | file | models |
|---|---|---|
| `Wrappers` | wrappers.dfy | `Option` and `Result` |
| `Text` | text.dfy | the `strings` functions used: `Split`, `Join`, `TrimSuffix`, `HasSuffix`, ASCII `ToLower`; also `reverse`'s specification `Reversed` |
| `Hex` | hex.dfy | `hex.EncodeToString`, and `hex.DecodeString` with its error ignored |
| `Decimal` | decimal.dfy | `strconv.Atoi` (64-bit, clamped on range errors, 0 on syntax errors), `%d`, Go's truncating `/` |
| `DnsTypes` | dns_types.dfy | addresses, questions, the `Type*`, `Rcode*` and `Opcode*` constants, and `net.ParseIP` / `IP.String` as uninterpreted functions (`NetIP`) |
| `Configuration` | configuration.dfy | the `Domain`, `Soa`, `Ns`, `DNS` and `Config` records, `Soa.String`, and `Load` / `GetConfig` as a class with one field |
| `Nibble` | nibble.dfy | `dns/utils.go` |
| `Responses` | responses.dfy | `dns/responses.go` |
| `LegacyDns` | legacy_dns.dfy | `dns/dns.go` |
| `Vectors` | vectors.dfy | the cases of `dns/utils_test.go` |

Three loops keep their imperative form:

- `reverse` swaps runes in place in a rune array. `Nibble.Reverse` is a
  method over an `array<char>`, proved to produce `Reversed(s)`.
- `NibbleToIPv6` fills a 16-byte buffer in a loop. `Nibble.NibbleToIPv6` is
  that loop over an `array`, proved to produce `NibbleAddress`.
- `parseQuery` walks the questions and appends to the message's answers.
  `LegacyDns.ParseQuery` does the same on a `Msg` class, and its result is
  given by the function `QueryAnswers`.

The objects whose fields the source updates are classes with methods:

- `Configuration.ConfigStore` holds the package-level `config` pointer.
  `ConfigStore.Load` reads and stores it once, and `ConfigStore.GetConfig`
  returns it.
- `LegacyDns.Msg` holds a reply's questions and answers.
  `LegacyDns.AppendAnswer`, `LegacyDns.AnswerQuestion`,
  `LegacyDns.ParseQuery` and `LegacyDns.HandleDnsRequest` are methods that
  append to its answers.

The remaining operations are functions, with lemmas relating them to each
other.

Where the code and its description disagree, the model follows the code:

- `IPv6ToNibble` in `dns/utils.go` keeps the first `32 - (128 - p) / 4` hex
  digits. For a 16-byte address with `0 <= p <= 128` that is `ceil(p / 4)`
  (`Nibble.KeptNibbles`). A prefix above 128 keeps all 32.
- Decoding is exact only for whole bytes (`p % 8 == 0`). An odd last digit is
  dropped, because `hex.DecodeString` stops there and its error is ignored
  (`Nibble.NibbleRoundTrip`).
- For the same reason, a forward host label that leaves an odd number of
  digits resolves to the same address as the label without its last rune
  (`Nibble.ShortLabelDropsLastNibble`).
- `IPv6ToNibble` in `dns/dns.go` keeps the first `(128 - p) / 4` digits
  rather than the last. It therefore equals the `dns/utils.go` encoder at
  prefix `128 - p` (`LegacyDns.IPv6ToNibbleComplement`). The two agree at the
  `/64` the server uses. Go's truncating division also lets `p` run from -3
  to 131 without a panic (`LegacyDns.LegacyPrefixRange`).
- `dns/dns.go` defines its own `reverse`, `NibbleToIPv6` and `SplitPrefix`,
  at dns/dns.go:102-122 and 133-137. They are the same text as in
  `dns/utils.go`, so each is modelled once, in `Nibble`.
- `getIPv6ForName` in `dns/dns.go` joins the host digits to the zone's
  reverse name without a dot. This makes no difference, because the decoder
  drops all dots (`LegacyDns.DotBeforeZone`).

## Model

| member | source | states |
|---|---|---|
| Text.Reversed | dns/utils.go:12-18 | reversing keeps the length |
| Text.ReversedAt | dns/utils.go:12-18 | rune `k` of the reversal is rune `n-1-k` of the input |
| Text.ReversedInvolution | dns/utils.go:12-18 | reversing twice gives the input back |
| Text.ReversedAppend | dns/utils.go:12-18 | the reversal of `a + b` is the reversal of `b`, then that of `a` |
| Text.TrimSuffix | dns/utils.go:23 | if the suffix is present, the result followed by the suffix is the input; otherwise the result is the input |
| Text.TrimAppendedSuffix | dns/utils.go:23 | trimming a suffix that was just appended gives back the original text |
| Text.Split | dns/utils.go:24 | splitting gives at least one part, and no part contains the separator |
| Text.SplitJoin | dns/utils.go:50 | splitting a join of separator-free parts gives those parts back |
| Text.SplitAtFirst | dns/utils.go:50 | the first part is the text up to the first separator, and the remaining parts are the split of the text after it |
| Text.JoinSplitRemoves | dns/utils.go:24 | splitting at dots and joining with nothing removes the dots |
| Text.RemoveReversed | dns/utils.go:24 | removing a rune commutes with reversal |
| Text.DottedAt | dns/utils.go:43 | splitting into runes and joining with a dot puts rune `i` at `2i` and a dot at every odd place; the result is `2n-1` runes long |
| Text.ReversedDotted | dns/utils.go:43 | the reversed dotted form of `s` is the dotted form of the reversed `s` |
| Text.RemoveDotted | dns/utils.go:43 | removing the dots from the dotted form gives back the runes other than dots |
| Text.ToLowerIdempotent | dns/responses.go:19 | a lower-cased name has no upper-case letter, and lower-casing it again changes nothing |
| Text.ToLowerOfNoUpper | dns/responses.go:57 | lower-casing a name without upper-case letters changes nothing |
| Hex.FromHexChar | dns/utils.go:25 | a rune has a digit value exactly when it is a hex digit of either case |
| Hex.EncodeToString | dns/utils.go:37 | the encoding has two digits per byte |
| Hex.EncodeAt | dns/utils.go:37 | digit `i` of the encoding is nibble `i` of the bytes, high nibble first |
| Hex.EncodedIsHex | dns/utils.go:37 | every encoded rune is a lower-case hex digit, so none is a dot or an upper-case letter |
| Hex.DecodeString | dns/utils.go:25 | decoding yields at most one byte per two runes |
| Hex.DecodeStringPairs | dns/utils.go:25 | byte `i` is the value of the pair at `2i`; decoding stops early only at an invalid pair |
| Hex.DecodeEncode | dns/utils.go:25 | decoding an encoding followed by any text gives the bytes, then the decoding of that text |
| Hex.DecodeEncodedPrefix | dns/utils.go:25 | the first `n` encoded digits decode to the first `n / 2` bytes, so an odd last digit is lost |
| Hex.DecodeHexLength | dns/utils.go:25 | a text of hex digits decodes to half as many bytes as it has runes, rounded down |
| Hex.DecodeDropsLoneDigit | dns/utils.go:25 | a lone last digit after whole pairs is never decoded |
| Decimal.Quo | dns/dns.go:126 | Go's integer quotient truncates toward zero: the remainder `a - q * b` is smaller than `b` in magnitude and is never of the opposite sign to `a` |
| Decimal.Atoi | dns/utils.go:51 | the value read always fits in 64 bits; `Decimal.AtoiDigits` gives its value on signed digit texts |
| Decimal.ScanValue | dns/utils.go:51 | scanning a digit text gives its decimal value when that fits in 64 unsigned bits, and a range error otherwise |
| Decimal.AtoiDigits | dns/utils.go:51 | an optional `+` or `-` followed by digits reads as the signed decimal value of the digits, clamped to the 64-bit range |
| Decimal.AtoiSignAndZeros | dns/utils.go:51 | `+64` and `064` read as 64, and `-8` as -8 |
| Decimal.AtoiNonNumeric | dns/utils.go:51 | a text of up to 19 runes holding anything but digits after its sign reads as 0 |
| Decimal.AtoiFormatInt | dns/utils.go:51 | reading back the decimal text of a 64-bit integer gives that integer |
| Configuration.SoaString | config/config.go:57-59 | the SOA text of a zone; its fields are stated by `Configuration.SoaFields` |
| Configuration.SoaFields | config/config.go:57-59 | the SOA text is the owner, `SOA`, MNAME, RNAME, the serial `1`, refresh, retry, expire and TTL, separated by single spaces |
| Configuration.SoaNumbersReadBack | config/config.go:58 | the serial field reads as 1, and the last four fields read back as refresh, retry, expire and TTL |
| Configuration.SoaIgnoresMinimum | config/config.go:57-59 | the SOA text does not depend on the `Minimum` setting |
| Configuration.ConfigStore.constructor | config/config.go:54 | before any load, `GetConfig` returns nothing |
| Configuration.ConfigStore.GetConfig | config/config.go:62-64 | the stored config; it is empty after construction and set by the first successful `Load` |
| Configuration.ConfigStore.Load | config/config.go:67-86 | once a config is stored, it is returned with no error and no file is read; a read error returns the error and stores nothing; a decode error stores the partly decoded config but returns none and the error; otherwise the new config is stored and returned |
| Nibble.Reverse | dns/utils.go:12-18 | the in-place swap loop produces the reversal of the input |
| Nibble.NibbleAddress | dns/utils.go:21-33 | the address starts with the bytes decoded from the name's digits, and every later byte is 0 |
| Nibble.NibbleToIPv6 | dns/utils.go:21-33 | the buffer-filling loop gives exactly that address |
| Nibble.NibbleDotsIrrelevant | dns/utils.go:23-24 | two names whose text before the suffix agrees once dots are dropped decode to the same address |
| Nibble.SameDigitsSameAddress | dns/utils.go:25-31 | names whose digits decode to the same bytes give the same address |
| Nibble.KeptNibbles | dns/utils.go:37-41 | the kept digit count is between 0 and the full encoding; it is `ceil(p/4)` for a 16-byte address and `0 <= p <= 128`, and all 32 digits above 128 |
| Nibble.IPv6ToNibble | dns/utils.go:36-46 | the reverse name of an address; its shape is stated by `IPv6ToNibbleKept`, `IPv6ToNibbleIsArpaName`, `IPv6ToNibbleLength`, `IPv6ToNibbleShape` and `KeptNibbles` |
| Nibble.IPv6ToNibbleKept | dns/utils.go:36-46 | the name is the kept digits, dotted and reversed, followed by `.ip6.arpa.` |
| Nibble.IPv6ToNibbleIsArpaName | dns/utils.go:36-46 | the name has one label per kept digit, least significant first, then `ip6.arpa.`; with no kept digit it is just `.ip6.arpa.` |
| Nibble.IPv6ToNibbleLength | dns/utils.go:36-46 | with `k` kept digits the name is `2k-1+10` runes long, or 10 when `k` is 0 |
| Nibble.IPv6ToNibbleShape | dns/utils.go:43-44 | the name is lower case and ends in `.ip6.arpa.` |
| Nibble.ArpaLabelsAt | dns/utils.go:43 | label `i` of the reverse name is digit `n-1-i`, and each label is followed by a dot |
| Nibble.LabelsFour | dns/utils.go:43 | four digits give four labels, last digit first |
| Nibble.ArpaLabelsAppend | dns/utils.go:43 | the labels of `a + b` are the labels of `b`, then those of `a` |
| Nibble.DottedIsArpaName | dns/utils.go:43-44 | the reversed dotted digits plus the suffix is the RFC 3596 reverse name of those digits |
| Nibble.NibbleRoundTrip | dns/utils.go:21-46 | decoding an encoded name gives the whole bytes among the kept digits, padded with zeros |
| Nibble.NibbleRoundTripWholeBytes | dns/utils.go:21-46 | for a prefix of whole bytes, the round trip keeps the first `p/8` bytes and clears the rest |
| Nibble.GetNameForIPv6 | dns/utils.go:56-61 | the forward name lies in the reverse domain: it ends in `.` + reverse domain + `.`; its label is stated by `GetNameForIPv6Label` and `GetNameForHostReverseName` |
| Nibble.GetNameForIPv6Label | dns/utils.go:56-61 | the forward name is one dot-free label, the reversed non-dot runes in front of the zone's reverse name, followed by the reverse domain and a dot |
| Nibble.GetNameForIPv6Members | dns/utils.go:56-61 | every rune of the forward name comes from the question name or the reverse domain, or is a dot |
| Nibble.GetIPv6ForName | dns/utils.go:64-70 | the address text of a forward name; the digits it decodes are stated by `ForwardDigits`, its round trip by `NameSynthesisRoundTrip`, and the odd-label case by `ShortLabelDropsLastNibble` |
| Nibble.ForwardDigits | dns/utils.go:64-69 | the digits decoded for a forward name are the zone's kept prefix digits, then the host text with its dots dropped |
| Nibble.ForwardDigitsOfLabel | dns/utils.go:64-69 | for a single host label, the decoded digits are the zone's kept digits followed by the label |
| Nibble.ForwardOfHostName | dns/utils.go:64-68 | the reverse name rebuilt from a host label and the zone's forward domain is that host's reverse name in the zone |
| Nibble.GetNameForHostReverseName | dns/utils.go:56-61 | a host's reverse name inside the zone maps to that host label in the reverse domain |
| Nibble.NameSynthesisRoundTrip | dns/utils.go:56-70 | the forward name made for a host's reverse name resolves to the address that reverse name decodes to |
| Nibble.HostReverseNameShape | dns/utils.go:56-61 | a lower-case host's reverse name is lower case and ends in `.ip6.arpa.` |
| Nibble.ShortLabelDropsLastNibble | dns/utils.go:64-70 | when the kept digits plus the label have odd length, the label resolves to the same address as the label without its last rune |
| Nibble.ShortLabelSameBytes | dns/utils.go:64-69 | in that case the two names decode to the same bytes |
| Nibble.LongLabelOverruns | dns/utils.go:27-29 | a host label of 34 or more hex digits makes the decoded name longer than 16 bytes, so the copy into the 16-byte buffer overruns |
| Nibble.SplitPrefix | dns/utils.go:49-53 | the address is the text before the first `/`; the mask is the integer value of the text up to the next `/` |
| Nibble.SplitPrefixRoundTrip | dns/utils.go:49-53 | splitting `address/mask` text gives back the address and the 64-bit mask |
| Responses.DynamicResponse | dns/responses.go:13-47 | one answer, rcode success or name error; it is a name error exactly when the question is not AAAA, ANY or PTR, or is AAAA or ANY on a reverse name |
| Responses.DynamicAnswers | dns/responses.go:19-45 | the answer is the synthesised AAAA or PTR line, the zone's SOA for an address question on a reverse name or a pointer question on a forward name, and the top-level SOA for any other type |
| Responses.DynamicRecordType | dns/responses.go:13-47 | the answer's record type is AAAA, PTR or SOA as the question asks, and every name error carries an SOA |
| Responses.StaticResponse | dns/responses.go:51-83 | one answer, rcode success or name error; the answer is the top-level SOA, the fixed AAAA line or the fixed PTR line |
| Responses.StaticAnswers | dns/responses.go:57-80 | an AAAA or ANY question for a forward name gets the zone's prefix verbatim, a PTR question for a reverse name gets the reverse domain verbatim, and every other case gets the top-level SOA |
| Responses.StaticRecordType | dns/responses.go:51-83 | the answer's record type matches the question, and every name error carries an SOA |
| Responses.DynamicStaticSameRcode | dns/responses.go:13-83 | the dynamic and static strategies return the same rcode for every question |
| Responses.LongLabelQuestionPanics | dns/responses.go:28 | an AAAA question for a forward name whose host label has 34 or more hex digits lies outside the inputs the dynamic strategy handles without a panic |
| Responses.AllNxErrorResponse | dns/responses.go:87-99 | whatever the question, a name error with the top-level SOA |
| Responses.ResponseFunctionsTable | dns/responses.go:103-107 | the table has exactly the keys `Dynamic`, `Static` and `NxError`, each naming its strategy |
| Responses.Respond | dns/responses.go:103-107 | every strategy gives exactly one answer, and `NxError` always a name error |
| Responses.CaseInsensitive | dns/responses.go:19 | the answers depend on the question name only once it is lower-cased |
| Responses.LineFields | dns/responses.go:29 | an answer line of three space-free fields splits back into them |
| Responses.AaaaLineType | dns/responses.go:29 | an AAAA answer line has record type `AAAA` |
| Responses.PtrLineType | dns/responses.go:39 | a PTR answer line has record type `PTR` |
| Responses.SoaLineType | config/config.go:58 | an SOA text has record type `SOA` |
| Responses.ReverseThenForward | dns/responses.go:32-40 | the PTR answer for a host's reverse name is the host's forward name, and the AAAA answer for that name is the address the reverse name stands for |
| LegacyDns.LegacyPrefixRange | dns/dns.go:124-126 | the slice `[0:(128-p)/4]` of a 16-byte address is in range exactly for `-3 <= p <= 131` |
| LegacyDns.IPv6ToNibbleIsArpaName | dns/dns.go:124-131 | the name is the reverse name of the first `(128-p)/4` digits, or just `.ip6.arpa.` when none is kept |
| LegacyDns.IPv6ToNibbleComplement | dns/dns.go:124-131 | for `p` a multiple of 4 in 0..128, this encoder at `p` is the `dns/utils.go` encoder at `128 - p` |
| LegacyDns.IPv6ToNibble | dns/dns.go:124-131 | the reverse name of the first `(128-p)/4` digits; stated by `LegacyDns.IPv6ToNibbleIsArpaName` and `LegacyDns.IPv6ToNibbleComplement` |
| LegacyDns.LastFourLabels | dns/dns.go:128 | the last four digits of a text give its first four labels, last digit first |
| LegacyDns.ZoneIsReverseZone | dns/dns.go:15-16 | encoding `2001:470:1f23:ff::` at /64 gives the zone the server registers, with either encoder |
| LegacyDns.PackageZone | dns/dns.go:87 | if `net.ParseIP` reads the prefix text correctly, the zone the synthesisers use is the registered reverse zone |
| LegacyDns.GetNameForIPv6 | dns/dns.go:24-29 | the forward name ends in `.` + domain; its label is stated by `LegacyDns.GetNameForIPv6Label` |
| LegacyDns.GetNameForIPv6Label | dns/dns.go:24-29 | the forward name is one dot-free label, the reversed non-dot runes in front of the zone, then the domain |
| LegacyDns.GetIPv6ForName | dns/dns.go:31-37 | the address text of a forward name; the digits it decodes are stated by `LegacyDns.ForwardDigits`, its round trip by `LegacyDns.NameSynthesisRoundTrip` |
| LegacyDns.ForwardNameParts | dns/dns.go:34-35 | the name handed to the decoder is the reversed dotted host text, then the reversed dotted zone digits, then `.ip6.arpa.` |
| LegacyDns.ForwardDigits | dns/dns.go:31-36 | the digits decoded for a forward name are the zone's kept digits, then the host text without dots |
| LegacyDns.PackageForwardDigits | dns/dns.go:31-36 | with the source's settings, those digits are `200104701f2300ff` followed by the host text |
| LegacyDns.DotBeforeZone | dns/dns.go:35 | a missing dot between the host digits and the zone does not change the decoded digits |
| LegacyDns.NameSynthesisRoundTrip | dns/dns.go:24-37 | a host's reverse name maps to the host label in the domain, and that name resolves to the address the reverse name decodes to |
| LegacyDns.Msg.constructor | dns/dns.go:70-71 | a reply starts with the question and no answers |
| LegacyDns.AppendAnswer | dns/dns.go:39-46 | exactly one record is appended, even when building it fails; the questions are unchanged |
| LegacyDns.AnswerText | dns/dns.go:51-65 | a question has an answer line exactly when it is AAAA or PTR |
| LegacyDns.AnswerQuestion | dns/dns.go:51-65 | one question's lookup appends its record, or nothing for other types |
| LegacyDns.ParseQuery | dns/dns.go:48-67 | the answers become the old answers followed by one record per AAAA or PTR question, in question order |
| LegacyDns.LongLabelOverruns | dns/dns.go:54 | an AAAA question for a host label of 34 or more hex digits lies outside the inputs the query loop handles without a panic, because the decoded name overruns the 16-byte buffer at dns/dns.go:116-118 |
| LegacyDns.AllFitEach | dns/dns.go:49 | the loop's precondition holds for a list exactly when it holds for each question |
| LegacyDns.QueryAnswersAppend | dns/dns.go:49 | answering two runs of questions gives the answers for each, one after the other |
| LegacyDns.QueryAnswersCount | dns/dns.go:48-67 | the number of answers is the number of AAAA and PTR questions |
| LegacyDns.AddressQueryAnswer | dns/dns.go:52-57 | a single AAAA question gets the line `<name> AAAA <address>` |
| LegacyDns.HandleDnsRequest | dns/dns.go:69-80 | a query gets its answers appended; any other opcode leaves the reply unchanged |
| Vectors.SplitPrefixExample | dns/utils_test.go:10-15 | `2003::/8` splits into `2003::` and 8 |
| Vectors.IPv6ToNibble128 | dns/utils_test.go:17-22 | `2001:db8::1` at /128 gives the 32-label reverse name |
| Vectors.IPv6ToNibble64 | dns/utils_test.go:20-23 | `2001:db8::1` at /64 gives the 16-label reverse name |
| Vectors.IPv6ToNibble80 | dns/utils_test.go:21-24 | `2001:db8::1` at /80 gives the 20-label reverse name |
| Vectors.NibbleToIPv6Of128 | dns/utils_test.go:28-30 | the 32-label name decodes to the bytes of `2001:db8::1` |
| Vectors.NibbleToIPv6Of64 | dns/utils_test.go:29-31 | the 16-label name decodes to the bytes of `2001:db8::` |

## Left out

- The server itself: `Start`, `Close` and `StartServer`, the handler
  registration, `ListenAndServe`, `Shutdown`, the goroutine and the quit
  channel. These are network I/O and concurrency.
- `m.SetReply(r)`, `m.Compress` and `w.WriteMsg(m)` in `handleDNSRequest`.
  `LegacyDns.HandleDnsRequest` is given the reply message `SetReply` built,
  with its questions, and writing it out is output.
- Logging: every log call is a no-op. `main.go`, `cmd/go-dns` and
  `logging/logging.go` are not part of this model.
- `ioutil.ReadFile` and `toml.Unmarshal` inside `Load` are parameters of
  `Configuration.ConfigStore.Load`: a read result, and a decoder returning
  the decoded record plus an optional error.
- `dns.NewRR` is a parameter (`newRR`) that returns a record or nothing. An
  answer whose construction failed is still appended, as in the source.
- `net.ParseIP` and `net.IP.String` are uninterpreted functions (`NetIP`).
  `ParseIP` returns 16 bytes, or none for an unparsable text. The tests'
  address texts are therefore stated as their bytes.
- Configuration.ConfigStore.GetConfig: Go's pointer to the package-level
  `config` is an `Option<Config>`. Later changes through that shared pointer
  are not modelled.
- The Go code panics on some inputs, and the model covers only the inputs on
  which it does not panic. These are the preconditions
  `Responses.DynamicFits`, `Nibble.NibbleFits`, `Nibble.PrefixFits`,
  `Nibble.AddressFits`, `LegacyDns.LegacyPrefixFits`,
  `LegacyDns.AddressFits`, `LegacyDns.QuestionFits` and `LegacyDns.AllFit`,
  and `'/' in prefix` on `Nibble.SplitPrefix`. They exclude a slice bound
  outside the encoded address, a decoded name longer than the 16-byte
  buffer, and a prefix text without `/`. A client can reach the buffer
  overrun: an AAAA question whose host label has 34 or more hex
  digits panics the server (`Responses.LongLabelQuestionPanics`,
  `LegacyDns.LongLabelOverruns`). The panic and its recovery are not
  modelled.
- `strings.ToLower` is modelled for ASCII only. The names handled here are
  ASCII.
- Go's `int` is taken as 64 bits. Only `Atoi`'s clamping depends on this.
- The question class, the other message fields, and the miekg/dns wire
  format are not modelled.
- The package variables of `dns/dns.go` (`prefix`, `mask`, `domain`) are a
  `Settings` parameter. `LegacyDns.Package` holds the source's values.
- Vectors.NibbleToIPv6Of128: states the decoded bytes rather than the text
  `2001:db8::1`, because `IP.String` is not interpreted.
- Vectors.NibbleToIPv6Of64: likewise states the bytes of `2001:db8::` rather
  than its text.
- Decimal.AtoiNonNumeric: covers texts of up to 19 runes. In a longer text
  a run of digits can overflow before the first non-digit, and `Atoi` then
  clamps instead of returning 0.
