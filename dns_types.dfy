/** What the core takes from outside: the 16-byte addresses of Go's `net`
    package, with `net.ParseIP` and `net.IP.String` left uninterpreted, and the
    question record and numeric constants of the DNS protocol library. */
module DnsTypes {
  import opened Hex

  /** A `net.IP` in its 16-byte form. */
  type Address = a: seq<byte> | |a| == 16 witness seq(16, i => 0)

  /** What `net.ParseIP` returns: `nil` (the empty slice) or a 16-byte address. */
  type ParsedIP = a: seq<byte> | |a| == 0 || |a| == 16

  /** The two functions of package `net` the core calls. Their definitions
      are outside the model: `parseIP` reads address text, `ipString` writes
      an address back as text. */
  datatype NetIP = NetIP(parseIP: string -> ParsedIP, ipString: Address -> string)

  /** A question of a query: its name and its numeric record type (the class
      plays no part here). */
  datatype Question = Question(name: string, qtype: int)

  /** Record types: PTR (section 3.2.2 of RFC 1035), AAAA (section 2.1 of
      RFC 3596) and the query type ANY, written `*` in section 3.2.3 of RFC 1035. */
  const TypePTR: int := 12
  const TypeAAAA: int := 28
  const TypeANY: int := 255

  /** Response codes of section 4.1.1 of RFC 1035: no error, and name error (NXDOMAIN). */
  const RcodeSuccess: int := 0
  const RcodeNameError: int := 3

  /** The standard-query opcode of section 4.1.1 of RFC 1035. */
  const OpcodeQuery: int := 0
}
