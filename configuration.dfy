/** The configuration records, the SOA text they render, and the memoised
    configuration load (config/config.go). */
module Configuration {
  import opened Wrappers
  import opened Text
  import opened Decimal
  import Hex

  /** A Go `int` on a 64-bit platform. */
  type Int64 = x: int | MinInt64 <= x <= MaxInt64

  /** A zone: its forward and reverse names, its prefix as text, its mask
      and the name of its response strategy. */
  datatype Domain = Domain(
    domain: string,
    reverseDomain: string,
    prefix: string,
    mask: Int64,
    responseType: string)

  /** The parameters of the SOA record served for every zone. */
  datatype Soa = Soa(
    ttl: Int64,
    refresh: Int64,
    retry: Int64,
    expire: Int64,
    minimum: Int64,
    mname: string,
    rname: string)

  /** The name servers returned for NS questions. */
  datatype Ns = Ns(servers: seq<string>)

  /** The top-level settings. */
  datatype Dns = Dns(port: Int64, protocol: string, domain: Domain, soa: Soa, ns: Ns)

  datatype Config = Config(
    dns: Dns,
    subDomain: map<string, Domain>,
    staticDomain: map<string, Domain>)

  /** The fields that `Soa.String` writes, in order: the owner, the type, then
      the RDATA, with the serial always 1 and the TTL setting last. */
  function SoaFieldList(soa: Soa, domain: string): seq<string> {
    [domain, "SOA", soa.mname, soa.rname, "1", FormatInt(soa.refresh),
     FormatInt(soa.retry), FormatInt(soa.expire), FormatInt(soa.ttl)]
  }

  /** `Soa.String(domain)`: the format `"%s SOA %s %s 1 %d %d %d %d"`, that is
      the fields above with one space between each two. */
  function SoaString(soa: Soa, domain: string): string {
    Join(SoaFieldList(soa, domain), " ")
  }

  /** The SOA text splits at its spaces into the owner, the type, and the
      RDATA in the order of section 3.3.13 of RFC 1035 (MNAME, RNAME, SERIAL,
      REFRESH, RETRY, EXPIRE, MINIMUM): the serial is always 1, and the TTL
      setting fills the MINIMUM slot. */
  lemma SoaFields(soa: Soa, domain: string)
    requires ' ' !in domain && ' ' !in soa.mname && ' ' !in soa.rname
    ensures Split(SoaString(soa, domain), ' ') ==
      [domain, "SOA", soa.mname, soa.rname, "1", FormatInt(soa.refresh),
       FormatInt(soa.retry), FormatInt(soa.expire), FormatInt(soa.ttl)]
  {
    FormatIntRunes(soa.refresh);
    FormatIntRunes(soa.retry);
    FormatIntRunes(soa.expire);
    FormatIntRunes(soa.ttl);
    SplitJoin(SoaFieldList(soa, domain), ' ');
  }

  /** Reading the numeric fields back gives the serial 1 and the configured
      refresh, retry, expire and TTL values. */
  lemma SoaNumbersReadBack(soa: Soa, domain: string)
    requires ' ' !in domain && ' ' !in soa.mname && ' ' !in soa.rname
    ensures var f := Split(SoaString(soa, domain), ' ');
      |f| == 9 && Atoi(f[4]) == 1 && Atoi(f[5]) == soa.refresh && Atoi(f[6]) == soa.retry
      && Atoi(f[7]) == soa.expire && Atoi(f[8]) == soa.ttl
  {
    SoaFields(soa, domain);
    AtoiFormatInt(1);
    assert FormatInt(1) == "1";
    AtoiFormatInt(soa.refresh);
    AtoiFormatInt(soa.retry);
    AtoiFormatInt(soa.expire);
    AtoiFormatInt(soa.ttl);
  }

  /** The `minimum` setting never reaches the SOA text. */
  lemma SoaIgnoresMinimum(soa: Soa, domain: string, m: Int64)
    ensures SoaString(soa.(minimum := m), domain) == SoaString(soa, domain)
  {
  }

  /** What `toml.Unmarshal` leaves in a zero `Config` it fills, and its error. */
  datatype Unmarshalled = Unmarshalled(config: Config, err: Option<string>)

  /** The package-level `config` pointer and the functions that use it. */
  class ConfigStore {
    var config: Option<Config>

    /** Before any load the pointer is nil. */
    constructor ()
      ensures GetConfig() == None
    {
      config := None;
    }

    /** `GetConfig`: the pointer as it is now. */
    function GetConfig(): Option<Config>
      reads this
    {
      config
    }

    /** `Load(filename)`. Reading the file and decoding the TOML are the
        parameters `readFile` and `unmarshal`. A loaded configuration is
        returned as it is, without reading anything; a read failure leaves
        the pointer nil; a decode failure leaves it pointing at the partly
        filled configuration, which the next call then returns without error. */
    method Load(
      filename: string,
      readFile: string -> Result<seq<Hex.byte>, string>,
      unmarshal: seq<Hex.byte> -> Unmarshalled)
      returns (c: Option<Config>, err: Option<string>)
      modifies this
      ensures old(config).Some? ==> c == old(config) && err == None && GetConfig() == old(config)
      ensures old(config).None? && readFile(filename).Err? ==>
        c == None && err == Some(readFile(filename).error) && GetConfig() == None
      ensures old(config).None? && readFile(filename).Ok? ==>
        var u := unmarshal(readFile(filename).value);
        GetConfig() == Some(u.config)
        && (u.err.Some? ==> c == None && err == u.err)
        && (u.err.None? ==> c == GetConfig() && err == None)
    {
      if config.Some? {
        return config, None;
      }
      var file := readFile(filename);
      if file.Err? {
        return None, Some(file.error);
      }
      var u := unmarshal(file.value);
      config := Some(u.config);
      if u.err.Some? {
        return None, u.err;
      }
      return config, None;
    }
  }
}
