/** The three answer strategies of dns/responses.go and the table that names
    them. Each takes one question and a zone and returns an rcode and the
    text of the answer records; the loaded configuration, which the source
    reads through `config.GetConfig()`, is a parameter. */
module Responses {
  import opened Text
  import opened DnsTypes
  import opened Configuration
  import opened Nibble
  import Hex

  /** What a strategy returns: the rcode and the answer records as text. */
  datatype Response = Response(rcode: int, answer: seq<string>)

  /** The question types answered with an address. */
  predicate IsAddressQuery(qtype: int) {
    qtype == TypeANY || qtype == TypeAAAA
  }

  /** A name inside `ip6.arpa.`, the reverse tree. */
  predicate IsReverseName(name: string) {
    HasSuffix(name, Suffix)
  }

  /** The text of an address record and of a pointer record
      (`"%s AAAA %s"` and `"%s PTR %s"`). */
  function AaaaLine(owner: string, address: string): string {
    owner + " AAAA " + address
  }

  function PtrLine(owner: string, target: string): string {
    owner + " PTR " + target
  }

  /** The record type written in an answer line: its second space-separated field. */
  function RecordType(line: string): string {
    var fields := Split(line, ' ');
    if |fields| >= 2 then fields[1] else ""
  }

  /** `dynamicResponse` does not panic: an address question for a forward
      name synthesises an address that fits, and a pointer question for a
      reverse name needs the zone's prefix to give a reverse name. */
  predicate DynamicFits(q: Question, prefix: Domain, net: NetIP) {
    var name := ToLower(q.name);
    (IsAddressQuery(q.qtype) && !IsReverseName(name) ==> AddressFits(name, prefix, net))
    && (q.qtype == TypePTR && IsReverseName(name) ==> PrefixFits(net.parseIP(prefix.prefix), prefix.mask))
  }

  /** `dynamicResponse`: an address question for a forward name gets the
      synthesised address, a pointer question for a reverse name the
      synthesised host name; an address question for a reverse name is a
      name error, a pointer question for a forward name gets the zone's SOA
      and no error, and every other type is a name error with the SOA of
      the top-level domain. */
  function DynamicResponse(q: Question, prefix: Domain, cfg: Config, net: NetIP): (r: Response)
    requires DynamicFits(q, prefix, net)
    ensures |r.answer| == 1
    ensures r.rcode == RcodeSuccess || r.rcode == RcodeNameError
    ensures r.rcode == RcodeNameError <==>
      !(IsAddressQuery(q.qtype) || q.qtype == TypePTR) || (IsAddressQuery(q.qtype) && IsReverseName(ToLower(q.name)))
  {
    var soa := cfg.dns.soa;
    var name := ToLower(q.name);
    if IsAddressQuery(q.qtype) then
      if IsReverseName(name) then Response(RcodeNameError, [SoaString(soa, prefix.domain)])
      else Response(RcodeSuccess, [AaaaLine(name, GetIPv6ForName(name, prefix, net))])
    else if q.qtype == TypePTR then
      if !IsReverseName(name) then Response(RcodeSuccess, [SoaString(soa, prefix.domain)])
      else Response(RcodeSuccess, [PtrLine(name, GetNameForIPv6(name, prefix, net))])
    else
      Response(RcodeNameError, [SoaString(soa, cfg.dns.domain.domain)])
  }

  /** `staticResponse`: the same decisions with the zone's fixed address and
      fixed name as the data, and always the top-level SOA. */
  function StaticResponse(q: Question, prefix: Domain, cfg: Config): (r: Response)
    ensures |r.answer| == 1
    ensures r.rcode == RcodeSuccess || r.rcode == RcodeNameError
    ensures r.answer[0] == SoaString(cfg.dns.soa, cfg.dns.domain.domain)
      || r.answer[0] == AaaaLine(ToLower(q.name), prefix.prefix)
      || r.answer[0] == PtrLine(ToLower(q.name), prefix.reverseDomain)
  {
    var soa := cfg.dns.soa;
    var name := ToLower(q.name);
    if IsAddressQuery(q.qtype) then
      if IsReverseName(name) then Response(RcodeNameError, [SoaString(soa, cfg.dns.domain.domain)])
      else Response(RcodeSuccess, [AaaaLine(name, prefix.prefix)])
    else if q.qtype == TypePTR then
      if !IsReverseName(name) then Response(RcodeSuccess, [SoaString(soa, cfg.dns.domain.domain)])
      else Response(RcodeSuccess, [PtrLine(name, prefix.reverseDomain)])
    else
      Response(RcodeNameError, [SoaString(soa, cfg.dns.domain.domain)])
  }

  /** `allNxErrorResponse`: a name error with the top-level SOA, whatever
      the question. */
  function AllNxErrorResponse(q: Question, prefix: Domain, cfg: Config): (r: Response)
    ensures r.rcode == RcodeNameError && r.answer == [SoaString(cfg.dns.soa, cfg.dns.domain.domain)]
  {
    Response(RcodeNameError, [SoaString(cfg.dns.soa, cfg.dns.domain.domain)])
  }

  /** The entries of `ResponseFunctions`. */
  datatype Strategy = Dynamic | Static | NxError

  const ResponseFunctions: map<string, Strategy> :=
    map["Dynamic" := Dynamic, "Static" := Static, "NxError" := NxError]

  /** A call through the table: the strategy applied to the question. */
  function Respond(s: Strategy, q: Question, prefix: Domain, cfg: Config, net: NetIP): (r: Response)
    requires s == Dynamic ==> DynamicFits(q, prefix, net)
    ensures |r.answer| == 1
    ensures s == NxError ==> r.rcode == RcodeNameError
  {
    match s
    case Dynamic => DynamicResponse(q, prefix, cfg, net)
    case Static => StaticResponse(q, prefix, cfg)
    case NxError => AllNxErrorResponse(q, prefix, cfg)
  }

  /** The table has exactly the three names, each naming its own strategy. */
  lemma ResponseFunctionsTable()
    ensures ResponseFunctions.Keys == {"Dynamic", "Static", "NxError"}
    ensures forall k :: k in ResponseFunctions ==>
      (ResponseFunctions[k] == Dynamic <==> k == "Dynamic")
      && (ResponseFunctions[k] == Static <==> k == "Static")
      && (ResponseFunctions[k] == NxError <==> k == "NxError")
  {
  }

  /** The dynamic and the static strategy decide the rcode alike. */
  lemma DynamicStaticSameRcode(q: Question, prefix: Domain, cfg: Config, net: NetIP)
    requires DynamicFits(q, prefix, net)
    ensures DynamicResponse(q, prefix, cfg, net).rcode == StaticResponse(q, prefix, cfg).rcode
  {
  }

  /** What the dynamic strategy answers in each case: the synthesised
      address or host name, the zone's own SOA for an address question on a
      reverse name or a pointer question on a forward name, and the SOA of
      the top-level domain for any other question type. */
  lemma DynamicAnswers(q: Question, prefix: Domain, cfg: Config, net: NetIP)
    requires DynamicFits(q, prefix, net)
    ensures var r := DynamicResponse(q, prefix, cfg, net);
      var name := ToLower(q.name);
      (IsAddressQuery(q.qtype) && !IsReverseName(name) ==>
         r.answer == [AaaaLine(name, GetIPv6ForName(name, prefix, net))])
      && (IsAddressQuery(q.qtype) && IsReverseName(name) ==> r.answer == [SoaString(cfg.dns.soa, prefix.domain)])
      && (q.qtype == TypePTR && IsReverseName(name) ==>
         r.answer == [PtrLine(name, GetNameForIPv6(name, prefix, net))])
      && (q.qtype == TypePTR && !IsReverseName(name) ==> r.answer == [SoaString(cfg.dns.soa, prefix.domain)])
      && (!IsAddressQuery(q.qtype) && q.qtype != TypePTR ==>
         r.answer == [SoaString(cfg.dns.soa, cfg.dns.domain.domain)])
  {
  }

  /** Not every question can be answered: an address question from a client
      for a forward name whose host label holds 34 or more hex digits makes
      `dynamicResponse` panic in `NibbleToIPv6`. */
  lemma LongLabelQuestionPanics(host: string, prefix: Domain, net: NetIP)
    requires PrefixFits(net.parseIP(prefix.prefix), prefix.mask)
    requires |host| >= 34 && forall i :: 0 <= i < |host| ==> Hex.FromHexChar(host[i]) >= 0
    requires NoUpper(host) && NoUpper(prefix.domain)
    requires !IsReverseName(host + "." + prefix.domain + ".")
    ensures !DynamicFits(Question(host + "." + prefix.domain + ".", TypeAAAA), prefix, net)
  {
    var name := host + "." + prefix.domain + ".";
    ToLowerOfNoUpper(name);
    LongLabelOverruns(host, prefix, net);
  }

  /** The static strategy answers an address question for a forward name
      with the zone's prefix text verbatim and a pointer question for a
      reverse name with the zone's forward name verbatim, the owner being the
      lower-cased question name; every other answer is the top-level SOA. */
  lemma StaticAnswers(q: Question, prefix: Domain, cfg: Config)
    ensures var r := StaticResponse(q, prefix, cfg);
      var name := ToLower(q.name);
      (IsAddressQuery(q.qtype) && !IsReverseName(name) ==> r.answer == [AaaaLine(name, prefix.prefix)])
      && (q.qtype == TypePTR && IsReverseName(name) ==> r.answer == [PtrLine(name, prefix.reverseDomain)])
      && (!(IsAddressQuery(q.qtype) && !IsReverseName(name)) && !(q.qtype == TypePTR && IsReverseName(name)) ==>
            r.answer == [SoaString(cfg.dns.soa, cfg.dns.domain.domain)])
  {
  }

  /** The strategies read the question name without regard to case. */
  lemma CaseInsensitive(q: Question, prefix: Domain, cfg: Config, net: NetIP)
    ensures var lq := q.(name := ToLower(q.name));
      StaticResponse(q, prefix, cfg) == StaticResponse(lq, prefix, cfg)
      && (DynamicFits(q, prefix, net) <==> DynamicFits(lq, prefix, net))
      && (DynamicFits(q, prefix, net) ==> DynamicResponse(q, prefix, cfg, net) == DynamicResponse(lq, prefix, cfg, net))
  {
    ToLowerIdempotent(q.name);
  }

  /** An answer line of three space-free fields splits back into them. */
  lemma LineFields(owner: string, rtype: string, data: string)
    requires ' ' !in owner && ' ' !in rtype && ' ' !in data
    ensures Split(owner + " " + rtype + " " + data, ' ') == [owner, rtype, data]
  {
    var rest := rtype + " " + data;
    assert owner + " " + rtype + " " + data == owner + [' '] + rest;
    assert rest == rtype + [' '] + data;
    SplitCons(owner, ' ', rest);
    SplitCons(rtype, ' ', data);
    SplitNone(data, ' ');
  }

  lemma AaaaLineType(owner: string, address: string)
    requires ' ' !in owner && ' ' !in address
    ensures RecordType(AaaaLine(owner, address)) == "AAAA"
  {
    assert AaaaLine(owner, address) == owner + " " + "AAAA" + " " + address;
    LineFields(owner, "AAAA", address);
  }

  lemma PtrLineType(owner: string, target: string)
    requires ' ' !in owner && ' ' !in target
    ensures RecordType(PtrLine(owner, target)) == "PTR"
  {
    assert PtrLine(owner, target) == owner + " " + "PTR" + " " + target;
    LineFields(owner, "PTR", target);
  }

  lemma SoaLineType(soa: Soa, domain: string)
    requires ' ' !in domain && ' ' !in soa.mname && ' ' !in soa.rname
    ensures RecordType(SoaString(soa, domain)) == "SOA"
  {
    SoaFields(soa, domain);
  }

  /** No configured name holds a space. */
  predicate SpaceFree(prefix: Domain, cfg: Config) {
    ' ' !in prefix.domain && ' ' !in prefix.reverseDomain && ' ' !in prefix.prefix
    && ' ' !in cfg.dns.domain.domain && ' ' !in cfg.dns.soa.mname && ' ' !in cfg.dns.soa.rname
  }

  /** The type of the record a strategy answers with: an address record for
      an address question on a forward name, a pointer record for a pointer
      question on a reverse name, an SOA record otherwise. */
  function ExpectedType(q: Question): string {
    var name := ToLower(q.name);
    if IsAddressQuery(q.qtype) && !IsReverseName(name) then "AAAA"
    else if q.qtype == TypePTR && IsReverseName(name) then "PTR"
    else "SOA"
  }

  /** The dynamic strategy answers with a record of the expected type, so
      every name error comes with an SOA record. */
  lemma DynamicRecordType(q: Question, prefix: Domain, cfg: Config, net: NetIP)
    requires DynamicFits(q, prefix, net)
    requires ' ' !in q.name && SpaceFree(prefix, cfg)
    requires forall a :: ' ' !in net.ipString(a)
    ensures var r := DynamicResponse(q, prefix, cfg, net);
      RecordType(r.answer[0]) == ExpectedType(q)
      && (r.rcode == RcodeNameError ==> RecordType(r.answer[0]) == "SOA")
  {
    var name := ToLower(q.name);
    ToLowerKeepsNonLetter(q.name, ' ');
    var soa := cfg.dns.soa;
    if IsAddressQuery(q.qtype) {
      if IsReverseName(name) {
        SoaLineType(soa, prefix.domain);
      } else {
        AaaaLineType(name, GetIPv6ForName(name, prefix, net));
      }
    } else if q.qtype == TypePTR {
      if !IsReverseName(name) {
        SoaLineType(soa, prefix.domain);
      } else {
        GetNameForIPv6Members(name, prefix, net);
        PtrLineType(name, GetNameForIPv6(name, prefix, net));
      }
    } else {
      SoaLineType(soa, cfg.dns.domain.domain);
    }
  }

  /** The static strategy answers with a record of the expected type. */
  lemma StaticRecordType(q: Question, prefix: Domain, cfg: Config)
    requires ' ' !in q.name && SpaceFree(prefix, cfg)
    ensures var r := StaticResponse(q, prefix, cfg);
      RecordType(r.answer[0]) == ExpectedType(q)
      && (r.rcode == RcodeNameError ==> RecordType(r.answer[0]) == "SOA")
  {
    var name := ToLower(q.name);
    ToLowerKeepsNonLetter(q.name, ' ');
    var soa := cfg.dns.soa;
    if IsAddressQuery(q.qtype) && !IsReverseName(name) {
      AaaaLineType(name, prefix.prefix);
    } else if q.qtype == TypePTR && IsReverseName(name) {
      PtrLineType(name, prefix.reverseDomain);
    } else {
      SoaLineType(soa, cfg.dns.domain.domain);
    }
  }

  /** A full cycle through a reverse zone and its forward zone: the pointer
      question for a host's reverse name is answered with the host's forward
      name, and the address question for that forward name is answered with
      the address the reverse name stands for. */
  lemma ReverseThenForward(host: string, rev: Domain, fwd: Domain, cfg: Config, net: NetIP)
    requires PrefixFits(net.parseIP(rev.prefix), rev.mask)
    requires fwd.prefix == rev.prefix && fwd.mask == rev.mask && fwd.domain == rev.reverseDomain
    requires '.' !in host && NoUpper(host) && NoUpper(rev.reverseDomain)
    requires NibbleFits(HostReverseName(host, rev, net))
    requires !IsReverseName(host + "." + rev.reverseDomain + ".")
    ensures var r := HostReverseName(host, rev, net);
      var f := host + "." + rev.reverseDomain + ".";
      var ptr, aaaa := Question(r, TypePTR), Question(f, TypeAAAA);
      DynamicFits(ptr, rev, net)
      && DynamicResponse(ptr, rev, cfg, net) == Response(RcodeSuccess, [PtrLine(r, f)])
      && DynamicFits(aaaa, fwd, net)
      && DynamicResponse(aaaa, fwd, cfg, net) == Response(RcodeSuccess, [AaaaLine(f, net.ipString(NibbleAddress(r)))])
  {
    var r := HostReverseName(host, rev, net);
    var f := host + "." + rev.reverseDomain + ".";
    HostReverseNameShape(host, rev, net);
    ToLowerOfNoUpper(r);
    GetNameForHostReverseName(host, rev, net);
    assert NoUpper(f);
    ToLowerOfNoUpper(f);
    NameSynthesisRoundTrip(host, rev, fwd, net);
  }
}
