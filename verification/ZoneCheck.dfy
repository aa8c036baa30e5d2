/**
 The capture side of hetzner/dns/zonecheck.py: queries, the answers `dig` prints, the transcript the recorder keeps
 and what is read back from it. A printed line is given as what the program's patterns make of it.
 */
module ZoneCheck {
  import opened Common

  type Key = (string, string)   // an owner name relative to the zone ("@" is the apex), and a type

  const PROBE_TYPES := ["A", "AAAA", "CAA", "CNAME", "HTTPS", "MX", "NS", "PTR", "SRV", "SVCB", "TLSA", "TXT"]
  const APEX_EXTRA := "SOA"

  predicate ProviderOwned(key: Key) {
    key == ("@", "NS") || key == ("@", "SOA")
  }

  // ---- Lines ----

  datatype Line =
    | QueryHeader(qname: string, token: string)              // ;;; QUERY name type @server
    | Comment(status: Option<string>, flags: Option<set<string>>)
    | Record(owner: string, ttl: nat, rtype: string, rdata: string)
    | Blank
    | Noise                                                  // any other line

  /** A query's line and the output lines under it. */
  datatype Block = Block(qname: string, token: string, lines: seq<Line>)

  datatype ZoneError = NoAnswer | NotAuthoritative | BadRcode | MixedTtls | TextBeforeHeader | OutsideZone

  /** The zone asked about, what canonicalises a record's value, and what the server prints for a query. */
  datatype Server = Server(zone: string, normal: (string, string) -> string, output: (string, string) -> seq<Line>)

  function LowerChar(c: char): char {
    if 'A' <= c <= 'Z' then (c as int + 32) as char else c
  }

  function Lower(s: string): (r: string)
    ensures |r| == |s| && forall k :: 0 <= k < |s| ==> r[k] == LowerChar(s[k])
  {
    seq(|s|, k requires 0 <= k < |s| => LowerChar(s[k]))
  }

  function StripDots(s: string): (r: string)
    ensures |r| <= |s|
  {
    if s != "" && s[|s| - 1] == '.' then StripDots(s[..|s| - 1]) else s
  }

  function Canonical(zone: string): string {
    Lower(StripDots(zone))
  }

  function Fqdn(name: string, zone: string): string {
    if name == "@" then Canonical(zone) + "." else Lower(name) + "." + Canonical(zone) + "."
  }

  /** Types old releases of `dig` do not know are asked for by number. */
  function Token(rtype: string): string {
    if rtype == "HTTPS" then "TYPE65" else if rtype == "SVCB" then "TYPE64" else rtype
  }

  function TypeOf(token: string): string {
    if token == "TYPE65" then "HTTPS" else if token == "TYPE64" then "SVCB" else token
  }

  // ---- One answer ----

  datatype Dig = Dig(rcode: Option<string>, flags: set<string>, records: set<(nat, string)>)

  /** What the lines say: the last status and flags, and every record of exactly the name and type asked for. */
  function Scan(s: Server, lines: seq<Line>, qname: string, qtype: string): Dig {
    if lines == [] then Dig(None, {}, {})
    else
      var before := Scan(s, lines[..|lines| - 1], qname, qtype);
      match lines[|lines| - 1]
      case Comment(status, flags) =>
        before.(rcode := if status.Some? then status else before.rcode, flags := flags.GetOr(before.flags))
      case Record(owner, ttl, rtype, rdata) =>
        if Lower(owner) == Lower(qname) && (rtype == qtype || rtype == Token(qtype))
        then before.(records := before.records + {(ttl, s.normal(qtype, rdata))}) else before
      case _ => before
  }

  datatype Answer = Answer(rcode: string, records: set<(nat, string)>)

  function Values(records: set<(nat, string)>): set<string> {
    set r | r in records :: r.1
  }

  function Ttls(records: set<(nat, string)>): set<nat> {
    set r | r in records :: r.0
  }

  /** `query`: only an authoritative NOERROR or NXDOMAIN is an answer. */
  function Ask(s: Server, key: Key): Result<Answer, ZoneError> {
    var qname := Fqdn(key.0, s.zone);
    var dig := Scan(s, s.output(qname, Token(key.1)), qname, key.1);
    if dig.rcode.None? then Err(NoAnswer)
    else if dig.rcode.value != "NOERROR" && dig.rcode.value != "NXDOMAIN" then Err(BadRcode)
    else if "aa" !in dig.flags then Err(NotAuthoritative)
    else Ok(Answer(dig.rcode.value, dig.records))
  }

  // ---- Capture ----

  type RrSets = map<Key, (nat, set<string>)>

  function TheTtl(records: set<(nat, string)>): (ttl: nat)
    requires |Ttls(records)| == 1
    ensures Ttls(records) == {ttl}
  {
    SingletonTtl(Ttls(records));
    var ttl :| Ttls(records) == {ttl};
    ttl
  }

  lemma SingletonTtl(ttls: set<nat>)
    requires |ttls| == 1
    ensures exists ttl :: ttls == {ttl}
    ensures forall a, b :: ttls == {a} && ttls == {b} ==> a == b
  {
    var ttl :| ttl in ttls;
    assert |ttls - {ttl}| == 0;
    assert ttls == {ttl};
    forall a, b | ttls == {a} && ttls == {b}
      ensures a == b
    {
      assert a in ttls;
    }
  }

  /** The probes of one name, in the order they are sent; the provider's own records are not probed. */
  function ProbesOf(name: string, types: seq<string>): seq<Key> {
    if types == [] then []
    else
      var key := (name, types[|types| - 1]);
      ProbesOf(name, types[..|types| - 1]) + (if ProviderOwned(key) then [] else [key])
  }

  function Probes(names: seq<string>): seq<Key> {
    if names == [] then [] else Probes(names[..|names| - 1]) + ProbesOf(names[|names| - 1], PROBE_TYPES)
  }

  function WithAnswer(rrsets: RrSets, key: Key, records: set<(nat, string)>): Result<RrSets, ZoneError> {
    if records == {} then Ok(rrsets)
    else if |Ttls(records)| != 1 then Err(MixedTtls)
    else Ok(rrsets[key := (TheTtl(records), Values(records))])
  }

  /** The rrsets that asking each key in turn gives. */
  function Captured(s: Server, keys: seq<Key>): Result<RrSets, ZoneError> {
    if keys == [] then Ok(map[])
    else
      var before := Captured(s, keys[..|keys| - 1]);
      if before.Err? then before
      else
        var key := keys[|keys| - 1];
        var answer := Ask(s, key);
        if answer.Err? then Err(answer.error) else WithAnswer(before.value, key, answer.value.records)
  }

  // ---- The transcript ----

  function Strip(lines: seq<Line>): (r: seq<Line>)
    ensures r <= lines
  {
    if lines != [] && lines[|lines| - 1].Blank? then Strip(lines[..|lines| - 1]) else lines
  }

  /** What the recorder keeps of a query. */
  function BlockOf(s: Server, key: Key): Block {
    var qname := Fqdn(key.0, s.zone);
    Block(qname, Token(key.1), Strip(s.output(qname, Token(key.1))))
  }

  function BlocksOf(s: Server, keys: seq<Key>): seq<Block> {
    seq(|keys|, k requires 0 <= k < |keys| => BlockOf(s, keys[k]))
  }

  function BlockLines(b: Block): seq<Line> {
    [QueryHeader(b.qname, b.token)] + (if b.lines == [] then [Blank] else b.lines)
  }

  /** The lines of the transcript: the blocks with an empty line between them. */
  function TextLines(blocks: seq<Block>): seq<Line> {
    if blocks == [] then []
    else if |blocks| == 1 then BlockLines(blocks[0])
    else TextLines(blocks[..|blocks| - 1]) + [Blank] + BlockLines(blocks[|blocks| - 1])
  }

  function AddLine(b: Block, line: Line): Block {
    b.(lines := b.lines + [line])
  }

  /** `parse_transcript`: a header line starts a block, any other line belongs to the block before it. */
  function ParseTranscript(lines: seq<Line>): Result<seq<Block>, ZoneError> {
    if lines == [] then Ok([])
    else
      var before := ParseTranscript(lines[..|lines| - 1]);
      var line := lines[|lines| - 1];
      if before.Err? then before
      else if line.QueryHeader? then Ok(before.value + [Block(line.qname, line.token, [])])
      else if before.value != [] then
        var last := |before.value| - 1;
        Ok(before.value[..last] + [AddLine(before.value[last], line)])
      else if line.Blank? then Ok([])
      else Err(TextBeforeHeader)
  }

  /** The name a query's owner has inside the zone. */
  function NameInZone(qname: string, zone: string): Option<string> {
    var lowered := Lower(qname);
    var apex := Canonical(zone) + ".";
    var suffix := "." + Canonical(zone) + ".";
    if lowered == apex then Some("@")
    else if |suffix| <= |lowered| && lowered[|lowered| - |suffix|..] == suffix
    then Some(lowered[..|lowered| - |suffix|])
    else None
  }

  datatype Transcript = Transcript(rrsets: RrSets, queried: set<Key>, rcodes: map<string, string>)

  function ReadBlock(s: Server, t: Transcript, b: Block): Result<Transcript, ZoneError> {
    var qtype := TypeOf(b.token);
    var name := NameInZone(b.qname, s.zone);
    var dig := Scan(s, b.lines, b.qname, qtype);
    if name.None? then Err(OutsideZone)
    else if dig.rcode.None? then Err(NoAnswer)
    else if "aa" !in dig.flags then Err(NotAuthoritative)
    else
      var key := (name.value, qtype);
      var rcodes := if qtype == PROBE_TYPES[0] then t.rcodes[name.value := dig.rcode.value] else t.rcodes;
      var rrsets := if qtype == APEX_EXTRA || ProviderOwned(key) then Ok(t.rrsets) else WithAnswer(t.rrsets, key, dig.records);
      if rrsets.Err? then Err(rrsets.error) else Ok(Transcript(rrsets.value, t.queried + {key}, rcodes))
  }

  /** `zone_from_transcript`, over the blocks of a transcript. */
  function ZoneFromBlocks(s: Server, blocks: seq<Block>): Result<Transcript, ZoneError> {
    if blocks == [] then Ok(Transcript(map[], {}, map[]))
    else
      var before := ZoneFromBlocks(s, blocks[..|blocks| - 1]);
      if before.Err? then before else ReadBlock(s, before.value, blocks[|blocks| - 1])
  }

  function ZoneFromTranscript(s: Server, lines: seq<Line>): Result<Transcript, ZoneError> {
    var blocks := ParseTranscript(lines);
    if blocks.Err? then Err(blocks.error) else ZoneFromBlocks(s, blocks.value)
  }

  // ---- The zone file, and the check of a transcript against it ----

  datatype Zone = Zone(rrsets: RrSets, probeNames: seq<string>)

  function NamesOf(zone: Zone): set<string> {
    (set key | key in zone.rrsets :: key.0) + (set name | name in zone.probeNames)
  }

  predicate EndsWith(s: string, suffix: string) {
    |suffix| <= |s| && s[|s| - |suffix|..] == suffix
  }

  /** NOERROR for a name that holds records or has a name below it. */
  function ExpectedRcode(zone: Zone, name: string): string {
    if exists key :: key in zone.rrsets && (key.0 == name || (name != "@" && EndsWith(key.0, "." + name))) then "NOERROR"
    else if name != "@" then "NXDOMAIN" else "NOERROR"
  }

  datatype Problem =
    | NotDeclared(key: Key)
    | NotInTranscript(key: Key)
    | Differs(key: Key)
    | NotProbed(key: Key)
    | WrongRcode(name: string)

  function Required(zone: Zone): set<Key> {
    (set name, rtype | name in NamesOf(zone) && rtype in PROBE_TYPES :: (name, rtype)) + {("@", APEX_EXTRA)}
  }

  /** `check_capture`: what differs between the zone file and what a transcript shows. */
  function CheckCapture(t: Transcript, declared: Zone): set<Problem> {
    (set key | key in t.rrsets && key !in declared.rrsets :: NotDeclared(key)) +
    (set key | key in declared.rrsets && key !in t.rrsets :: NotInTranscript(key)) +
    (set key | key in declared.rrsets && key in t.rrsets && declared.rrsets[key] != t.rrsets[key] :: Differs(key)) +
    (set key | key in Required(declared) && key !in t.queried :: NotProbed(key)) +
    (set name | name in NamesOf(declared) && name in t.rcodes && t.rcodes[name] != ExpectedRcode(declared, name) :: WrongRcode(name))
  }
}
