/**
 * Hops: one `Received` trace header turned into a `Hop` record, and the
 * chain of hops of a message, oldest first. The date parser and the IPv6
 * recogniser are library calls outside the model; they are parameters
 * (`parseDate` returns None where the library raises).
 */
module Hops {
  import opened Wrappers
  import opened Text
  import opened Mail
  import opened Addresses
  import opened Transport
  import opened Clauses

  /** The record a successful geolocation lookup returns; the coordinates are opaque numbers. */
  datatype Geo = Geo(
    ip: string,
    country: Option<string>,
    countryIso: Option<string>,
    city: Option<string>,
    lat: Option<real>,
    lon: Option<real>,
    timezone: Option<string>)

  /**
   * The fields of a hop as a value: the state of a Hop object, and, with
   * `T = string`, the dictionary `to_dict` makes of it.
   */
  datatype HopRecord<T> = HopRecord(
    index: int,
    raw: string,
    fromHost: Option<string>,
    byHost: Option<string>,
    withProto: Option<string>,
    id: Option<string>,
    forAddr: Option<string>,
    timestamp: Option<T>,
    ips: seq<string>,
    tls: Option<bool>,
    geo: Option<Geo>)

  class Hop<Time> {
    var index: int
    var raw: string
    var fromHost: Option<string>
    var byHost: Option<string>
    var withProto: Option<string>
    var id: Option<string>
    var forAddr: Option<string>
    var timestamp: Option<Time>
    var ips: seq<string>
    var tls: Option<bool>
    var geo: Option<Geo>

    /**
     * The dataclass constructor with the optional fields left at their
     * defaults, followed by `__post_init__`: an absent `ips` becomes `[]`.
     */
    constructor (index: int, raw: string, ips: Option<seq<string>>, tls: Option<bool>)
      ensures Record() == HopRecord(index, raw, None, None, None, None, None, None, ips.GetOr([]), tls, None)
    {
      this.index := index;
      this.raw := raw;
      fromHost, byHost, withProto, id, forAddr := None, None, None, None, None;
      timestamp := None;
      this.ips := if ips.None? then [] else ips.value;
      this.tls := tls;
      geo := None;
    }

    function Record(): HopRecord<Time>
      reads this
    {
      HopRecord(index, raw, fromHost, byHost, withProto, id, forAddr, timestamp, ips, tls, geo)
    }
  }

  /** The current values of a list of hops. */
  function Records<Time>(hops: seq<Hop<Time>>): (rs: seq<HopRecord<Time>>)
    reads hops
    ensures |rs| == |hops|
    ensures forall i :: 0 <= i < |hops| ==> rs[i] == hops[i].Record()
  {
    if |hops| == 0 then [] else Records(hops[..|hops| - 1]) + [hops[|hops| - 1].Record()]
  }

  /** Every field but the timestamp is the same in `h` and `d`. */
  predicate SameButTimestamp<T, U>(h: HopRecord<T>, d: HopRecord<U>) {
    d.index == h.index && d.raw == h.raw && d.fromHost == h.fromHost && d.byHost == h.byHost
    && d.withProto == h.withProto && d.id == h.id && d.forAddr == h.forAddr
    && d.ips == h.ips && d.tls == h.tls && d.geo == h.geo
  }

  /** `to_dict`: every field copied, and a timestamp written out by `isoformat`. */
  function ToDict<T>(h: HopRecord<T>, isoformat: T -> string): (d: HopRecord<string>)
    ensures SameButTimestamp(h, d)
    ensures d.timestamp.None? <==> h.timestamp.None?
    ensures h.timestamp.Some? ==> d.timestamp.value == isoformat(h.timestamp.value)
  {
    HopRecord(h.index, h.raw, h.fromHost, h.byHost, h.withProto, h.id, h.forAddr,
      if h.timestamp.Some? then Some(isoformat(h.timestamp.value)) else None,
      h.ips, h.tls, h.geo)
  }

  /** `raw[k]` is the last `;` of `raw`. */
  predicate LastSemicolon(raw: string, k: int) {
    0 <= k < |raw| && raw[k] == ';' && forall j :: k < j < |raw| ==> raw[j] != ';'
  }

  /** `r` is `s.strip()`: `s` with whitespace removed from both ends only. */
  ghost predicate Stripped(s: string, r: string) {
    Trimmed(r) && exists a :: PaddedBy(s, r, a)
  }

  /** The text handed to the date parser: `raw.rsplit(';', 1)[1].strip()`, when `raw` has a `;`. */
  function DateText(raw: string): Option<string> {
    match LastIndexOf(raw, ';')
    case None => None
    case Some(k) => Some(Trim(raw[k + 1..]))
  }

  /**
   * There is a date text exactly when the header has a `;`; it is what
   * follows the last `;`, stripped, so it is trimmed and holds no `;`.
   */
  lemma DateTextSpec(raw: string)
    ensures DateText(raw).None? <==> ';' !in raw
    ensures DateText(raw).Some? ==> Trimmed(DateText(raw).value) && ';' !in DateText(raw).value
    ensures DateText(raw).Some? ==> exists k :: LastSemicolon(raw, k) && Stripped(raw[k + 1..], DateText(raw).value)
  {
    var r := LastIndexOf(raw, ';');
    if r.Some? {
      var k := r.value;
      var tail := raw[k + 1..];
      var t := DateText(raw).value;
      assert t == Trim(tail);
      var a :| PaddedBy(tail, t, a);
      forall i | 0 <= i < |t| ensures t[i] != ';' {
        assert t[i] == tail[a + i] == raw[k + 1 + a + i];
      }
      assert LastSemicolon(raw, k) && Stripped(tail, t);
    }
  }

  /** The timestamp of a hop: the parse of the date text, or None without a `;` or when parsing fails. */
  function Timestamp<Time>(raw: string, parseDate: string -> Option<Time>): (ts: Option<Time>)
    ensures ';' !in raw ==> ts.None?
    ensures ';' in raw ==> DateText(raw).Some? && ts == parseDate(DateText(raw).value)
  {
    match DateText(raw)
    case None => None
    case Some(t) => parseDate(t)
  }

  /**
   * What `_parse_received_single(raw, idx)` returns, as a value, with the
   * `for` clause read by the corrected search: a `for` value never starts
   * with `;` (Clauses.ForCorrectionOnlyAtSemicolon states the difference).
   */
  function ReceivedHop<Time>(raw: string, idx: int, parseDate: string -> Option<Time>,
                             ipv6FindAll: string -> seq<string>): HopRecord<Time>
  {
    var s := Normalize(raw);
    HopRecord(idx, raw, FindClause(s, From), FindClause(s, By), FindClause(s, With), FindClause(s, Id),
      FindClause(s, For), Timestamp(raw, parseDate), ExtractIps(raw, ipv6FindAll), ClassifyTls(raw), None)
  }

  /**
   * Every clause value of a hop is non-empty and trimmed; `id` is one token,
   * `for_addr` has no `;`, and a `from`, `by` or `with` value holds none of
   * the words that end it after a space.
   */
  lemma ReceivedHopClauses<Time>(raw: string, idx: int, parseDate: string -> Option<Time>,
                                 ipv6FindAll: string -> seq<string>)
    ensures var h := ReceivedHop(raw, idx, parseDate, ipv6FindAll);
      (h.fromHost.Some? ==> WellFormedValue(From, h.fromHost.value))
      && (h.byHost.Some? ==> WellFormedValue(By, h.byHost.value))
      && (h.withProto.Some? ==> WellFormedValue(With, h.withProto.value))
      && (h.id.Some? ==> WellFormedValue(Id, h.id.value))
      && (h.forAddr.Some? ==> WellFormedValue(For, h.forAddr.value))
  {
    var s := Normalize(raw);
    NormalizeSpec(raw);
    FindClauseSpec(s, From);
    FindClauseSpec(s, By);
    FindClauseSpec(s, With);
    FindClauseSpec(s, Id);
    FindClauseSpec(s, For);
  }

  /**
   * Each clause is searched for on its own: a clause is found exactly when
   * its own pattern matches somewhere, whatever the other clauses do.
   */
  lemma ClausesIndependent<Time>(raw: string, idx: int, parseDate: string -> Option<Time>,
                                 ipv6FindAll: string -> seq<string>, c: Clause)
    ensures var h := ReceivedHop(raw, idx, parseDate, ipv6FindAll);
      var v := match c
        case From => h.fromHost
        case By => h.byHost
        case With => h.withProto
        case Id => h.id
        case For => h.forAddr;
      v.None? <==> forall k :: 0 <= k < |Normalize(raw)| ==> ClauseAt(Normalize(raw), k, c).None?
  {
    NormalizeSpec(raw);
    FindClauseSpec(Normalize(raw), c);
  }

  /** `_parse_received_single`: a new Hop whose fields are filled in one after another. */
  method ParseReceivedSingle<Time>(raw: string, idx: int, parseDate: string -> Option<Time>,
                                   ipv6FindAll: string -> seq<string>) returns (hop: Hop<Time>)
    ensures fresh(hop)
    ensures hop.Record() == ReceivedHop(raw, idx, parseDate, ipv6FindAll)
  {
    var s := Normalize(raw);
    hop := new Hop(idx, raw, Some([]), None);

    if ';' in raw {
      var k := LastIndexOf(raw, ';').value;
      var right := Trim(raw[k + 1..]);
      hop.timestamp := parseDate(right);
    }
    assert hop.timestamp == Timestamp(raw, parseDate);

    SetClauses(hop, s);

    var ips := Ipv4From(raw, 0);
    if |ips| == 0 {
      ips := ipv6FindAll(raw);
    }
    hop.ips := ips;

    SetTls(hop, raw);
  }

  /** The five clause searches over the normalised header `s`; a field is only set when its clause is found. */
  method SetClauses<Time>(hop: Hop<Time>, s: string)
    modifies hop
    requires hop.fromHost.None? && hop.byHost.None? && hop.withProto.None? && hop.id.None? && hop.forAddr.None?
    ensures hop.Record() == old(hop.Record()).(fromHost := FindClause(s, From), byHost := FindClause(s, By),
      withProto := FindClause(s, With), id := FindClause(s, Id), forAddr := FindClause(s, For))
  {
    var m := FindClause(s, From);
    if m.Some? {
      hop.fromHost := Some(m.value);
    }
    m := FindClause(s, By);
    if m.Some? {
      hop.byHost := Some(m.value);
    }
    m := FindClause(s, With);
    if m.Some? {
      hop.withProto := Some(m.value);
    }
    m := FindClause(s, Id);
    if m.Some? {
      hop.id := Some(m.value);
    }
    m := FindClause(s, For);
    if m.Some? {
      hop.forAddr := Some(m.value);
    }
  }

  /**
   * The `for ... else` over TLS_TOKENS: the first token found sets `tls` to
   * true and stops the loop; when none is found, the plaintext pattern decides.
   */
  method SetTls<Time>(hop: Hop<Time>, raw: string)
    modifies hop
    ensures hop.Record() == old(hop.Record()).(tls := ClassifyTls(raw))
  {
    var lower := Lower(raw);
    var found := false;
    for k := 0 to |TlsTokens|
      invariant forall j :: 0 <= j < k ==> !Contains(lower, TlsTokens[j])
      invariant hop.Record() == old(hop.Record())
    {
      if Contains(lower, TlsTokens[k]) {
        hop.tls := Some(true);
        found := true;
        break;
      }
    }
    if !found {
      if HasPlainProtocol(lower) {
        hop.tls := Some(false);
      } else {
        hop.tls := None;
      }
    }
  }

  /** `reversed(xs)`. */
  function Reverse<T>(xs: seq<T>): (r: seq<T>)
    ensures |r| == |xs|
    ensures forall i :: 0 <= i < |xs| ==> r[i] == xs[|xs| - 1 - i]
  {
    if |xs| == 0 then [] else [xs[|xs| - 1]] + Reverse(xs[..|xs| - 1])
  }

  /** The `Received` headers in message order: `msg.get_all('Received') or []`. */
  function ReceivedHeaders(msg: Message): seq<string> {
    AllOrEmpty(msg, "Received")
  }

  /** `f` applied to each of the first `n` items of `xs` together with its position. */
  function Numbered<T>(xs: seq<string>, n: nat, f: (string, int) -> T): (ys: seq<T>)
    requires n <= |xs|
    ensures |ys| == n
  {
    if n == 0 then [] else Numbered(xs, n - 1, f) + [f(xs[n - 1], n - 1)]
  }

  lemma {:induction false} NumberedSpec<T>(xs: seq<string>, n: nat, f: (string, int) -> T)
    requires n <= |xs|
    ensures forall i :: 0 <= i < n ==> Numbered(xs, n, f)[i] == f(xs[i], i)
  {
    if n > 0 {
      NumberedSpec(xs, n - 1, f);
    }
  }

  /** `_parse_received_single` as a function of the header and its position. */
  function HopOf<Time>(parseDate: string -> Option<Time>, ipv6FindAll: string -> seq<string>): (string, int) -> HopRecord<Time> {
    (raw, idx) => ReceivedHop(raw, idx, parseDate, ipv6FindAll)
  }

  /** The hops of a message, oldest first: one per `Received` header, numbered from 0. */
  function ReceivedChain<Time>(msg: Message, parseDate: string -> Option<Time>,
                               ipv6FindAll: string -> seq<string>): (chain: seq<HopRecord<Time>>)
    ensures |chain| == |ReceivedHeaders(msg)|
  {
    var recs := Reverse(ReceivedHeaders(msg));
    Numbered(recs, |recs|, HopOf(parseDate, ipv6FindAll))
  }

  /**
   * Hop `i` of the chain is numbered `i` and made from the `i`-th header
   * counted from the last one.
   */
  lemma ReceivedChainSpec<Time>(msg: Message, parseDate: string -> Option<Time>, ipv6FindAll: string -> seq<string>)
    ensures var chain := ReceivedChain(msg, parseDate, ipv6FindAll);
      forall i :: 0 <= i < |chain| ==>
        chain[i] == ReceivedHop(ReceivedHeaders(msg)[|chain| - 1 - i], i, parseDate, ipv6FindAll)
  {
    var recs := Reverse(ReceivedHeaders(msg));
    NumberedSpec(recs, |recs|, HopOf(parseDate, ipv6FindAll));
  }

  /** Hop `i` of the chain carries its position, its header counted from the last one, and no location yet. */
  lemma ChainHeaders<Time>(msg: Message, parseDate: string -> Option<Time>, ipv6FindAll: string -> seq<string>)
    ensures var chain := ReceivedChain(msg, parseDate, ipv6FindAll);
      forall i :: 0 <= i < |chain| ==>
        chain[i].index == i && chain[i].raw == ReceivedHeaders(msg)[|chain| - 1 - i] && chain[i].geo.None?
  {
    var chain := ReceivedChain(msg, parseDate, ipv6FindAll);
    ReceivedChainSpec(msg, parseDate, ipv6FindAll);
    forall i | 0 <= i < |chain|
      ensures chain[i].index == i && chain[i].raw == ReceivedHeaders(msg)[|chain| - 1 - i] && chain[i].geo.None?
    {
      var h := ReceivedHop(ReceivedHeaders(msg)[|chain| - 1 - i], i, parseDate, ipv6FindAll);
      assert chain[i] == h;
    }
  }

  /** A message without `Received` headers has no hops. */
  lemma NoReceivedNoHops<Time>(msg: Message, parseDate: string -> Option<Time>, ipv6FindAll: string -> seq<string>)
    requires GetAll(msg, "Received").None?
    ensures ReceivedChain(msg, parseDate, ipv6FindAll) == []
  {
  }

  /**
   * Hop 0 comes from the last `Received` header of the message, the oldest
   * one since each server puts its own on top, and the last hop from the first.
   */
  lemma FirstHopIsLastHeader<Time>(msg: Message, parseDate: string -> Option<Time>, ipv6FindAll: string -> seq<string>)
    requires GetAll(msg, "Received").Some?
    ensures var chain := ReceivedChain(msg, parseDate, ipv6FindAll);
      var recs := GetAll(msg, "Received").value;
      |chain| > 0 && chain[0].raw == recs[|recs| - 1] && chain[|chain| - 1].raw == recs[0]
  {
    ReceivedChainSpec(msg, parseDate, ipv6FindAll);
  }

  /** No two hops in the list are the same object. */
  predicate Distinct<Time>(hops: seq<Hop<Time>>) {
    forall i, j :: 0 <= i < j < |hops| ==> hops[i] != hops[j]
  }

  /** `parse_received_hops`: one new Hop per `Received` header, from the last header to the first. */
  method ParseReceivedHops<Time>(msg: Message, parseDate: string -> Option<Time>,
                                 ipv6FindAll: string -> seq<string>) returns (hops: seq<Hop<Time>>)
    ensures forall i :: 0 <= i < |hops| ==> fresh(hops[i])
    ensures Distinct(hops)
    ensures Records(hops) == ReceivedChain(msg, parseDate, ipv6FindAll)
  {
    var recs := ReceivedHeaders(msg);
    recs := Reverse(recs);
    hops := ParseHops(recs, parseDate, ipv6FindAll);
  }

  /** The loop of `parse_received_hops` over the headers, already reversed. */
  method ParseHops<Time>(recs: seq<string>, parseDate: string -> Option<Time>,
                         ipv6FindAll: string -> seq<string>) returns (hops: seq<Hop<Time>>)
    ensures forall i :: 0 <= i < |hops| ==> fresh(hops[i])
    ensures Distinct(hops)
    ensures Records(hops) == Numbered(recs, |recs|, HopOf(parseDate, ipv6FindAll))
  {
    hops := [];
    for i := 0 to |recs|
      invariant |hops| == i
      invariant forall j :: 0 <= j < i ==> fresh(hops[j])
      invariant Distinct(hops)
      invariant Records(hops) == Numbered(recs, i, HopOf(parseDate, ipv6FindAll))
    {
      var next := AppendHop(hops, recs, i, parseDate, ipv6FindAll);
      hops := next;
    }
  }

  /** A list of distinct hops stays distinct when a hop not in it is appended. */
  lemma DistinctAppend<Time>(hops: seq<Hop<Time>>, hop: Hop<Time>)
    requires Distinct(hops) && forall j :: 0 <= j < |hops| ==> hops[j] != hop
    ensures Distinct(hops + [hop])
  {
  }

  /** One turn of the `parse_received_hops` loop: the hop of header `i` appended to the hops of the headers before it. */
  method AppendHop<Time>(hops: seq<Hop<Time>>, recs: seq<string>, i: nat, parseDate: string -> Option<Time>,
                         ipv6FindAll: string -> seq<string>) returns (next: seq<Hop<Time>>)
    requires i < |recs| && Records(hops) == Numbered(recs, i, HopOf(parseDate, ipv6FindAll)) && Distinct(hops)
    ensures |next| == |hops| + 1 && next == hops + [next[|hops|]]
    ensures fresh(next[|hops|]) && Distinct(next)
    ensures Records(next) == Numbered(recs, i + 1, HopOf(parseDate, ipv6FindAll))
  {
    var hop := ParseReceivedSingle(recs[i], i, parseDate, ipv6FindAll);
    DistinctAppend(hops, hop);
    next := hops + [hop];
  }
}
