/**
 * Report assembly: the hops of a message, each geolocated on its first
 * address, the authentication results and the message's own headers,
 * gathered into one report. The geolocation service is a network call
 * outside the model: it is the parameter `lookup`, and the method returns
 * the list of lookups it made so that what is asked of the service can be
 * stated. File names, the graph, the map and the JSON file itself are not
 * part of this model.
 */
module JsonReport {
  import opened Wrappers
  import opened Mail
  import opened Hops
  import opened Auth

  /** The keys of the report that the analysis computes from the message. */
  datatype Report = Report(
    subject: Option<string>,
    fromAddress: Option<string>,
    toAddress: Option<string>,
    date: Option<string>,
    hops: seq<HopRecord<string>>,
    auth: AuthResults)

  /** One call of the geolocation service: the hop it was made for and the address passed. */
  datatype Query = Query(hop: nat, ip: string)

  /** A hop after the geolocation step: looked up on its first address, if it has one. */
  function Geolocated<T>(h: HopRecord<T>, lookup: string -> Option<Geo>): HopRecord<T> {
    if |h.ips| > 0 then h.(geo := lookup(h.ips[0])) else h
  }

  /** The hops after the geolocation step. */
  function GeolocatedAll<T>(hops: seq<HopRecord<T>>, lookup: string -> Option<Geo>): (r: seq<HopRecord<T>>)
    ensures |r| == |hops| && forall i :: 0 <= i < |hops| ==> r[i] == Geolocated(hops[i], lookup)
  {
    seq(|hops|, i requires 0 <= i < |hops| => Geolocated(hops[i], lookup))
  }

  /** `[hop.to_dict() for hop in hops]`. */
  function ToDicts<T>(hops: seq<HopRecord<T>>, isoformat: T -> string): (r: seq<HopRecord<string>>)
    ensures |r| == |hops| && forall i :: 0 <= i < |hops| ==> r[i] == ToDict(hops[i], isoformat)
  {
    seq(|hops|, i requires 0 <= i < |hops| => ToDict(hops[i], isoformat))
  }

  /** The lookups the geolocation loop makes over the first `n` hops, in hop order. */
  function LookupsUpTo<T>(hops: seq<HopRecord<T>>, n: nat): seq<Query>
    requires n <= |hops|
  {
    if n == 0 then []
    else LookupsUpTo(hops, n - 1) + (if |hops[n - 1].ips| > 0 then [Query(n - 1, hops[n - 1].ips[0])] else [])
  }

  /** The lookups the geolocation loop makes over all of `hops`. */
  function LookupPlan<T>(hops: seq<HopRecord<T>>): seq<Query> {
    LookupsUpTo(hops, |hops|)
  }

  /** Every lookup among the first `n` hops is for one of them that has an address, on its first address. */
  lemma {:induction false} LookupsFit<T>(hops: seq<HopRecord<T>>, n: nat)
    requires n <= |hops|
    ensures var plan := LookupsUpTo(hops, n);
      |plan| <= n
      && forall a :: 0 <= a < |plan| ==>
           plan[a].hop < n && |hops[plan[a].hop].ips| > 0 && plan[a].ip == hops[plan[a].hop].ips[0]
  {
    if n > 0 {
      LookupsFit(hops, n - 1);
    }
  }

  /** The lookups among the first `n` hops are made in hop order, at most once per hop. */
  lemma {:induction false} LookupsOrdered<T>(hops: seq<HopRecord<T>>, n: nat)
    requires n <= |hops|
    ensures var plan := LookupsUpTo(hops, n);
      forall a, b :: 0 <= a < b < |plan| ==> plan[a].hop < plan[b].hop
  {
    if n > 0 {
      LookupsOrdered(hops, n - 1);
      LookupsFit(hops, n - 1);
    }
  }

  /** Some lookup in `plan` is made for hop `j`. */
  predicate LookedUp(plan: seq<Query>, j: nat) {
    exists a :: 0 <= a < |plan| && plan[a].hop == j
  }

  /** Every one of the first `n` hops that has an address is looked up. */
  lemma {:induction false} LookupsCover<T>(hops: seq<HopRecord<T>>, n: nat)
    requires n <= |hops|
    ensures forall j :: 0 <= j < n && |hops[j].ips| > 0 ==> LookedUp(LookupsUpTo(hops, n), j)
  {
    if n > 0 {
      LookupsCover(hops, n - 1);
      var plan := LookupsUpTo(hops, n);
      var before := LookupsUpTo(hops, n - 1);
      forall j | 0 <= j < n && |hops[j].ips| > 0 ensures LookedUp(plan, j) {
        if j < n - 1 {
          var a :| 0 <= a < |before| && before[a].hop == j;
          assert plan[a] == before[a];
          assert 0 <= a < |plan| && plan[a].hop == j;
        } else {
          assert plan == before + [Query(j, hops[j].ips[0])];
          assert plan[|before|].hop == j;
        }
      }
    }
  }

  /**
   * At most one lookup per hop, made in hop order, always on the hop's
   * first address; and every hop with an address is looked up.
   */
  lemma LookupPlanSpec<T>(hops: seq<HopRecord<T>>)
    ensures var plan := LookupPlan(hops);
      |plan| <= |hops|
      && (forall a :: 0 <= a < |plan| ==>
            plan[a].hop < |hops| && |hops[plan[a].hop].ips| > 0 && plan[a].ip == hops[plan[a].hop].ips[0])
      && (forall a, b :: 0 <= a < b < |plan| ==> plan[a].hop < plan[b].hop)
      && (forall j :: 0 <= j < |hops| && |hops[j].ips| > 0 ==> LookedUp(plan, j))
  {
    LookupsFit(hops, |hops|);
    LookupsOrdered(hops, |hops|);
    LookupsCover(hops, |hops|);
  }

  /** The report `generate_json_report` returns, restricted to the keys the model keeps. */
  function JsonReportOf<Time>(msg: Message, parseDate: string -> Option<Time>, ipv6FindAll: string -> seq<string>,
                              lookup: string -> Option<Geo>, isoformat: Time -> string): Report
  {
    var chain := ReceivedChain(msg, parseDate, ipv6FindAll);
    Report(
      Get(msg, "Subject"), Get(msg, "From"), Get(msg, "To"), Get(msg, "Date"),
      ToDicts(GeolocatedAll(chain, lookup), isoformat),
      AuthResultsOf(msg))
  }

  /**
   * The report's hops are the message's hops in chain order, oldest first,
   * each written out by `to_dict`: a hop without addresses keeps `geo`
   * absent, a hop with addresses carries the lookup of its first one, and
   * no other field is touched by the geolocation step.
   */
  lemma ReportHops<Time>(msg: Message, parseDate: string -> Option<Time>, ipv6FindAll: string -> seq<string>,
                         lookup: string -> Option<Geo>, isoformat: Time -> string)
    ensures var r := JsonReportOf(msg, parseDate, ipv6FindAll, lookup, isoformat);
      var chain := ReceivedChain(msg, parseDate, ipv6FindAll);
      |r.hops| == |chain|
      && forall i :: 0 <= i < |chain| ==>
        r.hops[i].index == i && r.hops[i].raw == ReceivedHeaders(msg)[|chain| - 1 - i]
        && SameButTimestamp(chain[i].(geo := r.hops[i].geo), r.hops[i])
        && (r.hops[i].timestamp.Some? <==> chain[i].timestamp.Some?)
        && (|chain[i].ips| == 0 ==> r.hops[i].geo.None?)
        && (|chain[i].ips| > 0 ==> r.hops[i].geo == lookup(chain[i].ips[0]))
  {
    var chain := ReceivedChain(msg, parseDate, ipv6FindAll);
    ChainHeaders(msg, parseDate, ipv6FindAll);
    LocatedDicts(chain, lookup, isoformat);
  }

  /** Geolocating and writing out a list of hops touches `geo` and `timestamp` only. */
  lemma LocatedDicts<T>(chain: seq<HopRecord<T>>, lookup: string -> Option<Geo>, isoformat: T -> string)
    ensures var d := ToDicts(GeolocatedAll(chain, lookup), isoformat);
      |d| == |chain|
      && forall i :: 0 <= i < |chain| ==>
        SameButTimestamp(chain[i].(geo := d[i].geo), d[i])
        && (d[i].timestamp.Some? <==> chain[i].timestamp.Some?)
        && (|chain[i].ips| == 0 ==> d[i].geo == chain[i].geo)
        && (|chain[i].ips| > 0 ==> d[i].geo == lookup(chain[i].ips[0]))
  {
  }

  /**
   * The geolocation loop: each hop that has an address gets the lookup of
   * its first address as `geo`, in place and in hop order; nothing else
   * changes. The result lists the lookups made.
   */
  method GeolocateHops<Time>(hops: seq<Hop<Time>>, lookup: string -> Option<Geo>) returns (queries: seq<Query>)
    requires Distinct(hops)
    modifies hops
    ensures forall j :: 0 <= j < |hops| ==> hops[j].Record() == Geolocated(old(hops[j].Record()), lookup)
    ensures queries == LookupPlan(old(Records(hops)))
  {
    ghost var before := Records(hops);
    queries := [];
    for i := 0 to |hops|
      invariant forall j :: 0 <= j < i ==> hops[j].Record() == Geolocated(before[j], lookup)
      invariant forall j :: i <= j < |hops| ==> hops[j].Record() == before[j]
      invariant queries == LookupsUpTo(before, i)
    {
      var hop := hops[i];
      assert forall j :: 0 <= j < |hops| && j != i ==> hops[j] != hop;
      if |hop.ips| > 0 {
        var ipAddress := hop.ips[0];
        var geo := lookup(ipAddress);
        queries := queries + [Query(i, ipAddress)];
        hop.geo := geo;
      }
    }
  }

  /**
   * `generate_json_report` over an already loaded message: parse the hops,
   * geolocate them, parse the authentication results and assemble the
   * report, each hop written out by `to_dict`.
   */
  method GenerateJsonReport<Time>(msg: Message, parseDate: string -> Option<Time>, ipv6FindAll: string -> seq<string>,
                                  lookup: string -> Option<Geo>, isoformat: Time -> string)
    returns (report: Report, queries: seq<Query>)
    ensures report == JsonReportOf(msg, parseDate, ipv6FindAll, lookup, isoformat)
    ensures queries == LookupPlan(ReceivedChain(msg, parseDate, ipv6FindAll))
  {
    var hops := ParseReceivedHops(msg, parseDate, ipv6FindAll);
    ghost var chain := ReceivedChain(msg, parseDate, ipv6FindAll);
    assert forall j :: 0 <= j < |hops| ==> hops[j].Record() == chain[j];
    queries := GeolocateHops(hops, lookup);
    var located := Records(hops);
    assert located == GeolocatedAll(chain, lookup);
    var auth := ParseAuthenticationResults(msg);
    var dicts := ToDicts(located, isoformat);
    report := Report(Get(msg, "Subject"), Get(msg, "From"), Get(msg, "To"), Get(msg, "Date"), dicts, auth);
  }
}
