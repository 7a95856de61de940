/**
 * The rule-based parts of the HTML report: the security assessment over the
 * hop and authentication records of a report, the timeline of hops with
 * their risk ranking, and the TLS badge of each hop. Rendering the page and
 * writing it out are not part of this model.
 */
module HtmlReport {
  import opened Wrappers
  import opened Decimal
  import opened Hops
  import opened Auth
  import opened JsonReport

  datatype Risk = High | Medium | Low

  /**
   * The risk of a hop, in priority order: no address is high, a hop known
   * to be unencrypted is medium, anything else is low.
   */
  function RiskOf(h: HopRecord<string>): (r: Risk)
    ensures r == High <==> |h.ips| == 0
    ensures r == Medium <==> |h.ips| > 0 && h.tls == Some(false)
    ensures r == Low <==> |h.ips| > 0 && h.tls != Some(false)
  {
    if |h.ips| == 0 then High
    else if h.tls == Some(false) then Medium
    else Low
  }

  /** A location part is used when it is present and not empty. */
  predicate Usable(part: Option<string>) {
    part.Some? && |part.value| > 0
  }

  /** The location column of a hop: its geolocation's usable city and country, in that order. */
  function LocationOf(geo: Option<Geo>): string {
    match geo
    case None => "Unknown"
    case Some(g) =>
      var parts := (if Usable(g.city) then [g.city.value] else []) + (if Usable(g.country) then [g.country.value] else []);
      if |parts| == 0 then "Unknown" else JoinComma(parts)
  }

  /**
   * The location of a hop: the city, then the country, joined by ", ",
   * leaving out parts that are absent or empty; "Unknown" when there is no
   * geolocation or no part is left.
   */
  lemma LocationOfSpec(geo: Option<Geo>)
    ensures geo.None? ==> LocationOf(geo) == "Unknown"
    ensures geo.Some? && Usable(geo.value.city) && Usable(geo.value.country) ==>
      LocationOf(geo) == geo.value.city.value + ", " + geo.value.country.value
    ensures geo.Some? && Usable(geo.value.city) && !Usable(geo.value.country) ==> LocationOf(geo) == geo.value.city.value
    ensures geo.Some? && !Usable(geo.value.city) && Usable(geo.value.country) ==> LocationOf(geo) == geo.value.country.value
    ensures geo.Some? && !Usable(geo.value.city) && !Usable(geo.value.country) ==> LocationOf(geo) == "Unknown"
  {
  }

  /** `', '.join(parts)`. */
  function JoinComma(parts: seq<string>): (r: string)
    requires |parts| > 0
    ensures |parts| == 1 ==> r == parts[0]
    ensures |parts| == 2 ==> r == parts[0] + ", " + parts[1]
  {
    if |parts| == 1 then parts[0] else parts[0] + ", " + JoinComma(parts[1..])
  }

  /** `f"Hop {index}"`. */
  function TitleOf(index: int): string {
    "Hop " + IntToString(index)
  }

  /** Two hops have the same title exactly when they have the same index. */
  lemma TitleInjective(i: int, j: int)
    ensures TitleOf(i) == TitleOf(j) <==> i == j
  {
    IntToStringInjective(i, j);
    if TitleOf(i) == TitleOf(j) {
      assert TitleOf(i)[4..] == IntToString(i);
      assert TitleOf(j)[4..] == IntToString(j);
    }
  }

  /**
   * One timeline entry. The time is the hop's timestamp and the description
   * its `by` host; both keys are always present in a hop dictionary, so an
   * absent value stays absent rather than becoming "Unknown".
   */
  datatype TimelineEntry = TimelineEntry(
    title: string,
    time: Option<string>,
    location: string,
    description: Option<string>,
    risk: Risk)

  function TimelineEntryOf(h: HopRecord<string>): TimelineEntry {
    TimelineEntry(TitleOf(h.index), h.timestamp, LocationOf(h.geo), h.byHost, RiskOf(h))
  }

  /** `extract_timeline_data`: one entry per hop, in hop order. */
  method ExtractTimelineData(report: Report) returns (timeline: seq<TimelineEntry>)
    ensures |timeline| == |report.hops|
    ensures forall i :: 0 <= i < |timeline| ==> timeline[i] == TimelineEntryOf(report.hops[i])
  {
    timeline := [];
    for i := 0 to |report.hops|
      invariant |timeline| == i
      invariant forall j :: 0 <= j < i ==> timeline[j] == TimelineEntryOf(report.hops[j])
    {
      var hop := report.hops[i];
      var location := LocationOf(hop.geo);
      var risk := RiskOf(hop);
      var entry := TimelineEntry(TitleOf(hop.index), hop.timestamp, location, hop.byHost, risk);
      assert entry == TimelineEntryOf(report.hops[i]);
      timeline := timeline + [entry];
    }
  }

  /**
   * In the report of a message, the timeline titles are "Hop 0", "Hop 1",
   * ... in order, so no two entries share a title.
   */
  lemma TimelineTitles<Time>(msg: Mail.Message, parseDate: string -> Option<Time>, ipv6FindAll: string -> seq<string>,
                             lookup: string -> Option<Geo>, isoformat: Time -> string)
    ensures var hops := JsonReportOf(msg, parseDate, ipv6FindAll, lookup, isoformat).hops;
      (forall i :: 0 <= i < |hops| ==> TimelineEntryOf(hops[i]).title == TitleOf(i))
      && forall i, j :: 0 <= i < j < |hops| ==> TimelineEntryOf(hops[i]).title != TimelineEntryOf(hops[j]).title
  {
    ReportHops(msg, parseDate, ipv6FindAll, lookup, isoformat);
    forall i, j | 0 <= i < j ensures TitleOf(i) != TitleOf(j) {
      TitleInjective(i, j);
    }
  }

  /** The four lists of findings of the security assessment. */
  datatype SecurityIssues = SecurityIssues(
    tlsIssues: seq<string>,
    authenticationIssues: seq<string>,
    geoIssues: seq<string>,
    timingIssues: seq<string>)

  /** The hops known to be unencrypted, in hop order. */
  function NonTlsHops(hops: seq<HopRecord<string>>): seq<HopRecord<string>>
    decreases |hops|
  {
    if |hops| == 0 then []
    else NonTlsHops(hops[..|hops| - 1]) + (if hops[|hops| - 1].tls == Some(false) then [hops[|hops| - 1]] else [])
  }

  /** Exactly the hops whose TLS state is false are kept, and no more than there are hops. */
  lemma {:induction false} NonTlsHopsSpec(hops: seq<HopRecord<string>>)
    ensures |NonTlsHops(hops)| <= |hops|
    ensures forall h :: h in NonTlsHops(hops) <==> h in hops && h.tls == Some(false)
    decreases |hops|
  {
    if |hops| > 0 {
      var n := |hops| - 1;
      NonTlsHopsSpec(hops[..n]);
      assert hops == hops[..n] + [hops[n]];
    }
  }

  /** Each hop whose TLS state is false is kept as many times as it occurs, and no other hop is kept. */
  lemma {:induction false} NonTlsHopsMultiplicity(hops: seq<HopRecord<string>>)
    ensures forall h :: multiset(NonTlsHops(hops))[h] == if h.tls == Some(false) then multiset(hops)[h] else 0
    decreases |hops|
  {
    if |hops| > 0 {
      var n := |hops| - 1;
      var last := hops[n];
      NonTlsHopsMultiplicity(hops[..n]);
      var kept := if last.tls == Some(false) then [last] else [];
      assert NonTlsHops(hops) == NonTlsHops(hops[..n]) + kept;
      assert hops == hops[..n] + [last];
      assert multiset(hops) == multiset(hops[..n]) + multiset{last};
      assert multiset(NonTlsHops(hops)) == multiset(NonTlsHops(hops[..n])) + multiset(kept);
    }
  }

  /** The positions of the hops known to be unencrypted. */
  function NonTlsPositions(hops: seq<HopRecord<string>>): set<nat> {
    set i: nat | i < |hops| && hops[i].tls == Some(false)
  }

  /** There are as many unencrypted hops as positions holding one. */
  lemma {:induction false} NonTlsHopsCount(hops: seq<HopRecord<string>>)
    ensures |NonTlsHops(hops)| == |NonTlsPositions(hops)|
    decreases |hops|
  {
    if |hops| > 0 {
      var n := |hops| - 1;
      NonTlsHopsCount(hops[..n]);
      var before := NonTlsPositions(hops[..n]);
      assert n !in before;
      if hops[n].tls == Some(false) {
        assert NonTlsPositions(hops) == before + {n};
      } else {
        assert NonTlsPositions(hops) == before;
      }
    }
  }

  /** The TLS finding: one message with the count of unencrypted hops, when there is any. */
  function TlsIssues(hops: seq<HopRecord<string>>): seq<string> {
    var nonTls := NonTlsHops(hops);
    if |nonTls| > 0 then [IntToString(|nonTls|) + " hops without TLS encryption"] else []
  }

  /**
   * There is one TLS finding exactly when some hop is known to be
   * unencrypted, and none otherwise; the number it reports reads back as the
   * count of positions holding such a hop.
   */
  lemma TlsIssuesSpec(hops: seq<HopRecord<string>>)
    ensures |TlsIssues(hops)| <= 1
    ensures |TlsIssues(hops)| == 1 <==> exists i :: 0 <= i < |hops| && hops[i].tls == Some(false)
    ensures |TlsIssues(hops)| == 1 ==>
      var n := |NonTlsPositions(hops)|;
      0 < n <= |hops| && TlsIssues(hops)[0] == IntToString(n) + " hops without TLS encryption"
      && ParseInt(IntToString(n)) == n
  {
    NonTlsHopsSpec(hops);
    NonTlsHopsCount(hops);
    var nonTls := NonTlsHops(hops);
    if |nonTls| > 0 {
      assert nonTls[0] in nonTls;
      IntToStringRoundTrip(|nonTls|);
    } else {
      forall i | 0 <= i < |hops| ensures hops[i].tls != Some(false) {
        assert hops[i] in hops;
      }
    }
  }

  /** The finding for one verdict: present and not `pass`. */
  function VerdictIssue(prefix: string, verdict: Option<string>): seq<string> {
    if verdict.Some? && verdict.value != "pass" then [prefix + verdict.value] else []
  }

  /** The findings for the entries, entry by entry in order, and within an entry SPF, then DKIM, then DMARC. */
  function AuthIssues(entries: seq<AuthEntry>): seq<string>
    decreases |entries|
  {
    if |entries| == 0 then []
    else
      var e := entries[|entries| - 1];
      AuthIssues(entries[..|entries| - 1])
        + VerdictIssue("SPF: ", e.spf) + VerdictIssue("DKIM: ", e.dkim) + VerdictIssue("DMARC: ", e.dmarc)
  }

  /** A verdict that is absent or `pass`. */
  predicate Passing(v: Option<string>) {
    v.None? || v.value == "pass"
  }

  /**
   * At most three findings per entry, and none at all exactly when every
   * verdict of every entry is absent or `pass`.
   */
  lemma {:induction false} AuthIssuesSpec(entries: seq<AuthEntry>)
    ensures |AuthIssues(entries)| <= 3 * |entries|
    ensures AuthIssues(entries) == [] <==>
      forall i :: 0 <= i < |entries| ==> Passing(entries[i].spf) && Passing(entries[i].dkim) && Passing(entries[i].dmarc)
    decreases |entries|
  {
    if |entries| > 0 {
      var n := |entries| - 1;
      AuthIssuesSpec(entries[..n]);
      assert forall i :: 0 <= i < n ==> entries[..n][i] == entries[i];
    }
  }

  /**
   * A finding about a parsed header names a verdict of the closed vocabulary
   * other than `pass`: for SPF one of fail, neutral, none, softfail,
   * temperror.
   */
  lemma SpfIssueValue(a: string)
    requires AuthEntryOf(a).spf.Some? && AuthEntryOf(a).spf.value != "pass"
    ensures VerdictIssue("SPF: ", AuthEntryOf(a).spf) == ["SPF: " + AuthEntryOf(a).spf.value]
    ensures AuthEntryOf(a).spf.value in ["fail", "neutral", "none", "softfail", "temperror"]
  {
    AuthEntrySpec(a);
  }

  /** The country of a hop when it counts for the routing check: present and not empty. */
  function CountryOf(h: HopRecord<string>): Option<string> {
    if h.geo.Some? && Usable(h.geo.value.country) then h.geo.value.country else None
  }

  /** The countries of the hops that have one, in hop order. */
  function Countries(hops: seq<HopRecord<string>>): seq<string>
    decreases |hops|
  {
    if |hops| == 0 then []
    else
      var c := CountryOf(hops[|hops| - 1]);
      Countries(hops[..|hops| - 1]) + (if c.Some? then [c.value] else [])
  }

  /** The distinct countries a message was routed through. */
  function CountrySet(hops: seq<HopRecord<string>>): set<string> {
    set c | c in Countries(hops)
  }

  /** There are never more distinct countries than hops. */
  lemma {:induction false} CountrySetBound(hops: seq<HopRecord<string>>)
    ensures |CountrySet(hops)| <= |Countries(hops)| <= |hops|
    decreases |hops|
  {
    if |hops| > 0 {
      var n := |hops| - 1;
      CountrySetBound(hops[..n]);
      var c := CountryOf(hops[n]);
      if c.Some? {
        assert CountrySet(hops) == CountrySet(hops[..n]) + {c.value};
      } else {
        assert CountrySet(hops) == CountrySet(hops[..n]);
      }
    }
  }

  /** The routing finding: more than three distinct countries. */
  function GeoIssues(hops: seq<HopRecord<string>>): seq<string> {
    var unique := |CountrySet(hops)|;
    if unique > 3 then ["Email routed through " + IntToString(unique) + " different countries"] else []
  }

  /** A routing finding needs more than three distinct countries, and so at least four hops. */
  lemma GeoIssuesSpec(hops: seq<HopRecord<string>>)
    ensures |GeoIssues(hops)| <= 1
    ensures GeoIssues(hops) != [] <==> |CountrySet(hops)| > 3
    ensures GeoIssues(hops) != [] ==> |hops| >= 4
  {
    CountrySetBound(hops);
  }

  /** `assess_security_issues` as a value; there are never timing findings. */
  function SecurityIssuesOf(report: Report): SecurityIssues {
    SecurityIssues(TlsIssues(report.hops), AuthIssues(report.auth.parsed), GeoIssues(report.hops), [])
  }

  /** The authentication part of `assess_security_issues`: entry by entry, SPF, DKIM, then DMARC. */
  method CollectAuthIssues(entries: seq<AuthEntry>) returns (found: seq<string>)
    ensures found == AuthIssues(entries)
  {
    found := [];
    for i := 0 to |entries|
      invariant found == AuthIssues(entries[..i])
    {
      var entry := entries[i];
      assert entries[..i + 1][..i] == entries[..i];
      if !Passing(entry.spf) {
        found := found + ["SPF: " + entry.spf.value];
      }
      if !Passing(entry.dkim) {
        found := found + ["DKIM: " + entry.dkim.value];
      }
      if !Passing(entry.dmarc) {
        found := found + ["DMARC: " + entry.dmarc.value];
      }
    }
    assert entries[..|entries|] == entries;
  }

  /** The routing part of `assess_security_issues`: the non-empty countries, hop by hop. */
  method CollectCountries(hops: seq<HopRecord<string>>) returns (geoLocations: seq<string>)
    ensures geoLocations == Countries(hops)
  {
    geoLocations := [];
    for i := 0 to |hops|
      invariant geoLocations == Countries(hops[..i])
    {
      assert hops[..i + 1][..i] == hops[..i];
      var hop := hops[i];
      if hop.geo.Some? && Usable(hop.geo.value.country) {
        geoLocations := geoLocations + [hop.geo.value.country.value];
      }
    }
    assert hops[..|hops|] == hops;
  }

  /** `assess_security_issues`: the TLS, authentication and routing checks; no timing check. */
  method AssessSecurityIssues(report: Report) returns (issues: SecurityIssues)
    ensures issues == SecurityIssuesOf(report)
    ensures issues.timingIssues == []
  {
    var hops := report.hops;
    issues := SecurityIssues([], [], [], []);

    var nonTls := NonTlsHops(hops);
    if |nonTls| > 0 {
      issues := issues.(tlsIssues := issues.tlsIssues + [IntToString(|nonTls|) + " hops without TLS encryption"]);
    }

    var authIssues := CollectAuthIssues(report.auth.parsed);
    issues := issues.(authenticationIssues := issues.authenticationIssues + authIssues);

    var geoLocations := CollectCountries(hops);
    var uniqueCountries := |set c | c in geoLocations|;
    if uniqueCountries > 3 {
      issues := issues.(geoIssues := issues.geoIssues + ["Email routed through " + IntToString(uniqueCountries) + " different countries"]);
    }
  }

  /** The TLS badge of a hop: a symbol and a style class. */
  datatype Badge = Badge(symbol: string, style: string)

  /** Success for a hop known to be encrypted, danger for one known not to be, secondary otherwise. */
  function TlsBadge(tls: Option<bool>): (b: Badge)
    ensures b.style == "success" <==> tls == Some(true)
    ensures b.style == "danger" <==> tls == Some(false)
    ensures b.style == "secondary" <==> tls.None?
    ensures b.symbol == "\U{2705}" <==> tls == Some(true)
    ensures b.symbol == "\U{274C}" <==> tls == Some(false)
    ensures b.symbol == "\U{2753}" <==> tls.None?
  {
    match tls
    case Some(true) => Badge("\U{2705}", "success")
    case Some(false) => Badge("\U{274C}", "danger")
    case None => Badge("\U{2753}", "secondary")
  }
}
