# email-analyzer header pipeline, modelled in Dafny

This project models the header-analysis core of email-analyzer:

- **Parser** (`src/email_analyzer/parser.py`):
  - turns each `Received` trace header into a `Hop` record: the `from`, `by`, `with`, `id` and `for` clauses, the timestamp after the last `;`, the IP literals (IPv4 first), and the TLS tri-state;
  - numbers the hops oldest first;
  - reads the `spf=`, `dkim=` and `dmarc=` verdicts of every `Authentication-Results` header.
- **HTML report** (`src/email_analyzer/html_report.py`): the rule-based parts. These are the security assessment, the hop timeline with its risk ranking, and the TLS badge of a hop.
- **JSON report** (`src/email_analyzer/json_report.py`): the loop that attaches a geolocation to each hop from its first address, and the list of hop dictionaries.

Modules, one per file:

| module | what it holds |
|---|---|
| `Wrappers` | `Option` |
| `Text` | Python whitespace, `split`/`join`/`strip`, ASCII lower-casing, `\b`, and the scans of `re.search` and `re.findall` |
| `Decimal` | `str(n)` of integers, with its round trip |
| `Mail` | `msg.get_all` and `msg.get` over an ordered list of header fields |
| `Addresses` | the IPv4 pattern as an exact scanner, and the IPv4-before-IPv6 rule |
| `Transport` | the TLS tri-state |
| `Clauses` | the five clause searches |
| `Hops` | the `Hop` class, `_parse_received_single`, `parse_received_hops` |
| `Auth` | `parse_authentication_results` |
| `JsonReport` | the geolocation loop and report assembly |
| `HtmlReport` | `assess_security_issues`, `extract_timeline_data`, the TLS badge |

How the Python becomes Dafny:

- **Regexes.** Each regular expression is a hand-written scanner over `seq<char>` whose result is an `Option`. The comment above each scanner explains why it matches exactly what the pattern matches.
- **Imperative code stays imperative.**
  - `Hop` is a class whose fields the methods assign one by one.
  - The geolocation loop updates existing `Hop` objects in place.
  - The loops that append to lists are `for` loops with invariants.
- **Specification functions.** Each method is proved equal to a function that says what it computes:
  - `ReceivedHop` for one hop, `ReceivedChain` for all hops;
  - `AuthResultsOf`, `SecurityIssuesOf`, `TimelineEntryOf` and `LookupPlan` for the rest.

  The properties are lemmas about those functions.
- **Outside calls are parameters.** These are library or network calls:
  - the date parser `parseDate` (None where `dateutil` raises);
  - `isoformat`;
  - the IPv6 recogniser `ipv6FindAll`;
  - the geolocation service `lookup`.
- **Where the code and its design description differ, the model follows the code**, with one exception:
  - A `from`/`by`/`with` value ends at a space followed by a stop word. The stop word need not be a whole word: ` bypass` ends a `from` value.
  - A TLS token anywhere in the header makes `tls` true, even in a header with no `with` clause.
  - An IPv4 literal may sit next to a dot. The `\b` at either end of the IPv4 pattern is a boundary between a digit and a dot, so `1.2.3.4.5` yields `1.2.3.4`.
  - The exception is the `for` clause. The pattern as written can return `;` as part of the address (see Findings). The hop model uses the corrected search. Where the written value would start with `;`, the corrected search skips that `for` and takes the next `for` whose value does not start with `;`, or finds none. `Clauses.ForCorrectionOnlyAtSemicolon` proves this at each position and `Clauses.ForSearchSkipsSemicolons` over the whole header.

## Model

| member | source | states |
|---|---|---|
| Text.Trim | src/email_analyzer/parser.py:77 | The result has no whitespace at either end and is the input with only surrounding whitespace removed; trimmed text is returned unchanged |
| Text.Words | src/email_analyzer/parser.py:72 | `str.split()` yields only non-empty runs without whitespace |
| Text.WordsOfWord | src/email_analyzer/parser.py:72 | A text without whitespace splits into itself alone |
| Text.WordsSplit | src/email_analyzer/parser.py:72 | Splitting cuts at every whitespace character: the words of `a`, a whitespace character, `b` are the words of `a` then those of `b`; with the single-word case this fixes the split of every text |
| Text.WordsJoin | src/email_analyzer/parser.py:72 | Splitting a space-joined list of words gives the same words back |
| Text.NormalizeSpec | src/email_analyzer/parser.py:72 | The normalised header has no whitespace at either end, only single plain spaces, and the same words as the raw header |
| Text.LastIndexOf | src/email_analyzer/parser.py:76-77 | The position of the last `;`; absent exactly when the header has no `;` |
| Text.SearchLeftmost | src/email_analyzer/parser.py:84-102 | `re.search` fails exactly when no position matches, otherwise returns the match at the leftmost position |
| Text.FindAllEmpty | src/email_analyzer/parser.py:105-106 | `re.findall` returns nothing exactly when the pattern matches at no position |
| Text.FindAllKeeps | src/email_analyzer/parser.py:105 | A property of every match text holds of every item `re.findall` returns |
| Decimal.NatToStringSpec | src/email_analyzer/html_report.py:78 | `str(n)` is decimal digits without a leading zero, and denotes `n` |
| Decimal.IntToStringRoundTrip | src/email_analyzer/html_report.py:129 | Reading back `str(i)` gives `i`, negative numbers included |
| Decimal.IntToStringInjective | src/email_analyzer/html_report.py:129 | Distinct integers have distinct decimal texts |
| Mail.Values | src/email_analyzer/parser.py:126 | Every value is the value of a field of that name; empty exactly when no field has that name |
| Mail.ValuesSnoc | src/email_analyzer/parser.py:126 | A further field adds its value at the end exactly when it has the name; with no values for no fields, this gives every matching value, in message order |
| Mail.ValuesCount | src/email_analyzer/parser.py:126 | There are exactly as many values as fields with the name |
| Mail.GetAll | src/email_analyzer/parser.py:126 | `get_all` is None exactly when no field has the name, otherwise a non-empty list |
| Mail.Get | src/email_analyzer/json_report.py:32-35 | `get` is the first value `get_all` returns, and None when it returns None |
| Mail.AllOrEmpty | src/email_analyzer/parser.py:134 | `get_all(name) or []` is empty exactly when the header is absent, otherwise every value verbatim |
| Addresses.DigitRunEndSpec | src/email_analyzer/parser.py:16 | A digit run ends at the first non-digit |
| Addresses.OctetPatternIsOctet | src/email_analyzer/parser.py:16 | The octet alternation accepts exactly the numbers 0..255 written without leading zeros |
| Addresses.Ipv4Matcher | src/email_analyzer/parser.py:17 | Every IPv4 match ends after it starts and within the header |
| Addresses.Ipv4FromEmpty | src/email_analyzer/parser.py:105-106 | `IPV4_RE.findall` is empty exactly when the IPv4 pattern matches at no position |
| Addresses.MatchIsDottedQuad | src/email_analyzer/parser.py:16-17 | The text the IPv4 pattern matches is four octets in 0..255 joined by dots |
| Addresses.Ipv4FromDottedQuads | src/email_analyzer/parser.py:105 | Every IPv4 literal found is four octets in 0..255 joined by dots |
| Addresses.DottedQuadHasNoColon | src/email_analyzer/parser.py:17 | A dotted quad holds no colon |
| Addresses.ExtractIpsSpec | src/email_analyzer/parser.py:105-109 | With an IPv4 match `ips` is exactly the IPv4 matches in order and non-empty; the IPv6 recogniser decides only when there is none |
| Addresses.Ipv4Precedence | src/email_analyzer/parser.py:105-109 | With an IPv4 match every entry of `ips` is a dotted quad of octets in 0..255 and none has a colon |
| Transport.TlsTokenWins | src/email_analyzer/parser.py:112-116 | Any TLS token in the lowercased header makes `tls` true, whatever else is present; restates the first branch of `ClassifyTls` |
| Transport.TlsFalseIff | src/email_analyzer/parser.py:112-121 | `tls` is false exactly when no TLS token occurs and `with smtp`, `with esmtp` or `with lmtp` occurs as whole words; restates the branches of `ClassifyTls` |
| Transport.TlsTrueIff | src/email_analyzer/parser.py:112-116 | `tls` is true exactly when the lowercased header contains `smtps`, `tls`, `ssl` or `encrypted` |
| Transport.TlsTokensReduce | src/email_analyzer/parser.py:40 | The eight TLS tokens detect exactly what `smtps`, `tls`, `ssl` and `encrypted` detect |
| Clauses.FirstStop | src/email_analyzer/parser.py:84-94 | The lazy from/by/with value ends at the first space followed by a stop word, and no earlier |
| Clauses.FirstForStop | src/email_analyzer/parser.py:100 | The lazy `for` value ends at the first `;`, space before `;`, or end of text, and no earlier |
| Clauses.ClauseAtWellFormed | src/email_analyzer/parser.py:84-102 | A clause value is non-empty and trimmed; an `id` has no whitespace; a `for` value has no `;`; a from/by/with value contains no space-preceded stop word |
| Clauses.FindClauseSpec | src/email_analyzer/parser.py:84-102 | A clause is absent exactly when its pattern matches nowhere; otherwise it is the value at the leftmost match and is well formed |
| Clauses.ForCorrectionOnlyAtSemicolon | src/email_analyzer/parser.py:100-102 | At every position the corrected `for` search gives the as-written value, except where that value would start with `;`, where it gives none |
| Clauses.ForSearchSkipsSemicolons | src/email_analyzer/parser.py:100-102 | The corrected `for` search finds nothing exactly when every as-written match has a value starting with `;`; otherwise it gives the as-written value at the first match whose value does not start with `;` |
| Clauses.ForSearchTakesLaterFor | src/email_analyzer/parser.py:100-102 | On `by a for ; b for c` the pattern as written yields `; b for c`, while the corrected search yields `c` from the later `for` |
| Clauses.ForClauseAsWrittenKeepsSemicolon | src/email_analyzer/parser.py:100-102 | On `for ; x` the pattern as written yields `; x`, while the corrected search finds no `for` value |
| Hops.Hop.constructor | src/email_analyzer/parser.py:42-58 | A new hop has every optional field absent and `ips` defaulted to `[]` when none is given |
| Hops.Records | src/email_analyzer/parser.py:128-131 | The field values of a list of hops, one per hop and in order |
| Hops.ToDict | src/email_analyzer/parser.py:60-64 | `to_dict` copies every field and writes a present timestamp with `isoformat` |
| Hops.DateTextSpec | src/email_analyzer/parser.py:76-77 | There is date text exactly when the header has a `;`; it is the text after the last `;`, stripped, with no `;` in it |
| Hops.Timestamp | src/email_analyzer/parser.py:76-81 | No `;` means no timestamp; otherwise the timestamp is the parse of the date text, absent when parsing fails |
| Hops.ReceivedHopClauses | src/email_analyzer/parser.py:84-102 | Every clause field of a hop is trimmed and non-empty; `id` is one token, `for_addr` has no `;`, and `from_host` holds no space-preceded `by`, `with`, `id`, `for` or `;` |
| Hops.ClausesIndependent | src/email_analyzer/parser.py:84-102 | Each clause field is absent exactly when its own pattern matches nowhere in the normalised header, whatever the other clauses do |
| Hops.ParseReceivedSingle | src/email_analyzer/parser.py:71-123 | The new hop's fields are those of `ReceivedHop` on the header and its index |
| Hops.SetClauses | src/email_analyzer/parser.py:84-102 | The five clause fields become the five search results and nothing else changes |
| Hops.SetTls | src/email_analyzer/parser.py:112-121 | The `for ... else` loop sets `tls` to the tri-state classification and changes nothing else |
| Hops.Reverse | src/email_analyzer/parser.py:127 | `reversed` keeps the length and puts item `i` at position `n - 1 - i` |
| Hops.NumberedSpec | src/email_analyzer/parser.py:129-130 | Hop `i` is built from header `i` with index `i` |
| Hops.ReceivedChainSpec | src/email_analyzer/parser.py:125-131 | There is one hop per `Received` header; hop `i` is the hop of the `i`-th header counted from the last, with index `i` |
| Hops.ChainHeaders | src/email_analyzer/parser.py:125-131 | Hop `i` has index `i`, its raw header verbatim, and no geolocation |
| Hops.NoReceivedNoHops | src/email_analyzer/parser.py:126 | A message without `Received` headers has no hops |
| Hops.FirstHopIsLastHeader | src/email_analyzer/parser.py:126-127 | Hop 0 comes from the last `Received` header and the last hop from the first |
| Hops.ParseReceivedHops | src/email_analyzer/parser.py:125-131 | Returns new, distinct hop objects whose fields are the received chain |
| Hops.ParseHops | src/email_analyzer/parser.py:128-131 | The loop builds one new distinct hop per header, numbered by position |
| Hops.AppendHop | src/email_analyzer/parser.py:129-130 | One turn of the loop appends a new hop for header `i` and keeps the earlier ones |
| Auth.AlternativeAt | src/email_analyzer/parser.py:138 | The first alternative of the vocabulary that matches case-insensitively and is followed by `\b`, no earlier alternative matching, or none when no alternative does |
| Auth.AlternativeUnique | src/email_analyzer/parser.py:138-146 | Two letter-only alternatives that both match at one position are the same word, so alternative order does not matter |
| Auth.VerdictAtSpec | src/email_analyzer/parser.py:138-146 | At one position a verdict is a vocabulary word, absent exactly when no `key=word` token starts there |
| Auth.VerdictAtToken | src/email_analyzer/parser.py:138-146 | Where a token starts, the verdict is exactly its word, lower-cased |
| Auth.FindVerdictSpec | src/email_analyzer/parser.py:138-146 | A verdict is a word of the closed vocabulary, absent exactly when no bounded `key=word` token occurs |
| Auth.FindVerdictFirstToken | src/email_analyzer/parser.py:138-146 | A verdict found is the word of the leftmost `key=word` token |
| Auth.FindVerdictOfFirstToken | src/email_analyzer/parser.py:138-146 | When the leftmost token is `key=word`, the verdict is that word, whatever tokens follow |
| Auth.VocabulariesAreWords | src/email_analyzer/parser.py:138-144 | The spf, dkim and dmarc vocabularies are non-empty words of lower-case letters |
| Auth.AuthEntrySpec | src/email_analyzer/parser.py:137-146 | Each key of an entry holds a word of its own vocabulary; it is absent, not defaulted, exactly when its token is missing, and otherwise is the word of the leftmost token |
| Auth.AuthResultsOf | src/email_analyzer/parser.py:133-154 | One entry per header in header order; `raw`, `dkim_signature` and `received_spf` are the header values verbatim, `[]` when absent |
| Auth.ParseAuthenticationResults | src/email_analyzer/parser.py:133-154 | The loop returns exactly the results described by `AuthResultsOf` |
| JsonReport.GeolocatedAll | src/email_analyzer/json_report.py:17-21 | Same number of hops in the same order, each geolocated on its first address if it has one |
| JsonReport.ToDicts | src/email_analyzer/json_report.py:36 | `report['hops']` is the `to_dict` of each hop, in the same order |
| JsonReport.LookupsFit | src/email_analyzer/json_report.py:18-20 | Every lookup is for a hop with an address, on its first address |
| JsonReport.LookupsOrdered | src/email_analyzer/json_report.py:17-20 | Lookups are made in hop order, at most one per hop |
| JsonReport.LookupsCover | src/email_analyzer/json_report.py:17-20 | Every hop with an address is looked up |
| JsonReport.LookupPlanSpec | src/email_analyzer/json_report.py:17-21 | At most one lookup per hop, in hop order, always on the first address, and every hop with an address gets one |
| JsonReport.LocatedDicts | src/email_analyzer/json_report.py:16-36 | Geolocating and `to_dict` change only `geo` and the timestamp's form; a hop without addresses keeps its `geo` |
| JsonReport.ReportHops | src/email_analyzer/json_report.py:14-36 | The report's hops are the message's hops oldest first, with index `i` and raw header verbatim. A hop without addresses has no `geo`; one with addresses has the lookup of its first address. Nothing else changes |
| JsonReport.GeolocateHops | src/email_analyzer/json_report.py:16-21 | The loop sets each hop's `geo` to the lookup of its first address, in place; hops without addresses are untouched; the lookups made are the lookup plan |
| JsonReport.GenerateJsonReport | src/email_analyzer/json_report.py:13-37 | The report is `JsonReportOf` of the message (subject, from, to, date, the geolocated hop dictionaries, the auth results) and the lookups made are the lookup plan of the hop chain |
| HtmlReport.RiskOf | src/email_analyzer/html_report.py:121-126 | High exactly when there are no addresses; medium exactly when there are and `tls` is false; low otherwise |
| HtmlReport.LocationOfSpec | src/email_analyzer/html_report.py:110-118 | City then country joined by `", "`, skipping absent or empty parts; "Unknown" without a geolocation or without usable parts; restates the branches of `LocationOf` |
| HtmlReport.JoinComma | src/email_analyzer/html_report.py:118 | Joining one or two parts with `", "` |
| HtmlReport.TitleInjective | src/email_analyzer/html_report.py:129 | Two hops share a title exactly when they share an index |
| HtmlReport.ExtractTimelineData | src/email_analyzer/html_report.py:106-135 | One entry per hop, in hop order, each with the hop's title, time, location, `by` host and risk |
| HtmlReport.TimelineTitles | src/email_analyzer/html_report.py:129 | In a message's report the timeline titles are `Hop 0`, `Hop 1`, ... in order, all distinct |
| HtmlReport.NonTlsHopsSpec | src/email_analyzer/html_report.py:75 | The non-TLS hops are exactly the hops whose `tls` is false, and there are no more of them than hops |
| HtmlReport.NonTlsHopsMultiplicity | src/email_analyzer/html_report.py:75 | Each hop whose `tls` is false is kept as many times as it occurs, and no other hop is kept |
| HtmlReport.NonTlsHopsCount | src/email_analyzer/html_report.py:75-78 | The number of non-TLS hops is the number of positions whose hop has `tls` false |
| HtmlReport.TlsIssuesSpec | src/email_analyzer/html_report.py:75-78 | One TLS issue exactly when some hop has `tls` false, none otherwise; the message is the number of positions whose hop has `tls` false, followed by ` hops without TLS encryption`, and that number reads back |
| HtmlReport.AuthIssuesSpec | src/email_analyzer/html_report.py:81-91 | At most three issues per entry; none exactly when every verdict is absent or `pass` |
| HtmlReport.SpfIssueValue | src/email_analyzer/html_report.py:83-85 | An SPF issue names a verdict from the vocabulary other than `pass` |
| HtmlReport.CountrySetBound | src/email_analyzer/html_report.py:94-98 | There are never more distinct countries than hops |
| HtmlReport.GeoIssuesSpec | src/email_analyzer/html_report.py:94-101 | A routing issue exactly when more than three distinct non-empty countries appear, which needs at least four hops |
| HtmlReport.CollectAuthIssues | src/email_analyzer/html_report.py:81-91 | Issues entry by entry, SPF then DKIM then DMARC, for each verdict present and not `pass` |
| HtmlReport.CollectCountries | src/email_analyzer/html_report.py:94-97 | The non-empty countries of geolocated hops, in hop order |
| HtmlReport.AssessSecurityIssues | src/email_analyzer/html_report.py:64-103 | The TLS, authentication and routing issues as specified, and never a timing issue |
| HtmlReport.TlsBadge | src/email_analyzer/html_report.py:236-245 | Success for `tls` true, danger for false, secondary for unknown, each with its own symbol |

## Left out

- Date parsing with `dateutil` and `datetime.isoformat` are library code. They are the parameters `parseDate` (None where the library raises) and `isoformat`.
- The IPv6 alternation (`src/email_analyzer/parser.py:19-34`, `IPV6_RE`) is the parameter `ipv6FindAll`. Only the rule that it is consulted when no IPv4 literal is found is modelled.
- `\w`, `str.lower()` and `re.I` are modelled on ASCII letters only. Non-ASCII word characters and case folding are not modelled.
- Clause searches are modelled on the whitespace-normalised header, which is the only text the source searches. The `\s` class is Python's whitespace set, listed in `Text.IsSpace`.
- `load_email` and `extract_additional_headers` are left out. The first is file I/O; the second depends on `decode_header` charset decoding. The message is a list of header fields after the email library has unfolded them.
- Geolocation (`geolocate.py`) is network I/O. It is the parameter `lookup`. It returns None where `geolocate_ip` does: when `requests.get` raises, when the status code is not 200, or when the reply's `status` is not `"success"`. The pause on failure is not modelled.
- The graph, the map and the `filename`, `filepath`, `additional_headers`, `graph`, `map` and `map_html` report keys are left out. These come from the renderers, file paths and the skipped header extractor.
- Writing the JSON file, `report.py`, `cli.py` and `main.py` are left out: they are I/O and command-line plumbing.
- In `generate_html_report`, only the TLS symbol and class selection is modelled. The rest is left out:
  - the `ip_list` and location enrichment;
  - the SVG map, coordinate formatting and `_extract_latitude_longitude`, which use floating point;
  - Jinja rendering and the file write.
- `float` coordinates in the geolocation record are `real` values that the model only copies.
- The timeline `time` and `description` stay absent when the hop's timestamp or `by` host is None. A hop dictionary always holds those keys, so `hop.get(key, 'Unknown')` never uses its default.
- Hops.SetClauses, Hops.SetTls, Hops.ParseHops, Hops.AppendHop, HtmlReport.CollectAuthIssues and HtmlReport.CollectCountries are single Python functions split into steps. Their composition is proved equal to the whole function.
- Hops.ReceivedHop, Hops.ParseReceivedSingle, Hops.SetClauses, Hops.ReceivedHopClauses, Hops.ClausesIndependent: `for_addr` follows the corrected `for` search, not the pattern as written. Where the written value starts with `;`, the model skips that `for` and takes the next `for` whose value does not start with `;`, or has no `for_addr` when there is none: `for ; x` gives none where the code gives `; x`, and `by a for ; b for c` gives `c` where the code gives `; b for c`. Everywhere else the two agree, by `Clauses.ForCorrectionOnlyAtSemicolon` and `Clauses.ForSearchSkipsSemicolons`.
- JsonReport.GeolocateHops, JsonReport.GenerateJsonReport: `lookup` always returns, so the loop and the report always finish. In the code, a 200 reply whose body is not JSON, or is JSON but not an object, raises in `r.json()` or `j.get` (src/email_analyzer/geolocate.py:16-17), outside the `try`. That exception ends the loop in src/email_analyzer/json_report.py:17-21: the later hops keep no `geo` and `generate_json_report` raises. The model does not capture this.
- JsonReport.GeolocateHops, JsonReport.GenerateJsonReport, JsonReport.ReportHops: `lookup` is a function, so two lookups of one address are assumed to give the same answer. The service can in fact answer differently from call to call, after a time-out, a non-200 status or a failed status.
- JsonReport.GeolocateHops requires the hops to be distinct objects. `parse_received_hops` guarantees that, and aliased hops are not modelled.

## Findings

| source | as written | input that shows it | evidently intended | confidence | as-written member | corrected member |
|---|---|---|---|---|---|---|
| src/email_analyzer/parser.py:100-102 | The lazy group of the `for` pattern may begin with the `;` that is meant to end the clause, so `for_addr` can contain `;` | The normalised header `for ; x` gives `for_addr` = `; x` | An empty `for` clause yields no address, and `for_addr` never contains `;` | not executed | Clauses.ForClauseAsWrittenKeepsSemicolon | Clauses.FindClauseSpec |
