/**
 * The address extractor: IPv4 literals found by a scanner equivalent to the
 * pattern `\b\b(?:SEG\.){3}SEG\b\b` with
 * `SEG = 25[0-5]|2[0-4][0-9]|1[0-9][0-9]|[1-9]?[0-9]`, under `re.findall`,
 * and the precedence rule that IPv6 literals are only looked for when no
 * IPv4 literal is present. The IPv6 pattern itself is an external
 * recogniser passed in as a function.
 *
 * Why a scanner is exact here: a segment followed by `.` must end where its
 * digit run ends (the next character has to be the dot), and the last
 * segment must be followed by `\b`, so it too spans its whole digit run. A
 * match at `p` is therefore fixed by the four maximal digit runs from `p`,
 * whatever order the alternatives are tried in.
 */
module Addresses {
  import opened Wrappers
  import opened Text
  import opened Decimal

  /** The end of the run of ASCII digits that starts at `i`. */
  function DigitRunEnd(s: string, i: nat): (e: nat)
    requires i <= |s|
    ensures i <= e <= |s|
    decreases |s| - i
  {
    if i < |s| && IsAsciiDigit(s[i]) then DigitRunEnd(s, i + 1) else i
  }

  /** Every character before the end of the run is a digit, and the one at the end is not. */
  lemma {:induction false} DigitRunEndSpec(s: string, i: nat)
    requires i <= |s|
    ensures forall j :: i <= j < DigitRunEnd(s, i) ==> IsAsciiDigit(s[j])
    ensures DigitRunEnd(s, i) < |s| ==> !IsAsciiDigit(s[DigitRunEnd(s, i)])
    decreases |s| - i
  {
    if i < |s| && IsAsciiDigit(s[i]) {
      DigitRunEndSpec(s, i + 1);
    }
  }

  /** The octet pattern, alternative by alternative: `25[0-5]|2[0-4][0-9]|1[0-9][0-9]|[1-9]?[0-9]`. */
  predicate OctetPattern(t: string) {
    (|t| == 3 && t[0] == '2' && t[1] == '5' && '0' <= t[2] <= '5')
    || (|t| == 3 && t[0] == '2' && '0' <= t[1] <= '4' && IsAsciiDigit(t[2]))
    || (|t| == 3 && t[0] == '1' && IsAsciiDigit(t[1]) && IsAsciiDigit(t[2]))
    || (|t| == 2 && '1' <= t[0] <= '9' && IsAsciiDigit(t[1]))
    || (|t| == 1 && IsAsciiDigit(t[0]))
  }

  /** An octet by value: one to three digits, no leading zero, at most 255. */
  predicate IsOctet(t: string) {
    1 <= |t| <= 3 && AllDigits(t) && (|t| == 1 || t[0] != '0') && 0 <= DecimalValue(t) <= 255
  }

  /** The octet pattern accepts exactly the decimal numbers 0..255 written without leading zeros. */
  lemma OctetPatternIsOctet(t: string)
    ensures OctetPattern(t) <==> IsOctet(t)
  {
    if 1 <= |t| <= 3 && AllDigits(t) {
      if |t| == 3 {
        assert t[..2][..1] == t[..1];
        assert DecimalValue(t[..1]) == DigitValue(t[0]);
        assert DecimalValue(t[..2]) == DigitValue(t[0]) * 10 + DigitValue(t[1]);
        assert DecimalValue(t) == (DigitValue(t[0]) * 10 + DigitValue(t[1])) * 10 + DigitValue(t[2]);
      } else if |t| == 2 {
        assert DecimalValue(t[..1]) == DigitValue(t[0]);
        assert DecimalValue(t) == DigitValue(t[0]) * 10 + DigitValue(t[1]);
      } else {
        assert DecimalValue(t) == DigitValue(t[0]);
      }
    }
  }

  /**
   * `k` dot-separated octets starting at `i`, each spanning a whole digit
   * run; the position just after the last one.
   */
  function OctetsEnd(s: string, i: nat, k: nat): (r: Option<nat>)
    requires i <= |s| && k >= 1
    ensures r.Some? ==> i < r.value <= |s|
    decreases k
  {
    var e := DigitRunEnd(s, i);
    if !OctetPattern(s[i..e]) then None
    else if k == 1 then Some(e)
    else if e < |s| && s[e] == '.' then OctetsEnd(s, e + 1, k - 1)
    else None
  }

  /** The end of the IPv4 literal that the pattern matches at `p`, if it matches there. */
  function Ipv4MatchAt(s: string, p: nat): (r: Option<nat>)
    requires p <= |s|
    ensures r.Some? ==> p < r.value <= |s|
  {
    if !WordStart(s, p) then None
    else match OctetsEnd(s, p, 4)
      case Some(e) => if WordEnd(s, e) then Some(e) else None
      case None => None
  }

  predicate NoIpv4From(s: string, p: nat) {
    forall k :: p <= k < |s| ==> Ipv4MatchAt(s, k).None?
  }

  /** The IPv4 pattern as a matcher over all of `s`: the end of the literal matched at each position. */
  function Ipv4Matcher(s: string): (m: nat -> Option<nat>)
    ensures Advances(s, m)
  {
    (k: nat) => if k <= |s| then Ipv4MatchAt(s, k) else None
  }

  /** `re.findall` of the IPv4 pattern from position `p`: non-overlapping matches, left to right. */
  function Ipv4From(s: string, p: nat): seq<string>
    requires p <= |s|
  {
    FindAll(s, Ipv4Matcher(s), p)
  }

  /** `re.findall` finds no IPv4 literal exactly when the pattern matches at no position from `p` on. */
  lemma Ipv4FromEmpty(s: string, p: nat)
    requires p <= |s|
    ensures Ipv4From(s, p) == [] <==> NoIpv4From(s, p)
  {
    FindAllEmpty(s, Ipv4Matcher(s), p);
    assert forall k :: p <= k < |s| ==> Ipv4Matcher(s)(k) == Ipv4MatchAt(s, k);
  }

  /** Joins octets with dots. */
  function JoinDots(o: seq<string>): string
    requires |o| > 0
  {
    if |o| == 1 then o[0] else o[0] + "." + JoinDots(o[1..])
  }

  /** `x` is four octets joined by dots. */
  ghost predicate IsDottedQuad(x: string) {
    exists o: seq<string> :: |o| == 4 && (forall i :: 0 <= i < 4 ==> IsOctet(o[i])) && x == JoinDots(o)
  }

  lemma {:induction false} OctetsEndSpan(s: string, i: nat, k: nat) returns (o: seq<string>)
    requires i <= |s| && k >= 1 && OctetsEnd(s, i, k).Some?
    ensures |o| == k && (forall j :: 0 <= j < k ==> IsOctet(o[j]))
    ensures s[i..OctetsEnd(s, i, k).value] == JoinDots(o)
    decreases k
  {
    var e := DigitRunEnd(s, i);
    OctetPatternIsOctet(s[i..e]);
    if k == 1 {
      o := [s[i..e]];
    } else {
      assert e < |s| && s[e] == '.' && OctetsEnd(s, i, k) == OctetsEnd(s, e + 1, k - 1);
      var rest := OctetsEndSpan(s, e + 1, k - 1);
      o := [s[i..e]] + rest;
      var end := OctetsEnd(s, i, k).value;
      assert o[1..] == rest;
      assert JoinDots(o) == s[i..e] + "." + JoinDots(rest);
      DotSplit(s, i, e, end);
    }
  }

  /** A slice with a dot at `e` is the text before the dot, the dot and the text after it. */
  lemma DotSplit(s: string, i: nat, e: nat, end: nat)
    requires i <= e < end <= |s| && s[e] == '.'
    ensures s[i..end] == s[i..e] + "." + s[e + 1..end]
  {
    assert s[i..end] == s[i..e] + s[e..end];
    assert s[e..end] == [s[e]] + s[e + 1..end];
  }

  /** What the pattern matches at one position is four octets in 0..255, dot-separated. */
  lemma MatchIsDottedQuad(s: string, p: nat, e: nat)
    requires p <= |s| && Ipv4MatchAt(s, p) == Some(e)
    ensures e <= |s| && IsDottedQuad(s[p..e])
  {
    var o := OctetsEndSpan(s, p, 4);
    assert OctetsEnd(s, p, 4) == Some(e);
    assert |o| == 4 && (forall i :: 0 <= i < 4 ==> IsOctet(o[i])) && s[p..e] == JoinDots(o);
  }

  /** Every literal `re.findall` returns for the IPv4 pattern is four octets in 0..255, dot-separated. */
  lemma Ipv4FromDottedQuads(s: string, p: nat)
    requires p <= |s|
    ensures forall i :: 0 <= i < |Ipv4From(s, p)| ==> IsDottedQuad(Ipv4From(s, p)[i])
  {
    var m := Ipv4Matcher(s);
    forall k | p <= k < |s| && m(k).Some? ensures IsDottedQuad(s[k..m(k).value]) {
      MatchIsDottedQuad(s, k, m(k).value);
    }
    FindAllKeeps(s, m, p, x => IsDottedQuad(x));
  }

  lemma {:induction false} JoinDotsChars(o: seq<string>, c: char)
    requires |o| > 0 && forall i :: 0 <= i < |o| ==> AllDigits(o[i])
    requires c != '.' && !IsAsciiDigit(c)
    ensures c !in JoinDots(o)
  {
    assert c !in o[0];
    if |o| > 1 {
      JoinDotsChars(o[1..], c);
    }
  }

  /** A dotted quad has no colon in it, so it is never an IPv6 literal. */
  lemma DottedQuadHasNoColon(x: string)
    requires IsDottedQuad(x)
    ensures ':' !in x
  {
    var o: seq<string> :| |o| == 4 && (forall i :: 0 <= i < 4 ==> IsOctet(o[i])) && x == JoinDots(o);
    JoinDotsChars(o, ':');
  }

  /**
   * The `ips` of a hop: the IPv4 literals of the raw header when there is at
   * least one, otherwise whatever the IPv6 recogniser finds.
   */
  function ExtractIps(raw: string, ipv6FindAll: string -> seq<string>): seq<string> {
    var v4 := Ipv4From(raw, 0);
    if |v4| > 0 then v4 else ipv6FindAll(raw)
  }

  /**
   * The IPv6 recogniser is consulted exactly when the header holds no IPv4
   * literal; otherwise `ips` is every IPv4 literal, in order of appearance.
   */
  lemma ExtractIpsSpec(raw: string, ipv6FindAll: string -> seq<string>)
    ensures !NoIpv4From(raw, 0) ==> ExtractIps(raw, ipv6FindAll) == Ipv4From(raw, 0) && |ExtractIps(raw, ipv6FindAll)| > 0
    ensures NoIpv4From(raw, 0) ==> ExtractIps(raw, ipv6FindAll) == ipv6FindAll(raw)
  {
    Ipv4FromEmpty(raw, 0);
  }

  /**
   * When the header holds an IPv4 literal, `ips` is only IPv4 literals,
   * each four octets in 0..255, and none of them is an IPv6 literal.
   */
  lemma Ipv4Precedence(raw: string, ipv6FindAll: string -> seq<string>)
    requires !NoIpv4From(raw, 0)
    ensures |ExtractIps(raw, ipv6FindAll)| > 0
    ensures forall x :: x in ExtractIps(raw, ipv6FindAll) ==> IsDottedQuad(x) && ':' !in x
  {
    ExtractIpsSpec(raw, ipv6FindAll);
    Ipv4FromDottedQuads(raw, 0);
    var ips := ExtractIps(raw, ipv6FindAll);
    forall x | x in ips ensures IsDottedQuad(x) && ':' !in x {
      var i :| 0 <= i < |ips| && ips[i] == x;
      DottedQuadHasNoColon(x);
    }
  }
}
