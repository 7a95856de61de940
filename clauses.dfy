/**
 * The clause searches of the hop field extractor. Each one is a
 * keyword-anchored, case-insensitive `re.search` over the
 * whitespace-normalised header `s`:
 *
 *   from  `\bfrom\s+(?P<from>.+?)\s+(?:by|with|id|for|;)`
 *   by    `\bby\s+(?P<by>.+?)\s+(?:with|id|for|;)`
 *   with  `\bwith\s+(?P<with>.+?)\s+(?:id|for|;)`
 *   id    `\bid\s+(?P<id>\S+)`
 *   for   `\bfor\s+(?P<for>.+?)\s*(?:;|$)`
 *
 * and the value is the group, stripped. In normalised text every run of
 * whitespace is one space, so `\s+` is exactly one space and `\s*` at most
 * one; the lazy group ends at the first place where the rest of the pattern
 * can match. Each search is independent of the others.
 */
module Clauses {
  import opened Wrappers
  import opened Text

  datatype Clause = From | By | With | Id | For

  function Keyword(c: Clause): string {
    match c
    case From => "from"
    case By => "by"
    case With => "with"
    case Id => "id"
    case For => "for"
  }

  /** The words that end a lazily matched from/by/with value when one space precedes them. */
  function Stops(c: Clause): seq<string> {
    match c
    case From => ["by", "with", "id", "for", ";"]
    case By => ["with", "id", "for", ";"]
    case With => ["id", "for", ";"]
    case _ => []
  }

  /** `\s+(?:stop|...)` matches at `q` in normalised text: a space, then a stop word. */
  predicate StopAt(s: string, q: int, stops: seq<string>) {
    0 <= q < |s| && s[q] == ' ' && exists j :: 0 <= j < |stops| && MatchesAt(s, q + 1, stops[j])
  }

  /** The first position at or after `q` where a stop word follows a space. */
  function FirstStop(s: string, q: nat, stops: seq<string>): (r: Option<nat>)
    requires q <= |s|
    ensures r.Some? ==> q <= r.value < |s| && StopAt(s, r.value, stops)
    ensures forall k :: q <= k < (if r.Some? then r.value else |s|) ==> !StopAt(s, k, stops)
    decreases |s| - q
  {
    if q == |s| then None
    else if StopAt(s, q, stops) then Some(q)
    else FirstStop(s, q + 1, stops)
  }

  /** `\s*(?:;|$)` matches at `q` in normalised text. */
  predicate ForStopAt(s: string, q: int) {
    q == |s| || (0 <= q < |s| && (s[q] == ';' || (s[q] == ' ' && (q + 1 == |s| || s[q + 1] == ';'))))
  }

  /** The first position at or after `q` where a for value can end; the end of the text at the latest. */
  function FirstForStop(s: string, q: nat): (r: nat)
    requires q <= |s|
    ensures q <= r <= |s| && ForStopAt(s, r)
    ensures forall k :: q <= k < r ==> !ForStopAt(s, k)
    decreases |s| - q
  {
    if ForStopAt(s, q) then q else FirstForStop(s, q + 1)
  }

  /** `\b<keyword>\s+` matches at `p` in normalised text. */
  predicate KeywordAt(s: string, p: nat, kw: string) {
    WordStart(s, p) && MatchesAt(s, p, kw) && p + |kw| < |s| && s[p + |kw|] == ' '
  }

  /** No stop word follows a space anywhere inside `v`. */
  predicate NoStopInside(v: string, stops: seq<string>) {
    forall i :: 0 <= i < |v| ==> !StopAt(v, i, stops)
  }

  /** What every extracted value of clause `c` looks like. */
  predicate WellFormedValue(c: Clause, v: string) {
    |v| > 0 && Trimmed(v)
    && (c == Id ==> NoSpace(v))
    && (c == For ==> ';' !in v)
    && (c == From || c == By || c == With ==> NoStopInside(v, Stops(c)))
  }

  /** The stripped group of the from/by/with pattern whose value starts at `g`. */
  function StopValue(s: string, g: nat, stops: seq<string>): Option<string>
    requires g < |s|
  {
    match FirstStop(s, g + 1, stops)
    case Some(q) => Some(Trim(s[g..q]))
    case None => None
  }

  /**
   * The stripped group of the corrected `for` pattern whose value starts at
   * `g`: the value may not start with `;` (see ForClauseAsWrittenAt for the
   * pattern as the source has it).
   */
  function ForValue(s: string, g: nat): Option<string>
    requires g < |s|
  {
    if s[g] == ';' then None else Some(Trim(s[g..FirstForStop(s, g + 1)]))
  }

  /** The value of clause `c` if its pattern matches at `p`. */
  function ClauseAt(s: string, p: nat, c: Clause): Option<string> {
    var kw := Keyword(c);
    if !KeywordAt(s, p, kw) then None
    else
      var g := p + |kw| + 1;
      if g == |s| then None
      else
        match c
        case Id => Some(Trim(s[g..RunEnd(s, g)]))
        case For => ForValue(s, g)
        case _ => StopValue(s, g, Stops(c))
  }

  /** After a keyword and its space, normalised text goes on with a non-space character. */
  lemma ValueStart(s: string, p: nat, kw: string)
    requires Normalized(s) && KeywordAt(s, p, kw)
    ensures p + |kw| + 1 < |s| && !IsSpace(s[p + |kw| + 1])
  {
    SpaceInNormalized(s, p + |kw|);
  }

  lemma MatchesInSlice(s: string, a: nat, b: nat, i: nat, w: string)
    requires a <= b <= |s|
    ensures MatchesAt(s[a..b], i, w) ==> MatchesAt(s, a + i, w)
  {
    if MatchesAt(s[a..b], i, w) {
      forall j | 0 <= j < |w| ensures LowerChar(s[a + i + j]) == w[j] {
        assert s[a..b][i + j] == s[a + i + j];
      }
    }
  }

  lemma StopValueWellFormed(s: string, g: nat, stops: seq<string>)
    requires Normalized(s) && g < |s| && !IsSpace(s[g])
    ensures StopValue(s, g, stops).Some? ==>
      var v := StopValue(s, g, stops).value;
      |v| > 0 && Trimmed(v) && NoStopInside(v, stops)
  {
    match FirstStop(s, g + 1, stops)
    case Some(q) =>
      var v := s[g..q];
      assert v[0] == s[g] && v[|v| - 1] == s[q - 1];
      forall i, j | 0 <= i < |v| && v[i] == ' ' && 0 <= j < |stops| ensures !MatchesAt(v, i + 1, stops[j]) {
        assert v[i] == s[g + i] && i > 0;
        assert !StopAt(s, g + i, stops);
        MatchesInSlice(s, g, q, i + 1, stops[j]);
      }
    case None =>
  }

  lemma ForValueWellFormed(s: string, g: nat)
    requires Normalized(s) && g < |s| && !IsSpace(s[g])
    ensures ForValue(s, g).Some? ==> var v := ForValue(s, g).value; |v| > 0 && Trimmed(v) && ';' !in v
  {
    if s[g] != ';' {
      var q := FirstForStop(s, g + 1);
      var v := s[g..q];
      assert v[0] == s[g] && v[|v| - 1] == s[q - 1];
      if q - 1 > g && IsSpace(s[q - 1]) {
        assert ForStopAt(s, q - 1);
      }
      forall j | 0 <= j < |v| ensures v[j] != ';' {
        assert v[j] == s[g + j];
        if j > 0 { assert !ForStopAt(s, g + j); }
      }
    }
  }

  lemma IdClauseWellFormed(s: string, p: nat)
    requires Normalized(s)
    ensures ClauseAt(s, p, Id).Some? ==> WellFormedValue(Id, ClauseAt(s, p, Id).value)
  {
    if KeywordAt(s, p, "id") {
      ValueStart(s, p, "id");
      var g := p + 3;
      var v := s[g..RunEnd(s, g)];
      assert v[0] == s[g];
    }
  }

  lemma ForClauseWellFormed(s: string, p: nat)
    requires Normalized(s)
    ensures ClauseAt(s, p, For).Some? ==> WellFormedValue(For, ClauseAt(s, p, For).value)
  {
    if KeywordAt(s, p, "for") {
      ValueStart(s, p, "for");
      ForValueWellFormed(s, p + 4);
    }
  }

  lemma StopClauseWellFormed(s: string, p: nat, c: Clause)
    requires Normalized(s) && (c == From || c == By || c == With)
    ensures ClauseAt(s, p, c).Some? ==> WellFormedValue(c, ClauseAt(s, p, c).value)
  {
    var kw := Keyword(c);
    if KeywordAt(s, p, kw) {
      ValueStart(s, p, kw);
      var g := p + |kw| + 1;
      assert ClauseAt(s, p, c) == StopValue(s, g, Stops(c));
      StopValueWellFormed(s, g, Stops(c));
    }
  }

  /** Every value a clause pattern yields is non-empty and trimmed, and has its clause's shape. */
  lemma ClauseAtWellFormed(s: string, p: nat, c: Clause)
    requires Normalized(s)
    ensures ClauseAt(s, p, c).Some? ==> WellFormedValue(c, ClauseAt(s, p, c).value)
  {
    match c
    case Id => IdClauseWellFormed(s, p);
    case For => ForClauseWellFormed(s, p);
    case _ => StopClauseWellFormed(s, p, c);
  }

  /** The value of clause `c` in the normalised header: `re.search` from the start. */
  function FindClause(s: string, c: Clause): Option<string> {
    Search(k => ClauseAt(s, k, c), 0, |s|)
  }

  /**
   * A clause is absent exactly when its pattern matches nowhere in the
   * header; otherwise its value is the one at the leftmost match, and that
   * value is non-empty, trimmed and has its clause's shape.
   */
  lemma FindClauseSpec(s: string, c: Clause)
    requires Normalized(s)
    ensures FindClause(s, c).None? <==> forall k :: 0 <= k < |s| ==> ClauseAt(s, k, c).None?
    ensures FindClause(s, c).Some? ==>
      exists k :: 0 <= k < |s| && ClauseAt(s, k, c) == FindClause(s, c) && forall j :: 0 <= j < k ==> ClauseAt(s, j, c).None?
    ensures FindClause(s, c).Some? ==> WellFormedValue(c, FindClause(s, c).value)
  {
    var f := k => ClauseAt(s, k, c);
    SearchLeftmost(f, 0, |s|);
    assert forall k :: f(k) == ClauseAt(s, k, c);
    if FindClause(s, c).Some? {
      var k: nat :| FirstHit(f, 0, k, |s|) && f(k) == FindClause(s, c);
      ClauseAtWellFormed(s, k, c);
      assert forall j :: 0 <= j < k ==> ClauseAt(s, j, c).None?;
    }
  }

  /** The `for` pattern as the source writes it: the lazy group `.+?` may start with `;`. */
  function ForClauseAsWrittenAt(s: string, p: nat): Option<string> {
    if !KeywordAt(s, p, "for") || p + 4 == |s| then None
    else Some(Trim(s[p + 4..FirstForStop(s, p + 5)]))
  }

  /** `re.search` of the `for` pattern as written. */
  function ForClauseAsWritten(s: string): Option<string> {
    Search(k => ForClauseAsWrittenAt(s, k), 0, |s|)
  }

  /**
   * The corrected `for` search differs from the pattern as written at one
   * kind of position only: where the value would start with `;`, the
   * corrected search has no value; everywhere else the two agree.
   */
  lemma ForCorrectionOnlyAtSemicolon(s: string, p: nat)
    ensures ForClauseAsWrittenAt(s, p).Some? ==> p + 4 < |s|
    ensures ClauseAt(s, p, For) ==
      if ForClauseAsWrittenAt(s, p).Some? && p + 4 < |s| && s[p + 4] == ';' then None
      else ForClauseAsWrittenAt(s, p)
  {
  }

  /** The pattern as written matches a `for` clause at `p` whose value starts with `;`. */
  predicate WrittenForStartsWithSemicolon(s: string, p: nat) {
    ForClauseAsWrittenAt(s, p).Some? && p + 4 < |s| && s[p + 4] == ';'
  }

  /**
   * Over the whole header, the corrected `for` search skips every match of
   * the pattern as written whose value starts with `;` and takes the first
   * one whose value does not; with no such match it finds nothing.
   */
  lemma ForSearchSkipsSemicolons(s: string)
    ensures FindClause(s, For).None? <==>
      forall k :: 0 <= k < |s| ==> ForClauseAsWrittenAt(s, k).None? || WrittenForStartsWithSemicolon(s, k)
    ensures FindClause(s, For).Some? ==>
      exists k :: 0 <= k < |s| && ForClauseAsWrittenAt(s, k) == FindClause(s, For)
        && !WrittenForStartsWithSemicolon(s, k)
        && forall j :: 0 <= j < k ==> ForClauseAsWrittenAt(s, j).None? || WrittenForStartsWithSemicolon(s, j)
  {
    var f := k => ClauseAt(s, k, For);
    SearchLeftmost(f, 0, |s|);
    forall k: nat
      ensures f(k).None? <==> ForClauseAsWrittenAt(s, k).None? || WrittenForStartsWithSemicolon(s, k)
      ensures f(k).Some? ==> f(k) == ForClauseAsWrittenAt(s, k)
    {
      ForCorrectionOnlyAtSemicolon(s, k);
    }
    if FindClause(s, For).Some? {
      var k: nat :| FirstHit(f, 0, k, |s|) && f(k) == FindClause(s, For);
      assert ForClauseAsWrittenAt(s, k) == FindClause(s, For);
    }
  }

  /**
   * When the `for` clause is empty (`for ;`), the pattern as written takes
   * the `;` and everything up to the next `;` or the end as the address;
   * the corrected pattern finds no `for` value there.
   */
  lemma ForClauseAsWrittenKeepsSemicolon()
    ensures Normalized("for ; x")
    ensures ForClauseAsWritten("for ; x") == Some("; x")
    ensures FindClause("for ; x", For) == None
  {
    var s := "for ; x";
    SampleNormalized();
    assert ForClauseAsWrittenAt(s, 0) == Some("; x") by {
      assert MatchesAt(s, 0, "for") by {
        assert LowerChar(s[0]) == 'f' && LowerChar(s[1]) == 'o' && LowerChar(s[2]) == 'r';
      }
      assert KeywordAt(s, 0, "for");
      assert ForStopAt(s, 7) && !ForStopAt(s, 5) && !ForStopAt(s, 6);
      assert FirstForStop(s, 5) == 7;
      assert s[4..7] == "; x";
      assert Trimmed("; x");
    }
    SampleNoForValue();
    FindClauseSpec(s, For);
  }

  /**
   * With a later `for` in the header, the corrected search does not come up
   * empty: it skips the `for` whose value would start with `;` and takes the
   * next one, where the pattern as written keeps the first.
   */
  lemma ForSearchTakesLaterFor()
    ensures ForClauseAsWritten("by a for ; b for c") == Some("; b for c")
    ensures FindClause("by a for ; b for c", For) == Some("c")
  {
    LaterForWrittenSearch();
    LaterForCorrectedSearch();
  }

  lemma LaterForWrittenSearch()
    ensures ForClauseAsWritten("by a for ; b for c") == Some("; b for c")
  {
    var s := "by a for ; b for c";
    LaterForSampleWritten();
    LaterForSampleKeywords();
    var f := k => ForClauseAsWrittenAt(s, k);
    SearchLeftmost(f, 0, |s|);
    assert FirstHit(f, 0, 5, |s|);
  }

  lemma LaterForCorrectedSearch()
    ensures FindClause("by a for ; b for c", For) == Some("c")
  {
    var s := "by a for ; b for c";
    LaterForSampleCorrected();
    LaterForSampleKeywords();
    var g := k => ClauseAt(s, k, For);
    SearchLeftmost(g, 0, |s|);
    assert FirstHit(g, 0, 13, |s|);
  }

  lemma LaterForSampleWritten()
    ensures ForClauseAsWrittenAt("by a for ; b for c", 5) == Some("; b for c")
  {
    var s := "by a for ; b for c";
    assert MatchesAt(s, 5, "for") by {
      assert LowerChar(s[5]) == 'f' && LowerChar(s[6]) == 'o' && LowerChar(s[7]) == 'r';
    }
    assert FirstForStop(s, 10) == 18 by {
      forall k | 10 <= k < 18 ensures !ForStopAt(s, k) {
        assert s[k] != ';' && (s[k] == ' ' ==> s[k + 1] != ';');
      }
    }
    assert s[9..18] == "; b for c";
    assert Trimmed("; b for c");
  }

  lemma LaterForSampleCorrected()
    ensures ClauseAt("by a for ; b for c", 5, For) == None
    ensures ClauseAt("by a for ; b for c", 13, For) == Some("c")
  {
    var s := "by a for ; b for c";
    assert MatchesAt(s, 13, "for") by {
      assert LowerChar(s[13]) == 'f' && LowerChar(s[14]) == 'o' && LowerChar(s[15]) == 'r';
    }
    assert s[9] == ';';
    assert s[17..18] == "c";
    assert Trimmed("c");
  }

  lemma LaterForSampleKeywords()
    ensures forall k :: 0 <= k < 13 && k != 5 ==> !KeywordAt("by a for ; b for c", k, "for")
  {
    var s := "by a for ; b for c";
    forall k | 0 <= k < 13 && k != 5 ensures !KeywordAt(s, k, "for") {
      if k == 1 || k == 6 || k == 7 {
        assert IsWordChar(s[k - 1]);
      } else {
        assert LowerChar(s[k + 0]) != "for"[0];
      }
    }
  }

  lemma SampleNormalized()
    ensures Normalized("for ; x")
  {
    var s := "for ; x";
    assert forall i :: 0 <= i < |s| && IsSpace(s[i]) ==> i == 3 || i == 5;
  }

  lemma SampleNoForValue()
    ensures forall k :: 0 <= k < 7 ==> ClauseAt("for ; x", k, For).None?
  {
    var s := "for ; x";
    forall k | 0 <= k < |s| ensures ClauseAt(s, k, For).None? {
      if 0 < k < 3 {
        assert IsWordChar(s[k - 1]);
      } else if 3 <= k < 5 {
        assert LowerChar(s[k]) != 'f';
      }
    }
  }
}
