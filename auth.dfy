/**
 * The Authentication-Results reader: for each header, the `spf=`, `dkim=`
 * and `dmarc=` verdicts taken from a closed vocabulary, each found by its
 * own case-insensitive search `\b<key>=(v1|v2|...)\b` and lower-cased.
 */
module Auth {
  import opened Wrappers
  import opened Text
  import opened Mail

  const SpfResults: seq<string> := ["pass", "fail", "neutral", "none", "softfail", "temperror"]
  const DkimResults: seq<string> := ["pass", "fail", "none", "neutral"]
  const DmarcResults: seq<string> := ["pass", "fail", "none", "bestguesspass"]

  /** One parsed entry: a key is absent when its pattern does not match. */
  datatype AuthEntry = AuthEntry(spf: Option<string>, dkim: Option<string>, dmarc: Option<string>)

  /** What `parse_authentication_results` returns. */
  datatype AuthResults = AuthResults(
    raw: seq<string>,
    parsed: seq<AuthEntry>,
    dkimSignature: seq<string>,
    receivedSpf: seq<string>)

  predicate IsLowerLetter(c: char) {
    'a' <= c <= 'z'
  }

  /** Every word of the vocabulary is made of lower-case letters. */
  predicate LetterWords(vocab: seq<string>) {
    forall k, j :: 0 <= k < |vocab| && 0 <= j < |vocab[k]| ==> IsLowerLetter(vocab[k][j])
  }

  /** The alternative `t` matches at `q`, case-insensitively, and a `\b` follows it. */
  predicate AltMatches(a: string, q: int, t: string) {
    MatchesAt(a, q, t) && WordEnd(a, q + |t|)
  }

  /** The first alternative, from the `k`-th on, that matches at `q`. */
  function AlternativeAt(a: string, q: nat, vocab: seq<string>, k: nat): (r: Option<nat>)
    ensures r.Some? ==> k <= r.value < |vocab| && AltMatches(a, q, vocab[r.value])
    ensures r.Some? ==> forall j :: k <= j < r.value ==> !AltMatches(a, q, vocab[j])
    ensures r.None? ==> forall j :: k <= j < |vocab| ==> !AltMatches(a, q, vocab[j])
    decreases |vocab| - k
  {
    if k >= |vocab| then None
    else if AltMatches(a, q, vocab[k]) then Some(k)
    else AlternativeAt(a, q, vocab, k + 1)
  }

  /** The whole pattern `\b<key>=(v1|...)\b` matches at `p` taking the alternative `t`. */
  predicate TokenAt(a: string, p: int, key: string, t: string) {
    WordStart(a, p) && MatchesAt(a, p, key + "=") && AltMatches(a, p + |key| + 1, t)
  }

  /** `m.group(1).lower()` for a match of the pattern at `p`. */
  function VerdictAt(a: string, p: nat, key: string, vocab: seq<string>): Option<string> {
    var q := p + |key| + 1;
    if !(WordStart(a, p) && MatchesAt(a, p, key + "=")) then None
    else match AlternativeAt(a, q, vocab, 0)
      case None => None
      case Some(k) => Some(Lower(a[q..q + |vocab[k]|]))
  }

  /** `re.search` of the pattern in one header. */
  function FindVerdict(a: string, key: string, vocab: seq<string>): Option<string> {
    Search(p => VerdictAt(a, p, key, vocab), 0, |a|)
  }

  /** Text that matches a word of letters case-insensitively is made of word characters. */
  lemma LettersAreWordChars(a: string, q: int, t: string)
    requires MatchesAt(a, q, t)
    requires forall j :: 0 <= j < |t| ==> IsLowerLetter(t[j])
    ensures forall j :: q <= j < q + |t| ==> IsWordChar(a[j])
  {
    forall j | q <= j < q + |t| ensures IsWordChar(a[j]) {
      var c := a[q + (j - q)];
      assert LowerChar(c) == t[j - q];
      if !('A' <= c <= 'Z') {
        assert LowerChar(c) == c;
      }
    }
  }

  /**
   * Only letters follow a letter-only alternative's first character, so two
   * alternatives that both match at one position, each followed by `\b`, are
   * the same word: the order of the alternatives does not matter.
   */
  lemma AlternativeUnique(a: string, q: int, t: string, u: string)
    requires |t| > 0 && |u| > 0
    requires forall j :: 0 <= j < |t| ==> IsLowerLetter(t[j])
    requires forall j :: 0 <= j < |u| ==> IsLowerLetter(u[j])
    requires AltMatches(a, q, t) && AltMatches(a, q, u)
    ensures t == u
  {
    LettersAreWordChars(a, q, t);
    LettersAreWordChars(a, q, u);
    assert |t| == |u|;
    assert forall j :: 0 <= j < |t| ==> t[j] == LowerChar(a[q + j]) == u[j];
  }

  /** The lower-cased text of a matched alternative is the vocabulary word itself. */
  lemma LowerOfMatch(a: string, q: nat, t: string)
    requires MatchesAt(a, q, t)
    ensures Lower(a[q..q + |t|]) == t
  {
  }

  /** At one position: a verdict is a word of the vocabulary, absent exactly when no token of it starts there. */
  lemma VerdictAtSpec(a: string, p: nat, key: string, vocab: seq<string>)
    ensures VerdictAt(a, p, key, vocab).Some? ==> VerdictAt(a, p, key, vocab).value in vocab
    ensures VerdictAt(a, p, key, vocab).None? <==> forall k :: 0 <= k < |vocab| ==> !TokenAt(a, p, key, vocab[k])
  {
    var q := p + |key| + 1;
    if WordStart(a, p) && MatchesAt(a, p, key + "=") {
      match AlternativeAt(a, q, vocab, 0)
      case Some(k) =>
        LowerOfMatch(a, q, vocab[k]);
        assert TokenAt(a, p, key, vocab[k]);
      case None =>
    }
  }

  /**
   * Where a token of a letter-only vocabulary starts, the verdict is that
   * token's word, whatever the order of the alternatives in the pattern.
   */
  lemma VerdictAtToken(a: string, p: nat, key: string, vocab: seq<string>, k: nat)
    requires LetterWords(vocab) && forall j :: 0 <= j < |vocab| ==> |vocab[j]| > 0
    requires k < |vocab| && TokenAt(a, p, key, vocab[k])
    ensures VerdictAt(a, p, key, vocab) == Some(vocab[k])
  {
    var q := p + |key| + 1;
    var i := AlternativeAt(a, q, vocab, 0).value;
    AlternativeUnique(a, q, vocab[i], vocab[k]);
    LowerOfMatch(a, q, vocab[k]);
  }

  /**
   * A verdict is a word of the vocabulary, and it is absent exactly when no
   * `<key>=<word>` token of the vocabulary, bounded as the pattern demands,
   * occurs in the header.
   */
  lemma FindVerdictSpec(a: string, key: string, vocab: seq<string>)
    ensures FindVerdict(a, key, vocab).Some? ==> FindVerdict(a, key, vocab).value in vocab
    ensures FindVerdict(a, key, vocab).None? <==>
      forall p, k :: 0 <= p < |a| && 0 <= k < |vocab| ==> !TokenAt(a, p, key, vocab[k])
  {
    var f := (p: nat) => VerdictAt(a, p, key, vocab);
    SearchLeftmost(f, 0, |a|);
    if FindVerdict(a, key, vocab).Some? {
      var p: nat :| FirstHit(f, 0, p, |a|) && f(p) == FindVerdict(a, key, vocab);
      VerdictAtSpec(a, p, key, vocab);
    } else {
      forall p, k | 0 <= p < |a| && 0 <= k < |vocab| ensures !TokenAt(a, p, key, vocab[k]) {
        assert f(p).None?;
        VerdictAtSpec(a, p, key, vocab);
      }
    }
  }

  /** The token of `vocab[k]` at `p` is the leftmost `<key>=<word>` token of the header. */
  predicate FirstToken(a: string, key: string, vocab: seq<string>, p: nat, k: nat) {
    p < |a| && k < |vocab| && TokenAt(a, p, key, vocab[k])
    && forall q, j :: 0 <= q < p && 0 <= j < |vocab| ==> !TokenAt(a, q, key, vocab[j])
  }

  /** A vocabulary of non-empty words of lower-case letters, as all three are. */
  predicate WordVocabulary(vocab: seq<string>) {
    LetterWords(vocab) && forall j :: 0 <= j < |vocab| ==> |vocab[j]| > 0
  }

  /** The verdict found is the word of the leftmost token. */
  lemma FindVerdictFirstToken(a: string, key: string, vocab: seq<string>)
    requires WordVocabulary(vocab)
    ensures FindVerdict(a, key, vocab).Some? ==>
      exists p: nat, k: nat :: FirstToken(a, key, vocab, p, k) && FindVerdict(a, key, vocab).value == vocab[k]
  {
    var f := (p: nat) => VerdictAt(a, p, key, vocab);
    SearchLeftmost(f, 0, |a|);
    if FindVerdict(a, key, vocab).Some? {
      var p: nat :| FirstHit(f, 0, p, |a|) && f(p) == FindVerdict(a, key, vocab);
      VerdictAtSpec(a, p, key, vocab);
      var k :| 0 <= k < |vocab| && TokenAt(a, p, key, vocab[k]);
      VerdictAtToken(a, p, key, vocab, k);
      forall q, j | 0 <= q < p && 0 <= j < |vocab| ensures !TokenAt(a, q, key, vocab[j]) {
        assert f(q).None?;
        VerdictAtSpec(a, q, key, vocab);
      }
      assert FirstToken(a, key, vocab, p, k);
    }
  }

  /** Where the leftmost token is `<key>=vocab[k]`, the verdict is `vocab[k]`, whatever follows. */
  lemma FindVerdictOfFirstToken(a: string, key: string, vocab: seq<string>, p: nat, k: nat)
    requires WordVocabulary(vocab) && FirstToken(a, key, vocab, p, k)
    ensures FindVerdict(a, key, vocab) == Some(vocab[k])
  {
    var f := (q: nat) => VerdictAt(a, q, key, vocab);
    VerdictAtToken(a, p, key, vocab, k);
    assert f(p) == Some(vocab[k]);
    SearchLeftmost(f, 0, |a|);
    assert Search(f, 0, |a|).Some?;
    forall q | 0 <= q < p ensures f(q).None? {
      VerdictAtSpec(a, q, key, vocab);
    }
    var r: nat :| FirstHit(f, 0, r, |a|) && f(r) == Search(f, 0, |a|);
    assert r == p;
  }

  /** The three vocabularies are non-empty words of lower-case letters. */
  lemma VocabulariesAreWords()
    ensures WordVocabulary(SpfResults) && WordVocabulary(DkimResults) && WordVocabulary(DmarcResults)
  {
  }

  /** The entry `parse_authentication_results` builds for one header. */
  function AuthEntryOf(a: string): AuthEntry {
    AuthEntry(FindVerdict(a, "spf", SpfResults), FindVerdict(a, "dkim", DkimResults), FindVerdict(a, "dmarc", DmarcResults))
  }

  /**
   * Each key of an entry holds a word of its own vocabulary, lower-cased,
   * and is absent exactly when no token for it occurs; when tokens occur, it
   * holds the word of the leftmost one.
   */
  lemma AuthEntrySpec(a: string)
    ensures var e := AuthEntryOf(a);
      (e.spf.Some? ==> e.spf.value in SpfResults)
      && (e.dkim.Some? ==> e.dkim.value in DkimResults)
      && (e.dmarc.Some? ==> e.dmarc.value in DmarcResults)
    ensures AuthEntryOf(a).spf.None? <==>
      forall p, k :: 0 <= p < |a| && 0 <= k < |SpfResults| ==> !TokenAt(a, p, "spf", SpfResults[k])
    ensures AuthEntryOf(a).dkim.None? <==>
      forall p, k :: 0 <= p < |a| && 0 <= k < |DkimResults| ==> !TokenAt(a, p, "dkim", DkimResults[k])
    ensures AuthEntryOf(a).dmarc.None? <==>
      forall p, k :: 0 <= p < |a| && 0 <= k < |DmarcResults| ==> !TokenAt(a, p, "dmarc", DmarcResults[k])
    ensures forall p: nat, k: nat :: FirstToken(a, "spf", SpfResults, p, k) ==> AuthEntryOf(a).spf == Some(SpfResults[k])
    ensures forall p: nat, k: nat :: FirstToken(a, "dkim", DkimResults, p, k) ==> AuthEntryOf(a).dkim == Some(DkimResults[k])
    ensures forall p: nat, k: nat :: FirstToken(a, "dmarc", DmarcResults, p, k) ==> AuthEntryOf(a).dmarc == Some(DmarcResults[k])
  {
    FindVerdictSpec(a, "spf", SpfResults);
    FindVerdictSpec(a, "dkim", DkimResults);
    FindVerdictSpec(a, "dmarc", DmarcResults);
    VocabulariesAreWords();
    forall p: nat, k: nat | FirstToken(a, "spf", SpfResults, p, k) ensures AuthEntryOf(a).spf == Some(SpfResults[k]) {
      FindVerdictOfFirstToken(a, "spf", SpfResults, p, k);
    }
    forall p: nat, k: nat | FirstToken(a, "dkim", DkimResults, p, k) ensures AuthEntryOf(a).dkim == Some(DkimResults[k]) {
      FindVerdictOfFirstToken(a, "dkim", DkimResults, p, k);
    }
    forall p: nat, k: nat | FirstToken(a, "dmarc", DmarcResults, p, k) ensures AuthEntryOf(a).dmarc == Some(DmarcResults[k]) {
      FindVerdictOfFirstToken(a, "dmarc", DmarcResults, p, k);
    }
  }

  /** The value of `parse_authentication_results(msg)`. */
  function AuthResultsOf(msg: Message): (r: AuthResults)
    ensures r.raw == AllOrEmpty(msg, "Authentication-Results")
    ensures |r.parsed| == |r.raw|
    ensures forall i :: 0 <= i < |r.raw| ==> r.parsed[i] == AuthEntryOf(r.raw[i])
    ensures r.dkimSignature == AllOrEmpty(msg, "DKIM-Signature")
    ensures r.receivedSpf == AllOrEmpty(msg, "Received-SPF")
  {
    var auths := AllOrEmpty(msg, "Authentication-Results");
    AuthResults(
      auths,
      seq(|auths|, i requires 0 <= i < |auths| => AuthEntryOf(auths[i])),
      AllOrEmpty(msg, "DKIM-Signature"),
      AllOrEmpty(msg, "Received-SPF"))
  }

  /** `parse_authentication_results`: one entry per header, each filled in key by key. */
  method ParseAuthenticationResults(msg: Message) returns (r: AuthResults)
    ensures r == AuthResultsOf(msg)
  {
    var auths := AllOrEmpty(msg, "Authentication-Results");
    var results: seq<AuthEntry> := [];
    for i := 0 to |auths|
      invariant |results| == i
      invariant forall j :: 0 <= j < i ==> results[j] == AuthEntryOf(auths[j])
    {
      var a := auths[i];
      var entry := AuthEntry(None, None, None);
      var m := FindVerdict(a, "spf", SpfResults);
      if m.Some? {
        entry := entry.(spf := Some(m.value));
      }
      m := FindVerdict(a, "dkim", DkimResults);
      if m.Some? {
        entry := entry.(dkim := Some(m.value));
      }
      m := FindVerdict(a, "dmarc", DmarcResults);
      if m.Some? {
        entry := entry.(dmarc := Some(m.value));
      }
      results := results + [entry];
    }
    r := AuthResults(auths, results, AllOrEmpty(msg, "DKIM-Signature"), AllOrEmpty(msg, "Received-SPF"));
  }
}
