/**
 * The transport classifier: the TLS tri-state of a hop, inferred from
 * lexical tokens of the lowercased raw header. An encryption token anywhere
 * wins; otherwise `with smtp`, `with esmtp` or `with lmtp` as whole words
 * means plaintext; otherwise there is no signal.
 */
module Transport {
  import opened Wrappers
  import opened Text

  const TlsTokens: seq<string> := ["esmtps", "esmtpsa", "smtps", "with tls", "starttls", "tls", "ssl", "encrypted"]

  const PlainProtocols: seq<string> := ["smtp", "esmtp", "lmtp"]

  /** Some entry of TLS_TOKENS is a substring of `lower`. */
  predicate HasTlsToken(lower: string) {
    exists k :: 0 <= k < |TlsTokens| && Contains(lower, TlsTokens[k])
  }

  /**
   * The pattern `\bwith\s+(smtp|esmtp|lmtp)\b` matches at `p`. The greedy
   * `\s+` can only succeed with the whole whitespace run, since giving any
   * of it back leaves whitespace where the protocol name must start.
   */
  predicate PlainProtocolAt(lower: string, p: nat) {
    WordStart(lower, p) && OccursAt(lower, "with", p) && p + 4 < |lower| && IsSpace(lower[p + 4])
    && var e := SkipSpaces(lower, p + 4);
       exists k :: 0 <= k < |PlainProtocols| && OccursAt(lower, PlainProtocols[k], e) && WordEnd(lower, e + |PlainProtocols[k]|)
  }

  predicate HasPlainProtocol(lower: string) {
    exists p :: 0 <= p < |lower| && PlainProtocolAt(lower, p)
  }

  /** The TLS tri-state of a raw `Received` header: Some(true), Some(false) or None. */
  function ClassifyTls(raw: string): Option<bool> {
    var lower := Lower(raw);
    if HasTlsToken(lower) then Some(true)
    else if HasPlainProtocol(lower) then Some(false)
    else None
  }

  /** A TLS token decides the tri-state, even when `with smtp` is also present. */
  lemma TlsTokenWins(raw: string, k: nat)
    requires k < |TlsTokens| && Contains(Lower(raw), TlsTokens[k])
    ensures ClassifyTls(raw) == Some(true)
  {
  }

  /** The tri-state is false exactly when no TLS token occurs and a plaintext `with` clause does. */
  lemma TlsFalseIff(raw: string)
    ensures ClassifyTls(raw) == Some(false) <==> !HasTlsToken(Lower(raw)) && HasPlainProtocol(Lower(raw))
  {
  }

  lemma OccursInside(s: string, t: string, i: nat, u: string, d: nat)
    requires OccursAt(s, t, i) && d + |u| <= |t| && t[d..d + |u|] == u
    ensures OccursAt(s, u, i + d)
  {
    forall j | 0 <= j < |u| ensures s[i + d + j] == u[j] {
      assert u[j] == t[d + j] == s[i..i + |t|][d + j];
    }
    assert s[i + d..i + d + |u|] == u;
  }

  /**
   * Four of the eight tokens contain another token, so the list is
   * equivalent to four: `smtps`, `tls`, `ssl` and `encrypted`.
   */
  lemma TlsTokensReduce(lower: string)
    ensures HasTlsToken(lower) <==>
      Contains(lower, "smtps") || Contains(lower, "tls") || Contains(lower, "ssl") || Contains(lower, "encrypted")
  {
    if HasTlsToken(lower) {
      var k :| 0 <= k < |TlsTokens| && Contains(lower, TlsTokens[k]);
      var i :| 0 <= i <= |lower| && OccursAt(lower, TlsTokens[k], i);
      if k == 0 {
        assert "esmtps"[1..6] == "smtps";
        OccursInside(lower, "esmtps", i, "smtps", 1);
      } else if k == 1 {
        assert "esmtpsa"[1..6] == "smtps";
        OccursInside(lower, "esmtpsa", i, "smtps", 1);
      } else if k == 3 {
        assert "with tls"[5..8] == "tls";
        OccursInside(lower, "with tls", i, "tls", 5);
      } else if k == 4 {
        assert "starttls"[5..8] == "tls";
        OccursInside(lower, "starttls", i, "tls", 5);
      }
    }
    if Contains(lower, "smtps") {
      assert Contains(lower, TlsTokens[2]);
    } else if Contains(lower, "tls") {
      assert Contains(lower, TlsTokens[5]);
    } else if Contains(lower, "ssl") {
      assert Contains(lower, TlsTokens[6]);
    } else if Contains(lower, "encrypted") {
      assert Contains(lower, TlsTokens[7]);
    }
  }

  /**
   * The tri-state is true exactly when the lowercased header contains
   * `smtps`, `tls`, `ssl` or `encrypted`.
   */
  lemma TlsTrueIff(raw: string)
    ensures ClassifyTls(raw) == Some(true) <==>
      var lower := Lower(raw);
      Contains(lower, "smtps") || Contains(lower, "tls") || Contains(lower, "ssl") || Contains(lower, "encrypted")
  {
    TlsTokensReduce(Lower(raw));
  }
}
