/**
 * Character classes and string operations that the header parser relies on:
 * Python's notion of whitespace (shared by `str.split`, `str.strip` and the
 * regex class `\s`), word characters for `\b`, ASCII lower-casing, substring
 * search, `strip`, and the whitespace collapse `' '.join(raw.split())`.
 */
module Text {
  import opened Wrappers

  /** Python's whitespace: `str.isspace`, which `split`, `strip` and `\s` all use. */
  predicate IsSpace(c: char) {
    c == ' ' || '\t' <= c <= '\r' || '\U{1C}' <= c <= '\U{1F}' || c == '\U{85}' || c == '\U{A0}'
    || c == '\U{1680}' || '\U{2000}' <= c <= '\U{200A}' || c == '\U{2028}' || c == '\U{2029}'
    || c == '\U{202F}' || c == '\U{205F}' || c == '\U{3000}'
  }

  predicate IsAsciiDigit(c: char) {
    '0' <= c <= '9'
  }

  /** A regex word character (`\w`), restricted to ASCII. */
  predicate IsWordChar(c: char) {
    'a' <= c <= 'z' || 'A' <= c <= 'Z' || IsAsciiDigit(c) || c == '_'
  }

  function LowerChar(c: char): char {
    if 'A' <= c <= 'Z' then (c as int + 32) as char else c
  }

  /** `str.lower()` on ASCII letters; every other character is kept. */
  function Lower(s: string): string {
    seq(|s|, i requires 0 <= i < |s| => LowerChar(s[i]))
  }

  /** `\b` just before position `p`, where the character at `p` is a word character. */
  predicate WordStart(s: string, p: int) {
    p == 0 || (0 < p <= |s| && !IsWordChar(s[p - 1]))
  }

  /** `\b` just after position `e - 1`, where the character at `e - 1` is a word character. */
  predicate WordEnd(s: string, e: int) {
    e == |s| || (0 <= e < |s| && !IsWordChar(s[e]))
  }

  /** The lower-case word `w` occurs at `p` in `s`, compared case-insensitively (regex flag `re.I`). */
  predicate MatchesAt(s: string, p: int, w: string) {
    0 <= p && p + |w| <= |s| && forall j :: 0 <= j < |w| ==> LowerChar(s[p + j]) == w[j]
  }

  /** `t` occurs verbatim at `i` in `s`. */
  predicate OccursAt(s: string, t: string, i: int) {
    0 <= i && i + |t| <= |s| && s[i..i + |t|] == t
  }

  /** Python's `t in s` on strings. */
  predicate Contains(s: string, t: string) {
    exists i :: 0 <= i <= |s| && OccursAt(s, t, i)
  }

  predicate NoSpace(w: string) {
    forall i :: 0 <= i < |w| ==> !IsSpace(w[i])
  }

  /** What `str.strip()` leaves: no whitespace at either end. */
  predicate Trimmed(s: string) {
    |s| == 0 || (!IsSpace(s[0]) && !IsSpace(s[|s| - 1]))
  }

  /** `r` is `s` with only whitespace removed before position `a` and after `a + |r|`. */
  predicate PaddedBy(s: string, r: string, a: int) {
    0 <= a && a + |r| <= |s| && s[a..a + |r|] == r
    && (forall j :: 0 <= j < a ==> IsSpace(s[j]))
    && (forall j :: a + |r| <= j < |s| ==> IsSpace(s[j]))
  }

  function SkipSpaces(s: string, i: nat): (k: nat)
    requires i <= |s|
    ensures i <= k <= |s|
    ensures forall j :: i <= j < k ==> IsSpace(s[j])
    ensures k < |s| ==> !IsSpace(s[k])
    decreases |s| - i
  {
    if i < |s| && IsSpace(s[i]) then SkipSpaces(s, i + 1) else i
  }

  function SkipSpacesBack(s: string, lo: nat, i: nat): (k: nat)
    requires lo <= i <= |s|
    ensures lo <= k <= i
    ensures forall j :: k <= j < i ==> IsSpace(s[j])
    ensures k > lo ==> !IsSpace(s[k - 1])
    decreases i
  {
    if i > lo && IsSpace(s[i - 1]) then SkipSpacesBack(s, lo, i - 1) else i
  }

  /** `str.strip()`: the text with leading and trailing whitespace removed. */
  function Trim(s: string): (r: string)
    ensures Trimmed(r)
    ensures exists a :: PaddedBy(s, r, a)
    ensures Trimmed(s) ==> r == s
  {
    var a := SkipSpaces(s, 0);
    var b := SkipSpacesBack(s, a, |s|);
    assert PaddedBy(s, s[a..b], a);
    s[a..b]
  }

  /** The end of the run of non-whitespace characters that starts at `i`. */
  function RunEnd(s: string, i: nat): (e: nat)
    requires i <= |s|
    ensures i <= e <= |s|
    ensures forall j :: i <= j < e ==> !IsSpace(s[j])
    ensures e < |s| ==> IsSpace(s[e])
    decreases |s| - i
  {
    if i < |s| && !IsSpace(s[i]) then RunEnd(s, i + 1) else i
  }

  predicate IsWord(w: string) {
    |w| > 0 && NoSpace(w)
  }

  /** `str.split()` with no argument: the maximal runs of non-whitespace, in order (see WordsSplit). */
  function Words(s: string): (ws: seq<string>)
    ensures forall i :: 0 <= i < |ws| ==> IsWord(ws[i])
    decreases |s|
  {
    if |s| == 0 then []
    else if IsSpace(s[0]) then Words(s[1..])
    else
      var e := RunEnd(s, 0);
      [s[..e]] + Words(s[e..])
  }

  /** `' '.join(ws)`. */
  function Join(ws: seq<string>): string {
    if |ws| == 0 then ""
    else if |ws| == 1 then ws[0]
    else ws[0] + " " + Join(ws[1..])
  }

  /**
   * Whitespace-normalised text: no whitespace at either end, every
   * whitespace character is a plain space, and no two of them are adjacent.
   */
  predicate Normalized(s: string) {
    Trimmed(s)
    && (forall i :: 0 <= i < |s| && IsSpace(s[i]) ==> s[i] == ' ')
    && (forall i, j :: 0 <= i < |s| && 0 <= j < |s| && j == i + 1 ==> !IsSpace(s[i]) || !IsSpace(s[j]))
  }

  /** In normalised text a whitespace character is a space with a non-space after it. */
  lemma SpaceInNormalized(s: string, i: nat)
    requires Normalized(s) && i < |s| && IsSpace(s[i])
    ensures s[i] == ' ' && i + 1 < |s| && !IsSpace(s[i + 1])
  {
  }

  lemma {:induction false} JoinNormalized(ws: seq<string>)
    requires forall i :: 0 <= i < |ws| ==> IsWord(ws[i])
    ensures Normalized(Join(ws))
    ensures |ws| > 0 ==> |Join(ws)| > 0
  {
    if |ws| > 1 {
      JoinNormalized(ws[1..]);
      var w, rest := ws[0], Join(ws[1..]);
      var s := w + " " + rest;
      assert IsWord(w) && IsWord(ws[1]);
      assert s == Join(ws);
      forall i | 0 <= i < |s| && IsSpace(s[i]) ensures s[i] == ' ' {
        if i > |w| {
          assert s[i] == rest[i - |w| - 1];
        }
      }
      forall i, j | 0 <= i < |s| && 0 <= j < |s| && j == i + 1 ensures !IsSpace(s[i]) || !IsSpace(s[j]) {
        if i > |w| {
          assert s[i] == rest[i - |w| - 1];
          assert s[j] == rest[j - |w| - 1];
        } else if i == |w| {
          assert s[j] == rest[0];
        } else if j == |w| {
          assert s[i] == w[|w| - 1];
        }
      }
      assert s[0] == w[0];
      assert s[|s| - 1] == rest[|rest| - 1];
    }
  }

  /** A run that starts inside `a` ends at the same place when whitespace follows `a`. */
  lemma {:induction false} RunEndBeforeSpace(a: string, rest: string, i: nat)
    requires i <= |a| && |rest| > 0 && IsSpace(rest[0])
    ensures RunEnd(a + rest, i) == RunEnd(a, i)
    decreases |a| - i
  {
    var s := a + rest;
    if i < |a| {
      assert s[i] == a[i];
      if !IsSpace(a[i]) {
        RunEndBeforeSpace(a, rest, i + 1);
      }
    } else {
      assert s[i] == rest[0];
    }
  }

  /** A single word splits into itself. */
  lemma WordsOfWord(w: string)
    requires IsWord(w)
    ensures Words(w) == [w]
  {
    assert RunEnd(w, 0) == |w|;
    assert w[..|w|] == w && w[|w|..] == [];
  }

  /** Text that starts with a non-space splits into the run there and the words after it. */
  lemma WordsOfRun(s: string)
    requires |s| > 0 && !IsSpace(s[0])
    ensures Words(s) == [s[..RunEnd(s, 0)]] + Words(s[RunEnd(s, 0)..])
  {
  }

  /**
   * Splitting cuts at every whitespace character: the words of `a`, a
   * whitespace character, then `b` are the words of `a` followed by those of
   * `b`. With WordsOfWord and `Words("") == []` this fixes `Words` on every
   * text.
   */
  lemma {:induction false} WordsSplit(a: string, c: char, b: string)
    requires IsSpace(c)
    ensures Words(a + [c] + b) == Words(a) + Words(b)
    decreases |a|
  {
    var t := [c] + b;
    var s := a + t;
    assert a + [c] + b == s;
    if |a| == 0 {
      assert s == t && t[1..] == b;
    } else if IsSpace(a[0]) {
      WordsSplit(a[1..], c, b);
      assert s[1..] == a[1..] + [c] + b;
    } else {
      var e := RunEnd(a, 0);
      RunEndBeforeSpace(a, t, 0);
      WordsOfRun(s);
      WordsOfRun(a);
      assert s[..e] == a[..e];
      assert s[e..] == a[e..] + [c] + b;
      WordsSplit(a[e..], c, b);
    }
  }

  /** Splitting a space-joined list of words gives the words back. */
  lemma {:induction false} WordsJoin(ws: seq<string>)
    requires forall i :: 0 <= i < |ws| ==> IsWord(ws[i])
    ensures Words(Join(ws)) == ws
  {
    if |ws| == 1 {
      WordsOfWord(ws[0]);
    } else if |ws| > 1 {
      WordsJoin(ws[1..]);
      WordsOfWord(ws[0]);
      WordsSplit(ws[0], ' ', Join(ws[1..]));
      assert Join(ws) == ws[0] + [' '] + Join(ws[1..]);
      assert ws == [ws[0]] + ws[1..];
    }
  }

  /**
   * `' '.join(raw.split())`: the same words, separated by single spaces, and
   * no whitespace at either end.
   */
  function Normalize(raw: string): string {
    Join(Words(raw))
  }

  /** Normalising keeps the words of the header and leaves it whitespace-normalised. */
  lemma NormalizeSpec(raw: string)
    ensures Normalized(Normalize(raw))
    ensures Words(Normalize(raw)) == Words(raw)
  {
    JoinNormalized(Words(raw));
    WordsJoin(Words(raw));
  }

  /** The position of the last occurrence of `c` before position `i`, if any. */
  function LastIndexBelow(s: string, c: char, i: nat): (r: Option<nat>)
    requires i <= |s|
    ensures r.Some? ==> r.value < i && s[r.value] == c && forall j :: r.value < j < i ==> s[j] != c
    ensures r.None? ==> forall j :: 0 <= j < i ==> s[j] != c
  {
    if i == 0 then None
    else if s[i - 1] == c then Some(i - 1)
    else LastIndexBelow(s, c, i - 1)
  }

  /** The position of the last occurrence of `c`, if any (what `rsplit(c, 1)` splits at). */
  function LastIndexOf(s: string, c: char): (r: Option<nat>)
    ensures r.Some? ==> r.value < |s| && s[r.value] == c && forall j :: r.value < j < |s| ==> s[j] != c
    ensures r.None? <==> c !in s
  {
    LastIndexBelow(s, c, |s|)
  }

  /**
   * The scan of `re.search`: the result of `f` at the first position in
   * `p..n` where it has one.
   */
  function Search<T>(f: nat -> Option<T>, p: nat, n: nat): Option<T>
    decreases n - p
  {
    if p >= n then None
    else if f(p).Some? then f(p)
    else Search(f, p + 1, n)
  }

  /** `k` is the first position in `p..n` where `f` has a result. */
  predicate FirstHit<T>(f: nat -> Option<T>, p: nat, k: nat, n: nat) {
    p <= k < n && f(k).Some? && forall j :: p <= j < k ==> f(j).None?
  }

  /** The search fails exactly when no position matches, and otherwise returns the leftmost result. */
  lemma {:induction false} SearchLeftmost<T>(f: nat -> Option<T>, p: nat, n: nat)
    ensures Search(f, p, n).None? <==> forall k :: p <= k < n ==> f(k).None?
    ensures Search(f, p, n).Some? ==> exists k :: FirstHit(f, p, k, n) && f(k) == Search(f, p, n)
    decreases n - p
  {
    if p < n {
      if f(p).Some? {
        assert FirstHit(f, p, p, n);
      } else {
        SearchLeftmost(f, p + 1, n);
        if Search(f, p + 1, n).Some? {
          var k: nat :| FirstHit(f, p + 1, k, n) && f(k) == Search(f, p + 1, n);
          assert FirstHit(f, p, k, n);
        }
      }
    }
  }

  /** Every match `m` reports at `k` ends at `m(k)`, after `k` and within `s`. */
  ghost predicate Advances(s: string, m: nat -> Option<nat>) {
    forall k: nat :: m(k).Some? ==> k < m(k).value <= |s|
  }

  /**
   * The scan of `re.findall` with a pattern that never matches the empty
   * string: from `p`, the text of the match `m` reports at the first
   * position that has one, then the matches after its end.
   */
  function FindAll(s: string, m: nat -> Option<nat>, p: nat): seq<string>
    requires p <= |s| && Advances(s, m)
    decreases |s| - p
  {
    if p == |s| then []
    else match m(p)
      case Some(e) => [s[p..e]] + FindAll(s, m, e)
      case None => FindAll(s, m, p + 1)
  }

  /** The scan finds nothing exactly when no position from `p` on has a match. */
  lemma {:induction false} FindAllEmpty(s: string, m: nat -> Option<nat>, p: nat)
    requires p <= |s| && Advances(s, m)
    ensures FindAll(s, m, p) == [] <==> forall k :: p <= k < |s| ==> m(k).None?
    decreases |s| - p
  {
    if p < |s| && m(p).None? {
      FindAllEmpty(s, m, p + 1);
    }
  }

  /** A property that the text of every match from `p` on has, every found text has. */
  lemma {:induction false} FindAllKeeps(s: string, m: nat -> Option<nat>, p: nat, good: string -> bool)
    requires p <= |s| && Advances(s, m)
    requires forall k :: p <= k < |s| && m(k).Some? ==> good(s[k..m(k).value])
    ensures forall i :: 0 <= i < |FindAll(s, m, p)| ==> good(FindAll(s, m, p)[i])
    decreases |s| - p
  {
    if p < |s| {
      var r := FindAll(s, m, p);
      match m(p)
      case Some(e) =>
        FindAllKeeps(s, m, e, good);
        var rest := FindAll(s, m, e);
        assert r == [s[p..e]] + rest;
        forall i | 0 <= i < |r| ensures good(r[i]) {
          if i > 0 {
            assert r[i] == rest[i - 1];
          }
        }
      case None =>
        FindAllKeeps(s, m, p + 1, good);
    }
  }
}
