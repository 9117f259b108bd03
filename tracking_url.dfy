/**
 * The tracking-URL extraction of index.js:144: the first match of
 * `/https:\/\/e2\.udemymail\.com\/ls\/click.+?(?=")/i` in a decoded body,
 * written as a left-to-right scan instead of a regular-expression engine.
 *
 * What the pattern means, stated once (MatchesAt): at position i the fixed
 * prefix matches ignoring ASCII case; then `.+?` takes at least one
 * character and stops at the first `"` that follows it, and none of the
 * characters taken may be a line terminator (`.` does not match those).
 * The quote itself is a lookahead and is not part of the match.
 */
module TrackingUrl {
  import opened Wrappers

  /** The literal part of the pattern, with its escapes removed. */
  const Prefix: string := "https://e2.udemymail.com/ls/click"

  /**
   * Under the `i` flag without `u`, a pattern character matches a text
   * character when both canonicalize to the same upper-case character, and
   * a non-ASCII character never canonicalizes to an ASCII one. The prefix is
   * all lower-case ASCII, so a letter also matches its upper-case form and
   * every other character matches only itself.
   */
  predicate CharMatches(p: char, c: char) {
    c == p || ('a' <= p <= 'z' && c as int == p as int - 32)
  }

  /** The characters `.` refuses: line feed, carriage return, LS and PS. */
  predicate IsLineTerminator(c: char) {
    c == '\n' || c == '\r' || c == '\U{2028}' || c == '\U{2029}'
  }

  /** The prefix matches s at position i, ignoring case. */
  ghost predicate StartsWithPrefix(s: string, i: nat) {
    i + |Prefix| <= |s| &&
    forall k :: 0 <= k < |Prefix| ==> CharMatches(Prefix[k], s[i + k])
  }

  /** The scan's prefix test: character k of the prefix on, compared one
      character at a time. */
  predicate PrefixFrom(s: string, i: nat, k: nat)
    requires i + |Prefix| <= |s|
    decreases |Prefix| - k
  {
    k >= |Prefix| || (CharMatches(Prefix[k], s[i + k]) && PrefixFrom(s, i, k + 1))
  }

  predicate PrefixAt(s: string, i: nat) {
    i + |Prefix| <= |s| && PrefixFrom(s, i, 0)
  }

  /** `.+?(?=")` matches s[p..e]: at least one character, none a line
      terminator, no quote after the first one, and a quote at e. */
  ghost predicate TailMatches(s: string, p: nat, e: nat) {
    p < e < |s| && s[e] == '"' &&
    (forall k :: p <= k < e ==> !IsLineTerminator(s[k])) &&
    (forall k :: p < k < e ==> s[k] != '"')
  }

  /** The whole pattern matches s[i..e]. */
  ghost predicate MatchesAt(s: string, i: nat, e: nat) {
    StartsWithPrefix(s, i) && TailMatches(s, i + |Prefix|, e)
  }

  /** Where a match lies in the scanned text: s[start..end]. */
  datatype Span = Span(start: nat, end: nat)

  /**
   * The lazy part after the mandatory first character: the index of the
   * first quote at or after q, provided no line terminator comes before it.
   */
  function CloseQuote(s: string, q: nat): (r: Option<nat>)
    decreases |s| - q
    ensures r.Some? ==> q <= r.value < |s|
  {
    if q >= |s| then None
    else if s[q] == '"' then Some(q)
    else if IsLineTerminator(s[q]) then None
    else CloseQuote(s, q + 1)
  }

  /** `.+?(?=")` started at p: where the match ends, if it ends at all. */
  function TailEnd(s: string, p: nat): (r: Option<nat>)
    ensures r.Some? ==> p < r.value < |s|
  {
    if p >= |s| || IsLineTerminator(s[p]) then None
    else CloseQuote(s, p + 1)
  }

  /**
   * The leftmost match starting at or after i. As the regular expression
   * attempts one starting position after the other, so does the scan; at
   * each position only the shortest extension is taken, and a failure there
   * moves on to the next position.
   */
  function ScanFrom(s: string, i: nat): (r: Option<Span>)
    decreases |s| - i
    ensures r.Some? ==> i <= r.value.start && r.value.start + |Prefix| < r.value.end < |s|
  {
    if |s| <= i + |Prefix| then None
    else
      var tail := TailEnd(s, i + |Prefix|);
      if PrefixAt(s, i) && tail.Some? then Some(Span(i, tail.value))
      else ScanFrom(s, i + 1)
  }

  /** The leftmost match in the whole text, as `str.match(...)` finds it. */
  function Scan(s: string): (r: Option<Span>)
    ensures r.Some? ==> r.value.start + |Prefix| < r.value.end < |s|
  {
    ScanFrom(s, 0)
  }

  /**
   * `str.match(pattern)[0]`: the matched text, or None where `match`
   * returns null (and indexing it throws).
   */
  function Extract(s: string): Option<string> {
    match Scan(s)
    case None => None
    case Some(span) => Some(s[span.start..span.end])
  }

  lemma {:induction false} PrefixFromMeans(s: string, i: nat, k: nat)
    requires i + |Prefix| <= |s|
    ensures PrefixFrom(s, i, k) <==> forall j :: k <= j < |Prefix| ==> CharMatches(Prefix[j], s[i + j])
    decreases |Prefix| - k
  {
    if k < |Prefix| {
      PrefixFromMeans(s, i, k + 1);
    }
  }

  /** The scan's character-by-character prefix test is the prefix rule. */
  lemma PrefixAtMeans(s: string, i: nat)
    ensures PrefixAt(s, i) <==> StartsWithPrefix(s, i)
  {
    if i + |Prefix| <= |s| {
      PrefixFromMeans(s, i, 0);
    }
  }

  /** The quote search stops at the first quote, and fails only when a line
      terminator or the end of the text comes first. */
  lemma {:induction false} CloseQuoteFinds(s: string, q: nat)
    ensures CloseQuote(s, q).Some? ==>
              var e := CloseQuote(s, q).value;
              q <= e < |s| && s[e] == '"' &&
              forall k :: q <= k < e ==> s[k] != '"' && !IsLineTerminator(s[k])
    ensures forall e :: q <= e < |s| && s[e] == '"' &&
                        (forall k :: q <= k < e ==> s[k] != '"' && !IsLineTerminator(s[k]))
                        ==> CloseQuote(s, q) == Some(e)
    decreases |s| - q
  {
    if q < |s| && s[q] != '"' && !IsLineTerminator(s[q]) {
      CloseQuoteFinds(s, q + 1);
    }
  }

  /** The lazy tail ends exactly where `.+?(?=")` would stop. */
  lemma TailEndFinds(s: string, p: nat)
    ensures TailEnd(s, p).Some? ==> TailMatches(s, p, TailEnd(s, p).value)
    ensures forall e: nat :: TailMatches(s, p, e) ==> TailEnd(s, p) == Some(e)
  {
    CloseQuoteFinds(s, p + 1);
  }

  /** The scan's test at one position decides whether a match starts there,
      and where it ends. */
  lemma MatchAtPosition(s: string, i: nat)
    requires i + |Prefix| < |s|
    ensures PrefixAt(s, i) && TailEnd(s, i + |Prefix|).Some? ==>
              MatchesAt(s, i, TailEnd(s, i + |Prefix|).value) &&
              forall e: nat :: MatchesAt(s, i, e) ==> e == TailEnd(s, i + |Prefix|).value
    ensures !(PrefixAt(s, i) && TailEnd(s, i + |Prefix|).Some?) ==>
              forall e: nat :: !MatchesAt(s, i, e)
  {
    TailEndFinds(s, i + |Prefix|);
    PrefixAtMeans(s, i);
  }

  /** The scan from i finds the leftmost match at or after i, if there is one. */
  lemma {:induction false} ScanFromFinds(s: string, i: nat)
    ensures ScanFrom(s, i).Some? ==>
              var span := ScanFrom(s, i).value;
              i <= span.start && MatchesAt(s, span.start, span.end) &&
              (forall j: nat, e: nat :: i <= j < span.start ==> !MatchesAt(s, j, e)) &&
              (forall e: nat :: MatchesAt(s, span.start, e) ==> e == span.end)
    ensures ScanFrom(s, i).None? ==> forall j: nat, e: nat :: i <= j ==> !MatchesAt(s, j, e)
    decreases |s| - i
  {
    if |s| <= i + |Prefix| {
      assert forall j: nat, e: nat :: i <= j ==> !MatchesAt(s, j, e);
    } else {
      MatchAtPosition(s, i);
      if !(PrefixAt(s, i) && TailEnd(s, i + |Prefix|).Some?) {
        ScanFromFinds(s, i + 1);
      }
    }
  }

  /**
   * What `str.match(...)[0]` returns (index.js:144): None exactly when the
   * pattern matches nowhere; otherwise the leftmost match, which starts with
   * the prefix in any ASCII case, has at least one character after it, holds
   * no line terminator after the prefix and no quote after its first
   * character past the prefix, and is followed in the body by a quote that
   * is not part of it.
   */
  lemma ExtractFinds(s: string)
    ensures Extract(s).None? <==> forall j: nat, e: nat :: !MatchesAt(s, j, e)
    ensures Extract(s).Some? ==>
              var m := Extract(s).value;
              |Prefix| < |m| && StartsWithPrefix(m, 0) &&
              (forall k :: |Prefix| <= k < |m| ==> !IsLineTerminator(m[k])) &&
              (forall k :: |Prefix| < k < |m| ==> m[k] != '"')
  {
    ScanFromFinds(s, 0);
    if Scan(s).Some? {
      var span := Scan(s).value;
      var m := s[span.start..span.end];
      assert forall k :: 0 <= k < |m| ==> m[k] == s[span.start + k];
    }
  }

  /**
   * The extracted text is exactly the leftmost match, and the character
   * that follows it in the body is the quote the lookahead saw.
   */
  lemma ExtractIsLeftmostMatch(s: string, i: nat, e: nat)
    requires MatchesAt(s, i, e)
    requires forall j: nat, e': nat :: j < i ==> !MatchesAt(s, j, e')
    ensures Extract(s) == Some(s[i..e])
    ensures s[e] == '"'
  {
    ScanFromFinds(s, 0);
    var span := Scan(s).value;
    assert span.start == i;
  }
}
