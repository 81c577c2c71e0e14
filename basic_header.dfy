/**
 * The pattern ^Basic[\s]+([a-zA-Z0-9+=/]+$) compiled with CASE_INSENSITIVE
 * and MULTILINE, searched for with Matcher.find(): the leftmost position
 * where the whole pattern matches wins, and group 1 is the token.
 */
module BasicHeader {
  import opened Wrappers

  /** `\s` of java.util.regex: space, tab, LF, VT, FF and CR. */
  predicate IsSpace(c: char) {
    c == ' ' || c == '\t' || c == '\n' || c == '\U{000B}' || c == '\U{000C}' || c == '\r'
  }

  /** The class [a-zA-Z0-9+=/]; folding case leaves it as it is. */
  predicate IsTokenChar(c: char) {
    ('a' <= c <= 'z') || ('A' <= c <= 'Z') || ('0' <= c <= '9') || c == '+' || c == '=' || c == '/'
  }

  /** The line terminators that ^ and $ recognise in MULTILINE mode. */
  predicate IsLineTerminator(c: char) {
    c == '\n' || c == '\r' || c == '\U{0085}' || c == '\U{2028}' || c == '\U{2029}'
  }

  /** Case folding without UNICODE_CASE touches ASCII letters only. */
  function LowerAscii(c: char): char {
    if 'A' <= c <= 'Z' then (c as int + 32) as char else c
  }

  /** w spells "basic" in any mix of cases. */
  predicate IsBasicScheme(w: string) {
    |w| == 5 && forall i :: 0 <= i < 5 ==> LowerAscii(w[i]) == "basic"[i]
  }

  /**
   * ^ where the previous character is prev and t is what is left: at the
   * start of input, or after a line terminator other than the CR of a CR LF
   * pair, and never at the end of input.
   */
  predicate Caret(prev: Option<char>, t: string) {
    |t| > 0 && (prev.None? || (IsLineTerminator(prev.value) && !(prev.value == '\r' && t[0] == '\n')))
  }

  /** $ after the character last when rest is what is left: at the end, or before a line terminator not inside CR LF. */
  predicate Dollar(last: char, rest: string) {
    |rest| == 0 || (IsLineTerminator(rest[0]) && !(rest[0] == '\n' && last == '\r'))
  }

  datatype CharClass = Space | Token

  predicate InClass(c: char, cls: CharClass) {
    match cls
    case Space => IsSpace(c)
    case Token => IsTokenChar(c)
  }

  predicate AllIn(s: string, cls: CharClass) {
    forall i :: 0 <= i < |s| ==> InClass(s[i], cls)
  }

  /** The length of the longest prefix of t inside the class: a greedy `+` or `*`. */
  function Run(t: string, cls: CharClass): (n: nat)
    ensures n <= |t| && AllIn(t[..n], cls)
    ensures n < |t| ==> !InClass(t[n], cls)
  {
    if |t| == 0 || !InClass(t[0], cls) then 0 else 1 + Run(t[1..], cls)
  }

  /** How a match at one position cuts what follows the five letters of the scheme. */
  datatype Match = Match(space: string, token: string, rest: string)

  /** The pattern matches at a position with previous character prev and remaining text t, as m says. */
  ghost predicate Matches(prev: Option<char>, t: string, m: Match) {
    Caret(prev, t) && |t| >= 5 && IsBasicScheme(t[..5]) &&
    t[5..] == m.space + m.token + m.rest &&
    |m.space| >= 1 && AllIn(m.space, Space) &&
    |m.token| >= 1 && AllIn(m.token, Token) &&
    Dollar(m.token[|m.token| - 1], m.rest)
  }

  /** The rest of the pattern, [\s]+([a-zA-Z0-9+=/]+$), against what follows the scheme. */
  function MatchAfterScheme(after: string): (r: Option<Match>)
    ensures r.Some? ==>
      after == r.value.space + r.value.token + r.value.rest &&
      |r.value.space| >= 1 && AllIn(r.value.space, Space) &&
      |r.value.token| >= 1 && AllIn(r.value.token, Token) &&
      Dollar(r.value.token[|r.value.token| - 1], r.value.rest)
  {
    var w := Run(after, Space);
    var k := Run(after[w..], Token);
    if w == 0 || k == 0 || !Dollar(after[w + k - 1], after[w + k..]) then None
    else
      assert after[..w] + after[w..w + k] + after[w + k..] == after;
      assert after[w..][..k] == after[w..w + k];
      Some(Match(after[..w], after[w..w + k], after[w + k..]))
  }

  /**
   * One attempt of the matcher. The character classes of \s and of the token
   * are disjoint and no token character is a line terminator, so giving
   * characters back from either greedy run never rescues a failed attempt.
   */
  function MatchAt(prev: Option<char>, t: string): (r: Option<Match>)
    ensures r.Some? ==> Matches(prev, t, r.value)
  {
    if !Caret(prev, t) || |t| < 5 || !IsBasicScheme(t[..5]) then None
    else MatchAfterScheme(t[5..])
  }

  /** Every way the pattern matches at a position is the one MatchAt finds. */
  lemma MatchAtComplete(prev: Option<char>, t: string, m: Match)
    requires Matches(prev, t, m)
    ensures MatchAt(prev, t) == Some(m)
  {
    var after := t[5..];
    var w := Run(after, Space);
    assert after[|m.space|] == m.token[0];
    assert after[..|m.space|] == m.space;
    assert w == |m.space|;
    var k := Run(after[w..], Token);
    assert after[w..] == m.token + m.rest;
    assert after[w..][..|m.token|] == m.token;
    if |m.rest| > 0 {
      assert after[w..][|m.token|] == m.rest[0];
    }
    assert k == |m.token|;
    assert after[w + k..] == m.rest;
    assert after[w + k - 1] == m.token[k - 1];
  }

  function PrevAt(h: string, i: nat): Option<char>
    requires i <= |h|
  {
    if i == 0 then None else Some(h[i - 1])
  }

  /** The attempt at position i of h fails. */
  predicate FailsAt(h: string, i: nat)
    requires i <= |h|
  {
    MatchAt(PrevAt(h, i), h[i..]).None?
  }

  /** Matcher.find() from position i: the leftmost position at or after i where an attempt succeeds. */
  function FindFrom(h: string, i: nat): (r: Option<(nat, Match)>)
    requires i <= |h|
    ensures r.Some? ==> i <= r.value.0 < |h| && MatchAt(PrevAt(h, r.value.0), h[r.value.0..]) == Some(r.value.1)
    ensures forall j :: i <= j <= |h| && (r.None? || j < r.value.0) ==> FailsAt(h, j)
    decreases |h| - i
  {
    if i == |h| then None
    else
      match MatchAt(PrevAt(h, i), h[i..])
      case Some(m) => Some((i, m))
      case None => FindFrom(h, i + 1)
  }

  function Find(h: string): Option<(nat, Match)> {
    FindFrom(h, 0)
  }

  /** A header that is the scheme, white space and a token runs to its end and matches at its start. */
  lemma FindWholeHeader(w: string, space: string, token: string)
    requires IsBasicScheme(w) && |space| >= 1 && AllIn(space, Space) && |token| >= 1 && AllIn(token, Token)
    ensures Find(w + space + token) == Some((0, Match(space, token, [])))
  {
    var h := w + space + token;
    assert h[..5] == w;
    assert h[5..] == space + token + [];
    MatchAtComplete(None, h, Match(space, token, []));
    assert h[0..] == h;
  }

  /** After an ordinary character ^ cannot match, so neither can the pattern. */
  lemma NoMatchAfterOrdinary(c: char, t: string)
    requires !IsLineTerminator(c)
    ensures MatchAt(Some(c), t).None?
  {
  }

  /**
   * Two headers of the same length that agree from position 5 on and hold no
   * line terminator before it have the same matches from any position i >= 1.
   */
  lemma AttemptsAgree(h1: string, h2: string, i: nat)
    requires |h1| == |h2| >= 5 && 1 <= i < |h1|
    requires h1[5..] == h2[5..]
    requires forall j :: 0 <= j < 5 ==> !IsLineTerminator(h1[j]) && !IsLineTerminator(h2[j])
    ensures MatchAt(PrevAt(h1, i), h1[i..]) == MatchAt(PrevAt(h2, i), h2[i..])
  {
    if i <= 5 {
      NoMatchAfterOrdinary(h1[i - 1], h1[i..]);
      NoMatchAfterOrdinary(h2[i - 1], h2[i..]);
    } else {
      assert h1[i - 1] == h1[5..][i - 6] == h2[i - 1];
      assert h1[i..] == h1[5..][i - 5..] == h2[i..];
    }
  }

  lemma {:induction false} FindFromAgree(h1: string, h2: string, i: nat)
    requires |h1| == |h2| >= 5 && 1 <= i <= |h1|
    requires h1[5..] == h2[5..]
    requires forall j :: 0 <= j < 5 ==> !IsLineTerminator(h1[j]) && !IsLineTerminator(h2[j])
    ensures FindFrom(h1, i) == FindFrom(h2, i)
    decreases |h1| - i
  {
    if i < |h1| {
      AttemptsAgree(h1, h2, i);
      FindFromAgree(h1, h2, i + 1);
    }
  }

  /** CASE_INSENSITIVE: the scheme may be written in any case and the search comes out the same. */
  lemma SchemeCaseIgnored(w: string, rest: string)
    requires IsBasicScheme(w)
    ensures Find(w + rest) == Find("Basic" + rest)
  {
    var h1, h2 := w + rest, "Basic" + rest;
    FirstAttemptAgrees(w, rest);
    SchemeHasNoLineTerminator(w, rest);
    SchemeHasNoLineTerminator("Basic", rest);
    assert h1[5..] == rest == h2[5..];
    FindFromAgree(h1, h2, 1);
  }

  lemma FirstAttemptAgrees(w: string, rest: string)
    requires IsBasicScheme(w)
    ensures MatchAt(None, w + rest) == MatchAt(None, "Basic" + rest)
  {
    var h1, h2 := w + rest, "Basic" + rest;
    assert h1[..5] == w && h2[..5] == "Basic";
    assert h1[5..] == rest == h2[5..];
  }

  lemma SchemeHasNoLineTerminator(w: string, rest: string)
    requires IsBasicScheme(w)
    ensures forall j :: 0 <= j < 5 ==> !IsLineTerminator((w + rest)[j])
  {
    forall j | 0 <= j < 5
      ensures !IsLineTerminator((w + rest)[j])
    {
      assert (w + rest)[j] == w[j];
      assert LowerAscii(w[j]) == "basic"[j];
    }
  }
}
