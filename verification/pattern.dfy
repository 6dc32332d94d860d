/**
 * The two call patterns of the translatable-string extractor, written out as a
 * search over strings instead of a regular-expression engine.
 *
 * Both patterns have the shape  PREFIX ['"] (.+) ['"] [,)]  where PREFIX is
 * `gettext(` or `ngettext(`. A search returns the leftmost start at which the
 * pattern matches and, at that start, the longest capture (the group `.+` is
 * greedy). As in Python, `.` matches every character except a newline, and the
 * opening and closing quote need not be the same character.
 */
module CallPattern {
  import opened Wrappers

  const SingularPrefix: string := "gettext("
  const PluralPrefix: string := "ngettext("

  predicate IsQuote(c: char) { c == '\'' || c == '"' }

  predicate IsCloser(c: char) { c == ',' || c == ')' }

  /** A match found at `start`: the capture is `line[start + |prefix| + 1 .. end]`. */
  datatype Span = Span(start: nat, end: nat)

  /** `line[c..e]` can be taken by `(.+)`: it is non-empty, holds no newline,
      and is followed by a quote at `e` and a comma or parenthesis at `e + 1`. */
  predicate IsCaptureEnd(line: string, c: nat, e: nat) {
    c < e && e + 1 < |line| && '\n' !in line[c..e] && IsQuote(line[e]) && IsCloser(line[e + 1])
  }

  /** The literal prefix and an opening quote occur at `s`. */
  predicate OpensAt(line: string, prefix: string, s: nat) {
    s + |prefix| < |line| && line[s..s + |prefix|] == prefix && IsQuote(line[s + |prefix|])
  }

  /** Where the capture of a match starting at `s` begins. */
  function CaptureStart(prefix: string, s: nat): nat {
    s + |prefix| + 1
  }

  /** The whole pattern matches with its first character at `s`. */
  ghost predicate MatchesAt(line: string, prefix: string, s: nat) {
    OpensAt(line, prefix, s) && exists e: nat :: IsCaptureEnd(line, CaptureStart(prefix, s), e)
  }

  /** The match a regular-expression search reports: the leftmost start, and the
      greedy (longest) capture at that start. */
  ghost predicate IsLeftmostGreedy(line: string, prefix: string, m: Span) {
    && MatchesAt(line, prefix, m.start)
    && (forall t: nat :: t < m.start ==> !MatchesAt(line, prefix, t))
    && IsCaptureEnd(line, CaptureStart(prefix, m.start), m.end)
    && (forall e: nat :: m.end < e ==> !IsCaptureEnd(line, CaptureStart(prefix, m.start), e))
  }

  /** The greatest capture end for a capture beginning at `c`, trying `hi`, `hi - 1`, ... */
  function LastEnd(line: string, c: nat, hi: nat): (r: Option<nat>)
    ensures r.Some? ==> r.value <= hi && IsCaptureEnd(line, c, r.value)
    ensures r.Some? ==> forall e: nat :: r.value < e <= hi ==> !IsCaptureEnd(line, c, e)
    ensures r.None? ==> forall e: nat :: e <= hi ==> !IsCaptureEnd(line, c, e)
    decreases hi
  {
    if hi <= c then None
    else if IsCaptureEnd(line, c, hi) then Some(hi)
    else LastEnd(line, c, hi - 1)
  }

  /** The first match whose start is at or after `s`. */
  function FindFrom(line: string, prefix: string, s: nat): (r: Option<Span>)
    ensures r.Some? ==> s <= r.value.start && IsLeftmostGreedyFrom(line, prefix, s, r.value)
    ensures r.None? ==> forall t: nat :: s <= t ==> !MatchesAt(line, prefix, t)
    decreases |line| - s
  {
    if |line| <= s + |prefix| then None
    else if OpensAt(line, prefix, s) then
      match LastEnd(line, CaptureStart(prefix, s), |line|)
      case Some(e) => Some(Span(s, e))
      case None => FindFrom(line, prefix, s + 1)
    else FindFrom(line, prefix, s + 1)
  }

  /** `IsLeftmostGreedy`, with only the starts from `s` on ruled out before `m.start`. */
  ghost predicate IsLeftmostGreedyFrom(line: string, prefix: string, s: nat, m: Span) {
    && MatchesAt(line, prefix, m.start)
    && (forall t: nat :: s <= t < m.start ==> !MatchesAt(line, prefix, t))
    && IsCaptureEnd(line, CaptureStart(prefix, m.start), m.end)
    && (forall e: nat :: m.end < e ==> !IsCaptureEnd(line, CaptureStart(prefix, m.start), e))
  }

  /** The regular-expression search of `line` for the call pattern with `prefix`. */
  function Find(line: string, prefix: string): (r: Option<Span>)
    ensures r.Some? ==> IsLeftmostGreedy(line, prefix, r.value)
    ensures r.None? <==> forall t: nat :: !MatchesAt(line, prefix, t)
  {
    FindFrom(line, prefix, 0)
  }

  /** The text of group 1 of a match. */
  function Capture(line: string, prefix: string, m: Span): string
    requires CaptureStart(prefix, m.start) <= m.end <= |line|
  {
    line[CaptureStart(prefix, m.start)..m.end]
  }

  /** Group 1 of the search for `prefix`, when the search matches. */
  function Search(line: string, prefix: string): (r: Option<string>)
    ensures r.Some? <==> exists t: nat :: MatchesAt(line, prefix, t)
    ensures r.Some? ==> |r.value| > 0 && '\n' !in r.value
    ensures r.Some? ==> exists m: Span :: && IsLeftmostGreedy(line, prefix, m)
                                         && CaptureStart(prefix, m.start) < m.end < |line|
                                         && r.value == line[CaptureStart(prefix, m.start)..m.end]
  {
    match Find(line, prefix)
    case Some(m) => Some(Capture(line, prefix, m))
    case None => None
  }

  /** The plural pattern `ngettext(...)`. */
  function PluralId(line: string): Option<string> {
    Search(line, PluralPrefix)
  }

  /** The singular pattern `gettext(...)`. */
  function SingularId(line: string): Option<string> {
    Search(line, SingularPrefix)
  }

  /** `gettext(` is `ngettext(` without its first letter, so every plural match
      is also a singular match one character further on. */
  lemma PluralMatchIsSingularMatch(line: string, s: nat)
    requires MatchesAt(line, PluralPrefix, s)
    ensures MatchesAt(line, SingularPrefix, s + 1)
  {
    var e: nat :| IsCaptureEnd(line, CaptureStart(PluralPrefix, s), e);
    assert line[s + 1..s + 9] == line[s..s + 9][1..];
    assert IsCaptureEnd(line, CaptureStart(SingularPrefix, s + 1), e);
  }

  /** No match starts before the leftmost one. */
  lemma LeftmostIsLeast(line: string, prefix: string, m: Span, t: nat)
    requires IsLeftmostGreedy(line, prefix, m) && MatchesAt(line, prefix, t)
    ensures m.start <= t
  {
  }

  /** The greedy end for a given capture start is unique. */
  lemma GreedyEndUnique(line: string, c: nat, e1: nat, e2: nat)
    requires IsCaptureEnd(line, c, e1) && (forall e: nat :: e1 < e ==> !IsCaptureEnd(line, c, e))
    requires IsCaptureEnd(line, c, e2) && (forall e: nat :: e2 < e ==> !IsCaptureEnd(line, c, e))
    ensures e1 == e2
  {
  }

  /** A line with a plural call always has a singular match too, starting no later
      than one character into the plural call; when it starts exactly there, both
      matches end at the same place and so capture the same text. */
  lemma PluralLineAlsoMatchesSingular(line: string)
    requires Find(line, PluralPrefix).Some?
    ensures Find(line, SingularPrefix).Some?
    ensures Find(line, SingularPrefix).value.start <= Find(line, PluralPrefix).value.start + 1
    ensures Find(line, SingularPrefix).value.start == Find(line, PluralPrefix).value.start + 1 ==>
              Find(line, SingularPrefix).value.end == Find(line, PluralPrefix).value.end
  {
    var p := Find(line, PluralPrefix).value;
    PluralMatchIsSingularMatch(line, p.start);
    var fs := Find(line, SingularPrefix);
    assert fs.Some?;
    var q := fs.value;
    LeftmostIsLeast(line, SingularPrefix, q, p.start + 1);
    if q.start == p.start + 1 {
      var c := CaptureStart(PluralPrefix, p.start);
      assert CaptureStart(SingularPrefix, q.start) == c;
      GreedyEndUnique(line, c, p.end, q.end);
    }
  }

  /** When the singular match starts one character into the plural call, both
      searches report the same message id. */
  lemma SameIdInsidePluralCall(line: string)
    requires Find(line, PluralPrefix).Some? && Find(line, SingularPrefix).Some?
    requires Find(line, SingularPrefix).value.start == Find(line, PluralPrefix).value.start + 1
    ensures SingularId(line) == PluralId(line)
  {
    PluralLineAlsoMatchesSingular(line);
    var p := Find(line, PluralPrefix).value;
    var q := Find(line, SingularPrefix).value;
    assert CaptureStart(SingularPrefix, q.start) == CaptureStart(PluralPrefix, p.start);
  }

  /** A capture end with no capture end after it, up to `hi`, is the one `LastEnd` finds. */
  lemma LastEndIs(line: string, c: nat, hi: nat, e: nat)
    requires e <= hi && IsCaptureEnd(line, c, e)
    requires forall e': nat :: e < e' <= hi ==> !IsCaptureEnd(line, c, e')
    ensures LastEnd(line, c, hi) == Some(e)
  {
  }

  /** Starts at which the prefix and quote do not occur are skipped. */
  lemma {:induction false} FindFromSkips(line: string, prefix: string, t: nat, s: nat)
    requires t <= s && OpensAt(line, prefix, s)
    requires forall u: nat :: t <= u < s ==> !OpensAt(line, prefix, u)
    ensures FindFrom(line, prefix, t) == FindFrom(line, prefix, s)
    decreases s - t
  {
    if t < s {
      FindFromSkips(line, prefix, t + 1, s);
    }
  }

  /** The search captures up to the greatest end at the first start where the
      prefix and a quote occur, when that start has a capture end. */
  lemma SearchAt(line: string, prefix: string, s: nat, e: nat)
    requires OpensAt(line, prefix, s)
    requires forall u: nat :: u < s ==> !OpensAt(line, prefix, u)
    requires LastEnd(line, CaptureStart(prefix, s), |line|) == Some(e)
    ensures CaptureStart(prefix, s) < e < |line|
    ensures Search(line, prefix) == Some(line[CaptureStart(prefix, s)..e])
  {
    FindFromSkips(line, prefix, 0, s);
  }

  /** The capture is greedy: on a two-argument plural call, it runs from the first
      argument's opening quote to the second argument's closing quote. */
  lemma GreedyPluralCapture(line: string)
    requires line == "ngettext('a', 'b')"
    ensures PluralId(line) == Some("a', 'b")
    ensures SingularId(line) == Some("a', 'b")
  {
    assert |line| == 18 && line[16] == '\'' && line[17] == ')';
    assert line[10..16] == "a', 'b";
    assert line[0..9] == PluralPrefix && line[1..9] == SingularPrefix;
    LastEndIs(line, 10, 18, 16);
    SearchAt(line, PluralPrefix, 0, 16);
    assert line[0..8][0] == 'n';
    SearchAt(line, SingularPrefix, 1, 16);
  }
}
