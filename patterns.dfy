/**
 * The three regular expressions of ensure_line_in_section, each as an
 * explicit "does the pattern match at offset p" function and a leftmost
 * search (Python's re.search tries p = 0, 1, ..., |s| and keeps the first
 * offset where the pattern matches).
 *
 *   header of the wanted section   ^\[<section>\]\s*$     (re.escape: literal)
 *   any header                     ^\[.+?\]\s*$
 *   key line                       ^\s*<key>\s*=\s*.*$    (re.escape: literal)
 */
module Patterns {
  import opened Wrappers
  import opened TextScan

  /** A match of the section-header pattern: the span [start, end) it covers. */
  datatype Span = Span(start: nat, end: nat)

  /** The header pattern tried at offset p: the end of the match, or None. */
  function HeaderMatch(conf: string, section: string, p: nat): (r: Option<nat>)
    ensures r.Some? ==>
      LineStart(conf, p) && StartsAt(conf, p, "[" + section + "]")
      && p + |section| + 2 <= r.value <= |conf|
      && AllSpace(conf, p + |section| + 2, r.value) && AtLineEnd(conf, r.value)
    ensures r.Some? ==>
      forall e :: r.value < e <= |conf| && AllSpace(conf, p + |section| + 2, e) ==> !AtLineEnd(conf, e)
  {
    if LineStart(conf, p) && StartsAt(conf, p, "[" + section + "]") then
      SpacesToLineEnd(conf, p + |section| + 2)
    else None
  }

  /** re.search of the header pattern in conf[i..]-onwards offsets of conf. */
  function FindHeaderFrom(conf: string, section: string, i: nat): (r: Option<Span>)
    requires i <= |conf| + 1
    ensures r.Some? ==>
      i <= r.value.start <= |conf| && HeaderMatch(conf, section, r.value.start) == Some(r.value.end)
    ensures r.Some? ==>
      forall p :: i <= p < r.value.start ==> HeaderMatch(conf, section, p).None?
    ensures r.None? ==> forall p :: i <= p <= |conf| ==> HeaderMatch(conf, section, p).None?
    decreases |conf| + 1 - i
  {
    if i > |conf| then None
    else match HeaderMatch(conf, section, i)
      case Some(e) => Some(Span(i, e))
      case None => FindHeaderFrom(conf, section, i + 1)
  }

  /** The first header line `[section]` of conf, in document order. */
  function FindHeader(conf: string, section: string): (r: Option<Span>)
    ensures r.Some? ==>
      r.value.start <= r.value.end <= |conf| && HeaderMatch(conf, section, r.value.start) == Some(r.value.end)
    ensures r.Some? ==> forall p :: 0 <= p < r.value.start ==> HeaderMatch(conf, section, p).None?
    ensures r.None? <==> forall p :: 0 <= p <= |conf| ==> HeaderMatch(conf, section, p).None?
  {
    FindHeaderFrom(conf, section, 0)
  }

  /**
   * The header pattern matches at p exactly when p starts a line that reads
   * `[section]` followed by nothing but whitespace up to the end of that line:
   * no leading whitespace, no other text after the `]`.
   */
  lemma HeaderMatchIffHeaderLine(conf: string, section: string, p: nat)
    ensures HeaderMatch(conf, section, p).Some? <==>
      LineStart(conf, p) && StartsAt(conf, p, "[" + section + "]")
      && AllSpace(conf, p + |section| + 2, NextLineEnd(conf, p + |section| + 2))
  {
    if LineStart(conf, p) && StartsAt(conf, p, "[" + section + "]") {
      SpacesToLineEndIffBlankRest(conf, p + |section| + 2);
    }
  }

  /** `\]\s*$` closes the `[` at p with the `]` at k; `.+?` covers s[p+1..k], at least one character, no newline. */
  predicate ClosesAt(s: string, p: nat, k: nat)
  {
    p + 2 <= k < |s| && s[k] == ']' && NoNewline(s, p + 1, k) && SpacesToLineEnd(s, k + 1).Some?
  }

  /** The any-header pattern `^\[.+?\]\s*$` matches at p (the lazy `.+?` may try every `]` of the line). */
  predicate AnyHeaderAt(s: string, p: nat)
  {
    LineStart(s, p) && p < |s| && s[p] == '[' && exists k | p + 2 <= k < |s| :: ClosesAt(s, p, k)
  }

  /**
   * The any-header pattern matches at p exactly when p starts a line that
   * opens with `[` and holds a `]`, at least two characters further on,
   * followed by nothing but whitespace to the end of that line.
   */
  lemma AnyHeaderAtIffBracketLine(s: string, p: nat)
    requires p <= |s|
    ensures AnyHeaderAt(s, p) <==>
      LineStart(s, p) && p < |s| && s[p] == '['
      && exists k | p + 2 <= k < NextLineEnd(s, p) :: s[k] == ']' && AllSpace(s, k + 1, NextLineEnd(s, p))
  {
    var n := NextLineEnd(s, p);
    if LineStart(s, p) && p < |s| && s[p] == '[' {
      forall k | ClosesAt(s, p, k) ensures k < n && AllSpace(s, k + 1, n) {
        assert NoNewline(s, p, k + 1);
        NextLineEndSkip(s, p, k + 1);
        SpacesToLineEndIffBlankRest(s, k + 1);
      }
      forall k | p + 2 <= k < n && s[k] == ']' && AllSpace(s, k + 1, n) ensures ClosesAt(s, p, k) {
        assert NoNewline(s, p, k + 1);
        NextLineEndSkip(s, p, k + 1);
        SpacesToLineEndIffBlankRest(s, k + 1);
      }
    }
  }

  /** re.search of the any-header pattern from offset i. */
  function NextHeaderFrom(s: string, i: nat): (r: Option<nat>)
    requires i <= |s| + 1
    ensures r.Some? ==> i <= r.value < |s| && AnyHeaderAt(s, r.value)
    ensures r.Some? ==> forall p :: i <= p < r.value ==> !AnyHeaderAt(s, p)
    ensures r.None? ==> forall p :: i <= p <= |s| ==> !AnyHeaderAt(s, p)
    decreases |s| + 1 - i
  {
    if i > |s| then None
    else if AnyHeaderAt(s, i) then Some(i)
    else NextHeaderFrom(s, i + 1)
  }

  /** `\s*=` matches at k when the first non-whitespace character from k on is `=`. */
  predicate EqualsAfterSpaces(b: string, k: nat)
  {
    exists m | k <= m < |b| :: AllSpace(b, k, m) && b[m] == '='
  }

  /**
   * `\s*=\s*.*$` tried at k (just after the key): None when it cannot match,
   * otherwise the end of the match.  Backtracking never helps the first
   * `\s*`, since a shorter run leaves a whitespace character where `=` is
   * needed; the second `\s*` and `.*` stay greedy, so the match runs to the
   * end of the line on which the whitespace after `=` stops.
   */
  function AfterKey(b: string, k: nat): (r: Option<nat>)
    requires k <= |b|
    ensures r.Some? ==> k < r.value <= |b| && AtLineEnd(b, r.value)
    decreases |b| - k
  {
    if k == |b| then None
    else if b[k] == '=' then Some(NextLineEnd(b, SpaceRunEnd(b, k + 1)))
    else if IsSpace(b[k]) then AfterKey(b, k + 1)
    else None
  }

  /**
   * Where `\s*=\s*.*$` after the key ends: `=` is the first non-space
   * character from k, and the match ends at the end of the line on which the
   * whitespace after `=` stops.
   */
  lemma {:induction false} AfterKeyEnd(b: string, k: nat)
    requires k <= |b|
    ensures AfterKey(b, k).Some? ==>
      var m := SpaceRunEnd(b, k);
      m < |b| && b[m] == '=' && AfterKey(b, k).value == NextLineEnd(b, SpaceRunEnd(b, m + 1))
    decreases |b| - k
  {
    if k < |b| && b[k] != '=' && IsSpace(b[k]) {
      AfterKeyEnd(b, k + 1);
    }
  }

  /** The greedy reading of AfterKey loses no match: it succeeds exactly when `\s*=` can match at k. */
  lemma {:induction false} AfterKeyIffEqualsAfterSpaces(b: string, k: nat)
    requires k <= |b|
    ensures AfterKey(b, k).Some? <==> EqualsAfterSpaces(b, k)
    decreases |b| - k
  {
    if k < |b| && b[k] != '=' && IsSpace(b[k]) {
      AfterKeyIffEqualsAfterSpaces(b, k + 1);
      if EqualsAfterSpaces(b, k + 1) {
        var m :| k + 1 <= m < |b| && AllSpace(b, k + 1, m) && b[m] == '=';
        assert AllSpace(b, k, m);
      }
      if EqualsAfterSpaces(b, k) {
        var m :| k <= m < |b| && AllSpace(b, k, m) && b[m] == '=';
        assert m != k;
        assert AllSpace(b, k + 1, m);
      }
    } else if k < |b| && b[k] == '=' {
      assert AllSpace(b, k, k);
    } else if k < |b| {
      forall m | k <= m < |b| && AllSpace(b, k, m) ensures b[m] != '=' {
        assert IsSpace(b[k]) || m == k;
      }
    }
  }

  /** The key and the rest of the key pattern match from offset j. */
  predicate KeyAt(b: string, key: string, j: nat)
  {
    StartsAt(b, j, key) && AfterKey(b, j + |key|).Some?
  }

  /** The key pattern can take its key from j exactly when the key text is at j and `\s*=` matches right after it. */
  lemma KeyAtIffKeyThenEquals(b: string, key: string, j: nat)
    ensures KeyAt(b, key, j) <==> StartsAt(b, j, key) && EqualsAfterSpaces(b, j + |key|)
  {
    if StartsAt(b, j, key) {
      AfterKeyIffEqualsAfterSpaces(b, j + |key|);
    }
  }

  /** Where a match whose key text begins at j ends. */
  function KeyEnd(b: string, key: string, j: nat): (e: nat)
    requires KeyAt(b, key, j)
    ensures j + |key| < e <= |b| && AtLineEnd(b, e)
  {
    AfterKey(b, j + |key|).value
  }

  /** A key match ends at the end of the line on which the whitespace after its `=` stops. */
  lemma KeyEndExact(b: string, key: string, j: nat)
    requires KeyAt(b, key, j)
    ensures var m := SpaceRunEnd(b, j + |key|);
      m < |b| && b[m] == '=' && KeyEnd(b, key, j) == NextLineEnd(b, SpaceRunEnd(b, m + 1))
  {
    AfterKeyEnd(b, j + |key|);
  }

  /**
   * Which line end a key match reaches: when a visible character follows the
   * `=` on the key's own line, the match ends at the end of that line, so a
   * line such as `WaylandEnable = true` is taken whole and nothing after it.
   * (Otherwise KeyEnd's contract applies: the whitespace after `=` runs on
   * over newlines and the match ends at the end of the line where it stops.)
   */
  lemma KeyEndAtKeyLineEnd(b: string, key: string, j: nat, v: nat)
    requires KeyAt(b, key, j)
    requires SpaceRunEnd(b, j + |key|) < v < |b| && !IsSpace(b[v]) && NoNewline(b, j, v)
    ensures KeyEnd(b, key, j) == NextLineEnd(b, j)
  {
    KeyEndExact(b, key, j);
    var m := SpaceRunEnd(b, j + |key|);
    var r := SpaceRunEnd(b, m + 1);
    hide *;
    RunStopsAt(b, m + 1, v);
    NoNewlineWithin(b, j, r, v);
    NextLineEndSkip(b, j, r);
  }

  /** A greedy `\s*` from i stops at or before the first non-space character from i on. */
  lemma RunStopsAt(b: string, i: nat, v: nat)
    requires i <= v < |b| && !IsSpace(b[v])
    ensures SpaceRunEnd(b, i) <= v
  {
    var r := SpaceRunEnd(b, i);
    assert forall k :: i <= k < r ==> IsSpace(b[k]);
  }

  /** A stretch without newlines has none in its front part. */
  lemma NoNewlineWithin(b: string, i: nat, r: nat, v: nat)
    requires i <= r <= v <= |b| && NoNewline(b, i, v)
    ensures NoNewline(b, i, r)
  {
  }

  /**
   * One match of the key pattern: it starts at `start` (a line start), the
   * leading `\s*` runs to `key`, where the key text begins, and it ends at `end`.
   */
  datatype KeyHit = KeyHit(start: nat, key: nat, end: nat)

  /** The leading `\s*` backtracking: offsets p + w, p + w - 1, ..., p are tried for the key, longest run first. */
  function KeyFrom(b: string, key: string, p: nat, w: nat): (r: Option<KeyHit>)
    requires p + w <= |b|
    ensures r.Some? ==>
      r.value.start == p && p <= r.value.key <= p + w && KeyAt(b, key, r.value.key)
      && r.value.end == KeyEnd(b, key, r.value.key)
    ensures r.Some? ==> forall j :: r.value.key < j <= p + w ==> !KeyAt(b, key, j)
    ensures r.None? ==> forall j :: p <= j <= p + w ==> !KeyAt(b, key, j)
    decreases w
  {
    if KeyAt(b, key, p + w) then Some(KeyHit(p, p + w, KeyEnd(b, key, p + w)))
    else if w == 0 then None
    else KeyFrom(b, key, p, w - 1)
  }

  /** The key pattern tried at offset p. */
  function KeyMatch(b: string, key: string, p: nat): (r: Option<KeyHit>)
    ensures r.Some? ==>
      r.value.start == p && LineStart(b, p) && p <= r.value.key <= |b| && AllSpace(b, p, r.value.key)
      && KeyAt(b, key, r.value.key) && r.value.end == KeyEnd(b, key, r.value.key)
    ensures r.Some? ==>
      forall j :: r.value.key < j <= |b| && AllSpace(b, p, j) ==> !KeyAt(b, key, j)
    ensures r.None? && LineStart(b, p) ==>
      forall j :: p <= j <= |b| && AllSpace(b, p, j) ==> !KeyAt(b, key, j)
  {
    if LineStart(b, p) then
      var run := SpaceRunEnd(b, p);
      assert forall j :: p <= j <= |b| && AllSpace(b, p, j) ==> j <= run;
      KeyFrom(b, key, p, run - p)
    else None
  }

  /** re.search of the key pattern from offset i. */
  function FindKeyFrom(b: string, key: string, i: nat): (r: Option<KeyHit>)
    requires i <= |b| + 1
    ensures r.Some? ==> i <= r.value.start && KeyMatch(b, key, r.value.start) == r
    ensures r.Some? ==> forall p :: i <= p < r.value.start ==> KeyMatch(b, key, p).None?
    ensures r.None? ==> forall p :: i <= p <= |b| ==> KeyMatch(b, key, p).None?
    decreases |b| + 1 - i
  {
    if i > |b| then None
    else
      var m := KeyMatch(b, key, i);
      if m.Some? then m else FindKeyFrom(b, key, i + 1)
  }

  /** The leftmost match of the key pattern in the section body b. */
  function FindKey(b: string, key: string): (r: Option<KeyHit>)
    ensures r.Some? ==> KeyMatch(b, key, r.value.start) == r
    ensures r.Some? ==> forall p :: 0 <= p < r.value.start ==> KeyMatch(b, key, p).None?
    ensures r.None? <==> forall p :: 0 <= p <= |b| ==> KeyMatch(b, key, p).None?
  {
    FindKeyFrom(b, key, 0)
  }

  /**
   * Exact key: when the key text at j is followed directly by a character
   * that is neither whitespace nor `=`, no match takes its key from j; so
   * `AutomaticLogin` is never found in an `AutomaticLoginEnable=...` line.
   */
  lemma LongerNameNeverMatches(b: string, key: string, j: nat, c: char)
    requires StartsAt(b, j, key + [c]) && !IsSpace(c) && c != '='
    ensures !KeyAt(b, key, j)
    ensures forall p: nat :: KeyMatch(b, key, p).Some? ==> KeyMatch(b, key, p).value.key != j
  {
    assert b[j + |key|] == (key + [c])[|key|];
    assert SpaceRunEnd(b, j + |key|) == j + |key|;
  }

  /** From the start of a key match to its key text there is only whitespace, so on the key's line nothing but whitespace precedes it. */
  lemma OnlySpaceBeforeKeyOnLine(b: string, p: nat, q: nat, i: nat)
    requires LineStart(b, p) && p <= q <= |b| && AllSpace(b, p, q)
    requires i < q && NoNewline(b, i, q)
    ensures IsSpace(b[i])
  {
    assert p == 0 || b[p - 1] == '\n';
  }

  /**
   * Commented-out key: a key text that follows a `#` on its own line is never
   * the key of a match, since only whitespace may stand before the key.
   */
  lemma CommentedKeyNeverMatches(b: string, key: string, i: nat, j: nat)
    requires i < j <= |b| && b[i] == '#' && NoNewline(b, i, j)
    ensures forall p: nat :: KeyMatch(b, key, p).Some? ==> KeyMatch(b, key, p).value.key != j
  {
    forall p: nat | KeyMatch(b, key, p).Some? ensures KeyMatch(b, key, p).value.key != j {
      var h := KeyMatch(b, key, p).value;
      if h.key == j {
        OnlySpaceBeforeKeyOnLine(b, p, j, i);
      }
    }
  }
}
