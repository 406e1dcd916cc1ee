/**
 * What ensure_line_in_section guarantees, and what it does not: the body
 * splice leaves everything outside the body alone, only the leftmost key
 * match is rewritten, a missing key is appended, re-applying leaves an
 * already patched text alone under the conditions stated below, and a key
 * line directly under its header is merged into the header line.
 */
module PatchProperties {
  import opened Wrappers
  import opened TextScan
  import opened Patterns
  import opened SectionPatch

  /** The first header and the body end are determined by the patterns, so Locate finds exactly them. */
  lemma LocateFinds(conf: string, section: string, h: nat, e: nat, n: nat)
    requires FirstHeaderAt(conf, section, h, e)
    requires e + n <= |conf| && IsBodyEnd(conf[e..], n)
    ensures Locate(conf, section) == Some(Section(h, e, e + n))
  {
    hide *;
    HeaderFound(conf, section, h, e);
    var sec := Locate(conf, section).value;
    FirstHeaderUnique(conf, section, sec.header, sec.start, h, e);
    BodyEndUnique(conf[e..], sec.end - sec.start, n);
  }

  /** A first header match is a match. */
  lemma HeaderFound(conf: string, section: string, h: nat, e: nat)
    requires FirstHeaderAt(conf, section, h, e)
    ensures h <= |conf| && HeaderMatch(conf, section, h).Some?
  {
  }

  /** There is only one first match of the header pattern. */
  lemma FirstHeaderUnique(conf: string, section: string, h1: nat, e1: nat, h2: nat, e2: nat)
    requires FirstHeaderAt(conf, section, h1, e1) && FirstHeaderAt(conf, section, h2, e2)
    ensures h1 == h2 && e1 == e2
  {
    assert !(h1 < h2) && !(h2 < h1);
  }

  /** There is only one place where the body can end. */
  lemma BodyEndUnique(s: string, n1: nat, n2: nat)
    requires IsBodyEnd(s, n1) && IsBodyEnd(s, n2)
    ensures n1 == n2
  {
    assert !(n1 < n2) && !(n2 < n1);
  }

  /**
   * Non-interference: the result is the text up to the end of the header
   * match, the rewritten body, and the text from the next header on.
   */
  lemma SpliceAroundBody(conf: string, section: string, key: string, value: string, h: nat, e: nat, n: nat)
    requires '\\' !in key && '\\' !in value
    requires FirstHeaderAt(conf, section, h, e)
    requires e + n <= |conf| && IsBodyEnd(conf[e..], n)
    ensures EnsureLineInSection(conf, section, key, value)
      == conf[..e] + Upsert(conf[e..e + n], key, value) + conf[e + n..]
  {
    hide *;
    LocateFinds(conf, section, h, e, n);
    EnsureLineOnSpan(conf, section, key, value, h, e, e + n);
  }

  /** Everything before the body and everything from the next header on comes back unchanged, byte for byte. */
  lemma OutsideBodyUnchanged(conf: string, section: string, key: string, value: string, h: nat, e: nat, n: nat)
    requires '\\' !in key && '\\' !in value
    requires FirstHeaderAt(conf, section, h, e)
    requires e + n <= |conf| && IsBodyEnd(conf[e..], n)
    ensures var r := EnsureLineInSection(conf, section, key, value);
      e <= |r| && r[..e] == conf[..e] && |conf| - (e + n) <= |r| && r[|r| - (|conf| - (e + n))..] == conf[e + n..]
  {
    SpliceAroundBody(conf, section, key, value, h, e, n);
    EndsKept(conf[..e], Upsert(conf[e..e + n], key, value), conf[e + n..]);
  }

  /** The outer pieces of a three-piece concatenation can be read back from it. */
  lemma EndsKept(a: string, m: string, c: string)
    ensures var r := a + m + c;
      |a| <= |r| && r[..|a|] == a && |c| <= |r| && r[|r| - |c|..] == c
  {
  }

  /** Only the leftmost match of the key pattern is rewritten; the body before its start and after its end is kept. */
  lemma FirstKeyMatchReplaced(body: string, key: string, value: string, p: nat)
    requires KeyMatch(body, key, p).Some?
    requires forall q :: 0 <= q < p ==> KeyMatch(body, key, q).None?
    ensures var m := KeyMatch(body, key, p).value;
      p <= m.end <= |body| && Upsert(body, key, value) == body[..p] + KeyLine(key, value) + body[m.end..]
  {
    var f := FindKey(body, key);
    assert f.Some?;
    assert f.value.start == p by {
      assert !(f.value.start < p) && !(p < f.value.start);
    }
  }

  /** A body with no match of the key pattern gets `key=value\n` appended, after a '\n' if it lacks one. */
  lemma MissingKeyAppended(body: string, key: string, value: string)
    requires forall q :: 0 <= q <= |body| ==> KeyMatch(body, key, q).None?
    ensures Upsert(body, key, value) == WithFinalNewline(body) + KeyLine(key, value) + "\n"
  {
  }

  /** A key whose first character does not occur in the body is not found there. */
  lemma AbsentKeyNotFound(body: string, key: string)
    requires |key| > 0 && key[0] !in body
    ensures FindKey(body, key) == None
  {
    forall q | 0 <= q <= |body| ensures KeyMatch(body, key, q).None? {
      MatchedKeyOccurs(body, key, q);
    }
  }

  /** A match of the key pattern contains the key text, so the key's first character occurs in the body. */
  lemma MatchedKeyOccurs(body: string, key: string, q: nat)
    requires |key| > 0
    ensures KeyMatch(body, key, q).Some? ==>
      var j := KeyMatch(body, key, q).value.key;
      q <= j && j + |key| <= |body| && body[j..j + |key|] == key
    ensures KeyMatch(body, key, q).Some? ==> key[0] in body
  {
    var km := KeyMatch(body, key, q);
    if km.Some? {
      var j := km.value.key;
      assert body[j] == body[j..j + |key|][0];
    }
  }

  /** `AutomaticLogin` never takes an `AutomaticLoginEnable` line for its own. */
  lemma AutomaticLoginSkipsEnableLine(b: string, j: nat)
    requires StartsAt(b, j, "AutomaticLoginEnable")
    ensures forall p: nat :: KeyMatch(b, "AutomaticLogin", p).Some? ==> KeyMatch(b, "AutomaticLogin", p).value.key != j
  {
    assert b[j..j + 15] == "AutomaticLogin" + ['E'] by {
      assert b[j..j + 15] == b[j..j + 20][..15];
    }
    LongerNameNeverMatches(b, "AutomaticLogin", j, 'E');
  }

  /** The value has a character that is not whitespace. */
  predicate HasVisibleChar(v: string) {
    exists i :: 0 <= i < |v| && !IsSpace(v[i])
  }

  /** The line ending just before offset j (a line start) is not blank, or there is none. */
  predicate PrevLineNotBlank(b: string, j: nat)
    requires j <= |b|
  {
    j == 0 || exists i :: 0 <= i < j - 1 && !IsSpace(b[i]) && NoNewline(b, i, j - 1)
  }

  /** A plain `key=value` line at j (value one line long, with something visible) is matched exactly, from j to its line end. */
  lemma PlainKeyLineEnd(b: string, key: string, value: string, j: nat)
    requires '\n' !in value && HasVisibleChar(value)
    requires StartsAt(b, j, KeyLine(key, value)) && AtLineEnd(b, j + |KeyLine(key, value)|)
    ensures KeyAt(b, key, j) && KeyEnd(b, key, j) == j + |KeyLine(key, value)|
  {
    var x := j + |key| + 1;
    KeyLinePieces(b, key, value, j);
    ValueToLineEnd(b, value, x);
    assert AfterKey(b, j + |key|) == Some(NextLineEnd(b, SpaceRunEnd(b, x)));
  }

  /** A `key=value` text at j: the key at j, `=` after it, the value after that. */
  lemma KeyLinePieces(b: string, key: string, value: string, j: nat)
    requires StartsAt(b, j, KeyLine(key, value))
    ensures StartsAt(b, j, key) && b[j + |key|] == '=' && StartsAt(b, j + |key| + 1, value)
  {
    var kl := KeyLine(key, value);
    assert b[j..j + |kl|] == kl;
    assert b[j..j + |key|] == b[j..j + |kl|][..|key|];
    assert b[j + |key|] == kl[|key|];
    assert b[j + |key| + 1..j + |kl|] == b[j..j + |kl|][|key| + 1..];
  }

  /** After a one-line value with a visible character, `\s*.*$` runs exactly to the value's end. */
  lemma ValueToLineEnd(b: string, value: string, x: nat)
    requires '\n' !in value && HasVisibleChar(value)
    requires StartsAt(b, x, value) && AtLineEnd(b, x + |value|)
    ensures NextLineEnd(b, SpaceRunEnd(b, x)) == x + |value|
  {
    var vi :| 0 <= vi < |value| && !IsSpace(value[vi]);
    assert b[x + vi] == b[x..x + |value|][vi];
    var y := SpaceRunEnd(b, x);
    assert y <= x + vi;
    forall k | y <= k < x + |value| ensures b[k] != '\n' {
      assert b[k] == b[x..x + |value|][k - x];
    }
    NextLineEndAt(b, y, x + |value|);
  }

  /**
   * Offset j starts a line that reads exactly `key=value` (no indentation,
   * nothing after the value), and the line before it, if any, is not blank.
   */
  predicate PatchedLineAt(body: string, key: string, value: string, j: nat)
  {
    j <= |body| && LineStart(body, j) && StartsAt(body, j, KeyLine(key, value))
    && AtLineEnd(body, j + |KeyLine(key, value)|) && PrevLineNotBlank(body, j)
  }

  /**
   * Body-level re-application: when the leftmost key match m takes its key
   * from a line that already reads `key=value` in the sense of
   * PatchedLineAt, and the value is one visible line, the body is left
   * exactly as it is.
   */
  lemma UpsertKeepsPatchedBody(body: string, key: string, value: string, m: KeyHit)
    requires '\n' !in value && HasVisibleChar(value)
    requires FindKey(body, key) == Some(m) && PatchedLineAt(body, key, value, m.key)
    ensures Upsert(body, key, value) == body
  {
    hide *;
    var j := m.key;
    var kl := KeyLine(key, value);
    PatchedLineParts(body, key, value, j);
    MatchStartsAtUnindentedKey(body, key, m);
    PlainKeyLineEnd(body, key, value, j);
    UpsertAtHit(body, key, value, m);
    SpliceSame(body, j, kl);
  }

  /** What PatchedLineAt says, piece by piece. */
  lemma PatchedLineParts(body: string, key: string, value: string, j: nat)
    requires PatchedLineAt(body, key, value, j)
    ensures LineStart(body, j) && PrevLineNotBlank(body, j)
    ensures StartsAt(body, j, KeyLine(key, value)) && AtLineEnd(body, j + |KeyLine(key, value)|)
  {
  }

  /** A match whose key text starts a line preceded by a non-blank line starts at the key text itself. */
  lemma MatchStartsAtUnindentedKey(body: string, key: string, m: KeyHit)
    requires KeyMatch(body, key, m.start) == Some(m)
    requires LineStart(body, m.key) && PrevLineNotBlank(body, m.key)
    ensures m.start == m.key
  {
    hide KeyMatch;
    var j := m.key;
    if j > 0 {
      var i :| 0 <= i < j - 1 && !IsSpace(body[i]) && NoNewline(body, i, j - 1);
      LineStartOutside(body, m.start, i, j - 1);
    }
  }

  /** Writing back the text that is already there changes nothing. */
  lemma SpliceSame(s: string, j: nat, t: string)
    requires StartsAt(s, j, t)
    ensures s[..j] + t + s[j + |t|..] == s
  {
    assert s == s[..j] + s[j..j + |t|] + s[j + |t|..];
  }

  /** Once the section is located, the result is the text around its body with the body rewritten by Upsert. */
  lemma EnsureLineOnLocated(conf: string, section: string, key: string, value: string, sec: Section)
    requires '\\' !in key && '\\' !in value
    requires Locate(conf, section) == Some(sec)
    ensures sec.start <= sec.end <= |conf|
    ensures EnsureLineInSection(conf, section, key, value)
      == conf[..sec.start] + Upsert(conf[sec.start..sec.end], key, value) + conf[sec.end..]
  {
  }

  /** EnsureLineOnLocated with the section's offsets spelled out. */
  lemma EnsureLineOnSpan(conf: string, section: string, key: string, value: string, h: nat, s: nat, t: nat)
    requires '\\' !in key && '\\' !in value
    requires Locate(conf, section) == Some(Section(h, s, t))
    ensures s <= t <= |conf|
    ensures EnsureLineInSection(conf, section, key, value)
      == conf[..s] + Upsert(conf[s..t], key, value) + conf[t..]
  {
  }

  /** Cutting a text in three and gluing the pieces back gives the text. */
  lemma Reassemble(s: string, i: nat, j: nat)
    requires i <= j <= |s|
    ensures s[..i] + s[i..j] + s[j..] == s
  {
  }

  /**
   * Conditional idempotence: re-applying the same key and value to a text
   * whose section body has its leftmost key match on a line that already
   * reads `key=value` (PatchedLineAt) returns the text unchanged: the
   * "no change" case of the callers.
   */
  lemma ReapplyLeavesPatchedTextUnchanged(conf: string, section: string, key: string, value: string, sec: Section, m: KeyHit)
    requires '\\' !in key && '\\' !in value
    requires '\n' !in value && HasVisibleChar(value)
    requires Locate(conf, section) == Some(sec)
    requires sec.start <= sec.end <= |conf|
    requires FindKey(conf[sec.start..sec.end], key) == Some(m) && PatchedLineAt(conf[sec.start..sec.end], key, value, m.key)
    ensures EnsureLineInSection(conf, section, key, value) == conf
  {
    EnsureLineOnLocated(conf, section, key, value, sec);
    UpsertKeepsPatchedBody(conf[sec.start..sec.end], key, value, m);
    Reassemble(conf, sec.start, sec.end);
  }

  /**
   * Header merge: when the body starts with the header's own newline and
   * the very next line is the key line, the leading `\s*` of the key
   * pattern swallows that newline, so the rewritten key line is glued to the
   * header line.
   */
  lemma KeyLineUnderHeaderMerges(conf: string, section: string, key: string, before: string, value: string, sec: Section, body: string)
    requires '\\' !in key && '\\' !in value
    requires |key| > 0 && !IsSpace(key[0])
    requires '\n' !in before && HasVisibleChar(before)
    requires Locate(conf, section) == Some(sec)
    requires sec.start <= sec.end <= |conf| && body == conf[sec.start..sec.end]
    requires StartsAt(body, 0, "\n" + KeyLine(key, before))
    requires AtLineEnd(body, 1 + |KeyLine(key, before)|)
    ensures EnsureLineInSection(conf, section, key, value)
      == conf[..sec.start] + KeyLine(key, value) + body[1 + |KeyLine(key, before)|..] + conf[sec.end..]
  {
    EnsureLineOnLocated(conf, section, key, value, sec);
    UpsertMergesLeadingKeyLine(body, key, before, value);
    ConcatAssoc(conf[..sec.start], KeyLine(key, value), body[1 + |KeyLine(key, before)|..], conf[sec.end..]);
  }

  /** Regrouping a four-piece concatenation. */
  lemma ConcatAssoc(a: string, b: string, c: string, d: string)
    ensures a + (b + c) + d == a + b + c + d
  {
  }

  /** The body-level half of the header merge: the body's leading '\n' and its key line become `key=value`. */
  lemma UpsertMergesLeadingKeyLine(body: string, key: string, before: string, value: string)
    requires |key| > 0 && !IsSpace(key[0])
    requires '\n' !in before && HasVisibleChar(before)
    requires StartsAt(body, 0, "\n" + KeyLine(key, before))
    requires AtLineEnd(body, 1 + |KeyLine(key, before)|)
    ensures Upsert(body, key, value) == KeyLine(key, value) + body[1 + |KeyLine(key, before)|..]
  {
    LeadingNewlineKeyMatch(body, key, before);
    assert body[..0] + KeyLine(key, value) == KeyLine(key, value);
  }

  /** With the leftmost key match h, Upsert puts the key line in place of h. */
  lemma UpsertAtHit(body: string, key: string, value: string, h: KeyHit)
    requires FindKey(body, key) == Some(h)
    ensures h.start <= h.end <= |body|
    ensures Upsert(body, key, value) == body[..h.start] + KeyLine(key, value) + body[h.end..]
  {
  }

  /** The key pattern tried at a '\n' followed by a plain key line takes the '\n' and the whole key line. */
  lemma LeadingNewlineKeyMatch(body: string, key: string, before: string)
    requires |key| > 0 && !IsSpace(key[0])
    requires '\n' !in before && HasVisibleChar(before)
    requires StartsAt(body, 0, "\n" + KeyLine(key, before))
    requires AtLineEnd(body, 1 + |KeyLine(key, before)|)
    ensures FindKey(body, key) == Some(KeyHit(0, 1, 1 + |KeyLine(key, before)|))
  {
    var kl := KeyLine(key, before);
    NewlineThenText(body, kl);
    PlainKeyLineEnd(body, key, before, 1);
    assert body[1] == key[0] by {
      assert body[1..1 + |kl|][0] == kl[0];
    }
    assert SpaceRunEnd(body, 0) == 1;
    assert KeyMatch(body, key, 0) == Some(KeyHit(0, 1, 1 + |kl|));
  }

  /** A text that starts with '\n' + t has its '\n' at 0 and t at 1. */
  lemma NewlineThenText(s: string, t: string)
    requires StartsAt(s, 0, "\n" + t)
    ensures s[0] == '\n' && StartsAt(s, 1, t)
  {
    assert s[0] == s[..1 + |t|][0];
    assert s[1..1 + |t|] == s[..1 + |t|][1..];
  }

  /** The any-header pattern needs a `[`, so a text without one has no header line. */
  lemma NoBracketNoAnyHeader(s: string)
    requires '[' !in s
    ensures forall p :: !AnyHeaderAt(s, p)
  {
    forall p | 0 <= p < |s| ensures s[p] != '[' {
      assert s[p] in s;
    }
  }

  /**
   * A text that opens with its `[section]` header, followed by a line that
   * does not start with whitespace and no other `[` anywhere: the section
   * is found at offset 0 and its body is all the rest of the text.
   */
  lemma HeaderThenBody(section: string, body: string)
    requires |body| >= 2 && body[0] == '\n' && !IsSpace(body[1]) && '[' !in body
    ensures var conf := "[" + section + "]" + body;
      Locate(conf, section) == Some(Section(0, |section| + 2, |conf|))
  {
    var hdr := "[" + section + "]";
    var conf := hdr + body;
    var q := |section| + 2;
    assert conf[..q] == hdr;
    assert conf[q..] == body;
    assert conf[q] == '\n' && conf[q + 1] == body[1];
    assert SpaceRunEnd(conf, q + 1) == q + 1;
    assert SpaceRunEnd(conf, q) == q + 1;
    assert HeaderMatch(conf, section, 0) == Some(q);
    NoBracketNoAnyHeader(body);
    LocateFinds(conf, section, 0, q, |body|);
  }

  /** Where a key match takes its key text from: a character equal to the key's first one, after only whitespace. */
  lemma KeyHitAnchor(b: string, key: string, p: nat)
    requires |key| > 0
    ensures KeyMatch(b, key, p).Some? ==>
      var k := KeyMatch(b, key, p).value.key;
      p <= k < |b| && b[k] == key[0] && AllSpace(b, p, k) && LineStart(b, p)
  {
    var km := KeyMatch(b, key, p);
    if km.Some? {
      var k := km.value.key;
      assert b[k] == b[k..k + |key|][0];
    }
  }

  /** Nothing but whitespace cannot reach from a line start to a line whose previous line is not blank. */
  lemma NoBlankRunToPatchedLine(b: string, j: nat, p: nat)
    requires j <= |b| && PrevLineNotBlank(b, j) && LineStart(b, p) && p < j
    ensures !AllSpace(b, p, j)
  {
    var i :| 0 <= i < j - 1 && !IsSpace(b[i]) && NoNewline(b, i, j - 1);
    LineStartOutside(b, p, i, j - 1);
    assert !IsSpace(b[i]);
  }

  /** Before a patched line whose key's first character appears nowhere earlier, the key pattern matches nowhere. */
  lemma NoKeyMatchBefore(b: string, key: string, value: string, j: nat, p: nat)
    requires |key| > 0 && !IsSpace(key[0])
    requires PatchedLineAt(b, key, value, j) && p < j
    requires forall k :: 0 <= k < j ==> b[k] != key[0]
    ensures KeyMatch(b, key, p).None?
  {
    assert b[j] == b[j..j + |KeyLine(key, value)|][0];
    assert !IsSpace(b[j]);
    KeyHitAnchor(b, key, p);
    if LineStart(b, p) {
      NoBlankRunToPatchedLine(b, j, p);
    }
  }

  /**
   * The leftmost key match is the patched line itself when the key's first
   * character occurs nowhere before it: the match starts and takes its key
   * at j and ends at the end of the `key=value` line.
   */
  lemma FindKeyAtPatchedLine(b: string, key: string, value: string, j: nat)
    requires |key| > 0 && !IsSpace(key[0])
    requires '\n' !in value && HasVisibleChar(value)
    requires PatchedLineAt(b, key, value, j)
    requires forall k :: 0 <= k < j ==> b[k] != key[0]
    ensures FindKey(b, key) == Some(KeyHit(j, j, j + |KeyLine(key, value)|))
  {
    var kl := KeyLine(key, value);
    PlainKeyLineEnd(b, key, value, j);
    assert b[j] == b[j..j + |kl|][0];
    assert SpaceRunEnd(b, j) == j;
    assert KeyMatch(b, key, j) == Some(KeyHit(j, j, j + |kl|));
    forall p | 0 <= p < j ensures KeyMatch(b, key, p).None? {
      NoKeyMatchBefore(b, key, value, j, p);
    }
    var r := FindKey(b, key);
    assert r.Some?;
    assert r.value.start == j by {
      assert !(r.value.start < j) && !(j < r.value.start);
    }
  }

  /** A leading section whose body lacks the key's first character gets the key line as its last line. */
  lemma LeadingSectionGetsKeyAppended(section: string, body: string, key: string, value: string)
    requires '\\' !in key && '\\' !in value && |key| > 0 && key[0] !in body
    requires |body| >= 2 && body[0] == '\n' && !IsSpace(body[1]) && '[' !in body && body[|body| - 1] == '\n'
    ensures EnsureLineInSection("[" + section + "]" + body, section, key, value)
      == "[" + section + "]" + body + (KeyLine(key, value) + "\n")
  {
    EnsureLineInLeadingSection(section, body, key, value);
    AbsentKeyNotFound(body, key);
    AppendWhenAbsent(body, key, value);
    AppendAssoc("[" + section + "]", body, KeyLine(key, value) + "\n");
  }

  /** When the section's header opens the text and its body is all the rest, only the body is rewritten. */
  lemma EnsureLineInLeadingSection(section: string, body: string, key: string, value: string)
    requires '\\' !in key && '\\' !in value
    requires |body| >= 2 && body[0] == '\n' && !IsSpace(body[1]) && '[' !in body
    ensures EnsureLineInSection("[" + section + "]" + body, section, key, value)
      == "[" + section + "]" + Upsert(body, key, value)
  {
    var hdr := "[" + section + "]";
    var conf := hdr + body;
    HeaderThenBody(section, body);
    EnsureLineOnLocated(conf, section, key, value, Section(0, |hdr|, |conf|));
    PiecesOfTwo(hdr, body);
  }

  /** Cutting a two-piece concatenation at the seam gives the pieces back, and nothing after the end. */
  lemma PiecesOfTwo(a: string, b: string)
    ensures (a + b)[..|a|] == a && (a + b)[|a|..|a + b|] == b && (a + b)[|a + b|..] == []
  {
  }

  lemma AppendAssoc(a: string, b: string, t: string)
    ensures a + (b + t) == a + b + t
  {
  }

  /** A body that ends its last line and has no key match gets the key line appended as is. */
  lemma AppendWhenAbsent(body: string, key: string, value: string)
    requires FindKey(body, key).None? && |body| > 0 && body[|body| - 1] == '\n'
    ensures Upsert(body, key, value) == body + (KeyLine(key, value) + "\n")
  {
  }

  /** A key line directly under a leading header is glued to it: the body's leading '\n' is consumed by the rewrite. */
  lemma LeadingSectionKeyLineMerges(section: string, key: string, before: string, value: string, rest: string)
    requires '\\' !in key && '\\' !in value
    requires |key| > 0 && !IsSpace(key[0]) && '[' !in key
    requires '\n' !in before && HasVisibleChar(before) && '[' !in before && '[' !in rest
    ensures EnsureLineInSection("[" + section + "]" + ("\n" + KeyLine(key, before) + "\n" + rest), section, key, value)
      == "[" + section + "]" + (KeyLine(key, value) + ("\n" + rest))
  {
    var body := "\n" + KeyLine(key, before) + "\n" + rest;
    KeyLineBodyShape(key, before, rest);
    EnsureLineInLeadingSection(section, body, key, value);
    UpsertMergesLeadingKeyLine(body, key, before, value);
  }

  /** The character-level facts about a body made of a '\n', a key line, a '\n' and the rest. */
  lemma KeyLineBodyShape(key: string, before: string, rest: string)
    requires |key| > 0 && '[' !in key && '[' !in before && '[' !in rest
    ensures var kl := KeyLine(key, before);
      var body := "\n" + kl + "\n" + rest;
      |body| >= 2 && body[0] == '\n' && body[1] == key[0] && '[' !in body
      && StartsAt(body, 0, "\n" + kl) && AtLineEnd(body, 1 + |kl|) && body[1 + |kl|..] == "\n" + rest
  {
    var kl := KeyLine(key, before);
    var body := "\n" + kl + "\n" + rest;
    assert body[1] == kl[0] == key[0];
    assert '[' !in kl;
    assert body[..1 + |kl|] == "\n" + kl;
    assert body[1 + |kl|..] == "\n" + rest;
  }

  /** A header pattern match starts with the header's `[`. */
  lemma HeaderMatchAtBracket(conf: string, section: string, p: nat)
    ensures HeaderMatch(conf, section, p).Some? ==> p < |conf| && conf[p] == '['
  {
    if HeaderMatch(conf, section, p).Some? {
      assert conf[p] == conf[p..p + |section| + 2][0];
    }
  }

  /**
   * A header line with text glued after its `]` no longer matches the
   * header pattern; with no other `[` in the text, the section counts as
   * missing and a new block is appended.
   */
  lemma GluedHeaderCountsAsMissing(section: string, tail: string, key: string, value: string)
    requires '\\' !in key && '\\' !in value
    requires |tail| > 0 && !IsSpace(tail[0]) && '[' !in section && '[' !in tail
    ensures var conf := "[" + section + "]" + tail;
      EnsureLineInSection(conf, section, key, value) == WithFinalNewline(conf) + NewSectionBlock(section, key, value)
  {
    var conf := "[" + section + "]" + tail;
    var q := |section| + 2;
    assert conf[q] == tail[0];
    assert SpaceRunEnd(conf, q) == q;
    assert HeaderMatch(conf, section, 0).None?;
    assert '[' !in conf[1..] by {
      assert conf[1..] == section + "]" + tail;
    }
    forall p | 0 <= p <= |conf| ensures HeaderMatch(conf, section, p).None? {
      HeaderMatchAtBracket(conf, section, p);
      if 0 < p < |conf| {
        assert conf[p] == conf[1..][p - 1];
      }
    }
  }

  /** A leading section whose leftmost key match is an already patched line is left unchanged. */
  lemma LeadingSectionKeepsPatchedLine(section: string, body: string, key: string, value: string, j: nat)
    requires '\\' !in key && '\\' !in value
    requires |key| > 0 && !IsSpace(key[0])
    requires '\n' !in value && HasVisibleChar(value)
    requires |body| >= 2 && body[0] == '\n' && !IsSpace(body[1]) && '[' !in body
    requires PatchedLineAt(body, key, value, j) && forall k :: 0 <= k < j ==> body[k] != key[0]
    ensures EnsureLineInSection("[" + section + "]" + body, section, key, value) == "[" + section + "]" + body
  {
    EnsureLineInLeadingSection(section, body, key, value);
    FindKeyAtPatchedLine(body, key, value, j);
    UpsertKeepsPatchedBody(body, key, value, KeyHit(j, j, j + |KeyLine(key, value)|));
  }

  /** A one-line body (not indented, without the key's first character) followed by the key line: that line is patched. */
  lemma PatchedLineAfterOneLine(line: string, key: string, value: string)
    requires |line| > 0 && !IsSpace(line[0]) && '\n' !in line
    requires |key| > 0 && !IsSpace(key[0]) && key[0] !in line && '\n' !in value
    ensures var body := "\n" + line + "\n" + KeyLine(key, value) + "\n";
      PatchedLineAt(body, key, value, |line| + 2) && forall k :: 0 <= k < |line| + 2 ==> body[k] != key[0]
  {
    var kl := KeyLine(key, value);
    var body := "\n" + line + "\n" + kl + "\n";
    var j := |line| + 2;
    assert body[j - 1] == '\n';
    assert body[j..j + |kl|] == kl;
    assert body[j + |kl|] == '\n';
    assert body[1] == line[0];
    forall k | 1 <= k < j - 1 ensures body[k] != '\n' && body[k] != key[0] {
      assert body[k] == line[k - 1];
    }
    assert NoNewline(body, 1, j - 1);
  }
}
