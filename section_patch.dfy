/**
 * ensure_line_in_section: make `key=value` present in the `[section]` block of
 * an INI-style text, as the regular-expression code does it:
 *   1. find the first header line `[section]` (Patterns.FindHeader);
 *   2. if there is none, append a new block at the end of the text;
 *   3. otherwise the body runs from the end of the header match to the next
 *      line shaped like `[...]` in the rest of the text, or to its end;
 *   4. in the body, replace the leftmost key match by `key=value`, or append
 *      `key=value\n` when there is none; splice the body back.
 */
module SectionPatch {
  import opened Wrappers
  import opened TextScan
  import opened Patterns

  /** The replacement text `key=value`. */
  function KeyLine(key: string, value: string): string {
    key + "=" + value
  }

  /** `s` with a '\n' added unless it already ends in one (Python's endswith("\n") is false on ""). */
  function WithFinalNewline(s: string): (r: string)
    ensures |r| > 0 && r[|r| - 1] == '\n'
    ensures |s| <= |r| <= |s| + 1 && r[..|s|] == s
    ensures |s| > 0 && s[|s| - 1] == '\n' ==> r == s
  {
    if |s| > 0 && s[|s| - 1] == '\n' then s else s + "\n"
  }

  /** The block appended when the section is missing. */
  function NewSectionBlock(section: string, key: string, value: string): string {
    "\n[" + section + "]\n" + KeyLine(key, value) + "\n"
  }

  /** The header pattern matches first at offset h, and its match ends at e. */
  predicate FirstHeaderAt(conf: string, section: string, h: nat, e: nat)
  {
    HeaderMatch(conf, section, h) == Some(e)
    && forall p :: 0 <= p < h ==> HeaderMatch(conf, section, p).None?
  }

  /** In the rest-of-text s, the body ends at offset n: the first any-header line, or the end of s. */
  predicate IsBodyEnd(s: string, n: nat)
  {
    n <= |s| && (forall p :: 0 <= p < n ==> !AnyHeaderAt(s, p)) && (n < |s| ==> AnyHeaderAt(s, n))
  }

  /**
   * A located section: the header match is [header, start), the body is
   * conf[start..end].
   */
  datatype Section = Section(header: nat, start: nat, end: nat)

  /** Steps 1 and 3: the first `[section]` header and the extent of its body. */
  function Locate(conf: string, section: string): (r: Option<Section>)
    ensures r.None? <==> forall p :: 0 <= p <= |conf| ==> HeaderMatch(conf, section, p).None?
    ensures r.Some? ==>
      r.value.header <= r.value.start <= r.value.end <= |conf|
      && FirstHeaderAt(conf, section, r.value.header, r.value.start)
      && IsBodyEnd(conf[r.value.start..], r.value.end - r.value.start)
  {
    match FindHeader(conf, section)
    case None => None
    case Some(m) =>
      var rest := conf[m.end..];
      var n := match NextHeaderFrom(rest, 0) case Some(k) => k case None => |rest|;
      Some(Section(m.start, m.end, m.end + n))
  }

  /** t fills a whole line of s, from the line start i to the line end i + |t|. */
  predicate WholeLineAt(s: string, i: nat, t: string)
  {
    LineStart(s, i) && StartsAt(s, i, t) && AtLineEnd(s, i + |t|)
  }

  /**
   * Step 4: replace the leftmost key match in the body, or append the key
   * line. Either way `key=value` then fills a line of the body: a key match
   * runs from a line start to a line end, and the appended line follows a
   * newline and ends in one.
   */
  function Upsert(body: string, key: string, value: string): (r: string)
    ensures exists i: nat :: WholeLineAt(r, i, KeyLine(key, value))
  {
    var kl := KeyLine(key, value);
    match FindKey(body, key)
    case Some(h) =>
      SplicedLineWhole(body, h.start, h.end, kl);
      body[..h.start] + kl + body[h.end..]
    case None =>
      AppendedLineWhole(WithFinalNewline(body), kl);
      WithFinalNewline(body) + kl + "\n"
  }

  /** Text put in place of a stretch running from a line start to a line end fills a whole line. */
  lemma SplicedLineWhole(s: string, i: nat, e: nat, t: string)
    requires i <= e <= |s| && LineStart(s, i) && AtLineEnd(s, e)
    ensures WholeLineAt(s[..i] + t + s[e..], i, t)
  {
    var r := s[..i] + t + s[e..];
    assert r[i..i + |t|] == t;
    assert i > 0 ==> r[i - 1] == s[i - 1];
    assert i + |t| < |r| ==> r[i + |t|] == s[e];
  }

  /** A line added after a text ending in a newline, and ended by one, fills a whole line. */
  lemma AppendedLineWhole(w: string, t: string)
    requires |w| > 0 && w[|w| - 1] == '\n'
    ensures WholeLineAt(w + t + "\n", |w|, t)
  {
    var r := w + t + "\n";
    assert r[|w| - 1] == '\n' && r[|w|..|w| + |t|] == t && r[|w| + |t|] == '\n';
  }

  /** An occurrence of t in the middle piece is an occurrence in a + m + c. */
  lemma OccursInside(a: string, m: string, c: string, t: string)
    requires exists i: nat :: StartsAt(m, i, t)
    ensures exists i: nat :: StartsAt(a + m + c, i, t)
  {
    var i: nat :| StartsAt(m, i, t);
    assert (a + m + c)[|a| + i..|a| + i + |t|] == m[i..i + |t|];
    assert StartsAt(a + m + c, |a| + i, t);
  }

  /** The appended block holds `key=value`. */
  lemma NewBlockHoldsKeyLine(conf: string, section: string, key: string, value: string)
    ensures exists i: nat :: StartsAt(WithFinalNewline(conf) + NewSectionBlock(section, key, value), i, KeyLine(key, value))
  {
    var w := WithFinalNewline(conf);
    var h := "\n[" + section + "]\n";
    var kl := KeyLine(key, value);
    assert NewSectionBlock(section, key, value) == h + kl + "\n";
    hide *;
    PlacedAfter(w + h, kl, "\n");
    assert w + (h + kl + "\n") == w + h + kl + "\n";
  }

  /** t sits right after x in x + t + y. */
  lemma PlacedAfter(x: string, t: string, y: string)
    ensures StartsAt(x + t + y, |x|, t)
  {
    assert (x + t + y)[|x|..|x| + |t|] == t;
  }

  /**
   * ensure_line_in_section(conf, section, key, value).  The replacement is a
   * re.sub template, so a backslash in key or value would be interpreted;
   * the model covers the backslash-free case.
   */
  function EnsureLineInSection(conf: string, section: string, key: string, value: string): (r: string)
    requires '\\' !in key && '\\' !in value
    ensures (forall p :: 0 <= p <= |conf| ==> HeaderMatch(conf, section, p).None?) ==>
      r == WithFinalNewline(conf) + NewSectionBlock(section, key, value)
    ensures exists i: nat :: StartsAt(r, i, KeyLine(key, value))
  {
    match Locate(conf, section)
    case None =>
      NewBlockHoldsKeyLine(conf, section, key, value);
      WithFinalNewline(conf) + NewSectionBlock(section, key, value)
    case Some(sec) =>
      var u := Upsert(conf[sec.start..sec.end], key, value);
      OccursInside(conf[..sec.start], u, conf[sec.end..], KeyLine(key, value));
      conf[..sec.start] + u + conf[sec.end..]
  }
}
