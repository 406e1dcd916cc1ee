/**
 * How far the key pattern `^\s*<key>\s*=\s*.*$` reaches on bodies the
 * patcher really sees (a body starts with the header line's newline). With
 * a visible value, a key line written with blanks around `=` is replaced
 * whole and nothing else. Its `\s*` runs cross newlines, though: an empty
 * value lets the match run on to the end of the next line, or, on the
 * body's last line, take the body's final newline; and blank lines just
 * above a key line are part of the match, so the rewrite removes them.
 */
module LooseKeyPattern {
  import opened Wrappers
  import opened TextScan
  import opened Patterns
  import opened SectionPatch
  import opened PatchProperties

  /** Where the pieces of '\n' + line + '\n' + key + "=\n" + next + rest sit. */
  lemma EmptyValueLayout(line: string, key: string, next: string, rest: string)
    ensures var b := "\n" + line + "\n" + key + "=\n" + next + rest;
      var m := |line| + 2;
      var e := m + |key| + 2 + |next|;
      |b| == e + |rest| && b[0] == '\n' && StartsAt(b, 1, line) && b[m - 1] == '\n'
      && StartsAt(b, m, key) && b[m + |key|] == '=' && b[m + |key| + 1] == '\n'
      && StartsAt(b, m + |key| + 2, next) && b[..m] == "\n" + line + "\n" && b[e..] == rest
  {
    var b := "\n" + line + "\n" + key + "=\n" + next + rest;
    var m := |line| + 2;
    var e := m + |key| + 2 + |next|;
    assert b[1..m - 1] == line;
    assert b[m..m + |key|] == key;
    assert b[m + |key| + 2..e] == next;
    assert b[..m] == "\n" + line + "\n";
    assert b[e..] == rest;
  }

  /** A text at j splits into its two parts. */
  lemma StartsAtSplit(b: string, j: nat, x: string, y: string)
    requires StartsAt(b, j, x + y)
    ensures StartsAt(b, j, x) && StartsAt(b, j + |x|, y)
  {
    var n := |x| + |y|;
    assert b[j..j + |x|] == b[j..j + n][..|x|];
    assert b[j + |x|..j + n] == b[j..j + n][|x|..];
    assert (x + y)[..|x|] == x && (x + y)[|x|..] == y;
  }

  /** A text without newlines placed at j leaves no newline in that stretch. */
  lemma NoNewlineAt(b: string, j: nat, t: string)
    requires StartsAt(b, j, t) && '\n' !in t
    ensures NoNewline(b, j, j + |t|)
  {
    forall k | j <= k < j + |t| ensures b[k] != '\n' {
      assert b[k] == b[j..j + |t|][k - j];
      assert t[k - j] in t;
    }
  }

  /** Where the text after e is empty or starts with a newline, `$` holds at e. */
  lemma LineEndBeforeRest(b: string, e: nat, rest: string)
    requires e <= |b| && b[e..] == rest && (|rest| == 0 || rest[0] == '\n')
    ensures AtLineEnd(b, e)
  {
    if e < |b| {
      assert b[e] == b[e..][0];
    }
  }

  /** A key placed right after the first line starts a line and has no whitespace before it. */
  lemma KeyOnSecondLine(b: string, line: string, key: string)
    requires |key| > 0 && !IsSpace(key[0])
    requires |line| + 2 <= |b| && b[|line| + 1] == '\n' && StartsAt(b, |line| + 2, key)
    ensures LineStart(b, |line| + 2) && SpaceRunEnd(b, |line| + 2) == |line| + 2
  {
    var m := |line| + 2;
    assert b[m] == b[m..m + |key|][0];
  }

  /** A match at the line after the first line is the leftmost one. */
  lemma SecondLineMatchFound(b: string, line: string, key: string, h: KeyHit)
    requires |key| > 0 && !IsSpace(key[0]) && key[0] !in line
    requires |line| > 0 && !IsSpace(line[0]) && '\n' !in line
    requires |line| + 2 <= |b| && b[0] == '\n' && StartsAt(b, 1, line) && b[|line| + 1] == '\n'
    requires KeyMatch(b, key, |line| + 2) == Some(h)
    ensures FindKey(b, key) == Some(h)
  {
    var m := |line| + 2;
    hide *;
    forall p | 0 <= p < m ensures KeyMatch(b, key, p).None? {
      NoKeyMatchInFirstLine(b, line, key, p);
    }
    FirstMatchFound(b, key, m, h);
  }

  /** A `key=` line with nothing after `=`, then a visible line: the key is found at j and its match ends at the end of that next line. */
  lemma EmptyValueKeyAt(b: string, key: string, line: string, j: nat)
    requires |line| > 0 && !IsSpace(line[0]) && '\n' !in line
    requires j + |key| + 2 + |line| <= |b| && StartsAt(b, j, key)
    requires b[j + |key|] == '=' && b[j + |key| + 1] == '\n' && StartsAt(b, j + |key| + 2, line)
    requires AtLineEnd(b, j + |key| + 2 + |line|)
    ensures KeyAt(b, key, j) && KeyEnd(b, key, j) == j + |key| + 2 + |line|
  {
    var x := j + |key| + 1;
    var e := x + 1 + |line|;
    assert b[x + 1] == line[0] by {
      assert b[x + 1] == b[x + 1..e][0];
    }
    assert SpaceRunEnd(b, x + 1) == x + 1;
    assert SpaceRunEnd(b, x) == x + 1;
    forall k | x + 1 <= k < e ensures b[k] != '\n' {
      assert b[k] == b[x + 1..e][k - x - 1];
      assert line[k - x - 1] in line;
    }
    NextLineEndAt(b, x + 1, e);
    assert AfterKey(b, j + |key|) == Some(e);
  }

  /** With a `key=` line followed by another line, the leftmost key match runs from the `key=` line to the end of the next line. */
  lemma EmptyValueKeyMatch(line: string, key: string, next: string, rest: string)
    requires |key| > 0 && !IsSpace(key[0]) && key[0] !in line
    requires |line| > 0 && !IsSpace(line[0]) && '\n' !in line
    requires |next| > 0 && !IsSpace(next[0]) && '\n' !in next
    requires |rest| == 0 || rest[0] == '\n'
    ensures var b := "\n" + line + "\n" + key + "=\n" + next + rest;
      var m := |line| + 2;
      FindKey(b, key) == Some(KeyHit(m, m, m + |key| + 2 + |next|))
  {
    var b := "\n" + line + "\n" + key + "=\n" + next + rest;
    var m := |line| + 2;
    var e := m + |key| + 2 + |next|;
    hide *;
    EmptyValueLayout(line, key, next, rest);
    LineEndBeforeRest(b, e, rest);
    KeyOnSecondLine(b, line, key);
    EmptyValueKeyAt(b, key, next, m);
    KeyMatchAtRunEnd(b, key, m, m);
    SecondLineMatchFound(b, line, key, KeyHit(m, m, e));
  }

  /**
   * Empty value: rewriting `key=` replaces the next line as well, since
   * the `\s*` after `=` crosses the newline and `.*` takes that line.
   */
  lemma EmptyValueSwallowsNextLine(line: string, key: string, next: string, rest: string, value: string)
    requires |key| > 0 && !IsSpace(key[0]) && key[0] !in line
    requires |line| > 0 && !IsSpace(line[0]) && '\n' !in line
    requires |next| > 0 && !IsSpace(next[0]) && '\n' !in next
    requires |rest| == 0 || rest[0] == '\n'
    ensures Upsert("\n" + line + "\n" + key + "=\n" + next + rest, key, value)
      == "\n" + line + "\n" + KeyLine(key, value) + rest
  {
    var b := "\n" + line + "\n" + key + "=\n" + next + rest;
    var m := |line| + 2;
    var e := m + |key| + 2 + |next|;
    hide *;
    EmptyValueLayout(line, key, next, rest);
    EmptyValueKeyMatch(line, key, next, rest);
    UpsertAtHit(b, key, value, KeyHit(m, m, e));
  }

  /**
   * Only the first occurrence is meant to be replaced, but a duplicate
   * `key=w` line right after an empty-valued `key=` line is swallowed by the
   * first match and disappears.
   */
  lemma EmptyValueSwallowsDuplicate(line: string, key: string, w: string, value: string)
    requires |key| > 0 && !IsSpace(key[0]) && key[0] !in line && '\n' !in key
    requires |line| > 0 && !IsSpace(line[0]) && '\n' !in line
    requires '\n' !in w
    ensures Upsert("\n" + line + "\n" + key + "=\n" + KeyLine(key, w) + "\n", key, value)
      == "\n" + line + "\n" + KeyLine(key, value) + "\n"
  {
    var next := KeyLine(key, w);
    assert next == key + "=" + w;
    assert next[0] == key[0];
    EmptyValueSwallowsNextLine(line, key, next, "\n", value);
  }

  /** `key=` with nothing after `=` and only a newline after that: the key pattern's tail runs to the end of the text. */
  lemma EmptyLastValueKeyAt(b: string, key: string, j: nat)
    requires j + |key| + 2 == |b| && StartsAt(b, j, key)
    requires b[j + |key|] == '=' && b[j + |key| + 1] == '\n'
    ensures KeyAt(b, key, j) && KeyEnd(b, key, j) == |b|
  {
    var x := j + |key| + 1;
    assert IsSpace(b[x]);
    assert SpaceRunEnd(b, x + 1) == |b|;
    assert SpaceRunEnd(b, x) == |b|;
    assert NextLineEnd(b, |b|) == |b|;
    assert AfterKey(b, j + |key|) == Some(|b|);
  }

  /** Where the pieces of '\n' + line + '\n' + key + "=\n" sit. */
  lemma EmptyLastValueLayout(line: string, key: string)
    ensures var b := "\n" + line + "\n" + key + "=\n";
      var m := |line| + 2;
      |b| == m + |key| + 2 && b[0] == '\n' && StartsAt(b, 1, line) && b[m - 1] == '\n'
      && StartsAt(b, m, key) && b[m + |key|] == '=' && b[m + |key| + 1] == '\n'
      && b[..m] == "\n" + line + "\n"
  {
    var b := "\n" + line + "\n" + key + "=\n";
    var m := |line| + 2;
    assert b[1..m - 1] == line;
    assert b[m..m + |key|] == key;
    assert b[..m] == "\n" + line + "\n";
  }

  /** With `key=` on the body's last line, the leftmost key match runs from that line's start to the end of the body. */
  lemma EmptyLastValueKeyMatch(line: string, key: string)
    requires |key| > 0 && !IsSpace(key[0]) && key[0] !in line
    requires |line| > 0 && !IsSpace(line[0]) && '\n' !in line
    ensures var b := "\n" + line + "\n" + key + "=\n";
      FindKey(b, key) == Some(KeyHit(|line| + 2, |line| + 2, |b|))
  {
    var b := "\n" + line + "\n" + key + "=\n";
    var m := |line| + 2;
    EmptyLastValueLayout(line, key);
    assert b[m] == key[0] by {
      assert b[m] == b[m..m + |key|][0];
    }
    assert LineStart(b, m);
    assert SpaceRunEnd(b, m) == m;
    hide *;
    EmptyLastValueKeyAt(b, key, m);
    KeyMatchAtRunEnd(b, key, m, m);
    forall p | 0 <= p < m ensures KeyMatch(b, key, p).None? {
      NoKeyMatchInFirstLine(b, line, key, p);
    }
    FirstMatchFound(b, key, m, KeyHit(m, m, |b|));
  }

  /**
   * Empty value on the body's last line: the match takes the body's final
   * newline with it, so the rewritten body no longer ends in '\n' and
   * whatever follows the body in the file (the next section's header) is
   * joined to `key=value`.
   */
  lemma EmptyLastValueTakesFinalNewline(line: string, key: string, value: string)
    requires |key| > 0 && !IsSpace(key[0]) && key[0] !in line
    requires |line| > 0 && !IsSpace(line[0]) && '\n' !in line
    ensures Upsert("\n" + line + "\n" + key + "=\n", key, value) == "\n" + line + "\n" + KeyLine(key, value)
  {
    var b := "\n" + line + "\n" + key + "=\n";
    var m := |line| + 2;
    hide *;
    EmptyLastValueLayout(line, key);
    EmptyLastValueKeyMatch(line, key);
    UpsertAtHit(b, key, value, KeyHit(m, m, |b|));
    assert b[|b|..] == [];
  }

  /** Every character of s is a newline: a run of empty lines. */
  predicate AllNewlines(s: string) {
    forall i :: 0 <= i < |s| ==> s[i] == '\n'
  }

  /** Where the pieces of '\n' + line + '\n' + blanks + kl + '\n' sit. */
  lemma BlankLinesLayout(line: string, blanks: string, kl: string)
    ensures var b := "\n" + line + "\n" + blanks + kl + "\n";
      var m := |line| + 2;
      var k := m + |blanks|;
      |b| == k + |kl| + 1 && b[0] == '\n' && StartsAt(b, 1, line) && b[m - 1] == '\n'
      && StartsAt(b, m, blanks) && StartsAt(b, k, kl) && b[k + |kl|] == '\n'
      && b[..m] == "\n" + line + "\n" && b[k + |kl|..] == "\n" && AtLineEnd(b, k + |kl|)
  {
    var b := "\n" + line + "\n" + blanks + kl + "\n";
    var m := |line| + 2;
    var k := m + |blanks|;
    assert b[1..m - 1] == line;
    assert b[m..k] == blanks;
    assert b[k..k + |kl|] == kl;
    assert b[..m] == "\n" + line + "\n";
  }

  /** A greedy `\s*` from m runs over the empty lines to the first visible character after them. */
  lemma BlankRunEnd(b: string, m: nat, blanks: string)
    requires StartsAt(b, m, blanks) && AllNewlines(blanks)
    requires m + |blanks| < |b| && !IsSpace(b[m + |blanks|])
    ensures SpaceRunEnd(b, m) == m + |blanks|
  {
    var k := m + |blanks|;
    forall i | m <= i < k ensures IsSpace(b[i]) {
      assert b[i] == b[m..k][i - m];
    }
    assert AllSpace(b, m, k);
    var r := SpaceRunEnd(b, m);
    assert !(r < k) && !(k < r);
  }

  /** In '\n' + line + '\n' + ..., the key's first character does not occur before offset m when line lacks it. */
  lemma KeyCharNotInFirstLine(b: string, line: string, c: char, q: nat)
    requires !IsSpace(c) && c !in line
    requires |line| + 2 <= |b| && b[0] == '\n' && StartsAt(b, 1, line) && b[|line| + 1] == '\n'
    ensures q < |line| + 2 ==> b[q] != c
  {
    assert IsSpace('\n');
    if 0 < q < |line| + 1 {
      assert b[q] == b[1..1 + |line|][q - 1];
      assert line[q - 1] in line;
    }
  }

  /** Inside the first line there is no line start other than its own. */
  lemma LineStartsInFirstLine(b: string, line: string, p: nat)
    requires '\n' !in line && StartsAt(b, 1, line)
    ensures 2 <= p < |line| + 2 ==> !LineStart(b, p)
  {
    if 2 <= p < |line| + 2 {
      assert b[p - 1] == b[1..1 + |line|][p - 2];
      assert line[p - 2] in line;
    }
  }

  /** The key pattern matches nowhere before the line that follows the first line. */
  lemma NoKeyMatchInFirstLine(b: string, line: string, key: string, p: nat)
    requires |key| > 0 && !IsSpace(key[0]) && key[0] !in line
    requires |line| > 0 && !IsSpace(line[0]) && '\n' !in line
    requires |line| + 2 <= |b| && b[0] == '\n' && StartsAt(b, 1, line) && b[|line| + 1] == '\n'
    requires p < |line| + 2
    ensures KeyMatch(b, key, p).None?
  {
    assert b[1] == line[0] by {
      assert b[1] == b[1..1 + |line|][0];
    }
    KeyHitAnchor(b, key, p);
    LineStartsInFirstLine(b, line, p);
    var q := if KeyMatch(b, key, p).Some? then KeyMatch(b, key, p).value.key else 0;
    KeyCharNotInFirstLine(b, line, key[0], q);
  }

  /** At a line start whose whitespace run ends where the key is, the key pattern takes the longest run. */
  lemma KeyMatchAtRunEnd(b: string, key: string, m: nat, k: nat)
    requires LineStart(b, m) && m <= |b| && SpaceRunEnd(b, m) == k && KeyAt(b, key, k)
    ensures KeyMatch(b, key, m) == Some(KeyHit(m, k, KeyEnd(b, key, k)))
  {
  }

  /** re.search returns the match at m when the pattern matches at no earlier offset. */
  lemma FirstMatchFound(b: string, key: string, m: nat, h: KeyHit)
    requires KeyMatch(b, key, m) == Some(h)
    requires forall p :: 0 <= p < m ==> KeyMatch(b, key, p).None?
    ensures FindKey(b, key) == Some(h)
  {
    hide *;
    var r := FindKey(b, key);
    assert r.Some?;
    assert r.value.start == m by {
      assert !(r.value.start < m) && !(m < r.value.start);
    }
  }

  /** At the line start m, the key pattern's `\s*` runs over the empty lines to a key line. */
  lemma KeyMatchOverBlanks(b: string, m: nat, blanks: string, key: string, before: string)
    requires |key| > 0 && !IsSpace(key[0]) && AllNewlines(blanks)
    requires '\n' !in before && HasVisibleChar(before)
    requires 0 < m <= |b| && b[m - 1] == '\n' && StartsAt(b, m, blanks)
    requires StartsAt(b, m + |blanks|, KeyLine(key, before))
    requires AtLineEnd(b, m + |blanks| + |KeyLine(key, before)|)
    ensures KeyMatch(b, key, m) == Some(KeyHit(m, m + |blanks|, m + |blanks| + |KeyLine(key, before)|))
  {
    var kl := KeyLine(key, before);
    var k := m + |blanks|;
    assert b[k] == key[0] by {
      assert b[k] == b[k..k + |kl|][0];
    }
    assert LineStart(b, m);
    hide *;
    BlankRunEnd(b, m, blanks);
    PlainKeyLineEnd(b, key, before, k);
    KeyMatchAtRunEnd(b, key, m, k);
  }

  /** The leftmost key match starts at the line after the first line and takes its key after the empty lines. */
  lemma FindKeyAfterBlanks(b: string, line: string, blanks: string, key: string, before: string)
    requires |key| > 0 && !IsSpace(key[0]) && key[0] !in line
    requires |line| > 0 && !IsSpace(line[0]) && '\n' !in line
    requires AllNewlines(blanks)
    requires '\n' !in before && HasVisibleChar(before)
    requires |line| + 2 <= |b| && b[0] == '\n' && StartsAt(b, 1, line) && b[|line| + 1] == '\n'
    requires StartsAt(b, |line| + 2, blanks)
    requires StartsAt(b, |line| + 2 + |blanks|, KeyLine(key, before))
    requires AtLineEnd(b, |line| + 2 + |blanks| + |KeyLine(key, before)|)
    ensures FindKey(b, key) == Some(KeyHit(|line| + 2, |line| + 2 + |blanks|, |line| + 2 + |blanks| + |KeyLine(key, before)|))
  {
    var m := |line| + 2;
    hide *;
    KeyMatchOverBlanks(b, m, blanks, key, before);
    forall p | 0 <= p < m ensures KeyMatch(b, key, p).None? {
      NoKeyMatchInFirstLine(b, line, key, p);
    }
    FirstMatchFound(b, key, m, KeyHit(m, m + |blanks|, m + |blanks| + |KeyLine(key, before)|));
  }

  /**
   * Blank lines eaten: the empty lines just above a key line belong to its
   * match (the leading `\s*` starts at the line start after the last
   * non-blank line), so the rewrite removes them.
   */
  lemma BlankLinesBeforeKeyEaten(line: string, blanks: string, key: string, before: string, value: string)
    requires |key| > 0 && !IsSpace(key[0]) && key[0] !in line
    requires |line| > 0 && !IsSpace(line[0]) && '\n' !in line
    requires AllNewlines(blanks)
    requires '\n' !in before && HasVisibleChar(before)
    ensures Upsert("\n" + line + "\n" + blanks + KeyLine(key, before) + "\n", key, value)
      == "\n" + line + "\n" + KeyLine(key, value) + "\n"
  {
    var kl := KeyLine(key, before);
    var b := "\n" + line + "\n" + blanks + kl + "\n";
    var m := |line| + 2;
    var k := m + |blanks|;
    hide *;
    BlankLinesLayout(line, blanks, kl);
    FindKeyAfterBlanks(b, line, blanks, key, before);
    UpsertAtHit(b, key, value, KeyHit(m, k, k + |kl|));
  }

  /** Blanks around `=`: spaces and tabs only. */
  predicate Blanks(s: string) {
    forall i :: 0 <= i < |s| ==> s[i] == ' ' || s[i] == '\t'
  }

  /** A key line written with blanks around `=`, such as `WaylandEnable = true`. */
  function SpacedKeyLine(key: string, gap1: string, gap2: string, v: string): string {
    key + gap1 + "=" + gap2 + v
  }

  /** A greedy `\s*` from i runs over the blanks to the character after them. */
  lemma BlanksRunEnd(b: string, i: nat, gap: string)
    requires StartsAt(b, i, gap) && Blanks(gap)
    requires i + |gap| < |b| && !IsSpace(b[i + |gap|])
    ensures SpaceRunEnd(b, i) == i + |gap|
  {
    var k := i + |gap|;
    forall t | i <= t < k ensures IsSpace(b[t]) {
      assert b[t] == b[i..k][t - i];
    }
    assert AllSpace(b, i, k);
    var r := SpaceRunEnd(b, i);
    assert !(r < k) && !(k < r);
  }

  /** Where the pieces of a spaced key line at j sit. */
  lemma SpacedKeyLinePieces(b: string, key: string, gap1: string, gap2: string, v: string, j: nat)
    requires StartsAt(b, j, SpacedKeyLine(key, gap1, gap2, v))
    ensures var q := j + |key| + |gap1|;
      StartsAt(b, j, key) && StartsAt(b, j + |key|, gap1) && b[q] == '='
      && StartsAt(b, q + 1, gap2) && StartsAt(b, q + 1 + |gap2|, v)
  {
    var q := j + |key| + |gap1|;
    StartsAtSplit(b, j, key + gap1 + "=" + gap2, v);
    StartsAtSplit(b, j, key + gap1 + "=", gap2);
    StartsAtSplit(b, j, key + gap1, "=");
    StartsAtSplit(b, j, key, gap1);
    assert b[q] == b[q..q + 1][0];
  }

  /** The spaced key line holds no newline when its key and value hold none. */
  lemma SpacedKeyLineOneLine(key: string, gap1: string, gap2: string, v: string)
    requires '\n' !in key && Blanks(gap1) && Blanks(gap2) && '\n' !in v
    ensures '\n' !in SpacedKeyLine(key, gap1, gap2, v)
  {
    assert '\n' !in gap1 && '\n' !in gap2;
  }

  /** The first character of a text placed at i. */
  lemma FirstCharAt(b: string, i: nat, t: string)
    requires StartsAt(b, i, t) && |t| > 0
    ensures i < |b| && b[i] == t[0]
  {
    assert b[i] == b[i..i + |t|][0];
  }

  /** Blanks between the key and `=`: the key pattern's `\s*=` holds after the key. */
  lemma SpacedKeyFound(b: string, key: string, gap1: string, j: nat)
    requires StartsAt(b, j, key) && StartsAt(b, j + |key|, gap1) && Blanks(gap1)
    requires j + |key| + |gap1| < |b| && b[j + |key| + |gap1|] == '='
    ensures KeyAt(b, key, j) && SpaceRunEnd(b, j + |key|) == j + |key| + |gap1|
  {
    BlanksRunEnd(b, j + |key|, gap1);
    assert EqualsAfterSpaces(b, j + |key|);
    AfterKeyIffEqualsAfterSpaces(b, j + |key|);
  }

  /** A one-line spaced key line with a visible value is matched from its key to its own line end. */
  lemma SpacedKeyAt(b: string, key: string, gap1: string, gap2: string, v: string, j: nat)
    requires '\n' !in key && Blanks(gap1) && Blanks(gap2)
    requires |v| > 0 && !IsSpace(v[0]) && '\n' !in v
    requires StartsAt(b, j, SpacedKeyLine(key, gap1, gap2, v))
    requires AtLineEnd(b, j + |SpacedKeyLine(key, gap1, gap2, v)|)
    ensures KeyAt(b, key, j) && KeyEnd(b, key, j) == j + |SpacedKeyLine(key, gap1, gap2, v)|
  {
    var kl := SpacedKeyLine(key, gap1, gap2, v);
    var e := j + |kl|;
    var q := j + |key| + |gap1|;
    var x := q + 1 + |gap2|;
    assert e <= |b|;
    hide *;
    SpacedKeyLinePieces(b, key, gap1, gap2, v, j);
    FirstCharAt(b, x, v);
    SpacedKeyFound(b, key, gap1, j);
    SpacedKeyLineOneLine(key, gap1, gap2, v);
    NoNewlineAt(b, j, kl);
    KeyEndAtKeyLineEnd(b, key, j, x);
    NextLineEndAt(b, j, e);
  }

  /** A text placed at m starts with whatever that text starts with. */
  lemma StartsAtKeyOfLine(b: string, m: nat, kl: string, key: string)
    requires StartsAt(b, m, kl) && StartsAt(kl, 0, key)
    ensures StartsAt(b, m, key)
  {
    assert b[m..m + |key|] == b[m..m + |kl|][..|key|];
  }

  /** Where the pieces of '\n' + line + '\n' + kl + rest sit. */
  lemma SecondLineLayout(line: string, kl: string, rest: string)
    ensures var b := "\n" + line + "\n" + kl + rest;
      var m := |line| + 2;
      |b| == m + |kl| + |rest| && b[0] == '\n' && StartsAt(b, 1, line) && b[m - 1] == '\n'
      && StartsAt(b, m, kl) && b[..m] == "\n" + line + "\n" && b[m + |kl|..] == rest
  {
    var b := "\n" + line + "\n" + kl + rest;
    var m := |line| + 2;
    assert b[1..m - 1] == line;
    assert b[m..m + |kl|] == kl;
    assert b[..m] == "\n" + line + "\n";
    assert b[m + |kl|..] == rest;
  }

  /**
   * Whitespace tolerance: a key line written with blanks around `=` and a
   * visible value, such as `WaylandEnable = true`, is replaced by
   * `key=value`, and nothing before or after that line changes.
   */
  lemma SpacedKeyLineReplaced(line: string, key: string, gap1: string, gap2: string, v: string, rest: string, value: string)
    requires |key| > 0 && !IsSpace(key[0]) && key[0] !in line && '\n' !in key
    requires |line| > 0 && !IsSpace(line[0]) && '\n' !in line
    requires Blanks(gap1) && Blanks(gap2) && |v| > 0 && !IsSpace(v[0]) && '\n' !in v
    requires |rest| == 0 || rest[0] == '\n'
    ensures Upsert("\n" + line + "\n" + SpacedKeyLine(key, gap1, gap2, v) + rest, key, value)
      == "\n" + line + "\n" + KeyLine(key, value) + rest
  {
    var kl := SpacedKeyLine(key, gap1, gap2, v);
    var b := "\n" + line + "\n" + kl + rest;
    var m := |line| + 2;
    var e := m + |kl|;
    assert StartsAt(kl, 0, key);
    hide *;
    SecondLineLayout(line, kl, rest);
    LineEndBeforeRest(b, e, rest);
    StartsAtKeyOfLine(b, m, kl, key);
    KeyOnSecondLine(b, line, key);
    SpacedKeyAt(b, key, gap1, gap2, v, m);
    KeyMatchAtRunEnd(b, key, m, m);
    SecondLineMatchFound(b, line, key, KeyHit(m, m, e));
    UpsertAtHit(b, key, value, KeyHit(m, m, e));
  }
}
