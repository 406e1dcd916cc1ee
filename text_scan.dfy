/**
 * Character classes, anchors and left-to-right scans that the three regular
 * expressions of the configuration patcher are built from.
 *
 * Python's `re` module, for `str` patterns compiled with re.MULTILINE:
 *  - `\s` matches exactly the characters for which str.isspace() holds;
 *  - `^` holds at offset 0 and just after every '\n';
 *  - `$` holds at the end of the text and just before every '\n';
 *  - `.` matches every character except '\n'.
 */
module TextScan {
  import opened Wrappers

  /** Python's `\s` on str patterns (Unicode whitespace, '\n' included). */
  predicate IsSpace(c: char) {
    var n := c as int;
    (0x09 <= n <= 0x0D) || (0x1C <= n <= 0x20) || n == 0x85 || n == 0xA0 || n == 0x1680
    || (0x2000 <= n <= 0x200A) || n == 0x2028 || n == 0x2029 || n == 0x202F || n == 0x205F
    || n == 0x3000
  }

  /** `^` under re.MULTILINE holds at offset p. */
  predicate LineStart(s: string, p: nat) {
    p <= |s| && (p == 0 || s[p - 1] == '\n')
  }

  /** `$` under re.MULTILINE holds at offset e. */
  predicate AtLineEnd(s: string, e: nat) {
    e <= |s| && (e == |s| || s[e] == '\n')
  }

  /** Every character of s[i..j] is whitespace. */
  predicate AllSpace(s: string, i: nat, j: nat)
    requires i <= j <= |s|
  {
    forall k {:trigger IsSpace(s[k])} :: i <= k < j ==> IsSpace(s[k])
  }

  /** No character of s[i..j] is a newline. */
  predicate NoNewline(s: string, i: nat, j: nat)
    requires i <= j <= |s|
  {
    forall k :: i <= k < j ==> s[k] != '\n'
  }

  /** t occurs in s at offset i. */
  predicate StartsAt(s: string, i: nat, t: string) {
    i + |t| <= |s| && s[i..i + |t|] == t
  }

  /** The end of the longest run of whitespace starting at i (what a greedy `\s*` takes). */
  function SpaceRunEnd(s: string, i: nat): (r: nat)
    requires i <= |s|
    ensures i <= r <= |s| && AllSpace(s, i, r)
    ensures r < |s| ==> !IsSpace(s[r])
    ensures forall e :: r < e <= |s| ==> !AllSpace(s, i, e)
    decreases |s| - i
  {
    if i == |s| || !IsSpace(s[i]) then i else SpaceRunEnd(s, i + 1)
  }

  /** The first offset at or after i where `$` holds (what a greedy `.*` followed by `$` reaches). */
  function NextLineEnd(s: string, i: nat): (r: nat)
    requires i <= |s|
    ensures i <= r <= |s| && AtLineEnd(s, r) && NoNewline(s, i, r)
    decreases |s| - i
  {
    if i == |s| || s[i] == '\n' then i else NextLineEnd(s, i + 1)
  }

  /** The last newline in s[i..j], if there is one. */
  function LastNewline(s: string, i: nat, j: nat): (r: Option<nat>)
    requires i <= j <= |s|
    ensures r.Some? ==> i <= r.value < j && s[r.value] == '\n' && NoNewline(s, r.value + 1, j)
    ensures r.None? ==> NoNewline(s, i, j)
    decreases j
  {
    if j <= i then None
    else if s[j - 1] == '\n' then Some(j - 1)
    else LastNewline(s, i, j - 1)
  }

  /**
   * `\s*$` tried at q: the greedy `\s*` takes the whole whitespace run and gives
   * characters back until `$` holds, so the match ends at the LARGEST e such that
   * s[q..e] is whitespace and `$` holds at e; None when there is no such e.
   */
  function SpacesToLineEnd(s: string, q: nat): (r: Option<nat>)
    requires q <= |s|
    ensures r.Some? ==> q <= r.value <= |s| && AllSpace(s, q, r.value) && AtLineEnd(s, r.value)
    ensures r.Some? ==>
      forall e :: r.value < e <= |s| && AllSpace(s, q, e) ==> !AtLineEnd(s, e)
    ensures r.None? ==>
      forall e :: q <= e <= |s| && AllSpace(s, q, e) ==> !AtLineEnd(s, e)
  {
    var run := SpaceRunEnd(s, q);
    if run == |s| then Some(run)
    else
      LastNewline(s, q, run)
  }

  /**
   * The whole-line reading of `\s*$`: it matches at q exactly when the rest of
   * q's line (up to the next '\n' or the end of the text) is whitespace.
   */
  lemma {:induction false} SpacesToLineEndIffBlankRest(s: string, q: nat)
    requires q <= |s|
    ensures SpacesToLineEnd(s, q).Some? <==> AllSpace(s, q, NextLineEnd(s, q))
  {
    var n := NextLineEnd(s, q);
    if AllSpace(s, q, n) {
      assert AtLineEnd(s, n);
    } else {
      var k :| q <= k < n && !IsSpace(s[k]);
      forall e | q <= e <= |s| && AllSpace(s, q, e) ensures !AtLineEnd(s, e) {
      }
    }
  }

  /** A greedy `.*` from y stops at z when s[y..z] holds no newline and `$` holds at z. */
  lemma {:induction false} NextLineEndAt(s: string, y: nat, z: nat)
    requires y <= z <= |s| && NoNewline(s, y, z) && AtLineEnd(s, z)
    ensures NextLineEnd(s, y) == z
    decreases z - y
  {
    if y < z {
      NextLineEndAt(s, y + 1, z);
    }
  }

  /** `.*$` reaches the same line end from every offset of a stretch that holds no newline. */
  lemma {:induction false} NextLineEndSkip(s: string, y: nat, z: nat)
    requires y <= z <= |s| && NoNewline(s, y, z)
    ensures NextLineEnd(s, y) == NextLineEnd(s, z)
    decreases z - y
  {
    if y < z {
      NextLineEndSkip(s, y + 1, z);
    }
  }

  /** A line start cannot fall strictly inside a stretch of text that holds no newline. */
  lemma LineStartOutside(s: string, p: nat, i: nat, j: nat)
    requires LineStart(s, p) && i <= j <= |s| && NoNewline(s, i, j)
    ensures p <= i || j < p
  {
    assert p == 0 || s[p - 1] == '\n';
  }
}
