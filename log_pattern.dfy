/**
 * The log-line pattern `in\s+([\d\.]+)\s+seconds` and `re.search` over it,
 * written out: `MatchAt` is the matcher at one start position, `PatternAt`
 * the declarative reading of the pattern, and `Search` the leftmost match.
 * There is no word boundary before "in", so "within 3 seconds" matches too.
 * Only ASCII digits stand for `\d`.
 */
module LogPattern {
  import opened Wrappers
  import opened Text

  /** The two character classes the pattern repeats. */
  datatype CharClass = Space | Number

  predicate InClass(c: char, cl: CharClass)
  {
    match cl
    case Space => IsSpace(c)
    case Number => IsDigit(c) || c == '.'
  }

  /** Every character of `s[lo..hi]` is in class `cl`. */
  predicate AllIn(s: string, lo: int, hi: int, cl: CharClass)
    requires 0 <= lo <= hi <= |s|
  {
    forall k :: lo <= k < hi ==> InClass(s[k], cl)
  }

  /** The end of the longest run of class `cl` starting at `i` (a greedy `+` or `*`). */
  function RunEnd(s: string, i: nat, cl: CharClass): (j: nat)
    requires i <= |s|
    ensures i <= j <= |s| && AllIn(s, i, j, cl)
    ensures j < |s| ==> !InClass(s[j], cl)
    decreases |s| - i
  {
    if i < |s| && InClass(s[i], cl) then RunEnd(s, i + 1, cl) else i
  }

  /** A run of class `cl` from `lo` to `hi` that the next character ends is the greedy run. */
  lemma RunEndIs(s: string, lo: nat, hi: nat, cl: CharClass)
    requires lo <= hi <= |s| && AllIn(s, lo, hi, cl)
    requires hi < |s| && !InClass(s[hi], cl)
    ensures RunEnd(s, lo, cl) == hi
  {
  }

  /**
   * The pattern matches at `i`, with the whitespace runs `s[i+2..a]` and
   * `s[b..c]`, the captured group `s[a..b]`, and "seconds" at `c`.
   */
  ghost predicate PatternAt(s: string, i: int, a: int, b: int, c: int)
  {
    0 <= i && i + 2 < a < b < c && c + 7 <= |s|
    && s[i..i + 2] == "in"
    && AllIn(s, i + 2, a, Space)
    && AllIn(s, a, b, Number)
    && AllIn(s, b, c, Space)
    && s[c..c + 7] == "seconds"
  }

  /** The captured group of a match starting at `i`, if the pattern matches there. */
  function MatchAt(s: string, i: nat): Option<string>
    requires i <= |s|
  {
    if !(i + 2 <= |s| && s[i..i + 2] == "in") then None
    else
      var a := RunEnd(s, i + 2, Space);
      var b := RunEnd(s, a, Number);
      var c := RunEnd(s, b, Space);
      if a == i + 2 || b == a || c == b then None
      else if c + 7 <= |s| && s[c..c + 7] == "seconds" then Some(s[a..b])
      else None
  }

  /**
   * The matcher agrees with the pattern: it reports a group exactly when the
   * pattern matches at `i`, and the group it reports is the only possible one.
   */
  lemma MatchAtIff(s: string, i: nat, t: string)
    requires i <= |s|
    ensures MatchAt(s, i) == Some(t) <==> exists a, b, c :: PatternAt(s, i, a, b, c) && t == s[a..b]
  {
    if MatchAt(s, i) == Some(t) {
      var a := RunEnd(s, i + 2, Space);
      var b := RunEnd(s, a, Number);
      var c := RunEnd(s, b, Space);
      assert PatternAt(s, i, a, b, c);
    }
    if exists a, b, c :: PatternAt(s, i, a, b, c) && t == s[a..b] {
      var a, b, c :| PatternAt(s, i, a, b, c) && t == s[a..b];
      PatternDeterminesMatch(s, i, a, b, c);
    }
  }

  lemma PatternDeterminesMatch(s: string, i: nat, a: int, b: int, c: int)
    requires PatternAt(s, i, a, b, c)
    ensures MatchAt(s, i) == Some(s[a..b])
  {
    assert s[c] == 's';
    RunEndIs(s, i + 2, a, Space);
    RunEndIs(s, a, b, Number);
    RunEndIs(s, b, c, Space);
  }

  /** A match: where it starts and the group it captured. */
  datatype Hit = Hit(start: nat, group: string)

  /** `re.search` from position `i`: the first position at or after `i` where the pattern matches. */
  function SearchFrom(s: string, i: nat): (r: Option<Hit>)
    requires i <= |s|
    ensures r.Some? ==> i <= r.value.start <= |s| && MatchAt(s, r.value.start) == Some(r.value.group)
    ensures forall j :: i <= j <= |s| && (r.None? || j < r.value.start) ==> MatchAt(s, j).None?
    decreases |s| - i
  {
    match MatchAt(s, i)
    case Some(t) => Some(Hit(i, t))
    case None => if i == |s| then None else SearchFrom(s, i + 1)
  }

  function Search(s: string): Option<Hit>
  {
    SearchFrom(s, 0)
  }

  /** No match of the pattern starts before `i`. */
  ghost predicate NoPatternBefore(s: string, i: int)
  {
    forall j, a, b, c :: 0 <= j < i ==> !PatternAt(s, j, a, b, c)
  }

  /**
   * `Search` finds a group `t` exactly when the pattern matches with group `t`
   * at some position and at no earlier one: the leftmost match.
   */
  lemma SearchIff(s: string, t: string)
    ensures (Search(s).Some? && Search(s).value.group == t)
        <==> exists i, a, b, c :: PatternAt(s, i, a, b, c) && t == s[a..b] && NoPatternBefore(s, i)
  {
    var r := Search(s);
    if r.Some? && r.value.group == t {
      SearchIsLeftmost(s, r.value);
    }
    if exists i, a, b, c :: PatternAt(s, i, a, b, c) && t == s[a..b] && NoPatternBefore(s, i) {
      var i, a, b, c :| PatternAt(s, i, a, b, c) && t == s[a..b] && NoPatternBefore(s, i);
      LeftmostIsFound(s, i, a, b, c);
    }
  }

  /** What `Search` finds is a match with no match before it. */
  lemma SearchIsLeftmost(s: string, h: Hit)
    requires Search(s) == Some(h)
    ensures exists a, b, c :: PatternAt(s, h.start, a, b, c) && h.group == s[a..b]
    ensures NoPatternBefore(s, h.start)
  {
    MatchAtIff(s, h.start, h.group);
    forall j, a', b', c' | 0 <= j < h.start ensures !PatternAt(s, j, a', b', c') {
      if PatternAt(s, j, a', b', c') {
        PatternDeterminesMatch(s, j, a', b', c');
      }
    }
  }

  /** A match with no match before it is what `Search` finds. */
  lemma LeftmostIsFound(s: string, i: int, a: int, b: int, c: int)
    requires PatternAt(s, i, a, b, c) && NoPatternBefore(s, i)
    ensures Search(s) == Some(Hit(i, s[a..b]))
  {
    PatternDeterminesMatch(s, i, a, b, c);
    var r := Search(s);
    if r.Some? && r.value.start < i {
      var t' := r.value.group;
      MatchAtIff(s, r.value.start, t');
    }
  }

  /** `Search` finds nothing exactly when the pattern matches nowhere. */
  lemma SearchNoneIff(s: string)
    ensures Search(s).None? <==> forall i, a, b, c :: !PatternAt(s, i, a, b, c)
  {
    if Search(s).None? {
      forall i, a, b, c ensures !PatternAt(s, i, a, b, c) {
        if PatternAt(s, i, a, b, c) {
          PatternDeterminesMatch(s, i, a, b, c);
        }
      }
    } else {
      var h := Search(s).value;
      MatchAtIff(s, h.start, h.group);
    }
  }

  /** "within" ends in "in": the line "done within 3 seconds" yields "3". */
  lemma NoWordBoundary()
    ensures Search("done within 3 seconds") == Some(Hit(9, "3"))
  {
    WithinLine("done within 3 seconds");
  }

  lemma WithinLine(s: string)
    requires s == "done within 3 seconds"
    ensures Search(s) == Some(Hit(9, "3"))
  {
    WithinLineMatch(s);
    NothingBeforeWithin(s);
    LeftmostIsFound(s, 9, 12, 13, 14);
  }

  lemma WithinLineMatch(s: string)
    requires s == "done within 3 seconds"
    ensures PatternAt(s, 9, 12, 13, 14) && s[12..13] == "3"
  {
  }

  lemma NothingBeforeWithin(s: string)
    requires s == "done within 3 seconds"
    ensures NoPatternBefore(s, 9)
  {
    forall j, a, b, c | 0 <= j < 9 ensures !PatternAt(s, j, a, b, c) {
      assert s[j] != 'i' || s[j + 1] != 'n';
    }
  }
}
