/**
 * The Python string operations the log parser relies on, over `seq<char>`:
 * character classes, ASCII case mapping, `in`, `str.replace`, `str.title`
 * and `os.path.basename`.
 */
module Text {
  /** `str.isspace`, which is also what `\s` matches in a `str` pattern. */
  predicate IsSpace(c: char)
  {
    c == ' ' || ('\t' <= c <= '\r') || ('\U{1c}' <= c <= '\U{1f}')
    || c == '\U{85}' || c == '\U{a0}' || c == '\U{1680}'
    || ('\U{2000}' <= c <= '\U{200a}') || c == '\U{2028}' || c == '\U{2029}'
    || c == '\U{202f}' || c == '\U{205f}' || c == '\U{3000}'
  }

  predicate IsDigit(c: char) { '0' <= c <= '9' }
  predicate IsUpper(c: char) { 'A' <= c <= 'Z' }
  predicate IsLower(c: char) { 'a' <= c <= 'z' }
  predicate IsLetter(c: char) { IsUpper(c) || IsLower(c) }

  /** `str.lower` on one character: a capital becomes its small letter, anything else is kept. */
  function LowerChar(c: char): (r: char)
    ensures IsLetter(r) <==> IsLetter(c)
    ensures !IsUpper(r)
    ensures IsUpper(c) ==> IsLower(r) && UpperChar(r) == c
    ensures !IsUpper(c) ==> r == c
  {
    if IsUpper(c) then (c as int - 'A' as int + 'a' as int) as char else c
  }

  /** `str.upper` on one character: a small letter becomes the capital at the same place in the alphabet. */
  function UpperChar(c: char): (r: char)
    ensures IsLetter(r) <==> IsLetter(c)
    ensures !IsLower(r)
    ensures IsLower(c) ==> IsUpper(r) && r as int - 'A' as int == c as int - 'a' as int
    ensures !IsLower(c) ==> r == c
  {
    if IsLower(c) then (c as int - 'a' as int + 'A' as int) as char else c
  }

  /** `str.lower` on ASCII letters; every other character is kept. */
  function Lower(s: string): (r: string)
    ensures |r| == |s|
    ensures forall k :: 0 <= k < |s| ==> r[k] == LowerChar(s[k])
  {
    if s == [] then [] else [LowerChar(s[0])] + Lower(s[1..])
  }

  /** `p` occurs in `s` starting at index `i`. */
  predicate OccursAt(s: string, p: string, i: int)
  {
    0 <= i && i + |p| <= |s| && s[i..i + |p|] == p
  }

  /** Python's `p in s` for strings. */
  predicate Contains(s: string, p: string)
  {
    exists i :: 0 <= i <= |s| && OccursAt(s, p, i)
  }

  /** A string without the pattern's first character holds no occurrence of it. */
  lemma FirstCharAbsent(s: string, pat: string)
    requires |pat| > 0 && pat[0] !in s
    ensures !Contains(s, pat)
  {
    forall i | 0 <= i <= |s| && i + |pat| <= |s| ensures !OccursAt(s, pat, i) {
      assert s[i..i + |pat|][0] == s[i];
    }
  }

  /** A string missing any one character of the pattern holds no occurrence of it. */
  lemma CharAbsent(s: string, pat: string, k: nat)
    requires k < |pat| && pat[k] !in s
    ensures !Contains(s, pat)
  {
    forall i | 0 <= i <= |s| && i + |pat| <= |s| ensures !OccursAt(s, pat, i) {
      assert s[i..i + |pat|][k] == s[i + k];
    }
  }

  /** Lower-casing a string without capitals changes nothing. */
  lemma LowerWithoutCapitals(s: string)
    requires forall k :: 0 <= k < |s| ==> !IsUpper(s[k])
    ensures Lower(s) == s
  {
  }

  /**
   * `s.replace(pat, rep)`: one left-to-right pass that replaces each
   * non-overlapping occurrence of `pat`; the text it produces is not scanned again.
   */
  function ReplaceAll(s: string, pat: string, rep: string): string
    requires |pat| > 0
    decreases |s|
  {
    if |s| < |pat| then s
    else if s[..|pat|] == pat then rep + ReplaceAll(s[|pat|..], pat, rep)
    else [s[0]] + ReplaceAll(s[1..], pat, rep)
  }

  /** A string without an occurrence of the pattern is left as it is. */
  lemma {:induction false} ReplaceAllAbsent(s: string, pat: string, rep: string)
    requires |pat| > 0 && !Contains(s, pat)
    ensures ReplaceAll(s, pat, rep) == s
    decreases |s|
  {
    if |s| >= |pat| {
      assert !OccursAt(s, pat, 0);
      if !Contains(s[1..], pat) {
        ReplaceAllAbsent(s[1..], pat, rep);
      } else {
        var i :| 0 <= i <= |s[1..]| && OccursAt(s[1..], pat, i);
        assert s[1..][i..i + |pat|] == s[i + 1..i + 1 + |pat|];
        assert OccursAt(s, pat, i + 1);
      }
    }
  }

  /**
   * Every occurrence is replaced, not only the last: when `a` holds no
   * occurrence and the pattern's first character does not recur inside it,
   * the occurrence after `a` is replaced and the scan carries on after it.
   */
  lemma {:induction false} ReplaceAllSplit(a: string, pat: string, rep: string, c: string)
    requires |pat| > 0 && pat[0] !in pat[1..]
    requires !Contains(a, pat)
    ensures ReplaceAll(a + pat + c, pat, rep) == a + rep + ReplaceAll(c, pat, rep)
    decreases |a|
  {
    var s := a + pat + c;
    if a == [] {
      assert s[..|pat|] == pat;
      assert s[|pat|..] == c;
    } else {
      NoOccurrenceAtStart(a, pat, c);
      ContainsTail(a, pat);
      ReplaceAllSplit(a[1..], pat, rep, c);
      assert s[1..] == a[1..] + pat + c;
      calc {
        ReplaceAll(s, pat, rep);
        [s[0]] + ReplaceAll(s[1..], pat, rep);
        [a[0]] + (a[1..] + rep + ReplaceAll(c, pat, rep));
        { assert [a[0]] + a[1..] == a; }
        a + rep + ReplaceAll(c, pat, rep);
      }
    }
  }

  lemma ContainsTail(a: string, pat: string)
    requires a != []
    ensures Contains(a[1..], pat) ==> Contains(a, pat)
  {
    if Contains(a[1..], pat) {
        var i :| 0 <= i <= |a[1..]| && OccursAt(a[1..], pat, i);
      assert a[1..][i..i + |pat|] == a[i + 1..i + 1 + |pat|];
      assert OccursAt(a, pat, i + 1);
    }
  }

  lemma NoOccurrenceAtStart(a: string, pat: string, c: string)
    requires |pat| > 0 && pat[0] !in pat[1..]
    requires a != [] && !Contains(a, pat)
    ensures |a + pat + c| >= |pat| && (a + pat + c)[..|pat|] != pat
  {
    var s := a + pat + c;
    if |a| >= |pat| {
      assert s[..|pat|] == a[..|pat|];
      assert !OccursAt(a, pat, 0);
    } else {
      var j := |a|;
      assert s[j] == pat[0];
      assert pat[1..][j - 1] == pat[j];
      assert s[..|pat|][j] != pat[j];
    }
  }

  /** Replacing one character by another maps the string character by character. */
  lemma {:induction false} ReplaceCharAt(s: string, x: char, y: char)
    ensures |ReplaceAll(s, [x], [y])| == |s|
    ensures forall k :: 0 <= k < |s| ==> ReplaceAll(s, [x], [y])[k] == if s[k] == x then y else s[k]
  {
    if s != [] {
      ReplaceCharAt(s[1..], x, y);
    }
  }

  /**
   * `str.title` restricted to ASCII: a letter after a letter becomes lower
   * case, any other letter upper case; other characters are kept and count as
   * uncased. `prevCased` says whether the previous output character is cased.
   */
  function TitleFrom(s: string, prevCased: bool): (r: string)
    ensures |r| == |s|
  {
    if s == [] then []
    else
      var c := if prevCased then LowerChar(s[0]) else UpperChar(s[0]);
      [c] + TitleFrom(s[1..], IsLetter(c))
  }

  function Title(s: string): (r: string)
    ensures |r| == |s|
  {
    TitleFrom(s, false)
  }

  lemma {:induction false} TitleFromAt(s: string, prevCased: bool, k: nat)
    requires k < |s|
    ensures |TitleFrom(s, prevCased)| == |s|
    ensures TitleFrom(s, prevCased)[k]
         == if (if k == 0 then prevCased else IsLetter(s[k - 1])) then LowerChar(s[k]) else UpperChar(s[k])
  {
    var c := if prevCased then LowerChar(s[0]) else UpperChar(s[0]);
    if k > 0 {
      TitleFromAt(s[1..], IsLetter(c), k - 1);
    } else if |s| > 1 {
      TitleFromAt(s[1..], IsLetter(c), 0);
    }
  }

  /** Title case, position by position: upper case starts each run of letters, lower case continues it. */
  lemma TitleAt(s: string, k: nat)
    requires k < |s|
    ensures |Title(s)| == |s|
    ensures Title(s)[k] == if k > 0 && IsLetter(s[k - 1]) then LowerChar(s[k]) else UpperChar(s[k])
  {
    TitleFromAt(s, false, k);
  }

  /** Title-casing a title-cased string changes nothing. */
  lemma TitleIdempotent(s: string)
    ensures Title(Title(s)) == Title(s)
  {
    var t := Title(s);
    if s != [] {
      TitleAt(s, 0);
      forall k | 0 <= k < |s| ensures Title(t)[k] == t[k] {
        TitleAt(s, k);
        TitleAt(t, k);
        if k > 0 {
          TitleAt(s, k - 1);
        }
      }
    }
  }

  /** Title case keeps every character that is not an ASCII letter. */
  lemma TitleKeepsNonLetters(s: string, x: char)
    requires !IsLetter(x)
    ensures |Title(s)| == |s|
    ensures forall k :: 0 <= k < |s| ==> (Title(s)[k] == x <==> s[k] == x)
  {
    if s == [] {
    } else {
      forall k | 0 <= k < |s| ensures Title(s)[k] == x <==> s[k] == x {
        TitleAt(s, k);
      }
      TitleAt(s, 0);
    }
  }

  /** Title case introduces no character that is not a letter. */
  lemma TitleKeepsAbsent(s: string, x: char)
    requires !IsLetter(x) && x !in s
    ensures x !in Title(s)
  {
    TitleKeepsNonLetters(s, x);
    forall k | 0 <= k < |s| ensures Title(s)[k] != x {
      assert s[k] != x;
    }
  }

  /** `os.path.basename` for '/'-separated paths: what follows the last '/'. */
  function Basename(path: string): (r: string)
    ensures '/' !in r
    ensures |r| <= |path| && r == path[|path| - |r|..]
    ensures |r| < |path| ==> path[|path| - |r| - 1] == '/'
  {
    if path == [] then []
    else if path[|path| - 1] == '/' then []
    else Basename(path[..|path| - 1]) + [path[|path| - 1]]
  }

  /** The base name of `dir + "/" + name` is `name` when `name` holds no '/'. */
  lemma {:induction false} BasenameAfterSlash(dir: string, name: string)
    requires '/' !in name
    ensures Basename(dir + "/" + name) == name
  {
    var p := dir + "/" + name;
    var r := Basename(p);
    assert p[|p| - |name|..] == name;
    assert p[|p| - |name| - 1] == '/';
  }
}
