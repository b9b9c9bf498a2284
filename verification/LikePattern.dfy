/**
 The LIKE pattern of compute_restore_list: a directory's path with '%', '_' and '\'
 escaped, followed by '%'.
 */
module LikePatterns {

  const ESCAPE: char := '\\'

  /** The LIKE predicate with ESCAPE '\' (section 8.5 of ISO/IEC 9075:1992): '%' stands
      for any text, '_' for any character, an escaped character for itself.  An escape
      before any other character is an error in the standard; here it matches nothing. */
  predicate Like(s: string, pattern: string)
    decreases |pattern|, |s|
  {
    if pattern == "" then s == ""
    else if pattern[0] == ESCAPE then
      && |pattern| >= 2 && pattern[1] in {'%', '_', ESCAPE}
      && s != "" && s[0] == pattern[1] && Like(s[1..], pattern[2..])
    else if pattern[0] == '%' then
      Like(s, pattern[1..]) || (s != "" && Like(s[1..], pattern))
    else
      s != "" && (pattern[0] == '_' || s[0] == pattern[0]) && Like(s[1..], pattern[1..])
  }

  function EscapeChar(c: char): string {
    if c == '%' || c == '_' || c == '\\' then ['\\', c] else [c]
  }

  function Escape(dir: string): string {
    if dir == "" then "" else EscapeChar(dir[0]) + Escape(dir[1..])
  }

  lemma {:induction false} EscapeSnoc(dir: string, c: char)
    ensures Escape(dir + [c]) == Escape(dir) + EscapeChar(c)
  {
    if dir == "" {
      assert dir + [c] == [c];
    } else {
      EscapeSnoc(dir[1..], c);
      assert (dir + [c])[1..] == dir[1..] + [c];
    }
  }

  /** The loop that fills the buffer, with the closing '%'. */
  method DirPattern(dir: string) returns (pattern: string)
    ensures pattern == Escape(dir) + "%"
    ensures |pattern| <= 2 * |dir| + 1
  {
    pattern := "";
    for i := 0 to |dir|
      invariant pattern == Escape(dir[..i]) && |pattern| <= 2 * i
    {
      EscapeSnoc(dir[..i], dir[i]);
      assert dir[..i + 1] == dir[..i] + [dir[i]];
      if dir[i] == '%' || dir[i] == '_' || dir[i] == '\\' {
        pattern := pattern + ['\\'];
      }
      pattern := pattern + [dir[i]];
    }
    assert dir[..|dir|] == dir;
    pattern := pattern + "%";
  }

  /** A percent sign stands for any text, also in the middle. */
  lemma {:induction false} LikePercent(s: string, p: string)
    ensures Like(s, "%" + p) <==> exists k :: 0 <= k <= |s| && Like(s[k..], p)
    decreases |s|
  {
    assert ("%" + p)[1..] == p && s[0..] == s;
    if s != "" {
      LikePercent(s[1..], p);
      forall k | 0 < k <= |s| ensures s[k..] == s[1..][k - 1..] { }
      if Like(s[1..], "%" + p) {
        var k :| 0 <= k <= |s[1..]| && Like(s[1..][k..], p);
        assert s[k + 1..] == s[1..][k..];
      }
    }
  }

  /** An underscore stands for any one character, another for itself, and an escape makes
      the three special ones stand for themselves and is wrong before any other. */
  lemma LikeOne(s: string, c: char, p: string)
    ensures Like(s, "_" + p) <==> s != "" && Like(s[1..], p)
    ensures c !in {'%', '_', '\\'} ==> (Like(s, [c] + p) <==> s != "" && s[0] == c && Like(s[1..], p))
    ensures Like(s, ['\\', c] + p) <==> c in {'%', '_', '\\'} && s != "" && s[0] == c && Like(s[1..], p)
    ensures !Like(s, "\\")
  {
    assert ("_" + p)[1..] == p && ([c] + p)[1..] == p && (['\\', c] + p)[2..] == p;
  }

  lemma {:induction false} PercentMatchesAll(s: string)
    ensures Like(s, "%")
  {
    if s != "" {
      PercentMatchesAll(s[1..]);
    } else {
      assert "%"[1..] == "";
    }
  }

  /** The pattern of a directory matches exactly the paths below it. */
  lemma {:induction false} PatternIsPrefix(dir: string, path: string)
    ensures Like(path, Escape(dir) + "%") <==> dir <= path
  {
    var pattern := Escape(dir) + "%";
    if dir == "" {
      assert pattern == "%";
      PercentMatchesAll(path);
    } else {
      var head, tail := EscapeChar(dir[0]), Escape(dir[1..]) + "%";
      assert pattern == head + tail && pattern[|head|..] == tail;
      if path != "" {
        PatternIsPrefix(dir[1..], path[1..]);
        assert dir <= path <==> dir[0] == path[0] && dir[1..] <= path[1..];
      }
    }
  }
}
