/** The string operations of the service, with Python's semantics:
    `str.replace(pat, "")`, `str.strip()`, `str.lower()` (ASCII letters),
    `str.endswith`, `pat in s`, and `posixpath.join` for two components. */
module Text {

  /** The code-fence marker removed from model answers. */
  const Fence := "```"
  /** The language-tagged opening fence, removed before `Fence`. */
  const JsonFence := "```json"

  /** `pat` occurs in `s` starting at index `i`. */
  predicate MatchAt(s: string, pat: string, i: int)
  {
    0 <= i && i + |pat| <= |s| && s[i..i + |pat|] == pat
  }

  /** Python's `pat in s` for strings. */
  predicate Occurs(s: string, pat: string)
  {
    exists i :: 0 <= i <= |s| - |pat| && MatchAt(s, pat, i)
  }

  /** Python's `s.replace(pat, "")`: scans left to right and drops every
      non-overlapping occurrence of `pat`. */
  function RemoveAll(s: string, pat: string): (r: string)
    requires |pat| > 0
    ensures |r| <= |s|
    decreases |s|
  {
    if |s| < |pat| then s
    else if s[..|pat|] == pat then RemoveAll(s[|pat|..], pat)
    else [s[0]] + RemoveAll(s[1..], pat)
  }

  /** The characters for which Python's `str.isspace()` holds. */
  predicate IsSpace(c: char)
  {
    var n := c as int;
    || 9 <= n <= 13 || 0x1C <= n <= 0x20 || n == 0x85 || n == 0xA0
    || n == 0x1680 || 0x2000 <= n <= 0x200A || n == 0x2028 || n == 0x2029
    || n == 0x202F || n == 0x205F || n == 0x3000
  }

  function TrimStart(s: string): (r: string)
    ensures |r| <= |s| && r == s[|s| - |r|..]
    ensures |r| > 0 ==> !IsSpace(r[0])
    ensures forall i :: 0 <= i < |s| - |r| ==> IsSpace(s[i])
  {
    if |s| > 0 && IsSpace(s[0]) then TrimStart(s[1..]) else s
  }

  function TrimEnd(s: string): (r: string)
    ensures |r| <= |s| && r == s[..|r|]
    ensures |r| > 0 ==> !IsSpace(r[|r| - 1])
    ensures forall i :: |r| <= i < |s| ==> IsSpace(s[i])
  {
    if |s| > 0 && IsSpace(s[|s| - 1]) then TrimEnd(s[..|s| - 1]) else s
  }

  /** Python's `s.strip()` with no argument: the slice of `s` that starts
      after its leading whitespace and stops before its trailing whitespace. */
  function Strip(s: string): (r: string)
    ensures StripOffset(s) + |r| <= |s| && r == s[StripOffset(s)..StripOffset(s) + |r|]
    ensures |r| > 0 ==> !IsSpace(r[0]) && !IsSpace(r[|r| - 1])
    ensures forall i :: 0 <= i < StripOffset(s) ==> IsSpace(s[i])
    ensures forall i :: StripOffset(s) + |r| <= i < |s| ==> IsSpace(s[i])
  {
    var t := TrimStart(s);
    var r := TrimEnd(t);
    TrailingSpaces(s, |s| - |t|, |r|);
    assert |r| > 0 ==> !IsSpace(r[0]) && !IsSpace(r[|r| - 1]) by {
      if |r| > 0 { assert r[0] == t[0]; }
    }
    PrefixOfSuffix(s, |s| - |t|, |r|);
    r
  }

  /** The characters `TrimEnd` drops from a suffix of `s` are the tail of `s`. */
  lemma TrailingSpaces(s: string, o: nat, n: nat)
    requires o <= |s| && n <= |s| - o
    requires forall j :: n <= j < |s[o..]| ==> IsSpace(s[o..][j])
    ensures forall i :: o + n <= i < |s| ==> IsSpace(s[i])
  {
    forall i | o + n <= i < |s| ensures IsSpace(s[i]) {
      assert s[o..][i - o] == s[i];
    }
  }

  /** A prefix of a suffix is a slice. */
  lemma PrefixOfSuffix(s: string, o: nat, n: nat)
    requires o + n <= |s|
    ensures s[o..][..n] == s[o..o + n]
  {
  }

  /** The number of leading whitespace characters `strip` drops. */
  function StripOffset(s: string): nat
  {
    |s| - |TrimStart(s)|
  }

  function LowerChar(c: char): char
  {
    if 'A' <= c <= 'Z' then (c as int + 32) as char else c
  }

  /** Python's `s.lower()` restricted to the ASCII letters. */
  function Lower(s: string): (r: string)
    ensures |r| == |s|
    ensures forall i :: 0 <= i < |s| ==> r[i] == LowerChar(s[i])
  {
    seq(|s|, i requires 0 <= i < |s| => LowerChar(s[i]))
  }

  /** Python's `s.endswith(suffix)`. */
  predicate EndsWith(s: string, suffix: string)
  {
    |suffix| <= |s| && s[|s| - |suffix|..] == suffix
  }

  /** `posixpath.join(dir, name)`: an absolute `name` replaces `dir`. */
  function PathJoin(dir: string, name: string): (r: string)
    ensures |name| > 0 && name[0] == '/' ==> r == name
    ensures (|name| == 0 || name[0] != '/') ==> |dir| + |name| <= |r| && r[..|dir|] == dir && r[|r| - |name|..] == name
    ensures (|name| == 0 || name[0] != '/') ==> r == dir + name || r == dir + "/" + name
  {
    if |name| > 0 && name[0] == '/' then name
    else if dir == "" || dir[|dir| - 1] == '/' then dir + name
    else dir + "/" + name
  }

  // ----- lemmas about occurrences -----

  /** An occurrence in `[c] + t` is at the front or already in `t`. */
  lemma OccursCons(c: char, t: string, pat: string)
    ensures Occurs([c] + t, pat) <==> MatchAt([c] + t, pat, 0) || Occurs(t, pat)
  {
    var s := [c] + t;
    forall i | 0 <= i <= |t| - |pat|
      ensures MatchAt(t, pat, i) ==> MatchAt(s, pat, i + 1)
    {
      assert s[i + 1..i + 1 + |pat|] == t[i..i + |pat|];
    }
    forall j | 1 <= j <= |s| - |pat|
      ensures MatchAt(s, pat, j) ==> MatchAt(t, pat, j - 1)
    {
      assert s[j..j + |pat|] == t[j - 1..j - 1 + |pat|];
    }
  }

  /** A string with no occurrence of `pat` has none in any slice either. */
  lemma NoOccurrenceInSlice(s: string, pat: string, a: int, b: int)
    requires 0 <= a <= b <= |s| && !Occurs(s, pat)
    ensures !Occurs(s[a..b], pat)
  {
    forall i | 0 <= i <= |s[a..b]| - |pat|
      ensures !MatchAt(s[a..b], pat, i)
    {
      assert 0 <= a + i <= |s| - |pat|;
      var inner, outer := s[a..b][i..i + |pat|], s[a + i..a + i + |pat|];
      assert inner == outer by {
        forall k | 0 <= k < |pat| ensures inner[k] == outer[k] {
          assert inner[k] == s[a + i + k];
        }
      }
      assert !MatchAt(s, pat, a + i);
    }
  }

  /** A string without a fence holds no language-tagged fence either. */
  lemma NoFenceNoJsonFence(s: string)
    requires !Occurs(s, Fence)
    ensures !Occurs(s, JsonFence)
  {
    forall i | 0 <= i <= |s| - |JsonFence|
      ensures !MatchAt(s, JsonFence, i)
    {
      assert !MatchAt(s, Fence, i);
      assert s[i..i + |JsonFence|][..3] == s[i..i + 3];
    }
  }

  /** A pattern starting with a character absent from `s` does not occur in `s`. */
  lemma AbsentHeadNoOccurrence(s: string, pat: string)
    requires |pat| > 0 && pat[0] !in s
    ensures !Occurs(s, pat)
  {
    forall i | 0 <= i <= |s| - |pat|
      ensures !MatchAt(s, pat, i)
    {
      assert s[i..i + |pat|][0] == s[i];
    }
  }

  /** Removing a pattern that does not occur changes nothing. */
  lemma {:induction false} RemoveAllAbsent(s: string, pat: string)
    requires |pat| > 0 && !Occurs(s, pat)
    ensures RemoveAll(s, pat) == s
    decreases |s|
  {
    if |s| >= |pat| {
      assert !MatchAt(s, pat, 0);
      assert s == [s[0]] + s[1..];
      OccursCons(s[0], s[1..], pat);
      RemoveAllAbsent(s[1..], pat);
    }
  }

  /** A prefix free of backticks passes through the removal of a
      backtick-led pattern untouched. */
  lemma {:induction false} RemoveAllPlainPrefix(x: string, y: string, pat: string)
    requires |pat| > 0 && pat[0] == '`' && '`' !in x
    ensures RemoveAll(x + y, pat) == x + RemoveAll(y, pat)
    decreases |x|
  {
    if x != [] {
      var s := x + y;
      assert s[0] == x[0] && s[1..] == x[1..] + y;
      if |s| < |pat| {
        assert |y| < |pat| && RemoveAll(y, pat) == y;
      } else {
        assert s[..|pat|][0] != pat[0];
        assert s[..|pat|] != pat;
        RemoveAllPlainPrefix(x[1..], y, pat);
        calc {
          RemoveAll(s, pat);
          [s[0]] + RemoveAll(s[1..], pat);
          [x[0]] + RemoveAll(x[1..] + y, pat);
          [x[0]] + (x[1..] + RemoveAll(y, pat));
          { assert x == [x[0]] + x[1..]; }
          x + RemoveAll(y, pat);
        }
      }
    } else {
      assert x + y == y;
    }
  }

  /** Removal keeps a non-backtick first character in front. */
  lemma RemoveFenceKeepsHead(t: string)
    requires |t| > 0 && t[0] != '`'
    ensures |RemoveAll(t, Fence)| > 0 && RemoveAll(t, Fence)[0] == t[0]
  {
    if |t| >= |Fence| {
      assert t[..|Fence|][0] != Fence[0];
    }
  }

  /** After `s.replace("```", "")` no fence is left, even where removing
      one brought backticks from both sides together. */
  lemma {:induction false} RemoveFenceLeavesNone(s: string)
    ensures !Occurs(RemoveAll(s, Fence), Fence)
    decreases |s|
  {
    var r := RemoveAll(s, Fence);
    if |s| >= 3 && s[..3] == Fence {
      RemoveFenceLeavesNone(s[3..]);
    } else if |s| >= 3 {
      var t := RemoveAll(s[1..], Fence);
      assert r == [s[0]] + t;
      RemoveFenceLeavesNone(s[1..]);
      OccursCons(s[0], t, Fence);
      assert s[..3] == [s[0], s[1], s[2]];
      assert !MatchAt(r, Fence, 0) by {
        if s[0] != '`' {
          assert r[0] != Fence[0];
        } else if s[1] != '`' {
          RemoveFenceKeepsHead(s[1..]);
          assert r[1] != Fence[1];
        } else {
          var u := s[1..];
          if |u| < 3 {
            assert r == s;
          } else {
            assert u[..3][1] == s[2];
            assert t == [u[0]] + RemoveAll(u[1..], Fence);
            RemoveFenceKeepsHead(u[1..]);
            assert |r| < 3 || r[2] != Fence[2];
          }
        }
      }
    }
  }

  lemma TrimStartFixed(s: string)
    requires |s| == 0 || !IsSpace(s[0])
    ensures TrimStart(s) == s
  {
  }

  lemma TrimEndFixed(s: string)
    requires |s| == 0 || !IsSpace(s[|s| - 1])
    ensures TrimEnd(s) == s
  {
  }

  /** Stripping twice is stripping once. */
  lemma StripIdempotent(s: string)
    ensures Strip(Strip(s)) == Strip(s)
  {
    var r := Strip(s);
    TrimStartFixed(r);
    TrimEndFixed(r);
  }

  /** Stripping keeps a string free of `pat`. */
  lemma StripNoOccurrence(s: string, pat: string)
    requires !Occurs(s, pat)
    ensures !Occurs(Strip(s), pat)
  {
    var r := Strip(s);
    NoOccurrenceInSlice(s, pat, StripOffset(s), StripOffset(s) + |r|);
  }
}
