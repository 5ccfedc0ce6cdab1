/** The few Python `str` methods the symbol handling relies on, over `seq<char>`. */
module Strings {

  /** Python's `s.endswith(suffix)`. */
  predicate EndsWith(s: string, suffix: string)
  {
    |suffix| <= |s| && s[|s| - |suffix|..] == suffix
  }

  /** Number of occurrences of `c` in `s`. */
  function Count(s: string, c: char): nat
  {
    if |s| == 0 then 0 else (if s[0] == c then 1 else 0) + Count(s[1..], c)
  }

  lemma {:induction false} CountConcat(a: string, b: string, c: char)
    ensures Count(a + b, c) == Count(a, c) + Count(b, c)
    decreases |a|
  {
    if |a| == 0 {
      assert a + b == b;
    } else {
      assert (a + b)[1..] == a[1..] + b;
      CountConcat(a[1..], b, c);
    }
  }

  lemma {:induction false} CountZero(s: string, c: char)
    ensures Count(s, c) == 0 <==> forall i :: 0 <= i < |s| ==> s[i] != c
    decreases |s|
  {
    if |s| > 0 {
      CountZero(s[1..], c);
      assert forall i :: 1 <= i < |s| ==> s[i] == s[1..][i - 1];
    }
  }

  /**
    * Python's `s.replace(pat, rep)`: scans left to right and replaces every
    * non-overlapping occurrence of `pat`. Only non-empty patterns occur in the
    * program, so the empty-pattern case of Python is not modelled.
    */
  function Replace(s: string, pat: string, rep: string): (r: string)
    requires |pat| > 0
    ensures |pat| == |rep| ==> |r| == |s|
    decreases |s|
  {
    if |s| < |pat| then s
    else if s[..|pat|] == pat then rep + Replace(s[|pat|..], pat, rep)
    else [s[0]] + Replace(s[1..], pat, rep)
  }

  /** Replacing one character by another rewrites exactly the positions that held it. */
  lemma {:induction false} ReplaceCharPointwise(s: string, a: char, b: char)
    ensures var r := Replace(s, [a], [b]);
      && |r| == |s|
      && forall i :: 0 <= i < |s| ==> r[i] == (if s[i] == a then b else s[i])
    decreases |s|
  {
    if |s| > 0 {
      ReplaceCharPointwise(s[1..], a, b);
      var r := Replace(s, [a], [b]);
      var t := Replace(s[1..], [a], [b]);
      assert s[..1] == [s[0]];
      if s[0] == a {
        assert r == [b] + t;
      } else {
        assert r == [s[0]] + t;
      }
      forall i | 0 <= i < |s|
        ensures r[i] == (if s[i] == a then b else s[i])
      {
        if i > 0 {
          assert r[i] == t[i - 1];
          assert s[i] == s[1..][i - 1];
        }
      }
    }
  }

  /** After replacing `a` by a different character, `a` no longer occurs. */
  lemma ReplaceCharRemoves(s: string, a: char, b: char)
    requires a != b
    ensures Count(Replace(s, [a], [b]), a) == 0
    ensures Count(Replace(s, [a], [b]), b) == Count(s, a) + Count(s, b)
  {
    ReplaceCharPointwise(s, a, b);
    CountZero(Replace(s, [a], [b]), a);
    ReplaceCharCount(s, a, b);
  }

  lemma {:induction false} ReplaceCharCount(s: string, a: char, b: char)
    requires a != b
    ensures Count(Replace(s, [a], [b]), b) == Count(s, a) + Count(s, b)
    decreases |s|
  {
    if |s| > 0 {
      ReplaceCharCount(s[1..], a, b);
      assert s[..1] == [s[0]];
      var t := Replace(s[1..], [a], [b]);
      if s[0] == a {
        assert Replace(s, [a], [b]) == [b] + t;
        assert ([b] + t)[1..] == t;
      } else {
        assert Replace(s, [a], [b]) == [s[0]] + t;
        assert ([s[0]] + t)[1..] == t;
      }
    }
  }

  /**
    * Every occurrence of ".TO" is found by the left-to-right scan (the
    * pattern cannot overlap itself), so a symbol ending in ".TO" is
    * rewritten to one ending in ".NE".
    */
  lemma {:induction false} ReplaceSuffixTO(s: string)
    requires EndsWith(s, ".TO")
    ensures EndsWith(Replace(s, ".TO", ".NE"), ".NE")
    decreases |s|
  {
    var n := |s|;
    assert s[n - 3] == '.' && s[n - 2] == 'T' && s[n - 1] == 'O';
    if s[..3] == ".TO" {
      if n == 3 {
        assert s[3..] == [];
        assert Replace(s, ".TO", ".NE") == ".NE";
      } else {
        assert n >= 6 by {
          assert s[0] == '.' && s[1] == 'T' && s[2] == 'O';
        }
        var t := s[3..];
        assert t[|t| - 3..] == s[n - 3..];
        ReplaceSuffixTO(t);
        var rt := Replace(t, ".TO", ".NE");
        assert Replace(s, ".TO", ".NE") == ".NE" + rt;
        assert (".NE" + rt)[|".NE" + rt| - 3..] == rt[|rt| - 3..];
      }
    } else {
      var t := s[1..];
      assert t[|t| - 3..] == s[n - 3..];
      ReplaceSuffixTO(t);
      var rt := Replace(t, ".TO", ".NE");
      assert Replace(s, ".TO", ".NE") == [s[0]] + rt;
      assert ([s[0]] + rt)[|[s[0]] + rt| - 3..] == rt[|rt| - 3..];
    }
  }

  /** A stem without dots followed by ".TO" has exactly that suffix rewritten. */
  lemma {:induction false} ReplaceSuffixOfDotless(d: string)
    requires Count(d, '.') == 0
    ensures Replace(d + ".TO", ".TO", ".NE") == d + ".NE"
    decreases |d|
  {
    var s := d + ".TO";
    if |d| == 0 {
      assert s == ".TO";
      assert s[3..] == [];
    } else {
      CountZero(d, '.');
      assert s[0] == d[0] && d[0] != '.';
      assert s[..3] != ".TO";
      CountConcat([d[0]], d[1..], '.');
      assert d == [d[0]] + d[1..];
      ReplaceSuffixOfDotless(d[1..]);
      assert s[1..] == d[1..] + ".TO";
      assert [d[0]] + (d[1..] + ".NE") == d + ".NE";
    }
  }

  /**
    * Python's `str.isspace` for one character: the ASCII controls
    * \t \n \v \f \r, the separators 0x1C-0x1F, the space, and the Unicode
    * spaces and line/paragraph separators.
    */
  predicate IsSpace(c: char)
  {
    var n := c as int;
    || 9 <= n <= 13 || 28 <= n <= 32
    || n == 0x85 || n == 0xA0 || n == 0x1680
    || 0x2000 <= n <= 0x200A || n == 0x2028 || n == 0x2029
    || n == 0x202F || n == 0x205F || n == 0x3000
  }

  predicate AllSpace(s: string)
  {
    forall i :: 0 <= i < |s| ==> IsSpace(s[i])
  }

  /** Python's `s.lstrip()`: the suffix left after dropping leading whitespace. */
  function TrimLeft(s: string): (r: string)
    ensures |r| <= |s| && r == s[|s| - |r|..]
    ensures AllSpace(s[..|s| - |r|])
    ensures |r| > 0 ==> !IsSpace(r[0])
    decreases |s|
  {
    if |s| > 0 && IsSpace(s[0]) then TrimLeft(s[1..]) else s
  }

  /** Python's `s.rstrip()`: the prefix left after dropping trailing whitespace. */
  function TrimRight(s: string): (r: string)
    ensures |r| <= |s| && r == s[..|r|]
    ensures AllSpace(s[|r|..])
    ensures |r| > 0 ==> !IsSpace(r[|r| - 1])
    decreases |s|
  {
    if |s| > 0 && IsSpace(s[|s| - 1]) then TrimRight(s[..|s| - 1]) else s
  }

  /** Python's `s.strip()`. */
  function Strip(s: string): (r: string)
    ensures |r| > 0 ==> !IsSpace(r[0]) && !IsSpace(r[|r| - 1])
    ensures |r| <= |s|
    ensures forall i :: 0 <= i < |s| && !IsSpace(s[i]) ==> s[i] in r
  {
    TrimLeft(TrimRight(s))
  }
}
