/**
 * The LIKE operator as SQLite evaluates `Key LIKE @expression` with its
 * default settings: `%` matches any run of characters (possibly empty), `_`
 * matches exactly one character, there is no ESCAPE character, and letters are
 * compared case-insensitively for the 26 ASCII letters only. SQLite reads
 * both operands as NUL-terminated text, so each is cut at its first U+0000.
 */
module SqlLike {

  /** SQLite's default case folding: only 'A'..'Z' are mapped to lower case. */
  function FoldAscii(c: char): char
  {
    if 'A' <= c <= 'Z' then (c as int + 32) as char else c
  }

  /** A literal pattern character matches a subject character. */
  predicate SameLetter(p: char, c: char)
  {
    FoldAscii(p) == FoldAscii(c)
  }

  /** The part of `s` before its first NUL character (all of `s` if it has none). */
  function UpToNul(s: string): (r: string)
    ensures r <= s
    ensures '\0' !in r
    ensures |r| < |s| ==> s[|r|] == '\0'
  {
    if s == [] || s[0] == '\0' then [] else [s[0]] + UpToNul(s[1..])
  }

  /** `s LIKE pattern` as SQLite evaluates it: the match stops at the first
      NUL of either operand. */
  predicate SqliteLike(pattern: string, s: string): (r: bool)
    ensures '\0' !in pattern && '\0' !in s ==> (r <==> Like(pattern, s))
  {
    NulFreeUnchanged(pattern);
    NulFreeUnchanged(s);
    Like(UpToNul(pattern), UpToNul(s))
  }

  /** A string without NUL is read in full. */
  lemma NulFreeUnchanged(s: string)
    ensures '\0' !in s ==> UpToNul(s) == s
  {
  }

  /** Does the NUL-free string `s` match the NUL-free LIKE pattern `pattern`? */
  predicate Like(pattern: string, s: string)
    decreases |pattern| + |s|
  {
    if pattern == [] then
      s == []
    else if pattern[0] == '%' then
      Like(pattern[1..], s) || (s != [] && Like(pattern, s[1..]))
    else
      s != [] && (pattern[0] == '_' || SameLetter(pattern[0], s[0])) && Like(pattern[1..], s[1..])
  }

  /** Character by character agreement of a pattern without `%` with a subject
      of the same length: `_` accepts anything, other characters up to case. */
  ghost predicate PositionMatch(p: string, s: string)
  {
    |p| == |s| && forall i :: 0 <= i < |p| ==> p[i] == '_' || SameLetter(p[i], s[i])
  }

  /** The ASCII case folding of a whole string. */
  function FoldAll(s: string): (r: string)
    ensures |r| == |s|
    ensures forall i :: 0 <= i < |s| ==> r[i] == FoldAscii(s[i])
  {
    if s == [] then [] else [FoldAscii(s[0])] + FoldAll(s[1..])
  }

  /** `%` on its own matches every string, the empty one included. */
  lemma {:induction false} PercentMatchesEverything(s: string)
    ensures Like("%", s)
  {
    if s != [] {
      PercentMatchesEverything(s[1..]);
    }
  }

  /** `%` followed by `p` matches exactly the strings having some suffix that `p` matches. */
  lemma {:induction false} PercentIsAnyRun(p: string, s: string)
    ensures Like(['%'] + p, s) <==> exists i :: 0 <= i <= |s| && Like(p, s[i..])
  {
    var q := ['%'] + p;
    assert q[0] == '%' && q[1..] == p;
    assert s[0..] == s;
    if s != [] {
      PercentIsAnyRun(p, s[1..]);
      if Like(q, s) {
        if !Like(p, s) {
          assert Like(q, s[1..]);
          var i :| 0 <= i <= |s[1..]| && Like(p, s[1..][i..]);
          assert s[1..][i..] == s[i + 1..];
        }
      } else {
        forall i | 0 <= i <= |s|
          ensures !Like(p, s[i..])
        {
          if i > 0 {
            assert s[1..][i - 1..] == s[i..];
          }
        }
      }
    }
  }

  /** A pattern without `%` is a fixed-length, position by position test. */
  lemma {:induction false} FixedLengthPattern(p: string, s: string)
    requires '%' !in p
    ensures Like(p, s) <==> PositionMatch(p, s)
  {
    if p != [] && s != [] {
      assert p[0] in p;
      assert forall c :: c in p[1..] ==> c in p;
      FixedLengthPattern(p[1..], s[1..]);
      if PositionMatch(p, s) {
        assert forall i :: 0 <= i < |p| - 1 ==> p[1..][i] == p[i + 1] && s[1..][i] == s[i + 1];
        assert PositionMatch(p[1..], s[1..]);
      }
      if Like(p, s) {
        forall i | 0 <= i < |p|
          ensures p[i] == '_' || SameLetter(p[i], s[i])
        {
          if i > 0 {
            assert p[1..][i - 1] == p[i] && s[1..][i - 1] == s[i];
          }
        }
      }
    } else if p != [] {
      assert p[0] in p;
    }
  }

  /** A prefix pattern `q%` (no `%` inside `q`) matches exactly the strings
      whose first |q| characters agree with `q`. */
  lemma {:induction false} PrefixPattern(q: string, s: string)
    requires '%' !in q
    ensures Like(q + "%", s) <==> |q| <= |s| && PositionMatch(q, s[..|q|])
  {
    if q == [] {
      assert q + "%" == "%";
      PercentMatchesEverything(s);
    } else {
      var pq := q + "%";
      assert pq[0] == q[0] && pq[1..] == q[1..] + "%";
      assert q[0] in q;
      assert forall c :: c in q[1..] ==> c in q;
      if s != [] {
        PrefixPattern(q[1..], s[1..]);
        if |q| <= |s| {
          var a, b := q, s[..|q|];
          assert b[1..] == s[1..][..|q| - 1];
          if PositionMatch(a, b) {
            assert forall i :: 0 <= i < |a| - 1 ==> a[1..][i] == a[i + 1] && b[1..][i] == b[i + 1];
          }
          if PositionMatch(a[1..], b[1..]) && (a[0] == '_' || SameLetter(a[0], b[0])) {
            forall i | 0 <= i < |a|
              ensures a[i] == '_' || SameLetter(a[i], b[i])
            {
              if i > 0 {
                assert a[1..][i - 1] == a[i] && b[1..][i - 1] == b[i];
              }
            }
          }
        }
      }
    }
  }

  /** A literal prefix `q` (no `%` inside) followed by any pattern `r`: the first
      |q| characters must agree with `q`, and the rest of the string must match
      `r`. With `PercentIsAnyRun` for a leading `%` and `FixedLengthPattern` for
      the empty pattern, this describes every pattern. */
  lemma {:induction false} LiteralPrefix(q: string, r: string, s: string)
    requires '%' !in q
    ensures Like(q + r, s) <==> |q| <= |s| && PositionMatch(q, s[..|q|]) && Like(r, s[|q|..])
    decreases |q|
  {
    if q == [] {
      assert q + r == r && s[..0] == [] && s[0..] == s;
    } else {
      var p := q + r;
      assert p[0] == q[0] && p[1..] == q[1..] + r;
      assert q[0] in q;
      assert forall c :: c in q[1..] ==> c in q;
      if s != [] {
        LiteralPrefix(q[1..], r, s[1..]);
        if |q| <= |s| {
          var a, b := q, s[..|q|];
          assert b[1..] == s[1..][..|q| - 1];
          assert s[1..][|q| - 1..] == s[|q|..];
          if PositionMatch(a, b) {
            assert forall i :: 0 <= i < |a| - 1 ==> a[1..][i] == a[i + 1] && b[1..][i] == b[i + 1];
          }
          if PositionMatch(a[1..], b[1..]) && (a[0] == '_' || SameLetter(a[0], b[0])) {
            forall i | 0 <= i < |a|
              ensures a[i] == '_' || SameLetter(a[i], b[i])
            {
              if i > 0 {
                assert a[1..][i - 1] == a[i] && b[1..][i - 1] == b[i];
              }
            }
          }
        }
      }
    }
  }

  /** The folded form of a character is a lower-case letter only if the
      character was a letter, so `%` and `_` are recognised after folding. */
  lemma FoldKeepsWildcards(c: char)
    ensures FoldAscii(c) == '%' <==> c == '%'
    ensures FoldAscii(c) == '_' <==> c == '_'
    ensures FoldAscii(FoldAscii(c)) == FoldAscii(c)
  {
  }

  /** Matching is blind to ASCII case: folding pattern and subject does not change the answer. */
  lemma {:induction false} LikeIgnoresAsciiCase(p: string, s: string)
    ensures Like(p, s) <==> Like(FoldAll(p), FoldAll(s))
    decreases |p| + |s|
  {
    var fp, fs := FoldAll(p), FoldAll(s);
    if p != [] {
      FoldKeepsWildcards(p[0]);
      assert fp[0] == FoldAscii(p[0]);
      assert fp[1..] == FoldAll(p[1..]);
      if s != [] {
        FoldKeepsWildcards(s[0]);
        assert fs[0] == FoldAscii(s[0]);
        assert fs[1..] == FoldAll(s[1..]);
        LikeIgnoresAsciiCase(p[1..], s[1..]);
        if p[0] == '%' {
          LikeIgnoresAsciiCase(p[1..], s);
          LikeIgnoresAsciiCase(p, s[1..]);
        } else {
          assert SameLetter(p[0], s[0]) <==> SameLetter(fp[0], fs[0]);
        }
      } else if p[0] == '%' {
        LikeIgnoresAsciiCase(p[1..], s);
      }
    }
  }

  /** The patterns used by the store's own tests, matched as defined above. */
  lemma PrefixExamples()
    ensures Like("Test%", "Test")
    ensures Like("Test%", "Test2")
    ensures !Like("Test%", "Case")
    ensures Like("test%", "TEST2")
  {
    assert Like("Test%", "Test") by {
      assert "Test%" == "Test" + "%";
      PrefixPattern("Test", "Test");
    }
    assert Like("Test%", "Test2") by {
      assert "Test%" == "Test" + "%" && "Test2"[..4] == "Test";
      PrefixPattern("Test", "Test2");
    }
    assert !Like("Test%", "Case") by {
      assert "Test%" == "Test" + "%" && "Case"[..4] == "Case";
      assert !SameLetter("Test"[0], "Case"[0]);
      PrefixPattern("Test", "Case");
    }
    assert Like("test%", "TEST2") by {
      assert "test%" == "test" + "%" && "TEST2"[..4] == "TEST";
      PrefixPattern("test", "TEST2");
    }
  }

  /** The same patterns as SQLite evaluates them: none of these strings holds a NUL. */
  lemma TestPatternExamples()
    ensures SqliteLike("Test%", "Test")
    ensures SqliteLike("Test%", "Test2")
    ensures !SqliteLike("Test%", "Case")
    ensures SqliteLike("test%", "TEST2")
  {
    PrefixExamples();
    NulFreeUnchanged("Test%");
    NulFreeUnchanged("test%");
    NulFreeUnchanged("Test");
    NulFreeUnchanged("Test2");
    NulFreeUnchanged("Case");
    NulFreeUnchanged("TEST2");
  }

  /** A NUL ends the subject: the key "a\0b" is read as "a". */
  lemma NulEndsSubject()
    ensures SqliteLike("a", "a\0b")
    ensures !SqliteLike("a%b", "a\0b")
  {
    assert UpToNul("a\0b") == "a" by {
      assert "a\0b"[1..] == "\0b";
    }
    assert UpToNul("a") == "a";
    assert UpToNul("a%b") == "a%b" by {
      NulFreeUnchanged("a%b");
    }
    assert Like("a%b", "a") ==> Like("%b", "a");
  }
}
