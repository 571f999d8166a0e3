/**
 * The search pattern of `SearchTopicsWithKeyword` / `SearchThemiesWithKeyword`
 * (dao/topic.go:65-86): every `%` of the query becomes `.*` and the result is
 * matched, unanchored, against each keyword. Queries are taken as literal
 * characters plus `%`; in Go's regexp `.` does not match a newline, so a
 * `%` stands for any run of characters other than `\n`.
 */
module Pattern {
  import opened Strs

  /** `p` matches all of `s`. */
  predicate WholeMatch(p: string, s: string)
    decreases |p| + |s|
  {
    if p == [] then s == []
    else if p[0] == '%' then
      WholeMatch(p[1..], s) || (s != [] && s[0] != '\n' && WholeMatch(p, s[1..]))
    else s != [] && s[0] == p[0] && WholeMatch(p[1..], s[1..])
  }

  /** `p` matches some prefix of `s`. */
  predicate PrefixMatch(p: string, s: string)
    decreases |p| + |s|
  {
    if p == [] then true
    else if p[0] == '%' then
      PrefixMatch(p[1..], s) || (s != [] && s[0] != '\n' && PrefixMatch(p, s[1..]))
    else s != [] && s[0] == p[0] && PrefixMatch(p[1..], s[1..])
  }

  /** `regexp.MatchString` of the translated query: `p` matches somewhere in `s`. */
  predicate Matches(p: string, s: string)
    decreases |s|
  {
    PrefixMatch(p, s) || (s != [] && Matches(p, s[1..]))
  }

  /** A prefix match is a whole match of some prefix. */
  lemma {:induction false} PrefixMatchIff(p: string, s: string)
    ensures PrefixMatch(p, s) <==> exists j :: 0 <= j <= |s| && WholeMatch(p, s[..j])
    decreases |p| + |s|
  {
    if p == [] {
      assert WholeMatch(p, s[..0]);
    } else if p[0] == '%' {
      PrefixMatchIff(p[1..], s);
      if s != [] {
        PrefixMatchIff(p, s[1..]);
      }
      if PrefixMatch(p, s) {
        if !PrefixMatch(p[1..], s) {
          var j :| 0 <= j <= |s[1..]| && WholeMatch(p, s[1..][..j]);
          assert s[..j + 1][1..] == s[1..][..j];
          assert WholeMatch(p, s[..j + 1]);
        }
      } else {
        forall j | 0 <= j <= |s| ensures !WholeMatch(p, s[..j]) {
          if j > 0 {
            assert s[..j][1..] == s[1..][..j - 1];
          }
        }
      }
    } else {
      if s != [] {
        PrefixMatchIff(p[1..], s[1..]);
      }
      if PrefixMatch(p, s) {
        var j :| 0 <= j <= |s[1..]| && WholeMatch(p[1..], s[1..][..j]);
        assert s[..j + 1][1..] == s[1..][..j];
        assert WholeMatch(p, s[..j + 1]);
      } else {
        forall j | 0 <= j <= |s| ensures !WholeMatch(p, s[..j]) {
          if j > 0 && s[0] == p[0] {
            assert s[..j][1..] == s[1..][..j - 1];
          }
        }
      }
    }
  }

  /** `Matches` is the unanchored search: a whole match of some slice `s[i..j]`. */
  lemma {:induction false} MatchesIff(p: string, s: string)
    ensures Matches(p, s) <==> exists i, j :: 0 <= i <= j <= |s| && WholeMatch(p, s[i..j])
    decreases |s|
  {
    PrefixMatchIff(p, s);
    if s != [] {
      MatchesIff(p, s[1..]);
    }
    if Matches(p, s) {
      if PrefixMatch(p, s) {
        var j :| 0 <= j <= |s| && WholeMatch(p, s[..j]);
        assert s[0..j] == s[..j];
      } else {
        var i, j :| 0 <= i <= j <= |s[1..]| && WholeMatch(p, s[1..][i..j]);
        assert s[i + 1..j + 1] == s[1..][i..j];
      }
    } else {
      forall i, j | 0 <= i <= j <= |s| ensures !WholeMatch(p, s[i..j]) {
        if i == 0 {
          assert s[i..j] == s[..j];
        } else {
          SliceOfTail(s, i, j);
        }
      }
    }
  }

  /** A slice that skips the first character is a slice of the tail. */
  lemma SliceOfTail(s: string, i: nat, j: nat)
    requires 0 < i <= j <= |s|
    ensures s[i..j] == s[1..][i - 1..j - 1]
  {
    assert forall k :: 0 <= k < j - i ==> s[i..j][k] == s[i + k] == s[1..][i - 1..j - 1][k];
  }

  /** Without `%`, a prefix match is a literal prefix. */
  lemma {:induction false} LiteralPrefixMatch(p: string, s: string)
    requires '%' !in p
    ensures PrefixMatch(p, s) <==> |p| <= |s| && s[..|p|] == p
    decreases |p|
  {
    if p != [] && s != [] {
      LiteralPrefixMatch(p[1..], s[1..]);
      if |p| <= |s| {
        assert s[..|p|] == [s[0]] + s[1..][..|p| - 1];
        assert p == [p[0]] + p[1..];
      }
    }
  }

  /** Without `%`, the pattern search is the substring search `strings.Contains`. */
  lemma {:induction false} LiteralMatchesIsContains(p: string, s: string)
    requires '%' !in p
    ensures Matches(p, s) <==> Contains(s, p)
    decreases |s|
  {
    LiteralPrefixMatch(p, s);
    if s != [] {
      LiteralMatchesIsContains(p, s[1..]);
      if Contains(s[1..], p) {
        var k := IndexOf(s[1..], p).value;
        OccursAtTail(s, p, k);
      }
    }
    if |p| <= |s| && s[..|p|] == p {
      assert OccursAt(s, p, 0);
    } else if Contains(s, p) {
      var k := IndexOf(s, p).value;
      assert k > 0 by { assert !OccursAt(s, p, 0); }
      OccursAtTail(s, p, k - 1);
    }
  }

  /** `%` alone matches every keyword. */
  lemma PercentMatchesEverything(s: string)
    ensures Matches("%", s)
  {
    assert PrefixMatch("%"[1..], s);
  }

  /** `%abc%` matches `xabcy`. */
  lemma InfixExample()
    ensures Matches("%abc%", "xabcy")
  {
    assert PrefixMatch("%abc%"[1..][1..][1..][1..], "xabcy"[1..][1..][1..][1..]);
    assert PrefixMatch("%abc%", "xabcy"[1..]);
  }
}
