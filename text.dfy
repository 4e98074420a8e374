/**
 * The string operations the handler borrows from java.lang.String and
 * commons-lang: prefix and suffix tests, substring search, blankness, and
 * splitting on a literal separator, with the facts about splitting that the
 * query rewriter relies on.
 */
module Text {

  /** `s` begins with `prefix` (String.startsWith). */
  predicate StartsWith(s: string, prefix: string) {
    |prefix| <= |s| && s[..|prefix|] == prefix
  }

  /** `s` finishes with `suffix` (String.endsWith). */
  predicate EndsWith(s: string, suffix: string) {
    |suffix| <= |s| && s[|s| - |suffix|..] == suffix
  }

  /** `t` occurs somewhere in `s` (String.contains): some suffix of `s` starts with `t`. */
  predicate Contains(s: string, t: string)
    decreases |s|
  {
    StartsWith(s, t) || (|s| > 0 && Contains(s[1..], t))
  }

  /** Reference definition of an occurrence: `t` sits in `s` at index `i`. */
  ghost predicate OccursAt(s: string, t: string, i: int) {
    0 <= i && i + |t| <= |s| && s[i..i + |t|] == t
  }

  lemma {:induction false} ContainsIffOccurs(s: string, t: string)
    ensures Contains(s, t) <==> exists i :: OccursAt(s, t, i)
    decreases |s|
  {
    if StartsWith(s, t) {
      assert OccursAt(s, t, 0);
    } else if |s| > 0 {
      ContainsIffOccurs(s[1..], t);
      if Contains(s[1..], t) {
        var i :| OccursAt(s[1..], t, i);
        assert s[1..][i..i + |t|] == s[i + 1..i + 1 + |t|];
        assert OccursAt(s, t, i + 1);
      }
      if exists i :: OccursAt(s, t, i) {
        var i :| OccursAt(s, t, i);
        assert i != 0;
        assert s[1..][i - 1..i - 1 + |t|] == s[i..i + |t|];
        assert OccursAt(s[1..], t, i - 1);
      }
    }
  }

  lemma StartsWithExtended(s: string, prefix: string, t: string)
    requires StartsWith(s, prefix)
    ensures StartsWith(s + t, prefix)
  {
    assert (s + t)[..|prefix|] == s[..|prefix|];
  }

  lemma StartsWithTransitive(s: string, p: string, q: string)
    requires StartsWith(s, p) && StartsWith(p, q)
    ensures StartsWith(s, q)
  {
    assert s[..|q|] == s[..|p|][..|q|];
  }

  /** Character.isWhitespace: the ASCII controls TAB..CR and FS..US, the space,
      and the Unicode space, line and paragraph separators except the
      non-breaking ones (U+00A0, U+2007, U+202F). */
  predicate IsWhitespace(c: char) {
    var n := c as int;
    n == 0x20 || 0x09 <= n <= 0x0D || 0x1C <= n <= 0x1F
    || n == 0x1680 || 0x2000 <= n <= 0x2006 || 0x2008 <= n <= 0x200A
    || n == 0x2028 || n == 0x2029 || n == 0x205F || n == 0x3000
  }

  /** StringUtils.isBlank on a non-null string: empty or only whitespace. */
  predicate IsBlank(s: string) {
    forall i | 0 <= i < |s| :: IsWhitespace(s[i])
  }

  /** The pieces glued back together with `sep` between consecutive pieces. */
  function Join(parts: seq<string>, sep: string): string
    decreases |parts|
  {
    if |parts| == 0 then ""
    else if |parts| == 1 then parts[0]
    else parts[0] + sep + Join(parts[1..], sep)
  }

  /**
   * `s` cut at every occurrence of `sep`, found left to right without
   * overlap (String.split on a pattern without metacharacters, except that
   * trailing empty pieces are kept).
   */
  function Split(s: string, sep: string): (parts: seq<string>)
    requires sep != []
    ensures |parts| >= 1
    decreases |s|
  {
    if StartsWith(s, sep) then [""] + Split(s[|sep|..], sep)
    else if s == [] then [""]
    else
      var rest := Split(s[1..], sep);
      [[s[0]] + rest[0]] + rest[1..]
  }

  /** No proper prefix of `sep` is also a suffix of it, so two occurrences of
      `sep` can never overlap. Every one-character separator has this
      property, and so does "%2C". */
  ghost predicate Borderless(sep: string) {
    forall k :: 0 < k < |sep| ==> sep[..k] != sep[|sep| - k..]
  }

  /** Splitting loses nothing: the pieces join back to the input. */
  lemma {:induction false} JoinSplit(s: string, sep: string)
    requires sep != []
    ensures Join(Split(s, sep), sep) == s
    decreases |s|
  {
    if StartsWith(s, sep) {
      var rest := Split(s[|sep|..], sep);
      JoinSplit(s[|sep|..], sep);
      assert Split(s, sep) == [""] + rest;
      assert ([""] + rest)[1..] == rest;
      assert s == s[..|sep|] + s[|sep|..];
    } else if s != [] {
      var rest := Split(s[1..], sep);
      JoinSplit(s[1..], sep);
      var first := [s[0]] + rest[0];
      assert Split(s, sep) == [first] + rest[1..];
      if |rest| > 1 {
        assert ([first] + rest[1..])[1..] == rest[1..];
      }
      assert s == [s[0]] + s[1..];
    }
  }

  /** Every piece of a split is free of the separator. */
  lemma {:induction false} SplitPiecesSepFree(s: string, sep: string)
    requires sep != []
    ensures forall k :: 0 <= k < |Split(s, sep)| ==> !Contains(Split(s, sep)[k], sep)
    decreases |s|
  {
    var parts := Split(s, sep);
    if StartsWith(s, sep) {
      var rest := Split(s[|sep|..], sep);
      SplitPiecesSepFree(s[|sep|..], sep);
      assert parts == [""] + rest;
      forall k | 0 <= k < |parts| ensures !Contains(parts[k], sep) {
        if k > 0 {
          assert parts[k] == rest[k - 1];
        }
      }
    } else if s != [] {
      var rest := Split(s[1..], sep);
      SplitPiecesSepFree(s[1..], sep);
      var first := [s[0]] + rest[0];
      assert parts == [first] + rest[1..];
      assert !StartsWith(first, sep) by {
        JoinSplit(s, sep);
        assert StartsWith(s, first) by {
          if |parts| > 1 {
            assert s == first + (sep + Join(parts[1..], sep));
            StartsWithExtended(first, first, sep + Join(parts[1..], sep));
          }
        }
        if StartsWith(first, sep) {
          StartsWithTransitive(s, first, sep);
          assert false;
        }
      }
      assert first[1..] == rest[0];
      forall k | 0 <= k < |parts| ensures !Contains(parts[k], sep) {
        if k > 0 {
          assert parts[k] == rest[k];
        }
      }
    }
  }

  /** A separator-free string is one piece. */
  lemma {:induction false} SplitWhole(p: string, sep: string)
    requires sep != [] && !Contains(p, sep)
    ensures Split(p, sep) == [p]
    decreases |p|
  {
    if p != [] {
      SplitWhole(p[1..], sep);
      assert [p[0]] + p[1..] == p;
    }
  }

  /** Two overlapping occurrences of a borderless separator are impossible. */
  lemma NoOverlap(s: string, sep: string, i: int)
    requires Borderless(sep) && StartsWith(s, sep) && 0 < i < |sep|
    ensures !StartsWith(s[i..], sep)
  {
    var k := |sep| - i;
    assert sep[..k] != sep[|sep| - k..];
    assert s[i..|sep|] == sep[i..];
  }

  /** A string that starts and ends with a borderless separator, and is longer
      than it, holds two separate copies of it. */
  lemma SeparatorsApart(s: string, sep: string)
    requires Borderless(sep) && StartsWith(s, sep) && EndsWith(s, sep) && |s| > |sep|
    ensures |s| >= 2 * |sep|
  {
    var n := |sep|;
    if |s| < 2 * n {
      assert StartsWith(s[|s| - n..], sep);
      NoOverlap(s, sep, |s| - n);
    }
  }

  /** A separator-free first piece followed by the separator is cut off exactly there. */
  lemma {:induction false} SplitCut(p: string, sep: string, t: string)
    requires sep != [] && Borderless(sep) && !Contains(p, sep)
    ensures Split(p + sep + t, sep) == [p] + Split(t, sep)
    decreases |p|
  {
    var s := p + sep + t;
    if p == [] {
      assert s == sep + t;
      assert StartsWith(s, sep);
      assert s[|sep|..] == t;
    } else {
      assert !StartsWith(s, sep) by {
        if |sep| <= |p| {
          assert s[..|sep|] == p[..|sep|];
        } else {
          var k := |sep| - |p|;
          assert s[|p|..|sep|] == sep[..k];
          assert s[..|sep|][|p|..] == s[|p|..|sep|];
        }
      }
      assert s[1..] == p[1..] + sep + t;
      SplitCut(p[1..], sep, t);
      assert [p[0]] + p[1..] == p;
    }
  }

  /** Splitting undoes joining, for separator-free pieces and a borderless separator. */
  lemma {:induction false} SplitJoin(parts: seq<string>, sep: string)
    requires sep != [] && Borderless(sep) && |parts| >= 1
    requires forall k :: 0 <= k < |parts| ==> !Contains(parts[k], sep)
    ensures Split(Join(parts, sep), sep) == parts
    decreases |parts|
  {
    if |parts| == 1 {
      SplitWhole(parts[0], sep);
    } else {
      SplitJoin(parts[1..], sep);
      SplitCut(parts[0], sep, Join(parts[1..], sep));
      assert [parts[0]] + parts[1..] == parts;
    }
  }

  /** A string that ends with a borderless separator splits into a last piece that is empty. */
  lemma {:induction false} SplitTrailingSep(s: string, sep: string)
    requires sep != [] && Borderless(sep)
    ensures EndsWith(s, sep) ==> Split(s, sep)[|Split(s, sep)| - 1] == ""
    decreases |s|
  {
    var n := |sep|;
    if !EndsWith(s, sep) {
    } else if StartsWith(s, sep) {
      var rest := Split(s[n..], sep);
      assert Split(s, sep) == [""] + rest;
      if |s| > n {
        SeparatorsApart(s, sep);
        assert s[n..][|s[n..]| - n..] == s[|s| - n..];
        SplitTrailingSep(s[n..], sep);
      } else {
        assert s[n..] == [];
      }
    } else {
      assert s != [] && |s| > n;
      var rest := Split(s[1..], sep);
      assert s[1..][|s[1..]| - n..] == s[|s| - n..];
      SplitTrailingSep(s[1..], sep);
      assert |rest| > 1 by {
        JoinSplit(s[1..], sep);
      }
      assert Split(s, sep) == [[s[0]] + rest[0]] + rest[1..];
    }
  }

  /** Skipping the first separator never skips an occurrence of a pattern that starts with it. */
  lemma {:induction false} ContainsAfterSep(s: string, sep: string, x: string, i: int)
    requires sep != [] && Borderless(sep) && StartsWith(s, sep) && StartsWith(x, sep)
    requires 1 <= i <= |sep| && Contains(s[i..], x)
    ensures Contains(s[|sep|..], x)
    decreases |sep| - i
  {
    if i < |sep| {
      NoOverlap(s, sep, i);
      assert !StartsWith(s[i..], x) by {
        if StartsWith(s[i..], x) {
          StartsWithTransitive(s[i..], x, sep);
          assert false;
        }
      }
      assert s[i..][1..] == s[i + 1..];
      ContainsAfterSep(s, sep, x, i + 1);
    }
  }

  /** Two adjacent borderless separators produce an empty piece after the first one. */
  lemma {:induction false} SplitDoubledSep(s: string, sep: string)
    requires sep != [] && Borderless(sep)
    ensures Contains(s, sep + sep) ==> exists k :: 1 <= k < |Split(s, sep)| && Split(s, sep)[k] == ""
    decreases |s|
  {
    var n := |sep|;
    var parts := Split(s, sep);
    if !Contains(s, sep + sep) {
    } else if StartsWith(s, sep + sep) {
      StartsWithTransitive(s, sep + sep, sep);
      assert parts == [""] + Split(s[n..], sep);
      assert s[n..][..n] == s[n..2 * n] == (sep + sep)[n..];
      assert StartsWith(s[n..], sep);
      assert parts[1] == "";
    } else if StartsWith(s, sep) {
      var rest := Split(s[n..], sep);
      assert parts == [""] + rest;
      ContainsAfterSep(s, sep, sep + sep, 1);
      SplitDoubledSep(s[n..], sep);
      var k :| 1 <= k < |rest| && rest[k] == "";
      assert parts[k + 1] == "";
    } else {
      var rest := Split(s[1..], sep);
      assert !StartsWith(s, sep + sep);
      SplitDoubledSep(s[1..], sep);
      var k :| 1 <= k < |rest| && rest[k] == "";
      assert parts == [[s[0]] + rest[0]] + rest[1..];
      assert parts[k] == "";
    }
  }
}
