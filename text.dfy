/**
 * Text operations the launcher relies on: Python's `str.replace` with a
 * non-empty pattern (every replacement is literal, non-overlapping and
 * proceeds from left to right) and the search for the first occurrence
 * of a character.
 */
module Text {
  import opened Wrappers

  /** `p` occurs in `s` at index `i`. */
  predicate OccursAt(s: string, p: string, i: nat) {
    i + |p| <= |s| && s[i..i + |p|] == p
  }

  /** `p` occurs somewhere in `s` (Python's `p in s`). */
  predicate Contains(s: string, p: string) {
    exists i: nat | i <= |s| :: OccursAt(s, p, i)
  }

  /**
   * `s.replace(p, v)`: scanning from the left, every occurrence of `p`
   * that does not overlap an occurrence already replaced becomes `v`.
   */
  function Replace(s: string, p: string, v: string): (r: string)
    requires |p| > 0
    ensures v == p ==> r == s
    decreases |s|
  {
    if s == [] then []
    else if p <= s then
      assert v == p ==> v + s[|p|..] == s by {
        assert s[..|p|] == p;
      }
      v + Replace(s[|p|..], p, v)
    else [s[0]] + Replace(s[1..], p, v)
  }

  /** Text without `p` is left alone. */
  lemma {:induction false} ReplaceNoMatch(s: string, p: string, v: string)
    requires |p| > 0
    requires !Contains(s, p)
    ensures Replace(s, p, v) == s
    decreases |s|
  {
    if s != [] {
      assert !OccursAt(s, p, 0);
      if Contains(s[1..], p) {
        var i: nat :| i <= |s[1..]| && OccursAt(s[1..], p, i);
        assert s[1..][i..i + |p|] == s[i + 1..i + 1 + |p|];
        assert OccursAt(s, p, i + 1);
      }
      ReplaceNoMatch(s[1..], p, v);
      assert [s[0]] + s[1..] == s;
    }
  }

  /**
   * The leftmost occurrence of `p` is replaced, the text before it is kept, and replacement resumes
   * right after it (so occurrences never overlap).
   */
  lemma {:induction false} ReplaceAtFirst(s: string, p: string, v: string, i: nat)
    requires |p| > 0
    requires OccursAt(s, p, i)
    requires forall j: nat :: j < i ==> !OccursAt(s, p, j)
    ensures Replace(s, p, v) == s[..i] + v + Replace(s[i + |p|..], p, v)
    decreases i
  {
    if i == 0 {
      assert p <= s;
    } else {
      assert !OccursAt(s, p, 0);
      var t := s[1..];
      assert OccursAt(t, p, i - 1) by {
        assert t[i - 1..i - 1 + |p|] == s[i..i + |p|];
      }
      forall j: nat | j < i - 1
        ensures !OccursAt(t, p, j)
      {
        assert !OccursAt(s, p, j + 1);
        if j + |p| <= |t| {
          assert t[j..j + |p|] == s[j + 1..j + 1 + |p|];
        }
      }
      ReplaceAtFirst(t, p, v, i - 1);
      assert t[i - 1 + |p|..] == s[i + |p|..];
      assert [s[0]] + t[..i - 1] == s[..i];
    }
  }

  /** Every occurrence of `p` in `s` begins with the first character of `p`. */
  lemma FirstCharNeeded(s: string, p: string, n: nat)
    requires |p| > 0 && n <= |s|
    requires p[0] !in s[..n]
    ensures forall j: nat :: j < n ==> !OccursAt(s, p, j)
  {
  }

  /** A text that has no occurrence of `q` has none of any longer `p` that starts with `q`. */
  lemma NoPrefixNoMatch(s: string, q: string, p: string)
    requires q <= p
    requires !Contains(s, q)
    ensures !Contains(s, p)
  {
    if Contains(s, p) {
      var i: nat :| i <= |s| && OccursAt(s, p, i);
      assert s[i..i + |q|] == s[i..i + |p|][..|q|];
      assert OccursAt(s, q, i);
    }
  }

  /** The index of the first `c` in `s`, or `None` when `c` is not in `s`. */
  function IndexOf(s: string, c: char): (r: Option<nat>)
    ensures r.None? <==> c !in s
    ensures r.Some? ==> r.value < |s| && s[r.value] == c && c !in s[..r.value]
  {
    if s == [] then None
    else if s[0] == c then Some(0)
    else match IndexOf(s[1..], c)
      case None => None
      case Some(i) => assert s[1..][..i] == s[1..i + 1]; Some(i + 1)
  }

  /** `p` cannot occur in a text that lacks one of its characters. */
  lemma MissingCharNoMatch(s: string, p: string, k: nat)
    requires k < |p| && p[k] !in s
    ensures !Contains(s, p)
  {
  }

  /**
   * A text in which `p` occurs at the end of `a`, nowhere earlier and
   * not in what follows, has just that occurrence replaced.
   */
  lemma ReplaceOnce(s: string, a: string, p: string, b: string, v: string, r: string)
    requires |p| > 0 && s == a + p + b && r == a + v + b
    requires forall j: nat :: j < |a| ==> !OccursAt(s, p, j)
    requires !Contains(b, p)
    ensures Replace(s, p, v) == r
  {
    assert s[|a|..|a| + |p|] == p;
    assert s[..|a|] == a;
    ReplaceAtFirst(s, p, v, |a|);
    assert s[|a| + |p|..] == b;
    ReplaceNoMatch(b, p, v);
  }
}
