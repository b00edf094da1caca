/** Character-level relations shared by the lexer and the printer: what it
    means for one text to be another with some characters deleted. */
module Text {

  /** `a` turns into `b` by deleting some characters that belong to `gone`,
      and by nothing else (no other character is dropped, added or moved). */
  predicate Erasure(a: string, b: string, gone: set<char>)
    decreases |a|
  {
    if a == [] then b == []
    else
      (a[0] in gone && Erasure(a[1..], b, gone))
      || (b != [] && a[0] == b[0] && Erasure(a[1..], b[1..], gone))
  }

  /** A slice of a slice is a slice of the original. */
  lemma SliceOfSlice(s: string, a: nat, b: nat, c: nat, d: nat)
    requires a <= b <= |s| && c <= d <= b - a
    ensures s[a..b][c..d] == s[a + c..a + d]
  {
    forall k | 0 <= k < d - c ensures s[a..b][c..d][k] == s[a + c..a + d][k] {
    }
  }

  lemma TakeOfSlice(s: string, a: nat, b: nat, d: nat)
    requires a <= b <= |s| && d <= b - a
    ensures s[a..b][..d] == s[a..a + d]
  {
    forall k | 0 <= k < d ensures s[a..b][..d][k] == s[a..a + d][k] {
    }
  }

  lemma DropOfSlice(s: string, a: nat, b: nat, c: nat)
    requires a <= b <= |s| && c <= b - a
    ensures s[a..b][c..] == s[a + c..b]
  {
    forall k | 0 <= k < b - a - c ensures s[a..b][c..][k] == s[a + c..b][k] {
    }
  }

  /** `s` with every character of `gone` removed. */
  function Strip(s: string, gone: set<char>): (r: string)
    ensures |r| <= |s|
    ensures forall k :: 0 <= k < |r| ==> r[k] !in gone
  {
    if s == [] then [] else (if s[0] in gone then [] else [s[0]]) + Strip(s[1..], gone)
  }

  lemma {:induction false} StripAppend(a: string, b: string, gone: set<char>)
    ensures Strip(a + b, gone) == Strip(a, gone) + Strip(b, gone)
  {
    if a == [] {
      assert a + b == b;
    } else {
      assert (a + b)[0] == a[0] && (a + b)[1..] == a[1..] + b;
      StripAppend(a[1..], b, gone);
    }
  }

  lemma {:induction false} ErasureRefl(a: string, gone: set<char>)
    ensures Erasure(a, a, gone)
  {
    if a != [] {
      ErasureRefl(a[1..], gone);
    }
  }

  /** A text made only of deletable characters erases to nothing. */
  lemma {:induction false} ErasureOfGone(g: string, gone: set<char>)
    requires forall k :: 0 <= k < |g| ==> g[k] in gone
    ensures Erasure(g, [], gone)
  {
    if g != [] {
      ErasureOfGone(g[1..], gone);
    }
  }

  lemma {:induction false} ErasureAppend(a1: string, b1: string, a2: string, b2: string, gone: set<char>)
    requires Erasure(a1, b1, gone) && Erasure(a2, b2, gone)
    ensures Erasure(a1 + a2, b1 + b2, gone)
  {
    if a1 == [] {
      assert a1 + a2 == a2 && b1 + b2 == b2;
    } else {
      assert (a1 + a2)[0] == a1[0] && (a1 + a2)[1..] == a1[1..] + a2;
      if a1[0] in gone && Erasure(a1[1..], b1, gone) {
        ErasureAppend(a1[1..], b1, a2, b2, gone);
      } else {
        assert (b1 + b2)[0] == b1[0] && (b1 + b2)[1..] == b1[1..] + b2;
        ErasureAppend(a1[1..], b1[1..], a2, b2, gone);
      }
    }
  }

  /** Deletable characters in front of a text can all be deleted. */
  lemma {:induction false} ErasurePrefix(g: string, a: string, b: string, gone: set<char>)
    requires forall k :: 0 <= k < |g| ==> g[k] in gone
    requires Erasure(a, b, gone)
    ensures Erasure(g + a, b, gone)
  {
    if g != [] {
      assert (g + a)[0] == g[0] && (g + a)[1..] == g[1..] + a;
      ErasurePrefix(g[1..], a, b, gone);
    } else {
      assert g + a == a;
    }
  }

  /** Deleting only characters of `gone` is invisible once every character
      of a wider set is stripped. */
  lemma {:induction false} ErasureStrip(a: string, b: string, gone: set<char>, wider: set<char>)
    requires gone <= wider
    requires Erasure(a, b, gone)
    ensures Strip(a, wider) == Strip(b, wider)
  {
    if a != [] {
      if a[0] in gone && Erasure(a[1..], b, gone) {
        ErasureStrip(a[1..], b, gone, wider);
      } else {
        ErasureStrip(a[1..], b[1..], gone, wider);
      }
    }
  }
}
