/** Suffixes and contiguous substrings of sequences. */
module Words {
  ghost predicate OccursAt<T>(pat: seq<T>, text: seq<T>, i: nat) {
    i + |pat| <= |text| && text[i..i + |pat|] == pat
  }

  /** `pat` is a contiguous substring of `text`. */
  ghost predicate Occurs<T>(pat: seq<T>, text: seq<T>) {
    exists i: nat :: OccursAt(pat, text, i)
  }

  /** `b` ends with `a`: some number of elements can be dropped from `b` to leave `a`. */
  predicate IsSuffix<T(==)>(a: seq<T>, b: seq<T>)
    decreases |b|
  {
    |a| <= |b| && if |a| == |b| then a == b else IsSuffix(a, b[1..])
  }

  lemma {:induction false} SuffixSlice<T>(a: seq<T>, b: seq<T>)
    ensures IsSuffix(a, b) <==> |a| <= |b| && b[|b| - |a|..] == a
    decreases |b|
  {
    if |a| < |b| {
      SuffixSlice(a, b[1..]);
      assert b[1..][|b| - 1 - |a|..] == b[|b| - |a|..];
    }
  }

  /** The last `k` elements before position `i`. */
  lemma TakeDrop<T>(text: seq<T>, i: nat, k: nat)
    requires k <= i <= |text|
    ensures text[..i][i - k..] == text[i - k..i]
  {
  }

  /** If the text up to `i` ends with `a`, then `a` occurs right before `i`. */
  lemma SuffixOccurs<T>(a: seq<T>, text: seq<T>, i: nat)
    requires i <= |text| && IsSuffix(a, text[..i])
    ensures |a| <= i && OccursAt(a, text, i - |a|)
  {
    SuffixSlice(a, text[..i]);
    TakeDrop(text, i, |a|);
  }

  lemma OccursSuffix<T>(a: seq<T>, text: seq<T>, i: nat)
    requires |a| <= i <= |text| && OccursAt(a, text, i - |a|)
    ensures IsSuffix(a, text[..i])
  {
    TakeDrop(text, i, |a|);
    SuffixSlice(a, text[..i]);
  }

  lemma SuffixOfSuffix<T>(a: seq<T>, b: seq<T>, u: seq<T>)
    requires IsSuffix(a, u) && IsSuffix(b, u) && |a| <= |b|
    ensures IsSuffix(a, b)
  {
    SuffixSlice(a, u);
    SuffixSlice(b, u);
    SuffixSlice(a, b);
    assert u[|u| - |a|..] == u[|u| - |b|..][|b| - |a|..];
  }

  lemma SuffixTrans<T>(a: seq<T>, b: seq<T>, u: seq<T>)
    requires IsSuffix(a, b) && IsSuffix(b, u)
    ensures IsSuffix(a, u)
  {
    SuffixSlice(a, b);
    SuffixSlice(b, u);
    SuffixSlice(a, u);
    assert u[|u| - |a|..] == u[|u| - |b|..][|b| - |a|..];
  }

  /** The suffixes of `u` other than `u` itself are the suffixes of `u[1..]`. */
  lemma ProperSuffix<T>(a: seq<T>, u: seq<T>)
    requires |u| > 0
    ensures IsSuffix(a, u[1..]) <==> IsSuffix(a, u) && |a| < |u|
  {
  }

  lemma SuffixSnoc<T>(a: seq<T>, x: T, u: seq<T>, c: T)
    ensures IsSuffix(a + [x], u + [c]) <==> IsSuffix(a, u) && x == c
  {
    SuffixSlice(a, u);
    SuffixSlice(a + [x], u + [c]);
    if |a| <= |u| {
      assert (u + [c])[|u| - |a|..] == u[|u| - |a|..] + [c];
      SnocInjective(u[|u| - |a|..], c, a, x);
    }
  }

  lemma SnocInjective<T>(a: seq<T>, x: T, b: seq<T>, y: T)
    ensures a + [x] == b + [y] ==> a == b && x == y
  {
    if a + [x] == b + [y] {
      assert (a + [x])[..|a|] == a && (b + [y])[..|b|] == b;
      assert (a + [x])[|a|] == x && (b + [y])[|b|] == y;
    }
  }

  lemma EmptySuffix<T>(u: seq<T>)
    ensures IsSuffix([], u)
  {
    SuffixSlice([], u);
  }

  // ---------------------------------------------------------------- the order of strings

  /** Lexicographic order. */
  predicate Less(a: string, b: string) {
    b != [] && (a == [] || a[0] < b[0] || (a[0] == b[0] && Less(a[1..], b[1..])))
  }

  /** At the first difference the smaller character decides; a proper prefix comes first. */
  lemma {:induction false} LessExactly(a: string, b: string, k: nat)
    requires k <= |a| && k <= |b| && a[..k] == b[..k] && (k < |a| && k < |b| ==> a[k] != b[k])
    ensures Less(a, b) <==> k < |b| && (k == |a| || a[k] < b[k])
  {
    if k > 0 {
      assert a[0] == a[..k][0] == b[..k][0] == b[0];
      assert a[1..][..k - 1] == a[..k][1..] == b[..k][1..] == b[1..][..k - 1];
      LessExactly(a[1..], b[1..], k - 1);
    }
  }

  lemma {:induction false} LessTotal(a: string, b: string)
    ensures Less(a, b) || Less(b, a) || a == b
    ensures !(Less(a, b) && Less(b, a)) && !Less(a, a)
  {
    if a != [] {
      LessTotal(a[1..], a[1..]);
      if b != [] && a[0] == b[0] {
        LessTotal(a[1..], b[1..]);
        assert a == [a[0]] + a[1..] && b == [b[0]] + b[1..];
      }
    }
  }

  lemma {:induction false} LessTrans(a: string, b: string, c: string)
    requires Less(a, b) && Less(b, c)
    ensures Less(a, c)
  {
    if a != [] && a[0] == b[0] == c[0] {
      LessTrans(a[1..], b[1..], c[1..]);
    }
  }

  /** A non-empty set of strings has a least one. */
  lemma {:induction false} LeastExists(keys: set<string>) returns (k: string)
    requires keys != {}
    ensures k in keys && forall j | j in keys :: j == k || Less(k, j)
  {
    var x :| x in keys;
    if keys == {x} {
      k := x;
    } else {
      var rest := keys - {x};
      var m := LeastExists(rest);
      LessTotal(x, m);
      k := if Less(x, m) then x else m;
      forall j | j in keys ensures j == k || Less(k, j) {
        if j in rest && j != m && Less(x, m) {
          LessTrans(x, m, j);
        }
      }
    }
  }
}
