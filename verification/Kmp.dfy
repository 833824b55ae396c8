/**
 The substring matcher of the search index (crates/opsense-mlib/src/search.rs): the border
 table `lps`, one run of Knuth-Morris-Pratt over a node prefix, and the callback that tells
 the trie walk whether a node completes the pattern and with which partial matches to go on.
 */
module Kmp {
  import opened Words
  import opened Wrappers

  // ---------------------------------------------------------------- overlaps

  /** The first `l < b` elements of `p` are a suffix of `u`. */
  ghost predicate Overlaps<T>(p: seq<T>, u: seq<T>, l: nat, b: nat) {
    l < b <= |p| && IsSuffix(p[..l], u)
  }

  /** `j` is the longest overlap below the bound `b`. */
  ghost predicate Longest<T>(p: seq<T>, u: seq<T>, j: nat, b: nat) {
    Overlaps(p, u, j, b) && forall l: nat :: Overlaps(p, u, l, b) ==> l <= j
  }

  /** While borders are followed on reading `x` after `u`: every overlap that `x` extends is at most `j`. */
  ghost predicate Pending<T>(p: seq<T>, u: seq<T>, x: T, j: nat, b: nat) {
    Overlaps(p, u, j, b) && forall l: nat :: Overlaps(p, u, l, b) && p[l] == x ==> l <= j
  }

  lemma Shorten<T>(p: seq<T>, u: seq<T>, x: T, l: nat)
    requires l <= |p|
    ensures IsSuffix(p[..l], u + [x]) <==> l == 0 || (IsSuffix(p[..l - 1], u) && p[l - 1] == x)
  {
    if l > 0 {
      assert p[..l] == p[..l - 1] + [p[l - 1]];
      SuffixSnoc(p[..l - 1], p[l - 1], u, x);
    } else {
      assert p[..l] == [];
      EmptySuffix(u + [x]);
    }
  }

  /** Falling back to the longest border keeps every useful overlap in reach. */
  lemma PendingFall<T>(p: seq<T>, u: seq<T>, x: T, j: nat, b: nat, f: nat)
    requires Pending(p, u, x, j, b) && j > 0 && p[j] != x && Longest(p, p[..j], f, j)
    ensures Pending(p, u, x, f, b)
  {
    SuffixTrans(p[..f], p[..j], u);
    forall l: nat | Overlaps(p, u, l, b) && p[l] == x ensures l <= f {
      SuffixOfSuffix(p[..l], p[..j], u);
      assert Overlaps(p, p[..j], l, j);
    }
  }

  lemma PendingHit<T>(p: seq<T>, u: seq<T>, x: T, j: nat, b: nat, b': nat)
    requires Pending(p, u, x, j, b) && p[j] == x && j + 1 < b' <= b + 1 && b' <= |p|
    ensures Longest(p, u + [x], j + 1, b')
  {
    Shorten(p, u, x, j + 1);
    forall l: nat | Overlaps(p, u + [x], l, b') ensures l <= j + 1 {
      Shorten(p, u, x, l);
      assert l > 0 ==> Overlaps(p, u, l - 1, b);
    }
  }

  lemma PendingMiss<T>(p: seq<T>, u: seq<T>, x: T, b: nat, b': nat)
    requires Pending(p, u, x, 0, b) && p[0] != x && 0 < b' <= b + 1 && b' <= |p|
    ensures Longest(p, u + [x], 0, b')
  {
    EmptySuffix(u + [x]);
    assert p[..0] == [];
    forall l: nat | Overlaps(p, u + [x], l, b') ensures l == 0 {
      Shorten(p, u, x, l);
      assert l > 0 ==> Overlaps(p, u, l - 1, b);
    }
  }

  /** A full match can only be completed from an overlap of length `|p| - 1`. */
  lemma PendingMatch<T>(p: seq<T>, u: seq<T>, x: T, j: nat)
    requires Pending(p, u, x, j, |p|)
    ensures IsSuffix(p, u + [x]) <==> j == |p| - 1 && p[j] == x
  {
    assert p[..|p|] == p;
    Shorten(p, u, x, |p|);
    assert IsSuffix(p[..|p| - 1], u) ==> Overlaps(p, u, |p| - 1, |p|);
  }

  // ---------------------------------------------------------------- the border table

  /** `lps[i]` is the length of the longest proper border of `p[..i + 1]`, for the first `n` entries. */
  ghost predicate BordersOk<T>(p: seq<T>, lps: seq<nat>, n: nat) {
    n <= |lps| == |p| && forall i | 0 <= i < n :: Longest(p, p[..i + 1], lps[i], i + 1)
  }

  method Lps<T(==)>(pattern: seq<T>) returns (lps: seq<nat>)
    ensures BordersOk(pattern, lps, |pattern|)
  {
    var n := |pattern|;
    lps := seq(n, _ => 0);
    var j: nat := 0;
    if n == 0 {
      return;
    }
    EmptySuffix(pattern[..1]);
    for i := 1 to n
      invariant BordersOk(pattern, lps, i) && j == lps[i - 1]
      invariant forall k | i <= k < n :: lps[k] == 0
    {
      ghost var u, x := pattern[..i], pattern[i];
      while j > 0 && pattern[i] != pattern[j]
        invariant Pending(pattern, u, x, j, i)
      {
        PendingFall(pattern, u, x, j, i, lps[j - 1]);
        j := lps[j - 1];
      }
      assert u + [x] == pattern[..i + 1];
      if pattern[i] == pattern[j] {
        PendingHit(pattern, u, x, j, i, i + 1);
        j := j + 1;
        lps := lps[i := j];
      } else {
        PendingMiss(pattern, u, x, i, i + 1);
      }
    }
  }

  // ---------------------------------------------------------------- one run over a prefix

  /** The state of a run that may fall back: `u` has been read, `rest` is still to come. */
  ghost predicate Scanning<T>(p: seq<T>, u: seq<T>, rest: seq<T>, j: nat) {
    !Occurs(p, u) && if rest == [] then Longest(p, u, j, |p|) else Pending(p, u, rest[0], j, |p|)
  }

  lemma OccursSnoc<T>(p: seq<T>, u: seq<T>, x: T)
    requires p != []
    ensures Occurs(p, u + [x]) <==> Occurs(p, u) || IsSuffix(p, u + [x])
  {
    var v := u + [x];
    forall i: nat | i + |p| <= |u| ensures OccursAt(p, v, i) <==> OccursAt(p, u, i) {
      assert v[i..i + |p|] == u[i..i + |p|];
    }
    SuffixSlice(p, v);
    if |p| <= |v| {
      assert v[|v| - |p|..] == v[|v| - |p|..|v| - |p| + |p|];
      assert IsSuffix(p, v) <==> OccursAt(p, v, |v| - |p|);
    }
    forall i: nat | i + |p| <= |u| && OccursAt(p, u, i) ensures OccursAt(p, v, i) {
    }
  }

  lemma ScanStart<T>(p: seq<T>, pos: nat, rest: seq<T>)
    requires pos < |p|
    ensures Scanning(p, p[..pos], rest, pos)
  {
    assert p[..pos][0..] == p[..pos];
  }

  /** Reading a matching element either completes the pattern or lengthens the partial match. */
  lemma ScanHit<T>(p: seq<T>, u: seq<T>, rest: seq<T>, j: nat)
    requires rest != [] && Scanning(p, u, rest, j) && rest[0] == p[j]
    ensures if j + 1 == |p| then Occurs(p, u + [rest[0]]) else Scanning(p, u + [rest[0]], rest[1..], j + 1)
  {
    OccursSnoc(p, u, rest[0]);
    PendingMatch(p, u, rest[0], j);
    if j + 1 < |p| {
      PendingHit(p, u, rest[0], j, |p|, |p|);
    }
  }

  lemma ScanSkip<T>(p: seq<T>, u: seq<T>, rest: seq<T>)
    requires rest != [] && Scanning(p, u, rest, 0) && rest[0] != p[0]
    ensures Scanning(p, u + [rest[0]], rest[1..], 0)
  {
    OccursSnoc(p, u, rest[0]);
    PendingMatch(p, u, rest[0], 0);
    PendingMiss(p, u, rest[0], |p|, |p|);
  }

  lemma ScanFall<T>(p: seq<T>, lps: seq<nat>, u: seq<T>, rest: seq<T>, j: nat)
    requires rest != [] && Scanning(p, u, rest, j) && BordersOk(p, lps, |p|) && 0 < j < |p| && rest[0] != p[j]
    ensures lps[j - 1] < j && Scanning(p, u, rest, lps[j - 1])
  {
    PendingFall(p, u, rest[0], j, |p|, lps[j - 1]);
  }

  lemma OccursInPrefix<T>(p: seq<T>, u: seq<T>, v: seq<T>)
    requires Occurs(p, u)
    ensures Occurs(p, u + v)
  {
    var i: nat :| OccursAt(p, u, i);
    assert (u + v)[i..i + |p|] == u[i..i + |p|];
    assert OccursAt(p, u + v, i);
  }

  /**
   One run, started with `pos` elements matched already. With `recurse` it is Knuth-Morris-Pratt:
   it finds the pattern anywhere in the text, or ends with the longest partial match. Without, it
   only compares at the start position.
   */
  method KmpMatch<T(==)>(pattern: seq<T>, data: seq<T>, lps: seq<nat>, pos: nat, from: nat, recurse: bool)
    returns (found: bool, keep: bool, dataPos: nat, patternPos: nat)
    requires BordersOk(pattern, lps, |pattern|) && pos < |pattern| && from <= |data|
    ensures recurse ==> (found <==> Occurs(pattern, pattern[..pos] + data[from..]))
    ensures recurse && !found ==> Longest(pattern, pattern[..pos] + data[from..], patternPos, |pattern|)
    ensures recurse && !found ==> (keep <==> from < |data| && patternPos > 0)
    ensures !recurse ==> (found <==> pattern[pos..] <= data[from..])
  {
    keep := false;
    dataPos, patternPos := from, pos;
    ghost var u, rest := pattern[..pos], data[from..];
    ghost var text := u + rest;
    ScanStart(pattern, pos, rest);
    while dataPos < |data|
      invariant from <= dataPos <= |data| && patternPos < |pattern|
      invariant rest == data[dataPos..] && u + rest == text
      invariant if recurse then Scanning(pattern, u, rest, patternPos)
                else u == pattern[..patternPos] && patternPos >= pos
      invariant recurse && dataPos == |data| ==> (keep <==> from < |data| && patternPos > 0)
      invariant !recurse ==> dataPos - from == patternPos - pos
      decreases |data| - dataPos, patternPos
    {
      if data[dataPos] == pattern[patternPos] {
        if recurse {
          ScanHit(pattern, u, rest, patternPos);
        }
        keep := true;
        dataPos := dataPos + 1;
        patternPos := patternPos + 1;
        assert u + rest == u + [rest[0]] + rest[1..];
        u, rest := u + [rest[0]], rest[1..];
      }
      if patternPos == |pattern| {
        if recurse {
          OccursInPrefix(pattern, u, rest);
        } else {
          Compare(pattern, pos, data, from, text, u, rest, patternPos);
        }
        return true, false, dataPos, patternPos;
      }
      if dataPos < |data| && pattern[patternPos] != data[dataPos] {
        if !recurse {
          Compare(pattern, pos, data, from, text, u, rest, patternPos);
          return false, false, dataPos, patternPos;
        }
        if patternPos != 0 {
          ScanFall(pattern, lps, u, rest, patternPos);
          patternPos := lps[patternPos - 1];
        } else {
          ScanSkip(pattern, u, rest);
          dataPos := dataPos + 1;
          keep := false;
          assert u + rest == u + [rest[0]] + rest[1..];
          u, rest := u + [rest[0]], rest[1..];
        }
      }
    }
    assert u == text;
    if !recurse {
      Compare(pattern, pos, data, from, text, u, rest, patternPos);
    }
    found := false;
  }

  /** The verdict of a comparison without fallback, when it stops after `k` elements of the pattern. */
  lemma Compare<T>(p: seq<T>, pos: nat, data: seq<T>, from: nat, text: seq<T>, u: seq<T>, rest: seq<T>, k: nat)
    requires pos <= k <= |p| && from <= |data| && text == p[..pos] + data[from..] == u + rest && u == p[..k]
    requires k < |p| && rest != [] ==> p[k] != rest[0]
    ensures p[pos..] <= data[from..] <==> k == |p|
  {
    assert data[from..] == text[pos..] && text[..k] == u && text[k..] == rest;
    if k == |p| {
      assert p[pos..] == text[pos..][..k - pos];
    } else if rest != [] {
      assert p[pos..][k - pos] == p[k] && text[pos..][k - pos] == rest[0];
    }
  }

  // ---------------------------------------------------------------- the callback

  /** `OnMatchCallback`: the pattern is complete, or these are the partial matches to carry into the children. */
  datatype MatchResult = MatchResult(found: bool, continuations: seq<nat>)

  /** The longest `l <= k` such that `u` ends with the first `l` elements of `p`. */
  function OverlapUpTo<T(==)>(p: seq<T>, u: seq<T>, k: nat): (l: nat)
    requires k <= |p|
    ensures l <= k && IsSuffix(p[..l], u)
    ensures forall m: nat | l < m <= k :: !IsSuffix(p[..m], u)
  {
    if k == 0 then
      EmptySuffix(u);
      assert p[..0] == [];
      0
    else if IsSuffix(p[..k], u) then k
    else OverlapUpTo(p, u, k - 1)
  }

  function Overlap<T(==)>(p: seq<T>, u: seq<T>): (l: nat)
    requires |p| > 0
    ensures Longest(p, u, l, |p|)
  {
    OverlapUpTo(p, u, |p| - 1)
  }

  lemma LongestUnique<T>(p: seq<T>, u: seq<T>, j: nat, k: nat, b: nat)
    requires Longest(p, u, j, b) && Longest(p, u, k, b)
    ensures j == k
  {
  }

  /** The scan for later occurrences of `p[0]` in the prefix, from `s` on; `None` when one completes the pattern. */
  function ScanFrom<T(==)>(p: seq<T>, prefix: seq<T>, s: nat): Option<seq<nat>>
    requires |p| > 0
    decreases |prefix| - s
  {
    if s >= |prefix| then Some([])
    else if prefix[s] != p[0] then ScanFrom(p, prefix, s + 1)
    else if |prefix| - s >= |p| then if p <= prefix[s..] then None else ScanFrom(p, prefix, s + 1)
    else Prepend(Nonzero(Overlap(p, prefix[s..])), ScanFrom(p, prefix, s + 1))
  }

  function Nonzero(l: nat): seq<nat> {
    if l > 0 then [l] else []
  }

  function Prepend(a: seq<nat>, b: Option<seq<nat>>): Option<seq<nat>> {
    match b
    case None => None
    case Some(cs) => Some(a + cs)
  }

  /** The callback's answer for a node prefix, `pos` elements of the pattern being matched already. */
  function KmpResult<T(==)>(p: seq<T>, prefix: seq<T>, pos: nat): MatchResult
    requires pos < |p|
  {
    if |prefix| >= |p| - pos && p[pos..] <= prefix then MatchResult(true, [])
    else
      match if pos == 0 then ScanFrom(p, prefix, 1) else Some([])
      case None => MatchResult(true, [])
      case Some(cs) => MatchResult(false, cs + Carry(p, prefix, pos))
  }

  function Carry<T(==)>(p: seq<T>, prefix: seq<T>, pos: nat): seq<nat>
    requires pos < |p|
  {
    if 0 < |prefix| < |p| - pos then Nonzero(Overlap(p, p[..pos] + prefix)) else []
  }

  /** A text shorter than the pattern cannot contain it. */
  lemma TooShort<T>(p: seq<T>, u: seq<T>)
    requires |u| < |p|
    ensures !Occurs(p, u)
  {
  }

  lemma PrependTwice(a: seq<nat>, b: seq<nat>, c: Option<seq<nat>>)
    ensures Prepend([], c) == c && Prepend(a, Prepend(b, c)) == Prepend(a + b, c)
  {
    if c.Some? {
      assert [] + c.value == c.value && a + (b + c.value) == a + b + c.value;
    }
  }

  method KmpMatcher<T(==)>(pattern: seq<T>, lps: seq<nat>, prefix: seq<T>, pos: nat) returns (r: MatchResult)
    requires BordersOk(pattern, lps, |pattern|) && pos < |pattern|
    ensures r == KmpResult(pattern, prefix, pos)
  {
    var recurse := |prefix| < |pattern| - pos;
    var found, keep, _, newPos := KmpMatch(pattern, prefix, lps, pos, 0, recurse);
    assert prefix[0..] == prefix;
    if recurse {
      TooShort(pattern, pattern[..pos] + prefix);
      LongestUnique(pattern, pattern[..pos] + prefix, newPos, Overlap(pattern, pattern[..pos] + prefix), |pattern|);
    }
    if found {
      return MatchResult(true, []);
    }
    var continuations: seq<nat> := [];
    if pos == 0 && 1 < |prefix| {
      var scanPos: nat := 1;
      PrependTwice([], [], ScanFrom(pattern, prefix, 1));
      while scanPos < |prefix|
        invariant 1 <= scanPos <= |prefix|
        invariant ScanFrom(pattern, prefix, 1) == Prepend(continuations, ScanFrom(pattern, prefix, scanPos))
      {
        PrependTwice(continuations, Nonzero(Overlap(pattern, prefix[scanPos..])),
                     ScanFrom(pattern, prefix, scanPos + 1));
        if prefix[scanPos] == pattern[0] {
          var rec := |prefix| - scanPos < |pattern|;
          var f2, k2, _, pp2 := KmpMatch(pattern, prefix, lps, 0, scanPos, rec);
          if rec {
            assert pattern[..0] + prefix[scanPos..] == prefix[scanPos..];
            TooShort(pattern, prefix[scanPos..]);
            LongestUnique(pattern, prefix[scanPos..], pp2, Overlap(pattern, prefix[scanPos..]), |pattern|);
          }
          assert pattern[0..] == pattern;
          if f2 {
            return MatchResult(true, []);
          }
          if rec && k2 && pp2 < |pattern| {
            continuations := continuations + [pp2];
          }
        }
        scanPos := scanPos + 1;
      }
    }
    if recurse && keep && newPos < |pattern| {
      continuations := continuations + [newPos];
    }
    r := MatchResult(false, continuations);
  }

  // ---------------------------------------------------------------- what the answers mean

  /** A partial match of length `l` that starts at or after position `s` of the prefix. */
  ghost predicate Partial<T>(p: seq<T>, prefix: seq<T>, l: nat, s: nat) {
    0 < l < |p| && IsSuffix(p[..l], prefix) && s + l <= |prefix|
  }

  lemma SuffixOfDrop<T>(a: seq<T>, u: seq<T>, s: nat)
    requires s <= |u|
    ensures IsSuffix(a, u[s..]) <==> IsSuffix(a, u) && s + |a| <= |u|
  {
    SuffixSlice(a, u);
    SuffixSlice(a, u[s..]);
    if s + |a| <= |u| {
      assert u[s..][|u| - s - |a|..] == u[|u| - |a|..];
    }
  }

  /** The contribution of scan position `s` alone. */
  lemma ScanHere<T>(p: seq<T>, prefix: seq<T>, s: nat)
    requires 0 < |p| && s < |prefix| && |prefix| - s < |p|
    ensures Overlap(p, prefix[s..]) > 0 ==> Partial(p, prefix, Overlap(p, prefix[s..]), s)
    ensures Partial(p, prefix, |prefix| - s, s) ==> prefix[s] == p[0] && Overlap(p, prefix[s..]) == |prefix| - s
  {
    var l := Overlap(p, prefix[s..]);
    SuffixOfDrop(p[..l], prefix, s);
    var m := |prefix| - s;
    SuffixOfDrop(p[..m], prefix, s);
    if Partial(p, prefix, m, s) {
      assert p[..m][0] == prefix[s];
      assert Overlaps(p, prefix[s..], m, |p|);
    }
  }

  lemma {:induction false} ScanMeaning<T>(p: seq<T>, prefix: seq<T>, s: nat)
    requires 0 < |p| && s <= |prefix|
    ensures ScanFrom(p, prefix, s).None? <==> exists i: nat :: s <= i && OccursAt(p, prefix, i)
    ensures ScanFrom(p, prefix, s).Some? ==>
              forall l: nat :: l in ScanFrom(p, prefix, s).value <==> Partial(p, prefix, l, s)
    decreases |prefix| - s
  {
    if s < |prefix| {
      ScanMeaning(p, prefix, s + 1);
      var rest := ScanFrom(p, prefix, s + 1);
      assert OccursAt(p, prefix, s) <==> |prefix| - s >= |p| && p <= prefix[s..] by {
        if |prefix| - s >= |p| {
          assert prefix[s..][..|p|] == prefix[s..s + |p|];
        }
      }
      assert OccursAt(p, prefix, s) ==> prefix[s] == p[0];
      forall l: nat ensures Partial(p, prefix, l, s) <==>
          Partial(p, prefix, l, s + 1) || (l == |prefix| - s && Partial(p, prefix, l, s)) {
      }
      if |prefix| - s < |p| {
        ScanHere(p, prefix, s);
      }
    } else {
      assert forall i: nat | s <= i :: !OccursAt(p, prefix, i);
    }
  }

  /**
   At a node entered without a partial match, the callback reports the pattern exactly when
   the prefix contains it, and otherwise every partial match with which the prefix ends.
   */
  lemma KmpFresh<T>(p: seq<T>, prefix: seq<T>)
    requires |p| > 0
    ensures KmpResult(p, prefix, 0).found <==> Occurs(p, prefix)
    ensures !KmpResult(p, prefix, 0).found ==>
              forall l: nat :: l in KmpResult(p, prefix, 0).continuations <==> 0 < l < |p| && IsSuffix(p[..l], prefix)
  {
    assert p[0..] == p && p[..0] + prefix == prefix;
    assert OccursAt(p, prefix, 0) <==> |prefix| >= |p| && p <= prefix;
    if prefix == [] {
      assert forall i: nat :: !OccursAt(p, prefix, i);
      assert forall l: nat | 0 < l < |p| :: |p[..l]| > 0;
    } else {
      ScanMeaning(p, prefix, 1);
      var carry := Carry(p, prefix, 0);
      forall l: nat ensures Partial(p, prefix, l, 0) <==> Partial(p, prefix, l, 1) || l in carry {
        if |prefix| < |p| && l == |prefix| && Partial(p, prefix, l, 0) {
          assert Overlaps(p, prefix, l, |p|);
        }
      }
    }
  }

  lemma SuffixThrough<T>(a: seq<T>, b: seq<T>, before: seq<T>, prefix: seq<T>)
    requires IsSuffix(b, before) && IsSuffix(a, b + prefix)
    ensures IsSuffix(a, before + prefix)
  {
    SuffixSlice(b, before);
    SuffixSlice(b + prefix, before + prefix);
    assert (before + prefix)[|before| - |b|..] == before[|before| - |b|..] + prefix;
    SuffixTrans(a, b + prefix, before + prefix);
  }

  /** Whatever was matched before the node, the callback only reports what the whole text really contains. */
  lemma KmpSound<T>(p: seq<T>, prefix: seq<T>, pos: nat, before: seq<T>)
    requires pos < |p| && IsSuffix(p[..pos], before)
    ensures KmpResult(p, prefix, pos).found ==> Occurs(p, before + prefix)
    ensures forall l: nat | l in KmpResult(p, prefix, pos).continuations ::
              0 < l < |p| && IsSuffix(p[..l], before + prefix)
  {
    var r := KmpResult(p, prefix, pos);
    if pos == 0 {
      KmpFresh(p, prefix);
      if r.found {
        OccursLater(p, before, prefix);
      }
    } else if r.found {
      OccursAcross(p, prefix, pos, before);
    }
    forall l: nat | l in r.continuations ensures 0 < l < |p| && IsSuffix(p[..l], before + prefix) {
      assert pos == 0 ==> p[..pos] + prefix == prefix;
      SuffixThrough(p[..l], p[..pos], before, prefix);
    }
  }

  lemma OccursLater<T>(p: seq<T>, before: seq<T>, prefix: seq<T>)
    requires Occurs(p, prefix)
    ensures Occurs(p, before + prefix)
  {
    var i: nat :| OccursAt(p, prefix, i);
    assert (before + prefix)[|before| + i..|before| + i + |p|] == prefix[i..i + |p|];
    assert OccursAt(p, before + prefix, |before| + i);
  }

  lemma OccursAcross<T>(p: seq<T>, prefix: seq<T>, pos: nat, before: seq<T>)
    requires pos <= |p| && IsSuffix(p[..pos], before) && p[pos..] <= prefix
    ensures Occurs(p, before + prefix)
  {
    SuffixSlice(p[..pos], before);
    var i := |before| - pos;
    assert (before + prefix)[i..i + |p|] == before[i..] + prefix[..|p| - pos] == p[..pos] + p[pos..] == p;
    assert OccursAt(p, before + prefix, i);
  }

  /** A partial match that the prefix continues is never dropped. */
  lemma KmpAdvance<T>(p: seq<T>, prefix: seq<T>, pos: nat)
    requires 0 < pos < |p| && 0 < |prefix|
    ensures p[pos..] <= prefix ==> KmpResult(p, prefix, pos).found
    ensures pos + |prefix| < |p| && prefix == p[pos..pos + |prefix|] ==>
              !KmpResult(p, prefix, pos).found && pos + |prefix| in KmpResult(p, prefix, pos).continuations
  {
    var n := pos + |prefix|;
    if n < |p| && prefix == p[pos..n] {
      assert p[..pos] + prefix == p[..n];
      assert Overlaps(p, p[..n], n, |p|);
      assert Overlap(p, p[..n]) == n;
    }
  }

  /**
   At a node entered with a partial match of `pos` elements. If the rest of the pattern fits into the prefix, the
   callback only compares them; otherwise it carries on the longest overlap of what was matched and the prefix.
   */
  lemma KmpContinued<T>(p: seq<T>, prefix: seq<T>, pos: nat) returns (l: nat)
    requires 0 < pos < |p|
    ensures Longest(p, p[..pos] + prefix, l, |p|)
    ensures |prefix| >= |p| - pos ==> KmpResult(p, prefix, pos) == MatchResult(p[pos..] <= prefix, [])
    ensures |prefix| < |p| - pos ==>
              KmpResult(p, prefix, pos) == MatchResult(false, if prefix == [] || l == 0 then [] else [l])
  {
    l := Overlap(p, p[..pos] + prefix);
  }

  /** Each of `starts` begins a restart inside the prefix, in order; its longest overlap with the pattern is in `cs`. */
  ghost predicate Restarts<T>(p: seq<T>, prefix: seq<T>, from: nat, starts: seq<nat>, cs: seq<nat>)
    requires |p| > 0
  {
    && |starts| == |cs|
    && (forall i | 0 <= i < |cs| :: CanRestart(p, prefix, starts[i]) && starts[i] >= from
                                    && cs[i] > 0 && Longest(p, prefix[starts[i]..], cs[i], |p|))
    && (forall i, j | 0 <= i < j < |starts| :: starts[i] < starts[j])
    && (forall s: nat {:trigger CanRestart(p, prefix, s)} | CanRestart(p, prefix, s) && s >= from && s !in starts ::
          Longest(p, prefix[s..], 0, |p|))
  }

  /** The first element of the pattern is at position `s`, and the rest of the prefix is too short for it. */
  ghost predicate CanRestart<T>(p: seq<T>, prefix: seq<T>, s: nat)
    requires |p| > 0
  {
    s < |prefix| && prefix[s] == p[0] && |prefix| - s < |p|
  }

  lemma {:induction false} ScanOrder<T>(p: seq<T>, prefix: seq<T>, from: nat) returns (starts: seq<nat>)
    requires |p| > 0 && ScanFrom(p, prefix, from).Some?
    ensures Restarts(p, prefix, from, starts, ScanFrom(p, prefix, from).value)
    decreases |prefix| - from
  {
    starts := [];
    if from < |prefix| {
      starts := ScanOrder(p, prefix, from + 1);
      var cs := ScanFrom(p, prefix, from + 1).value;
      if CanRestart(p, prefix, from) && Overlap(p, prefix[from..]) > 0 {
        RestartFirst(p, prefix, from, starts, cs, Overlap(p, prefix[from..]));
        starts := [from] + starts;
      } else {
        RestartNone(p, prefix, from, starts, cs);
      }
    }
  }

  lemma RestartFirst<T>(p: seq<T>, prefix: seq<T>, from: nat, starts: seq<nat>, cs: seq<nat>, l: nat)
    requires |p| > 0 && Restarts(p, prefix, from + 1, starts, cs) && CanRestart(p, prefix, from)
    requires l > 0 && Longest(p, prefix[from..], l, |p|)
    ensures Restarts(p, prefix, from, [from] + starts, [l] + cs)
  {
    var starts', cs' := [from] + starts, [l] + cs;
    assert from in starts' && forall s | s in starts :: s in starts';
    forall i | 0 <= i < |cs'|
      ensures CanRestart(p, prefix, starts'[i]) && starts'[i] >= from
      ensures cs'[i] > 0 && Longest(p, prefix[starts'[i]..], cs'[i], |p|)
    {
      assert i > 0 ==> starts'[i] == starts[i - 1] && cs'[i] == cs[i - 1];
    }
  }

  lemma RestartNone<T>(p: seq<T>, prefix: seq<T>, from: nat, starts: seq<nat>, cs: seq<nat>)
    requires |p| > 0 && Restarts(p, prefix, from + 1, starts, cs)
    requires CanRestart(p, prefix, from) ==> Longest(p, prefix[from..], 0, |p|)
    ensures Restarts(p, prefix, from, starts, cs)
  {
  }

  /**
   At a node entered without a partial match, the order of the continuations: those of the restarts from position 1
   on, by position, and last the longest overlap of the whole prefix, if it is shorter than the pattern.
   */
  lemma KmpOrder<T>(p: seq<T>, prefix: seq<T>) returns (starts: seq<nat>, restarts: seq<nat>, l: nat)
    requires |p| > 0 && !KmpResult(p, prefix, 0).found
    ensures Restarts(p, prefix, 1, starts, restarts) && Longest(p, prefix, l, |p|)
    ensures KmpResult(p, prefix, 0).continuations == restarts + if |prefix| < |p| && l > 0 then [l] else []
  {
    starts := ScanOrder(p, prefix, 1);
    restarts := ScanFrom(p, prefix, 1).value;
    l := Overlap(p, prefix);
    assert p[..0] + prefix == prefix;
  }
}
