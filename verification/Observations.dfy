/**
 Observations and the identities by which a station tells them apart
 (crates/opsense-model/src/events.rs, crates/opsense-core/src/station.rs). A value is the bit pattern
 of a 64-bit float. Equality of observations is the derived one, which compares values as floats;
 an identity compares bit patterns and the joined text of the labels.
 */
module Observations {
  import opened Words
  import opened Wrappers

  type Bits = b: nat | b < 0x1_0000_0000_0000_0000

  datatype Observation = Observation(
    ts: int, metricId: string, kind: nat, signal: nat, valueBits: Bits, severity: Option<nat>,
    labels: map<string, string>)

  datatype ObsIdentity = ObsIdentity(
    ts: int, metricId: string, kind: nat, signal: nat, valueBits: Bits, severity: Option<nat>, labels: string)

  // ---------------------------------------------------------------- equality

  const SIGN: nat := 0x8000_0000_0000_0000

  /** All exponent bits set and a mantissa other than 0. */
  predicate IsNaN(v: Bits) {
    v % SIGN > 0x7FF0_0000_0000_0000
  }

  /** 0.0 or -0.0. */
  predicate IsZero(v: Bits) {
    v % SIGN == 0
  }

  predicate FloatEqual(a: Bits, b: Bits) {
    !IsNaN(a) && !IsNaN(b) && (a == b || (IsZero(a) && IsZero(b)))
  }

  /** The derived equality of observations. */
  predicate Equal(a: Observation, b: Observation) {
    && a.ts == b.ts && a.metricId == b.metricId && a.kind == b.kind && a.signal == b.signal
    && FloatEqual(a.valueBits, b.valueBits) && a.severity == b.severity && a.labels == b.labels
  }

  // ---------------------------------------------------------------- identities

  const SEPARATOR: char := '\U{0001}'

  predicate IsLeast(labels: map<string, string>, k: string) {
    k in labels && forall j | j in labels :: j == k || Less(k, j)
  }

  lemma LeastUnique(labels: map<string, string>, a: string, b: string)
    requires IsLeast(labels, a) && IsLeast(labels, b)
    ensures a == b
  {
    LessTotal(a, b);
  }

  function LeastLabel(labels: map<string, string>): (k: string)
    requires labels != map[]
    ensures IsLeast(labels, k)
  {
    assert exists k :: IsLeast(labels, k) by {
      var k := LeastExists(labels.Keys);
      assert IsLeast(labels, k);
    }
    assert forall a, b | IsLeast(labels, a) && IsLeast(labels, b) :: a == b by {
      forall a, b | IsLeast(labels, a) && IsLeast(labels, b) ensures a == b {
        LeastUnique(labels, a, b);
      }
    }
    var k :| k in labels && IsLeast(labels, k);
    k
  }

  /** The labels in order of their names, joined. */
  function LabelText(labels: map<string, string>): string
    decreases |labels|
  {
    if labels == map[] then ""
    else
      var k := LeastLabel(labels);
      k + ['='] + (labels[k] + [SEPARATOR] + LabelText(labels - {k}))
  }

  function Identity(o: Observation): ObsIdentity {
    ObsIdentity(o.ts, o.metricId, o.kind, o.signal, o.valueBits, o.severity, LabelText(o.labels))
  }

  // ---------------------------------------------------------------- reading the text of the labels

  /** The number of `=` in a text. */
  ghost function Marks(s: string): nat {
    if s == [] then 0 else (if s[0] == '=' then 1 else 0) + Marks(s[1..])
  }

  lemma {:induction false} MarksAppend(a: string, b: string)
    ensures Marks(a + b) == Marks(a) + Marks(b)
  {
    if a == [] {
      assert a + b == b;
    } else {
      assert (a + b)[1..] == a[1..] + b;
      MarksAppend(a[1..], b);
    }
  }

  lemma {:induction false} NoMarks(s: string)
    ensures Marks(s) == 0 <==> '=' !in s
  {
    if s != [] {
      NoMarks(s[1..]);
      assert s == [s[0]] + s[1..];
    }
  }

  /** The text splits at its first `=`. */
  lemma {:induction false} FirstMark(s: string) returns (p: string, q: string)
    requires Marks(s) > 0
    ensures s == p + ['='] + q && '=' !in p && Marks(q) == Marks(s) - 1
    decreases |s|
  {
    if s[0] == '=' {
      p, q := [], s[1..];
    } else {
      p, q := FirstMark(s[1..]);
      p := [s[0]] + p;
    }
  }

  /** The position of the first `x`. */
  ghost function FirstAt(s: string, x: char): nat {
    if s == [] || s[0] == x then 0 else 1 + FirstAt(s[1..], x)
  }

  lemma {:induction false} FirstAfter(a: string, x: char, rest: string)
    requires x !in a
    ensures FirstAt(a + [x] + rest, x) == |a|
  {
    if a != [] {
      assert (a + [x] + rest)[1..] == a[1..] + [x] + rest;
      FirstAfter(a[1..], x, rest);
    }
  }

  /** Without `x` in it, the part before the first `x` can be read off. */
  lemma ReadUpTo(a: string, b: string, x: char, ra: string, rb: string)
    requires x !in a && x !in b && a + [x] + ra == b + [x] + rb
    ensures a == b && ra == rb
  {
    FirstAfter(a, x, ra);
    FirstAfter(b, x, rb);
    var s, t := a + [x] + ra, b + [x] + rb;
    assert a == s[..|a|] && b == t[..|b|] && ra == s[|a| + 1..] && rb == t[|b| + 1..];
  }

  lemma TextSplit(labels: map<string, string>) returns (k: string, rest: string)
    requires labels != map[]
    ensures k in labels && rest == LabelText(labels - {k})
    ensures LabelText(labels) == k + ['='] + (labels[k] + [SEPARATOR] + rest)
  {
    k := LeastLabel(labels);
    rest := LabelText(labels - {k});
  }

  lemma OneLabel(k: string, v: string)
    ensures LabelText(map[k := v]) == k + ['='] + (v + [SEPARATOR])
  {
    var m := map[k := v];
    assert k in m;
    assert LeastLabel(m) == k;
    assert m - {k} == map[];
    assert v + [SEPARATOR] + [] == v + [SEPARATOR];
  }

  /** Each label has an `=` of its own, besides those in its name and value. */
  lemma {:induction false} MarksOfText(labels: map<string, string>)
    ensures |labels| <= Marks(LabelText(labels))
    ensures |labels| == 1 ==> forall k | k in labels :: Marks(LabelText(labels)) == Marks(k) + 1 + Marks(labels[k])
    decreases |labels|
  {
    if labels != map[] {
      var k, rest := TextSplit(labels);
      MarksOfText(labels - {k});
      MarksAppend(k + ['='], labels[k] + [SEPARATOR] + rest);
      MarksAppend(k, ['=']);
      MarksAppend(labels[k] + [SEPARATOR], rest);
      MarksAppend(labels[k], [SEPARATOR]);
      OnlyKey(labels, k);
    }
  }

  lemma OnlyKey(labels: map<string, string>, k: string)
    requires k in labels
    ensures |labels - {k}| == |labels| - 1
    ensures |labels| == 1 ==> labels == map[k := labels[k]] && labels - {k} == map[]
  {
    var rest := labels - {k};
    assert rest.Keys == labels.Keys - {k};
    assert |rest| == |rest.Keys| && |labels| == |labels.Keys|;
    if |labels| == 1 {
      assert labels.Keys == {k};
    }
  }

  /** No label, or one without `=` in its name and value. */
  predicate Readable(labels: map<string, string>) {
    labels == map[] || (|labels| == 1 && forall k | k in labels :: '=' !in k && '=' !in labels[k])
  }

  lemma ReadableMarks(labels: map<string, string>)
    ensures Readable(labels) <==> Marks(LabelText(labels)) <= 1
  {
    MarksOfText(labels);
    if |labels| == 1 {
      var k :| k in labels;
      OnlyKey(labels, k);
      NoMarks(k);
      NoMarks(labels[k]);
    } else {
      assert |labels| == 0 <==> labels == map[];
    }
  }

  /** A text with at most one `=` comes from one set of labels only. */
  lemma ReadableUnique(a: map<string, string>, b: map<string, string>)
    requires Readable(a) && LabelText(a) == LabelText(b)
    ensures a == b
  {
    ReadableMarks(a);
    ReadableMarks(b);
    if a != map[] && b != map[] {
      var j :| j in a;
      var k :| k in b;
      OnlyKey(a, j);
      OnlyKey(b, k);
      OneLabel(j, a[j]);
      OneLabel(k, b[k]);
      ReadUpTo(j, k, '=', a[j] + [SEPARATOR], b[k] + [SEPARATOR]);
      SnocInjective(a[j], SEPARATOR, b[k], SEPARATOR);
    }
  }

  /** The text of labels ends with the separator. */
  lemma {:induction false} TextEnds(labels: map<string, string>)
    requires labels != map[]
    ensures var t := LabelText(labels); t != [] && t[|t| - 1] == SEPARATOR
    decreases |labels|
  {
    var k, rest := TextSplit(labels);
    OnlyKey(labels, k);
    EndOf(k + ['='], labels[k], rest);
    if labels - {k} != map[] {
      TextEnds(labels - {k});
    }
  }

  lemma EndOf(a: string, v: string, rest: string)
    ensures var t := a + (v + [SEPARATOR] + rest);
            t != [] && t[|t| - 1] == if rest == [] then SEPARATOR else rest[|rest| - 1]
  {
  }

  /** A text with two `=` can be split at either: at least one of the two is another set of labels. */
  lemma UnreadableCollides(a: map<string, string>) returns (b: map<string, string>)
    requires !Readable(a)
    ensures b != a && LabelText(b) == LabelText(a)
  {
    ReadableMarks(a);
    var t := LabelText(a);
    TextEnds(a);
    var u := t[..|t| - 1];
    assert t == u + [SEPARATOR];
    MarksAppend(u, [SEPARATOR]);
    var p, q := FirstMark(u);
    var p2, q2 := FirstMark(q);
    OneLabel(p, q);
    OneLabel(p + ['='] + p2, q2);
    assert t == p + ['='] + (q + [SEPARATOR]);
    assert t == p + ['='] + p2 + ['='] + (q2 + [SEPARATOR]);
    var b1, b2 := map[p := q], map[p + ['='] + p2 := q2];
    assert p in b1 && |p| < |p + ['='] + p2| && p !in b2;
    b := if b1 == a then b2 else b1;
  }

  // ---------------------------------------------------------------- when identities are equality

  /** For `a`, having the same identity is the same as being equal. */
  ghost predicate IdentityIsEquality(a: Observation) {
    forall b :: Identity(a) == Identity(b) <==> Equal(a, b)
  }

  ghost predicate Distinguishable(a: Observation) {
    !IsZero(a.valueBits) && !IsNaN(a.valueBits) && Readable(a.labels)
  }

  function Negated(v: Bits): Bits {
    if v < SIGN then v + SIGN else v - SIGN
  }

  /** 0.0 and -0.0 are equal and have different identities. */
  lemma ZerosKeptApart(o: Observation)
    requires IsZero(o.valueBits)
    ensures var n := o.(valueBits := Negated(o.valueBits)); Equal(o, n) && Identity(o) != Identity(n)
  {
  }

  /** An observation that is not a number equals nothing, not even itself. */
  lemma NaNsUnequal(o: Observation, b: Observation)
    requires IsNaN(o.valueBits)
    ensures !Equal(o, b)
  {
  }

  /** Two labels have the text of one label whose value contains the separator. */
  lemma TwoLabelsCollide(o: Observation)
    ensures var two, one := o.(labels := map["a" := "b", "c" := "d"]),
            o.(labels := map["a" := "b" + [SEPARATOR] + "c=d"]);
            two != one && Identity(two) == Identity(one)
  {
    var m := map["a" := "b", "c" := "d"];
    assert "a" in m && "c" in m;
    assert Less("a", "c");
    LessTotal("a", "c");
    assert LeastLabel(m) == "a" && m - {"a"} == map["c" := "d"];
    OneLabel("c", "d");
    OneLabel("a", "b" + [SEPARATOR] + "c=d");
    assert "b" + [SEPARATOR] + ("c" + ['='] + ("d" + [SEPARATOR])) == ("b" + [SEPARATOR] + "c=d") + [SEPARATOR];
    assert |m| == 2;
  }

  /** One label whose name or value contains `=` collides too. */
  lemma IdentityCollides(o: Observation)
    ensures Identity(o.(labels := map["a=b" := "c"])) == Identity(o.(labels := map["a" := "b=c"]))
  {
    OneLabel("a=b", "c");
    OneLabel("a", "b=c");
    assert "a=b" + ['='] + ("c" + [SEPARATOR]) == "a" + ['='] + ("b=c" + [SEPARATOR]);
  }

  /**
   Identities tell `a` apart from exactly the observations it is not equal to, if and only if its
   value is neither a zero nor NaN and it has no label, or one without `=` in its name and value.
   */
  lemma IdentityExactly(a: Observation)
    ensures IdentityIsEquality(a) <==> Distinguishable(a)
  {
    if Distinguishable(a) {
      forall b ensures Identity(a) == Identity(b) <==> Equal(a, b) {
        if Identity(a) == Identity(b) {
          ReadableUnique(a.labels, b.labels);
        }
      }
    } else if IsZero(a.valueBits) {
      ZerosKeptApart(a);
    } else if IsNaN(a.valueBits) {
      NaNsUnequal(a, a);
    } else {
      var labels := UnreadableCollides(a.labels);
      var b := a.(labels := labels);
      assert Identity(a) == Identity(b) && !Equal(a, b);
    }
  }

  /** Label names without `=` and values without the separator. */
  ghost predicate Plain(labels: map<string, string>) {
    forall k | k in labels :: '=' !in k && SEPARATOR !in labels[k]
  }

  lemma {:induction false} PlainTextInjective(a: map<string, string>, b: map<string, string>)
    requires Plain(a) && Plain(b) && LabelText(a) == LabelText(b)
    ensures a == b
    decreases |a|
  {
    if a != map[] && b != map[] {
      var j, ra := TextSplit(a);
      var k, rb := TextSplit(b);
      ReadUpTo(j, k, '=', a[j] + [SEPARATOR] + ra, b[k] + [SEPARATOR] + rb);
      ReadUpTo(a[j], b[k], SEPARATOR, ra, rb);
      OnlyKey(a, j);
      PlainTextInjective(a - {j}, b - {k});
      SameWithout(a, b, j);
    }
  }

  lemma SameWithout(a: map<string, string>, b: map<string, string>, k: string)
    requires k in a && k in b && a[k] == b[k] && a - {k} == b - {k}
    ensures a == b
  {
    assert a == (a - {k})[k := a[k]] && b == (b - {k})[k := b[k]];
  }

  /** Among observations whose labels are all plain, any number of labels is told apart. */
  lemma PlainIdentity(a: Observation, b: Observation)
    requires Plain(a.labels) && Plain(b.labels)
    ensures Identity(a) == Identity(b) <==> a == b
    ensures !IsZero(a.valueBits) && !IsNaN(a.valueBits) ==> (Identity(a) == Identity(b) <==> Equal(a, b))
  {
    if Identity(a) == Identity(b) {
      PlainTextInjective(a.labels, b.labels);
    }
  }
}
