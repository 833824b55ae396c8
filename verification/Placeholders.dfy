/**
 Rewriting numbered SQL placeholders for MySQL (crates/opsense-ffi/src/db.rs). A statement is
 read as tokens: single characters, each quoted or not, and unquoted references `$digits`. The
 meaning of a statement with its parameters is the sequence of its characters and bound values.
 */
module Placeholders {
  import opened Wrappers

  const USIZE_MAX: nat := 0xFFFF_FFFF_FFFF_FFFF

  datatype DbError = Query

  // ---------------------------------------------------------------- reading a statement

  predicate IsQuote(c: char) {
    c == '\'' || c == '"' || c == '`'
  }

  predicate IsDigit(c: char) {
    '0' <= c <= '9'
  }

  /** The quote that is open after `c`; a doubled quote closes and opens again. */
  function Toggle(q: Option<char>, c: char): Option<char> {
    match q
    case None => if IsQuote(c) then Some(c) else None
    case Some(o) => if c == o then None else q
  }

  /** The quote that is open before position `i`, if `q` was open at the beginning. */
  ghost function QuoteAt(q: Option<char>, s: string, i: nat): Option<char>
    requires i <= |s|
    decreases i
  {
    if i == 0 then q else QuoteAt(Toggle(q, s[0]), s[1..], i - 1)
  }

  /** The number of leading digits. */
  function DigitRun(s: string): (k: nat)
    ensures k <= |s|
  {
    if s == [] || !IsDigit(s[0]) then 0 else 1 + DigitRun(s[1..])
  }

  /** The number written at the beginning of `s`, after digits worth `acc`. */
  function NumberOf(s: string, acc: nat): nat {
    if s == [] || !IsDigit(s[0]) then acc else NumberOf(s[1..], 10 * acc + (s[0] - '0') as nat)
  }

  datatype Token =
    | Text(c: char, quoted: bool)
    | Ref(n: nat)

  /** The tokens of `s` if `q` is open at its beginning. */
  ghost function Lex(s: string, q: Option<char>): seq<Token>
    decreases |s|
  {
    if s == [] then []
    else
      var k := if q.None? && s[0] == '$' then DigitRun(s[1..]) else 0;
      if k > 0 then [Ref(NumberOf(s[1..], 0))] + Lex(s[1..][k..], q)
      else [Text(s[0], q.Some?)] + Lex(s[1..], Toggle(q, s[0]))
  }

  // ---------------------------------------------------------------- what a statement means

  datatype Item<V> = Ch(c: char) | Val(v: V)

  /** Binding by number; None when a reference has no parameter. */
  ghost function Numbered<V>(tokens: seq<Token>, params: seq<V>): Option<seq<Item<V>>> {
    if tokens == [] then Some([])
    else
      match Numbered(tokens[1..], params)
      case None => None
      case Some(rest) =>
        match tokens[0]
        case Text(c, _) => Some([Ch(c)] + rest)
        case Ref(n) => if 1 <= n <= |params| then Some([Val(params[n - 1])] + rest) else None
  }

  /**
   Binding by position: each unquoted `?` takes the next value; None when their numbers differ, or for a numbered
   reference.
   */
  ghost function Positional<V>(tokens: seq<Token>, values: seq<V>): Option<seq<Item<V>>> {
    if tokens == [] then if values == [] then Some([]) else None
    else if tokens[0] == Text('?', false) then
      if values == [] then None
      else
        match Positional(tokens[1..], values[1..])
        case None => None
        case Some(rest) => Some([Val(values[0])] + rest)
    else if tokens[0].Ref? then None
    else
      match Positional(tokens[1..], values)
      case None => None
      case Some(rest) => Some([Ch(tokens[0].c)] + rest)
  }

  // ---------------------------------------------------------------- the rewriting

  /** The token that takes the place of `t`. */
  function Masked(t: Token): (r: Token)
    ensures r.Text?
  {
    if t.Ref? then Text('?', false) else t
  }

  ghost function MaskAll(tokens: seq<Token>): seq<Token> {
    if tokens == [] then [] else [Masked(tokens[0])] + MaskAll(tokens[1..])
  }

  /** The characters of the tokens, `?` for a reference. */
  ghost function Flat(tokens: seq<Token>): string {
    if tokens == [] then [] else [Masked(tokens[0]).c] + Flat(tokens[1..])
  }

  /** The numbers referred to, in order. */
  ghost function Refs(tokens: seq<Token>): seq<nat> {
    if tokens == [] then []
    else (if tokens[0].Ref? then [tokens[0].n] else []) + Refs(tokens[1..])
  }

  ghost function Output(s: string, q: Option<char>): string {
    Flat(Lex(s, q))
  }

  ghost function RefsFrom(s: string, q: Option<char>): seq<nat> {
    Refs(Lex(s, q))
  }

  /** `values` are the parameters with these numbers. */
  ghost predicate Picked<V>(params: seq<V>, refs: seq<nat>, values: seq<V>) {
    |values| == |refs| && forall k | 0 <= k < |refs| :: 1 <= refs[k] <= |params| && values[k] == params[refs[k] - 1]
  }

  ghost predicate InRange<V>(params: seq<V>, refs: seq<nat>) {
    forall k | 0 <= k < |refs| :: 1 <= refs[k] <= |params|
  }

  /** One character that is not the beginning of a reference. */
  lemma OutputText(s: string, q: Option<char>)
    requires s != [] && (q.None? && s[0] == '$' ==> DigitRun(s[1..]) == 0)
    ensures Output(s, q) == [s[0]] + Output(s[1..], Toggle(q, s[0]))
    ensures RefsFrom(s, q) == RefsFrom(s[1..], Toggle(q, s[0]))
  {
    assert Lex(s, q)[1..] == Lex(s[1..], Toggle(q, s[0]));
  }

  lemma OutputRef(s: string, k: nat)
    requires s != [] && s[0] == '$' && k == DigitRun(s[1..]) && k > 0
    ensures Output(s, None) == ['?'] + Output(s[1..][k..], None)
    ensures RefsFrom(s, None) == [NumberOf(s[1..], 0)] + RefsFrom(s[1..][k..], None)
  {
    assert Lex(s, None)[1..] == Lex(s[1..][k..], None);
  }

  lemma Drop<T>(s: seq<T>, i: nat, j: nat)
    requires i + j <= |s|
    ensures s[i..][j..] == s[i + j..]
  {
  }

  /** The scanner has written `out` for the first `i` characters. */
  ghost predicate Scanned<V>(sql: string, params: seq<V>, i: nat, quote: Option<char>, out: string, ordered: seq<V>,
                             done: seq<nat>) {
    && i <= |sql| && (quote.Some? ==> IsQuote(quote.value))
    && Output(sql, None) == out + Output(sql[i..], quote)
    && RefsFrom(sql, None) == done + RefsFrom(sql[i..], quote)
    && Picked(params, done, ordered)
  }

  lemma ScanText<V>(sql: string, params: seq<V>, i: nat, quote: Option<char>, out: string, ordered: seq<V>,
                    done: seq<nat>)
    requires Scanned(sql, params, i, quote, out, ordered, done) && i < |sql|
    requires quote.None? && sql[i] == '$' ==> DigitRun(sql[i + 1..]) == 0
    ensures Scanned(sql, params, i + 1, Toggle(quote, sql[i]), out + [sql[i]], ordered, done)
  {
    Drop(sql, i, 1);
    OutputText(sql[i..], quote);
    Regroup(out, sql[i], Output(sql[i + 1..], Toggle(quote, sql[i])));
  }

  lemma RefAtIndex(sql: string, i: nat, k: nat)
    requires i < |sql| && sql[i] == '$' && 0 < k == DigitRun(sql[i + 1..])
    ensures i + 1 + k <= |sql|
    ensures Output(sql[i..], None) == ['?'] + Output(sql[i + 1 + k..], None)
    ensures RefsFrom(sql[i..], None) == [NumberOf(sql[i + 1..], 0)] + RefsFrom(sql[i + 1 + k..], None)
  {
    Drop(sql, i, 1);
    Drop(sql, i + 1, k);
    OutputRef(sql[i..], k);
  }

  lemma ScanRef<V>(sql: string, params: seq<V>, i: nat, j: nat, out: string, ordered: seq<V>, done: seq<nat>, n: nat)
    requires Scanned(sql, params, i, None, out, ordered, done) && j <= |sql|
    requires Output(sql[i..], None) == ['?'] + Output(sql[j..], None)
    requires RefsFrom(sql[i..], None) == [n] + RefsFrom(sql[j..], None)
    ensures n in RefsFrom(sql, None)
    ensures 1 <= n <= |params| ==> Scanned(sql, params, j, None, out + ['?'], ordered + [params[n - 1]], done + [n])
  {
    Regroup(out, '?', Output(sql[j..], None));
    Regroup(done, n, RefsFrom(sql[j..], None));
    PickedSnoc(params, done, ordered, n);
  }

  lemma ScanDigits<V>(sql: string, params: seq<V>, i: nat, k: nat, n: nat, out: string, ordered: seq<V>, done: seq<nat>)
    requires Scanned(sql, params, i, None, out, ordered, done) && i < |sql| && sql[i] == '$'
    requires 0 < k == DigitRun(sql[i + 1..]) && n == NumberOf(sql[i + 1..], 0)
    ensures if 1 <= n <= |params|
            then Scanned(sql, params, i + 1 + k, None, out + ['?'], ordered + [params[n - 1]], done + [n])
            else !InRange(params, RefsFrom(sql, None))
  {
    RefAtIndex(sql, i, k);
    ScanRef(sql, params, i, i + 1 + k, out, ordered, done, n);
  }

  lemma PickedSnoc<V>(params: seq<V>, refs: seq<nat>, values: seq<V>, n: nat)
    requires Picked(params, refs, values)
    ensures 1 <= n <= |params| ==> Picked(params, refs + [n], values + [params[n - 1]])
  {
  }

  lemma Regroup<T>(a: seq<T>, x: T, b: seq<T>)
    ensures a + ([x] + b) == (a + [x]) + b && x in a + ([x] + b)
  {
    assert (a + ([x] + b))[|a|] == x;
  }

  lemma ScanEnd<V>(sql: string, params: seq<V>, quote: Option<char>, out: string, ordered: seq<V>, done: seq<nat>)
    requires Scanned(sql, params, |sql|, quote, out, ordered, done)
    ensures Output(sql, None) == out && RefsFrom(sql, None) == done
  {
    assert sql[|sql|..] == [];
  }

  /** The digits at position `i`, and their value. */
  method TakeDigits(sql: string, i: nat) returns (k: nat, n: nat)
    requires i <= |sql|
    ensures k == DigitRun(sql[i..]) && n == NumberOf(sql[i..], 0)
  {
    k, n := 0, 0;
    while i + k < |sql| && IsDigit(sql[i + k])
      invariant i + k <= |sql|
      invariant DigitRun(sql[i..]) == k + DigitRun(sql[i + k..])
      invariant NumberOf(sql[i..], 0) == NumberOf(sql[i + k..], n)
      decreases |sql| - k
    {
      Drop(sql, i + k, 1);
      k, n := k + 1, 10 * n + (sql[i + k] - '0') as nat;
    }
  }

  /** An unquoted `$` at position `i`, alone or with its digits. */
  method TakeReference<V>(sql: string, params: seq<V>, i: nat, out: string, ordered: seq<V>, ghost done: seq<nat>)
    returns (r: Result<(string, seq<V>, nat), DbError>, ghost done': seq<nat>)
    requires |params| <= USIZE_MAX && i < |sql| && sql[i] == '$' && Scanned(sql, params, i, None, out, ordered, done)
    ensures r.Success? ==> r.value.2 > i && Scanned(sql, params, r.value.2, None, r.value.0, r.value.1, done')
    ensures r.Failure? ==> !InRange(params, RefsFrom(sql, None))
  {
    done' := done;
    var k, idx := TakeDigits(sql, i + 1);
    if k == 0 {
      ScanText(sql, params, i, None, out, ordered, done);
      return Success((out + ['$'], ordered, i + 1)), done';
    }
    ScanDigits(sql, params, i, k, idx, out, ordered, done);
    if idx > USIZE_MAX {
      return Failure(Query), done';
    }
    var at := if idx == 0 then USIZE_MAX else idx - 1;
    if at >= |params| {
      return Failure(Query), done';
    }
    return Success((out + ['?'], ordered + [params[at]], i + 1 + k)), done + [idx];
  }

  /** The scanner of `rewrite_placeholders_mysql`. */
  method Rewrite<V>(sql: string, params: seq<V>) returns (r: Result<(string, seq<V>), DbError>)
    requires |params| <= USIZE_MAX
    ensures r.Success? <==> InRange(params, RefsFrom(sql, None))
    ensures r.Success? ==> r.value.0 == Output(sql, None) && Picked(params, RefsFrom(sql, None), r.value.1)
  {
    var out: string, ordered: seq<V>, quote: Option<char>, i: nat := [], [], None, 0;
    ghost var done: seq<nat> := [];
    assert sql[0..] == sql;
    while i < |sql|
      invariant Scanned(sql, params, i, quote, out, ordered, done)
    {
      var c := sql[i];
      match quote {
        case Some(q) =>
          ScanText(sql, params, i, quote, out, ordered, done);
          out, i := out + [c], i + 1;
          if c == q {
            if i < |sql| && sql[i] == q {
              ScanText(sql, params, i, None, out, ordered, done);
              out, i := out + [sql[i]], i + 1;
            } else {
              quote := None;
            }
          }
        case None =>
          if c == '$' {
            var at;
            at, done := TakeReference(sql, params, i, out, ordered, done);
            if at.Failure? {
              return Failure(at.error);
            }
            out, ordered, i := at.value.0, at.value.1, at.value.2;
          } else {
            ScanText(sql, params, i, quote, out, ordered, done);
            quote := if IsQuote(c) then Some(c) else None;
            out, i := out + [c], i + 1;
          }
      }
    }
    ScanEnd(sql, params, quote, out, ordered, done);
    return Success((out, ordered));
  }

  // ---------------------------------------------------------------- the rewritten text

  lemma FirstOut(s: string, q: Option<char>)
    requires s != []
    ensures Output(s, q) != [] && (Output(s, q)[0] == s[0] || Output(s, q)[0] == '?')
  {
    if q.None? && s[0] == '$' && DigitRun(s[1..]) > 0 {
      OutputRef(s, DigitRun(s[1..]));
    } else {
      OutputText(s, q);
    }
  }

  /**
   Reading the rewritten text gives the same tokens with `?` for each reference: quoted regions
   are unchanged, nothing else moves, and no reference remains.
   */
  lemma {:induction false} LexOutput(s: string, q: Option<char>)
    ensures Lex(Output(s, q), q) == MaskAll(Lex(s, q))
    decreases |s|
  {
    if s != [] {
      var k := if q.None? && s[0] == '$' then DigitRun(s[1..]) else 0;
      if k > 0 {
        OutputRef(s, k);
        LexOutput(s[1..][k..], None);
        assert Output(s, None)[1..] == Output(s[1..][k..], None);
        assert Lex(s, q)[1..] == Lex(s[1..][k..], q);
      } else {
        OutputText(s, q);
        var rest := s[1..];
        LexOutput(rest, Toggle(q, s[0]));
        assert Output(s, q)[1..] == Output(rest, Toggle(q, s[0]));
        assert Lex(s, q)[1..] == Lex(rest, Toggle(q, s[0]));
        if rest != [] {
          FirstOut(rest, Toggle(q, s[0]));
        }
      }
    }
  }

  // ---------------------------------------------------------------- tokens and positions

  ghost predicate UnquotedMark(s: string, q: Option<char>, i: nat) {
    i < |s| && s[i] == '?' && QuoteAt(q, s, i).None?
  }

  /** An unquoted reference to number `n` at position `i`. */
  ghost predicate RefAt(s: string, q: Option<char>, i: nat, n: nat) {
    i < |s| && s[i] == '$' && QuoteAt(q, s, i).None? && DigitRun(s[i + 1..]) > 0 && n == NumberOf(s[i + 1..], 0)
  }

  lemma {:induction false} RunOfDigits(s: string, k: nat)
    requires k <= DigitRun(s)
    ensures QuoteAt(None, s, k) == None && forall j | 0 <= j < k :: IsDigit(s[j])
  {
    if k > 0 {
      RunOfDigits(s[1..], k - 1);
      forall j | 0 <= j < k ensures IsDigit(s[j]) {
        assert j > 0 ==> s[j] == s[1..][j - 1];
      }
    }
  }

  lemma {:induction false} QuoteSplit(q: Option<char>, s: string, k: nat, i: nat)
    requires k <= i <= |s|
    ensures QuoteAt(q, s, i) == QuoteAt(QuoteAt(q, s, k), s[k..], i - k)
    decreases k
  {
    if k > 0 {
      QuoteSplit(Toggle(q, s[0]), s[1..], k - 1, i - 1);
      assert s[1..][k - 1..] == s[k..];
    } else {
      assert s[0..] == s;
    }
  }

  /** Past the first `k` characters, positions are positions of the rest. */
  lemma Shift(s: string, q: Option<char>, k: nat, i: nat, n: nat)
    requires k <= i <= |s|
    ensures UnquotedMark(s, q, i) <==> UnquotedMark(s[k..], QuoteAt(q, s, k), i - k)
    ensures RefAt(s, q, i, n) <==> RefAt(s[k..], QuoteAt(q, s, k), i - k, n)
  {
    QuoteSplit(q, s, k, i);
    if i < |s| {
      Drop(s, k, i - k + 1);
    }
  }

  ghost predicate HasMark(s: string, q: Option<char>) {
    exists i: nat :: UnquotedMark(s, q, i)
  }

  ghost predicate HasRef(s: string, q: Option<char>, n: nat) {
    exists i: nat :: RefAt(s, q, i, n)
  }

  lemma SplitHas(s: string, q: Option<char>, k: nat, n: nat)
    requires 0 < k <= |s| && forall j: nat | 0 < j < k :: !UnquotedMark(s, q, j) && !RefAt(s, q, j, n)
    ensures HasMark(s, q) <==> UnquotedMark(s, q, 0) || HasMark(s[k..], QuoteAt(q, s, k))
    ensures HasRef(s, q, n) <==> RefAt(s, q, 0, n) || HasRef(s[k..], QuoteAt(q, s, k), n)
  {
    forall i: nat | k <= i <= |s|
      ensures UnquotedMark(s, q, i) <==> UnquotedMark(s[k..], QuoteAt(q, s, k), i - k)
      ensures RefAt(s, q, i, n) <==> RefAt(s[k..], QuoteAt(q, s, k), i - k, n)
    {
      Shift(s, q, k, i, n);
    }
    if HasMark(s[k..], QuoteAt(q, s, k)) {
      var j: nat :| UnquotedMark(s[k..], QuoteAt(q, s, k), j);
      assert UnquotedMark(s, q, j + k);
    }
    if HasRef(s[k..], QuoteAt(q, s, k), n) {
      var j: nat :| RefAt(s[k..], QuoteAt(q, s, k), j, n);
      assert RefAt(s, q, j + k, n);
    }
    if HasMark(s, q) {
      var i: nat :| UnquotedMark(s, q, i);
      assert i >= k ==> UnquotedMark(s[k..], QuoteAt(q, s, k), i - k);
    }
    if HasRef(s, q, n) {
      var i: nat :| RefAt(s, q, i, n);
      assert i >= k ==> RefAt(s[k..], QuoteAt(q, s, k), i - k, n);
    }
  }

  /** The unquoted marks and references among the tokens are those at the positions of the text. */
  lemma {:induction false} TokensAreAt(s: string, q: Option<char>, n: nat)
    ensures Text('?', false) in Lex(s, q) <==> HasMark(s, q)
    ensures n in RefsFrom(s, q) <==> HasRef(s, q, n)
    decreases |s|
  {
    if s != [] {
      var run := if q.None? && s[0] == '$' then DigitRun(s[1..]) else 0;
      var k := 1 + run;
      if run > 0 {
        RefInside(s, run, n);
        OutputRef(s, run);
      } else {
        OutputText(s, q);
      }
      assert QuoteAt(Toggle(q, s[0]), s[1..], 0) == Toggle(q, s[0]);
      SplitHas(s, q, k, n);
      TokensAreAt(s[k..], QuoteAt(q, s, k), n);
      Drop(s, 1, run);
      assert Lex(s, q) == [if run > 0 then Ref(NumberOf(s[1..], 0))
        else Text(s[0], q.Some?)] + Lex(s[k..], QuoteAt(q, s, k));
    }
  }

  /** Nothing starts inside the digits of a reference. */
  lemma RefInside(s: string, run: nat, n: nat)
    requires s != [] && s[0] == '$' && 0 < run == DigitRun(s[1..])
    ensures forall j: nat | 0 < j < 1 + run :: !UnquotedMark(s, None, j) && !RefAt(s, None, j, n)
    ensures QuoteAt(None, s, 1 + run) == None
  {
    RunOfDigits(s[1..], run);
    forall j: nat | 0 < j < 1 + run ensures IsDigit(s[j]) {
      assert s[j] == s[1..][j - 1];
    }
  }

  // ---------------------------------------------------------------- the theorems

  /** The rewriting fails exactly when some unquoted `$n` has no parameter. */
  lemma FailsExactly<V>(sql: string, params: seq<V>)
    ensures InRange(params, RefsFrom(sql, None)) <==> forall i: nat, n: nat | RefAt(sql, None, i, n) ::
              1 <= n <= |params|
  {
    var refs := RefsFrom(sql, None);
    if InRange(params, refs) {
      forall i: nat, n: nat | RefAt(sql, None, i, n) ensures 1 <= n <= |params| {
        TokensAreAt(sql, None, n);
        assert HasRef(sql, None, n);
      }
    } else {
      var k :| 0 <= k < |refs| && !(1 <= refs[k] <= |params|);
      TokensAreAt(sql, None, refs[k]);
      assert HasRef(sql, None, refs[k]);
    }
  }

  /** No unquoted reference is left in the rewritten text. */
  lemma NoReferenceRemains(sql: string, i: nat, n: nat)
    ensures !RefAt(Output(sql, None), None, i, n)
  {
    LexOutput(sql, None);
    TokensAreAt(Output(sql, None), None, n);
    MaskHasNoRefs(Lex(sql, None));
  }

  lemma {:induction false} MaskHasNoRefs(tokens: seq<Token>)
    ensures Refs(MaskAll(tokens)) == []
  {
    if tokens != [] {
      MaskHasNoRefs(tokens[1..]);
      assert MaskAll(tokens)[1..] == MaskAll(tokens[1..]);
    }
  }

  /** The quoted characters of a text, in order. */
  ghost function QuotedChars(tokens: seq<Token>): string {
    if tokens == [] then []
    else (if tokens[0].Text? && tokens[0].quoted then [tokens[0].c] else []) + QuotedChars(tokens[1..])
  }

  lemma {:induction false} MaskKeepsQuoted(tokens: seq<Token>)
    ensures QuotedChars(MaskAll(tokens)) == QuotedChars(tokens)
  {
    if tokens != [] {
      MaskKeepsQuoted(tokens[1..]);
      assert MaskAll(tokens)[1..] == MaskAll(tokens[1..]);
    }
  }

  lemma QuotedUnchanged(sql: string)
    ensures QuotedChars(Lex(Output(sql, None), None)) == QuotedChars(Lex(sql, None))
  {
    LexOutput(sql, None);
    MaskKeepsQuoted(Lex(sql, None));
  }

  lemma {:induction false} BindMasked<V>(tokens: seq<Token>, params: seq<V>, values: seq<V>)
    requires Picked(params, Refs(tokens), values)
    ensures Numbered(tokens, params).Some?
    ensures Positional(MaskAll(tokens), values) == if Text('?', false) in tokens then None else Numbered(tokens, params)
  {
    if tokens != [] {
      var t, rest := tokens[0], tokens[1..];
      assert tokens == [t] + rest;
      if t.Ref? {
        assert Refs(tokens)[1..] == Refs(rest);
        BindMasked(rest, params, values[1..]);
        PositionalMark(t, rest, values);
      } else {
        BindMasked(rest, params, values);
        if t == Text('?', false) {
          PositionalMark(t, rest, values);
          if values != [] {
            CountMismatch(rest, values[1..]);
          }
        } else {
          PositionalText(t, rest, values);
        }
      }
    }
  }

  lemma PositionalMark<V>(t: Token, rest: seq<Token>, values: seq<V>)
    requires Masked(t) == Text('?', false)
    ensures Positional(MaskAll([t] + rest), values) ==
            if values == [] || Positional(MaskAll(rest), values[1..]).None? then None
            else Some([Val(values[0])] + Positional(MaskAll(rest), values[1..]).value)
  {
    assert ([t] + rest)[1..] == rest && MaskAll([t] + rest)[1..] == MaskAll(rest);
  }

  lemma PositionalText<V>(t: Token, rest: seq<Token>, values: seq<V>)
    requires Masked(t) != Text('?', false)
    ensures Positional(MaskAll([t] + rest), values) ==
            if Positional(MaskAll(rest), values).None? then None
              else Some([Ch(t.c)] + Positional(MaskAll(rest), values).value)
  {
    assert ([t] + rest)[1..] == rest && MaskAll([t] + rest)[1..] == MaskAll(rest);
  }

  /** With fewer values than references there is no positional binding. */
  lemma {:induction false} CountMismatch<V>(tokens: seq<Token>, values: seq<V>)
    requires |values| < |Refs(tokens)|
    ensures Positional(MaskAll(tokens), values).None?
  {
    var t, rest := tokens[0], tokens[1..];
    assert tokens == [t] + rest;
    if Masked(t) == Text('?', false) {
      PositionalMark(t, rest, values);
      if values != [] {
        CountMismatch(rest, values[1..]);
      }
    } else {
      PositionalText(t, rest, values);
      CountMismatch(rest, values);
    }
  }

  /**
   Binding the rewritten text by position means the same as binding the original by number
   exactly when the original has no unquoted `?`.
   */
  lemma MeaningPreservedExactly<V>(sql: string, params: seq<V>, values: seq<V>)
    requires Picked(params, RefsFrom(sql, None), values)
    ensures Numbered(Lex(sql, None), params).Some?
    ensures Positional(Lex(Output(sql, None), None), values) == Numbered(Lex(sql, None), params) <==>
            forall i: nat :: !UnquotedMark(sql, None, i)
  {
    LexOutput(sql, None);
    BindMasked(Lex(sql, None), params, values);
    TokensAreAt(sql, None, 0);
  }

  /** A `?` of the original asks for a value that nobody supplies. */
  lemma MarkBreaksMeaning()
    ensures Picked<int>([], RefsFrom("?", None), [])
    ensures Positional<int>(Lex(Output("?", None), None), []) != Numbered<int>(Lex("?", None), [])
  {
    OutputText("?", None);
    assert UnquotedMark("?", None, 0);
    MeaningPreservedExactly<int>("?", [], []);
  }
}
