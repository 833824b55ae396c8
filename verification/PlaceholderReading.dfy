/**
 What the scanner of crates/opsense-ffi/src/db.rs takes for a reference, for quoted text and for plain text. Every
 statement begins with exactly one of the three, so these lemmas say how any statement is read.
 */
module PlaceholderReading {
  import opened Placeholders
  import opened Wrappers

  const DIGITS: string := "0123456789"
  const QUOTES: string := "'\"`"

  /** `n` in decimal, without leading zeros. */
  function Decimal(n: nat): (s: string)
    ensures s != []
  {
    (if n < 10 then [] else Decimal(n / 10)) + [DIGITS[n % 10]]
  }

  function Zeros(z: nat): (s: string)
    ensures |s| == z
  {
    seq(z, _ => '0')
  }

  ghost predicate BeginsWithDigit(s: string) {
    s != [] && s[0] in DIGITS
  }

  /** Text inside quotes, as tokens. */
  ghost function QuotedText(s: string): seq<Token> {
    seq(|s|, i requires 0 <= i < |s| => Text(s[i], true))
  }

  // ---------------------------------------------------------------- digits

  lemma DigitWorth(d: nat)
    requires d < 10
    ensures IsDigit(DIGITS[d]) && (DIGITS[d] - '0') as nat == d
  {
  }

  lemma DigitsOnly(c: char)
    ensures IsDigit(c) <==> c in DIGITS
  {
    if IsDigit(c) {
      assert DIGITS[(c - '0') as nat] == c;
    }
  }

  /** Digits `s` before a text `rest`: the run goes on into `rest`. */
  lemma {:induction false} RunThrough(s: string, rest: string, acc: nat)
    requires forall c | c in s :: c in DIGITS
    ensures DigitRun(s + rest) == |s| + DigitRun(rest)
    ensures NumberOf(s + rest, acc) == NumberOf(rest, NumberOf(s, acc))
  {
    if s == [] {
      assert s + rest == rest;
    } else {
      DigitsOnly(s[0]);
      assert (s + rest)[1..] == s[1..] + rest;
      RunThrough(s[1..], rest, 10 * acc + (s[0] - '0') as nat);
    }
  }

  lemma {:induction false} DecimalDigits(n: nat)
    ensures forall c | c in Decimal(n) :: c in DIGITS
    ensures NumberOf(Decimal(n), 0) == n
  {
    var last := [DIGITS[n % 10]];
    var front := if n < 10 then [] else Decimal(n / 10);
    if n >= 10 {
      DecimalDigits(n / 10);
    }
    RunThrough(front, last, 0);
    DigitWorth(n % 10);
    assert NumberOf(last, n / 10) == NumberOf(last[1..], n);
  }

  lemma {:induction false} ZerosWorthNothing(z: nat)
    ensures NumberOf(Zeros(z), 0) == 0 && forall c | c in Zeros(z) :: c in DIGITS
  {
    assert '0' == DIGITS[0];
    if z > 0 {
      ZerosWorthNothing(z - 1);
      assert Zeros(z)[1..] == Zeros(z - 1);
    }
  }

  // ---------------------------------------------------------------- how a statement is read

  /** `$` with the decimal digits of `n`, after any number of zeros, refers to `n`. */
  lemma ReferenceRead(z: nat, n: nat, rest: string)
    requires !BeginsWithDigit(rest)
    ensures var sql := "$" + Zeros(z) + Decimal(n) + rest;
            && Lex(sql, None) == [Ref(n)] + Lex(rest, None)
            && Output(sql, None) == "?" + Output(rest, None)
            && RefsFrom(sql, None) == [n] + RefsFrom(rest, None)
  {
    var zeros, digits := Zeros(z), Decimal(n);
    var sql := "$" + zeros + digits + rest;
    assert sql[1..] == zeros + (digits + rest);
    ZerosWorthNothing(z);
    DecimalDigits(n);
    RunThrough(zeros, digits + rest, 0);
    RunThrough(digits, rest, 0);
    assert rest != [] ==> (IsDigit(rest[0]) <==> rest[0] in DIGITS) by {
      if rest != [] {
        DigitsOnly(rest[0]);
      }
    }
    var k := z + |digits|;
    assert DigitRun(sql[1..]) == k && NumberOf(sql[1..], 0) == n;
    assert sql[1..][k..] == rest;
    OutputRef(sql, k);
  }

  /** Conversely, whatever is read as a reference to `n` is `$` with zeros and the decimal digits of `n`. */
  lemma ReferenceSpelled(sql: string, n: nat) returns (z: nat, rest: string)
    requires sql != [] && Lex(sql, None)[0] == Ref(n)
    ensures sql == "$" + Zeros(z) + Decimal(n) + rest && !BeginsWithDigit(rest)
  {
    var after := sql[1..];
    var k := DigitRun(after);
    assert sql[0] == '$' && k > 0 && n == NumberOf(after, 0);
    var digits := after[..k];
    rest := after[k..];
    assert after == digits + rest;
    RunSplit(after, k);
    RunThrough(digits, rest, 0);
    RestEnds(rest, n);
    z := Spelled(digits);
    assert sql == "$" + (digits + rest);
  }

  lemma RestEnds(rest: string, n: nat)
    requires rest != [] ==> !IsDigit(rest[0])
    ensures NumberOf(rest, n) == n && !BeginsWithDigit(rest)
  {
    if rest != [] {
      DigitsOnly(rest[0]);
    }
  }

  lemma {:induction false} RunSplit(s: string, k: nat)
    requires k == DigitRun(s)
    ensures (forall c | c in s[..k] :: c in DIGITS) && (k < |s| ==> !IsDigit(s[k]))
  {
    if k > 0 {
      DigitsOnly(s[0]);
      RunSplit(s[1..], k - 1);
      assert s[..k] == [s[0]] + s[1..][..k - 1];
    }
  }

  /** Every row of digits is some zeros and a decimal number. */
  lemma {:induction false} Spelled(s: string) returns (z: nat)
    requires s != [] && forall c | c in s :: c in DIGITS
    ensures s == Zeros(z) + Decimal(NumberOf(s, 0))
  {
    var front, c := s[..|s| - 1], s[|s| - 1];
    assert s == front + [c];
    RunThrough(front, [c], 0);
    if front == [] {
      z := 0;
      DigitAfter(0, 0, c);
    } else {
      z := Spelled(front);
      DigitAfter(z, NumberOf(front, 0), c);
      z := if NumberOf(front, 0) == 0 then z + 1 else z;
    }
  }

  /** One more digit. */
  lemma DigitAfter(z: nat, m: nat, c: char)
    requires c in DIGITS
    ensures Decimal(NumberOf([c], 0)) == [c]
    ensures Zeros(z) + Decimal(m) + [c] == Zeros(if m == 0 then z + 1 else z) + Decimal(NumberOf([c], m))
  {
    DigitsOnly(c);
    var d := (c - '0') as nat;
    assert NumberOf([c], m) == NumberOf([c][1..], 10 * m + d) && NumberOf([c], 0) == NumberOf([c][1..], d);
    assert (10 * m + d) / 10 == m && (10 * m + d) % 10 == d;
    assert Decimal(d) == [c];
    if m == 0 {
      assert Zeros(z + 1) == Zeros(z) + Decimal(0);
    }
  }

  /** Text between two equal quotes is quoted, whatever it is; the second quote ends it. */
  lemma QuoteRead(quote: char, body: string, rest: string)
    requires quote in QUOTES && quote !in body
    ensures Lex([quote] + body + [quote] + rest, None) ==
            [Text(quote, false)] + QuotedText(body + [quote]) + Lex(rest, None)
  {
    var sql := [quote] + body + [quote] + rest;
    assert sql[1..] == body + ([quote] + rest);
    QuotedRun(quote, body, [quote] + rest);
    assert ([quote] + rest)[1..] == rest;
    assert QuotedText(body + [quote]) == QuotedText(body) + [Text(quote, true)];
  }

  /** A quote that is never closed: all that follows is quoted. */
  lemma OpenQuoteRead(quote: char, body: string)
    requires quote in QUOTES && quote !in body
    ensures Lex([quote] + body, None) == [Text(quote, false)] + QuotedText(body)
  {
    assert ([quote] + body)[1..] == body + [];
    QuotedRun(quote, body, []);
  }

  lemma {:induction false} QuotedRun(quote: char, body: string, rest: string)
    requires quote in QUOTES && quote !in body
    ensures Lex(body + rest, Some(quote)) == QuotedText(body) + Lex(rest, Some(quote))
    decreases |body|
  {
    if body == [] {
      assert body + rest == rest;
    } else {
      assert (body + rest)[1..] == body[1..] + rest;
      QuotedRun(quote, body[1..], rest);
      assert QuotedText(body) == [Text(body[0], true)] + QuotedText(body[1..]);
    }
  }

  /** Any other character stands for itself. */
  lemma PlainRead(c: char, rest: string)
    requires c !in QUOTES && !(c == '$' && BeginsWithDigit(rest))
    ensures Lex([c] + rest, None) == [Text(c, false)] + Lex(rest, None)
    ensures Output([c] + rest, None) == [c] + Output(rest, None)
  {
    assert ([c] + rest)[1..] == rest;
    if rest != [] {
      DigitsOnly(rest[0]);
    }
    assert QUOTES[0] == '\'' && QUOTES[1] == '"' && QUOTES[2] == '`';
    OutputText([c] + rest, None);
  }
}
