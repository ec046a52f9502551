/** The order on strings that the handlers rely on. Prisma's `lte`/`gte`
    filters and `orderBy` on text columns, and the admin screen's
    `localeCompare`, are all read here as comparison character by character
    on character codes. The lemmas show that on the zero-padded "HH:MM" and
    "YYYY-MM-DD" strings the application stores, this order is chronological. */
module Text {

  /** `a <= b` in lexicographic order on character codes. */
  predicate StrLe(a: string, b: string)
    decreases |a|
  {
    a == [] || (b != [] && (a[0] < b[0] || (a[0] == b[0] && StrLe(a[1..], b[1..]))))
  }

  lemma {:induction false} StrLeReflexive(a: string)
    ensures StrLe(a, a)
    decreases |a|
  {
    if a != [] { StrLeReflexive(a[1..]); }
  }

  lemma {:induction false} StrLeTotal(a: string, b: string)
    ensures StrLe(a, b) || StrLe(b, a)
    decreases |a|
  {
    if a != [] && b != [] && a[0] == b[0] { StrLeTotal(a[1..], b[1..]); }
  }

  lemma {:induction false} StrLeTransitive(a: string, b: string, c: string)
    requires StrLe(a, b) && StrLe(b, c)
    ensures StrLe(a, c)
    decreases |a|
  {
    if a != [] && a[0] == b[0] && b[0] == c[0] { StrLeTransitive(a[1..], b[1..], c[1..]); }
  }

  lemma {:induction false} StrLeAntisymmetric(a: string, b: string)
    requires StrLe(a, b) && StrLe(b, a)
    ensures a == b
    decreases |a|
  {
    if a != [] {
      StrLeAntisymmetric(a[1..], b[1..]);
      assert a == [a[0]] + a[1..] && b == [b[0]] + b[1..];
    }
  }

  /** Comparing two strings whose first parts have the same length compares
      the first parts and, only when they are equal, the rest. */
  lemma {:induction false} StrLeConcat(p: string, x: string, q: string, y: string)
    requires |p| == |q|
    ensures StrLe(p + x, q + y) <==> (p == q && StrLe(x, y)) || (p != q && StrLe(p, q))
    decreases |p|
  {
    if p == [] {
      assert p + x == x && q + y == y;
    } else {
      assert (p + x)[1..] == p[1..] + x && (q + y)[1..] == q[1..] + y;
      StrLeConcat(p[1..], x, q[1..], y);
      if p[0] == q[0] && p[1..] == q[1..] {
        assert p == [p[0]] + p[1..] && q == [q[0]] + q[1..];
      }
    }
  }

  predicate IsDigit(c: char) { '0' <= c <= '9' }

  predicate AllDigits(s: string) { forall i :: 0 <= i < |s| ==> IsDigit(s[i]) }

  function Pow10(n: nat): (r: nat)
    ensures r >= 1
  {
    if n == 0 then 1 else 10 * Pow10(n - 1)
  }

  function DigitValue(c: char): (d: nat)
    requires IsDigit(c)
    ensures d <= 9
  {
    c as int - '0' as int
  }

  /** The number a string of decimal digits denotes. */
  function Value(s: string): nat
    requires AllDigits(s)
  {
    if s == [] then 0
    else
      assert AllDigits(s[1..]);
      DigitValue(s[0]) * Pow10(|s| - 1) + Value(s[1..])
  }

  /** `n` digits denote less than 10 to the `n`. */
  lemma {:induction false} ValueBelow(s: string)
    requires AllDigits(s)
    ensures Value(s) < Pow10(|s|)
  {
    if s != [] {
      assert AllDigits(s[1..]);
      var d, p := DigitValue(s[0]), Pow10(|s| - 1);
      ValueBelow(s[1..]);
      LeadingDigit(d, p, Value(s[1..]));
      MulMonotone(d + 1, 10, p);
    }
  }

  /** A leading digit `d` in front of a tail worth less than `p` keeps the
      number below the next digit's weight. */
  lemma LeadingDigit(d: nat, p: nat, rest: nat)
    requires rest < p
    ensures d * p + rest < (d + 1) * p
  {
  }

  lemma MulMonotone(x: nat, y: nat, p: nat)
    requires x <= y
    ensures x * p <= y * p
  {
  }

  /** On digit strings of one length, lexicographic order is numeric order. */
  lemma {:induction false} DigitsOrder(a: string, b: string)
    requires AllDigits(a) && AllDigits(b) && |a| == |b|
    ensures StrLe(a, b) <==> Value(a) <= Value(b)
    decreases |a|
  {
    if a != [] {
      var p := Pow10(|a| - 1);
      var da, db := DigitValue(a[0]), DigitValue(b[0]);
      assert Value(a) == da * p + Value(a[1..]);
      assert Value(b) == db * p + Value(b[1..]);
      assert AllDigits(a[1..]) && AllDigits(b[1..]);
      DigitsOrder(a[1..], b[1..]);
      ValueBelow(a[1..]);
      ValueBelow(b[1..]);
      if da < db {
        LeadingDigit(da, p, Value(a[1..]));
        MulMonotone(da + 1, db, p);
      } else if db < da {
        LeadingDigit(db, p, Value(b[1..]));
        MulMonotone(db + 1, da, p);
      }
    }
  }

  /** Equal values mean equal digit strings of one length. */
  lemma DigitsInjective(a: string, b: string)
    requires AllDigits(a) && AllDigits(b) && |a| == |b|
    requires Value(a) == Value(b)
    ensures a == b
  {
    DigitsOrder(a, b);
    DigitsOrder(b, a);
    StrLeAntisymmetric(a, b);
  }

  /** Strict order on equal-length digit strings is strict numeric order. */
  lemma DigitsStrict(a: string, b: string)
    requires AllDigits(a) && AllDigits(b) && |a| == |b|
    ensures (a != b && StrLe(a, b)) <==> Value(a) < Value(b)
  {
    DigitsOrder(a, b);
    if Value(a) == Value(b) { DigitsInjective(a, b); }
  }

  /** A zero-padded 24-hour time "HH:MM". */
  predicate IsTime(t: string) {
    |t| == 5 && t[2] == ':' && AllDigits(t[..2]) && AllDigits(t[3..])
    && Value(t[..2]) < 24 && Value(t[3..]) < 60
  }

  /** Minutes since midnight. */
  function Minutes(t: string): (m: nat)
    requires IsTime(t)
    ensures m < 24 * 60
  {
    Value(t[..2]) * 60 + Value(t[3..])
  }

  /** A leading field of digits is compared by its value; only on a tie
      does the rest of the string decide. */
  lemma LeadingField(p: string, x: string, q: string, y: string)
    requires AllDigits(p) && AllDigits(q) && |p| == |q|
    ensures StrLe(p + x, q + y) <==> Value(p) < Value(q) || (Value(p) == Value(q) && StrLe(x, y))
  {
    StrLeConcat(p, x, q, y);
    DigitsStrict(p, q);
    if p == q { assert Value(p) == Value(q); }
    if Value(p) == Value(q) { DigitsInjective(p, q); }
  }

  /** A common separator character does not affect the comparison. */
  lemma Separator(c: char, x: string, y: string)
    ensures StrLe([c] + x, [c] + y) <==> StrLe(x, y)
  {
    assert ([c] + x)[1..] == x && ([c] + y)[1..] == y;
  }

  /** Comparing "HH:MM" strings as text compares them as times of day. */
  lemma TimeOrder(a: string, b: string)
    requires IsTime(a) && IsTime(b)
    ensures StrLe(a, b) <==> Minutes(a) <= Minutes(b)
  {
    assert a == a[..2] + ([a[2]] + a[3..]);
    assert b == b[..2] + ([b[2]] + b[3..]);
    LeadingField(a[..2], [a[2]] + a[3..], b[..2], [b[2]] + b[3..]);
    Separator(':', a[3..], b[3..]);
    DigitsOrder(a[3..], b[3..]);
  }

  /** A calendar date "YYYY-MM-DD". */
  predicate IsDate(d: string) {
    |d| == 10 && d[4] == '-' && d[7] == '-'
    && AllDigits(d[..4]) && AllDigits(d[5..7]) && AllDigits(d[8..])
  }

  function Year(d: string): nat requires IsDate(d) { Value(d[..4]) }
  function Month(d: string): nat requires IsDate(d) { Value(d[5..7]) }
  function Day(d: string): nat requires IsDate(d) { Value(d[8..]) }

  /** Calendar order: by year, then month, then day. */
  predicate CalendarLe(a: string, b: string)
    requires IsDate(a) && IsDate(b)
  {
    Year(a) < Year(b)
    || (Year(a) == Year(b) && (Month(a) < Month(b) || (Month(a) == Month(b) && Day(a) <= Day(b))))
  }

  /** After the year, "MM-DD" compares by month, then day. */
  lemma MonthDayOrder(a: string, b: string)
    requires IsDate(a) && IsDate(b)
    ensures StrLe(a[5..], b[5..]) <==> Month(a) < Month(b) || (Month(a) == Month(b) && Day(a) <= Day(b))
  {
    var ra, rb := a[5..], b[5..];
    assert ra == a[5..7] + ([a[7]] + a[8..]);
    assert rb == b[5..7] + ([b[7]] + b[8..]);
    LeadingField(a[5..7], [a[7]] + a[8..], b[5..7], [b[7]] + b[8..]);
    Separator('-', a[8..], b[8..]);
    DigitsOrder(a[8..], b[8..]);
  }

  /** Comparing "YYYY-MM-DD" strings as text compares them as dates. */
  lemma DateOrder(a: string, b: string)
    requires IsDate(a) && IsDate(b)
    ensures StrLe(a, b) <==> CalendarLe(a, b)
  {
    var ra, rb := a[5..], b[5..];
    assert a == a[..4] + ([a[4]] + ra);
    assert b == b[..4] + ([b[4]] + rb);
    LeadingField(a[..4], [a[4]] + ra, b[..4], [b[4]] + rb);
    Separator('-', ra, rb);
    MonthDayOrder(a, b);
  }
}
