/**
 What `<` and `>` mean between two big-number objects: the operators turn both into decimal strings and compare
 those by UTF-16 code unit.
 */
module DecimalOrder {
  import opened Rounding

  const CODE_OF_ZERO: int := 48
  const CODE_OF_MINUS: int := 45

  /** The code units of a natural number's decimal digits, most significant first. */
  function Digits(n: nat): (s: seq<int>)
    ensures |s| > 0
  {
    if n < 10 then [CODE_OF_ZERO + n] else Digits(n / 10) + [CODE_OF_ZERO + n % 10]
  }

  function Decimal(n: int): seq<int> {
    if n < 0 then [CODE_OF_MINUS] + Digits(-n) else Digits(n)
  }

  /** The order on strings: the first difference decides, and a proper prefix comes first. */
  predicate Before(a: seq<int>, b: seq<int>)
    decreases |a|
  {
    if b == [] then false
    else if a == [] then true
    else if a[0] != b[0] then a[0] < b[0]
    else Before(a[1..], b[1..])
  }

  /** `a < b` on the objects; `a > b` is the same with the operands exchanged. */
  predicate StringLess(a: int, b: int) {
    Before(Decimal(a), Decimal(b))
  }

  function Pow10(k: nat): (p: nat)
    ensures p > 0
  {
    if k == 0 then 1 else 10 * Pow10(k - 1)
  }

  function DigitCount(n: nat): nat {
    |Digits(n)|
  }

  // ----- the order in terms of the numbers -----

  lemma {:induction false} BeforeAppend(a: seq<int>, b: seq<int>, x: int)
    ensures |a| <= |b| ==> (Before(a, b + [x]) <==> Before(a, b) || a == b)
    ensures |a| >= |b| ==> (Before(a + [x], b) <==> Before(a, b))
    decreases |a|
  {
    if a != [] && b != [] {
      assert (a + [x])[1..] == a[1..] + [x];
      assert (b + [x])[1..] == b[1..] + [x];
      BeforeAppend(a[1..], b[1..], x);
      assert a == b <==> a[0] == b[0] && a[1..] == b[1..];
    }
  }

  lemma {:induction false} BeforeAppendBoth(a: seq<int>, b: seq<int>, x: int, y: int)
    requires |a| == |b|
    ensures Before(a + [x], b + [y]) <==> Before(a, b) || (a == b && x < y)
    decreases |a|
  {
    if a != [] {
      assert (a + [x])[1..] == a[1..] + [x];
      assert (b + [y])[1..] == b[1..] + [y];
      BeforeAppendBoth(a[1..], b[1..], x, y);
      assert a == b <==> a[0] == b[0] && a[1..] == b[1..];
    }
  }

  lemma {:induction false} SameLengthOrder(a: nat, b: nat)
    requires DigitCount(a) == DigitCount(b)
    ensures Before(Digits(a), Digits(b)) <==> a < b
    ensures Digits(a) == Digits(b) <==> a == b
  {
    if a < 10 || b < 10 {
      assert a < 10 && b < 10;
    } else {
      var da, db := Digits(a / 10), Digits(b / 10);
      SameLengthOrder(a / 10, b / 10);
      BeforeAppendBoth(da, db, CODE_OF_ZERO + a % 10, CODE_OF_ZERO + b % 10);
      assert Digits(a)[..|da|] == da && Digits(b)[..|db|] == db;
    }
  }

  /** A shorter numeral comes first exactly when the longer one, cut to its length, is not smaller. */
  lemma {:induction false} ShorterFirstIff(a: nat, b: nat)
    requires DigitCount(a) <= DigitCount(b)
    ensures DigitCount(a) < DigitCount(b) ==>
              (Before(Digits(a), Digits(b)) <==> a * Pow10(DigitCount(b) - DigitCount(a)) <= b)
    ensures DigitCount(a) < DigitCount(b) ==>
              (Before(Digits(b), Digits(a)) <==> b < a * Pow10(DigitCount(b) - DigitCount(a)))
    decreases b
  {
    if DigitCount(a) < DigitCount(b) {
      var c := b / 10;
      var k := DigitCount(c) - DigitCount(a);
      var last := CODE_OF_ZERO + b % 10;
      BeforeAppend(Digits(a), Digits(c), last);
      BeforeAppend(Digits(c), Digits(a), last);
      FloorGalois(b, 10, a * Pow10(k));
      assert a * Pow10(k + 1) == a * Pow10(k) * 10;
      if k == 0 {
        SameLengthOrder(a, c);
        SameLengthOrder(c, a);
      } else {
        ShorterFirstIff(a, c);
      }
    }
  }

  /** For a < b the string order agrees with the numeric one exactly when a, padded with zeros to the length of b,
      does not exceed b. */
  lemma StringOrderAgreesIff(a: nat, b: nat)
    requires a < b
    ensures DigitCount(a) <= DigitCount(b)
    ensures StringLess(a, b) <==> a * Pow10(DigitCount(b) - DigitCount(a)) <= b
    ensures StringLess(b, a) <==> a * Pow10(DigitCount(b) - DigitCount(a)) > b
  {
    DigitCountMono(a, b);
    if DigitCount(a) == DigitCount(b) {
      SameLengthOrder(a, b);
      SameLengthOrder(b, a);
    } else {
      ShorterFirstIff(a, b);
    }
  }

  lemma {:induction false} DigitCountMono(a: nat, b: nat)
    requires a <= b
    ensures DigitCount(a) <= DigitCount(b)
    decreases b
  {
    if a >= 10 { DigitCountMono(a / 10, b / 10); }
  }

  lemma {:induction false} DigitCountBounds(n: nat)
    ensures n < Pow10(DigitCount(n))
    ensures n > 0 ==> Pow10(DigitCount(n) - 1) <= n
  {
    if n >= 10 { DigitCountBounds(n / 10); }
  }

  lemma {:induction false} LeadingDigit(n: nat)
    ensures n > 0 ==> Digits(n)[0] > CODE_OF_ZERO
    ensures n < 10 ==> Digits(n) == [CODE_OF_ZERO + n]
  {
    if n >= 10 { LeadingDigit(n / 10); }
  }

  /** Comparing with zero is safe: the string order of any number with zero is the numeric one. */
  lemma AboveZeroIffPositive(n: int)
    ensures StringLess(0, n) <==> n > 0
  {
    if n >= 0 { LeadingDigit(n); }
  }
}
