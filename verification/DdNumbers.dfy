/** The numbers in the arguments of dd: products, with overflow found by dividing again. */
module DdNumbers {

  const WORD: nat := 0x1_0000_0000_0000_0000   // one more than the largest uintmax_t

  /** A number with its multiplier, 1 if it has none. */
  datatype Factor = Factor(num: nat, unit: nat)

  predicate FactorOk(f: Factor) {
    0 <= f.num < WORD && f.unit in {1, 2, 4, 512, 0x400, 0x10_0000, 0x4000_0000}
  }

  /** Multiplication that wraps around. */
  function Times(a: nat, b: nat): (p: nat)
    ensures p < WORD
  {
    a * b % WORD
  }

  /** Dividing the wrapped product again gives the factor back exactly when nothing has wrapped. */
  lemma WrapFound(a: nat, b: nat)
    requires a < WORD && 0 < b < WORD
    ensures Times(a, b) / b == a <==> a * b < WORD
    ensures a * b < WORD ==> Times(a, b) == a * b
  {
    var p, t := a * b, Times(a, b);
    if p < WORD {
      Quotient(p, a, b);
    } else {
      assert t < p - b by {
        WrapsBelow(p, t);
      }
      SmallerQuotient(t, a, b);
    }
  }

  lemma WrapsBelow(p: nat, t: nat)
    requires p >= WORD && t == p % WORD
    ensures t <= p - WORD
  {
    var q := p / WORD;
    assert p == q * WORD + t && q >= 1;
  }

  lemma Quotient(p: nat, a: nat, b: nat)
    requires b > 0 && p == a * b
    ensures p / b == a
  {
    var k := p / b - a;
    assert k * b == p / b * b - a * b && p == p / b * b + p % b;
    assert k >= 1 ==> k * b >= b;
    assert k <= -1 ==> (-k) * b >= b;
  }

  lemma SmallerQuotient(t: nat, a: nat, b: nat)
    requires b > 0 && t < a * b - b
    ensures t / b < a
  {
    var k := t / b - a;
    assert t == t / b * b + t % b && k * b == t / b * b - a * b;
    assert k >= 0 ==> k * b >= 0;
  }

  function Product(fs: seq<Factor>): nat {
    if fs == [] then 1 else fs[0].num * fs[0].unit * Product(fs[1..])
  }

  /** Every number of the factors is positive, as the usage of dd says. */
  predicate AllPositive(fs: seq<Factor>) {
    forall k :: 0 <= k < |fs| ==> fs[k].num > 0
  }

  predicate FactorsOk(fs: seq<Factor>) {
    forall k :: 0 <= k < |fs| ==> FactorOk(fs[k])
  }

  lemma {:induction false} ProductPositive(fs: seq<Factor>)
    requires FactorsOk(fs)
    ensures Product(fs) > 0 <==> AllPositive(fs)
  {
    if fs != [] {
      ProductPositive(fs[1..]);
      assert FactorOk(fs[0]);
      assert AllPositive(fs) <==> fs[0].num > 0 && AllPositive(fs[1..]) by {
        assert fs == [fs[0]] + fs[1..];
      }
      Positive(fs[0].num, fs[0].unit);
      Positive(fs[0].num * fs[0].unit, Product(fs[1..]));
    }
  }

  lemma Positive(a: nat, b: nat)
    ensures a * b > 0 <==> a > 0 && b > 0
    ensures a > 0 ==> a * b >= b
    ensures b > 0 ==> a * b >= a
  {
  }

  datatype Answer = Value(num: nat) | TooLarge | DividesByZero

  /** Whether get_num gives a number: no factor but the first is zero, and every product on the way is below 2 to the 64th. */
  predicate Fits(fs: seq<Factor>)
    requires fs != []
  {
    AllPositive(fs[1..]) && Product(fs[1..]) < WORD && Product(fs) < WORD
  }

  /** Of positive numbers, all products fit just when the whole one does. */
  lemma FitsPositive(fs: seq<Factor>)
    requires fs != [] && FactorsOk(fs) && AllPositive(fs)
    ensures Fits(fs) <==> Product(fs) < WORD
  {
    ProductPositive(fs[1..]);
    assert FactorOk(fs[0]);
    Positive(fs[0].num, fs[0].unit);
    Positive(fs[0].num * fs[0].unit, Product(fs[1..]));
  }

  /**
   get_num: the product of the factors, or an error when it does not fit; an expression with a zero behind an x never
   gives a number, and where that zero is found the test for overflow divides by it.
   */
  method GetNum(fs: seq<Factor>) returns (r: Answer)
    requires fs != [] && FactorsOk(fs)
    ensures r.Value? <==> Fits(fs)
    ensures r.Value? ==> r.num == Product(fs)
    ensures r.DividesByZero? <==> exists k :: ZeroFound(fs, k)
    ensures AllPositive(fs) ==> r == if Product(fs) < WORD then Value(Product(fs)) else TooLarge
    decreases |fs|
  {
    if AllPositive(fs) {
      FitsPositive(fs);
    }
    assert FactorOk(fs[0]);
    var rest := fs[1..];
    ProductPositive(rest);
    FirstFactor(fs[0].num, fs[0].unit, Product(rest));
    var num, mult := fs[0].num, fs[0].unit;
    if mult != 1 {
      r := Multiply(num, mult);
      if !r.Value? {
        return;
      }
      num := r.num;
    }
    if rest == [] {
      return Value(num);
    }
    RestFits(fs);
    RestZero(fs);
    r := GetNum(rest);
    if r.Value? {
      if r.num == 0 {
        return DividesByZero;
      }
      r := Multiply(num, r.num);
    }
  }

  /** Factor k is zero and is reached: nothing before it is too large by itself, and what follows it makes a number. */
  ghost predicate ZeroFound(fs: seq<Factor>, k: int) {
    0 < k < |fs| && fs[k].num == 0 && Fits(fs[k..]) && forall i :: 0 <= i < k ==> fs[i].num * fs[i].unit < WORD
  }

  lemma RestZero(fs: seq<Factor>)
    requires |fs| > 1 && FactorsOk(fs) && fs[0].num * fs[0].unit < WORD
    ensures (exists k :: ZeroFound(fs, k)) <==>
      (exists k :: ZeroFound(fs[1..], k)) || (Fits(fs[1..]) && Product(fs[1..]) == 0)
  {
    var rest := fs[1..];
    if Fits(rest) {
      ProductPositive(rest);
      assert FactorOk(rest[0]) && rest == [rest[0]] + rest[1..];
      assert Product(rest) == 0 <==> rest[0].num == 0;
    }
    if Fits(rest) && Product(rest) == 0 {
      assert ZeroFound(fs, 1);
    }
    if k :| ZeroFound(rest, k) {
      assert fs[k + 1..] == rest[k..];
      assert ZeroFound(fs, k + 1) by {
        assert forall i :: 0 < i < k + 1 ==> fs[i] == rest[i - 1];
      }
    }
    if k :| ZeroFound(fs, k) {
      assert fs[k..] == rest[k - 1..];
      if k > 1 {
        assert ZeroFound(rest, k - 1);
      }
    }
  }

  /** What keeps the rest from being a number keeps the whole from being one. */
  lemma RestFits(fs: seq<Factor>)
    requires |fs| > 1 && FactorsOk(fs)
    ensures Fits(fs) <==> Fits(fs[1..]) && Product(fs[1..]) > 0 && Product(fs) < WORD
    ensures !AllPositive(fs[1..][1..]) ==> !AllPositive(fs[1..])
  {
    var rest := fs[1..];
    ProductPositive(rest);
    if AllPositive(rest) {
      FitsPositive(rest);
    }
  }

  /** The product with one factor more. */
  lemma FirstFactor(num: nat, unit: nat, rest: nat)
    requires unit > 0
    ensures rest > 0 ==> num * unit * rest >= num * unit
  {
    Positive(num * unit, rest);
  }

  /** Multiplies, and divides again to see whether that has wrapped around. */
  method Multiply(num: nat, mult: nat) returns (r: Answer)
    requires num < WORD && 0 < mult < WORD
    ensures r == if num * mult < WORD then Value(num * mult) else TooLarge
  {
    WrapFound(num, mult);
    var prevnum := num;
    var product := Times(num, mult);
    if product / mult != prevnum {
      return TooLarge;
    }
    r := Value(product);
  }

  /** 2x0 */
  lemma ZeroFactor()
    ensures ZeroFound([Factor(2, 1), Factor(0, 1)], 1)
  {
    var fs := [Factor(2, 1), Factor(0, 1)];
    assert fs[1..] == [Factor(0, 1)] && fs[1..][1..] == [];
  }
}
