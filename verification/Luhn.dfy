/**
 The Luhn check that keeps the credit-card pattern from redacting arbitrary
 digit strings, and the transcription errors it is there to notice.
 */
module Luhn {

  predicate IsDigit(c: char) {
    '0' <= c <= '9'
  }

  function Digit(c: char): (d: nat)
    requires IsDigit(c)
    ensures d <= 9
  {
    c as int - '0' as int
  }

  /** The digits of a string; separators and anything else are skipped. */
  function DigitsOf(s: string): (ds: seq<nat>)
    ensures forall d :: d in ds ==> d <= 9
  {
    if s == "" then [] else (if IsDigit(s[0]) then [Digit(s[0])] else []) + DigitsOf(s[1..])
  }

  /** What a digit adds to the checksum: every second one, from the right, counts double with its digits summed. */
  function Weight(d: nat, doubled: bool): nat {
    if !doubled then d else if 2 * d > 9 then 2 * d - 9 else 2 * d
  }

  ghost predicate Even(n: nat) {
    n == 0 || !Even(n - 1)
  }

  ghost function Checksum(ds: seq<nat>): nat {
    if ds == [] then 0 else Weight(ds[0], Even(|ds|)) + Checksum(ds[1..])
  }

  ghost predicate Accepted(ds: seq<nat>) {
    13 <= |ds| <= 19 && Checksum(ds) % 10 == 0
  }

  /** `luhn_check`: one pass over the digits from the right. */
  method LuhnCheck(text: string) returns (ok: bool)
    ensures ok <==> Accepted(DigitsOf(text))
    ensures ok <==> 13 <= |DigitsOf(text)| <= 19 && SumFromTheRight(DigitsOf(text), false) % 10 == 0
  {
    var digits := DigitsOf(text);
    if |digits| < 13 || |digits| > 19 {
      return false;
    }
    var sum := 0;
    var alternate := false;
    var i := |digits|;
    while i > 0
      invariant 0 <= i <= |digits|
      invariant sum == Checksum(digits[i..])
      invariant alternate <==> !Even(|digits| - i)
    {
      i := i - 1;
      assert digits[i..][1..] == digits[i + 1..];
      var n := digits[i];
      if alternate {
        n := n * 2;
        if n > 9 {
          n := n - 9;
        }
      }
      sum := sum + n;
      alternate := !alternate;
    }
    assert digits[0..] == digits;
    ChecksumFromTheRight(digits);
    return sum % 10 == 0;
  }

  /** A doubled digit counts with the sum of its digits, tens and ones. */
  lemma WeightExactly(d: nat)
    requires d <= 9
    ensures Weight(d, false) == d && Weight(d, true) == 2 * d / 10 + 2 * d % 10
  {
  }

  /** The same sum taken from the right: the last digit counts once, the one before it double, and so on. */
  ghost function SumFromTheRight(ds: seq<nat>, doubled: bool): nat {
    if ds == [] then 0 else Weight(ds[|ds| - 1], doubled) + SumFromTheRight(ds[..|ds| - 1], !doubled)
  }

  lemma {:induction false} SumOfFirst(ds: seq<nat>, doubled: bool)
    requires ds != []
    ensures SumFromTheRight(ds, doubled) == SumFromTheRight(ds[1..], doubled) + Weight(ds[0], doubled == !Even(|ds|))
    decreases |ds|
  {
    var n := |ds| - 1;
    if n == 0 {
      assert ds[..0] == [] && ds[1..] == [];
      assert !Even(1);
    } else {
      assert ds[..n][1..] == ds[1..][..n - 1];
      SumOfFirst(ds[..n], !doubled);
    }
  }

  lemma {:induction false} ChecksumFromTheRight(ds: seq<nat>)
    ensures Checksum(ds) == SumFromTheRight(ds, false)
  {
    if ds != [] {
      ChecksumFromTheRight(ds[1..]);
      SumOfFirst(ds, false);
    }
  }

  /** Digits are read where they stand; everything else is skipped. */
  lemma {:induction false} DigitsInOrder(a: string, b: string, c: char)
    ensures DigitsOf(a + b) == DigitsOf(a) + DigitsOf(b)
    ensures DigitsOf([c]) == if '0' <= c <= '9' then [c as int - '0' as int] else []
  {
    assert [c][1..] == "" && DigitsOf("") == [];
    if a == "" {
      assert a + b == b;
    } else {
      assert (a + b)[1..] == a[1..] + b;
      DigitsInOrder(a[1..], b, c);
    }
  }

  /** Changing one digit changes the sum by the difference of the two weights. */
  lemma {:induction false} ChecksumOfUpdate(ds: seq<nat>, k: nat, d: nat)
    requires k < |ds|
    ensures Checksum(ds[k := d]) + Weight(ds[k], Even(|ds| - k)) == Checksum(ds) + Weight(d, Even(|ds| - k))
  {
    if k == 0 {
      assert ds[0 := d][1..] == ds[1..];
    } else {
      assert ds[k := d][1..] == ds[1..][k - 1 := d];
      ChecksumOfUpdate(ds[1..], k - 1, d);
    }
  }

  /** Doubling with a digit sum is a permutation of the digits, so weights of different digits differ modulo ten. */
  lemma WeightInjective(a: nat, b: nat, doubled: bool)
    requires a <= 9 && b <= 9 && a != b
    ensures Weight(a, doubled) <= 9 && Weight(b, doubled) <= 9
    ensures Weight(a, doubled) % 10 != Weight(b, doubled) % 10
  {
  }

  /** Every single-digit error is noticed. */
  lemma SingleDigitError(ds: seq<nat>, k: nat, d: nat)
    requires forall x :: x in ds ==> x <= 9
    requires k < |ds| && d <= 9 && d != ds[k]
    requires Accepted(ds)
    ensures !Accepted(ds[k := d])
  {
    assert ds[k] in ds;
    var doubled := Even(|ds| - k);
    ChecksumOfUpdate(ds, k, d);
    WeightInjective(ds[k], d, doubled);
    SameRemainder(Checksum(ds), Checksum(ds[k := d]), Weight(ds[k], doubled), Weight(d, doubled));
  }

  /** Two neighbours trade places. */
  function Swapped(ds: seq<nat>, k: nat): seq<nat>
    requires k + 1 < |ds|
  {
    ds[k := ds[k + 1]][k + 1 := ds[k]]
  }

  /** A transposition of neighbours is noticed unless the digits are 0 and 9, which the check cannot tell apart. */
  lemma AdjacentTransposition(ds: seq<nat>, k: nat)
    requires forall x :: x in ds ==> x <= 9
    requires k + 1 < |ds| && ds[k] != ds[k + 1]
    requires Accepted(ds)
    ensures Accepted(Swapped(ds, k)) <==> {ds[k], ds[k + 1]} == {0, 9}
  {
    var a, b := ds[k], ds[k + 1];
    assert a in ds && b in ds;
    ZeroAndNine(a, b);
    var doubled := Even(|ds| - k);
    ChecksumOfSwap(ds, k, doubled);
    TranspositionWeights(a, b, doubled);
    SameRemainder(Checksum(ds), Checksum(Swapped(ds, k)), PairWeight(a, b, doubled), PairWeight(b, a, doubled));
  }

  /** What two neighbours add, the first of them doubled or not. */
  ghost function PairWeight(a: nat, b: nat, doubled: bool): nat {
    Weight(a, doubled) + Weight(b, !doubled)
  }

  lemma ChecksumOfSwap(ds: seq<nat>, k: nat, doubled: bool)
    requires k + 1 < |ds| && doubled == Even(|ds| - k)
    ensures Checksum(Swapped(ds, k)) + PairWeight(ds[k], ds[k + 1], doubled)
         == Checksum(ds) + PairWeight(ds[k + 1], ds[k], doubled)
  {
    var a, b := ds[k], ds[k + 1];
    var first := ds[k := b];
    assert |first| == |ds| && first[k + 1] == b;
    ChecksumOfUpdate(ds, k, b);
    ChecksumOfUpdate(first, k + 1, a);
  }

  lemma WithinTen(x: nat, y: nat)
    requires -9 <= x - y <= 9
    ensures x % 10 == y % 10 <==> x == y
  {
  }

  lemma SameRemainder(c: nat, c': nat, x: nat, y: nat)
    requires c' + x == c + y && c % 10 == 0
    ensures c' % 10 == 0 <==> x % 10 == y % 10
  {
  }

  lemma ZeroAndNine(a: nat, b: nat)
    ensures {a, b} == {0, 9} <==> (a == 0 && b == 9) || (a == 9 && b == 0)
  {
    if {a, b} == {0, 9} {
      assert a in {0, 9} && b in {0, 9} && 0 in {a, b} && 9 in {a, b};
    }
  }

  lemma TranspositionWeights(a: nat, b: nat, doubled: bool)
    requires a <= 9 && b <= 9 && a != b
    ensures (PairWeight(a, b, doubled) % 10 == PairWeight(b, a, doubled) % 10)
         == ((a == 0 && b == 9) || (a == 9 && b == 0))
  {
    // A doubled digit counts 2d or 2d - 9, so exchanging the two moves the sum by a - b, at most nine
    // either way, or by that and nine.
    var difference := PairWeight(a, b, doubled) - PairWeight(b, a, doubled);
    assert -9 <= difference <= 9;
    WithinTen(PairWeight(a, b, doubled), PairWeight(b, a, doubled));
  }

  /** Any 12 to 18 digits have exactly one check digit. */
  lemma CheckDigit(payload: seq<nat>) returns (d: nat)
    requires 12 <= |payload| <= 18
    ensures d <= 9 && Accepted(payload + [d])
    ensures forall e | e <= 9 && Accepted(payload + [e]) :: e == d
  {
    var base := payload + [0];
    d := Complement(Checksum(base));
    forall e: nat | e <= 9
      ensures Accepted(payload + [e]) <==> e == d
    {
      assert base[|payload| := e] == payload + [e];
      ChecksumOfUpdate(base, |payload|, e);
      ComplementUnique(Checksum(base), e);
    }
  }

  function Complement(c: nat): (d: nat)
    ensures d <= 9
  {
    (10 - c % 10) % 10
  }

  lemma ComplementUnique(c: nat, e: nat)
    requires e <= 9
    ensures (c + e) % 10 == 0 <==> e == Complement(c)
  {
  }

  lemma {:induction false} DigitsOfUpdate(s: string, i: nat, c: char) returns (k: nat)
    requires i < |s| && IsDigit(s[i]) && IsDigit(c)
    ensures k < |DigitsOf(s)| && DigitsOf(s)[k] == Digit(s[i])
    ensures DigitsOf(s[i := c]) == DigitsOf(s)[k := Digit(c)]
  {
    if i == 0 {
      k := 0;
      assert s[0 := c][1..] == s[1..];
    } else {
      assert s[i := c][1..] == s[1..][i - 1 := c];
      var j := DigitsOfUpdate(s[1..], i - 1, c);
      k := if IsDigit(s[0]) then j + 1 else j;
    }
  }

  /** Separators do not matter: a mistyped digit of an accepted text is noticed wherever it stands. */
  lemma MistypedCharacter(s: string, i: nat, c: char)
    requires i < |s| && IsDigit(s[i]) && IsDigit(c) && c != s[i]
    requires Accepted(DigitsOf(s))
    ensures !Accepted(DigitsOf(s[i := c]))
  {
    var k := DigitsOfUpdate(s, i, c);
    SingleDigitError(DigitsOf(s), k, Digit(c));
  }
}
