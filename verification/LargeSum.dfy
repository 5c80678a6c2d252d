/**
  Addition of decimal strings, by which the identities of the simulated UEs are numbered.
*/
module LargeSums {
  import opened Common

  predicate IsDigit(c: char) { '0' <= c <= '9' }

  ghost predicate Numeral(s: string) {
    forall i :: 0 <= i < |s| ==> IsDigit(s[i])
  }

  function Digit(c: char): (d: nat)
    requires IsDigit(c)
    ensures d < 10
  {
    c as int - '0' as int
  }

  function CharOf(d: nat): (c: char)
    requires d < 10
    ensures IsDigit(c) && Digit(c) == d
  {
    '0' + d as char
  }

  /** Digits are ordered as characters are; being ten, they have no other values. */
  lemma DigitOrder(c: char, d: char)
    requires IsDigit(c) && IsDigit(d)
    ensures Digit(c) < Digit(d) <==> c < d
    ensures Digit('0') == 0 && Digit('9') == 9
  {
  }

  function Pow10(n: nat): (r: nat)
    ensures r >= 1
  {
    if n == 0 then 1 else 10 * Pow10(n - 1)
  }

  /** The number a numeral stands for. */
  ghost function Val(s: string): (v: nat)
    requires Numeral(s)
    decreases |s|
  {
    if s == "" then 0 else 10 * Val(s[..|s| - 1]) + Digit(s[|s| - 1])
  }

  /** The first difference decides. */
  ghost predicate Before(s: string, t: string)
    requires |s| == |t|
  {
    s != "" && (s[0] < t[0] || (s[0] == t[0] && Before(s[1..], t[1..])))
  }

  /** Numerals of one length are ordered as strings are. */
  lemma {:induction false} NumeralOrder(s: string, t: string)
    requires Numeral(s) && Numeral(t) && |s| == |t|
    ensures Val(s) < Val(t) <==> Before(s, t)
    ensures Val(s) == Val(t) <==> s == t
  {
    if s != "" {
      var a, b := s[1..], t[1..];
      NumeralOrder(a, b);
      NumeralIsPadded(a);
      NumeralIsPadded(b);
      assert s == [s[0]] + a && t == [t[0]] + b;
      ValFront(s[0], a);
      ValFront(t[0], b);
      LeadingDigit(Digit(s[0]), Digit(t[0]), Val(a), Val(b), Pow10(|a|));
    }
  }

  lemma LeadingDigit(x: nat, y: nat, a: nat, b: nat, p: nat)
    requires a < p && b < p
    ensures x * p + a < y * p + b <==> x < y || (x == y && a < b)
    ensures x * p + a == y * p + b <==> x == y && a == b
  {
    if x < y {
      assert (x + 1) * p <= y * p;
    } else if y < x {
      assert (y + 1) * p <= x * p;
    }
  }

  /** A numeral of all ten digits is read as it is written. */
  lemma TenDigits()
    ensures Val("1234567890") == 1234567890
  {
    LastDigit("1", "", '1');
    LastDigit("12", "1", '2');
    LastDigit("123", "12", '3');
    LastDigit("1234", "123", '4');
    LastDigit("12345", "1234", '5');
    LastDigit("123456", "12345", '6');
    LastDigit("1234567", "123456", '7');
    LastDigit("12345678", "1234567", '8');
    LastDigit("123456789", "12345678", '9');
    LastDigit("1234567890", "123456789", '0');
  }

  lemma LastDigit(s: string, front: string, c: char)
    requires Numeral(front) && IsDigit(c) && s == front + [c]
    ensures Numeral(s) && Val(s) == 10 * Val(front) + Digit(c)
  {
    assert s[..|s| - 1] == front;
  }

  /** The numeral of `v` with `len` digits. */
  ghost function Padded(v: nat, len: nat): (s: string)
    ensures |s| == len && Numeral(s)
    decreases len
  {
    if len == 0 then "" else Padded(v / 10, len - 1) + [CharOf(v % 10)]
  }

  /** A numeral is the padded one of its value and length; so it is the only one with that value and length. */
  lemma {:induction false} NumeralIsPadded(s: string)
    requires Numeral(s)
    ensures Val(s) < Pow10(|s|) && s == Padded(Val(s), |s|)
    decreases |s|
  {
    if s != "" {
      var n := |s| - 1;
      NumeralIsPadded(s[..n]);
      assert Val(s) / 10 == Val(s[..n]) && Val(s) % 10 == Digit(s[n]);
      assert s == s[..n] + [s[n]];
    }
  }

  lemma {:induction false} PaddedVal(v: nat, len: nat)
    requires v < Pow10(len)
    ensures Val(Padded(v, len)) == v
    decreases len
  {
    if len > 0 {
      PaddedVal(v / 10, len - 1);
      assert Padded(v, len)[..len - 1] == Padded(v / 10, len - 1);
    }
  }

  function Reversed(s: string): (r: string)
    ensures |r| == |s| && forall i :: 0 <= i < |s| ==> r[i] == s[|s| - 1 - i]
  {
    if s == "" then "" else Reversed(s[1..]) + [s[0]]
  }

  /** The last `i` digits. */
  ghost function Tail(s: string, i: nat): (t: string)
    requires i <= |s|
  {
    s[|s| - i..]
  }

  /** One more digit in front. */
  lemma {:induction false} ValFront(c: char, s: string)
    requires IsDigit(c) && Numeral(s)
    ensures Numeral([c] + s) && Val([c] + s) == Digit(c) * Pow10(|s|) + Val(s)
    decreases |s|
  {
    if s == "" {
      assert [c] + s == [c] && [c][..0] == "";
    } else {
      var n := |s| - 1;
      ValFront(c, s[..n]);
      assert ([c] + s)[..n + 1] == [c] + s[..n];
    }
  }

  lemma TailFront(s: string, i: nat)
    requires i < |s| && Numeral(s)
    ensures Val(Tail(s, i + 1)) == Digit(s[|s| - 1 - i]) * Pow10(i) + Val(Tail(s, i))
  {
    assert Tail(s, i + 1) == [s[|s| - 1 - i]] + Tail(s, i);
    ValFront(s[|s| - 1 - i], Tail(s, i));
  }

  function Carried(carry: nat, p: nat): (c: nat)
    requires carry <= 1
  {
    if carry == 0 then 0 else p
  }

  /** One column of the addition. */
  lemma Column(p: nat, x: nat, y: nat, carry: nat, a: nat, b: nat, v: nat)
    requires x < 10 && y < 10 && carry <= 1 && v + Carried(carry, p) == a + b
    ensures var sum := x + y + carry;
            sum / 10 <= 1 && (sum % 10) * p + v + Carried(sum / 10, 10 * p) == (x * p + a) + (y * p + b)
  {
    var sum := x + y + carry;
    var q, d := sum / 10, sum % 10;
    assert q <= 1 && d == if q == 0 then sum else sum - 10;
    assert d * p == if q == 0 then sum * p else sum * p - 10 * p;
    assert sum * p == x * p + y * p + carry * p;
    assert carry * p == Carried(carry, p);
  }

  /**
    The last `i` digits of both numbers are added: `str` holds their sum, last digit
    first, and there may be a carry.
  */
  ghost predicate Added(a: string, b: string, i: nat, str: string, carry: nat)
    requires Numeral(a) && Numeral(b)
  {
    && |str| == i && Numeral(Reversed(str)) && carry <= 1 && i <= |b|
    && Val(Reversed(str)) + Carried(carry, Pow10(i)) == Val(Tail(a, if i < |a| then i else |a|)) + Val(Tail(b, i))
  }

  lemma AddedStep(a: string, b: string, i: nat, str: string, carry: nat, sum: nat)
    requires Numeral(a) && Numeral(b) && |a| <= |b| && i < |b| && Added(a, b, i, str, carry)
    requires sum == (if i < |a| then Digit(a[|a| - 1 - i]) else 0) + Digit(b[|b| - 1 - i]) + carry
    ensures Added(a, b, i + 1, str + [CharOf(sum % 10)], sum / 10)
  {
    var c := CharOf(sum % 10);
    ReversedSnoc(str, c);
    ValFront(c, Reversed(str));
    TailFront(b, i);
    var y, v, vb := Digit(b[|b| - 1 - i]), Val(Reversed(str)), Val(Tail(b, i));
    assert Digit(c) == sum % 10 && Numeral(Reversed(str + [c]));
    if i < |a| {
      TailFront(a, i);
      Column(Pow10(i), Digit(a[|a| - 1 - i]), y, carry, Val(Tail(a, i)), vb, v);
    } else {
      Column(Pow10(i), 0, y, carry, Val(Tail(a, |a|)), vb, v);
    }
  }

  lemma AddedTotal(a: string, b: string, str: string, carry: nat)
    requires Numeral(a) && Numeral(b) && |a| <= |b| && Added(a, b, |b|, str, carry)
    ensures Numeral(Reversed(str)) && |Reversed(str)| == |b| && carry <= 1
    ensures Val(Reversed(str)) + Carried(carry, Pow10(|b|)) == Val(a) + Val(b)
  {
    assert Tail(a, |a|) == a;
    assert Tail(b, |b|) == b;
  }

  /** All digits are added. */
  lemma AddedAll(a: string, b: string, str: string, carry: nat)
    requires Numeral(a) && Numeral(b) && |a| <= |b| && Added(a, b, |b|, str, carry)
    ensures carry == 0 <==> Val(a) + Val(b) < Pow10(|b|)
    ensures carry == 0 ==> Numeral(Reversed(str)) && |Reversed(str)| == |b| && Val(Reversed(str)) == Val(a) + Val(b)
  {
    AddedTotal(a, b, str, carry);
    NumeralIsPadded(Reversed(str));
  }

  lemma {:induction false} ReversedSnoc(s: string, c: char)
    ensures Reversed(s + [c]) == [c] + Reversed(s)
  {
  }

  /** `r` is the numeral of `v` with `n` digits, or nothing if there is none. */
  ghost predicate IsSum(r: Option<string>, v: nat, n: nat) {
    if v < Pow10(n) then r.Some? && |r.value| == n && Numeral(r.value) && Val(r.value) == v else r == None
  }

  /** There is only one such numeral, padded with zeros on the left. */
  lemma OnlySum(r: Option<string>, v: nat, n: nat)
    ensures IsSum(r, v, n) <==> r == if v < Pow10(n) then Some(Padded(v, n)) else None
  {
    if v < Pow10(n) {
      PaddedVal(v, n);
      if r.Some? && Numeral(r.value) {
        NumeralIsPadded(r.value);
      }
    }
  }

  /** The two loops of `LargeSum`, over the reversed numbers. */
  method AddColumns(a: string, b: string) returns (str: string, carry: nat)
    requires Numeral(a) && Numeral(b) && |a| <= |b|
    ensures Added(a, b, |b|, str, carry)
  {
    var ra, rb := Reversed(a), Reversed(b);
    str, carry := "", 0;
    var i: nat := 0;
    while i < |a|
      invariant i <= |a| && Added(a, b, i, str, carry)
    {
      var sum := Digit(ra[i]) + Digit(rb[i]) + carry;
      AddedStep(a, b, i, str, carry, sum);
      str, carry := str + [CharOf(sum % 10)], sum / 10;
      i := i + 1;
    }
    while i < |b|
      invariant |a| <= i <= |b| && Added(a, b, i, str, carry)
    {
      var sum := Digit(rb[i]) + carry;
      AddedStep(a, b, i, str, carry, sum);
      str, carry := str + [CharOf(sum % 10)], sum / 10;
      i := i + 1;
    }
  }

  /** `LargeSum`: the exact sum with as many digits as the longer number, or an exception if it needs more. */
  method LargeSum(first: string, second: string) returns (r: Option<string>)
    requires Numeral(first) && Numeral(second)
    ensures IsSum(r, Val(first) + Val(second), if |first| > |second| then |first| else |second|)
  {
    var a, b := first, second;
    if |a| > |b| {
      a, b := b, a;
    }
    var str, carry := AddColumns(a, b);
    AddedAll(a, b, str, carry);
    if carry != 0 {
      return None;
    }
    r := Some(Reversed(str));
  }

  /** `std::to_string` of a number that is not negative. */
  function ToString(n: nat): (s: string)
    ensures Numeral(s) && s != "" && Val(s) == n
    ensures if n < 10 then s == "0123456789"[n..n + 1] else |s| > 1 && s[0] != '0'
  {
    if n < 10 then
      assert [CharOf(n)][..0] == "";
      [CharOf(n)]
    else
      var front := ToString(n / 10);
      var s := front + [CharOf(n % 10)];
      assert s[..|s| - 1] == front;
      s
  }

  /** How many digits the identity of the UE with index `delta` has. */
  ghost function Width(s: string, delta: nat): (n: nat) {
    if |s| > |ToString(delta)| then |s| else |ToString(delta)|
  }

  /** `IncrementNumber`. */
  method IncrementNumber(s: string, delta: nat) returns (r: Option<string>)
    requires Numeral(s)
    ensures IsSum(r, Val(s) + delta, Width(s, delta))
  {
    r := LargeSum(s, ToString(delta));
  }

  /**
    UEs with different indices get different identities, and an identity keeps its
    length while the index is no longer.
  */
  lemma DistinctIdentities(s: string, i: nat, j: nat, x: Option<string>, y: Option<string>)
    requires Numeral(s) && i != j && IsSum(x, Val(s) + i, Width(s, i)) && IsSum(y, Val(s) + j, Width(s, j))
    ensures x.Some? && y.Some? ==> x != y
    ensures x.Some? && |ToString(i)| <= |s| ==> |x.value| == |s|
  {
  }

  /** Without an overflow in between, counting up twice is counting up once by the sum. */
  lemma IncrementTwice(s: string, i: nat, j: nat, x: Option<string>, y: Option<string>)
    requires Numeral(s) && IsSum(x, Val(s) + i, |s|) && x.Some?
    ensures IsSum(y, Val(x.value) + j, |x.value|) <==> IsSum(y, Val(s) + (i + j), |s|)
  {
  }

  /** "12" and "1" make "13", "19" and "1" make "20", and "99" and "1" have no sum of two digits. */
  lemma SmallSums(r: Option<string>)
    ensures IsSum(r, Val("12") + Val("1"), 2) <==> r == Some("13")
    ensures IsSum(r, Val("19") + Val("1"), 2) <==> r == Some("20")
    ensures IsSum(r, Val("99") + Val("1"), 2) <==> r == None
  {
    assert "1"[..0] == "" && "2"[..0] == "" && "9"[..0] == "";
    assert "12"[..1] == "1" && "13"[..1] == "1" && "19"[..1] == "1" && "20"[..1] == "2" && "99"[..1] == "9";
    assert Val("12") == 12 && Val("13") == 13 && Val("19") == 19 && Val("20") == 20 && Val("99") == 99 && Val("1") == 1;
    assert Pow10(2) == 100 && Numeral("13") && Numeral("20");
    if r.Some? && Numeral(r.value) && |r.value| == 2 {
      NumeralOrder(r.value, "13");
      NumeralOrder(r.value, "20");
    }
  }
}
