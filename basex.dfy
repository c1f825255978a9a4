/** The positional-numeral codec of library.py: a natural number is written
    most-significant digit first over a configurable alphabet, and a string
    over that alphabet is read back as Σ digit·base^i. */
module BaseX {
  import opened Wrappers

  function Pow(b: nat, e: nat): nat
  {
    if e == 0 then 1 else b * Pow(b, e - 1)
  }

  /** No symbol occurs twice in the alphabet. */
  predicate Distinct(alphabet: string)
  {
    forall i, j | 0 <= i < j < |alphabet| :: alphabet[i] != alphabet[j]
  }

  /** The symbol-to-digit table the codec builds from `enumerate(alphabet)`:
      every symbol maps to its position, and when a symbol repeats the later
      position overwrites the earlier one. */
  function Dict(alphabet: string): (d: map<char, nat>)
    ensures forall c :: c in d <==> c in alphabet
  {
    if alphabet == [] then map[]
    else Dict(alphabet[..|alphabet| - 1])[alphabet[|alphabet| - 1] := |alphabet| - 1]
  }

  /** The base `decode` works in: the number of entries of the table, which is
      the alphabet's length only when its symbols are distinct. */
  function Radix(alphabet: string): nat
  {
    |Dict(alphabet)|
  }

  /** Every character of `s` is a symbol of the alphabet. */
  predicate Valid(alphabet: string, s: string)
  {
    forall i | 0 <= i < |s| :: s[i] in alphabet
  }

  /** The number a valid string denotes, read most-significant digit first. */
  function Value(alphabet: string, s: string): nat
    requires Valid(alphabet, s)
  {
    if s == [] then 0
    else
      var v := Value(alphabet, s[..|s| - 1]);
      MulNonnegative(v, Radix(alphabet));
      v * Radix(alphabet) + Dict(alphabet)[s[|s| - 1]]
  }

  /** What `decode` returns; None where it raises on an unknown symbol. */
  function Decoded(alphabet: string, s: string): Option<nat>
  {
    if Valid(alphabet, s) then Some(Value(alphabet, s)) else None
  }

  /** The digits of a positive number, most significant first; no digits for 0. */
  function Digits(alphabet: string, n: nat): string
    requires n == 0 || |alphabet| >= 2
  {
    if n == 0 then [] else Digits(alphabet, n / |alphabet|) + [alphabet[n % |alphabet|]]
  }

  /** What `encode` returns: the first symbol alone for 0, the natural
      (unpadded) digit string otherwise. */
  function Encoded(alphabet: string, n: nat): string
    requires |alphabet| >= (if n == 0 then 1 else 2)
  {
    if n == 0 then [alphabet[0]] else Digits(alphabet, n)
  }

  /** A string `encode` can produce: non-empty, over the alphabet, with no
      leading first symbol unless it is that symbol alone. */
  predicate Canonical(alphabet: string, s: string)
  {
    s != [] && Valid(alphabet, s) && |alphabet| > 0 && (|s| > 1 ==> s[0] != alphabet[0])
  }

  /** `encode`: peel off the least significant digit until nothing is left.
      A single-symbol alphabet makes the source loop forever on a positive
      number, and an empty one fails, hence the precondition. */
  method Encode(alphabet: string, num: nat) returns (r: string)
    requires |alphabet| >= (if num == 0 then 1 else 2)
    ensures r == Encoded(alphabet, num)
  {
    if num == 0 {
      return [alphabet[0]];
    }
    var length := |alphabet|;
    var n: nat := num;
    r := "";
    while n != 0
      invariant Digits(alphabet, num) == Digits(alphabet, n) + r
      decreases n
    {
      var q, d := n / length, n % length;
      DigitsPeel(alphabet, n, q, d);
      EncodeStep(alphabet, num, n, q, d, r);
      r := [alphabet[d]] + r;
      n := q;
    }
  }

  /** The last digit of n is n mod base; the rest are the digits of
      n div base, which is smaller. */
  lemma DigitsPeel(alphabet: string, n: nat, q: int, d: int)
    requires |alphabet| >= 2 && n > 0 && q == n / |alphabet| && d == n % |alphabet|
    ensures 0 <= q < n && 0 <= d < |alphabet|
    ensures Digits(alphabet, n) == Digits(alphabet, q) + [alphabet[d]]
  {
    DivLess(n, |alphabet|);
  }

  /** One step of `encode`: the symbol of d moves from the digits still to
      be produced to the front of the output. */
  lemma EncodeStep(alphabet: string, num: nat, n: nat, q: nat, d: nat, r: string)
    requires |alphabet| >= 2 && n > 0 && d < |alphabet|
    requires Digits(alphabet, n) == Digits(alphabet, q) + [alphabet[d]]
    requires Digits(alphabet, num) == Digits(alphabet, n) + r
    ensures Digits(alphabet, num) == Digits(alphabet, q) + ([alphabet[d]] + r)
  {
    ConcatAssoc(Digits(alphabet, q), [alphabet[d]], r);
  }

  lemma ConcatAssoc(u: string, v: string, w: string)
    ensures (u + v) + w == u + (v + w)
  {
  }

  /** `decode`: walk the string from its end, adding digit·base^i. */
  method Decode(alphabet: string, s: string) returns (r: Option<nat>)
    ensures r == Decoded(alphabet, s)
  {
    var dict := Dict(alphabet);
    var length := |dict|;
    var ret: int := 0;
    var i := 0;
    while i < |s|
      invariant 0 <= i <= |s|
      invariant Valid(alphabet, s[|s| - i..])
      invariant ret == Value(alphabet, s[|s| - i..])
    {
      var c := s[|s| - 1 - i];
      if c !in dict {
        return None;
      }
      DecodeStep(alphabet, s, i, i + 1, ret);
      ret := ret + Pow(length, i) * dict[c];
      i := i + 1;
    }
    assert s[|s| - i..] == s;
    return Some(ret);
  }

  /** One step of `decode`: one more symbol from the end adds its digit
      times base^i. */
  lemma DecodeStep(alphabet: string, s: string, i: nat, j: nat, ret: int)
    requires i < |s| && j == i + 1 && s[|s| - j] in alphabet
    requires Valid(alphabet, s[|s| - i..]) && ret == Value(alphabet, s[|s| - i..])
    ensures Valid(alphabet, s[|s| - j..])
    ensures ret + Pow(Radix(alphabet), i) * Dict(alphabet)[s[|s| - j]] == Value(alphabet, s[|s| - j..])
  {
    var c, rest := s[|s| - j], s[|s| - i..];
    ValuePrepend(alphabet, c, rest);
    assert [c] + rest == s[|s| - j..];
    MulCommutes(Pow(Radix(alphabet), i), Dict(alphabet)[c]);
  }

  /** Reading a string whose first symbol is `c` adds that digit times
      base^(number of remaining symbols). */
  lemma {:induction false} ValuePrepend(alphabet: string, c: char, s: string)
    requires c in alphabet && Valid(alphabet, s)
    ensures Valid(alphabet, [c] + s)
    ensures Value(alphabet, [c] + s)
            == Dict(alphabet)[c] * Pow(Radix(alphabet), |s|) + Value(alphabet, s)
  {
    var cs := [c] + s;
    if s != [] {
      var init := s[..|s| - 1];
      assert cs[..|cs| - 1] == [c] + init;
      assert cs[|cs| - 1] == s[|s| - 1];
      ValuePrepend(alphabet, c, init);
      var b := Radix(alphabet);
      ShiftDigit(Dict(alphabet)[c], Pow(b, |init|), Value(alphabet, init), b, Dict(alphabet)[s[|s| - 1]]);
    } else {
      assert cs[..|cs| - 1] == [];
    }
  }

  /** With distinct symbols the table maps each symbol to its own position and
      the two notions of base agree. */
  lemma {:induction false} DistinctDict(alphabet: string)
    requires Distinct(alphabet)
    ensures Radix(alphabet) == |alphabet|
    ensures forall i | 0 <= i < |alphabet| :: Dict(alphabet)[alphabet[i]] == i
  {
    if alphabet != [] {
      var init := alphabet[..|alphabet| - 1];
      var last := alphabet[|alphabet| - 1];
      assert Distinct(init);
      DistinctDict(init);
      assert last !in init;
      assert last !in Dict(init);
      forall i | 0 <= i < |alphabet| ensures Dict(alphabet)[alphabet[i]] == i {
        if i < |alphabet| - 1 {
          assert alphabet[i] == init[i];
        }
      }
    }
  }

  /** Digits produces symbols of the alphabet and reads back as the number. */
  lemma {:induction false} DigitsValue(alphabet: string, n: nat)
    requires |alphabet| >= 2 && Distinct(alphabet)
    ensures Valid(alphabet, Digits(alphabet, n))
    ensures Value(alphabet, Digits(alphabet, n)) == n
  {
    if n != 0 {
      var b := |alphabet|;
      var ds := Digits(alphabet, n);
      DivLess(n, b);
      DigitsValue(alphabet, n / b);
      DistinctDict(alphabet);
      assert ds[..|ds| - 1] == Digits(alphabet, n / b);
      assert ds[|ds| - 1] == alphabet[n % b];
      DivModSplit(n, b);
    }
  }

  /** The positive numbers are exactly those whose digits do not start with
      the first symbol. */
  lemma {:induction false} DigitsLeading(alphabet: string, n: nat)
    requires |alphabet| >= 2 && Distinct(alphabet)
    ensures n > 0 <==> Digits(alphabet, n) != []
    ensures n > 0 ==> Digits(alphabet, n)[0] != alphabet[0]
  {
    if n > 0 {
      var q, d := n / |alphabet|, n % |alphabet|;
      DigitsPeel(alphabet, n, q, d);
      if q == 0 {
        DivModSplit(n, |alphabet|);
        assert d == n;
      } else {
        DigitsLeading(alphabet, q);
      }
    }
  }

  /** A single symbol denotes its own digit. */
  lemma ValueSingle(alphabet: string, c: char)
    requires c in alphabet
    ensures Decoded(alphabet, [c]) == Some(Dict(alphabet)[c])
  {
    var s := [c];
    assert s[..0] == [] && s[0] == c;
    assert Valid(alphabet, s);
    var v0 := Value(alphabet, s[..0]);
    assert v0 == 0;
    assert Value(alphabet, s) == v0 * Radix(alphabet) + Dict(alphabet)[c];
  }

  /** The first symbol is the digit 0. */
  lemma DecodeZero(alphabet: string)
    requires |alphabet| >= 1 && Distinct(alphabet)
    ensures Decoded(alphabet, [alphabet[0]]) == Some(0)
  {
    DistinctDict(alphabet);
    ValueSingle(alphabet, alphabet[0]);
  }

  /** Codec round trip: decode(encode(n)) == n for every natural n. */
  lemma DecodeEncode(alphabet: string, n: nat)
    requires |alphabet| >= 2 && Distinct(alphabet)
    ensures Decoded(alphabet, Encoded(alphabet, n)) == Some(n)
  {
    if n == 0 {
      DecodeZero(alphabet);
    } else {
      DigitsValue(alphabet, n);
    }
  }

  /** Shape of encode: its output is always canonical, so it is the single
      first symbol exactly for 0 and otherwise never starts with it. */
  lemma EncodedCanonical(alphabet: string, n: nat)
    requires |alphabet| >= 2 && Distinct(alphabet)
    ensures Canonical(alphabet, Encoded(alphabet, n))
    ensures Encoded(alphabet, n) == [alphabet[0]] <==> n == 0
  {
    if n > 0 {
      DigitsValue(alphabet, n);
      DigitsLeading(alphabet, n);
    }
  }

  /** With distinct symbols a symbol's digit points back at it, and only the
      first symbol is the digit 0. */
  lemma DigitOf(alphabet: string, c: char)
    requires Distinct(alphabet) && c in alphabet
    ensures Dict(alphabet)[c] < |alphabet| && alphabet[Dict(alphabet)[c]] == c
    ensures Dict(alphabet)[c] == 0 <==> c == alphabet[0]
  {
    DistinctDict(alphabet);
    var i :| 0 <= i < |alphabet| && alphabet[i] == c;
    assert Dict(alphabet)[c] == i;
  }

  /** Appending the digit d to the digits of v gives the digits of v·base + d. */
  lemma DigitsSnoc(alphabet: string, v: nat, d: nat)
    requires |alphabet| >= 2 && d < |alphabet| && v * |alphabet| + d > 0
    ensures Digits(alphabet, v * |alphabet| + d) == Digits(alphabet, v) + [alphabet[d]]
  {
    DivMod(v, |alphabet|, d);
  }

  /** The inductive step of DigitsOfValue: appending one symbol. */
  lemma DigitsOfValueStep(alphabet: string, init: string, last: char)
    requires |alphabet| >= 2 && Distinct(alphabet) && Valid(alphabet, init) && last in alphabet
    requires init == [] ==> last != alphabet[0]
    requires Value(alphabet, init) > 0 <==> init != []
    requires Digits(alphabet, Value(alphabet, init)) == init
    ensures Valid(alphabet, init + [last])
    ensures Value(alphabet, init + [last]) > 0
    ensures Digits(alphabet, Value(alphabet, init + [last])) == init + [last]
  {
    var s := init + [last];
    assert s[..|s| - 1] == init && s[|s| - 1] == last;
    assert Valid(alphabet, s) by {
      forall i | 0 <= i < |s| ensures s[i] in alphabet {
        if i < |init| {
          assert s[i] == init[i];
        }
      }
    }
    DistinctDict(alphabet);
    DigitOf(alphabet, last);
    var b, d, v := |alphabet|, Dict(alphabet)[last], Value(alphabet, init);
    assert Value(alphabet, s) == v * Radix(alphabet) + d;
    SnocPositive(v, b, d);
    DigitsSnoc(alphabet, v, d);
  }

  /** A string without a leading first symbol is the digit string of its value. */
  lemma {:induction false} DigitsOfValue(alphabet: string, s: string)
    requires |alphabet| >= 2 && Distinct(alphabet)
    requires Valid(alphabet, s) && (s == [] || s[0] != alphabet[0])
    ensures Value(alphabet, s) > 0 <==> s != []
    ensures Digits(alphabet, Value(alphabet, s)) == s
  {
    if s != [] {
      var init, last := s[..|s| - 1], s[|s| - 1];
      assert s == init + [last];
      assert init == [] || init[0] == s[0];
      assert Valid(alphabet, init) by {
        forall i | 0 <= i < |init| ensures init[i] in alphabet {
          assert init[i] == s[i];
        }
      }
      DigitsOfValue(alphabet, init);
      DigitsOfValueStep(alphabet, init, last);
    }
  }

  /** Codec round trip the other way: encode(decode(s)) == s for canonical s. */
  lemma EncodeDecode(alphabet: string, s: string)
    requires |alphabet| >= 2 && Distinct(alphabet)
    requires Canonical(alphabet, s)
    ensures Decoded(alphabet, s).Some?
    ensures Encoded(alphabet, Decoded(alphabet, s).value) == s
  {
    DistinctDict(alphabet);
    if s[0] == alphabet[0] {
      assert s == [alphabet[0]];
      assert s[..0] == [];
    } else {
      DigitsOfValue(alphabet, s);
    }
  }

  /** Canonical strings are exactly those that survive decode then encode. */
  lemma CanonicalIff(alphabet: string, s: string)
    requires |alphabet| >= 2 && Distinct(alphabet)
    ensures Canonical(alphabet, s)
            <==> Decoded(alphabet, s).Some? && Encoded(alphabet, Decoded(alphabet, s).value) == s
  {
    if Canonical(alphabet, s) {
      EncodeDecode(alphabet, s);
    } else if Decoded(alphabet, s).Some? {
      EncodedCanonical(alphabet, Decoded(alphabet, s).value);
    }
  }

  /** A string of k symbols denotes a number below base^k. */
  lemma {:induction false} ValueBound(alphabet: string, s: string)
    requires Distinct(alphabet) && Valid(alphabet, s)
    ensures Value(alphabet, s) < Pow(|alphabet|, |s|)
  {
    if s != [] {
      DistinctDict(alphabet);
      var b := |alphabet|;
      var init := s[..|s| - 1];
      ValueBound(alphabet, init);
      var d := Dict(alphabet)[s[|s| - 1]];
      BoundStep(Value(alphabet, init), Pow(b, |init|), b, d);
    }
  }

  /** Prepending the first symbol (a leading zero) does not change the value. */
  lemma LeadingZero(alphabet: string, s: string)
    requires |alphabet| >= 1 && Distinct(alphabet) && Valid(alphabet, s)
    ensures Valid(alphabet, [alphabet[0]] + s)
    ensures Value(alphabet, [alphabet[0]] + s) == Value(alphabet, s)
  {
    DistinctDict(alphabet);
    ValuePrepend(alphabet, alphabet[0], s);
  }

  // Facts of integer arithmetic used by the proofs above.

  lemma DivLess(n: nat, b: nat)
    requires n > 0 && b >= 2
    ensures n / b < n && n % b < b
  {
    var q := n / b;
    DivModSplit(n, b);
    if q > 0 {
      MulGrows(q, b);
    }
  }

  lemma MulGrows(q: int, b: int)
    requires q >= 1 && b >= 2
    ensures q * b > q
  {
    assert q * b == q * (b - 1) + q;
    MulAtLeast(q, b - 1);
  }

  lemma DivModSplit(n: nat, b: nat)
    requires b > 0
    ensures n == (n / b) * b + n % b && 0 <= n % b < b
  {
  }

  lemma MulNonnegative(x: nat, y: nat)
    ensures x * y >= 0
  {
  }

  lemma MulCommutes(x: int, y: int)
    ensures x * y == y * x
  {
  }

  lemma MulAtLeast(k: int, b: int)
    requires k >= 1 && b > 0
    ensures k * b >= b
  {
  }

  lemma UniqueQuotient(q: int, q2: int, b: int, d: int, d2: int)
    requires 0 <= d < b && 0 <= d2 < b && q * b + d == q2 * b + d2
    ensures q == q2
  {
    if q < q2 {
      MulAtLeast(q2 - q, b);
      assert false;
    } else if q2 < q {
      MulAtLeast(q - q2, b);
      assert false;
    }
  }

  lemma DivMod(q: nat, b: nat, d: nat)
    requires d < b
    ensures (q * b + d) / b == q && (q * b + d) % b == d
  {
    var n := q * b + d;
    UniqueQuotient(q, n / b, b, d, n % b);
  }

  lemma ShiftDigit(d: int, p: int, v: int, b: int, e: int)
    ensures (d * p + v) * b + e == d * (b * p) + (v * b + e)
  {
  }

  lemma SnocPositive(v: nat, b: nat, d: nat)
    requires b >= 1 && (v > 0 || d > 0)
    ensures v * b + d > 0
  {
    if v > 0 {
      MulAtLeast(v, b);
    }
  }

  lemma BoundStep(v: nat, p: nat, b: nat, d: nat)
    requires v < p && d < b
    ensures v * b + d < b * p
  {
    assert (v + 1) * b <= p * b;
  }
}
