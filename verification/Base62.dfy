/** The reversible Base62 codec: a printing loop, a parsing loop, and what they mean together. */
module Base62 {
  import opened Common

  const DIGITS := "0123456789"
  const UPPER := "ABCDEFGHIJKLMNOPQRSTUVWXYZ"
  const LOWER := "abcdefghijklmnopqrstuvwxyz"

  /** Digits, then upper case, then lower case; the order is part of the codec. */
  const ALPHABET: string := DIGITS + UPPER + LOWER
  const BASE := 62

  /** The value of a symbol; None if the character is not in the alphabet. */
  function ValueOf(c: char): Option<nat> {
    if '0' <= c <= '9' then Some(c as int - '0' as int)
    else if 'A' <= c <= 'Z' then Some(c as int - 'A' as int + 10)
    else if 'a' <= c <= 'z' then Some(c as int - 'a' as int + 36)
    else None
  }

  /** The symbol of a value, by ASCII block. */
  function SymbolOf(n: nat): (c: char)
    requires n < BASE
    ensures ValueOf(c) == Some(n)
  {
    if n < 10 then ('0' as int + n) as char
    else if n < 36 then ('A' as int + (n - 10)) as char
    else ('a' as int + (n - 36)) as char
  }

  lemma DigitAt(i: nat)
    requires i < 10
    ensures |DIGITS| == 10 && DIGITS[i] == SymbolOf(i)
  {
  }

  lemma UpperAt(i: nat)
    requires i < 26
    ensures |UPPER| == 26 && UPPER[i] == SymbolOf(i + 10)
  {
  }

  lemma LowerAt(i: nat)
    requires i < 26
    ensures |LOWER| == 26 && LOWER[i] == SymbolOf(i + 36)
  {
  }

  lemma AlphabetAt(i: nat)
    requires i < BASE
    ensures |ALPHABET| == BASE && ALPHABET[i] == SymbolOf(i)
  {
    hide SymbolOf;
    DigitAt(if i < 10 then i else 0);
    UpperAt(if 10 <= i < 36 then i - 10 else 0);
    LowerAt(if 36 <= i then i - 36 else 0);
  }

  /** The value table is the alphabet's index. */
  lemma ValueIsIndex(c: char)
    ensures |ALPHABET| == BASE
    ensures c in ALPHABET <==> ValueOf(c).Some?
    ensures ValueOf(c).Some? ==> ALPHABET[ValueOf(c).value] == c
  {
    AlphabetAt(0);
    if ValueOf(c).Some? {
      AlphabetAt(ValueOf(c).value);
    }
    if c in ALPHABET {
      var i :| 0 <= i < |ALPHABET| && ALPHABET[i] == c;
      AlphabetAt(i);
    }
  }

  /** The alphabet is in ASCII order. */
  lemma ValueOrder(c: char, d: char)
    requires ValueOf(c).Some? && ValueOf(d).Some?
    ensures ValueOf(c).value < BASE
    ensures c < d <==> ValueOf(c).value < ValueOf(d).value
    ensures c == d <==> ValueOf(c).value == ValueOf(d).value
  {
  }

  predicate Valid(s: string) {
    forall i :: 0 <= i < |s| ==> ValueOf(s[i]).Some?
  }

  /** Positional value, most significant symbol first. */
  function Value(s: string): nat
    requires Valid(s)
  {
    if s == [] then 0 else BASE * Value(s[..|s| - 1]) + ValueOf(s[|s| - 1]).value
  }

  function Encode(n: nat): string {
    if n < BASE then [SymbolOf(n)] else Encode(n / BASE) + [SymbolOf(n % BASE)]
  }

  function Reversed(s: string): string {
    if s == [] then [] else Reversed(s[1..]) + [s[0]]
  }

  lemma {:induction false} ReversedAppend(s: string, c: char)
    ensures Reversed(s + [c]) == [c] + Reversed(s)
  {
    if s != [] {
      assert (s + [c])[1..] == s[1..] + [c];
      ReversedAppend(s[1..], c);
    }
  }

  /** None stands for the ValueError on a negative number. */
  method EncodeBase62(input: int) returns (r: Option<string>)
    ensures r == if input < 0 then None else Some(Encode(input))
  {
    if input < 0 {
      return None;
    }
    if input == 0 {
      AlphabetAt(0);
      return Some([ALPHABET[0]]);
    }
    var number, digits := input, "";
    while number > 0
      invariant 0 <= number <= input
      invariant number == 0 ==> Encode(input) == Reversed(digits)
      invariant number > 0 ==> Encode(input) == Encode(number) + Reversed(digits)
    {
      var remainder := number % BASE;
      AlphabetAt(remainder);
      ReversedAppend(digits, ALPHABET[remainder]);
      number, digits := number / BASE, digits + [ALPHABET[remainder]];
    }
    r := Some(Reversed(digits));
  }

  /** None stands for the ValueError on an empty code or a foreign character. */
  method DecodeBase62(code: string) returns (r: Option<nat>)
    ensures r.Some? <==> code != [] && Valid(code)
    ensures r.Some? ==> r.value == Value(code)
  {
    if code == [] {
      return None;
    }
    var number: nat := 0;
    for i := 0 to |code|
      invariant Valid(code[..i]) && number == Value(code[..i])
    {
      var v := ValueOf(code[i]);
      if v.None? {
        return None;
      }
      assert code[..i + 1][..i] == code[..i];
      number := number * BASE + v.value;
    }
    assert code[..|code|] == code;
    r := Some(number);
  }

  /******* Inverses *******/

  /** Decoding undoes encoding, on every natural number. */
  lemma {:induction false} DecodeEncode(n: nat)
    ensures Encode(n) != [] && Valid(Encode(n)) && Value(Encode(n)) == n
  {
    if n < BASE {
      assert Encode(n)[..0] == [];
    } else {
      DecodeEncode(n / BASE);
      assert Encode(n)[..|Encode(n)| - 1] == Encode(n / BASE);
    }
  }

  /** Leading zero symbols removed, keeping at least one symbol. */
  function Stripped(s: string): string {
    if |s| > 1 && s[0] == '0' then Stripped(s[1..]) else s
  }

  predicate Canonical(s: string) {
    s != [] && Valid(s) && (|s| > 1 ==> s[0] != '0')
  }

  lemma {:induction false} ValueOfZeroThen(s: string)
    requires Valid(s)
    ensures Value(['0'] + s) == Value(s)
  {
    if s == [] {
      assert (['0'] + s)[..0] == [];
    } else {
      ValueOfZeroThen(s[..|s| - 1]);
      assert (['0'] + s)[..|s|] == ['0'] + s[..|s| - 1];
    }
  }

  lemma {:induction false} EncodeCanonical(s: string)
    requires Canonical(s)
    ensures Encode(Value(s)) == s
    ensures |s| > 1 ==> BASE <= Value(s)
  {
    var last := s[|s| - 1];
    ValueOrder(last, last);
    if |s| == 1 {
      assert s[..0] == [];
    } else {
      var front := s[..|s| - 1];
      if |front| == 1 {
        ValueOrder(front[0], '0');
        assert front[..0] == [];
        EncodeCanonical(front);
      } else {
        EncodeCanonical(front);
      }
      assert Value(s) / BASE == Value(front) && Value(s) % BASE == ValueOf(last).value;
      assert s == front + [last];
    }
  }

  /** Encoding undoes decoding up to leading zeros, so exactly on canonical strings. */
  lemma {:induction false} EncodeDecode(s: string)
    requires s != [] && Valid(s)
    ensures Encode(Value(s)) == Stripped(s)
    ensures Encode(Value(s)) == s <==> Canonical(s)
    decreases |s|
  {
    if |s| > 1 && s[0] == '0' {
      EncodeDecode(s[1..]);
      ValueOfZeroThen(s[1..]);
      assert s == ['0'] + s[1..];
      StrippedShorter(s[1..]);
    } else {
      EncodeCanonical(s);
    }
  }

  lemma StrippedShorter(s: string)
    ensures |Stripped(s)| <= |s|
  {
  }

  /******* Length *******/

  function Pow(k: nat): nat {
    if k == 0 then 1 else BASE * Pow(k - 1)
  }

  /** The printed length is the least L >= 1 with n < 62^L. */
  lemma {:induction false} EncodeLength(n: nat)
    ensures n < Pow(|Encode(n)|)
    ensures |Encode(n)| > 1 ==> Pow(|Encode(n)| - 1) <= n
    ensures 1 <= |Encode(n)|
  {
    if n >= BASE {
      EncodeLength(n / BASE);
      var k := |Encode(n / BASE)|;
      if k == 1 {
        assert Pow(1) == BASE * Pow(0);
      }
    } else {
      assert Pow(1) == BASE * Pow(0);
    }
  }

  /** The n-th code of length L. */
  function Pad(n: nat, length: nat): string
    requires n < Pow(length)
  {
    if length == 0 then [] else Pad(n / BASE, length - 1) + [SymbolOf(n % BASE)]
  }

  /** Codes of length L and numbers below 62^L correspond one to one: first direction. */
  lemma {:induction false} PadThenValue(n: nat, length: nat)
    requires n < Pow(length)
    ensures |Pad(n, length)| == length && Valid(Pad(n, length)) && Value(Pad(n, length)) == n
  {
    if length > 0 {
      PadThenValue(n / BASE, length - 1);
      assert Pad(n, length)[..length - 1] == Pad(n / BASE, length - 1);
    }
  }

  /** Second direction: every valid string is the code of its value at its length. */
  lemma {:induction false} ValueThenPad(s: string)
    requires Valid(s)
    ensures Value(s) < Pow(|s|) && Pad(Value(s), |s|) == s
  {
    if s != [] {
      var front, last := s[..|s| - 1], s[|s| - 1];
      ValueThenPad(front);
      ValueOrder(last, last);
      assert Value(s) / BASE == Value(front) && Value(s) % BASE == ValueOf(last).value;
      assert s == front + [last];
    }
  }

  /******* Order *******/

  /** First difference decides. */
  ghost predicate LexLess(s: string, t: string)
    requires |s| == |t|
  {
    exists i :: 0 <= i < |s| && s[..i] == t[..i] && s[i] < t[i]
  }

  ghost predicate ShortLex(s: string, t: string) {
    |s| < |t| || (|s| == |t| && LexLess(s, t))
  }

  lemma LexStep(s: string, t: string)
    requires |s| == |t| > 0
    ensures var n := |s| - 1;
      LexLess(s, t) <==> LexLess(s[..n], t[..n]) || (s[..n] == t[..n] && s[n] < t[n])
  {
    var n := |s| - 1;
    if LexLess(s, t) {
      var i :| 0 <= i < |s| && s[..i] == t[..i] && s[i] < t[i];
      if i < n {
        assert s[..n][..i] == s[..i] && t[..n][..i] == t[..i];
      }
    }
    if LexLess(s[..n], t[..n]) {
      var i :| 0 <= i < n && s[..n][..i] == t[..n][..i] && s[..n][i] < t[..n][i];
      assert s[..n][..i] == s[..i] && t[..n][..i] == t[..i];
    }
  }

  lemma {:induction false} SameLengthOrder(s: string, t: string)
    requires |s| == |t| && Valid(s) && Valid(t)
    ensures Value(s) < Value(t) <==> LexLess(s, t)
  {
    if s != [] {
      var n := |s| - 1;
      var p, q := s[..n], t[..n];
      SameLengthOrder(p, q);
      LexStep(s, t);
      ValueOrder(s[n], t[n]);
      ValueOrder(t[n], s[n]);
      SameValueSameCode(p, q);
      DigitOrder(Value(p), ValueOf(s[n]).value, Value(q), ValueOf(t[n]).value);
    }
  }

  lemma DigitOrder(p: nat, a: nat, q: nat, b: nat)
    requires a < BASE && b < BASE
    ensures BASE * p + a < BASE * q + b <==> p < q || (p == q && a < b)
  {
  }

  lemma {:induction false} SameValueSameCode(s: string, t: string)
    requires |s| == |t| && Valid(s) && Valid(t)
    ensures Value(s) == Value(t) <==> s == t
  {
    ValueThenPad(s);
    ValueThenPad(t);
  }

  /** Codes sort as the numbers they encode: shorter first, then in ASCII order. */
  lemma {:induction false} EncodeOrder(n: nat, m: nat)
    ensures n < m <==> ShortLex(Encode(n), Encode(m))
  {
    var s, t := Encode(n), Encode(m);
    DecodeEncode(n);
    DecodeEncode(m);
    EncodeLength(n);
    EncodeLength(m);
    if |s| == |t| {
      SameLengthOrder(s, t);
    } else if |s| < |t| {
      PowMonotone(|s|, |t| - 1);
    } else {
      PowMonotone(|t|, |s| - 1);
    }
  }

  lemma PowMonotone(a: nat, b: nat)
    requires a <= b
    ensures Pow(a) <= Pow(b)
  {
  }
}
