/** Short-code generation: a process-wide counter whose pre-increment value is
    written in base 62, least significant digit first, and right-padded with
    the digit for zero ('A') to at least eight symbols. */
module Alias {

  const UpperCase: string := "ABCDEFGHIJKLMNOPQRSTUVWXYZ"
  const LowerCase: string := "abcdefghijklmnopqrstuvwxyz"
  const Numerals: string := "0123456789"
  /** The alphabet, in digit order: A-Z are 0-25, a-z are 26-51, 0-9 are 52-61,
      that is "ABCDEFGHIJKLMNOPQRSTUVWXYZabcdefghijklmnopqrstuvwxyz0123456789". */
  const Base62: string := UpperCase + LowerCase + Numerals
  const Radix: nat := 62
  /** Minimum length of an alias; shorter encodings are padded up to it. */
  const AliasLength: nat := 8
  /** The padding symbol, which is also the digit zero. */
  const PadChar: char := 'A'

  /** The symbol for digit d, computed from the three character ranges. */
  function DigitChar(d: nat): char
    requires d < Radix
  {
    if d < 26 then ('A' as int + d) as char
    else if d < 52 then ('a' as int + (d - 26)) as char
    else ('0' as int + (d - 52)) as char
  }

  /** The upper-case letters are the digits 0-25. */
  lemma UpperSpelled()
    ensures |UpperCase| == 26 && forall d :: 0 <= d < 26 ==> UpperCase[d] == DigitChar(d)
  {
    assert UpperCase == seq(26, d requires 0 <= d < 26 => DigitChar(d));
  }

  /** The lower-case letters are the digits 26-51. */
  lemma LowerSpelled()
    ensures |LowerCase| == 26 && forall d :: 0 <= d < 26 ==> LowerCase[d] == DigitChar(d + 26)
  {
    assert LowerCase == seq(26, d requires 0 <= d < 26 => DigitChar(d + 26));
  }

  /** The decimal numerals are the digits 52-61. */
  lemma NumeralsSpelled()
    ensures |Numerals| == 10 && forall d :: 0 <= d < 10 ==> Numerals[d] == DigitChar(d + 52)
  {
    assert Numerals == seq(10, d requires 0 <= d < 10 => DigitChar(d + 52));
  }

  /** The alphabet spells out DigitChar position by position. */
  lemma AlphabetSpelled()
    ensures |Base62| == Radix
    ensures forall d :: 0 <= d < Radix ==> Base62[d] == DigitChar(d)
  {
    UpperSpelled();
    LowerSpelled();
    NumeralsSpelled();
  }

  /** A symbol of the alphabet, told by its character range. */
  predicate IsSymbol(c: char)
  {
    'A' <= c <= 'Z' || 'a' <= c <= 'z' || '0' <= c <= '9'
  }

  lemma UpperMembership(c: char)
    ensures c in UpperCase <==> 'A' <= c <= 'Z'
  {
    UpperSpelled();
    if c in UpperCase {
      var i :| 0 <= i < |UpperCase| && UpperCase[i] == c;
    }
    if 'A' <= c <= 'Z' {
      assert UpperCase[c as int - 'A' as int] == c;
    }
  }

  lemma LowerMembership(c: char)
    ensures c in LowerCase <==> 'a' <= c <= 'z'
  {
    LowerSpelled();
    if c in LowerCase {
      var i :| 0 <= i < |LowerCase| && LowerCase[i] == c;
    }
    if 'a' <= c <= 'z' {
      assert LowerCase[c as int - 'a' as int] == c;
    }
  }

  lemma NumeralsMembership(c: char)
    ensures c in Numerals <==> '0' <= c <= '9'
  {
    NumeralsSpelled();
    if c in Numerals {
      var i :| 0 <= i < |Numerals| && Numerals[i] == c;
    }
    if '0' <= c <= '9' {
      assert Numerals[c as int - '0' as int] == c;
    }
  }

  /** The three ranges hold exactly the characters of the alphabet. */
  lemma AlphabetMembership(c: char)
    ensures c in Base62 <==> IsSymbol(c)
  {
    UpperMembership(c);
    LowerMembership(c);
    NumeralsMembership(c);
  }

  predicate InAlphabet(s: string)
  {
    forall i :: 0 <= i < |s| ==> IsSymbol(s[i])
  }

  /** The digit a symbol of the alphabet stands for: its position in Base62. */
  function DigitValue(c: char): (d: nat)
    requires IsSymbol(c)
    ensures d < Radix && DigitChar(d) == c
    ensures |Base62| == Radix && Base62[d] == c
  {
    AlphabetSpelled();
    if 'A' <= c <= 'Z' then c as int - 'A' as int
    else if 'a' <= c <= 'z' then c as int - 'a' as int + 26
    else c as int - '0' as int + 52
  }

  /** The symbol written for digit d is a symbol of the alphabet read back as d. */
  lemma DigitValueOfSymbol(d: nat)
    requires d < Radix
    ensures |Base62| == Radix && IsSymbol(Base62[d]) && DigitValue(Base62[d]) == d
  {
    AlphabetSpelled();
  }

  function Pow62(k: nat): (p: nat)
    ensures p > 0
  {
    if k == 0 then 1 else Radix * Pow62(k - 1)
  }

  /** The base-62 digits of n, least significant first; zero has no digits.
      The encoding is canonical: a non-empty one never ends in the zero digit. */
  function Digits(n: nat): (s: string)
    ensures InAlphabet(s)
    ensures |s| == 0 <==> n == 0
    ensures n > 0 ==> s[|s| - 1] != PadChar
    decreases n
  {
    AlphabetSpelled();
    if n == 0 then [] else [Base62[n % Radix]] + Digits(n / Radix)
  }

  /** Right-pads s with the zero digit up to AliasLength symbols. */
  function Pad(s: string): (p: string)
    ensures |p| == if |s| >= AliasLength then |s| else AliasLength
    ensures p[..|s|] == s
    ensures forall i :: |s| <= i < |p| ==> p[i] == PadChar
    decreases AliasLength - |s|
  {
    if |s| >= AliasLength then s else Pad(s + [PadChar])
  }

  /** The alias that the counter value n is turned into. */
  function Encode(n: nat): string
  {
    Pad(Digits(n))
  }

  /** Reads an alias back as a little-endian base-62 number. */
  function Decode(s: string): nat
    requires InAlphabet(s)
  {
    if s == [] then 0 else DigitValue(s[0]) + Radix * Decode(s[1..])
  }

  lemma {:induction false} DigitsRoundTrip(n: nat)
    ensures Decode(Digits(n)) == n
    decreases n
  {
    if n > 0 {
      DigitsRoundTrip(n / Radix);
      DigitValueOfSymbol(n % Radix);
      assert Digits(n)[1..] == Digits(n / Radix);
    }
  }

  /** A trailing zero digit does not change the value. */
  lemma {:induction false} DecodeAppendPad(s: string)
    requires InAlphabet(s)
    ensures InAlphabet(s + [PadChar])
    ensures Decode(s + [PadChar]) == Decode(s)
  {
    if s == [] {
      assert [PadChar][1..] == [];
    } else {
      DecodeAppendPad(s[1..]);
      assert (s + [PadChar])[1..] == s[1..] + [PadChar];
    }
  }

  /** Padding an alias with zero digits does not change the value. */
  lemma {:induction false} DecodePad(s: string)
    requires InAlphabet(s)
    ensures InAlphabet(Pad(s)) && Decode(Pad(s)) == Decode(s)
    decreases AliasLength - |s|
  {
    if |s| < AliasLength {
      DecodeAppendPad(s);
      DecodePad(s + [PadChar]);
    }
  }

  /** Every alias uses only the 62 symbols and decodes to the counter value it
      was generated from. */
  lemma EncodeRoundTrip(n: nat)
    ensures InAlphabet(Encode(n))
    ensures Decode(Encode(n)) == n
  {
    DigitsRoundTrip(n);
    DecodePad(Digits(n));
  }

  /** Distinct counter values give distinct aliases, for every value and not
      only below 62^8: values that need more than eight digits give longer aliases. */
  lemma EncodeInjective(m: nat, n: nat)
    requires m != n
    ensures Encode(m) != Encode(n)
  {
    EncodeRoundTrip(m);
    EncodeRoundTrip(n);
  }

  /** n has at most k base-62 digits exactly when n < 62^k. */
  lemma {:induction false} DigitsLength(n: nat, k: nat)
    ensures |Digits(n)| <= k <==> n < Pow62(k)
    decreases k
  {
    if k > 0 && n > 0 {
      DigitsLength(n / Radix, k - 1);
    } else if k == 0 {
    } else {
      assert Pow62(k) == Radix * Pow62(k - 1);
    }
  }

  /** An alias is at least eight symbols long, and exactly eight when the
      counter value is below 62^8. */
  lemma EncodeLength(n: nat)
    ensures |Encode(n)| >= AliasLength
    ensures |Encode(n)| == AliasLength <==> n < Pow62(AliasLength)
  {
    DigitsLength(n, AliasLength);
  }

  /** The first alias ever issued is eight zero digits. */
  lemma EncodeZero()
    ensures Encode(0) == "AAAAAAAA"
  {
  }

  /** The generator's state: the static counter, shared by every service
      instance of the process. */
  class AliasGenerator {
    var counter: nat

    constructor ()
      ensures counter == 0
    {
      counter := 0;
    }

    /** Takes the current counter value, increments the counter and returns
        the value's alias. */
    method GenerateUniqueString() returns (alias: string)
      modifies this
      ensures counter == old(counter) + 1
      ensures alias == Encode(old(counter))
    {
      var currentValue: nat := counter;
      counter := counter + 1;
      alias := [];
      AlphabetSpelled();
      while currentValue > 0
        invariant alias + Digits(currentValue) == Digits(old(counter))
        decreases currentValue
      {
        assert Digits(currentValue) == [Base62[currentValue % Radix]] + Digits(currentValue / Radix);
        alias := alias + [Base62[currentValue % Radix]];
        currentValue := currentValue / Radix;
      }
      assert alias == Digits(old(counter));
      while |alias| < AliasLength
        invariant Pad(alias) == Encode(old(counter))
        decreases AliasLength - |alias|
      {
        alias := alias + [PadChar];
      }
    }
  }
}
