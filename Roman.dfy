/** `romano_para_decimal` of the lite converter: Roman numerals read right
    to left, a symbol smaller than the one after it being subtracted. */
module Roman {
  import opened Strings

  /** `valores.get(c, 0)`. */
  function SymbolValue(c: char): nat
  {
    match c
    case 'I' => 1
    case 'V' => 5
    case 'X' => 10
    case 'L' => 50
    case 'C' => 100
    case 'D' => 500
    case 'M' => 1000
    case _ => 0
  }

  /** What the symbol at `i` adds: its value, or minus its value when the
      symbol after it (the previous one in the right-to-left scan) is
      worth more. */
  function Contribution(u: string, i: nat): int
    requires i < |u|
  {
    if i + 1 < |u| && SymbolValue(u[i]) < SymbolValue(u[i + 1]) then -(SymbolValue(u[i]) as int) else SymbolValue(u[i])
  }

  /** The sum of the contributions of an already upper-cased numeral. */
  function RomanSum(u: string): int
  {
    if u == [] then 0 else Contribution(u, 0) + RomanSum(u[1..])
  }

  /** The value `romano_para_decimal` gives a string. */
  function RomanValue(romano: string): int
  {
    RomanSum(Upper(romano))
  }

  /** `romano_para_decimal`: the loop over `reversed(romano.upper())` with the
      `decimal` and `prev_value` accumulators. */
  method RomanToDecimal(romano: string) returns (decimal: int)
    ensures decimal == RomanValue(romano)
  {
    var u := Upper(romano);
    decimal := 0;
    var prev := 0;
    var k := |u|;
    while k > 0
      invariant 0 <= k <= |u|
      invariant decimal == RomanSum(u[k..])
      invariant prev == if k < |u| then SymbolValue(u[k]) else 0
    {
      k := k - 1;
      var curr: int := SymbolValue(u[k]);
      assert u[k..][1..] == u[k + 1..];
      assert Contribution(u[k..], 0) == if curr >= prev then curr else -curr;
      decimal := if curr >= prev then decimal + curr else decimal - curr;
      prev := curr;
    }
    assert u[0..] == u;
  }

  // ---------------------------------------------------------------------------
  // A reference: the usual encoding of a positive number

  /** The greedy symbol group for a positive number, with its value. */
  function Token(n: nat): (string, nat)
    requires n > 0
  {
    if n >= 1000 then ("M", 1000)
    else if n >= 900 then ("CM", 900)
    else if n >= 500 then ("D", 500)
    else if n >= 400 then ("CD", 400)
    else if n >= 100 then ("C", 100)
    else if n >= 90 then ("XC", 90)
    else if n >= 50 then ("L", 50)
    else if n >= 40 then ("XL", 40)
    else if n >= 10 then ("X", 10)
    else if n >= 9 then ("IX", 9)
    else if n >= 5 then ("V", 5)
    else if n >= 4 then ("IV", 4)
    else ("I", 1)
  }

  /** The standard Roman numeral of `n` (repeated 'M' beyond 3999). */
  function ToRoman(n: nat): string
    decreases n
  {
    if n == 0 then [] else Token(n).0 + ToRoman(n - Token(n).1)
  }

  /** A numeral split after a symbol worth at least the next one adds up
      piece by piece. */
  lemma {:induction false} RomanSumAppend(a: string, b: string)
    requires a != [] && (b != [] ==> SymbolValue(a[|a| - 1]) >= SymbolValue(b[0]))
    ensures RomanSum(a + b) == RomanSum(a) + RomanSum(b)
  {
    if |a| == 1 {
      assert (a + b)[1..] == b;
    } else {
      assert (a + b)[1..] == a[1..] + b;
      assert (a + b)[1] == a[1];
      RomanSumAppend(a[1..], b);
    }
  }

  /** Each group's value, its first symbol, and its last symbol's value is
      at least the first symbol of whatever follows it. */
  lemma {:induction false} TokenFacts(n: nat)
    requires n > 0
    ensures var (t, v) := Token(n);
      && t != [] && 0 < v <= n && RomanSum(t) == v
      && (n - v > 0 ==> SymbolValue(t[|t| - 1]) >= SymbolValue(Token(n - v).0[0]))
  {
    var (t, v) := Token(n);
    if |t| == 2 {
      assert t[1..][1..] == [];
    } else {
      assert t[1..] == [];
    }
  }

  /** Reading a standard numeral gives back its number. */
  lemma {:induction false} RomanSumToRoman(n: nat)
    ensures RomanSum(ToRoman(n)) == n
    ensures n > 0 ==> ToRoman(n) != [] && ToRoman(n)[0] == Token(n).0[0]
    decreases n
  {
    if n > 0 {
      var (t, v) := Token(n);
      TokenFacts(n);
      RomanSumToRoman(n - v);
      RomanSumAppend(t, ToRoman(n - v));
    }
  }

  /** `romano_para_decimal` inverts the standard encoding, whatever the case
      of the letters. */
  lemma {:induction false} DecodesStandardNumerals(n: nat)
    ensures RomanValue(ToRoman(n)) == n
    ensures RomanValue(Lower(ToRoman(n))) == n
  {
    RomanSumToRoman(n);
    UpperOfRoman(n);
  }

  /** A standard numeral is upper case, and upper-casing its lower-case
      form restores it. */
  lemma {:induction false} UpperOfRoman(n: nat)
    ensures Upper(ToRoman(n)) == ToRoman(n) && Upper(Lower(ToRoman(n))) == ToRoman(n)
  {
    var s := ToRoman(n);
    assert forall i :: 0 <= i < |s| ==> 'A' <= s[i] <= 'Z' by {
      RomanLetters(n);
    }
  }

  lemma {:induction false} RomanLetters(n: nat)
    ensures forall i :: 0 <= i < |ToRoman(n)| ==> ToRoman(n)[i] in "IVXLCDM"
    decreases n
  {
    if n > 0 {
      var (t, v) := Token(n);
      RomanLetters(n - v);
      var s := ToRoman(n);
      forall i | 0 <= i < |s| ensures s[i] in "IVXLCDM" {
        if i >= |t| {
          assert s[i] == ToRoman(n - v)[i - |t|];
        }
      }
    }
  }
}
