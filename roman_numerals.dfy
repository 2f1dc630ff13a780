/**
 * Roman numerals written greedily from the table I = 1, IV = 4, V = 5, IX = 9, X = 10, and read
 * back with the subtractive rule.
 */
module RomanNumerals {

  /** The table of values and their numerals, smallest first. */
  const RomanNums: seq<(int, string)> := [(1, "I"), (4, "IV"), (5, "V"), (9, "IX"), (10, "X")]

  /** The greedy numeral: the largest table entry that fits, then the numeral of the rest. */
  function Roman(n: int): string
    decreases n
  {
    if n <= 0 then ""
    else if n >= 10 then "X" + Roman(n - 10)
    else if n >= 9 then "IX" + Roman(n - 9)
    else if n >= 5 then "V" + Roman(n - 5)
    else if n >= 4 then "IV" + Roman(n - 4)
    else "I" + Roman(n - 1)
  }

  function SymbolValue(c: char): int
  {
    match c
    case 'I' => 1
    case 'V' => 5
    case 'X' => 10
    case _ => 0
  }

  /**
   * The value of a numeral: each symbol counts positively, except one that stands before a
   * larger symbol, which counts negatively.
   */
  function RomanValue(s: string): int
  {
    if s == [] then 0
    else if |s| >= 2 && SymbolValue(s[0]) < SymbolValue(s[1]) then
      RomanValue(s[1..]) - SymbolValue(s[0])
    else RomanValue(s[1..]) + SymbolValue(s[0])
  }

  /** Every numeral the greedy writes is made of I, V and X. */
  lemma {:induction false} RomanSymbols(n: int)
    ensures forall k :: 0 <= k < |Roman(n)| ==> Roman(n)[k] in "IVX"
    decreases n
  {
    if n > 0 {
      var rest := if n >= 10 then n - 10 else if n >= 9 then n - 9 else if n >= 5 then n - 5
                  else if n >= 4 then n - 4 else n - 1;
      RomanSymbols(rest);
    }
  }

  /** A numeral that starts with a symbol no larger than c reads the same after a leading c. */
  lemma PrependSymbol(c: char, s: string)
    requires s != [] ==> SymbolValue(s[0]) <= SymbolValue(c)
    ensures RomanValue([c] + s) == SymbolValue(c) + RomanValue(s)
  {
    assert ([c] + s)[1..] == s;
  }

  /** The first symbol the greedy writes: I below 5 and at 9, V from 5 to 8, X from 10 on. */
  lemma RomanStart(n: int)
    ensures 1 <= n < 4 ==> Roman(n)[0] == 'I'
    ensures 5 <= n < 9 ==> Roman(n)[0] == 'V'
    ensures n >= 10 ==> Roman(n)[0] == 'X'
    ensures n == 4 || n == 9 ==> Roman(n)[0] == 'I'
  {
  }

  /** Reading back the greedy numeral gives the number: the two are inverse for n >= 0. */
  lemma {:induction false} RomanRoundTrip(n: int)
    requires n >= 0
    ensures RomanValue(Roman(n)) == n
    decreases n
  {
    if n >= 10 {
      assert Roman(n) == ['X'] + Roman(n - 10);
      RomanRoundTrip(n - 10);
      RomanSymbols(n - 10);
      PrependSymbol('X', Roman(n - 10));
    } else if n == 9 {
      RomanNine();
    } else if n >= 5 {
      assert Roman(n) == ['V'] + Roman(n - 5);
      RomanRoundTrip(n - 5);
      RomanStart(n - 5);
      PrependSymbol('V', Roman(n - 5));
    } else if n == 4 {
      RomanFour();
    } else if n >= 1 {
      assert Roman(n) == ['I'] + Roman(n - 1);
      RomanRoundTrip(n - 1);
      RomanStart(n - 1);
      PrependSymbol('I', Roman(n - 1));
    }
  }

  /** The two subtractive numerals read back to their values. */
  lemma RomanNine()
    ensures RomanValue(Roman(9)) == 9
  {
    assert Roman(9) == "IX" && "IX"[1..] == "X";
  }

  lemma RomanFour()
    ensures RomanValue(Roman(4)) == 4
  {
    assert Roman(4) == "IV" && "IV"[1..] == "V";
  }

  /** Different numbers have different numerals. */
  lemma RomanInjective(m: int, n: int)
    requires 0 <= m && 0 <= n && Roman(m) == Roman(n)
    ensures m == n
  {
    RomanRoundTrip(m);
    RomanRoundTrip(n);
  }

  /** One step of the greedy: the entry found by the downward search is the one Roman takes. */
  lemma GreedyStep(n: int, i: int)
    requires n >= 1 && 0 <= i < |RomanNums| && RomanNums[i].0 <= n
    requires forall j :: i < j < |RomanNums| ==> n < RomanNums[j].0
    ensures Roman(n) == RomanNums[i].1 + Roman(n - RomanNums[i].0)
  {
    assert RomanNums[0] == (1, "I") && RomanNums[1] == (4, "IV") && RomanNums[2] == (5, "V");
    assert RomanNums[3] == (9, "IX") && RomanNums[4] == (10, "X");
  }

  /**
   * convertToRomanNumerals: repeatedly takes off the largest table value that fits and
   * appends its numeral.
   */
  method ConvertToRomanNumerals(num: int) returns (result: string)
    ensures result == Roman(num)
  {
    var updatednum := num;
    result := "";
    while updatednum > 0
      invariant result + Roman(updatednum) == Roman(num)
      decreases updatednum
    {
      var i := |RomanNums| - 1;
      assert RomanNums[0].0 == 1;
      while i >= 0
        invariant 0 <= i < |RomanNums| && updatednum > 0
        invariant forall j :: i < j < |RomanNums| ==> updatednum < RomanNums[j].0
        decreases i
      {
        var (arabic, roman) := RomanNums[i];
        if updatednum >= arabic {
          GreedyStep(updatednum, i);
          updatednum := updatednum - arabic;
          result := result + roman;
          break;
        }
        i := i - 1;
      }
    }
  }

  /** The examples on convertToRomanNumerals. */
  method RomanExamples() returns (one: string, two: string, five: string, ten: string,
                                  twentySix: string)
    ensures one == "I" && two == "II" && five == "V" && ten == "X" && twentySix == "XXVI"
  {
    one := ConvertToRomanNumerals(1);
    two := ConvertToRomanNumerals(2);
    five := ConvertToRomanNumerals(5);
    ten := ConvertToRomanNumerals(10);
    twentySix := ConvertToRomanNumerals(26);
  }
}
