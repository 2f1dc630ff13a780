/**
 * A number written as text, spelled out word by word: each digit becomes its English name, a
 * decimal point or comma becomes "point", a minus sign "minus", and the words are separated by
 * single spaces.
 */
module NumberWords {

  /** The characters a number string is made of. */
  predicate IsNumberChar(c: char)
  {
    '0' <= c <= '9' || c == '.' || c == ',' || c == '-'
  }

  predicate IsNumberString(s: string)
  {
    forall i :: 0 <= i < |s| ==> IsNumberChar(s[i])
  }

  const DigitWords: seq<string> :=
    ["zero", "one", "two", "three", "four", "five", "six", "seven", "eight", "nine"]

  /**
   * The word for one character. Any other character looks up a missing entry of the digit
   * names, and the missing value is appended as the text "undefined". Every word is a
   * non-empty run without spaces, and the word of a number character reads back to it.
   */
  function Word(c: char): (w: string)
    ensures w != "" && ' ' !in w
    ensures IsNumberChar(c) ==> CharOf(w) == Normalized(c)
  {
    var names := DigitWords;
    assert names[0] == "zero" && names[1] == "one" && names[2] == "two";
    assert names[3] == "three" && names[4] == "four" && names[5] == "five";
    assert names[6] == "six" && names[7] == "seven" && names[8] == "eight" && names[9] == "nine";
    if c == '.' || c == ',' then "point"
    else if c == '-' then "minus"
    else if '0' <= c <= '9' then DigitWords[c as int - '0' as int]
    else "undefined"
  }

  /** Words joined with single spaces. */
  function Join(ws: seq<string>): string
  {
    if ws == [] then ""
    else if |ws| == 1 then ws[0]
    else ws[0] + " " + Join(ws[1..])
  }

  /** The words for the characters of s, in order. */
  function WordsOf(s: string): (ws: seq<string>)
    ensures |ws| == |s|
    ensures forall i :: 0 <= i < |s| ==> ws[i] == Word(s[i])
  {
    seq(|s|, i requires 0 <= i < |s| => Word(s[i]))
  }

  /** The spelled-out form: the words of the characters, joined with single spaces. */
  function Spelled(s: string): string
  {
    Join(WordsOf(s))
  }

  /** Appending a word to a non-empty list adds a space and the word to the joined text. */
  lemma {:induction false} JoinSnoc(ws: seq<string>, w: string)
    requires ws != []
    ensures Join(ws + [w]) == Join(ws) + " " + w
  {
    if |ws| > 1 {
      assert (ws + [w])[1..] == ws[1..] + [w];
      JoinSnoc(ws[1..], w);
    } else {
      assert ws + [w] == [ws[0], w];
      assert [ws[0], w][1..] == [w];
    }
  }

  /**
   * convertNumberToString: appends the word for each character, and a space after every
   * character but the last.
   */
  method ConvertNumberToString(numberStr: string) returns (result: string)
    ensures result == Spelled(numberStr)
  {
    ghost var ws := WordsOf(numberStr);
    result := "";
    for i := 0 to |numberStr|
      invariant i == 0 ==> result == ""
      invariant 0 < i < |numberStr| ==> result == Join(ws[..i]) + " "
      invariant 0 < i == |numberStr| ==> result == Join(ws[..i])
    {
      var n := numberStr[i];
      var word;
      if n == '.' {
        word := "point";
      } else if n == ',' {
        word := "point";
      } else if n == '-' {
        word := "minus";
      } else if '0' <= n <= '9' {
        word := DigitWords[n as int - '0' as int];
      } else {
        word := "undefined";
      }
      assert ws[..i + 1] == ws[..i] + [word];
      if i == 0 {
        assert ws[..1] == [word];
      } else {
        JoinSnoc(ws[..i], word);
      }
      result := result + word;
      if i != |numberStr| - 1 {
        result := result + " ";
      }
    }
    assert ws[..|numberStr|] == ws;
  }

  /** The character a word names; "point" reads as a decimal point. */
  function CharOf(w: string): char
  {
    if w == "point" then '.'
    else if w == "minus" then '-'
    else if w == "zero" then '0'
    else if w == "one" then '1'
    else if w == "two" then '2'
    else if w == "three" then '3'
    else if w == "four" then '4'
    else if w == "five" then '5'
    else if w == "six" then '6'
    else if w == "seven" then '7'
    else if w == "eight" then '8'
    else if w == "nine" then '9'
    else ' '
  }

  /** The character after spelling and reading back: a comma comes back as a point. */
  function Normalized(c: char): char
  {
    if c == ',' then '.' else c
  }

  /** The index of the first space in t. */
  function FirstSpace(t: string): (k: nat)
    requires ' ' in t
    ensures k < |t| && t[k] == ' ' && ' ' !in t[..k]
  {
    if t[0] == ' ' then 0
    else
      assert t == [t[0]] + t[1..];
      var k := 1 + FirstSpace(t[1..]);
      assert t[..k] == [t[0]] + t[1..][..k - 1];
      k
  }

  /** The text cut at every space. */
  function Split(t: string): seq<string>
    decreases |t|
  {
    if ' ' !in t then [t]
    else
      var k := FirstSpace(t);
      [t[..k]] + Split(t[k + 1..])
  }

  /** A word without spaces in front of a space and more text is cut right after the word. */
  lemma SplitAfterWord(a: string, b: string)
    requires ' ' !in a
    ensures Split(a + " " + b) == [a] + Split(b)
  {
    var t := a + " " + b;
    assert t[|a|] == ' ';
    assert t[..|a|] == a;
    var k := FirstSpace(t);
    assert t[..k] == a && t[k + 1..] == b;
  }

  /** Cutting words joined with spaces at the spaces gives the words back. */
  lemma {:induction false} SplitJoin(ws: seq<string>)
    requires ws != []
    requires forall i :: 0 <= i < |ws| ==> ' ' !in ws[i]
    ensures Split(Join(ws)) == ws
  {
    if |ws| > 1 {
      SplitAfterWord(ws[0], Join(ws[1..]));
      SplitJoin(ws[1..]);
      assert ws == [ws[0]] + ws[1..];
    }
  }

  /** Reads a spelled-out number back: cuts at the spaces and turns each word into its character. */
  function Unspell(t: string): string
  {
    if t == "" then ""
    else
      var ws := Split(t);
      seq(|ws|, i requires 0 <= i < |ws| => CharOf(ws[i]))
  }

  /**
   * Spelling a number string out and reading it back gives the string, except that a decimal
   * comma comes back as a decimal point.
   */
  lemma SpelledRoundTrip(s: string)
    requires IsNumberString(s)
    ensures |Unspell(Spelled(s))| == |s|
    ensures forall i :: 0 <= i < |s| ==> Unspell(Spelled(s))[i] == Normalized(s[i])
  {
    if s != [] {
      var ws := WordsOf(s);
      SplitJoin(ws);
      assert Join(ws) != "" by {
        if |ws| > 1 { assert Join(ws)[..|ws[0]|] == ws[0]; }
      }
      forall i | 0 <= i < |s| ensures Unspell(Spelled(s))[i] == Normalized(s[i]) {
        assert IsNumberChar(s[i]);
      }
    }
  }

  /** Six words joined with spaces. */
  lemma JoinSix(ws: seq<string>)
    requires |ws| == 6
    ensures Join(ws) == ws[0] + " " + ws[1] + " " + ws[2] + " " + ws[3] + " " + ws[4] + " " + ws[5]
  {
    var w1, w2, w3, w4, w5 := ws[1..], ws[2..], ws[3..], ws[4..], ws[5..];
    var j4 := ws[4] + " " + ws[5];
    var j3 := ws[3] + " " + j4;
    var j2 := ws[2] + " " + j3;
    var j1 := ws[1] + " " + j2;
    assert Join(w4) == j4 by { assert w4[1..] == w5; }
    assert Join(w3) == j3 by { assert w3[1..] == w4; }
    assert Join(w2) == j2 by { assert w2[1..] == w3; }
    assert Join(w1) == j1 by { assert w1[1..] == w2; }
    assert Join(ws) == ws[0] + " " + j1;
  }

  /** The spelling of six characters, word by word. */
  lemma SpelledSix(s: string)
    requires |s| == 6
    ensures Spelled(s) == Word(s[0]) + " " + Word(s[1]) + " " + Word(s[2]) + " " + Word(s[3])
      + " " + Word(s[4]) + " " + Word(s[5])
  {
    JoinSix(WordsOf(s));
  }

  /** The examples on convertNumberToString. */
  method NumberWordsExamples() returns (a: string, b: string, c: string)
    ensures a == "one" && b == "one zero" && c == "minus one zero"
  {
    a := ConvertNumberToString("1");
    b := ConvertNumberToString("10");
    c := ConvertNumberToString("-10");
  }

  /** The examples on convertNumberToString with a fractional part. */
  method FractionExamples() returns (d: string, e: string)
    ensures d == "one zero point five" && e == "one zero point five"
  {
    d := ConvertNumberToString("10.5");
    e := ConvertNumberToString("10,5");
  }

  /** The example on convertNumberToString with a four-digit whole part. */
  method LongFractionExample() returns (f: string)
    ensures f == "one nine five zero point two"
  {
    var s := "1950.2";
    assert s[0] == '1' && s[1] == '9' && s[2] == '5' && s[3] == '0' && s[4] == '.' && s[5] == '2';
    assert Word('1') == "one" && Word('9') == "nine" && Word('5') == "five";
    assert Word('0') == "zero" && Word('.') == "point" && Word('2') == "two";
    SpelledSix(s);
    assert "one" + " " + "nine" == "one nine";
    assert "one nine" + " " + "five" == "one nine five";
    assert "one nine five" + " " + "zero" == "one nine five zero";
    assert "one nine five zero" + " " + "point" == "one nine five zero point";
    assert "one nine five zero point" + " " + "two" == "one nine five zero point two";
    f := ConvertNumberToString(s);
  }
}
