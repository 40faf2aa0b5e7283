/**
 The escapes one by one, and the lexer's reading of every kind of escape that ECMA-262
 gives, whether or not the escaping uses it.
 */
module JsTables {
  import opened Wrappers
  import opened JsEscape

  // ------------------------------------------------------------------ what is written

  lemma {:induction false} EscapeConcat(s: string, t: string)
    ensures Escape(s + t) == Escape(s) + Escape(t)
  {
    hide EscapeChar, Escape;
    if s == [] {
      assert s + t == t && Escape(s) == [] by {
        EscapeNothing();
      }
    } else {
      EscapeConcat(s[1..], t);
      EscapeCons(s + t);
      EscapeCons(s);
      assert (s + t)[1..] == s[1..] + t && (s + t)[0] == s[0];
    }
  }

  lemma EscapeNothing()
    ensures Escape([]) == []
  {
  }

  lemma EscapeCons(s: string)
    requires s != []
    ensures Escape(s) == EscapeChar(s[0]) + Escape(s[1..])
  {
    hide EscapeChar;
  }

  /** The nine escapes; any other character stands for itself. */
  lemma EscapesAre(c: char)
    ensures Escape([c]) ==
            if c == '\\' then "\\\\" else if c == '\'' then "\\'" else if c == '"' then "\\\""
            else if c == '\n' then "\\n" else if c == '\r' then "\\r" else if c == '\t' then "\\t"
            else if c == '\0' then "\\0" else if c == '\U{2028}' then "\\u2028" else if c == '\U{2029}' then "\\u2029"
            else [c]
  {
    assert [c][1..] == [] && Escape([]) == [];
    assert EscapeChar(c) + [] == EscapeChar(c);
  }

  predicate IsRaw(c: char) {
    c in {'\0', '\t', '\n', '\r', '\U{2028}', '\U{2029}'}
  }

  /** Nothing that ends a line, no tab and no NUL is left in an escaped string. */
  lemma {:induction false} NothingIsRaw(s: string)
    ensures forall c | c in Escape(s) :: !IsRaw(c)
  {
    if s == [] {
    } else {
      NothingIsRaw(s[1..]);
      assert forall c | c in EscapeChar(s[0]) :: !IsRaw(c);
    }
  }

  // ------------------------------------------------------------------ code units

  /** A code point below 2^16 is its own unit; above, a high and a low surrogate that give it
      back. */
  lemma EncodeIsUtf16(cp: nat)
    requires cp <= 0x10FFFF
    ensures var u := Encode(cp);
            if cp < 0x1_0000 then u == [cp]
            else && |u| == 2 && 0xD800 <= u[0] <= 0xDBFF && 0xDC00 <= u[1] <= 0xDFFF
                 && 0x1_0000 + 0x400 * (u[0] - 0xD800) + (u[1] - 0xDC00) == cp
  {
  }

  // ------------------------------------------------------------------ what is read

  lemma HexDigits()
    ensures HexValue("0") == 0 && HexValue("9") == 9 && HexValue("a") == HexValue("A") == 10
    ensures HexValue("f") == HexValue("F") == 15
    ensures forall c :: IsHex(c) <==> c in "0123456789abcdefABCDEF"
  {
    assert ""[..0] == "" && "0"[..0] == "" && "9"[..0] == "" && "a"[..0] == "" && "A"[..0] == "";
    assert "f"[..0] == "" && "F"[..0] == "";
  }

  lemma SingleEscapes(strict: bool)
    ensures ReadEscape("b", strict) == Some(Read([8], 1)) && ReadEscape("t", strict) == Some(Read([9], 1))
    ensures ReadEscape("n", strict) == Some(Read([10], 1)) && ReadEscape("v", strict) == Some(Read([11], 1))
    ensures ReadEscape("f", strict) == Some(Read([12], 1)) && ReadEscape("r", strict) == Some(Read([13], 1))
    ensures ReadEscape("'", strict) == Some(Read([39], 1)) && ReadEscape("z", strict) == Some(Read([122], 1))
  {
  }

  /** A line continuation stands for nothing; a carriage return takes a line feed with it. */
  lemma Continuations(strict: bool)
    ensures ReadEscape("\n", strict) == ReadEscape("\r", strict) == Some(Read([], 1))
    ensures ReadEscape("\U{2028}", strict) == ReadEscape("\U{2029}", strict) == Some(Read([], 1))
    ensures ReadEscape("\r\n", strict) == Some(Read([], 2)) && ReadEscape("\ra", strict) == Some(Read([], 1))
  {
  }

  lemma HexadecimalEscapes(strict: bool)
    ensures ReadEscape("x4a", strict) == Some(Read([0x4a], 3))
    ensures ReadEscape("u20Ac", strict) == Some(Read([0x20ac], 5))
    ensures ReadEscape("x4", strict) == None == ReadEscape("u20a", strict)
  {
    hide HexValue;
    HexPairs();
    assert "x4a"[1..3] == "4a" && "u20Ac"[1..5] == "20Ac";
    HexOfFour("20Ac");
  }

  lemma HexPairs()
    ensures HexValue("4a") == 0x4a && HexValue("1F600") == 0x1F600
  {
    assert "4a"[..1] == "4" && "4"[..0] == "";
    assert HexValue("4") == 4;
    assert "1F600"[..4] == "1F60";
    HexOfFour("1F60");
  }

  lemma CodePointEscapes(strict: bool)
    ensures ReadEscape("u{1F600}", strict) == Some(Read([0xD83D, 0xDE00], 8))
    ensures ReadEscape("u{}", strict) == None == ReadEscape("u{1F600", strict)
  {
    hide HexValue, HexRun;
    HexPairs();
    Run();
    assert "u{1F600}"[2..] == "1F600}" && "u{1F600"[2..] == "1F600" && "u{}"[2..] == "}";
  }

  lemma Run()
    ensures HexRun("1F600}") == "1F600" && HexRun("1F600") == "1F600" && HexRun("}") == ""
  {
    RunTo("");
    RunTo("}");
    assert HexRun("") == "" && HexRun("}") == "";
    hide HexRun;
    assert "1F600" + "" == "1F600" && "1F600" + "}" == "1F600}";
  }

  lemma RunTo(t: string)
    ensures HexRun("1F600" + t) == "1F600" + HexRun(t)
  {
    HexRunCons('0', t);
    HexRunCons('0', ['0'] + t);
    HexRunCons('6', ['0'] + (['0'] + t));
    HexRunCons('F', ['6'] + (['0'] + (['0'] + t)));
    HexRunCons('1', ['F'] + (['6'] + (['0'] + (['0'] + t))));
    hide HexRun;
    Digits(t);
    Digits(HexRun(t));
  }

  lemma Digits(t: string)
    ensures "1F600" + t == ['1'] + (['F'] + (['6'] + (['0'] + (['0'] + t))))
  {
  }

  lemma HexRunCons(c: char, t: string)
    requires IsHex(c)
    ensures HexRun([c] + t) == [c] + HexRun(t)
  {
    assert ([c] + t)[1..] == t;
  }

  /** Up to three octal digits below 400 octal outside strict code; in strict code only a NUL
      that no digit follows. */
  lemma OctalEscapes()
    ensures ReadEscape("0", true) == ReadEscape("0", false) == ReadEscape("0a", true) == Some(Read([0], 1))
    ensures ReadEscape("7", false) == ReadEscape("79", false) == Some(Read([7], 1))
    ensures ReadEscape("101", false) == Some(Read([65], 3)) && ReadEscape("377", false) == Some(Read([255], 3))
    ensures ReadEscape("40", false) == Some(Read([32], 2)) == ReadEscape("400", false)
    ensures ReadEscape("8", false) == Some(Read([56], 1)) && ReadEscape("08", false) == Some(Read([0], 1))
    ensures ReadEscape("1", true) == ReadEscape("8", true) == ReadEscape("08", true) == ReadEscape("00", true) == None
  {
  }
}
