/**
 Escaping a string for a JavaScript string literal, against a lexer for the literal's body
 (String Literals, section 12.9.4 of ECMA-262, 2023 edition). Values are sequences of
 UTF-16 code units, as in that standard.
 */
module JsEscape {
  import opened Wrappers

  const NUL: char := '\0'
  const LS: char := '\U{2028}'
  const PS: char := '\U{2029}'

  // ------------------------------------------------------------------ escaping

  function EscapeChar(c: char): (r: string)
    ensures r != []
  {
    match c
    case '\\' => "\\\\"
    case '\'' => "\\'"
    case '"' => "\\\""
    case '\n' => "\\n"
    case '\r' => "\\r"
    case '\t' => "\\t"
    case _ =>
      if c == NUL then "\\0" else if c == LS then "\\u2028" else if c == PS then "\\u2029" else [c]
  }

  function Escape(s: string): string {
    if s == [] then [] else EscapeChar(s[0]) + Escape(s[1..])
  }

  method EscapeJsString(s: string) returns (out: string)
    ensures out == Escape(s)
  {
    out := [];
    for i := 0 to |s|
      invariant out + Escape(s[i..]) == Escape(s)
    {
      assert s[i..][1..] == s[i + 1..];
      out := out + EscapeChar(s[i]);
    }
  }

  // ------------------------------------------------------------------ code units

  /** A code point in UTF-16. */
  function Encode(cp: nat): (units: seq<nat>)
    ensures 1 <= |units| <= 2
  {
    if cp < 0x1_0000 then [cp] else [0xD800 + (cp - 0x1_0000) / 0x400, 0xDC00 + (cp - 0x1_0000) % 0x400]
  }

  function Utf16(s: string): seq<nat> {
    if s == [] then [] else Encode(s[0] as int) + Utf16(s[1..])
  }

  /** Code units determine the string: decoding to Utf16(s) is decoding to s. */
  lemma {:induction false} Utf16IsInjective(s: string, t: string)
    requires Utf16(s) == Utf16(t)
    ensures s == t
  {
    if s != [] && t != [] {
      var a, b := Encode(s[0] as int), Encode(t[0] as int);
      assert (a + Utf16(s[1..]))[0] == a[0] && (b + Utf16(t[1..]))[0] == b[0];
      EncodeIsPrefixFree(s[0], t[0], Utf16(s[1..]), Utf16(t[1..]));
      Utf16IsInjective(s[1..], t[1..]);
      assert s == [s[0]] + s[1..] && t == [t[0]] + t[1..];
    }
  }

  lemma EncodeIsPrefixFree(c: char, d: char, u: seq<nat>, v: seq<nat>)
    requires Encode(c as int) + u == Encode(d as int) + v
    ensures c == d && u == v
  {
    var a, b := Encode(c as int), Encode(d as int);
    assert (a + u)[0] == a[0] && (b + v)[0] == b[0];
    if |a| == 2 && |b| == 2 {
      assert (a + u)[1] == a[1] && (b + v)[1] == b[1];
    }
    assert |a| == |b|;
    assert (a + u)[|a|..] == u && (b + v)[|a|..] == v;
  }

  // ------------------------------------------------------------------ the lexer

  predicate IsDecimal(c: char) {
    '0' <= c <= '9'
  }

  predicate IsOctal(c: char) {
    '0' <= c <= '7'
  }

  predicate IsHex(c: char) {
    IsDecimal(c) || 'a' <= c <= 'f' || 'A' <= c <= 'F'
  }

  function DigitValue(c: char): nat
    requires IsHex(c)
  {
    if IsDecimal(c) then (c as int) - ('0' as int)
    else if 'a' <= c <= 'f' then 10 + (c as int) - ('a' as int)
    else 10 + (c as int) - ('A' as int)
  }

  function HexValue(digits: string): nat
    requires forall c | c in digits :: IsHex(c)
  {
    if digits == [] then 0 else 16 * HexValue(digits[..|digits| - 1]) + DigitValue(digits[|digits| - 1])
  }

  function HexRun(t: string): (digits: string)
    ensures |digits| <= |t| && forall c | c in digits :: IsHex(c)
  {
    if t == [] || !IsHex(t[0]) then [] else [t[0]] + HexRun(t[1..])
  }

  /** Code units an escape stands for, and its length after the backslash. */
  datatype Read = Read(units: seq<nat>, length: nat)

  /** Exactly `n` hexadecimal digits after the letter. */
  function ReadHex(t: string, n: nat): Option<Read> {
    if |t| > n && forall i | 1 <= i <= n :: IsHex(t[i]) then
      assert forall c | c in t[1..n + 1] :: IsHex(c);
      Some(Read([HexValue(t[1..n + 1])], n + 1))
    else None
  }

  function ReadCodePoint(t: string): Option<Read>
    requires |t| >= 2
  {
    var digits := HexRun(t[2..]);
    var end := 2 + |digits|;
    if digits != [] && HexValue(digits) <= 0x10FFFF && end < |t| && t[end] == '}'
    then Some(Read(Encode(HexValue(digits)), end + 1)) else None
  }

  /** An escape that begins with a decimal digit. */
  function ReadDigits(t: string, strict: bool): Option<Read>
    requires t != [] && IsDecimal(t[0])
  {
    var second := |t| > 1 && IsOctal(t[1]);
    if t[0] == '0' && !(|t| > 1 && IsDecimal(t[1])) then Some(Read([0], 1))
    else if strict then None
    else if !IsOctal(t[0]) then Some(Read([t[0] as int], 1))
    else if !second then Some(Read([DigitValue(t[0])], 1))
    else if t[0] <= '3' && |t| > 2 && IsOctal(t[2]) then
      Some(Read([64 * DigitValue(t[0]) + 8 * DigitValue(t[1]) + DigitValue(t[2])], 3))
    else Some(Read([8 * DigitValue(t[0]) + DigitValue(t[1])], 2))
  }

  /** What follows a backslash. A line continuation stands for nothing. */
  function ReadEscape(t: string, strict: bool): Option<Read> {
    if t == [] then None else
    match t[0]
    case 'b' => Some(Read([0x8], 1))
    case 't' => Some(Read([0x9], 1))
    case 'n' => Some(Read([0xA], 1))
    case 'v' => Some(Read([0xB], 1))
    case 'f' => Some(Read([0xC], 1))
    case 'r' => Some(Read([0xD], 1))
    case 'x' => ReadHex(t, 2)
    case 'u' => if |t| > 1 && t[1] == '{' then ReadCodePoint(t) else ReadHex(t, 4)
    case _ =>
      if IsDecimal(t[0]) then ReadDigits(t, strict)
      else if t[0] == '\r' && |t| > 1 && t[1] == '\n' then Some(Read([], 2))
      else if t[0] in {'\n', '\r', LS, PS} then Some(Read([], 1))
      else Some(Read(Encode(t[0] as int), 1))
  }

  /** The value of the literal whose body begins at `t`, and what follows its closing
      quote; nothing when the literal is malformed or unterminated. */
  function Lex(t: string, quote: char, strict: bool): Option<(seq<nat>, string)>
    decreases |t|
  {
    if t == [] || t[0] in {'\n', '\r'} then None
    else if t[0] == quote then Some(([], t[1..]))
    else if t[0] != '\\' then Prepend(Encode(t[0] as int), Lex(t[1..], quote, strict))
    else
      match ReadEscape(t[1..], strict)
      case None => None
      case Some(r) => if 1 + r.length > |t| then None else Prepend(r.units, Lex(t[1 + r.length..], quote, strict))
  }

  function Prepend(units: seq<nat>, rest: Option<(seq<nat>, string)>): Option<(seq<nat>, string)> {
    if rest.None? then None else Some((units + rest.value.0, rest.value.1))
  }

  // ------------------------------------------------------------------ the round trip

  /** The digits that a lexer joins to a preceding `\0`. */
  predicate Joins(c: char, strict: bool) {
    if strict then IsDecimal(c) else IsOctal(c)
  }

  /** Some NUL is directly followed by a digit the lexer would join to its escape. */
  predicate NulBeforeDigit(s: string, strict: bool) {
    exists i | 0 <= i < |s| - 1 :: s[i] == NUL && Joins(s[i + 1], strict)
  }

  lemma NulBeforeDigitCons(s: string, strict: bool)
    requires s != []
    ensures NulBeforeDigit(s, strict)
            <==> (s[0] == NUL && |s| > 1 && Joins(s[1], strict)) || NulBeforeDigit(s[1..], strict)
  {
    var t := s[1..];
    if NulBeforeDigit(t, strict) {
      var i :| 0 <= i < |t| - 1 && t[i] == NUL && Joins(t[i + 1], strict);
      assert s[i + 1] == NUL && Joins(s[i + 1 + 1], strict);
    }
    if NulBeforeDigit(s, strict) {
      var i :| 0 <= i < |s| - 1 && s[i] == NUL && Joins(s[i + 1], strict);
      assert i > 0 ==> t[i - 1] == NUL && Joins(t[i - 1 + 1], strict);
    }
  }

  /** Every character but NUL is read back from its escape alone. */
  lemma ReadsBack(c: char, t: string, quote: char, strict: bool)
    requires quote in {'\'', '"'} && c != NUL
    ensures Lex(EscapeChar(c) + t, quote, strict) == Prepend(Encode(c as int), Lex(t, quote, strict))
  {
    hide ReadEscape, Prepend, Encode;
    var e := EscapeChar(c);
    assert (e + t)[|e|..] == t;
    if e[0] == '\\' {
      var x := (e + t)[1..];
      assert x == e[1..] + t;
      ReadsEscape(c, t, strict);
    }
  }

  lemma ReadsEscape(c: char, t: string, strict: bool)
    requires c != NUL && EscapeChar(c)[0] == '\\'
    ensures ReadEscape(EscapeChar(c)[1..] + t, strict) == Some(Read(Encode(c as int), |EscapeChar(c)| - 1))
  {
    hide ReadCodePoint, ReadDigits, HexRun, HexValue;
    var x := EscapeChar(c)[1..] + t;
    assert x[0] == EscapeChar(c)[1];
    if c == LS || c == PS {
      assert x[1..5] == EscapeChar(c)[2..];
      HexOfFour(x[1..5]);
    }
  }

  lemma HexOfFour(d: string)
    requires |d| == 4 && forall c | c in d :: IsHex(c)
    ensures HexValue(d) == 0x1000 * DigitValue(d[0]) + 0x100 * DigitValue(d[1]) + 0x10 * DigitValue(d[2])
        + DigitValue(d[3])
  {
    assert d[..3][..2] == d[..2] && d[..2][..1] == d[..1] && d[..1][..0] == [];
    assert HexValue(d[..1]) == DigitValue(d[0]);
    assert HexValue(d[..2]) == 0x10 * DigitValue(d[0]) + DigitValue(d[1]);
  }

  /** The text after an escaped prefix. */
  function Tail(s: string, quote: char, suffix: string): string {
    Escape(s) + [quote] + suffix
  }

  lemma TailCons(s: string, quote: char, suffix: string)
    requires s != []
    ensures Tail(s, quote, suffix) == EscapeChar(s[0]) + Tail(s[1..], quote, suffix)
  {
  }

  /** Only a digit escapes to something that begins with a digit. */
  lemma TailDigit(s: string, quote: char, suffix: string)
    requires quote in {'\'', '"'}
    ensures var t := Tail(s, quote, suffix);
            && t != []
            && (IsDecimal(t[0]) <==> s != [] && IsDecimal(s[0]))
            && (s != [] && IsDecimal(s[0]) ==> t == [s[0]] + Tail(s[1..], quote, suffix))
  {
    if s != [] {
      TailCons(s, quote, suffix);
    }
  }

  /** The digits joined to the escape of the NUL at the front of `s`. */
  function Joined(s: string): nat {
    if |s| < 2 || !IsOctal(s[1]) then 0 else if |s| == 2 || !IsOctal(s[2]) then 1 else 2
  }

  /** A NUL at the front: read back unless a digit follows; then refused in strict code,
      and otherwise one unit stands for the NUL and the digits it joins. */
  lemma ReadsNul(s: string, quote: char, suffix: string, strict: bool)
    requires quote in {'\'', '"'} && s != [] && s[0] == NUL
    ensures var r := Lex(Tail(s, quote, suffix), quote, strict);
            if |s| == 1 || !Joins(s[1], strict) then
              r == Prepend([0], Lex(Tail(s[1..], quote, suffix), quote, strict))
            else if strict then r == None
            else
              && 1 <= Joined(s) < |s|
              && exists unit :: r == Prepend([unit], Lex(Tail(s[1 + Joined(s)..], quote, suffix), quote, strict))
  {
    hide Prepend, Tail;
    TailCons(s, quote, suffix);
    var t := Tail(s[1..], quote, suffix);
    var all := Tail(s, quote, suffix);
    assert all == "\\0" + t;
    assert all[1..] == "0" + t && all[2..] == t;
    TailDigit(s[1..], quote, suffix);
    if |s| > 1 && IsDecimal(s[1]) && !strict {
      TailDigit(s[2..], quote, suffix);
      var u := Tail(s[2..], quote, suffix);
      assert t == [s[1]] + u && all[3..] == u;
      if |s| > 2 && IsDecimal(s[2]) {
        assert all[4..] == Tail(s[3..], quote, suffix);
      }
    }
  }

  /** Lexing an escaped string, in any mode: it is refused exactly in strict code when a
      NUL stands before a digit; otherwise it stops at that very quote, and the value is
      the string, or a shorter one when a NUL stands before an octal digit. */
  lemma {:induction false} LexEscaped(s: string, quote: char, suffix: string, strict: bool)
    requires quote in {'\'', '"'}
    ensures var r := Lex(Tail(s, quote, suffix), quote, strict);
            && (r.None? <==> strict && NulBeforeDigit(s, strict))
            && (r.Some? ==> r.value.1 == suffix && |r.value.0| <= |Utf16(s)|)
            && (r.Some? ==> if NulBeforeDigit(s, strict) then |r.value.0| < |Utf16(s)| else r.value.0 == Utf16(s))
    decreases |s|
  {
    if s == [] {
      assert Tail(s, quote, suffix) == [quote] + suffix;
    } else {
      LexEscapedStep(s, quote, suffix, strict);
    }
  }

  lemma {:induction false} LexEscapedStep(s: string, quote: char, suffix: string, strict: bool)
    requires quote in {'\'', '"'} && s != []
    ensures var r := Lex(Tail(s, quote, suffix), quote, strict);
            && (r.None? <==> strict && NulBeforeDigit(s, strict))
            && (r.Some? ==> r.value.1 == suffix && |r.value.0| <= |Utf16(s)|)
            && (r.Some? ==> if NulBeforeDigit(s, strict) then |r.value.0| < |Utf16(s)| else r.value.0 == Utf16(s))
    decreases |s|, 0
  {
    hide Lex, NulBeforeDigit, Tail;
    NulBeforeDigitCons(s, strict);
    if s[0] != NUL {
      TailCons(s, quote, suffix);
      ReadsBack(s[0], Tail(s[1..], quote, suffix), quote, strict);
      LexEscaped(s[1..], quote, suffix, strict);
    } else {
      ReadsNul(s, quote, suffix, strict);
      if |s| == 1 || !Joins(s[1], strict) {
        LexEscaped(s[1..], quote, suffix, strict);
      } else if !strict {
        LexEscaped(s[1 + Joined(s)..], quote, suffix, strict);
        Utf16Skip(s, 1 + Joined(s));
      }
    }
  }

  lemma {:induction false} Utf16Skip(s: string, n: nat)
    requires n <= |s|
    ensures |Utf16(s)| >= n + |Utf16(s[n..])|
  {
    if n == 0 {
    } else {
      Utf16Skip(s[1..], n - 1);
      assert s[1..][n - 1..] == s[n..];
    }
  }

  /** The round trip, exactly where it holds: the escaped string between quotes is read
      back whole, up to that quote, if and only if no NUL stands directly before a digit
      (any decimal digit in strict code, an octal digit otherwise). */
  lemma RoundTripExactly(s: string, quote: char, suffix: string, strict: bool)
    requires quote in {'\'', '"'}
    ensures Lex(Escape(s) + [quote] + suffix, quote, strict) == Some((Utf16(s), suffix))
            <==> !NulBeforeDigit(s, strict)
  {
    hide Lex;
    LexEscaped(s, quote, suffix, strict);
  }

  /** A NUL before a digit: refused in strict code, another string otherwise. */
  lemma NulBeforeDigitIsLost(quote: char)
    requires quote in {'\'', '"'}
    ensures Lex(Escape([NUL, '1']) + [quote], quote, true) == None
    ensures Lex(Escape([NUL, '1']) + [quote], quote, false) == Some(([1], []))
  {
    hide ReadEscape;
    var s := [NUL, '1'];
    assert s[1..] == "1" && s[1..][1..] == "";
    assert Escape(s[1..]) == "1" && Escape(s) == "\\01";
    var t := Escape(s) + [quote];
    assert t == ['\\', '0', '1', quote];
    ReadsOctalOne(quote);
    assert t[1..] == ['0', '1', quote] && t[1 + 2..] == [quote];
    assert [quote][1..] == [];
    assert Lex([quote], quote, false) == Some(([], []));
    var one: seq<nat> := [1];
    assert one + [] == one;
    assert Lex(t, quote, false) == Prepend(one, Lex([quote], quote, false));
  }

  lemma ReadsOctalOne(quote: char)
    requires quote in {'\'', '"'}
    ensures ReadEscape(['0', '1', quote], true) == None && ReadEscape(['0', '1', quote], false) == Some(Read([1], 2))
  {
  }
}
