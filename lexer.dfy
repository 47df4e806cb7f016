/**
 A model of the single-token matchers of a small Lisp-style lexer. Each matcher
 looks at the start of a string and either recognises one lexeme, returning the
 token together with the text that follows it, or reports no match.
 */
module Lexer {

  /** Rust's `i32`: the payload of a number token. */
  const I32Min: int := -0x8000_0000
  const I32Max: int := 0x7FFF_FFFF
  newtype i32 = x: int | -0x8000_0000 <= x <= 0x7FFF_FFFF

  datatype Option<T> = None | Some(value: T)

  /** The token kinds of the lexer. */
  datatype Token = LBrace | RBrace | Number(n: i32) | Plus | Minus | Asterisk | Slash

  /** A successful match: the token and the unconsumed remainder of the input. */
  datatype Lexed = Lexed(token: Token, rest: string)

  // ---------------------------------------------------------------------------
  // Digits and decimal values
  // ---------------------------------------------------------------------------

  /** The characters a number literal is made of (ASCII decimal digits). */
  predicate IsDigit(c: char) {
    '0' <= c <= '9'
  }

  predicate AllDigits(s: string) {
    forall i :: 0 <= i < |s| ==> IsDigit(s[i])
  }

  function DigitValue(c: char): (d: nat)
    requires IsDigit(c)
    ensures d < 10
  {
    c as int - '0' as int
  }

  /** The value of a string of decimal digits, most significant digit first. */
  function DecimalValue(s: string): nat
    requires AllDigits(s)
  {
    if s == [] then 0 else DecimalValue(s[..|s| - 1]) * 10 + DigitValue(s[|s| - 1])
  }

  /** Appending a digit multiplies the value by ten and adds that digit. */
  lemma DecimalValueSnoc(s: string, c: char)
    requires AllDigits(s) && IsDigit(c)
    ensures AllDigits(s + [c]) && DecimalValue(s + [c]) == DecimalValue(s) * 10 + DigitValue(c)
  {
    assert (s + [c])[..|s|] == s;
  }

  /**
   The value of the first five digits of i32::MAX. This step is split out of
   `DecimalValueAtI32Max` only to keep each proof small for the solver.
   */
  lemma DecimalValueOf21474()
    ensures AllDigits("21474") && DecimalValue("21474") == 21474
  {
    assert DecimalValue("2") == 2 by { assert "2"[..0] == []; }
    DecimalValueSnoc("2", '1');
    assert "2" + ['1'] == "21";
    DecimalValueSnoc("21", '4');
    assert "21" + ['4'] == "214";
    DecimalValueSnoc("214", '7');
    assert "214" + ['7'] == "2147";
    DecimalValueSnoc("2147", '4');
    assert "2147" + ['4'] == "21474";
  }

  /** The digit strings at the upper edge of the `i32` range. */
  lemma DecimalValueAtI32Max()
    ensures AllDigits("2147483647") && DecimalValue("2147483647") == I32Max
    ensures AllDigits("2147483648") && DecimalValue("2147483648") == I32Max + 1
  {
    DecimalValueOf21474();
    DecimalValueSnoc("21474", '8');
    assert "21474" + ['8'] == "214748";
    DecimalValueSnoc("214748", '3');
    assert "214748" + ['3'] == "2147483";
    DecimalValueSnoc("2147483", '6');
    assert "2147483" + ['6'] == "21474836";
    DecimalValueSnoc("21474836", '4');
    assert "21474836" + ['4'] == "214748364";
    DecimalValueSnoc("214748364", '7');
    assert "214748364" + ['7'] == "2147483647";
    DecimalValueSnoc("214748364", '8');
    assert "214748364" + ['8'] == "2147483648";
  }

  /**
   The length of the longest prefix of `s` made only of digits: the index of the
   first non-digit, or the whole length when there is none.
   */
  function DigitRunLength(s: string): (k: nat)
    ensures k <= |s|
    ensures AllDigits(s[..k])
    ensures k == |s| || !IsDigit(s[k])
  {
    if s == [] || !IsDigit(s[0]) then 0
    else
      var k' := DigitRunLength(s[1..]);
      assert s[..1 + k'] == [s[0]] + s[1..][..k'];
      1 + k'
  }

  /** A digit run is determined by the input: there is only one maximal one. */
  lemma {:induction false} DigitRunUnique(s: string, k: nat)
    requires k <= |s| && AllDigits(s[..k]) && (k == |s| || !IsDigit(s[k]))
    ensures DigitRunLength(s) == k
  {
    if k > 0 {
      assert IsDigit(s[..k][0]);
      var t := s[1..];
      var u := t[..k - 1];
      assert AllDigits(u) by {
        forall i | 0 <= i < |u| ensures IsDigit(u[i]) {
          assert u[i] == s[..k][i + 1];
        }
      }
      assert k - 1 < |t| ==> t[k - 1] == s[k];
      DigitRunUnique(t, k - 1);
    }
  }

  /** Leading zeros do not change the value of a digit string. */
  lemma {:induction false} DecimalValueLeadingZero(s: string)
    requires AllDigits(s)
    ensures AllDigits(['0'] + s) && DecimalValue(['0'] + s) == DecimalValue(s)
  {
    var z := ['0'] + s;
    assert AllDigits(z) by {
      forall i | 0 <= i < |z| ensures IsDigit(z[i]) {
        if i > 0 { assert z[i] == s[i - 1]; }
      }
    }
    if s != [] {
      var init := s[..|s| - 1];
      assert z[..|z| - 1] == ['0'] + init;
      assert AllDigits(init) by {
        forall i | 0 <= i < |init| ensures IsDigit(init[i]) { assert init[i] == s[i]; }
      }
      DecimalValueLeadingZero(init);
    }
  }

  // ---------------------------------------------------------------------------
  // Rust's `str::parse::<i32>`
  // ---------------------------------------------------------------------------

  /**
   Parsing a string as an `i32`: an optional leading `+` or `-`, then one or more
   ASCII digits, whose signed value must lie in the `i32` range. Every failure
   (empty string, a lone sign, a non-digit, overflow) is `None`, since the
   caller discards the error kind.
   */
  function ParseI32(s: string): (r: Option<i32>)
    ensures r.Some? ==> |s| > 0
    ensures |s| > 0 && AllDigits(s) ==>
      r == if DecimalValue(s) <= I32Max then Some(DecimalValue(s) as i32) else None
  {
    if s == [] then None
    else
      var negative := s[0] == '-';
      var digits := if s[0] == '+' || s[0] == '-' then s[1..] else s;
      if digits == [] || !AllDigits(digits) then None
      else
        var magnitude: int := DecimalValue(digits);
        var v := if negative then -magnitude else magnitude;
        if I32Min <= v <= I32Max then Some(v as i32) else None
  }

  /** `parse` itself would accept a sign: it is the digit-run cut that excludes it. */
  lemma ParseI32AcceptsSign()
    ensures ParseI32("-5") == Some(-5)
    ensures ParseI32("+5") == Some(5)
    ensures ParseI32("-2147483648") == Some(-0x8000_0000)
    ensures ParseI32("+") == None
  {
    assert DecimalValue("5") == 5 by { assert "5"[..0] == []; }
    DecimalValueAtI32Max();
    var big := "2147483648";
    assert "-2147483648"[1..] == big;
  }

  // ---------------------------------------------------------------------------
  // The matchers
  // ---------------------------------------------------------------------------

  /**
   The number matcher: the maximal leading run of digits, parsed as an `i32`.
   An empty run or a value outside the `i32` range is no match.
   */
  function MatchNumber(code: string): (r: Option<Lexed>)
    ensures |code| == 0 || !IsDigit(code[0]) ==> r == None
    ensures r.Some? ==> r.value.token.Number? && r.value.token.n >= 0
    ensures r.Some? ==> |r.value.rest| < |code| && r.value.rest == code[|code| - |r.value.rest|..]
  {
    var index := DigitRunLength(code);
    if index == 0 then None
    else
      var num := code[..index];
      var rest := code[index..];
      match ParseI32(num)
      case Some(n) => Some(Lexed(Number(n), rest))
      case None => None
  }

  /**
   The generic one-character matcher as written: the `target` parameter is
   never compared with anything, so it succeeds on every non-empty input.
   */
  function MatchChar(code: string, target: char, token: Token): (r: Option<Lexed>)
    ensures r.None? <==> code == []
    ensures r.Some? ==> r.value.token == token && r.value.rest == code[1..]
  {
    if code == [] then None else Some(Lexed(token, code[1..]))
  }

  function MatchLBrace(code: string): (r: Option<Lexed>)
    ensures r.None? <==> code == []
    ensures r.Some? ==> r.value == Lexed(LBrace, code[1..])
  {
    MatchChar(code, '(', LBrace)
  }

  function MatchRBrace(code: string): (r: Option<Lexed>)
    ensures r.None? <==> code == []
    ensures r.Some? ==> r.value == Lexed(RBrace, code[1..])
  {
    MatchChar(code, ')', RBrace)
  }

  function MatchPlus(code: string): (r: Option<Lexed>)
    ensures r.None? <==> code == []
    ensures r.Some? ==> r.value == Lexed(Plus, code[1..])
  {
    MatchChar(code, '+', Plus)
  }

  function MatchMinus(code: string): (r: Option<Lexed>)
    ensures r.None? <==> code == []
    ensures r.Some? ==> r.value == Lexed(Minus, code[1..])
  {
    MatchChar(code, '-', Minus)
  }

  function MatchAsterisk(code: string): (r: Option<Lexed>)
    ensures r.None? <==> code == []
    ensures r.Some? ==> r.value == Lexed(Asterisk, code[1..])
  {
    MatchChar(code, '*', Asterisk)
  }

  function MatchSlash(code: string): (r: Option<Lexed>)
    ensures r.None? <==> code == []
    ensures r.Some? ==> r.value == Lexed(Slash, code[1..])
  {
    MatchChar(code, '/', Slash)
  }

  // ---------------------------------------------------------------------------
  // Properties of the number matcher
  // ---------------------------------------------------------------------------

  /**
   The number matcher, characterised by how its input splits: for a digit
   string `p` followed by text `rest` that does not continue it, the matcher
   yields `Number` of the value of `p` with remainder `rest`, unless `p` is
   empty or its value overflows `i32`.
   */
  lemma MatchNumberSplit(p: string, rest: string)
    requires AllDigits(p)
    requires rest == [] || !IsDigit(rest[0])
    ensures MatchNumber(p + rest) ==
      if p != [] && DecimalValue(p) <= I32Max
      then Some(Lexed(Number(DecimalValue(p) as i32), rest))
      else None
  {
    var code := p + rest;
    assert code[..|p|] == p;
    assert code[|p|..] == rest;
    assert |p| < |code| ==> code[|p|] == rest[0];
    DigitRunUnique(code, |p|);
  }

  /**
   Maximal munch: on success the consumed prefix is a non-empty digit string
   whose value is the token's, the remainder is exactly what follows it, and
   the remainder does not start with a digit.
   */
  lemma MatchNumberMaximalMunch(code: string)
    requires MatchNumber(code).Some?
    ensures var l := MatchNumber(code).value;
      var k := |code| - |l.rest|;
      && 0 < k <= |code|
      && code[..k] + l.rest == code
      && AllDigits(code[..k])
      && l.token == Number(DecimalValue(code[..k]) as i32)
      && (l.rest == [] || !IsDigit(l.rest[0]))
  {
    var k := DigitRunLength(code);
    assert code[..k] + code[k..] == code;
    assert k < |code| ==> code[k..][0] == code[k];
    MatchNumberSplit(code[..k], code[k..]);
  }

  /** A digit run whose value exceeds `i32::MAX` is no match. */
  lemma MatchNumberOverflow(code: string)
    requires DecimalValue(code[..DigitRunLength(code)]) > I32Max
    ensures MatchNumber(code) == None
  {
    var k := DigitRunLength(code);
    assert code[..k] + code[k..] == code;
    assert k < |code| ==> code[k..][0] == code[k];
    MatchNumberSplit(code[..k], code[k..]);
  }

  /** Leading zeros are accepted and do not change the number read. */
  lemma MatchNumberLeadingZero(code: string)
    requires |code| > 0 && IsDigit(code[0])
    ensures MatchNumber(['0'] + code) == MatchNumber(code)
  {
    var k := DigitRunLength(code);
    var p, rest := code[..k], code[k..];
    assert code == p + rest;
    assert k < |code| ==> rest[0] == code[k];
    DecimalValueLeadingZero(p);
    assert ['0'] + code == (['0'] + p) + rest;
    MatchNumberSplit(p, rest);
    MatchNumberSplit(['0'] + p, rest);
  }

  // ---------------------------------------------------------------------------
  // Properties of the one-character matcher
  // ---------------------------------------------------------------------------

  /** As written the result does not depend on `target` at all. */
  lemma MatchCharIgnoresTarget(code: string, t1: char, t2: char, token: Token)
    ensures MatchChar(code, t1, token) == MatchChar(code, t2, token)
  {
  }

  /**
   The evidently intended one-character matcher: it succeeds exactly when the
   first character is `target`.
   */
  function MatchCharIntended(code: string, target: char, token: Token): (r: Option<Lexed>)
    ensures r.Some? <==> |code| > 0 && code[0] == target
    ensures r.Some? ==> r.value == Lexed(token, code[1..])
  {
    if |code| > 0 && code[0] == target then Some(Lexed(token, code[1..])) else None
  }

  /**
   The matcher as written and the intended one agree exactly on the inputs that
   are empty or start with `target`, and disagree on all other inputs.
   */
  lemma MatchCharAgreement(code: string, target: char, token: Token)
    ensures MatchChar(code, target, token) == MatchCharIntended(code, target, token)
      <==> code == [] || code[0] == target
  {
  }

  /**
   The discrepancy on a concrete input: `l_brace` reads a space, or any other
   character, as a left brace.
   */
  lemma MatchLBraceAcceptsAnyChar()
    ensures MatchLBrace(" (") == Some(Lexed(LBrace, "("))
    ensures MatchLBrace("7") == Some(Lexed(LBrace, ""))
    ensures MatchCharIntended(" (", '(', LBrace) == None
  {
    assert "7"[1..] == "";
  }

  // ---------------------------------------------------------------------------
  // No matcher skips whitespace
  // ---------------------------------------------------------------------------

  predicate IsWhitespace(c: char) {
    c == ' ' || c == '\t' || c == '\n' || c == '\r'
  }

  /**
   The number matcher consumes only digits, so it never consumes whitespace, and
   input that starts with whitespace is no match.
   */
  lemma MatchNumberNoWhitespace(code: string)
    ensures |code| > 0 && IsWhitespace(code[0]) ==> MatchNumber(code) == None
    ensures MatchNumber(code).Some? ==>
      forall i :: 0 <= i < |code| - |MatchNumber(code).value.rest| ==> !IsWhitespace(code[i])
  {
    if MatchNumber(code).Some? {
      MatchNumberMaximalMunch(code);
      var k := |code| - |MatchNumber(code).value.rest|;
      forall i | 0 <= i < k ensures !IsWhitespace(code[i]) {
        assert code[..k][i] == code[i];
      }
    }
  }

  /**
   The one-character matcher consumes exactly one character: whitespace after
   it is left in the remainder, character for character.
   */
  lemma MatchCharKeepsWhitespace(code: string, target: char, token: Token, n: nat)
    requires 0 < n < |code| && forall i :: 0 < i <= n ==> IsWhitespace(code[i])
    ensures MatchChar(code, target, token).Some?
    ensures var rest := MatchChar(code, target, token).value.rest;
      |rest| == |code| - 1 && forall i :: 0 <= i < n ==> IsWhitespace(rest[i])
  {
    var rest := MatchChar(code, target, token).value.rest;
    forall i | 0 <= i < n ensures IsWhitespace(rest[i]) {
      assert rest[i] == code[i + 1];
    }
  }

  // ---------------------------------------------------------------------------
  // The unit tests, as lemmas
  // ---------------------------------------------------------------------------

  lemma TestLBrace()
    ensures MatchLBrace("()") == Some(Lexed(LBrace, ")"))
  {
  }

  lemma TestRBrace()
    ensures MatchRBrace("))") == Some(Lexed(RBrace, ")"))
  {
  }

  lemma TestNumber()
    ensures MatchNumber("123c") == Some(Lexed(Number(123), "c"))
    ensures MatchNumber("123") == Some(Lexed(Number(123), ""))
    ensures MatchNumber("+123") == None
  {
    assert AllDigits("123") && DecimalValue("123") == 123 by {
      assert "123"[..2] == "12";
      assert "12"[..1] == "1";
      assert "1"[..0] == [];
    }
    MatchNumberSplit("123", "c");
    MatchNumberSplit("123", "");
    assert "123" + "c" == "123c";
    assert "123" + "" == "123";
  }

  lemma TestOperator()
    ensures MatchPlus("+") == Some(Lexed(Plus, ""))
    ensures MatchPlus("+ 1 2") == Some(Lexed(Plus, " 1 2"))
    ensures MatchMinus("-") == Some(Lexed(Minus, ""))
    ensures MatchMinus("- 1 2") == Some(Lexed(Minus, " 1 2"))
    ensures MatchAsterisk("*") == Some(Lexed(Asterisk, ""))
    ensures MatchAsterisk("* 1 2") == Some(Lexed(Asterisk, " 1 2"))
    ensures MatchSlash("/") == Some(Lexed(Slash, ""))
    ensures MatchSlash("/ 1 2") == Some(Lexed(Slash, " 1 2"))
  {
    assert "+"[1..] == "" && "-"[1..] == "" && "*"[1..] == "" && "/"[1..] == "";
  }

  /**
   Every unit test input starts with its matcher's target character, so the
   tests give the same results under the intended reading of `char`.
   */
  lemma TestsAgreeWithIntended()
    ensures MatchCharIntended("()", '(', LBrace) == MatchLBrace("()")
    ensures MatchCharIntended("))", ')', RBrace) == MatchRBrace("))")
    ensures MatchCharIntended("+", '+', Plus) == MatchPlus("+")
    ensures MatchCharIntended("+ 1 2", '+', Plus) == MatchPlus("+ 1 2")
    ensures MatchCharIntended("-", '-', Minus) == MatchMinus("-")
    ensures MatchCharIntended("- 1 2", '-', Minus) == MatchMinus("- 1 2")
    ensures MatchCharIntended("*", '*', Asterisk) == MatchAsterisk("*")
    ensures MatchCharIntended("* 1 2", '*', Asterisk) == MatchAsterisk("* 1 2")
    ensures MatchCharIntended("/", '/', Slash) == MatchSlash("/")
    ensures MatchCharIntended("/ 1 2", '/', Slash) == MatchSlash("/ 1 2")
  {
  }

  /** A sign is never folded into a number: it is an operator, then a number. */
  lemma SignIsSeparateToken()
    ensures MatchNumber("-5") == None
    ensures MatchMinus("-5") == Some(Lexed(Minus, "5"))
    ensures MatchNumber("5") == Some(Lexed(Number(5), ""))
  {
    assert AllDigits("5") && DecimalValue("5") == 5 by {
      assert "5"[..0] == [];
    }
    MatchNumberSplit("5", "");
    assert "5" + "" == "5";
  }

  /** The edge of the `i32` range. */
  lemma NumberI32Bounds()
    ensures MatchNumber("2147483647") == Some(Lexed(Number(0x7FFF_FFFF), ""))
    ensures MatchNumber("2147483648") == None
  {
    DecimalValueAtI32Max();
    MatchNumberSplit("2147483647", "");
    MatchNumberSplit("2147483648", "");
    assert "2147483647" + "" == "2147483647";
    assert "2147483648" + "" == "2147483648";
  }
}
