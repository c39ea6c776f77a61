/**
 * The recursive arithmetic-expression evaluator of dojos/calc_express/impl.cpp.
 *
 * `calc_express` rejects a text that holds nothing but whitespace, then hands the
 * ORIGINAL text to `calc_express_impl`, which splits at the first `+` or `-` and
 * recurses on both halves; without such a character it reads a leading number with
 * `strtod` and accepts nothing after it but the end of the text, or `*` / `/`
 * followed by a text that it evaluates recursively.
 *
 * Numbers are exact reals. `strtod` is modelled as a decimal lexer (whitespace,
 * a digit run, an optional fraction, an optional unsigned exponent); a division by
 * a zero value, which yields an infinity or NaN in the source, is the separate
 * outcome DivisionByZero.
 */
module CalcExpress {

  /** The three `std::runtime_error` messages of the source, and the division by zero. */
  datatype Error = EmptyExpression | BadNumber | InvalidOp | DivisionByZero

  datatype Result<T> = Ok(value: T) | Err(error: Error)

  /** What `parse_number` returns: the number read and the text after it. */
  datatype Lexeme = Lexeme(value: real, rest: string)

  // ---------------------------------------------------------------------------
  // Character classes
  // ---------------------------------------------------------------------------

  /** `std::isspace` in the C locale. */
  predicate IsSpace(c: char) {
    c == ' ' || c == '\t' || c == '\n' || c == '\U{000B}' || c == '\U{000C}' || c == '\r'
  }

  predicate IsDigit(c: char) {
    '0' <= c <= '9'
  }

  /** The characters `calc_express_impl` splits at. */
  predicate IsAddOp(c: char) {
    c == '+' || c == '-'
  }

  predicate AllSpace(s: string) {
    forall i :: 0 <= i < |s| ==> IsSpace(s[i])
  }

  predicate NoAddOp(s: string) {
    forall i :: 0 <= i < |s| ==> !IsAddOp(s[i])
  }

  lemma DigitsHaveNoAddOp(d: string)
    requires forall i :: 0 <= i < |d| ==> IsDigit(d[i])
    ensures NoAddOp(d)
  {
    forall i | 0 <= i < |d| ensures !IsAddOp(d[i]) {
      assert IsDigit(d[i]);
    }
  }

  lemma NoAddOpAppend(a: string, b: string)
    requires NoAddOp(a) && NoAddOp(b)
    ensures NoAddOp(a + b)
  {
    forall i | 0 <= i < |a + b| ensures !IsAddOp((a + b)[i]) {
      if i < |a| { assert (a + b)[i] == a[i]; } else { assert (a + b)[i] == b[i - |a|]; }
    }
  }

  // ---------------------------------------------------------------------------
  // remove_white_spaces
  // ---------------------------------------------------------------------------

  /** The characters of `s` that are not whitespace, in their original order. */
  function NonSpace(s: string): (r: string)
    ensures |r| <= |s|
  {
    if s == [] then []
    else if IsSpace(s[0]) then NonSpace(s[1..])
    else [s[0]] + NonSpace(s[1..])
  }

  /** Nothing that is left is whitespace, and nothing is left exactly when all was whitespace. */
  lemma {:induction false} NonSpaceDropsSpaces(s: string)
    ensures forall i :: 0 <= i < |NonSpace(s)| ==> !IsSpace(NonSpace(s)[i])
    ensures NonSpace(s) == [] <==> AllSpace(s)
  {
    if s != [] {
      NonSpaceDropsSpaces(s[1..]);
      if IsSpace(s[0]) {
        if AllSpace(s[1..]) {
          forall i | 0 <= i < |s| ensures IsSpace(s[i]) {
            if i > 0 { assert s[i] == s[1..][i - 1]; }
          }
        }
      }
    }
  }

  /** Filtering a concatenation filters each part and keeps them in order. */
  lemma {:induction false} NonSpaceAppend(a: string, b: string)
    ensures NonSpace(a + b) == NonSpace(a) + NonSpace(b)
  {
    if a == [] {
      assert a + b == b;
    } else {
      assert (a + b)[0] == a[0];
      assert (a + b)[1..] == a[1..] + b;
      NonSpaceAppend(a[1..], b);
    }
  }

  /** A text without whitespace is left as it is. */
  lemma {:induction false} NonSpaceKeepsText(s: string)
    requires forall i :: 0 <= i < |s| ==> !IsSpace(s[i])
    ensures NonSpace(s) == s
  {
    if s != [] {
      NonSpaceKeepsText(s[1..]);
    }
  }

  /** Removing whitespace twice is the same as removing it once. */
  lemma NonSpaceIdempotent(s: string)
    ensures NonSpace(NonSpace(s)) == NonSpace(s)
  {
    NonSpaceDropsSpaces(s);
    NonSpaceKeepsText(NonSpace(s));
  }

  /**
   * `remove_white_spaces`: copies the text into a buffer, compacts the buffer in
   * place as `std::remove_if` does (a read index and a write index), and keeps the
   * part before the new end, as the `erase` does.
   */
  method RemoveWhiteSpaces(expression: string) returns (r: string)
    ensures r == NonSpace(expression)
  {
    var buffer := new char[|expression|](i requires 0 <= i < |expression| => expression[i]);
    var newEnd := 0;
    for i := 0 to buffer.Length
      invariant newEnd <= i
      invariant buffer[..newEnd] == NonSpace(expression[..i])
      invariant forall j :: i <= j < buffer.Length ==> buffer[j] == expression[j]
    {
      var c := buffer[i];
      NonSpacePrefixStep(expression, i);
      if !IsSpace(c) {
        ghost var kept := buffer[..newEnd];
        buffer[newEnd] := c;
        newEnd := newEnd + 1;
        assert buffer[..newEnd] == kept + [c];
      }
    }
    assert expression[..buffer.Length] == expression;
    r := buffer[..newEnd];
  }

  /** Filtering one more character of a prefix appends it, unless it is whitespace. */
  lemma NonSpacePrefixStep(s: string, i: nat)
    requires i < |s|
    ensures NonSpace(s[..i + 1]) == NonSpace(s[..i]) + (if IsSpace(s[i]) then [] else [s[i]])
  {
    NonSpaceAppend(s[..i], [s[i]]);
    assert s[..i + 1] == s[..i] + [s[i]];
  }

  // ---------------------------------------------------------------------------
  // parse_number: strtod on a C string
  // ---------------------------------------------------------------------------

  /** The leading whitespace `strtod` skips. */
  function SkipSpaces(s: string): (r: string)
    ensures |r| <= |s|
    ensures r == [] || !IsSpace(r[0])
  {
    if s != [] && IsSpace(s[0]) then SkipSpaces(s[1..]) else s
  }

  /** What `strtod` skips is whitespace only, and it resumes right after it. */
  lemma {:induction false} SkipSpacesSkipsOnlySpaces(s: string)
    ensures SkipSpaces(s) == s[|s| - |SkipSpaces(s)|..]
    ensures AllSpace(s[..|s| - |SkipSpaces(s)|])
  {
    if s != [] && IsSpace(s[0]) {
      SkipSpacesSkipsOnlySpaces(s[1..]);
      var k := |s| - |SkipSpaces(s)|;
      assert s[1..][k - 1..] == s[k..];
      assert s[..k] == [s[0]] + s[1..][..k - 1];
    }
  }

  /** The length of the longest run of decimal digits at the front of `s`. */
  function DigitRun(s: string): (n: nat)
    ensures n <= |s|
    ensures forall i :: 0 <= i < n ==> IsDigit(s[i])
    ensures n == |s| || !IsDigit(s[n])
  {
    if s != [] && IsDigit(s[0]) then 1 + DigitRun(s[1..]) else 0
  }

  /** The value of a run of decimal digits, most significant first. */
  function DigitsValue(d: string): nat
    requires forall i :: 0 <= i < |d| ==> IsDigit(d[i])
  {
    if d == [] then 0
    else
      var last := d[|d| - 1];
      assert IsDigit(last);
      DigitsValue(d[..|d| - 1]) * 10 + (last as int - '0' as int)
  }

  function Pow10(k: nat): (p: nat)
    ensures p >= 1
  {
    if k == 0 then 1 else 10 * Pow10(k - 1)
  }

  /** The value of the numeral `whole.fraction` whose fraction part has `k` digits. */
  function DecimalValue(whole: nat, fraction: nat, k: nat): (v: real)
    ensures whole as real <= v
  {
    var scale := Pow10(k) as real;
    assert 0.0 <= fraction as real / scale;
    whole as real + Quotient(fraction as real, scale)
  }

  /**
   * The text a C-string view of `s` sees: `std::string{next_end}` copies up to,
   * not including, the first NUL character.
   */
  function CString(s: string): (r: string)
    ensures |r| <= |s|
    ensures '\0' !in r
  {
    if s == [] || s[0] == '\0' then [] else [s[0]] + CString(s[1..])
  }

  /** The C string is the part of the text before the first NUL, or all of it. */
  lemma {:induction false} CStringIsPrefix(s: string)
    ensures CString(s) <= s
    ensures |CString(s)| < |s| ==> s[|CString(s)|] == '\0'
  {
    if s != [] && s[0] != '\0' {
      CStringIsPrefix(s[1..]);
    }
  }

  /** `t` begins with something `strtod` reads as a decimal number. */
  predicate StartsNumeral(t: string) {
    |t| > 0 && (IsDigit(t[0]) || (t[0] == '.' && |t| > 1 && IsDigit(t[1])))
  }

  /**
   * The number `strtod` reads at the very front of `t`: a digit run, optionally a
   * `.` and a second digit run, with at least one digit in all; the text after it
   * is returned as the C string `std::string{next_end}` builds.
   */
  function ReadNumeral(t: string): (r: Result<Lexeme>)
    ensures r.Ok? <==> StartsNumeral(t)
    ensures r.Err? ==> r.error == BadNumber
    ensures r.Ok? ==> r.value.value >= 0.0
    ensures r.Ok? ==> |r.value.rest| < |t| && '\0' !in r.value.rest
  {
    var i := DigitRun(t);
    if i < |t| && t[i] == '.' then
      var fraction := t[i + 1..];
      var j := DigitRun(fraction);
      if i + j == 0 then Err(BadNumber)
      else
        var value := DecimalValue(DigitsValue(t[..i]), DigitsValue(fraction[..j]), j);
        Ok(ReadExponent(value, fraction[j..]))
    else if i == 0 then Err(BadNumber)
    else Ok(ReadExponent(DigitsValue(t[..i]) as real, t[i..]))
  }

  /**
   * A character `strtod` could read as part of a number right after a numeral: a
   * digit, the point, the exponent mark, or the `x` of a hexadecimal prefix.
   */
  predicate ContinuesNumeral(c: char) {
    IsDigit(c) || c == '.' || c == 'e' || c == 'E' || c == 'x' || c == 'X'
  }

  /**
   * A character that can begin a number for `strtod`: a digit, the point, or the
   * first letter of the spellings of infinity and NaN, which this model does not read.
   */
  predicate StartsNumberOrSpecial(c: char) {
    IsDigit(c) || c == '.' || c == 'i' || c == 'I' || c == 'n' || c == 'N'
  }

  /** `s` begins with an exponent part: `e` or `E` and a digit. */
  predicate StartsExponent(s: string) {
    |s| > 1 && (s[0] == 'e' || s[0] == 'E') && IsDigit(s[1])
  }

  /**
   * The optional exponent after the mantissa, `e` or `E` and a digit run, which
   * scales the mantissa by that power of ten. A sign after the `e` is not read:
   * the evaluator only parses texts without `+` and `-`.
   */
  function ReadExponent(mantissa: real, s: string): (l: Lexeme)
    requires mantissa >= 0.0
    ensures l.value >= 0.0
    ensures |l.rest| <= |s| && '\0' !in l.rest
    ensures !StartsExponent(s) ==> l == Lexeme(mantissa, CString(s))
  {
    if StartsExponent(s) then
      var digits := s[1..];
      var k := DigitRun(digits);
      var scale := Pow10(DigitsValue(digits[..k])) as real;
      assert mantissa * scale >= 0.0;
      Lexeme(Product(mantissa, scale), CString(digits[k..]))
    else Lexeme(mantissa, CString(s))
  }

  /**
   * `parse_number`: `strtod` skips leading whitespace, then reads a number; when
   * it consumed nothing the result is BadNumber.
   */
  function ParseNumber(s: string): (r: Result<Lexeme>)
    ensures r.Ok? <==> StartsNumeral(SkipSpaces(s))
    ensures r.Err? ==> r.error == BadNumber
    ensures r.Ok? ==> r.value.value >= 0.0
    ensures r.Ok? ==> |r.value.rest| < |s| && '\0' !in r.value.rest
  {
    ReadNumeral(SkipSpaces(s))
  }

  // ---------------------------------------------------------------------------
  // calc_express_impl and calc_express
  // ---------------------------------------------------------------------------

  /** The position of the first `+` or `-`, or the length when there is none. */
  function FirstAddOp(e: string): (k: nat)
    ensures k <= |e|
    ensures k < |e| ==> IsAddOp(e[k])
    ensures NoAddOp(e[..k])
  {
    if e == [] || IsAddOp(e[0]) then 0
    else
      var k := 1 + FirstAddOp(e[1..]);
      assert e[..k] == [e[0]] + e[1..][..k - 1];
      k
  }

  /** An error the source throws, as opposed to a division by zero, which it does not. */
  predicate Thrown(r: Result<real>) {
    r.Err? && r.error != DivisionByZero
  }

  /**
   * `calc_impl(left) op calc_impl(right)`. C++ leaves the order in which the two
   * operands are evaluated unspecified; when both throw, the left error is kept.
   * A division by zero throws nothing in the source, so it never hides an error
   * that the other operand throws.
   */
  function Combine(op: char, left: Result<real>, right: Result<real>): (r: Result<real>)
    ensures r.Ok? <==> left.Ok? && right.Ok?
    ensures r.Err? ==> r == left || r == right
    ensures Thrown(r) <==> Thrown(left) || Thrown(right)
    ensures Thrown(left) ==> r == left
  {
    if Thrown(left) then left
    else if right.Err? then right
    else if left.Err? then left
    else if op == '+' then Ok(left.value + right.value)
    else Ok(left.value - right.value)
  }

  /**
   * The product and the quotient the source computes in `double`, exact here.
   * (Named, so that the solver compares them as terms.)
   */
  function Product(a: real, b: real): real {
    a * b
  }

  function Quotient(a: real, b: real): real
    requires b != 0.0
  {
    a / b
  }

  /** `num * calc_impl(rest)` or `num / calc_impl(rest)`. */
  function Scale(op: char, num: real, right: Result<real>): (r: Result<real>)
    ensures right.Err? ==> r == right
    ensures r.Ok? <==> right.Ok? && (op == '*' || right.value != 0.0)
    ensures right.Ok? && r.Err? ==> op != '*' && right.value == 0.0 && r.error == DivisionByZero
  {
    if right.Err? then right
    else if op == '*' then Ok(Product(num, right.value))
    else if right.value == 0.0 then Err(DivisionByZero)
    else Ok(Quotient(num, right.value))
  }

  /**
   * `calc_express_impl`. Every recursive call is on a strictly shorter text: the
   * two sides of the operator, or what follows the operator after the number.
   */
  function Eval(e: string): (r: Result<real>)
    ensures r.Err? ==> r.error != EmptyExpression
    decreases |e|
  {
    var k := FirstAddOp(e);
    if k < |e| then
      Combine(e[k], Eval(e[..k]), Eval(e[k + 1..]))
    else
      match ParseNumber(e)
      case Err(err) => Err(err)
      case Ok(Lexeme(num, rest)) =>
        if rest == [] then Ok(num)
        else if rest[0] == '*' || rest[0] == '/' then Scale(rest[0], num, Eval(rest[1..]))
        else Err(InvalidOp)
  }

  /**
   * `calc_express`: whitespace is removed only to decide whether the text is
   * empty; the original text is evaluated.
   */
  function CalcExpress(input: string): (r: Result<real>)
    ensures r == Err(EmptyExpression) <==> AllSpace(input)
  {
    NonSpaceDropsSpaces(input);
    if NonSpace(input) == [] then Err(EmptyExpression) else Eval(input)
  }

  // ---------------------------------------------------------------------------
  // Properties of the evaluator on arbitrary texts
  // ---------------------------------------------------------------------------

  /** `strtod` skips whitespace up to the first character that is not. */
  lemma {:induction false} SkipSpacesPrefix(ws: string, t: string)
    requires AllSpace(ws)
    requires t == [] || !IsSpace(t[0])
    ensures SkipSpaces(ws + t) == t
  {
    if ws == [] {
      assert ws + t == t;
    } else {
      assert (ws + t)[0] == ws[0];
      assert (ws + t)[1..] == ws[1..] + t;
      SkipSpacesPrefix(ws[1..], t);
    }
  }

  /** A C string without NUL is copied whole. */
  lemma CStringWhole(s: string)
    requires '\0' !in s
    ensures CString(s) == s
  {
    CStringIsPrefix(s);
  }

  /** A text starting with the character `c`, which is not NUL, keeps `c` first. */
  lemma CStringHead(c: char, t: string)
    requires c != '\0'
    ensures CString([c] + t) == [c] + CString(t)
  {
  }

  /** If the text does not start (after whitespace) with a number, the result is BadNumber. */
  lemma NoNumberFails(ws: string, c: char, t: string)
    requires AllSpace(ws)
    requires !IsSpace(c) && !IsAddOp(c) && !StartsNumberOrSpecial(c)
    requires NoAddOp(t)
    ensures CalcExpress(ws + [c] + t) == Err(BadNumber)
  {
    var s := ws + [c] + t;
    assert s[|ws|] == c;
    SkipSpacesPrefix(ws, [c] + t);
    assert ws + ([c] + t) == s;
    assert NoAddOp(s) by {
      forall i | 0 <= i < |s| ensures !IsAddOp(s[i]) {
        if i < |ws| { assert s[i] == ws[i]; } else if i > |ws| { assert s[i] == t[i - |ws| - 1]; }
      }
    }
    assert FirstAddOp(s) == |s|;
  }

  /** A text that starts with `+` or `-` has an empty left operand: BadNumber. */
  lemma LeadingSignFails(op: char, t: string)
    requires IsAddOp(op)
    ensures Eval([op] + t) == Err(BadNumber)
    ensures CalcExpress([op] + t) == Err(BadNumber)
  {
    var s := [op] + t;
    assert FirstAddOp(s) == 0;
    assert s[..0] == [];
    assert Eval([]) == Err(BadNumber);
    assert !AllSpace(s) by { assert !IsSpace(s[0]); }
  }

  /** If the text has a `+` or `-`, it is split at the first one. */
  lemma EvalSplit(left: string, op: char, right: string)
    requires NoAddOp(left) && IsAddOp(op)
    ensures Eval(left + [op] + right) == Combine(op, Eval(left), Eval(right))
  {
    var e := left + [op] + right;
    var k := FirstAddOp(e);
    assert e[|left|] == op;
    assert e[..|left|] == left;
    assert k == |left|;
    assert e[..k] == left;
    assert e[k + 1..] == right;
  }

  // ---------------------------------------------------------------------------
  // Decimal numerals and the texts built from them
  // ---------------------------------------------------------------------------

  function DigitChar(d: nat): (c: char)
    requires d < 10
    ensures IsDigit(c) && c as int - '0' as int == d
  {
    ('0' as int + d) as char
  }

  /** The decimal numeral of `n`, most significant digit first. */
  function Show(n: nat): (s: string)
    ensures |s| > 0
    ensures forall i :: 0 <= i < |s| ==> IsDigit(s[i])
    ensures DigitsValue(s) == n
  {
    if n < 10 then [DigitChar(n)]
    else
      var s := Show(n / 10) + [DigitChar(n % 10)];
      assert s[..|s| - 1] == Show(n / 10);
      s
  }

  /** The digit run of a numeral followed by a non-digit is the whole numeral. */
  lemma {:induction false} DigitRunOfNumeral(d: string, tail: string)
    requires forall i :: 0 <= i < |d| ==> IsDigit(d[i])
    requires tail == [] || !IsDigit(tail[0])
    ensures DigitRun(d + tail) == |d|
  {
    if d == [] {
      assert d + tail == tail;
    } else {
      assert (d + tail)[0] == d[0];
      assert (d + tail)[1..] == d[1..] + tail;
      DigitRunOfNumeral(d[1..], tail);
    }
  }

  /** `strtod` reads back the numeral of `n`, up to the first character that cannot continue it. */
  lemma ReadShow(n: nat, tail: string)
    requires tail == [] || !ContinuesNumeral(tail[0])
    ensures ReadNumeral(Show(n) + tail) == Ok(Lexeme(n as real, CString(tail)))
  {
    var digits := Show(n);
    var t := digits + tail;
    DigitRunOfNumeral(digits, tail);
    assert t[..|digits|] == digits;
    assert t[|digits|..] == tail;
  }

  /** `strtod` reads `n e k` as n times ten to the k. */
  lemma ReadExponentShow(n: nat, k: nat)
    ensures ReadNumeral(Show(n) + ['e'] + Show(k)) == Ok(Lexeme(Product(n as real, Pow10(k) as real), []))
  {
    var mantissa := Show(n);
    var exponent := ['e'] + Show(k);
    var t := mantissa + exponent;
    assert t == Show(n) + ['e'] + Show(k);
    DigitRunOfNumeral(mantissa, exponent);
    assert t[..|mantissa|] == mantissa;
    assert t[|mantissa|..] == exponent;
    assert StartsExponent(exponent);
    DigitRunOfNumeral(Show(k), []);
    assert Show(k) + [] == Show(k);
    assert exponent[1..] == Show(k);
    assert Show(k)[..|Show(k)|] == Show(k);
    assert Show(k)[|Show(k)|..] == [];
  }

  /** A number with an exponent, alone, evaluates to its value. */
  lemma ExponentAlone(n: nat, k: nat)
    ensures CalcExpress(Show(n) + ['e'] + Show(k)) == Ok(Product(n as real, Pow10(k) as real))
  {
    var t := Show(n) + ['e'] + Show(k);
    var v := Product(n as real, Pow10(k) as real);
    assert ParseNumber(t) == Ok(Lexeme(v, [])) by {
      ReadExponentShow(n, k);
      assert SkipSpaces(t) == t by {
        assert t[0] == Show(n)[0];
      }
    }
    assert NoAddOp(t) by {
      DigitsHaveNoAddOp(Show(k));
      NumeralThenNoAddOp(n, 'e', Show(k));
    }
    assert Eval(t) == Ok(v) by {
      EvalAfterNumber(t, v, []);
    }
    assert !AllSpace(t) by {
      assert t[0] == Show(n)[0];
    }
  }

  /** `strtod` reads `w.d` as w plus the digits of d over the matching power of ten. */
  lemma ReadFractionShow(w: nat, d: string, tail: string)
    requires forall i :: 0 <= i < |d| ==> IsDigit(d[i])
    requires tail == [] || (!IsDigit(tail[0]) && tail[0] != 'e' && tail[0] != 'E')
    ensures ReadNumeral(Show(w) + ['.'] + d + tail)
         == Ok(Lexeme(w as real + Quotient(DigitsValue(d) as real, Pow10(|d|) as real), CString(tail)))
  {
    var v := DecimalValue(w, DigitsValue(d), |d|);
    var r := ReadNumeral(Show(w) + ['.'] + d + tail);
    FractionOfShow(w, d, tail);
    assert r == Ok(Lexeme(v, CString(tail)));
    DecimalValueSplits(w, DigitsValue(d), |d|);
    assert v == w as real + Quotient(DigitsValue(d) as real, Pow10(|d|) as real);
  }

  /** The same, with the value left as `DecimalValue`. */
  lemma FractionOfShow(w: nat, d: string, tail: string)
    requires forall i :: 0 <= i < |d| ==> IsDigit(d[i])
    requires tail == [] || (!IsDigit(tail[0]) && tail[0] != 'e' && tail[0] != 'E')
    ensures ReadNumeral(Show(w) + ['.'] + d + tail) == Ok(Lexeme(DecimalValue(w, DigitsValue(d), |d|), CString(tail)))
  {
    FractionLexes(Show(w), d, tail);
    NoExponentAfter(DecimalValue(w, DigitsValue(d), |d|), tail);
  }

  /** `DecimalValue` spelled out: the whole part plus the fraction digits over the matching power of ten. */
  lemma DecimalValueSplits(whole: nat, fraction: nat, k: nat)
    ensures DecimalValue(whole, fraction, k) == whole as real + Quotient(fraction as real, Pow10(k) as real)
  {
  }

  /** A numeral `a.d tail` goes through the fraction branch with `a` whole and `d` the fraction. */
  lemma FractionLexes(a: string, d: string, tail: string)
    requires forall i :: 0 <= i < |a| ==> IsDigit(a[i])
    requires forall i :: 0 <= i < |d| ==> IsDigit(d[i])
    requires |a| + |d| > 0
    requires tail == [] || !IsDigit(tail[0])
    ensures ReadNumeral(a + ['.'] + d + tail)
         == Ok(ReadExponent(DecimalValue(DigitsValue(a), DigitsValue(d), |d|), tail))
  {
    FractionSplit(a, d, tail);
    ReadNumeralFraction(a + ['.'] + d + tail, |a|, |d|);
  }

  /** How the lexer cuts `a.d tail`: the digit run `a`, the point, the digit run `d`, then `tail`. */
  lemma FractionSplit(a: string, d: string, tail: string)
    requires forall i :: 0 <= i < |a| ==> IsDigit(a[i])
    requires forall i :: 0 <= i < |d| ==> IsDigit(d[i])
    requires tail == [] || !IsDigit(tail[0])
    ensures var t := a + ['.'] + d + tail;
      DigitRun(t) == |a| && t[..|a|] == a && t[|a|] == '.'
      && DigitRun(t[|a| + 1..]) == |d| && t[|a| + 1..][..|d|] == d && t[|a| + 1..][|d|..] == tail
  {
    var t := a + ['.'] + d + tail;
    assert DigitRun(t) == |a| && t[..|a|] == a && t[|a|] == '.' by {
      assert t == a + (['.'] + d + tail);
      DigitRunOfNumeral(a, ['.'] + d + tail);
    }
    AfterPoint(a, d, tail);
    FractionRest(t, |a|, d, tail);
  }

  /** Without an exponent after it, the mantissa is the value and the lexeme ends there. */
  lemma NoExponentAfter(v: real, tail: string)
    requires v >= 0.0
    requires tail == [] || (tail[0] != 'e' && tail[0] != 'E')
    ensures ReadExponent(v, tail) == Lexeme(v, CString(tail))
  {
    assert !StartsExponent(tail);
  }

  /** The fraction branch of the lexer, as it unfolds. */
  lemma ReadNumeralFraction(t: string, i: nat, j: nat)
    requires DigitRun(t) == i && i < |t| && t[i] == '.'
    requires DigitRun(t[i + 1..]) == j && i + j > 0
    ensures ReadNumeral(t)
         == Ok(ReadExponent(DecimalValue(DigitsValue(t[..i]), DigitsValue(t[i + 1..][..j]), j), t[i + 1..][j..]))
  {
  }

  /** What follows the point in `a.d tail`. */
  lemma AfterPoint(a: string, d: string, tail: string)
    ensures (a + ['.'] + d + tail)[|a| + 1..] == d + tail
  {
    var t := a + ['.'] + d + tail;
    assert t == (a + ['.']) + (d + tail);
  }

  /** After the point at `i`, the digits `d` are the fraction and `tail` is what remains. */
  lemma FractionRest(t: string, i: nat, d: string, tail: string)
    requires forall k :: 0 <= k < |d| ==> IsDigit(d[k])
    requires tail == [] || !IsDigit(tail[0])
    requires i < |t| && t[i + 1..] == d + tail
    ensures DigitRun(t[i + 1..]) == |d|
    ensures t[i + 1..][..|d|] == d && t[i + 1..][|d|..] == tail
  {
    DigitRunOfNumeral(d, tail);
  }

  /** `strtod` reads `.d`, with at least one digit, as the digits of d over the matching power of ten. */
  lemma ReadBareFraction(d: string, tail: string)
    requires |d| > 0 && forall i :: 0 <= i < |d| ==> IsDigit(d[i])
    requires tail == [] || (!IsDigit(tail[0]) && tail[0] != 'e' && tail[0] != 'E')
    ensures ReadNumeral(['.'] + d + tail)
         == Ok(Lexeme(0.0 + Quotient(DigitsValue(d) as real, Pow10(|d|) as real), CString(tail)))
  {
    assert ['.'] + d + tail == [] + ['.'] + d + tail;
    FractionLexes([], d, tail);
    assert DigitsValue([]) == 0;
    NoExponentAfter(DecimalValue(0, DigitsValue(d), |d|), tail);
  }

  /** `parse_number` reads back the numeral of `n` after any whitespace. */
  lemma ParseShow(ws: string, n: nat, tail: string)
    requires AllSpace(ws)
    requires tail == [] || !ContinuesNumeral(tail[0])
    ensures ParseNumber(ws + Show(n) + tail) == Ok(Lexeme(n as real, CString(tail)))
  {
    var t := Show(n) + tail;
    assert ws + Show(n) + tail == ws + t;
    SkipSpacesPrefix(ws, t);
    ReadShow(n, tail);
  }

  /** `parse_number` reads `w.d` after any whitespace as w plus the digits of d over the matching power of ten. */
  lemma ParseFractionShow(ws: string, w: nat, d: string, tail: string)
    requires AllSpace(ws)
    requires forall i :: 0 <= i < |d| ==> IsDigit(d[i])
    requires tail == [] || (!IsDigit(tail[0]) && tail[0] != 'e' && tail[0] != 'E')
    ensures ParseNumber(ws + (Show(w) + ['.'] + d + tail))
         == Ok(Lexeme(w as real + Quotient(DigitsValue(d) as real, Pow10(|d|) as real), CString(tail)))
  {
    var t := Show(w) + ['.'] + d + tail;
    var v := DecimalValue(w, DigitsValue(d), |d|);
    var r := ParseNumber(ws + t);
    assert t[0] == Show(w)[0];
    SkipSpacesPrefix(ws, t);
    FractionOfShow(w, d, tail);
    assert r == Ok(Lexeme(v, CString(tail)));
    DecimalValueSplits(w, DigitsValue(d), |d|);
  }

  /** A numeral with a fraction, alone, evaluates to its value. */
  lemma FractionAlone(w: nat, d: string)
    requires forall i :: 0 <= i < |d| ==> IsDigit(d[i])
    ensures Eval(Show(w) + ['.'] + d) == Ok(w as real + Quotient(DigitsValue(d) as real, Pow10(|d|) as real))
  {
    var v := DecimalValue(w, DigitsValue(d), |d|);
    var e := Eval(Show(w) + ['.'] + d);
    EvalFractionOfShow(w, d);
    assert e == Ok(v);
    DecimalValueSplits(w, DigitsValue(d), |d|);
    assert v == w as real + Quotient(DigitsValue(d) as real, Pow10(|d|) as real);
  }

  /** The same, with the value left as `DecimalValue`. */
  lemma EvalFractionOfShow(w: nat, d: string)
    requires forall i :: 0 <= i < |d| ==> IsDigit(d[i])
    ensures Eval(Show(w) + ['.'] + d) == Ok(DecimalValue(w, DigitsValue(d), |d|))
  {
    var t := Show(w) + ['.'] + d;
    var v := DecimalValue(w, DigitsValue(d), |d|);
    assert ParseNumber(t) == Ok(Lexeme(v, [])) by {
      assert t[0] == Show(w)[0];
      SkipSpacesPrefix([], t);
      assert [] + t == t && t + [] == t;
      FractionOfShow(w, d, []);
      assert CString([]) == [];
    }
    assert NoAddOp(t) by {
      DigitsHaveNoAddOp(Show(w));
      DigitsHaveNoAddOp(d);
      NoAddOpAppend(Show(w), ['.']);
      NoAddOpAppend(Show(w) + ['.'], d);
    }
    EvalAfterNumber(t, v, []);
  }

  /** `parse_number` reads back the numeral of `n` at the front of the text. */
  lemma ParseShowAtFront(n: nat, tail: string)
    requires tail == [] || !ContinuesNumeral(tail[0])
    ensures ParseNumber(Show(n) + tail) == Ok(Lexeme(n as real, CString(tail)))
  {
    var t := Show(n) + tail;
    assert SkipSpaces(t) == t;
    ReadShow(n, tail);
  }

  /** The numeral of `n` alone evaluates to `n`. */
  lemma EvalShow(n: nat)
    ensures Eval(Show(n)) == Ok(n as real)
  {
    ParseShowAtFront(n, []);
    assert Show(n) + [] == Show(n);
    DigitsHaveNoAddOp(Show(n));
    EvalAfterNumber(Show(n), n as real, []);
  }

  /** Text that is one numeral, after any whitespace, evaluates to its value. */
  lemma NumberAlone(ws: string, n: nat)
    requires AllSpace(ws)
    ensures Eval(ws + Show(n)) == Ok(n as real)
    ensures CalcExpress(ws + Show(n)) == Ok(n as real)
  {
    var s := ws + Show(n);
    ParseShow(ws, n, []);
    assert ws + Show(n) + [] == s;
    NoAddOpAppend(ws, Show(n));
    assert FirstAddOp(s) == |s|;
    assert ParseNumber(s) == Ok(Lexeme(n as real, []));
    assert s[|ws|] == Show(n)[0];
  }

  /** A numeral followed by any character other than an operator (or NUL) is InvalidOp. */
  lemma GarbageAfterNumber(ws: string, n: nat, c: char, t: string)
    requires AllSpace(ws)
    requires !ContinuesNumeral(c) && c != '*' && c != '/' && !IsAddOp(c) && c != '\0'
    requires NoAddOp(t)
    ensures Eval(ws + Show(n) + [c] + t) == Err(InvalidOp)
    ensures CalcExpress(ws + Show(n) + [c] + t) == Err(InvalidOp)
  {
    var s := ws + Show(n) + [c] + t;
    ParseNumeralThenChar(ws, n, c, t);
    SpacedNumeralNoAddOp(ws, n, c, t);
    EvalAfterNumber(s, n as real, [c] + CString(t));
    assert s[|ws|] == Show(n)[0];
  }

  lemma ParseNumeralThenChar(ws: string, n: nat, c: char, t: string)
    requires AllSpace(ws)
    requires !ContinuesNumeral(c) && c != '\0'
    ensures ParseNumber(ws + Show(n) + [c] + t) == Ok(Lexeme(n as real, [c] + CString(t)))
  {
    ParseShow(ws, n, [c] + t);
    assert ws + Show(n) + ([c] + t) == ws + Show(n) + [c] + t;
    CStringHead(c, t);
  }

  lemma SpacedNumeralNoAddOp(ws: string, n: nat, c: char, t: string)
    requires AllSpace(ws)
    requires !IsAddOp(c) && NoAddOp(t)
    ensures NoAddOp(ws + Show(n) + [c] + t)
  {
    assert NoAddOp(ws) by {
      forall i | 0 <= i < |ws| ensures !IsAddOp(ws[i]) {
        assert IsSpace(ws[i]);
      }
    }
    NumeralThenNoAddOp(n, c, t);
    NoAddOpAppend(ws, Show(n) + [c] + t);
    assert ws + (Show(n) + [c] + t) == ws + Show(n) + [c] + t;
  }

  /**
   * The whole text is evaluated, spaces included: in `a + b` the left operand
   * `a ` has a space after its number, which is InvalidOp.
   */
  lemma SpaceBeforeOperatorFails(a: nat, op: char, t: string)
    requires IsAddOp(op)
    ensures CalcExpress(Show(a) + [' '] + [op] + t) == Err(InvalidOp)
  {
    var left := Show(a) + [' '];
    NumeralThenSpace(a);
    EvalSplit(left, op, t);
    assert (left + [op] + t)[0] == Show(a)[0];
  }

  /** A numeral followed by a space has no `+` or `-`, and evaluates to InvalidOp. */
  lemma NumeralThenSpace(a: nat)
    ensures NoAddOp(Show(a) + [' '])
    ensures Eval(Show(a) + [' ']) == Err(InvalidOp)
  {
    assert NoAddOp(Show(a) + [' ']) by {
      DigitsHaveNoAddOp(Show(a));
      NoAddOpAppend(Show(a), [' ']);
    }
    ParseShowAtFront(a, [' ']);
    CStringWhole([' ']);
    EvalAfterNumber(Show(a) + [' '], a as real, [' ']);
  }

  // ---------------------------------------------------------------------------
  // Precedence and associativity, stated against a reference semantics
  // ---------------------------------------------------------------------------

  datatype MulOp = Times | Over
  datatype AddOp = Plus | Minus

  /** A multiplicative chain `n op n op ... n`, grouped to the right. */
  datatype Term = Factor(n: nat) | Scaled(n: nat, op: MulOp, rest: Term)

  /** An additive chain of terms, grouped to the right. */
  datatype Sum = Single(term: Term) | Chain(term: Term, op: AddOp, rest: Sum)

  function MulChar(op: MulOp): char {
    if op == Times then '*' else '/'
  }

  function AddChar(op: AddOp): char {
    if op == Plus then '+' else '-'
  }

  function PrintTerm(t: Term): (s: string)
    ensures |s| > 0 && IsDigit(s[0])
    ensures forall i :: 0 <= i < |s| ==> IsDigit(s[i]) || s[i] == '*' || s[i] == '/'
  {
    match t
    case Factor(n) => Show(n)
    case Scaled(n, op, rest) => Show(n) + [MulChar(op)] + PrintTerm(rest)
  }

  function PrintSum(e: Sum): (s: string)
    ensures |s| > 0 && IsDigit(s[0])
  {
    match e
    case Single(t) => PrintTerm(t)
    case Chain(t, op, rest) => PrintTerm(t) + [AddChar(op)] + PrintSum(rest)
  }

  /** The value of a term; `*` and `/` bind the number to the value of the rest. */
  function TermValue(t: Term): Result<real>
  {
    match t
    case Factor(n) => Ok(n as real)
    case Scaled(n, op, rest) =>
      match TermValue(rest)
      case Err(e) => Err(e)
      case Ok(v) =>
        if op == Times then Ok(Product(n as real, v))
        else if v == 0.0 then Err(DivisionByZero)
        else Ok(Quotient(n as real, v))
  }

  /**
   * The value of a sum: each term against the value of the whole rest of the chain.
   * An error is that of the first term that throws, else a division by zero.
   */
  function SumValue(e: Sum): Result<real>
  {
    match e
    case Single(t) => TermValue(t)
    case Chain(t, op, rest) =>
      var left := TermValue(t);
      var right := SumValue(rest);
      if Thrown(left) then left
      else if right.Err? then right
      else if left.Err? then left
      else if op == Plus then Ok(left.value + right.value)
      else Ok(left.value - right.value)
  }

  /** Without `+` or `-`, what follows the leading number decides the result. */
  lemma EvalAfterNumber(e: string, num: real, rest: string)
    requires NoAddOp(e) && ParseNumber(e) == Ok(Lexeme(num, rest))
    ensures rest == [] ==> Eval(e) == Ok(num)
    ensures rest != [] && (rest[0] == '*' || rest[0] == '/') ==> Eval(e) == Scale(rest[0], num, Eval(rest[1..]))
    ensures rest != [] && rest[0] != '*' && rest[0] != '/' ==> Eval(e) == Err(InvalidOp)
  {
    assert FirstAddOp(e) == |e|;
  }

  /** A numeral followed by a character and a text, none of them `+` or `-`. */
  lemma NumeralThenNoAddOp(n: nat, c: char, t: string)
    requires !IsAddOp(c) && NoAddOp(t)
    ensures NoAddOp(Show(n) + [c] + t)
  {
    DigitsHaveNoAddOp(Show(n));
    assert NoAddOp([c]);
    NoAddOpAppend(Show(n), [c]);
    NoAddOpAppend(Show(n) + [c], t);
  }

  /** A numeral followed by an operator character and a text without `+`, `-` or NUL. */
  lemma ParseNumberThenOperator(n: nat, c: char, t: string)
    requires c == '*' || c == '/'
    requires NoAddOp(t) && '\0' !in t
    ensures NoAddOp(Show(n) + [c] + t)
    ensures ParseNumber(Show(n) + [c] + t) == Ok(Lexeme(n as real, [c] + t))
  {
    var rest := [c] + t;
    ParseShowAtFront(n, rest);
    assert Show(n) + rest == Show(n) + [c] + t;
    CStringWhole(rest);
    NumeralThenNoAddOp(n, c, t);
  }

  /** A numeral followed by `*` or `/` scales the value of the text after the operator. */
  lemma ScaledNumber(n: nat, c: char, t: string)
    requires c == '*' || c == '/'
    requires NoAddOp(t) && '\0' !in t
    ensures Eval(Show(n) + [c] + t) == Scale(c, n as real, Eval(t))
  {
    ParseNumberThenOperator(n, c, t);
    var rest := [c] + t;
    assert rest[0] == c && rest[1..] == t;
    EvalAfterNumber(Show(n) + [c] + t, n as real, rest);
  }

  /** The text of a term has neither `+`, `-` nor NUL in it. */
  lemma PrintTermChars(t: Term)
    ensures NoAddOp(PrintTerm(t)) && '\0' !in PrintTerm(t)
  {
  }

  lemma TermValueScales(n: nat, op: MulOp, rest: Term)
    ensures TermValue(Scaled(n, op, rest)) == Scale(MulChar(op), n as real, TermValue(rest))
  {
    var r := TermValue(rest);
    if r.Ok? {
      if op == Times {
        assert MulChar(op) == '*';
      } else {
        assert MulChar(op) == '/';
      }
    }
  }

  /** A printed multiplicative chain evaluates to the value of the term. */
  lemma {:induction false} EvalPrintTerm(t: Term)
    ensures Eval(PrintTerm(t)) == TermValue(t)
  {
    match t
    case Factor(n) =>
      EvalShow(n);
    case Scaled(n, op, rest) =>
      PrintTermChars(rest);
      ScaledNumber(n, MulChar(op), PrintTerm(rest));
      EvalPrintTerm(rest);
      assert PrintTerm(t) == Show(n) + [MulChar(op)] + PrintTerm(rest);
      TermValueScales(n, op, rest);
  }

  lemma SumValueCombines(t: Term, op: AddOp, rest: Sum)
    ensures SumValue(Chain(t, op, rest)) == Combine(AddChar(op), TermValue(t), SumValue(rest))
  {
    if op == Plus {
      assert AddChar(op) == '+';
    } else {
      assert AddChar(op) == '-';
    }
  }

  /**
   * A printed sum evaluates to the value of the sum: `*` and `/` bind tighter
   * than `+` and `-`, and both kinds of chain group to the right.
   */
  lemma {:induction false} EvalPrintSum(e: Sum)
    ensures Eval(PrintSum(e)) == SumValue(e)
  {
    match e
    case Single(t) =>
      EvalPrintTerm(t);
    case Chain(t, op, rest) =>
      EvalPrintTerm(t);
      EvalPrintSum(rest);
      PrintTermChars(t);
      EvalSplit(PrintTerm(t), AddChar(op), PrintSum(rest));
      SumValueCombines(t, op, rest);
  }

  /** The same holds of `calc_express`, since a printed sum is never blank. */
  lemma CalcPrintSum(e: Sum)
    ensures CalcExpress(PrintSum(e)) == SumValue(e)
  {
    EvalPrintSum(e);
    assert !AllSpace(PrintSum(e)) by { assert !IsSpace(PrintSum(e)[0]); }
  }

  /** Three numerals joined by two operators: `a p b q c`. */
  function Text3(a: nat, p: char, b: nat, q: char, c: nat): string {
    Show(a) + [p] + Show(b) + [q] + Show(c)
  }

  lemma PrintRightNested(a: nat, p: char, b: nat, q: char, c: nat, inner: string)
    requires inner == Show(b) + [q] + Show(c)
    ensures Show(a) + [p] + inner == Text3(a, p, b, q, c)
  {
  }

  lemma SubtractionChain(a: nat, b: nat, c: nat)
    ensures PrintSum(Chain(Factor(a), Minus, Chain(Factor(b), Minus, Single(Factor(c))))) == Text3(a, '-', b, '-', c)
    ensures SumValue(Chain(Factor(a), Minus, Chain(Factor(b), Minus, Single(Factor(c))))) == Ok(a as real - (b as real - c as real))
  {
    var inner := Chain(Factor(b), Minus, Single(Factor(c)));
    assert PrintSum(inner) == Show(b) + ['-'] + Show(c);
    PrintRightNested(a, '-', b, '-', c, PrintSum(inner));
    assert SumValue(inner) == Ok(b as real - c as real);
  }

  /** `a-b-c` is `a-(b-c)`. */
  lemma SubtractionGroupsRight(a: nat, b: nat, c: nat)
    ensures CalcExpress(Show(a) + "-" + Show(b) + "-" + Show(c)) == Ok(a as real - (b as real - c as real))
  {
    SubtractionChain(a, b, c);
    CalcPrintSum(Chain(Factor(a), Minus, Chain(Factor(b), Minus, Single(Factor(c)))));
  }

  lemma DivisionChain(a: nat, b: nat, c: nat)
    requires b > 0 && c > 0
    ensures PrintSum(Single(Scaled(a, Over, Scaled(b, Over, Factor(c))))) == Text3(a, '/', b, '/', c)
    ensures SumValue(Single(Scaled(a, Over, Scaled(b, Over, Factor(c))))) == Ok(a as real / (b as real / c as real))
  {
    var inner := Scaled(b, Over, Factor(c));
    assert PrintTerm(inner) == Show(b) + ['/'] + Show(c);
    PrintRightNested(a, '/', b, '/', c, PrintTerm(inner));
    assert TermValue(inner) == Ok(Quotient(b as real, c as real));
    assert b as real / c as real != 0.0;
  }

  /** `a/b/c` is `a/(b/c)`. */
  lemma DivisionGroupsRight(a: nat, b: nat, c: nat)
    requires b > 0 && c > 0
    ensures CalcExpress(Show(a) + "/" + Show(b) + "/" + Show(c)) == Ok(a as real / (b as real / c as real))
  {
    DivisionChain(a, b, c);
    CalcPrintSum(Single(Scaled(a, Over, Scaled(b, Over, Factor(c)))));
  }

  lemma SumOfProductChain(a: nat, b: nat, c: nat)
    ensures PrintSum(Chain(Factor(a), Plus, Single(Scaled(b, Times, Factor(c))))) == Text3(a, '+', b, '*', c)
    ensures SumValue(Chain(Factor(a), Plus, Single(Scaled(b, Times, Factor(c))))) == Ok(a as real + b as real * c as real)
  {
    var product := Scaled(b, Times, Factor(c));
    assert PrintTerm(product) == Show(b) + ['*'] + Show(c);
    PrintRightNested(a, '+', b, '*', c, PrintTerm(product));
    assert TermValue(product) == Ok(Product(b as real, c as real));
  }

  lemma ProductThenSumChain(a: nat, b: nat, c: nat)
    ensures PrintSum(Chain(Scaled(a, Times, Factor(b)), Plus, Single(Factor(c)))) == Text3(a, '*', b, '+', c)
    ensures SumValue(Chain(Scaled(a, Times, Factor(b)), Plus, Single(Factor(c)))) == Ok(a as real * b as real + c as real)
  {
    var product := Scaled(a, Times, Factor(b));
    assert PrintTerm(product) == Show(a) + ['*'] + Show(b);
    assert TermValue(product) == Ok(Product(a as real, b as real));
  }

  /** `*` binds tighter than `+`, on either side. */
  lemma ProductBindsTighter(a: nat, b: nat, c: nat)
    ensures CalcExpress(Show(a) + "+" + Show(b) + "*" + Show(c)) == Ok(a as real + b as real * c as real)
    ensures CalcExpress(Show(a) + "*" + Show(b) + "+" + Show(c)) == Ok(a as real * b as real + c as real)
  {
    SumOfProductChain(a, b, c);
    CalcPrintSum(Chain(Factor(a), Plus, Single(Scaled(b, Times, Factor(c)))));
    ProductThenSumChain(a, b, c);
    CalcPrintSum(Chain(Scaled(a, Times, Factor(b)), Plus, Single(Factor(c))));
  }

  // ---------------------------------------------------------------------------
  // The cases of the repository's test suite
  // ---------------------------------------------------------------------------

  lemma EmptyExpressionCases()
    ensures CalcExpress("") == Err(EmptyExpression)
    ensures CalcExpress(" ") == Err(EmptyExpression)
    ensures CalcExpress("\t") == Err(EmptyExpression)
  {
  }

  lemma ShowDigits()
    ensures Show(0) == "0" && Show(1) == "1" && Show(2) == "2" && Show(3) == "3" && Show(4) == "4"
  {
  }

  lemma ShowLarger()
    ensures Show(31) == "31"
    ensures Show(123) == "123"
  {
  }

  lemma SimpleIntegerCases()
    ensures CalcExpress("0") == Ok(0.0)
    ensures CalcExpress("31") == Ok(31.0)
    ensures CalcExpress("123") == Ok(123.0)
  {
    assert CalcExpress("0") == Ok(0.0) by {
      NumberAlone([], 0);
      ShowDigits();
      assert [] + Show(0) == "0";
    }
    assert CalcExpress("31") == Ok(31.0) by {
      NumberAlone([], 31);
      ShowLarger();
      assert [] + Show(31) == "31";
    }
    assert CalcExpress("123") == Ok(123.0) by {
      NumberAlone([], 123);
      ShowLarger();
      assert [] + Show(123) == "123";
    }
  }

  lemma InvalidCharacterCases()
    ensures CalcExpress("x") == Err(BadNumber)
    ensures CalcExpress("d") == Err(BadNumber)
  {
    NoNumberFails([], 'x', []);
    NoNumberFails([], 'd', []);
  }

  lemma GarbageAfterNumberCase()
    ensures CalcExpress("123abc") == Err(InvalidOp)
  {
    var text := [] + Show(123) + ['a'] + "bc";
    assert text == "123abc" by {
      ShowLarger();
    }
    assert CalcExpress(text) == Err(InvalidOp) by {
      GarbageAfterNumber([], 123, 'a', "bc");
    }
  }

  /** The test suite expects `+1` to be 1 and `-1` to be -1; the code yields BadNumber. */
  lemma UnarySignCases()
    ensures CalcExpress("+1") == Err(BadNumber)
    ensures CalcExpress("-1") == Err(BadNumber)
  {
    LeadingSignFails('+', "1");
    LeadingSignFails('-', "1");
  }

  /** `a op b` for two one-digit numbers, with its value taken from the reference semantics. */
  lemma TwoDigitsCase(e: Sum, a: nat, op: char, b: nat, text: string, v: real)
    requires a < 10 && b < 10
    requires PrintSum(e) == Show(a) + [op] + Show(b)
    requires text == [DigitChar(a), op, DigitChar(b)]
    requires SumValue(e) == Ok(v)
    ensures CalcExpress(text) == Ok(v)
  {
    CalcPrintSum(e);
    assert PrintSum(e) == text;
  }

  lemma AdditionCase()
    ensures CalcExpress("2+3") == Ok(5.0)
  {
    var e := Chain(Factor(2), Plus, Single(Factor(3)));
    assert PrintSum(e) == Show(2) + ['+'] + Show(3);
    TwoDigitsCase(e, 2, '+', 3, "2+3", 5.0);
  }

  lemma SubtractionCase()
    ensures CalcExpress("2-3") == Ok(-1.0)
  {
    var e := Chain(Factor(2), Minus, Single(Factor(3)));
    assert PrintSum(e) == Show(2) + ['-'] + Show(3);
    TwoDigitsCase(e, 2, '-', 3, "2-3", -1.0);
  }

  lemma MultiplicationCase()
    ensures CalcExpress("2*3") == Ok(6.0)
  {
    var e := Single(Scaled(2, Times, Factor(3)));
    assert PrintSum(e) == Show(2) + ['*'] + Show(3);
    assert SumValue(e) == Ok(Product(2.0, 3.0));
    TwoDigitsCase(e, 2, '*', 3, "2*3", 6.0);
  }

  lemma DivisionCase()
    ensures CalcExpress("2/3") == Ok(2.0 / 3.0)
  {
    var e := Single(Scaled(2, Over, Factor(3)));
    assert PrintSum(e) == Show(2) + ['/'] + Show(3);
    assert SumValue(e) == Ok(Quotient(2.0, 3.0));
    TwoDigitsCase(e, 2, '/', 3, "2/3", 2.0 / 3.0);
  }

  lemma SumFirstPrecedenceCase()
    ensures CalcExpress("2+3*4") == Ok(14.0)
  {
    var text := Show(2) + "+" + Show(3) + "*" + Show(4);
    assert text == "2+3*4" by {
      ShowDigits();
    }
    assert CalcExpress(text) == Ok(14.0) by {
      ProductBindsTighter(2, 3, 4);
    }
  }

  lemma ProductFirstPrecedenceCase()
    ensures CalcExpress("2*3+4") == Ok(10.0)
  {
    var text := Show(2) + "*" + Show(3) + "+" + Show(4);
    assert text == "2*3+4" by {
      ShowDigits();
    }
    assert CalcExpress(text) == Ok(10.0) by {
      ProductBindsTighter(2, 3, 4);
    }
  }

  /**
   * `1/0` throws nothing in the source (it is an infinity), while `x` throws
   * "bad number"; so `1/0-x` throws "bad number" whichever operand runs first.
   */
  lemma ZeroDivisorThenBadOperand()
    ensures CalcExpress("1/0-x") == Err(BadNumber)
  {
    var left := Show(1) + ['/'] + Show(0);
    var text := left + ['-'] + "x";
    assert text == "1/0-x" by {
      ShowDigits();
    }
    assert CalcExpress(text) == Err(BadNumber) by {
      DivideByZeroText();
      BadOperandText();
      EvalSplit(left, '-', "x");
      assert text[0] == Show(1)[0];
    }
  }

  /** `1/0` has no `+` or `-` and is a division by zero. */
  lemma DivideByZeroText()
    ensures NoAddOp(Show(1) + ['/'] + Show(0))
    ensures Eval(Show(1) + ['/'] + Show(0)) == Err(DivisionByZero)
  {
    DigitsHaveNoAddOp(Show(0));
    assert IsDigit(Show(0)[0]);
    ScaledNumber(1, '/', Show(0));
    EvalShow(0);
    NumeralThenNoAddOp(1, '/', Show(0));
  }

  lemma BadOperandText()
    ensures Eval("x") == Err(BadNumber)
  {
    NoNumberFails([], 'x', []);
    assert [] + ['x'] + [] == "x";
    assert !IsSpace("x"[0]);
  }

  lemma SpacedOperatorCase()
    ensures CalcExpress("1 + 2") == Err(InvalidOp)
  {
    var text := Show(1) + [' '] + ['+'] + " 2";
    assert text == "1 + 2" by {
      ShowDigits();
    }
    assert CalcExpress(text) == Err(InvalidOp) by {
      SpaceBeforeOperatorFails(1, '+', " 2");
    }
  }
}
