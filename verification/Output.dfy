/**
 The number printing and the `printf` of `io/output.c`. Numbers are printed from the top digit down
 with tables of powers; the reference is the usual numeral, built from the bottom digit up.
 */
module Output {
  import opened KMath

  // ---------------------------------------------------------------- numerals

  /** The two bases printed, and what they do to a number. */
  datatype Base = Dec | Hex {
    function Radix(): nat { if Dec? then 10 else 16 }

    function Shift(n: nat, d: nat): nat { if Dec? then 10 * n + d else 16 * n + d }

    function Rest(n: nat): nat { if Dec? then n / 10 else n / 16 }

    function Last(n: nat): (d: nat)
      ensures d < Radix()
    {
      if Dec? then n % 10 else n % 16
    }
  }

  function DigitChar(d: nat): char
    requires d < 16
  {
    if d <= 9 then '0' + d as char else 'A' + (d - 10) as char
  }

  predicate IsDigit(c: char, base: Base) {
    '0' <= c <= '9' || (base.Hex? && 'A' <= c <= 'F')
  }

  function DigitValue(c: char, base: Base): (d: nat)
    requires IsDigit(c, base)
    ensures d < base.Radix()
  {
    if c <= '9' then (c - '0') as nat else (c - 'A') as nat + 10
  }

  /** The digits in order. */
  lemma DigitTable(d: nat)
    requires d < 16
    ensures DigitChar(d) == "0123456789ABCDEF"[d]
  {
  }

  /** Digits and their values are inverse, and only the digit of 0 is '0'. */
  lemma DigitInverse(d: nat, base: Base)
    requires d < base.Radix()
    ensures IsDigit(DigitChar(d), base) && DigitValue(DigitChar(d), base) == d
    ensures DigitChar(d) == '0' <==> d == 0
  {
  }

  lemma DigitOfValue(c: char, base: Base)
    requires IsDigit(c, base)
    ensures DigitChar(DigitValue(c, base)) == c
  {
  }

  predicate IsNumeral(s: string, base: Base) {
    forall i :: 0 <= i < |s| ==> IsDigit(s[i], base)
  }

  /** The number a string of digits stands for. */
  function Value(s: string, base: Base): nat
    requires IsNumeral(s, base)
  {
    if s == [] then 0 else base.Shift(Value(s[..|s| - 1], base), DigitValue(s[|s| - 1], base))
  }

  /** Digits only, and no leading zero unless the number is zero. */
  ghost predicate Canonical(s: string, base: Base) {
    s != [] && IsNumeral(s, base) && (s[0] == '0' ==> |s| == 1)
  }

  /** The numeral of a number, built from the bottom digit up. */
  function Numeral(n: nat, base: Base): (s: string) {
    if n < base.Radix() then [DigitChar(n)] else Numeral(base.Rest(n), base) + [DigitChar(base.Last(n))]
  }

  lemma ValueAppend(s: string, d: nat, base: Base)
    requires IsNumeral(s, base) && d < base.Radix()
    ensures IsNumeral(s + [DigitChar(d)], base)
    ensures Value(s + [DigitChar(d)], base) == base.Shift(Value(s, base), d)
  {
    DigitInverse(d, base);
    assert (s + [DigitChar(d)])[..|s|] == s;
  }

  lemma SplitJoins(n: nat, base: Base)
    ensures base.Shift(base.Rest(n), base.Last(n)) == n
    ensures n >= base.Radix() ==> 0 < base.Rest(n) < n
  {
  }

  /** The numeral is canonical and stands for its number. */
  lemma {:induction false} NumeralParses(n: nat, base: Base)
    ensures Canonical(Numeral(n, base), base) && Value(Numeral(n, base), base) == n
    ensures n > 0 ==> Numeral(n, base)[0] != '0'
    decreases n
  {
    SplitJoins(n, base);
    if n < base.Radix() {
      ValueAppend([], n, base);
      DigitInverse(n, base);
      assert [] + [DigitChar(n)] == [DigitChar(n)];
    } else {
      var front, d := Numeral(base.Rest(n), base), base.Last(n);
      NumeralParses(base.Rest(n), base);
      ValueAppend(front, d, base);
      assert (front + [DigitChar(d)])[0] == front[0];
    }
  }

  /** A canonical string has a positive value unless it is "0". */
  lemma {:induction false} CanonicalPositive(s: string, base: Base)
    requires s != [] && IsNumeral(s, base) && s[0] != '0'
    ensures Value(s, base) > 0
    decreases |s|
  {
    DigitOfValue(s[0], base);
    DigitInverse(DigitValue(s[0], base), base);
    if |s| > 1 {
      CanonicalPositive(s[..|s| - 1], base);
    }
  }

  lemma ShiftBack(n: nat, d: nat, base: Base)
    requires d < base.Radix()
    ensures base.Rest(base.Shift(n, d)) == n && base.Last(base.Shift(n, d)) == d
    ensures n > 0 ==> base.Shift(n, d) >= base.Radix()
  {
  }

  lemma NumeralShift(n: nat, d: nat, base: Base)
    requires d < base.Radix()
    ensures Numeral(base.Shift(n, d), base) == if n == 0 then [DigitChar(d)] else Numeral(n, base) + [DigitChar(d)]
  {
    ShiftBack(n, d, base);
    assert n == 0 ==> base.Shift(n, d) == d;
  }

  /** Being canonical and standing for a number determines the string: it is that number's numeral. */
  lemma {:induction false} CanonicalUnique(s: string, base: Base)
    requires Canonical(s, base)
    ensures s == Numeral(Value(s, base), base)
    decreases |s|
  {
    var front, d := s[..|s| - 1], DigitValue(s[|s| - 1], base);
    assert s == front + [DigitChar(d)] by { DigitOfValue(s[|s| - 1], base); }
    NumeralShift(Value(front, base), d, base);
    if front != [] {
      CanonicalPositive(front, base);
      CanonicalUnique(front, base);
    }
  }

  // ---------------------------------------------------------------- the tables

  const POWERS_10: seq<nat> := [
    1, 10, 100, 1000, 10000, 100000, 1000000, 10000000, 100000000, 1000000000, 10000000000, 100000000000,
    1000000000000, 10000000000000, 100000000000000, 1000000000000000, 10000000000000000, 100000000000000000,
    1000000000000000000, 10000000000000000000]

  const POWERS_16: seq<nat> := [
    0x1, 0x10, 0x100, 0x1000, 0x10000, 0x100000, 0x1000000, 0x10000000, 0x100000000, 0x1000000000, 0x10000000000,
    0x100000000000, 0x1000000000000, 0x10000000000000, 0x100000000000000, 0x1000000000000000]

  function Powers(base: Base): seq<nat> { if base.Dec? then POWERS_10 else POWERS_16 }

  /** Each table lists the powers of its base, enough of them for every 64-bit number. */
  ghost predicate IsPowerTable(t: seq<nat>, base: Base) {
    && |t| > 0 && t[0] == 1 && U64_LIMIT <= base.Shift(t[|t| - 1], 0)
    && forall i :: 1 <= i < |t| ==> t[i] == base.Shift(t[i - 1], 0)
  }

  lemma TablesArePowers(base: Base)
    ensures IsPowerTable(Powers(base), base)
  {
    var t := Powers(base);
    assert t[1] == base.Shift(t[0], 0) && t[2] == base.Shift(t[1], 0) && t[3] == base.Shift(t[2], 0);
    assert t[4] == base.Shift(t[3], 0) && t[5] == base.Shift(t[4], 0) && t[6] == base.Shift(t[5], 0);
    assert t[7] == base.Shift(t[6], 0) && t[8] == base.Shift(t[7], 0) && t[9] == base.Shift(t[8], 0);
    assert t[10] == base.Shift(t[9], 0) && t[11] == base.Shift(t[10], 0) && t[12] == base.Shift(t[11], 0);
    assert t[13] == base.Shift(t[12], 0) && t[14] == base.Shift(t[13], 0) && t[15] == base.Shift(t[14], 0);
    if base.Dec? {
      assert t[16] == base.Shift(t[15], 0) && t[17] == base.Shift(t[16], 0);
      assert t[18] == base.Shift(t[17], 0) && t[19] == base.Shift(t[18], 0);
    }
  }

  /** `q` times `p`, by repeated addition. */
  ghost function Times(q: nat, p: nat): nat {
    if q == 0 then 0 else Times(q - 1, p) + p
  }

  lemma {:induction false} TimesAdd(a: nat, b: nat, p: nat)
    ensures Times(a + b, p) == Times(a, p) + Times(b, p)
    decreases b
  {
    if b > 0 {
      TimesAdd(a, b - 1, p);
    }
  }

  lemma {:induction false} TimesIsProduct(q: nat, p: nat)
    ensures Times(q, p) == q * p
  {
    if q > 0 {
      TimesIsProduct(q - 1, p);
    }
  }

  lemma {:induction false} TimesShift(q: nat, d: nat, p: nat, base: Base)
    ensures Times(base.Shift(q, d), p) == Times(q, base.Shift(p, 0)) + Times(d, p)
    decreases q
  {
    if q > 0 {
      TimesShift(q - 1, d, p, base);
      TimesAdd(base.Shift(q - 1, d), base.Radix(), p);
      assert Times(base.Radix(), p) == base.Shift(p, 0) by { TimesIsProduct(base.Radix(), p); }
    }
  }

  lemma TimesOrder(k: nat, d: nat, p: nat)
    ensures k <= d ==> Times(k, p) <= Times(d, p)
  {
    if k <= d {
      TimesAdd(k, d - k, p);
    }
  }

  lemma TimesBound(d: nat, p: nat, base: Base)
    requires Times(d, p) < base.Shift(p, 0)
    ensures d < base.Radix()
  {
    TimesIsProduct(base.Radix(), p);
    TimesOrder(base.Radix(), d, p);
  }

  method Divide(num: nat, power: nat) returns (divide: nat, rest: nat)
    requires power > 0
    ensures divide == num / power && rest == num % power
    ensures num == Times(divide, power) + rest && rest < power
  {
    divide, rest := num / power, num % power;
    TimesIsProduct(divide, power);
  }

  /** What has been printed once the powers from `top` up are done. */
  ghost predicate Printed(out: string, num: nat, rest: nat, top: nat, base: Base) {
    && IsNumeral(out, base) && (out != [] ==> out[0] != '0')
    && Times(Value(out, base), top) + rest == num && rest < top
  }

  lemma SkipDigit(num: nat, rest: nat, p: nat, base: Base)
    requires Printed("", num, rest, base.Shift(p, 0), base) && rest < p
    ensures Printed("", num, rest, p, base)
  {
  }

  lemma PrintDigit(out: string, num: nat, d: nat, rest: nat, p: nat, base: Base)
    requires rest < p && Printed(out, num, Times(d, p) + rest, base.Shift(p, 0), base)
    requires out == [] ==> d > 0
    ensures d < base.Radix()
    ensures Printed(out + [DigitChar(d)], num, rest, p, base)
  {
    TimesBound(d, p, base);
    TimesShift(Value(out, base), d, p, base);
    ValueAppend(out, d, base);
    DigitInverse(d, base);
  }

  /** The digit loop, over a table of powers. */
  method PrintDigits(num: nat, powers: seq<nat>, base: Base) returns (out: string)
    requires 0 < num < U64_LIMIT && IsPowerTable(powers, base)
    ensures Canonical(out, base) && Value(out, base) == num
  {
    var rest, hasPrinted := num, false;
    out := "";
    ghost var top := base.Shift(powers[|powers| - 1], 0);
    for i := |powers| downto 0
      invariant hasPrinted <==> out != []
      invariant top == if i < |powers| then powers[i] else base.Shift(powers[|powers| - 1], 0)
      invariant i == 0 ==> top == 1
      invariant Printed(out, num, rest, top, base)
    {
      var power := powers[i];
      assert top == base.Shift(power, 0);
      top := power;
      var divide, remainder := Divide(rest, power);
      if divide == 0 {
        if hasPrinted {
          PrintDigit(out, num, divide, remainder, power, base);
          out := out + ['0'];
        } else {
          SkipDigit(num, rest, power, base);
        }
        continue;
      }
      PrintDigit(out, num, divide, remainder, power, base);
      hasPrinted := true;
      out := out + [DigitChar(divide)];
      rest := remainder;
    }
    TimesIsProduct(Value(out, base), 1);
  }

  /**
    The number printed is exactly the numeral: every digit, in order, and no leading zero, for every
    64-bit number.
   */
  method PrintNumber(num: nat, base: Base) returns (out: string)
    requires num < U64_LIMIT
    ensures out == Numeral(num, base)
  {
    if num == 0 {
      out := "0";
    } else {
      TablesArePowers(base);
      out := PrintDigits(num, Powers(base), base);
      CanonicalUnique(out, base);
    }
  }

  // ---------------------------------------------------------------- formats

  datatype Arg = Num(num: nat) | Chr(chr: char) | Str(str: string)

  /** The text of one conversion and the number of arguments it takes; `Bad` where C gives no meaning. */
  datatype Piece = Bad | Piece(text: string, used: nat)

  datatype Text = Undefined | Text(text: string)

  function Converted(c: char, args: seq<Arg>): Piece {
    if c == '%' then Piece("%", 0)
    else if c == 'u' || c == 'x' then
      if args != [] && args[0].Num? && args[0].num < U64_LIMIT
      then Piece(Numeral(args[0].num, if c == 'u' then Dec else Hex), 1) else Bad
    else if c == 'c' then if args != [] && args[0].Chr? then Piece([args[0].chr], 1) else Bad
    else if c == 's' then if args != [] && args[0].Str? then Piece(args[0].str, 1) else Bad
    else Piece("", 0)
  }

  function Before(s: string, t: Text): Text { if t.Text? then Text(s + t.text) else Undefined }

  /** What a format and its arguments print; a format ending in a lone `%` reads beyond its end. */
  function Render(format: string, args: seq<Arg>): (t: Text) {
    if format == [] then Text("")
    else if format[0] != '%' then Before([format[0]], Render(format[1..], args))
    else if |format| == 1 then Undefined
    else
      var piece := Converted(format[1], args);
      if piece.Piece? && piece.used <= |args| then Before(piece.text, Render(format[2..], args[piece.used..]))
      else Undefined
  }

  /** The number of arguments a format takes. */
  function Taken(format: string): nat {
    if format == [] then 0
    else if format[0] != '%' || |format| == 1 then Taken(format[1..])
    else (if format[1] in "uxcs" then 1 else 0) + Taken(format[2..])
  }

  lemma BeforeTwice(s: string, t: string, x: Text)
    ensures Before(s, Before(t, x)) == Before(s + t, x)
  {
    if x.Text? {
      assert s + (t + x.text) == s + t + x.text;
    }
  }

  /**
    Printing in one call or in two: two formats, each with its own arguments, joined to one print one
    text after the other.
   */
  lemma {:induction false} RenderJoins(f: string, a: seq<Arg>, g: string, b: seq<Arg>)
    requires Render(f, a).Text? && Taken(f) == |a|
    ensures Render(f + g, a + b) == Before(Render(f, a).text, Render(g, b))
    decreases |f|
  {
    if f == [] {
      assert f + g == g && a + b == b;
      assert Render(g, b).Text? ==> "" + Render(g, b).text == Render(g, b).text;
    } else if f[0] != '%' {
      assert (f + g)[1..] == f[1..] + g;
      RenderJoins(f[1..], a, g, b);
      BeforeTwice([f[0]], Render(f[1..], a).text, Render(g, b));
    } else {
      var piece := Converted(f[1], a);
      assert (f + g)[2..] == f[2..] + g;
      assert (a + b)[piece.used..] == a[piece.used..] + b;
      RenderJoins(f[2..], a[piece.used..], g, b);
      BeforeTwice(piece.text, Render(f[2..], a[piece.used..]).text, Render(g, b));
    }
  }

  /** A text with every `%` doubled. */
  function Escaped(s: string): string {
    if s == [] then [] else (if s[0] == '%' then "%%" else [s[0]]) + Escaped(s[1..])
  }

  /** Any text can be printed: its escaped form prints it. */
  lemma {:induction false} EscapedPrints(s: string, args: seq<Arg>)
    ensures Render(Escaped(s), args) == Text(s)
    decreases |s|
  {
    if s != [] {
      EscapedPrints(s[1..], args);
      var f := Escaped(s);
      if s[0] == '%' {
        assert f[0] == '%' && f[1] == '%' && f[2..] == Escaped(s[1..]);
        assert args[0..] == args;
      } else {
        assert f[0] == s[0] && f[1..] == Escaped(s[1..]);
      }
      assert s == [s[0]] + s[1..];
    }
  }

  // ---------------------------------------------------------------- what each conversion prints

  lemma OneConversion(c: char, args: seq<Arg>)
    requires Converted(c, args).Piece? && Converted(c, args).used == |args|
    ensures Render(['%', c], args) == Text(Converted(c, args).text)
  {
    var f, piece := ['%', c], Converted(c, args);
    assert f[2..] == [] && args[piece.used..] == [];
    assert Render([], []) == Text("");
    assert piece.text + "" == piece.text;
  }

  /** `%u` prints the decimal number. */
  lemma PrintsDecimal(n: nat)
    requires n < U64_LIMIT
    ensures var t := Render("%u", [Num(n)]); t.Text? && Canonical(t.text, Dec) && Value(t.text, Dec) == n
  {
    OneConversion('u', [Num(n)]);
    NumeralParses(n, Dec);
  }

  /** `%x` prints the hexadecimal number. */
  lemma PrintsHexadecimal(n: nat)
    requires n < U64_LIMIT
    ensures var t := Render("%x", [Num(n)]); t.Text? && Canonical(t.text, Hex) && Value(t.text, Hex) == n
  {
    OneConversion('x', [Num(n)]);
    NumeralParses(n, Hex);
  }

  /** `%c` prints the character, `%s` the string, `%%` one percent sign, and any other letter nothing. */
  lemma PrintsText(c: char, s: string, other: char)
    ensures Render("%c", [Chr(c)]) == Text([c])
    ensures Render("%s", [Str(s)]) == Text(s)
    ensures Render("%%", []) == Text("%")
    ensures other !in "%uxcs" ==> Render(['%', other], []) == Text("")
    ensures c != '%' ==> Render([c], []) == Text([c])
  {
    OneConversion('c', [Chr(c)]);
    OneConversion('s', [Str(s)]);
    OneConversion('%', []);
    if other !in "%uxcs" {
      assert "%uxcs"[0] == '%' && "%uxcs"[1] == 'u' && "%uxcs"[2] == 'x' && "%uxcs"[3] == 'c' && "%uxcs"[4] == 's';
      OneConversion(other, []);
    }
    assert [c][1..] == [] && [c] + "" == [c];
  }

  /** What a caller asks to be printed: text as it is, numbers in either base, characters and strings. */
  datatype Part =
    | Plain(text: string) | Decimal(num: nat) | Hexadecimal(num: nat) | Character(chr: char) | Chars(str: string)

  function FormatOf(part: Part): string {
    match part
    case Plain(text) => Escaped(text)
    case Decimal(_) => "%u"
    case Hexadecimal(_) => "%x"
    case Character(_) => "%c"
    case Chars(_) => "%s"
  }

  function ArgsOf(part: Part): seq<Arg> {
    match part
    case Plain(_) => []
    case Decimal(num) => [Num(num)]
    case Hexadecimal(num) => [Num(num)]
    case Character(chr) => [Chr(chr)]
    case Chars(str) => [Str(str)]
  }

  /** The text says what the part stands for: for a number, digits without a leading zero that stand for it. */
  ghost predicate Says(text: string, part: Part) {
    match part
    case Plain(t) => text == t
    case Decimal(num) => num < U64_LIMIT && Canonical(text, Dec) && Value(text, Dec) == num
    case Hexadecimal(num) => num < U64_LIMIT && Canonical(text, Hex) && Value(text, Hex) == num
    case Character(chr) => text == [chr]
    case Chars(str) => text == str
  }

  function FormatAll(parts: seq<Part>): string {
    if parts == [] then "" else FormatOf(parts[0]) + FormatAll(parts[1..])
  }

  function ArgsAll(parts: seq<Part>): seq<Arg> {
    if parts == [] then [] else ArgsOf(parts[0]) + ArgsAll(parts[1..])
  }

  function Joined(texts: seq<string>): string {
    if texts == [] then "" else texts[0] + Joined(texts[1..])
  }

  lemma {:induction false} EscapedTakes(s: string)
    ensures Taken(Escaped(s)) == 0
    decreases |s|
  {
    if s != [] {
      EscapedTakes(s[1..]);
      var f := Escaped(s);
      if s[0] == '%' {
        assert f[0] == '%' && f[1] == '%' && f[2..] == Escaped(s[1..]);
        assert '%' !in "uxcs";
      } else {
        assert f[0] == s[0] && f[1..] == Escaped(s[1..]);
      }
    }
  }

  lemma ConversionTakes(c: char)
    requires c in "uxcs"
    ensures Taken(['%', c]) == 1
  {
    assert ['%', c][2..] == [];
  }

  lemma PartPrints(part: Part, text: string)
    requires Says(text, part)
    ensures Render(FormatOf(part), ArgsOf(part)) == Text(text) && Taken(FormatOf(part)) == |ArgsOf(part)|
  {
    match part {
      case Plain(t) =>
        EscapedPrints(t, []);
        EscapedTakes(t);
      case Decimal(num) =>
        OneConversion('u', [Num(num)]);
        CanonicalUnique(text, Dec);
        ConversionTakes('u');
      case Hexadecimal(num) =>
        OneConversion('x', [Num(num)]);
        CanonicalUnique(text, Hex);
        ConversionTakes('x');
      case Character(chr) =>
        OneConversion('c', [Chr(chr)]);
        ConversionTakes('c');
      case Chars(str) =>
        OneConversion('s', [Str(str)]);
        ConversionTakes('s');
    }
  }

  /** A format made of parts prints, one after the other, the texts that say what the parts stand for. */
  lemma {:induction false} PartsPrint(parts: seq<Part>, texts: seq<string>)
    requires |texts| == |parts| && forall i :: 0 <= i < |parts| ==> Says(texts[i], parts[i])
    ensures Render(FormatAll(parts), ArgsAll(parts)) == Text(Joined(texts))
    decreases |parts|
  {
    if parts != [] {
      PartPrints(parts[0], texts[0]);
      PartsPrint(parts[1..], texts[1..]);
      RenderJoins(FormatOf(parts[0]), ArgsOf(parts[0]), FormatAll(parts[1..]), ArgsAll(parts[1..]));
    }
  }

  method Convert(c: char, args: seq<Arg>) returns (text: string, used: nat)
    requires Converted(c, args).Piece?
    ensures Piece(text, used) == Converted(c, args) && used <= |args|
    ensures c == 'u' ==> used == 1 && args[0].Num? && Canonical(text, Dec) && Value(text, Dec) == args[0].num
    ensures c == 'x' ==> used == 1 && args[0].Num? && Canonical(text, Hex) && Value(text, Hex) == args[0].num
    ensures c == 'c' ==> used == 1 && args[0].Chr? && text == [args[0].chr]
    ensures c == 's' ==> used == 1 && args[0].Str? && text == args[0].str
    ensures c !in "uxcs" ==> used == 0 && text == if c == '%' then "%" else ""
  {
    text, used := "", 0;
    if c == '%' {
      text := "%";
    } else if c == 'u' {
      text := PrintNumber(args[0].num, Dec);
      NumeralParses(args[0].num, Dec);
      used := 1;
    } else if c == 'x' {
      text := PrintNumber(args[0].num, Hex);
      NumeralParses(args[0].num, Hex);
      used := 1;
    } else if c == 'c' {
      text, used := [args[0].chr], 1;
    } else if c == 's' {
      text, used := args[0].str, 1;
    }
  }

  lemma AddWraps(a: nat, b: nat)
    ensures (a % U32_LIMIT + b) % U32_LIMIT == (a + b) % U32_LIMIT
  {
  }

  /** `printf` prints what the format and the arguments mean and returns the 32-bit count of characters. */
  method Printf(format: string, args: seq<Arg>) returns (out: string, length: nat)
    requires Render(format, args).Text?
    ensures Text(out) == Render(format, args)
    ensures length == |out| % U32_LIMIT
  {
    var i, next := 0, 0;
    out, length := "", 0;
    assert format[0..] == format && args[0..] == args;
    assert "" + Render(format, args).text == Render(format, args).text;
    while i < |format|
      invariant 0 <= i <= |format| && 0 <= next <= |args|
      invariant Render(format[i..], args[next..]).Text?
      invariant Render(format, args) == Before(out, Render(format[i..], args[next..]))
      invariant length == |out| % U32_LIMIT
    {
      ghost var rest, left := format[i..], args[next..];
      var text, used;
      if format[i] == '%' {
        assert rest[2..] == format[i + 2..];
        text, used := Convert(format[i + 1], args[next..]);
        assert left[used..] == args[next + used..];
        i := i + 2;
      } else {
        assert rest[1..] == format[i + 1..];
        text, used := [format[i]], 0;
        i := i + 1;
      }
      next := next + used;
      BeforeTwice(out, text, Render(format[i..], args[next..]));
      AddWraps(|out|, |text|);
      out := out + text;
      length := (length + |text|) % U32_LIMIT;
    }
    assert out + "" == out;
  }
}
