/** What each spelling of a character is read as, and what each character is printed as, given by the characters
    themselves. */
module EscapeTables {
  import opened Sequences
  import opened Wrappers
  import opened Chars
  import opened Lines
  import opened Reading
  import opened Writing
  import opened EscapeLaws
  import opened JoinLaws
  import opened Documents
  import opened NewLines

  const HEX_UPPER := "0123456789ABCDEF"
  const HEX_LOWER := "0123456789abcdef"

  // --- reading ------------------------------------------------------------------

  /** `d` is the digit for `v`, in either case. */
  predicate IsDigitFor(d: CodePoint, v: nat) {
    v < 16 && (d == HEX_UPPER[v] as int || d == HEX_LOWER[v] as int)
  }

  predicate SomeDigit(d: CodePoint) {
    exists v: nat :: v < 16 && IsDigitFor(d, v)
  }

  lemma DigitCounts(d: CodePoint, v: nat)
    requires IsDigitFor(d, v)
    ensures IsHexDigit(d) && HexDigitValue(d) == v
  {
  }

  lemma DigitsAre(d: CodePoint)
    ensures IsHexDigit(d) <==> SomeDigit(d)
  {
    if 0x30 <= d <= 0x39 {
      assert IsDigitFor(d, d - 0x30);
    } else if 0x41 <= d <= 0x46 {
      assert IsDigitFor(d, d - 0x41 + 10);
    } else if 0x61 <= d <= 0x66 {
      assert IsDigitFor(d, d - 0x61 + 10);
    }
    if SomeDigit(d) {
      var v: nat :| IsDigitFor(d, v);
      DigitCounts(d, v);
    }
  }

  /** Every spelling of a number below 0x10000 by four hexadecimal digits, each in either case and whatever follows, is
      read as that number. */
  lemma EverySpelling(n: nat, d1: CodePoint, d2: CodePoint, d3: CodePoint, d4: CodePoint, rest: Text)
    requires IsDigitFor(d1, n / 0x1000) && IsDigitFor(d2, n / 0x100 % 0x10)
    requires IsDigitFor(d3, n / 0x10 % 0x10) && IsDigitFor(d4, n % 0x10)
    ensures n < 0x1_0000
    ensures UnescapeRaw([0x5C, 0x75, d1, d2, d3, d4] + rest) ==
            match UnescapeRaw(rest)
            case Err(e) => Err(e)
            case Ok(t) => Ok([n] + t)
  {
    DigitCounts(d1, n / 0x1000);
    DigitCounts(d2, n / 0x100 % 0x10);
    DigitCounts(d3, n / 0x10 % 0x10);
    DigitCounts(d4, n % 0x10);
    BelowSixteen(n, d1);
    FourDigits(n);
    hide IsDigitFor, HexDigitValue, IsHexDigit, UnescapeRaw;
    var esc: Text := [0x75, d1, d2, d3, d4];
    assert UEscapeValue(esc) == n;
    hide UEscapeValue;
    assert [BACKSLASH] + esc + rest == [0x5C, 0x75, d1, d2, d3, d4] + rest;
    UEscapeStep(esc, rest);
  }

  lemma BelowSixteen(n: nat, d: CodePoint)
    requires IsDigitFor(d, n / 0x1000)
    ensures n < 0x1_0000
  {
  }

  lemma FourDigits(n: nat)
    requires n < 0x1_0000
    ensures n / 0x1000 * 0x1000 + n / 0x100 % 0x10 * 0x100 + n / 0x10 % 0x10 * 0x10 + n % 0x10 == n
  {
    DividedTwice(n);
    LastDigit(n);
    LastDigit(n / 0x10);
    LastDigit(n / 0x10 / 0x10);
  }

  lemma DividedTwice(n: nat)
    ensures n / 0x100 == n / 0x10 / 0x10 && n / 0x1000 == n / 0x10 / 0x10 / 0x10
  {
  }

  lemma LastDigit(n: nat)
    ensures n == n / 0x10 * 0x10 + n % 0x10
  {
  }

  /** What stands behind `\u`, up to four characters of a line, and is not four such digits is refused, and named. */
  lemma BadSpelling(digits: Text, rest: Text)
    requires |digits| <= 4 && LF !in digits && (|digits| == 4 || rest == [] || rest[0] == LF)
    requires |digits| == 4 ==> exists i :: 0 <= i < 4 && !SomeDigit(digits[i])
    ensures UnescapeRaw([0x5C, 0x75] + digits + rest) == Err([0x5C, 0x75] + digits)
  {
    DotRunIs(digits, rest);
    NotDigits(digits);
    hide *;
    UEscapeRefused([0x5C, 0x75] + digits + rest, digits, rest);
  }

  lemma NotDigits(digits: Text)
    requires |digits| != 4 || exists i :: 0 <= i < 4 && !SomeDigit(digits[i])
    ensures !IsUEscape([0x75] + digits)
  {
    if |digits| == 4 {
      var i :| 0 <= i < 4 && !SomeDigit(digits[i]);
      DigitsAre(digits[i]);
      hide SomeDigit;
      assert ([0x75] + digits)[i + 1] == digits[i];
    }
  }

  lemma UEscapeRefused(field: Text, digits: Text, rest: Text)
    requires field == [0x5C, 0x75] + digits + rest
    requires DotRun(digits + rest, 4) == |digits| && !IsUEscape([0x75] + digits)
    ensures UnescapeRaw(field) == Err([0x5C, 0x75] + digits)
  {
    assert field[2..] == digits + rest;
    assert field[1..2 + |digits|] == [0x75] + digits;
    hide DotRun, IsUEscape;
    assert [BACKSLASH] + ([0x75] + digits) == [0x5C, 0x75] + digits;
  }

  lemma {:induction false} DotRunIs(digits: Text, rest: Text)
    requires |digits| <= 4 && LF !in digits && (|digits| == 4 || rest == [] || rest[0] == LF)
    ensures DotRun(digits + rest, 4) == |digits|
  {
    DotRunOf(digits, rest, 4);
  }

  lemma {:induction false} DotRunOf(digits: Text, rest: Text, max: nat)
    requires |digits| <= max && LF !in digits && (|digits| == max || rest == [] || rest[0] == LF)
    ensures DotRun(digits + rest, max) == |digits|
  {
    if digits == [] {
      assert digits + rest == rest;
    } else {
      assert (digits + rest)[1..] == digits[1..] + rest;
      DotRunOf(digits[1..], rest, max - 1);
    }
  }

  /** Behind a backslash t, n, f and r stand for tab, line feed, form feed and carriage return, u begins a number, a
      line feed ends the line, and everything else stands for itself. */
  function Named(c: CodePoint): CodePoint {
    match c
    case 0x74 => 0x09
    case 0x6E => 0x0A
    case 0x66 => 0x0C
    case 0x72 => 0x0D
    case _ => c
  }

  lemma NamedIsRead(c: CodePoint, rest: Text)
    requires c != 0x0A && c != 0x75
    ensures UnescapeRaw([0x5C, c] + rest) == Glue([Named(c)], UnescapeRaw(rest))
  {
    SimpleEscapeInverse(c, rest);
    hide UnescapeRaw;
  }

  /** A character that is no backslash stands for itself, and so does a backslash at the end of the line. */
  lemma PlainIsRead(c: CodePoint, rest: Text)
    requires c != 0x5C || rest == [] || rest[0] == 0x0A
    ensures UnescapeRaw([c] + rest) == Glue([c], UnescapeRaw(rest))
    ensures UnescapeRaw([]) == Ok([])
  {
    assert ([c] + rest)[1..] == rest;
  }

  // --- printing -------------------------------------------------------------------

  /** The characters printed as themselves: those of ASCII from the blank to the tilde but for the five that a
      properties file gives a meaning, and, unless only ASCII is wanted, all from 0x80 on. */
  predicate PrintsAsItself(c: CodePoint, ensureAscii: bool) {
    || c == 0x20 || c == 0x22 || 0x24 <= c <= 0x39 || c == 0x3B || c == 0x3C || 0x3E <= c <= 0x5B || 0x5D <= c <= 0x7E
    || (!ensureAscii && c >= 0x80)
  }

  /** The number in four lower-case digits. */
  function Numbered(n: nat): Text
    requires n < 0x1_0000
  {
    [0x5C, 0x75, HEX_LOWER[n / 0x1000] as int, HEX_LOWER[n / 0x100 % 0x10] as int,
     HEX_LOWER[n / 0x10 % 0x10] as int, HEX_LOWER[n % 0x10] as int]
  }

  /** A character by its number, or, beyond 0xFFFF, by those of its two halves. */
  function ByNumber(c: CodePoint): Text {
    if c < 0x1_0000 then Numbered(c)
    else Numbered(0xD800 + (c - 0x1_0000) / 0x400) + Numbered(0xDC00 + (c - 0x1_0000) % 0x400)
  }

  /** What is printed for a character. */
  function Printed(c: CodePoint, ensureAscii: bool): Text {
    if PrintsAsItself(c, ensureAscii) then [c]
    else
      match c
      case 0x09 => [0x5C, 0x74]
      case 0x0A => [0x5C, 0x6E]
      case 0x0C => [0x5C, 0x66]
      case 0x0D => [0x5C, 0x72]
      case 0x21 => [0x5C, 0x21]
      case 0x23 => [0x5C, 0x23]
      case 0x3A => [0x5C, 0x3A]
      case 0x3D => [0x5C, 0x3D]
      case 0x5C => [0x5C, 0x5C]
      case _ => ByNumber(c)
  }

  lemma HexDigitPrints(v: nat)
    requires v < 16
    ensures HexDigit(v) == HEX_LOWER[v] as int
  {
  }

  lemma NumberedIs(n: CodePoint)
    requires n < 0x1_0000
    ensures [BACKSLASH, LETTER_U] + Hex4(n) == Numbered(n)
  {
    HexDigitPrints(n / 0x1000);
    HexDigitPrints(n / 0x100 % 0x10);
    HexDigitPrints(n / 0x10 % 0x10);
    HexDigitPrints(n % 0x10);
    hide HexDigit;
  }

  lemma UEscapeIs(c: CodePoint)
    ensures UEscape(c) == ByNumber(c)
  {
    if c < 0x1_0000 {
      NumberedIs(c);
    } else {
      NumberedIs(HighSurrogate(c));
      NumberedIs(LowSurrogate(c));
    }
    hide Hex4, Numbered;
  }

  lemma UnitIsPrinted(c: CodePoint, ensureAscii: bool)
    ensures BaseUnit(c, ensureAscii) == Printed(c, ensureAscii)
  {
    UEscapeIs(c);
    hide UEscape, ByNumber;
  }

  /** The characters of a text printed one after the other. */
  function AllPrinted(s: Text, ensureAscii: bool): Text {
    if s == [] then [] else Printed(s[0], ensureAscii) + AllPrinted(s[1..], ensureAscii)
  }

  /** In a key a blank has a backslash before it. */
  function KeyPrinted(s: Text, ensureAscii: bool): Text {
    if s == [] then []
    else (if s[0] == 0x20 then [0x5C, 0x20] else Printed(s[0], ensureAscii)) + KeyPrinted(s[1..], ensureAscii)
  }

  lemma {:induction false} BaseIsPrinted(s: Text, ensureAscii: bool)
    ensures BaseEscape(s, ensureAscii) == AllPrinted(s, ensureAscii)
  {
    if s != [] {
      UnitIsPrinted(s[0], ensureAscii);
      BaseIsPrinted(s[1..], ensureAscii);
      hide BaseUnit, Printed;
    }
  }

  lemma KeyUnitIsPrinted(c: CodePoint, ensureAscii: bool)
    ensures KeyUnit(c, ensureAscii) == if c == 0x20 then [0x5C, 0x20] else Printed(c, ensureAscii)
  {
    UnitIsPrinted(c, ensureAscii);
    hide BaseUnit, Printed;
  }

  lemma {:induction false} KeyIsPrinted(s: Text, ensureAscii: bool)
    ensures Escape(s, ensureAscii) == KeyPrinted(s, ensureAscii)
  {
    if s == [] {
      EscapeNothing(ensureAscii);
    } else {
      EscapeCons(s, ensureAscii);
      KeyUnitIsPrinted(s[0], ensureAscii);
      KeyIsPrinted(s[1..], ensureAscii);
      hide KeyUnit, Printed, Escape;
    }
  }

  /** A line is its key printed, an equals sign and its value printed, in which only a blank at the front has a
      backslash before it. */
  lemma LineIsPrinted(key: Text, value: Text, ensureAscii: bool)
    ensures JoinKeyValue(key, value, ensureAscii) ==
            KeyPrinted(key, ensureAscii) + [0x3D] +
            ((if value != [] && value[0] == 0x20 then [0x5C] else []) + AllPrinted(value, ensureAscii))
  {
    KeyIsPrinted(key, ensureAscii);
    BaseIsPrinted(value, ensureAscii);
    if value != [] {
      StartsWithBlankIff(value, ensureAscii);
    }
    hide Escape, BaseEscape, KeyPrinted, AllPrinted;
    assert [] + AllPrinted(value, ensureAscii) == AllPrinted(value, ensureAscii);
    if value == [] {
      NothingPrinted(ensureAscii);
    }
  }

  lemma NothingPrinted(ensureAscii: bool)
    ensures AllPrinted([], ensureAscii) == []
  {
  }

  lemma PrintedStarts(c: CodePoint, ensureAscii: bool)
    ensures Printed(c, ensureAscii) != [] && (Printed(c, ensureAscii)[0] == 0x20 <==> c == 0x20)
  {
    NumberStarts(c);
    hide ByNumber;
  }

  lemma NumberStarts(c: CodePoint)
    ensures ByNumber(c) != [] && ByNumber(c)[0] == 0x5C
  {
    var n := if c < 0x1_0000 then c else 0xD800 + (c - 0x1_0000) / 0x400;
    assert Numbered(n) != [] && Numbered(n)[0] == 0x5C;
    hide Numbered;
  }

  lemma StartsWithBlankIff(value: Text, ensureAscii: bool)
    requires value != []
    ensures
      var printed := AllPrinted(value, ensureAscii);
      printed != [] && (printed[0] == 0x20 <==> value[0] == 0x20)
  {
    PrintedStarts(value[0], ensureAscii);
    hide Printed;
  }

  // --- plain ASCII ------------------------------------------------------------------

  predicate IsPlainAscii(s: Text) {
    forall i :: 0 <= i < |s| ==> 0x20 <= s[i] <= 0x7E
  }

  lemma PlainAppend(a: Text, b: Text)
    requires IsPlainAscii(a) && IsPlainAscii(b)
    ensures IsPlainAscii(a + b)
  {
  }

  lemma NumberedIsPlain(n: nat)
    requires n < 0x1_0000
    ensures IsPlainAscii(Numbered(n))
  {
    HexDigitPrints(n / 0x1000);
    HexDigitPrints(n / 0x100 % 0x10);
    HexDigitPrints(n / 0x10 % 0x10);
    HexDigitPrints(n % 0x10);
    hide HexDigitValue;
  }

  lemma ByNumberIsPlain(c: CodePoint)
    ensures IsPlainAscii(ByNumber(c))
  {
    hide IsPlainAscii, Numbered;
    if c < 0x1_0000 {
      NumberedIsPlain(c);
    } else {
      NumberedIsPlain(0xD800 + (c - 0x1_0000) / 0x400);
      NumberedIsPlain(0xDC00 + (c - 0x1_0000) % 0x400);
      PlainAppend(Numbered(0xD800 + (c - 0x1_0000) / 0x400), Numbered(0xDC00 + (c - 0x1_0000) % 0x400));
    }
  }

  lemma PrintedIsPlain(c: CodePoint)
    ensures IsPlainAscii(Printed(c, true))
  {
    ByNumberIsPlain(c);
    hide ByNumber;
  }

  lemma {:induction false} AllPrintedIsPlain(s: Text)
    ensures IsPlainAscii(AllPrinted(s, true)) && IsPlainAscii(KeyPrinted(s, true))
  {
    if s != [] {
      PrintedIsPlain(s[0]);
      AllPrintedIsPlain(s[1..]);
      hide Printed, IsPlainAscii;
      assert IsPlainAscii([0x5C, 0x20]) by {
        BlankIsPlain();
      }
      PlainAppend(Printed(s[0], true), AllPrinted(s[1..], true));
      PlainAppend(if s[0] == 0x20 then [0x5C, 0x20] else Printed(s[0], true), KeyPrinted(s[1..], true));
    }
  }

  lemma BlankIsPlain()
    ensures IsPlainAscii([0x5C, 0x20]) && IsPlainAscii([0x5C]) && IsPlainAscii([]) && IsPlainAscii([0x3D])
  {
  }

  /** With `ensure_ascii` a line consists of the printable characters of ASCII. */
  lemma LineIsPlain(key: Text, value: Text)
    ensures IsPlainAscii(JoinKeyValue(key, value, true))
  {
    LineIsPrinted(key, value, true);
    AllPrintedIsPlain(key);
    AllPrintedIsPlain(value);
    BlankIsPlain();
    hide IsPlainAscii, JoinKeyValue, AllPrinted, KeyPrinted;
    var shield := if value != [] && value[0] == 0x20 then [0x5C] else [];
    PlainAppend(shield, AllPrinted(value, true));
    PlainAppend(KeyPrinted(key, true), [0x3D]);
    PlainAppend(KeyPrinted(key, true) + [0x3D], shield + AllPrinted(value, true));
  }

  predicate IsLineOf(line: Text, p: (Text, Text), ensureAscii: bool) {
    && line == JoinKeyValue(p.0, p.1, ensureAscii) + [0x0A]
    && (ensureAscii ==> IsPlainAscii(line[..|line| - 1]))
  }

  lemma FirstEntryIsLine(p: (Text, Text), ensureAscii: bool, rest: Text)
    ensures
      var line := JoinKeyValue(p.0, p.1, ensureAscii) + [LF];
      IsLineOf(line, p, ensureAscii) && SplitLines(line + rest) == [line] + SplitLines(rest)
  {
    var joined := JoinKeyValue(p.0, p.1, ensureAscii);
    var line := joined + [LF];
    JoinShape(p.0, p.1, ensureAscii);
    PrintedLine(joined);
    LineIsPlain(p.0, p.1);
    hide JoinKeyValue, SplitLines, Balanced, StartsBare, IsPhysical, NoEol, IsSimple, Continues, IsPlainAscii;
    assert line[..|line| - 1] == joined;
    SplitLinesAppend(line, rest);
  }

  /** These lines are those of these entries, one each. */
  predicate AreLinesOf(lines: seq<Text>, props: seq<(Text, Text)>, ensureAscii: bool) {
    |lines| == |props| && forall i :: 0 <= i < |props| ==> IsLineOf(lines[i], props[i], ensureAscii)
  }

  lemma OneMoreLine(line: Text, lines: seq<Text>, props: seq<(Text, Text)>, ensureAscii: bool)
    requires props != [] && IsLineOf(line, props[0], ensureAscii) && AreLinesOf(lines, props[1..], ensureAscii)
    ensures AreLinesOf([line] + lines, props, ensureAscii)
  {
    hide IsLineOf;
    forall i | 0 < i < |props|
      ensures IsLineOf(([line] + lines)[i], props[i], ensureAscii)
    {
      assert IsLineOf(lines[i - 1], props[1..][i - 1], ensureAscii);
    }
  }

  lemma EntryLinesCons(props: seq<(Text, Text)>, ensureAscii: bool)
    requires props != []
    ensures EntryLines(props, ensureAscii) ==
            JoinKeyValue(props[0].0, props[0].1, ensureAscii) + [LF] + EntryLines(props[1..], ensureAscii)
  {
    hide JoinKeyValue;
  }

  /** Each entry is one physical line of the document, and with `ensure_ascii` that line is plain but for its end. */
  lemma {:induction false} EntriesAreLines(props: seq<(Text, Text)>, ensureAscii: bool)
    ensures AreLinesOf(SplitLines(EntryLines(props, ensureAscii)), props, ensureAscii)
  {
    if props != [] {
      hide *;
      var line := JoinKeyValue(props[0].0, props[0].1, ensureAscii) + [LF];
      EntryLinesCons(props, ensureAscii);
      EntriesAreLines(props[1..], ensureAscii);
      FirstEntryIsLine(props[0], ensureAscii, EntryLines(props[1..], ensureAscii));
      OneMoreLine(line, SplitLines(EntryLines(props[1..], ensureAscii)), props, ensureAscii);
    }
  }
}
