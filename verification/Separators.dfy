/** `join_key_value` with any separator: what is printed with it is read back. */
module Separators {
  import opened Wrappers
  import opened Chars
  import opened Reading
  import opened Writing
  import opened EscapeLaws
  import opened JoinLaws
  import opened Grammar
  import opened EscapeTables

  /** A key and a value printed with some separator between them. */
  function JoinWith(key: Text, separator: Text, value: Text, ensureAscii: bool): Text {
    Escape(key, ensureAscii) + (separator + EscapeValue(value, ensureAscii))
  }

  /** With the sign `=` alone that is the line written by default. */
  lemma JoinWithEquals(key: Text, value: Text, ensureAscii: bool)
    ensures JoinWith(key, [0x3D], value, ensureAscii) == JoinKeyValue(key, value, ensureAscii)
  {
    hide Escape, EscapeValue;
  }

  lemma EscapedIsWhole(key: Text, ensureAscii: bool)
    ensures IsWholeKey(Escape(key, ensureAscii))
  {
    var k := Escape(key, ensureAscii);
    EscapeIsEscaped(key, ensureAscii);
    hide Escape;
    forall i | 0 <= i < |k| && StartsSeparator(k[i..])
      ensures TrailingBackslashes(k[..i]) % 2 == 1
    {
      assert k[i..][0] == k[i] && IsSpecial(k[i]);
    }
  }

  lemma ValueStartsBare(value: Text, ensureAscii: bool)
    ensures !StartsSeparator(EscapeValue(value, ensureAscii))
  {
    LineIsPrinted([], value, ensureAscii);
    BaseIsPrinted(value, ensureAscii);
    if value != [] {
      StartsWithBlankIff(value, ensureAscii);
      FirstPrinted(value[0], ensureAscii);
    }
    hide Printed;
  }

  lemma FirstPrinted(c: CodePoint, ensureAscii: bool)
    ensures
      var printed := Printed(c, ensureAscii);
      printed != [] && (c != 0x20 ==> !StartsSeparator(printed))
  {
    NumberStarts(c);
    hide ByNumber;
  }

  /** Blanks, with at most one `=` or `:` among them, but not nothing: behind any such separator the value starts where
      it should, and key and value come back, up to pairing. */
  lemma SeparatedRoundTrip(key: Text, before: Text, sign: Text, after: Text, value: Text, ensureAscii: bool,
                           source: Text)
    requires IsSeparation(before, sign, after)
    ensures LogicalElement(JoinWith(key, before + (sign + after), value, ensureAscii), source) ==
            Ok(KeyValue(Pair(key), Pair(value), source))
  {
    EscapedIsWhole(key, ensureAscii);
    ValueStartsBare(value, ensureAscii);
    KeyRoundTrip(key, ensureAscii);
    ValueRoundTrip(value, ensureAscii);
    hide *;
    SeparatorsAdd(Escape(key, ensureAscii), before, sign, after, EscapeValue(value, ensureAscii));
    NotBlank(EscapeValue(value, ensureAscii));
    SeparatedLine(Escape(key, ensureAscii), before, sign, after, EscapeValue(value, ensureAscii), source);
    JoinedWith(key, before + (sign + after), value, ensureAscii);
  }

  lemma JoinedWith(key: Text, separator: Text, value: Text, ensureAscii: bool)
    ensures JoinWith(key, separator, value, ensureAscii) ==
            Escape(key, ensureAscii) + (separator + EscapeValue(value, ensureAscii))
  {
  }

  lemma NotBlank(s: Text)
    requires !StartsSeparator(s)
    ensures !StartsBlank(s)
  {
  }

  lemma SeparatorsAdd(key: Text, before: Text, sign: Text, after: Text, value: Text)
    ensures key + (before + (sign + after) + value) == key + (before + (sign + (after + value)))
  {
    assert before + (sign + after) + value == before + (sign + (after + value));
  }
}
