/** What a printed `key=value` line is to the parser: one physical line, self-delimiting, split where it was joined. */
module JoinLaws {
  import opened Wrappers
  import opened Chars
  import opened Regexes
  import opened Reading
  import opened Writing
  import opened EscapeLaws

  /** Characters that mean something to the parser unless a backslash stands before them. */
  predicate IsSpecial(c: CodePoint) {
    IsSeparator(c) || IsMark(c)
  }

  predicate Printable(s: Text) {
    forall i :: 0 <= i < |s| ==> s[i] >= 0x20
  }

  /** Every special character of `s` is escaped. */
  predicate Shielded(s: Text) {
    forall i :: 0 <= i < |s| && IsSpecial(s[i]) ==> TrailingBackslashes(s[..i]) % 2 == 1
  }

  /** What escaping makes of a field: no control character, no special character bare, no backslash left over. */
  predicate Escaped(s: Text) {
    Printable(s) && TrailingBackslashes(s) % 2 == 0 && Shielded(s)
  }

  /** Like `Escaped`, but special characters may stand bare, as spaces do in a value. */
  predicate Balanced(s: Text) {
    Printable(s) && TrailingBackslashes(s) % 2 == 0
  }

  lemma BalancedAppend(a: Text, b: Text)
    requires Balanced(a) && Balanced(b)
    ensures Balanced(a + b)
  {
    hide TrailingBackslashes;
    ParityOfAppend(a, b);
  }

  lemma EscapedAppend(a: Text, b: Text)
    requires Escaped(a) && Escaped(b)
    ensures Escaped(a + b)
  {
    hide TrailingBackslashes, IsSpecial;
    BalancedAppend(a, b);
    var ab := a + b;
    forall i | 0 <= i < |ab| && IsSpecial(ab[i])
      ensures TrailingBackslashes(ab[..i]) % 2 == 1
    {
      if i < |a| {
        assert ab[..i] == a[..i];
      } else {
        assert ab[..i] == a + b[..i - |a|];
        ParityOfAppend(a, b[..i - |a|]);
      }
    }
  }

  lemma PlainIsEscaped(c: CodePoint)
    requires c >= 0x20 && !IsSpecial(c) && c != BACKSLASH
    ensures Escaped([c])
  {
  }

  lemma PairIsEscaped(c: CodePoint)
    requires c >= 0x20
    ensures Escaped([BACKSLASH, c])
  {
    var u := [BACKSLASH, c];
    assert u[..1] == [BACKSLASH] && u[..0] == [] && u[..1][..0] == [];
    assert TrailingBackslashes(u[..1]) == 1;
  }

  lemma {:induction false} PlainRunIsEscaped(s: Text)
    requires forall i :: 0 <= i < |s| ==> s[i] >= 0x20 && !IsSpecial(s[i]) && s[i] != BACKSLASH
    ensures Escaped(s)
  {
    hide IsSpecial, Escaped;
    if s == [] {
      NothingIsEscaped();
    } else {
      PlainIsEscaped(s[0]);
      PlainRunIsEscaped(s[1..]);
      EscapedAppend([s[0]], s[1..]);
      assert [s[0]] + s[1..] == s;
    }
  }

  lemma NothingIsEscaped()
    ensures Escaped([])
  {
  }

  lemma HexIsEscaped(n: CodePoint)
    requires n < 0x1_0000
    ensures Escaped([BACKSLASH, LETTER_U] + Hex4(n))
  {
    hide Escaped, HexDigit;
    PairIsEscaped(LETTER_U);
    PlainRunIsEscaped(Hex4(n));
    EscapedAppend([BACKSLASH, LETTER_U], Hex4(n));
  }

  lemma UEscapeIsEscaped(c: CodePoint)
    ensures Escaped(UEscape(c))
  {
    hide Escaped, Hex4;
    if c > 0xFFFF {
      HexIsEscaped(HighSurrogate(c));
      HexIsEscaped(LowSurrogate(c));
      EscapedAppend([BACKSLASH, LETTER_U] + Hex4(HighSurrogate(c)), [BACKSLASH, LETTER_U] + Hex4(LowSurrogate(c)));
    } else {
      HexIsEscaped(c);
    }
  }

  lemma KeyUnitIsEscaped(c: CodePoint, ensureAscii: bool)
    ensures Escaped(KeyUnit(c, ensureAscii))
  {
    hide Escaped, UEscape;
    if c == SPACE {
      PairIsEscaped(SPACE);
    } else if !NeedsEscape(c, ensureAscii) {
      PlainIsEscaped(c);
    } else if c == TAB {
      PairIsEscaped(LETTER_T);
    } else if c == LF {
      PairIsEscaped(LETTER_N);
    } else if c == FF {
      PairIsEscaped(LETTER_F);
    } else if c == CR {
      PairIsEscaped(LETTER_R);
    } else if c == BANG || c == HASH || c == COLON || c == EQUALS || c == BACKSLASH {
      PairIsEscaped(c);
    } else {
      UEscapeIsEscaped(c);
    }
  }

  lemma {:induction false} EscapeIsEscaped(s: Text, ensureAscii: bool)
    ensures Escaped(Escape(s, ensureAscii))
  {
    hide Escaped, Escape, KeyUnit;
    if s == [] {
      NothingIsEscaped();
      EscapeNothing(ensureAscii);
    } else {
      EscapeCons(s, ensureAscii);
      KeyUnitIsEscaped(s[0], ensureAscii);
      EscapeIsEscaped(s[1..], ensureAscii);
      EscapedAppend(KeyUnit(s[0], ensureAscii), Escape(s[1..], ensureAscii));
    }
  }

  lemma {:induction false} BaseEscapeIsBalanced(s: Text, ensureAscii: bool)
    ensures Balanced(BaseEscape(s, ensureAscii))
  {
    hide Escaped, BaseUnit, Balanced;
    if s == [] {
      SpaceIsBalanced();
    } else {
      BaseEscapeIsBalanced(s[1..], ensureAscii);
      if s[0] == SPACE {
        SpaceIsBalanced();
        SpaceUnit(ensureAscii);
      } else {
        KeyUnitIsEscaped(s[0], ensureAscii);
        EscapedIsBalanced(BaseUnit(s[0], ensureAscii));
      }
      BalancedAppend(BaseUnit(s[0], ensureAscii), BaseEscape(s[1..], ensureAscii));
    }
  }

  lemma SpaceIsBalanced()
    ensures Balanced([SPACE]) && Balanced([])
  {
  }

  lemma SpaceUnit(ensureAscii: bool)
    ensures BaseUnit(SPACE, ensureAscii) == [SPACE]
  {
  }

  lemma EscapedIsBalanced(s: Text)
    requires Escaped(s)
    ensures Balanced(s)
  {
  }

  /** The value's text is balanced and never starts with a blank, which the separator would swallow. */
  lemma EscapeValueShape(value: Text, ensureAscii: bool)
    ensures var v := EscapeValue(value, ensureAscii);
            Balanced(v) && (v != [] ==> !IsBlank(v[0]))
  {
    hide BaseEscape;
    BaseEscapeIsBalanced(value, ensureAscii);
    var v := BaseEscape(value, ensureAscii);
    if v != [] && v[0] == SPACE {
      PairIsEscaped(SPACE);
      assert [BACKSLASH] + v == [BACKSLASH, SPACE] + v[1..];
      DropBareSpace(v);
      BalancedAppend([BACKSLASH, SPACE], v[1..]);
    }
  }

  lemma DropBareSpace(v: Text)
    requires Balanced(v) && v != [] && v[0] == SPACE
    ensures Balanced(v[1..])
  {
    TrailingBackslashesAppend([SPACE], v[1..]);
    assert [SPACE] + v[1..] == v;
  }

  // --- the whole line ---------------------------------------------------

  /** A line whose first character stands for itself. */
  predicate StartsBare(line: Text) {
    line != [] && !IsBlank(line[0]) && !IsMark(line[0]) && !IsEol(line[0])
  }

  lemma JoinShape(key: Text, value: Text, ensureAscii: bool)
    ensures var line := JoinKeyValue(key, value, ensureAscii);
            Balanced(line) && StartsBare(line)
  {
    hide Escape, EscapeValue, Shielded;
    var k, v := Escape(key, ensureAscii), EscapeValue(value, ensureAscii);
    EscapeIsEscaped(key, ensureAscii);
    EscapeValueShape(value, ensureAscii);
    EqualsIsBalanced();
    BalancedAppend(k, [EQUALS]);
    BalancedAppend(k + [EQUALS], v);
    if k != [] {
      ShieldedStart(k);
    }
  }

  lemma EqualsIsBalanced()
    ensures Balanced([EQUALS])
  {
  }

  lemma ShieldedStart(k: Text)
    requires Shielded(k) && k != []
    ensures !IsSpecial(k[0])
  {
    assert TrailingBackslashes(k[..0]) == 0;
  }

  /** A joined line is split at the sign it was joined with, whatever the key and the value hold. */
  lemma JoinSeparates(key: Text, value: Text, ensureAscii: bool)
    ensures var k := Escape(key, ensureAscii);
            SeparatorSearch(JoinKeyValue(key, value, ensureAscii), 0) == Some(Separator(|k|, |k| + 1))
  {
    hide Escape, EscapeValue, SeparatorSearch, TrailingBackslashes, Shielded, Printable;
    var k, v := Escape(key, ensureAscii), EscapeValue(value, ensureAscii);
    var line := JoinKeyValue(key, value, ensureAscii);
    EscapeIsEscaped(key, ensureAscii);
    EscapeValueShape(value, ensureAscii);
    ShieldedPrefix(k, [EQUALS] + v);
    assert line == k + ([EQUALS] + v);
    assert line[..|k|] == k;
    FirstUnescapedIsSeparator(line, |k|);
    assert |k| + 1 < |line| ==> line[|k| + 1] == v[0];
    assert ValueStart(line, |k|) == |k| + 1;
  }

  /** No key ends inside a shielded prefix. */
  lemma ShieldedPrefix(k: Text, rest: Text)
    requires Shielded(k)
    ensures forall i: nat :: KeyEnds(k + rest, i) ==> |k| <= i
  {
    hide TrailingBackslashes;
    forall i: nat | i < |k|
      ensures !KeyEnds(k + rest, i)
    {
      assert (k + rest)[..i] == k[..i];
    }
  }

  /** The element a joined line stands for, at every key and value. */
  lemma JoinElement(key: Text, value: Text, ensureAscii: bool, source: Text)
    ensures LogicalElement(JoinKeyValue(key, value, ensureAscii), source) ==
            Ok(KeyValue(Pair(key), Pair(value), source))
  {
    hide Escape, EscapeValue, SeparatorSearch, Pair, Unescape;
    var k, v := Escape(key, ensureAscii), EscapeValue(value, ensureAscii);
    var line := JoinKeyValue(key, value, ensureAscii);
    JoinSeparates(key, value, ensureAscii);
    assert line[..|k|] == k && line[|k| + 1..] == v;
    KeyRoundTrip(key, ensureAscii);
    ValueRoundTrip(value, ensureAscii);
  }
}
