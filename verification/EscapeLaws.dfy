/** What escaping and unescaping are to each other, over whole strings and every code point. */
module EscapeLaws {
  import opened Wrappers
  import opened Chars
  import opened Reading
  import opened Writing

  // --- surrogates -------------------------------------------------------

  /** No high surrogate stands directly before a low one. */
  predicate PairFree(s: Text) {
    forall i :: 0 <= i < |s| - 1 ==> !(IsHigh(s[i]) && IsLow(s[i + 1]))
  }

  /** The text an escaped field decodes to before pairing: the code points beyond the BMP as their halves. */
  function Expand(s: Text, ensureAscii: bool): Text {
    if s == [] then []
    else ExpandChar(s[0], ensureAscii) + Expand(s[1..], ensureAscii)
  }

  function ExpandChar(c: CodePoint, ensureAscii: bool): Text {
    if ensureAscii && c > 0xFFFF then [HighSurrogate(c), LowSurrogate(c)] else [c]
  }

  /** Section 2.1 of RFC 2781 undone by section 2.2. */
  lemma SurrogatesInverse(c: CodePoint)
    requires c > 0xFFFF
    ensures Unsurrogate(HighSurrogate(c), LowSurrogate(c)) == c
  {
    var u := c - 0x1_0000;
    assert u == u / 0x400 * 0x400 + u % 0x400;
  }

  /** Pairing from left to right never joins halves of neighbouring characters: it undoes the expansion. */
  lemma {:induction false} PairAfterExpand(s: Text, ensureAscii: bool)
    ensures Pair(Expand(s, ensureAscii)) == Pair(s)
    decreases |s|
  {
    hide Unsurrogate, HighSurrogate, LowSurrogate, Expand, ExpandChar;
    if s == [] {
      ExpandNothing(ensureAscii);
    } else {
      var c, rest := s[0], s[1..];
      PairAfterExpand(rest, ensureAscii);
      ExpandHead(s, ensureAscii);
      var x := Expand(rest, ensureAscii);
      if ensureAscii && c > 0xFFFF {
        SurrogatesInverse(c);
        var whole := [HighSurrogate(c), LowSurrogate(c)] + x;
        assert whole[2..] == x;
      } else if rest != [] && IsHigh(c) && IsLow(rest[0]) {
        ExpandHead(rest, ensureAscii);
        var y := Expand(rest[1..], ensureAscii);
        assert x == [rest[0]] + y;
        assert ([c] + x)[2..] == y;
        assert s[2..] == rest[1..];
        PairAfterExpand(rest[1..], ensureAscii);
      } else {
        assert ([c] + x)[1..] == x;
        if rest == [] {
          ExpandNothing(ensureAscii);
        } else {
          ExpandHead(rest, ensureAscii);
        }
      }
    }
  }

  lemma ExpandNothing(ensureAscii: bool)
    ensures Expand([], ensureAscii) == []
  {
  }

  /** A character beyond the BMP becomes its halves, the high one first; any other stays itself. */
  lemma ExpandHead(s: Text, ensureAscii: bool)
    requires s != []
    ensures Expand(s, ensureAscii) ==
            (if ensureAscii && s[0] > 0xFFFF then [HighSurrogate(s[0]), LowSurrogate(s[0])] else [s[0]])
            + Expand(s[1..], ensureAscii)
  {
    hide HighSurrogate, LowSurrogate;
  }

  lemma {:induction false} PairShrinks(s: Text)
    ensures |Pair(s)| <= |s|
    ensures |Pair(s)| == |s| ==> PairFree(s)
    decreases |s|
  {
    if |s| > 1 && IsHigh(s[0]) && IsLow(s[1]) {
      PairShrinks(s[2..]);
    } else if s != [] {
      PairShrinks(s[1..]);
      if |Pair(s)| == |s| {
        forall i | 0 <= i < |s| - 1
          ensures !(IsHigh(s[i]) && IsLow(s[i + 1]))
        {
          if i > 0 {
            assert s[1..][i - 1] == s[i] && s[1..][i] == s[i + 1];
          }
        }
      }
    }
  }

  lemma {:induction false} PairOfPairFree(s: Text)
    requires PairFree(s)
    ensures Pair(s) == s
  {
    if s != [] {
      PairOfPairFree(s[1..]);
    }
  }

  /** Text survives pairing exactly when it holds no adjacent halves. */
  lemma PairIsIdentityIff(s: Text)
    ensures Pair(s) == s <==> PairFree(s)
  {
    PairShrinks(s);
    if PairFree(s) {
      PairOfPairFree(s);
    }
  }

  /** Nothing that was paired can be paired again, so no parsed key or value holds adjacent halves. */
  lemma {:induction false} PairIsPairFree(s: Text)
    ensures PairFree(Pair(s))
    ensures s != [] ==> Pair(s) != [] && (IsLow(Pair(s)[0]) ==> IsLow(s[0]))
    decreases |s|
  {
    if |s| > 1 && IsHigh(s[0]) && IsLow(s[1]) {
      PairIsPairFree(s[2..]);
    } else if s != [] {
      PairIsPairFree(s[1..]);
    }
  }

  /** Length in UTF-16 code units, which pairing keeps. */
  function Utf16Length(s: Text): nat {
    if s == [] then 0 else (if s[0] > 0xFFFF then 2 else 1) + Utf16Length(s[1..])
  }

  lemma {:induction false} PairKeepsUtf16Length(s: Text)
    ensures Utf16Length(Pair(s)) == Utf16Length(s)
    decreases |s|
  {
    if |s| > 1 && IsHigh(s[0]) && IsLow(s[1]) {
      PairKeepsUtf16Length(s[2..]);
      assert s[1..][1..] == s[2..];
    } else if s != [] {
      PairKeepsUtf16Length(s[1..]);
    }
  }

  lemma {:induction false} Utf16LengthAppend(a: Text, b: Text)
    ensures Utf16Length(a + b) == Utf16Length(a) + Utf16Length(b)
  {
    if a == [] {
      assert a + b == b;
    } else {
      assert (a + b)[1..] == a[1..] + b;
      Utf16LengthAppend(a[1..], b);
    }
  }

  // --- unescaping -------------------------------------------------------

  function Glue(a: Text, r: Parsed<Text>): Parsed<Text> {
    if r.Ok? then Ok(a + r.value) else r
  }

  lemma GlueTwice(a: Text, b: Text, r: Parsed<Text>)
    ensures Glue(a, Glue(b, r)) == Glue(a + b, r)
  {
    if r.Ok? {
      assert a + (b + r.value) == a + b + r.value;
    }
  }

  lemma UEscapeStep(esc: Text, rest: Text)
    requires IsUEscape(esc)
    ensures UnescapeRaw([BACKSLASH] + esc + rest) == Glue([UEscapeValue(esc)], UnescapeRaw(rest))
  {
    var field := [BACKSLASH] + esc + rest;
    HexRunIsTaken(esc[1..], rest);
    assert field[2..] == esc[1..] + rest;
    assert field[1..6] == esc;
    assert field[6..] == rest;
  }

  /** `\uXXXX` decodes to the number it was formatted from. */
  lemma UEscapeInverse(n: CodePoint, rest: Text)
    requires n < 0x1_0000
    ensures UnescapeRaw([BACKSLASH, LETTER_U] + Hex4(n) + rest) == Glue([n], UnescapeRaw(rest))
  {
    HexValueInverse(n);
    UEscapeStep([LETTER_U] + Hex4(n), rest);
    assert [BACKSLASH] + ([LETTER_U] + Hex4(n)) == [BACKSLASH, LETTER_U] + Hex4(n);
  }

  lemma HexRunIsTaken(h: Text, rest: Text)
    requires |h| == 4 && forall i :: 0 <= i < 4 ==> IsHexDigit(h[i])
    ensures DotRun(h + rest, 4) == 4
  {
    var t := h + rest;
    assert t[1..] == h[1..] + rest && t[1..][1..] == h[2..] + rest && t[1..][1..][1..] == h[3..] + rest;
  }

  lemma HexValueInverse(n: CodePoint)
    requires n < 0x1_0000
    ensures IsUEscape([LETTER_U] + Hex4(n)) && UEscapeValue([LETTER_U] + Hex4(n)) == n
  {
    assert n == n / 0x10 * 0x10 + n % 0x10;
    assert n / 0x10 == n / 0x100 * 0x10 + n / 0x10 % 0x10;
    assert n / 0x100 == n / 0x1000 * 0x10 + n / 0x100 % 0x10;
  }

  lemma SimpleEscapeInverse(c: CodePoint, rest: Text)
    requires c != LF && c != LETTER_U
    ensures UnescapeRaw([BACKSLASH, c] + rest) == Glue([Unescaped(c)], UnescapeRaw(rest))
  {
    var field := [BACKSLASH, c] + rest;
    assert field[2..] == rest;
  }

  lemma PlainCharInverse(c: CodePoint, rest: Text)
    requires c != BACKSLASH
    ensures UnescapeRaw([c] + rest) == Glue([c], UnescapeRaw(rest))
  {
    assert ([c] + rest)[1..] == rest;
  }

  /** A character written with `\u` escapes, one or two of them. */
  lemma UEscapesInverse(c: CodePoint, rest: Text)
    ensures UnescapeRaw(UEscape(c) + rest) == Glue(ExpandChar(c, true), UnescapeRaw(rest))
  {
    hide UnescapeRaw, Hex4, HighSurrogate, LowSurrogate;
    if c > 0xFFFF {
      var high := [BACKSLASH, LETTER_U] + Hex4(HighSurrogate(c));
      var low := [BACKSLASH, LETTER_U] + Hex4(LowSurrogate(c));
      assert UEscape(c) + rest == high + (low + rest);
      UEscapeInverse(HighSurrogate(c), low + rest);
      UEscapeInverse(LowSurrogate(c), rest);
      GlueTwice([HighSurrogate(c)], [LowSurrogate(c)], UnescapeRaw(rest));
      assert [HighSurrogate(c)] + [LowSurrogate(c)] == ExpandChar(c, true);
    } else {
      UEscapeInverse(c, rest);
    }
  }

  lemma BaseUnitInverse(c: CodePoint, ensureAscii: bool, rest: Text)
    ensures UnescapeRaw(BaseUnit(c, ensureAscii) + rest) == Glue(ExpandChar(c, ensureAscii), UnescapeRaw(rest))
  {
    hide UnescapeRaw, UEscape;
    if !NeedsEscape(c, ensureAscii) {
      PlainCharInverse(c, rest);
    } else if c == TAB {
      SimpleEscapeInverse(LETTER_T, rest);
    } else if c == LF {
      SimpleEscapeInverse(LETTER_N, rest);
    } else if c == FF {
      SimpleEscapeInverse(LETTER_F, rest);
    } else if c == CR {
      SimpleEscapeInverse(LETTER_R, rest);
    } else if c == BANG || c == HASH || c == COLON || c == EQUALS || c == BACKSLASH {
      SimpleEscapeInverse(c, rest);
    } else {
      UEscapesInverse(c, rest);
    }
  }

  // --- fields -----------------------------------------------------------

  /** `Escape` character by character. */
  function KeyUnit(c: CodePoint, ensureAscii: bool): Text {
    if c == SPACE then [BACKSLASH, SPACE] else BaseUnit(c, ensureAscii)
  }

  lemma {:induction false} EscapeSpacesAppend(a: Text, b: Text)
    ensures EscapeSpaces(a + b) == EscapeSpaces(a) + EscapeSpaces(b)
  {
    if a == [] {
      assert a + b == b;
    } else {
      assert (a + b)[1..] == a[1..] + b;
      EscapeSpacesAppend(a[1..], b);
    }
  }

  lemma {:induction false} EscapeSpacesWithoutSpaces(s: Text)
    requires SPACE !in s
    ensures EscapeSpaces(s) == s
  {
    if s != [] {
      EscapeSpacesWithoutSpaces(s[1..]);
    }
  }

  lemma BaseUnitSpaces(c: CodePoint, ensureAscii: bool)
    ensures EscapeSpaces(BaseUnit(c, ensureAscii)) == KeyUnit(c, ensureAscii)
  {
    if c == SPACE {
      assert [SPACE][1..] == [];
      assert EscapeSpaces([SPACE]) == [BACKSLASH, SPACE] + EscapeSpaces([SPACE][1..]);
    } else {
      NoSpaceInUnit(c, ensureAscii);
      EscapeSpacesWithoutSpaces(BaseUnit(c, ensureAscii));
    }
  }

  lemma NoSpaceInUnit(c: CodePoint, ensureAscii: bool)
    requires c != SPACE
    ensures SPACE !in BaseUnit(c, ensureAscii)
  {
    hide HexDigit;
  }

  lemma EscapeCons(field: Text, ensureAscii: bool)
    requires field != []
    ensures Escape(field, ensureAscii) == KeyUnit(field[0], ensureAscii) + Escape(field[1..], ensureAscii)
  {
    EscapeSpacesAppend(BaseUnit(field[0], ensureAscii), BaseEscape(field[1..], ensureAscii));
    BaseUnitSpaces(field[0], ensureAscii);
  }

  lemma {:induction false} UnescapeBaseEscape(s: Text, ensureAscii: bool)
    ensures UnescapeRaw(BaseEscape(s, ensureAscii)) == Ok(Expand(s, ensureAscii))
  {
    hide BaseUnit, ExpandChar;
    if s != [] {
      UnescapeBaseEscape(s[1..], ensureAscii);
      BaseUnitInverse(s[0], ensureAscii, BaseEscape(s[1..], ensureAscii));
    }
  }

  lemma {:induction false} UnescapeRawEscape(s: Text, ensureAscii: bool)
    ensures UnescapeRaw(Escape(s, ensureAscii)) == Ok(Expand(s, ensureAscii))
  {
    hide BaseUnit, Escape, BaseEscape, UnescapeRaw;
    if s == [] {
      EscapeNothing(ensureAscii);
    } else {
      EscapeCons(s, ensureAscii);
      var rest := Escape(s[1..], ensureAscii);
      UnescapeRawEscape(s[1..], ensureAscii);
      if s[0] == SPACE {
        SimpleEscapeInverse(SPACE, rest);
      } else {
        BaseUnitInverse(s[0], ensureAscii, rest);
      }
    }
  }

  lemma EscapeNothing(ensureAscii: bool)
    ensures Escape([], ensureAscii) == [] && UnescapeRaw([]) == Ok([])
  {
  }

  /** Every key decodes to itself paired. */
  lemma KeyRoundTrip(key: Text, ensureAscii: bool)
    ensures Unescape(Escape(key, ensureAscii)) == Ok(Pair(key))
  {
    UnescapeRawEscape(key, ensureAscii);
    PairAfterExpand(key, ensureAscii);
  }

  /** Every value decodes to itself paired, whether or not a leading space had to be protected. */
  lemma ValueRoundTrip(value: Text, ensureAscii: bool)
    ensures Unescape(EscapeValue(value, ensureAscii)) == Ok(Pair(value))
  {
    hide BaseEscape, UnescapeRaw, Pair, Expand;
    UnescapeBaseEscape(value, ensureAscii);
    PairAfterExpand(value, ensureAscii);
    var v := BaseEscape(value, ensureAscii);
    if v != [] && v[0] == SPACE {
      ProtectedSpace(v);
    }
  }

  /** A backslash in front of a leading space changes nothing. */
  lemma ProtectedSpace(v: Text)
    requires v != [] && v[0] == SPACE
    ensures UnescapeRaw([BACKSLASH] + v) == UnescapeRaw(v)
  {
    hide UnescapeRaw;
    SimpleEscapeInverse(SPACE, v[1..]);
    PlainCharInverse(SPACE, v[1..]);
    assert [SPACE] + v[1..] == v && [BACKSLASH, SPACE] + v[1..] == [BACKSLASH] + v;
  }

  /** A field comes back unchanged exactly when it holds no adjacent halves. */
  lemma RoundTripIff(field: Text, ensureAscii: bool)
    ensures Unescape(Escape(field, ensureAscii)) == Ok(field) <==> PairFree(field)
    ensures Unescape(EscapeValue(field, ensureAscii)) == Ok(field) <==> PairFree(field)
  {
    hide Unescape, Escape, EscapeValue, PairFree;
    KeyRoundTrip(field, ensureAscii);
    ValueRoundTrip(field, ensureAscii);
    PairIsIdentityIff(field);
  }

  // --- decoding a concatenation -----------------------------------------

  /** A high half directly before a low one comes back as the one character they stand for together. */
  lemma HalvesComeBackJoined(ensureAscii: bool)
    ensures Unescape(Escape([0xD800, 0xDC00], ensureAscii)) == Ok([0x1_0000])
  {
    var halves: Text := [0xD800, 0xDC00];
    KeyRoundTrip(halves, ensureAscii);
    hide Escape, Unescape;
    var none: Text := halves[2..];
    assert none == [];
    assert Unsurrogate(halves[0], halves[1]) == 0x1_0000;
    assert Pair(none) == none;
    var joined: Text := [0x1_0000];
    assert Pair(halves) == joined + none == joined;
  }

  /** How much of a field one step of the escape substitution reads. */
  function UnitLength(a: Text): nat
    requires a != []
  {
    if a[0] != BACKSLASH || |a| == 1 then 1 else if a[1] == LETTER_U then 6 else 2
  }

  /** One step of the substitution reads whole escapes only. */
  lemma UnitIsWhole(a: Text)
    requires a != [] && NoEol(a) && UnescapeRaw(a).Ok? && a != [BACKSLASH]
    ensures UnitLength(a) <= |a| && UnescapeRaw(a[UnitLength(a)..]).Ok?
    ensures UnitLength(a) == 6 ==> IsUEscape(a[1..6])
  {
    hide NoEol, DotRun, IsHexDigit, UEscapeValue, Unescaped;
    if |a| > 1 {
      NoEolAt(a);
      if a[0] == BACKSLASH && a[1] == LETTER_U {
        assert IsUEscape(a[1..2 + DotRun(a[2..], 4)]);
      }
    }
  }

  lemma NoEolAt(a: Text)
    requires NoEol(a) && |a| > 1
    ensures !IsEol(a[1])
  {
  }

  lemma UnitParity(a: Text)
    requires a != [] && a != [BACKSLASH]
    requires UnitLength(a) <= |a| && (UnitLength(a) == 6 ==> IsUEscape(a[1..6]))
    ensures TrailingBackslashes(a[..UnitLength(a)]) % 2 == 0
  {
    var u := a[..UnitLength(a)];
    if |u| == 6 {
      assert u[5] == a[1..6][4];
    } else if |u| == 2 {
      assert u[..1][..0] == [];
      assert TrailingBackslashes(u[..1]) == 1;
    }
  }

  /** What follows a whole escape does not change how it reads. */
  lemma UnitAppend(a: Text, b: Text)
    requires a != [] && a != [BACKSLASH] && NoEol(a)
    requires UnitLength(a) <= |a| && (UnitLength(a) == 6 ==> IsUEscape(a[1..6]))
    requires var rest := a[UnitLength(a)..];
             UnescapeRaw(rest).Ok? && UnescapeRaw(rest + b) == Glue(UnescapeRaw(rest).value, UnescapeRaw(b))
    ensures UnescapeRaw(a).Ok?
    ensures UnescapeRaw(a + b) == Glue(UnescapeRaw(a).value, UnescapeRaw(b))
  {
    hide UnescapeRaw, IsUEscape, UEscapeValue, Unescaped, TrailingBackslashes;
    var n := UnitLength(a);
    var rest := a[n..];
    if n == 6 {
      UEscapeStep(a[1..6], rest);
      UEscapeStep(a[1..6], rest + b);
      assert a == [BACKSLASH] + a[1..6] + rest;
      assert a + b == [BACKSLASH] + a[1..6] + (rest + b);
      GlueTwice([UEscapeValue(a[1..6])], UnescapeRaw(rest).value, UnescapeRaw(b));
    } else if n == 2 {
      SimpleEscapeInverse(a[1], rest);
      SimpleEscapeInverse(a[1], rest + b);
      assert a == [BACKSLASH, a[1]] + rest;
      assert a + b == [BACKSLASH, a[1]] + (rest + b);
      GlueTwice([Unescaped(a[1])], UnescapeRaw(rest).value, UnescapeRaw(b));
    } else {
      PlainCharInverse(a[0], rest);
      PlainCharInverse(a[0], rest + b);
      assert a == [a[0]] + rest;
      assert a + b == [a[0]] + (rest + b);
      GlueTwice([a[0]], UnescapeRaw(rest).value, UnescapeRaw(b));
    }
  }

  /** A field that decodes and leaves no backslash unpaired decodes the same in front of anything. */
  lemma {:induction false} UnescapeRawAppend(a: Text, b: Text)
    requires NoEol(a) && UnescapeRaw(a).Ok? && TrailingBackslashes(a) % 2 == 0
    ensures UnescapeRaw(a + b) == Glue(UnescapeRaw(a).value, UnescapeRaw(b))
    decreases |a|
  {
    hide UnescapeRaw;
    if a == [] {
      assert a + b == b;
      EscapeNothing(true);
      assert UnescapeRaw(b).Ok? ==> [] + UnescapeRaw(b).value == UnescapeRaw(b).value;
    } else {
      assert a != [BACKSLASH] by {
        assert [BACKSLASH][..0] == [];
      }
      UnitIsWhole(a);
      UnitParity(a);
      var u, rest := a[..UnitLength(a)], a[UnitLength(a)..];
      assert a == u + rest;
      TrailingBackslashesAppend(u, rest);
      UnescapeRawAppend(rest, b);
      UnitAppend(a, b);
    }
  }
}
