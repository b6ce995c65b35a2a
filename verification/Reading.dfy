/** Reading a `.properties` document: escapes, logical lines and the elements they parse to. */
module Reading {
  import opened Sequences
  import opened Wrappers
  import opened Chars
  import opened Lines
  import opened OrderedDicts
  import opened Regexes

  // --- escapes ----------------------------------------------------------

  const LETTER_F: CodePoint := 0x66
  const LETTER_N: CodePoint := 0x6E
  const LETTER_R: CodePoint := 0x72
  const LETTER_T: CodePoint := 0x74
  const LETTER_U: CodePoint := 0x75

  predicate IsHexDigit(c: CodePoint) {
    0x30 <= c <= 0x39 || 0x41 <= c <= 0x46 || 0x61 <= c <= 0x66
  }

  function HexDigitValue(c: CodePoint): (v: nat)
    requires IsHexDigit(c)
    ensures v < 16
  {
    if c <= 0x39 then c - 0x30 else if c <= 0x46 then c - 0x41 + 10 else c - 0x61 + 10
  }

  /** `U_ESCAPE_RGX`: the letter u and exactly four hexadecimal digits. */
  predicate IsUEscape(esc: Text) {
    |esc| == 5 && esc[0] == LETTER_U && forall i :: 1 <= i < 5 ==> IsHexDigit(esc[i])
  }

  /** `chr(int(esc[1:], 16))` */
  function UEscapeValue(esc: Text): (c: CodePoint)
    requires IsUEscape(esc)
  {
    HexDigitValue(esc[1]) * 0x1000 + HexDigitValue(esc[2]) * 0x100 +
    HexDigitValue(esc[3]) * 0x10 + HexDigitValue(esc[4])
  }

  /** How many characters `.{0,max}` takes; a dot does not match LF. */
  function DotRun(s: Text, max: nat): (n: nat)
    ensures n <= |s| && n <= max
    ensures n < |s| && n < max ==> s[n] == LF
  {
    if s == [] || max == 0 || s[0] == LF then 0 else 1 + DotRun(s[1..], max - 1)
  }

  /** `_unescapes.get(esc, esc)` */
  function Unescaped(c: CodePoint): CodePoint {
    if c == LETTER_T then TAB
    else if c == LETTER_N then LF
    else if c == LETTER_F then FF
    else if c == LETTER_R then CR
    else c
  }

  /** The error of a parse is the text of the offending `\u` escape. */
  type Parsed<T> = Result<T, Text>

  /** `ESCAPE_RGX.sub(_unesc, field)` */
  function UnescapeRaw(field: Text): Parsed<Text> {
    if field == [] then Ok([])
    else if field[0] != BACKSLASH || |field| == 1 || field[1] == LF then
      var rest :- UnescapeRaw(field[1..]);
      Ok([field[0]] + rest)
    else if field[1] == LETTER_U then
      var esc := field[1..2 + DotRun(field[2..], 4)];
      if IsUEscape(esc) then
        var rest :- UnescapeRaw(field[6..]);
        Ok([UEscapeValue(esc)] + rest)
      else Err([BACKSLASH] + esc)
    else
      var rest :- UnescapeRaw(field[2..]);
      Ok([Unescaped(field[1])] + rest)
  }

  predicate IsHigh(c: CodePoint) {
    0xD800 <= c <= 0xDBFF
  }

  predicate IsLow(c: CodePoint) {
    0xDC00 <= c <= 0xDFFF
  }

  function Unsurrogate(high: CodePoint, low: CodePoint): (c: CodePoint)
    requires IsHigh(high) && IsLow(low)
    ensures c >= 0x1_0000
  {
    (high - 0xD800) * 0x400 + (low - 0xDC00) + 0x1_0000
  }

  /** `SURROGATE_PAIR_RGX.sub(_unsurrogate, s)` */
  function Pair(s: Text): Text {
    if s == [] then []
    else if |s| > 1 && IsHigh(s[0]) && IsLow(s[1]) then [Unsurrogate(s[0], s[1])] + Pair(s[2..])
    else [s[0]] + Pair(s[1..])
  }

  function Unescape(field: Text): Parsed<Text> {
    var raw :- UnescapeRaw(field);
    Ok(Pair(raw))
  }

  // --- elements ---------------------------------------------------------

  datatype Element =
    | Comment(source: Text)
    | Whitespace(source: Text)
    | KeyValue(key: Text, value: Text, source: Text)
  {
    function WithSource(newSource: Text): Element {
      match this
      case Comment(_) => Comment(newSource)
      case Whitespace(_) => Whitespace(newSource)
      case KeyValue(k, v, _) => KeyValue(k, v, newSource)
    }
  }

  /** `COMMENT_RGX.match(line)` */
  predicate IsCommentLine(line: Text) {
    LStrip(line) != [] && (LStrip(line)[0] == HASH || LStrip(line)[0] == BANG)
  }

  /** `BLANK_RGX.match(line)` */
  predicate IsBlankLine(line: Text) {
    IsLineEnding(LStrip(line))
  }

  /** `line.lstrip(" \t\f").rstrip("\r\n")` */
  function Strip(line: Text): Text {
    RStripEol(LStrip(line))
  }

  /** A physical line that hands over to the next one. */
  predicate Continues(line: Text) {
    IsContinued(Strip(line))
  }

  /** How many of `lines` the logical line that starts them takes. */
  function Span(lines: seq<Text>): (n: nat)
    requires lines != []
    ensures 0 < n <= |lines|
  {
    if Continues(lines[0]) && |lines| > 1 then 1 + Span(lines[1..]) else 1
  }

  /** The logical line that starts `lines`. */
  function Join(lines: seq<Text>): Text
    requires lines != []
  {
    DropContinuation(Strip(lines[0])) + if Continues(lines[0]) && |lines| > 1 then Join(lines[1..]) else []
  }

  /** The element a logical line stands for. */
  function LogicalElement(line: Text, source: Text): Parsed<Element> {
    if line == [] then Ok(Whitespace(source))
    else
      var m := SeparatorSearch(line, 0);
      if m.Some? then
        SeparatorIsFirstUnescaped(line);
        SeparatorBounds(line);
        var key :- Unescape(line[..m.value.keyEnd]);
        var value :- Unescape(line[m.value.valueStart..]);
        Ok(KeyValue(key, value, source))
      else
        var key :- Unescape(line);
        Ok(KeyValue(key, [], source))
  }

  lemma SeparatorBounds(line: Text)
    ensures var m := SeparatorSearch(line, 0);
            m.Some? ==> m.value.keyEnd < m.value.valueStart <= |line|
  {
    SeparatorIsFirstUnescaped(line);
  }

  /** The elements of a document given line by line, or the first bad escape. */
  function ParseLines(lines: seq<Text>): Parsed<seq<Element>> {
    if lines == [] then Ok([])
    else if IsCommentLine(lines[0]) then
      var rest :- ParseLines(lines[1..]);
      Ok([Comment(lines[0])] + rest)
    else if IsBlankLine(lines[0]) then
      var rest :- ParseLines(lines[1..]);
      Ok([Whitespace(lines[0])] + rest)
    else
      var n := Span(lines);
      var e :- LogicalElement(Join(lines), Flatten(lines[..n]));
      var rest :- ParseLines(lines[n..]);
      Ok([e] + rest)
  }

  function Parse(text: Text): Parsed<seq<Element>> {
    ParseLines(SplitLines(text))
  }

  /** The (key, value) entries among `es`, in order and with duplicates. */
  function Entries(es: seq<Element>): seq<(Text, Text)> {
    if es == [] then [] else EntryOf(es[0]) + Entries(es[1..])
  }

  function EntryOf(e: Element): seq<(Text, Text)> {
    if e.KeyValue? then [(e.key, e.value)] else []
  }

  /** `loads(s)`: the ordered dict of the entries, later occurrences overriding earlier ones. */
  function Loads(s: Text): Parsed<OrderedDict> {
    var es :- Parse(s);
    Ok(DictOf(Entries(es)))
  }

  // --- parse ------------------------------------------------------------

  function Prepend(done: seq<Element>, more: Parsed<seq<Element>>): Parsed<seq<Element>> {
    if more.Ok? then Ok(done + more.value) else more
  }

  lemma StripHasNoEol(line: Text)
    requires line == [] || IsPhysical(line)
    ensures NoEol(Strip(line))
  {
    if line != [] {
      PhysicalLStrip(line);
    }
  }

  lemma {:induction false} PhysicalLStrip(line: Text)
    requires IsPhysical(line)
    ensures LStrip(line) == [] || IsPhysical(LStrip(line))
    ensures NoEol(Strip(line))
  {
    if IsBlank(line[0]) && |line| > 1 {
      PhysicalLStrip(line[1..]);
    } else if IsBlank(line[0]) {
      assert LStrip(line) == LStrip(line[1..]) == [];
    } else {
      PhysicalShape(line);
    }
  }

  /** What is known of a logical line of `span` lines reading `whole` once `n` of them are gathered into `line`
      and `rest` is what the iterator still holds. */
  ghost predicate Gathered(span: nat, whole: Text, n: nat, line: Text, rest: seq<Text>) {
    && NoEol(line)
    && if IsContinued(line) && rest != []
       then span == n + Span(rest) && whole == DropContinuation(line) + Join(rest)
       else span == n && whole == DropContinuation(line)
  }

  lemma GatherStep(span: nat, whole: Text, n: nat, line: Text, rest: seq<Text>)
    requires Gathered(span, whole, n, line, rest) && IsContinued(line)
    requires rest != [] && IsPhysical(rest[0])
    ensures Gathered(span, whole, n + 1, DropContinuation(line) + Strip(rest[0]), rest[1..])
  {
    var chopped, more := DropContinuation(line), Strip(rest[0]);
    StripHasNoEol(rest[0]);
    ChoppedIsEven(line);
    AppendDecidesContinuation(chopped, more);
    Associates(chopped, DropContinuation(more), if Continues(rest[0]) && |rest| > 1 then Join(rest[1..]) else []);
  }

  lemma FlattenSnoc(lines: seq<Text>, first: nat, next: nat)
    requires first <= next < |lines|
    ensures Flatten(lines[first..next + 1]) == Flatten(lines[first..next]) + lines[next]
  {
    var one := [lines[next]];
    assert lines[first..next + 1] == lines[first..next] + one;
    FlattenAppend(lines[first..next], one);
    assert Flatten(one) == one[0] + Flatten(one[1..]);
  }

  /** The loop invariant below. */
  ghost predicate GatherInvariant(lines: seq<Text>, first: nat, next: nat, line: Text, source: Text) {
    && first < next <= |lines|
    && source == Flatten(lines[first..next])
    && Gathered(Span(lines[first..]), Join(lines[first..]), next - first, line, lines[next..])
  }

  lemma GatherStarts(lines: seq<Text>, first: nat)
    requires first < |lines| && IsPhysical(lines[first])
    ensures GatherInvariant(lines, first, first + 1, Strip(lines[first]), lines[first])
  {
    StripHasNoEol(lines[first]);
    FlattenSnoc(lines, first, first);
    assert lines[first..][1..] == lines[first + 1..];
  }

  lemma GatherPulls(lines: seq<Text>, first: nat, next: nat, line: Text, source: Text)
    requires GatherInvariant(lines, first, next, line, source) && IsContinued(line)
    requires next < |lines| && IsPhysical(lines[next])
    ensures GatherInvariant(lines, first, next + 1, DropContinuation(line) + Strip(lines[next]), source + lines[next])
  {
    var rest := lines[next..];
    GatherStep(Span(lines[first..]), Join(lines[first..]), next - first, line, rest);
    FlattenSnoc(lines, first, next);
    assert rest[0] == lines[next] && rest[1..] == lines[next + 1..];
  }

  lemma GatherExhausted(lines: seq<Text>, first: nat, line: Text, source: Text)
    requires GatherInvariant(lines, first, |lines|, line, source) && IsContinued(line)
    ensures GatherInvariant(lines, first, |lines|, DropContinuation(line) + Strip([]), source + [])
  {
    ChoppedIsEven(line);
    ContinuedWithoutEol(DropContinuation(line));
    assert DropContinuation(line) + Strip([]) == DropContinuation(line) && source + [] == source;
  }

  /** One turn of the loop: whatever `next(liter, "")` gives, the invariant holds of what the turn leaves. */
  lemma GatherTurn(lines: seq<Text>, first: nat, next: nat, line: Text, source: Text, nextline: Text)
    requires GatherInvariant(lines, first, next, line, source) && IsContinued(line)
    requires forall i :: 0 <= i < |lines| ==> IsPhysical(lines[i])
    requires nextline == if next < |lines| then lines[next] else []
    ensures line != []
    ensures next <= |lines|
    ensures GatherInvariant(lines, first, if next < |lines| then next + 1 else next,
                            line[..|line| - 1] + Strip(nextline), source + nextline)
    ensures next == |lines| ==> Strip(nextline) == []
  {
    ChoppedIsEven(line);
    if next < |lines| {
      GatherPulls(lines, first, next, line, source);
    } else {
      GatherExhausted(lines, first, line, source);
    }
  }

  lemma GatherEnds(lines: seq<Text>, first: nat, next: nat, line: Text, source: Text)
    requires GatherInvariant(lines, first, next, line, source) && !IsContinued(line)
    ensures next == first + Span(lines[first..]) && line == Join(lines[first..])
    ensures next <= |lines| && source == Flatten(lines[first..next])
  {
    ContinuedWithoutEol(line);
  }

  /** The continuation loop of `parse`: chop the backslash, pull the next line from the iterator if there is one,
      append it stripped. */
  method GatherLogicalLine(lines: seq<Text>, first: nat) returns (line: Text, source: Text, next: nat)
    requires first < |lines| && forall i :: 0 <= i < |lines| ==> IsPhysical(lines[i])
    ensures next == first + Span(lines[first..])
    ensures line == Join(lines[first..])
    ensures next <= |lines| && source == Flatten(lines[first..next])
  {
    hide *;
    source, next := lines[first], first + 1;
    line := Strip(source);
    GatherStarts(lines, first);
    while IsContinued(line)
      invariant GatherInvariant(lines, first, next, line, source)
      decreases |lines| - next, |line|
    {
      var nextline := if next < |lines| then lines[next] else [];
      GatherTurn(lines, first, next, line, source, nextline);
      line := line[..|line| - 1] + Strip(nextline);
      source := source + nextline;
      if next < |lines| {
        next := next + 1;
      }
    }
    GatherEnds(lines, first, next, line, source);
  }

  lemma AllPhysical(text: Text)
    ensures var lines := SplitLines(text); forall i :: 0 <= i < |lines| ==> IsPhysical(lines[i])
  {
    var lines := SplitLines(text);
    forall i | 0 <= i < |lines|
      ensures IsPhysical(lines[i])
    {
      LinesArePhysical(text, i);
    }
  }

  lemma PrependNothing(more: Parsed<seq<Element>>)
    ensures Prepend([], more) == more
  {
    if more.Ok? {
      assert [] + more.value == more.value;
    }
  }

  lemma PrependStep(done: seq<Element>, e: Element, more: Parsed<seq<Element>>)
    ensures Prepend(done, Prepend([e], more)) == Prepend(done + [e], more)
  {
    if more.Ok? {
      assert done + ([e] + more.value) == done + [e] + more.value;
    }
  }

  /** One turn of the loop below, for the element at `i`. */
  lemma ParseStep(lines: seq<Text>, i: nat, done: seq<Element>)
    requires i < |lines|
    ensures var rest := lines[i..];
            var r := Prepend(done, ParseLines(rest));
            if IsCommentLine(lines[i]) then
              r == Prepend(done + [Comment(lines[i])], ParseLines(lines[i + 1..]))
            else if IsBlankLine(lines[i]) then
              r == Prepend(done + [Whitespace(lines[i])], ParseLines(lines[i + 1..]))
            else
              var n := i + Span(rest);
              var e := LogicalElement(Join(rest), Flatten(lines[i..n]));
              r == if e.Err? then Err(e.error) else Prepend(done + [e.value], ParseLines(lines[n..]))
  {
    hide LogicalElement, Flatten, Span, Join, IsCommentLine, IsBlankLine;
    var rest := lines[i..];
    assert rest[1..] == lines[i + 1..];
    if IsCommentLine(lines[i]) {
      PrependStep(done, Comment(lines[i]), ParseLines(lines[i + 1..]));
    } else if IsBlankLine(lines[i]) {
      PrependStep(done, Whitespace(lines[i]), ParseLines(lines[i + 1..]));
    } else {
      var n := i + Span(rest);
      assert rest[..n - i] == lines[i..n] && rest[n - i..] == lines[n..];
      var e := LogicalElement(Join(rest), Flatten(lines[i..n]));
      if e.Ok? {
        PrependStep(done, e.value, ParseLines(lines[n..]));
      }
    }
  }

  lemma ParseNothing()
    ensures ParseLines([]) == Ok([])
  {
  }

  method ParseStream(text: Text) returns (r: Parsed<seq<Element>>)
    ensures r == Parse(text)
  {
    hide LogicalElement, Flatten, Span, Join, IsCommentLine, IsBlankLine, SplitLines, IsPhysical, ParseLines;
    var lines := LineIterator(text);
    AllPhysical(text);
    var elements := [];
    var i := 0;
    assert lines[0..] == lines;
    PrependNothing(ParseLines(lines));
    while i < |lines|
      invariant i <= |lines|
      invariant Parse(text) == Prepend(elements, ParseLines(lines[i..]))
    {
      ParseStep(lines, i, elements);
      if IsCommentLine(lines[i]) {
        elements, i := elements + [Comment(lines[i])], i + 1;
      } else if IsBlankLine(lines[i]) {
        elements, i := elements + [Whitespace(lines[i])], i + 1;
      } else {
        var line, source, next := GatherLogicalLine(lines, i);
        var parsed := LogicalElement(line, source);
        if parsed.Err? {
          return Err(parsed.error);
        }
        elements, i := elements + [parsed.value], next;
      }
    }
    assert lines[i..] == [];
    ParseNothing();
    assert elements + [] == elements;
    return Ok(elements);
  }
}
