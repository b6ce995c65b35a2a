/** What reaches `unescape`: no key and no value ends in a backslash that escapes nothing. */
module Fields {
  import opened Chars
  import opened Lines
  import opened Regexes
  import opened Reading
  import opened NewLines

  /** The value begins right behind a separator, so behind no backslash. */
  lemma ValueFollowsSeparator(line: Text, k: nat)
    requires KeyEnds(line, k)
    ensures k < ValueStart(line, k) <= |line| && IsSeparator(line[ValueStart(line, k) - 1])
  {
  }

  lemma SeparatorEndsRun(line: Text, v: nat)
    requires 0 < v <= |line| && IsSeparator(line[v - 1])
    ensures TrailingBackslashes(line[..v]) == 0
  {
  }

  /** Behind a separator the run of backslashes at the end is the value's own. */
  lemma ValueEndsAsLine(line: Text, v: nat)
    requires 0 < v <= |line| && IsSeparator(line[v - 1])
    ensures TrailingBackslashes(line[v..]) % 2 == TrailingBackslashes(line) % 2
  {
    SeparatorEndsRun(line, v);
    hide TrailingBackslashes;
    assert line == line[..v] + line[v..];
    ParityOfAppend(line[..v], line[v..]);
  }

  /** Key and value of a logical line each end in an even run of backslashes. */
  lemma FieldsAreWhole(lines: seq<Text>)
    requires lines != [] && forall i :: 0 <= i < |lines| ==> IsPhysical(lines[i])
    ensures
      var line := Join(lines);
      var m := SeparatorSearch(line, 0);
      if m.None? then TrailingBackslashes(line) % 2 == 0
      else
        && m.value.keyEnd <= |line| && m.value.valueStart <= |line|
        && TrailingBackslashes(line[..m.value.keyEnd]) % 2 == 0
        && TrailingBackslashes(line[m.value.valueStart..]) % 2 == 0
  {
    JoinIsEven(lines);
    hide Join, IsPhysical;
    LineFieldsAreWhole(Join(lines));
  }

  lemma LineFieldsAreWhole(line: Text)
    requires TrailingBackslashes(line) % 2 == 0
    ensures
      var m := SeparatorSearch(line, 0);
      m.Some? ==>
        && m.value.keyEnd <= |line| && m.value.valueStart <= |line|
        && TrailingBackslashes(line[..m.value.keyEnd]) % 2 == 0
        && TrailingBackslashes(line[m.value.valueStart..]) % 2 == 0
  {
    hide TrailingBackslashes, SeparatorSearch, ValueStart;
    SeparatorIsFirstUnescaped(line);
    var m := SeparatorSearch(line, 0);
    if m.Some? {
      ValueFollowsSeparator(line, m.value.keyEnd);
      ValueEndsAsLine(line, m.value.valueStart);
    }
  }
}
