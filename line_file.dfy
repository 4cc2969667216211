/** The text of the task file as `BufferedWriter` writes it and
    `BufferedReader` reads it back: `newLine()` ends each written line,
    `readLine()` returns one line at a time without its terminator. */
module LineFile {

  /** The line separator `newLine()` writes; a Unix-like `line.separator`
      is assumed. */
  const NewLine: string := "\n"

  /** `readLine()` ends a line at a line feed, a carriage return, or a
      carriage return followed by a line feed. */
  predicate IsLineBreak(c: char) {
    c == '\n' || c == '\r'
  }

  predicate HasLineBreak(s: string) {
    '\n' in s || '\r' in s
  }

  /** The position of the first line break in `s`. */
  function FirstLineBreak(s: string): (k: nat)
    requires HasLineBreak(s)
    ensures k < |s| && IsLineBreak(s[k]) && !HasLineBreak(s[..k])
  {
    if IsLineBreak(s[0]) then 0 else 1 + FirstLineBreak(s[1..])
  }

  /** What a writer holds after `write(line); newLine()` for every line in turn. */
  function WriteLines(lines: seq<string>): (text: string)
    ensures text == [] <==> lines == []
    ensures lines != [] ==> text[|text| - 1] == '\n'
  {
    if lines == [] then [] else lines[0] + NewLine + WriteLines(lines[1..])
  }

  /** The lines `readLine()` returns, in order, until it returns null at
      the end of the text; a last line without a terminator still counts,
      and an empty text holds no line at all. */
  function ReadLines(text: string): (lines: seq<string>)
    ensures forall k :: 0 <= k < |lines| ==> !HasLineBreak(lines[k])
    ensures text == [] <==> lines == []
    decreases |text|
  {
    if text == [] then []
    else if !HasLineBreak(text) then [text]
    else
      var k := FirstLineBreak(text);
      var next := if text[k] == '\r' && k + 1 < |text| && text[k + 1] == '\n' then k + 2 else k + 1;
      [text[..k]] + ReadLines(text[next..])
  }

  /** Writing two runs of lines one after the other writes their concatenation. */
  lemma {:induction false} WriteLinesAppend(a: seq<string>, b: seq<string>)
    ensures WriteLines(a + b) == WriteLines(a) + WriteLines(b)
  {
    if a == [] {
      assert a + b == b;
    } else {
      assert (a + b)[1..] == a[1..] + b;
      WriteLinesAppend(a[1..], b);
    }
  }

  /** Reading back what was written gives the same lines, provided none
      of them holds a line break of its own. */
  lemma {:induction false} ReadLinesWriteLines(lines: seq<string>)
    requires forall k :: 0 <= k < |lines| ==> !HasLineBreak(lines[k])
    ensures ReadLines(WriteLines(lines)) == lines
  {
    if lines != [] {
      var text := WriteLines(lines);
      var line := lines[0];
      assert text == line + NewLine + WriteLines(lines[1..]);
      assert text[|line|] == '\n';
      var k := FirstLineBreak(text);
      assert text[..k] == line;
      assert text[k + 1..] == WriteLines(lines[1..]);
      ReadLinesWriteLines(lines[1..]);
    }
  }

  /** A line ended by a carriage return and a line feed is read as one line. */
  lemma ReadLinesCrLf(line: string, rest: string)
    requires !HasLineBreak(line)
    ensures ReadLines(line + "\r\n" + rest) == [line] + ReadLines(rest)
  {
    var text := line + "\r\n" + rest;
    assert text[|line|] == '\r';
    var k := FirstLineBreak(text);
    assert k == |line|;
    assert text[..k] == line;
    assert text[k + 2..] == rest;
  }

  /** A line ended by a lone carriage return is read as one line. */
  lemma ReadLinesCr(line: string, rest: string)
    requires !HasLineBreak(line)
    requires rest == [] || rest[0] != '\n'
    ensures ReadLines(line + "\r" + rest) == [line] + ReadLines(rest)
  {
    var text := line + "\r" + rest;
    assert text[|line|] == '\r';
    var k := FirstLineBreak(text);
    assert k == |line|;
    assert text[..k] == line;
    assert text[k + 1..] == rest;
  }
}
