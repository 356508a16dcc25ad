/** How Open turns the lines a reader returns into the editor's text, and how
    that text relates to the file it came from. */
module Lines {

  /** The text Open builds: every line read, in order, each followed by "\n",
      appended one after another as the `StringBuilder` loop does. */
  function JoinLines(lines: seq<string>): (text: string)
    ensures text == "" <==> lines == []
    ensures lines != [] ==> text[|text| - 1] == '\n'
  {
    if lines == [] then ""
    else JoinLines(lines[..|lines| - 1]) + lines[|lines| - 1] + "\n"
  }

  /** The read loop of Open: while the reader yields another line, append it
      and a newline to the text built so far. */
  method ReadAll(lines: seq<string>) returns (text: string)
    ensures text == JoinLines(lines)
  {
    text := "";
    var i := 0;
    while i < |lines|
      invariant 0 <= i <= |lines|
      invariant text == JoinLines(lines[..i])
    {
      assert lines[..i + 1][..i] == lines[..i];
      text := text + lines[i] + "\n";
      i := i + 1;
    }
    assert lines[..i] == lines;
  }

  /** Joining a first line with the rest: the line, its newline, then the
      rest joined. */
  lemma {:induction false} JoinLinesCons(line: string, rest: seq<string>)
    ensures JoinLines([line] + rest) == line + "\n" + JoinLines(rest)
    decreases |rest|
  {
    var all := [line] + rest;
    if rest != [] {
      var n := |rest|;
      assert all[..|all| - 1] == [line] + rest[..n - 1];
      assert all[|all| - 1] == rest[n - 1];
      JoinLinesCons(line, rest[..n - 1]);
    } else {
      assert all[..0] == [];
    }
  }

  /** The number of characters before the first "\n" in `s`, or `|s|` when
      there is none. */
  function LineEnd(s: string): (k: nat)
    ensures k <= |s|
    ensures forall i :: 0 <= i < k ==> s[i] != '\n'
    ensures k < |s| ==> s[k] == '\n'
  {
    if s == [] || s[0] == '\n' then 0 else 1 + LineEnd(s[1..])
  }

  /** Reference definition of what a line reader returns for a text whose only
      line terminator is "\n": the pieces between terminators, where a final
      "\n" does not start another (empty) line. */
  function SplitLines(s: string): (lines: seq<string>)
    ensures forall i :: 0 <= i < |lines| ==> '\n' !in lines[i]
    decreases |s|
  {
    if s == [] then []
    else
      var k := LineEnd(s);
      if k == |s| then [s] else [s[..k]] + SplitLines(s[k + 1..])
  }

  /** The text as Open shows it after reading it back: unchanged when it is
      empty or already ends in "\n", otherwise with one "\n" added. */
  function Normalised(s: string): (t: string)
    ensures |t| > 0 ==> t[|t| - 1] == '\n'
    ensures t == s || t == s + "\n"
    ensures s == [] || s[|s| - 1] == '\n' ==> t == s
  {
    if s == [] || s[|s| - 1] == '\n' then s else s + "\n"
  }

  /** Reading back the text of a file and joining its lines gives the file's
      text with its last line newline-terminated. */
  lemma {:induction false} JoinSplit(s: string)
    ensures JoinLines(SplitLines(s)) == Normalised(s)
    decreases |s|
  {
    if s != [] {
      var k := LineEnd(s);
      if k == |s| {
        JoinSplitLastLine(s);
      } else {
        var rest := s[k + 1..];
        JoinSplit(rest);
        JoinSplitStep(s, k);
      }
    }
  }

  /** A text without any "\n" is one line, and gains its newline. */
  lemma JoinSplitLastLine(s: string)
    requires s != [] && LineEnd(s) == |s|
    ensures JoinLines(SplitLines(s)) == Normalised(s)
  {
    assert SplitLines(s) == [s];
    assert [s][..0] == [];
    assert JoinLines([s]) == s + "\n";
    assert s[|s| - 1] != '\n';
  }

  /** One step of JoinSplit: the first line, its newline, then the rest. */
  lemma JoinSplitStep(s: string, k: nat)
    requires s != [] && k == LineEnd(s) && k < |s|
    requires JoinLines(SplitLines(s[k + 1..])) == Normalised(s[k + 1..])
    ensures JoinLines(SplitLines(s)) == Normalised(s)
  {
    var first, rest := s[..k], s[k + 1..];
    SplitAtNewline(s, k);
    NormalisedAfterNewline(first, rest);
    var later := SplitLines(rest);
    assert SplitLines(s) == [first] + later;
    JoinLinesCons(first, later);
  }

  /** A text is its part before a "\n", the "\n", and its part after. */
  lemma SplitAtNewline(s: string, k: nat)
    requires k < |s| && s[k] == '\n'
    ensures s == s[..k] + "\n" + s[k + 1..]
  {
  }

  /** Normalisation only looks at the end of the text. */
  lemma NormalisedAfterNewline(first: string, rest: string)
    ensures Normalised(first + "\n" + rest) == first + "\n" + Normalised(rest)
  {
    var s := first + "\n" + rest;
    if rest != [] {
      assert s[|s| - 1] == rest[|rest| - 1];
      if rest[|rest| - 1] != '\n' {
        assert s + "\n" == first + "\n" + (rest + "\n");
      }
    }
  }

  /** Splitting the joined text gives back the lines, provided no line holds
      a "\n" of its own. */
  lemma {:induction false} SplitJoin(lines: seq<string>)
    requires forall i :: 0 <= i < |lines| ==> '\n' !in lines[i]
    ensures SplitLines(JoinLines(lines)) == lines
    decreases |lines|
  {
    if lines != [] {
      var line, rest := lines[0], lines[1..];
      assert lines == [line] + rest;
      JoinLinesCons(line, rest);
      var s := line + "\n" + JoinLines(rest);
      var k := LineEnd(s);
      assert s[|line|] == '\n';
      assert k == |line|;
      assert s[..k] == line;
      assert s[k + 1..] == JoinLines(rest);
      SplitJoin(rest);
    }
  }

  /** The concrete case: a file holding "hello\nworld", whose last line has
      no newline, reads as the lines "hello" and "world" ... */
  lemma HelloWorldSplit()
    ensures SplitLines("hello\nworld") == ["hello", "world"]
  {
    var s := "hello\nworld";
    assert LineEnd(s[5..]) == 0;
    assert LineEnd(s[4..]) == 1;
    assert LineEnd(s[3..]) == 2;
    assert LineEnd(s[2..]) == 3;
    assert LineEnd(s[1..]) == 4;
    assert LineEnd(s) == 5;
    assert s[..5] == "hello" && s[6..] == "world";
    assert LineEnd("world") == 5 by {
      var w := "world";
      assert LineEnd(w[5..]) == 0;
      assert LineEnd(w[4..]) == 1;
      assert LineEnd(w[3..]) == 2;
      assert LineEnd(w[2..]) == 3;
      assert LineEnd(w[1..]) == 4;
    }
  }

  /** ... which Open joins into "hello\nworld\n". */
  lemma HelloWorldJoin()
    ensures JoinLines(["hello", "world"]) == "hello\nworld\n"
  {
  }
}
