// Splitting text at a separator, and joining undone by it.
module TextSplit {

  /** The pieces between occurrences of `sep`. */
  function Split(s: string, sep: char): (r: seq<string>)
    ensures |r| > 0
  {
    if |s| == 0 then [""]
    else
      var r := Split(s[..|s| - 1], sep);
      var c := s[|s| - 1];
      if c == sep then r + [""] else r[..|r| - 1] + [r[|r| - 1] + [c]]
  }

  lemma SplitPush(s: string, c: char, sep: char)
    ensures var r := Split(s, sep); Split(s + [c], sep) == if c == sep then r + [""] else r[..|r| - 1] + [r[|r| - 1] + [c]]
  {
    assert (s + [c])[..|s|] == s;
  }

  lemma SplitEmpty(sep: char)
    ensures Split("", sep) == [""]
  { }

  /** Splitting text joined by the separator splits the parts. */
  lemma {:induction false} SplitJoined(a: string, sep: char, b: string)
    ensures Split(a + [sep] + b, sep) == Split(a, sep) + Split(b, sep)
  {
    hide Split;
    SplitEmpty(sep);
    if |b| == 0 {
      assert a + [sep] + b == a + [sep] && b == "";
      SplitPush(a, sep, sep);
    } else {
      var n := |b| - 1;
      var b', c := b[..n], b[n];
      assert b == b' + [c];
      Associates(a, [sep], b', [c]);
      SplitJoined(a, sep, b');
      SplitPush(a + [sep] + b', c, sep);
      SplitPush(b', c, sep);
      LastPiece(Split(a, sep), Split(b', sep), c);
    }
  }

  lemma Associates(a: string, b: string, c: string, d: string)
    ensures a + b + (c + d) == a + b + c + d
  { }

  lemma LastPiece(x: seq<string>, r: seq<string>, c: char)
    requires |r| > 0
    ensures (x + r)[..|x + r| - 1] + [(x + r)[|x + r| - 1] + [c]] == x + (r[..|r| - 1] + [r[|r| - 1] + [c]])
    ensures x + r + [""] == x + (r + [""])
  { }

  /** Text without the separator is one piece. */
  lemma {:induction false} SplitPlain(s: string, sep: char)
    requires sep !in s
    ensures Split(s, sep) == [s]
  {
    if |s| > 0 {
      assert s == s[..|s| - 1] + [s[|s| - 1]];
      SplitPlain(s[..|s| - 1], sep);
    }
  }

  /** A plain line behind a line end, with its own line end, is the piece before the last, empty one. */
  lemma SplitLine(a: string, line: string, sep: char)
    requires sep !in line
    ensures Split(a + [sep] + line + [sep], sep) == Split(a, sep) + [line, ""]
    ensures Split(a + [sep], sep) == Split(a, sep) + [""]
  {
    hide Split;
    SplitPlain(line, sep);
    SplitJoined(a, sep, line);
    SplitPush(a + [sep] + line, sep, sep);
    SplitPush(a, sep, sep);
  }
}
