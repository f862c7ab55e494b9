/** Line splitting as `bufio.Scanner` with its default `ScanLines` split
    function performs it, and the re-joining `CommandExecution.String` does
    with `"%v\n"`. Buffer bytes are modelled one character per byte. */
module Lines {
  import opened Wrappers
  import Strings

  /** `dropCR`: one trailing carriage return is removed from a line. */
  function DropCR(line: string): (r: string)
    ensures r == line <==> |line| == 0 || line[|line| - 1] != '\r'
    ensures r != line ==> line == r + "\r"
    ensures '\n' !in line ==> '\n' !in r
    ensures '\r' !in line ==> r == line
  {
    if |line| > 0 && line[|line| - 1] == '\r' then line[..|line| - 1] else line
  }

  /** The tokens a `bufio.Scanner` using `ScanLines` yields for the whole of `s`:
      one per newline-terminated line, plus a final unterminated line if
      non-empty, each with its newline and one trailing carriage return removed. */
  function ScanLines(s: string): (lines: seq<string>)
    ensures |lines| == 0 <==> |s| == 0
    ensures forall i :: 0 <= i < |lines| ==> '\n' !in lines[i]
    decreases |s|
  {
    if |s| == 0 then []
    else match Strings.IndexOf(s, '\n')
      case Some(i) => [DropCR(s[..i])] + ScanLines(s[i + 1..])
      case None => [DropCR(s)]
  }

  /** Each line followed by a newline, concatenated (the `"%v\n"` loop). */
  function Unlines(lines: seq<string>): (s: string)
    ensures s == "" <==> |lines| == 0
    ensures |lines| > 0 ==> s[|s| - 1] == '\n'
  {
    if |lines| == 0 then "" else lines[0] + "\n" + Unlines(lines[1..])
  }

  /** `s` with a newline added unless it is empty or already ends in one. */
  function Terminated(s: string): string
  {
    if |s| == 0 || s[|s| - 1] == '\n' then s else s + "\n"
  }

  /** The newline-separated pieces of `s` (`strings.Split` on newlines), without
      the empty piece after a final newline: the lines `bufio.Scanner` sees
      before `dropCR`. */
  function Pieces(s: string): (pieces: seq<string>)
    ensures forall i :: 0 <= i < |pieces| ==> '\n' !in pieces[i]
  {
    var parts := Strings.Split(s, '\n');
    if Terminated(s) == s then parts[..|parts| - 1] else parts
  }

  /** `dropCR` applied to each line. */
  function DropCRs(lines: seq<string>): (r: seq<string>)
    ensures |r| == |lines|
    ensures forall i :: 0 <= i < |lines| ==> r[i] == DropCR(lines[i])
  {
    if |lines| == 0 then [] else [DropCR(lines[0])] + DropCRs(lines[1..])
  }

  /** For every input, the scanner yields the newline-separated pieces, each
      with one trailing carriage return dropped. */
  lemma {:induction false} ScanLinesPieces(s: string)
    ensures ScanLines(s) == DropCRs(Pieces(s))
    decreases |s|
  {
    if |s| > 0 {
      match Strings.IndexOf(s, '\n')
      case None =>
        LastLinePieces(s);
      case Some(i) =>
        var head := s[..i];
        var rest := s[i + 1..];
        assert s == head + "\n" + rest;
        PiecesStep(head, rest);
        ScanLinesPieces(rest);
        assert ([head] + Pieces(rest))[1..] == Pieces(rest);
    }
  }

  /** Input without a newline is one unterminated piece. */
  lemma LastLinePieces(s: string)
    requires |s| > 0 && '\n' !in s
    ensures Pieces(s) == [s]
  {
    Strings.SplitAfterFreePrefix(s, "", '\n');
    assert s + "" == s;
    assert s[|s| - 1] in s;
  }

  /** Taking the first line off takes the first piece off. */
  lemma PiecesStep(head: string, rest: string)
    requires '\n' !in head
    ensures Pieces(head + "\n" + rest) == [head] + Pieces(rest)
  {
    var s := head + "\n" + rest;
    SplitFirstLine(head, rest);
    TerminatedAfterLine(head, rest);
    var parts := Strings.Split(rest, '\n');
    if Terminated(rest) == rest {
      assert ([head] + parts)[..|parts|] == [head] + parts[..|parts| - 1];
    }
  }

  /** Splitting on newlines after a newline-free first line yields that line first. */
  lemma SplitFirstLine(head: string, rest: string)
    requires '\n' !in head
    ensures Strings.Split(head + "\n" + rest, '\n') == [head] + Strings.Split(rest, '\n')
  {
    var t := "\n" + rest;
    assert head + "\n" + rest == head + t;
    Strings.SplitAfterFreePrefix(head, t, '\n');
    assert t[1..] == rest;
    assert head + "" == head;
  }

  /** Output without carriage returns survives scanning and re-joining intact,
      blank lines included; only a missing final newline is supplied. */
  lemma {:induction false} ScanLinesRoundTrip(s: string)
    requires '\r' !in s
    ensures Unlines(ScanLines(s)) == Terminated(s)
    decreases |s|
  {
    if |s| > 0 {
      match Strings.IndexOf(s, '\n')
      case None =>
        assert s[|s| - 1] != '\n';
        assert Unlines([s]) == s + "\n" + Unlines([]);
      case Some(i) =>
        var head := s[..i];
        var rest := s[i + 1..];
        assert s == head + "\n" + rest;
        assert '\r' !in rest by {
          assert forall k :: 0 <= k < |rest| ==> rest[k] == s[i + 1 + k];
        }
        assert DropCR(head) == head by {
          assert forall k :: 0 <= k < |head| ==> head[k] == s[k];
        }
        ScanLinesRoundTrip(rest);
        TerminatedAfterLine(head, rest);
    }
  }

  lemma TerminatedAfterLine(head: string, rest: string)
    ensures Terminated(head + "\n" + rest) == head + "\n" + Terminated(rest)
  {
    var s := head + "\n" + rest;
    if |rest| > 0 {
      assert s[|s| - 1] == rest[|rest| - 1];
    } else {
      assert s == head + "\n";
    }
  }

  /** Scanning finds one line per newline, plus one for a non-empty unterminated tail. */
  lemma {:induction false} ScanLinesCount(s: string)
    ensures |ScanLines(s)| == Strings.Count(s, '\n') + (if Terminated(s) == s then 0 else 1)
    decreases |s|
  {
    if |s| > 0 {
      match Strings.IndexOf(s, '\n')
      case None =>
        CountAbsent(s, '\n');
        assert s[|s| - 1] != '\n';
      case Some(i) =>
        ScanLinesCount(s[i + 1..]);
        FirstLineStep(s, i);
    }
  }

  /** Taking the first line off: one line and one newline fewer, same termination. */
  lemma FirstLineStep(s: string, i: nat)
    requires Strings.IndexOf(s, '\n') == Some(i)
    ensures |ScanLines(s)| == 1 + |ScanLines(s[i + 1..])|
    ensures Strings.Count(s, '\n') == 1 + Strings.Count(s[i + 1..], '\n')
    ensures Terminated(s) == s <==> Terminated(s[i + 1..]) == s[i + 1..]
  {
    var head := s[..i];
    var rest := s[i + 1..];
    assert s == head + "\n" + rest;
    CountSplit(head, rest, '\n');
    CountAbsent(head, '\n');
    TerminatedAfterLine(head, rest);
  }

  lemma {:induction false} CountAbsent(s: string, c: char)
    requires c !in s
    ensures Strings.Count(s, c) == 0
    decreases |s|
  {
    if |s| > 0 {
      assert s[0] != c;
      assert forall k :: 0 <= k < |s[1..]| ==> s[1..][k] == s[k + 1];
      CountAbsent(s[1..], c);
    }
  }

  lemma {:induction false} CountSplit(p: string, t: string, c: char)
    ensures Strings.Count(p + [c] + t, c) == Strings.Count(p, c) + 1 + Strings.Count(t, c)
    decreases |p|
  {
    if |p| == 0 {
      assert p + [c] + t == [c] + t;
      assert ([c] + t)[1..] == t;
    } else {
      assert (p + [c] + t)[1..] == p[1..] + [c] + t;
      CountSplit(p[1..], t, c);
    }
  }

  /** Re-joining newline-free lines writes exactly one newline per line. */
  lemma {:induction false} UnlinesCount(lines: seq<string>)
    requires forall i :: 0 <= i < |lines| ==> '\n' !in lines[i]
    ensures Strings.Count(Unlines(lines), '\n') == |lines|
    decreases |lines|
  {
    if |lines| > 0 {
      UnlinesCount(lines[1..]);
      assert Unlines(lines) == lines[0] + ['\n'] + Unlines(lines[1..]);
      CountSplit(lines[0], Unlines(lines[1..]), '\n');
      CountAbsent(lines[0], '\n');
    }
  }

  /** A carriage return ending an unterminated last line is dropped too. */
  lemma CarriageReturnAlone()
    ensures Unlines(ScanLines("\r")) == "\n"
  {
    assert ScanLines("\r") == [DropCR("\r")];
    assert DropCR("\r") == "";
  }

  /** A carriage return before a newline is dropped. */
  lemma CarriageReturnEndingLine()
    ensures Unlines(ScanLines("a\r\n")) == "a\n"
  {
    var s := "a\r\n";
    Strings.IndexOfAfterPrefix("a\r", '\n', "");
    assert s == "a\r" + ['\n'] + "";
    assert s[..2] == "a\r" && s[3..] == "";
    assert ScanLines(s) == [DropCR("a\r")];
    assert DropCR("a\r") == "a";
  }

  /** A carriage return inside a line survives. */
  lemma CarriageReturnInsideLine()
    ensures Unlines(ScanLines("a\rb\n")) == "a\rb\n"
  {
    var s := "a\rb\n";
    Strings.IndexOfAfterPrefix("a\rb", '\n', "");
    assert s == "a\rb" + ['\n'] + "";
    assert s[..3] == "a\rb" && s[4..] == "";
    assert ScanLines(s) == [DropCR("a\rb")];
    assert DropCR("a\rb") == "a\rb";
  }
}
