/** The parts of Go's `strings` package the tool relies on, specialised to a
    one-character cutset / separator, which is how the tool calls them. */
module Strings {
  import opened Wrappers

  /** `strings.Count(s, string(c))`. */
  function Count(s: string, c: char): nat
  {
    if |s| == 0 then 0 else (if s[0] == c then 1 else 0) + Count(s[1..], c)
  }

  /** Position of the first `c` in `s` (`strings.IndexByte`), or None. */
  function IndexOf(s: string, c: char): (r: Option<nat>)
    ensures r.None? <==> c !in s
    ensures r.Some? ==> r.value < |s| && s[r.value] == c && c !in s[..r.value]
  {
    if |s| == 0 then None
    else if s[0] == c then Some(0)
    else match IndexOf(s[1..], c)
      case None => None
      case Some(i) => assert s[1..][..i] == s[1..i + 1]; Some(i + 1)
  }

  /** The first `c` after a prefix free of `c` is found at the end of that prefix. */
  lemma IndexOfAfterPrefix(p: string, c: char, t: string)
    requires c !in p
    ensures IndexOf(p + [c] + t, c) == Some(|p|)
  {
    var s := p + [c] + t;
    assert s[|p|] == c;
    assert s[..|p|] == p;
    assert forall i :: |p| < i <= |s| ==> s[..i][|p|] == c;
  }

  /** `strings.Split(s, string(sep))`: the pieces between separators, in order. */
  function Split(s: string, sep: char): (parts: seq<string>)
    ensures |parts| == Count(s, sep) + 1
    ensures forall i :: 0 <= i < |parts| ==> sep !in parts[i]
    decreases |s|
  {
    if |s| == 0 then [""]
    else
      var rest := Split(s[1..], sep);
      if s[0] == sep then [""] + rest
      else [[s[0]] + rest[0]] + rest[1..]
  }

  /** `strings.Join(parts, string(sep))`. */
  function Join(parts: seq<string>, sep: char): string
  {
    if |parts| == 0 then ""
    else if |parts| == 1 then parts[0]
    else parts[0] + [sep] + Join(parts[1..], sep)
  }

  /** Joining the pieces of a split restores the original string. */
  lemma {:induction false} JoinSplit(s: string, sep: char)
    ensures Join(Split(s, sep), sep) == s
    decreases |s|
  {
    if |s| > 0 {
      var rest := Split(s[1..], sep);
      JoinSplit(s[1..], sep);
      if s[0] == sep {
        assert Split(s, sep) == [""] + rest;
        assert ([""] + rest)[1..] == rest;
        assert s == [sep] + s[1..];
      } else {
        var parts := Split(s, sep);
        assert parts == [[s[0]] + rest[0]] + rest[1..];
        if |rest| == 1 {
          assert Join(parts, sep) == [s[0]] + rest[0];
        } else {
          assert parts[1..] == rest[1..];
          assert Join(parts, sep) == [s[0]] + rest[0] + [sep] + Join(rest[1..], sep);
          assert Join(rest, sep) == rest[0] + [sep] + Join(rest[1..], sep);
        }
        assert s == [s[0]] + s[1..];
      }
    }
  }

  /** Splitting a string whose prefix holds no separator glues that prefix to the first piece. */
  lemma {:induction false} SplitAfterFreePrefix(p: string, t: string, sep: char)
    requires sep !in p
    ensures Split(p + t, sep) == [p + Split(t, sep)[0]] + Split(t, sep)[1..]
    decreases |p|
  {
    var st := Split(t, sep);
    if |p| == 0 {
      assert p + t == t;
      assert p + st[0] == st[0];
      assert [st[0]] + st[1..] == st;
    } else {
      var s := p + t;
      assert s[0] == p[0];
      assert s[1..] == p[1..] + t;
      SplitAfterFreePrefix(p[1..], t, sep);
      assert [p[0]] + (p[1..] + st[0]) == p + st[0];
    }
  }

  /** Splitting undoes joining, provided no piece contains the separator. */
  lemma {:induction false} SplitJoin(parts: seq<string>, sep: char)
    requires |parts| >= 1
    requires forall i :: 0 <= i < |parts| ==> sep !in parts[i]
    ensures Split(Join(parts, sep), sep) == parts
    decreases |parts|
  {
    if |parts| == 1 {
      SplitAfterFreePrefix(parts[0], "", sep);
      assert parts[0] + "" == parts[0];
    } else {
      var tail := [sep] + Join(parts[1..], sep);
      assert Join(parts, sep) == parts[0] + tail;
      SplitAfterFreePrefix(parts[0], tail, sep);
      assert tail[0] == sep && tail[1..] == Join(parts[1..], sep);
      SplitJoin(parts[1..], sep);
      assert Split(tail, sep) == [""] + parts[1..];
      assert parts[0] + "" == parts[0];
      assert parts == [parts[0]] + parts[1..];
    }
  }

  /** `strings.TrimLeft(s, string(c))`. */
  function TrimLeft(s: string, c: char): (r: string)
    ensures |r| <= |s| && r == s[|s| - |r|..]
    ensures forall i :: 0 <= i < |s| - |r| ==> s[i] == c
    ensures |r| == 0 || r[0] != c
  {
    if |s| > 0 && s[0] == c then TrimLeft(s[1..], c) else s
  }

  /** `strings.TrimRight(s, string(c))`. */
  function TrimRight(s: string, c: char): (r: string)
    ensures |r| <= |s| && r == s[..|r|]
    ensures forall i :: |r| <= i < |s| ==> s[i] == c
    ensures |r| == 0 || r[|r| - 1] != c
  {
    if |s| > 0 && s[|s| - 1] == c then TrimRight(s[..|s| - 1], c) else s
  }

  /** `strings.Trim(s, string(c))`: `s` with every leading and trailing `c` removed. */
  function Trim(s: string, c: char): (r: string)
    ensures |r| <= |s|
    ensures |r| == 0 || (r[0] != c && r[|r| - 1] != c)
  {
    var l := TrimLeft(s, c);
    var r := TrimRight(l, c);
    assert |r| > 0 ==> r[0] == l[0];
    r
  }

  /** The trimmed string is the slice `s[lo..lo + |r|]` for some `lo`, with only
      `c` outside that slice. */
  lemma TrimIsSlice(s: string, c: char)
    ensures exists lo :: TrimmedAt(s, c, Trim(s, c), lo)
  {
    var l := TrimLeft(s, c);
    var r := Trim(s, c);
    assert r == TrimRight(l, c);
    TrimBothEnds(s, c, l, r);
    assert TrimmedAt(s, c, r, |s| - |l|);
  }

  lemma TrimBothEnds(s: string, c: char, l: string, r: string)
    requires |l| <= |s| && l == s[|s| - |l|..]
    requires forall i :: 0 <= i < |s| - |l| ==> s[i] == c
    requires |l| == 0 || l[0] != c
    requires |r| <= |l| && r == l[..|r|]
    requires forall i :: |r| <= i < |l| ==> l[i] == c
    requires |r| == 0 || r[|r| - 1] != c
    ensures TrimmedAt(s, c, r, |s| - |l|)
  {
    var lo := |s| - |l|;
    assert l == s[lo..];
    assert r == l[..|r|];
    assert r == s[lo..lo + |r|];
    assert forall i :: 0 <= i < lo ==> s[i] == c;
    forall i | lo + |r| <= i < |s|
      ensures s[i] == c
    {
      assert s[i] == l[i - lo];
    }
  }

  /** `r` is the slice of `s` starting at `lo`, and everything of `s` outside that slice is `c`. */
  predicate TrimmedAt(s: string, c: char, r: string, lo: int)
  {
    && 0 <= lo <= |s| - |r|
    && r == s[lo..lo + |r|]
    && (forall i :: 0 <= i < lo ==> s[i] == c)
    && (forall i :: lo + |r| <= i < |s| ==> s[i] == c)
  }

  /** A string without `c` at either end is its own trim. */
  lemma TrimOfTrimmed(t: string, c: char)
    requires |t| == 0 || (t[0] != c && t[|t| - 1] != c)
    ensures Trim(t, c) == t
  {
    assert TrimLeft(t, c) == t;
    assert TrimRight(t, c) == t;
  }

  /** Trimming is idempotent. */
  lemma TrimIdempotent(s: string, c: char)
    ensures Trim(Trim(s, c), c) == Trim(s, c)
  {
    TrimOfTrimmed(Trim(s, c), c);
  }

  /** The trimmed string is empty exactly when `s` consists of `c` alone. */
  lemma TrimEmptyIff(s: string, c: char)
    ensures Trim(s, c) == "" <==> forall i :: 0 <= i < |s| ==> s[i] == c
  {
  }
}
