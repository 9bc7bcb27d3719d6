/**
 * Line splitting of an in-memory string as java.util.Scanner performs it with
 * hasNextLine/nextLine: a line ends at "\r\n", "\n", "\r", U+2028, U+2029 or
 * U+0085; the separator is not part of the line; input that ends with a
 * separator has no empty line after it.
 */
module LineScanner {

  /** The characters that end a line. "\r\n" is one separator (see SepLen). */
  predicate IsLineSeparator(c: char) {
    c == '\n' || c == '\r' || c == '\U{2028}' || c == '\U{2029}' || c == '\U{85}'
  }

  /** A line as nextLine returns it: no separator inside. */
  predicate NoSeparator(line: string) {
    forall i :: 0 <= i < |line| ==> !IsLineSeparator(line[i])
  }

  /** Length of the first line of s: the index of the first separator, or |s| when there is none. */
  function LineEnd(s: string): (e: nat)
    ensures e <= |s|
    ensures e < |s| ==> IsLineSeparator(s[e])
  {
    if s == [] || IsLineSeparator(s[0]) then 0
    else 1 + LineEnd(s[1..])
  }

  /** The first line of s holds no separator. */
  lemma {:induction false} LineEndNoSeparator(s: string)
    ensures NoSeparator(s[..LineEnd(s)])
    decreases |s|
  {
    if s != [] && !IsLineSeparator(s[0]) {
      LineEndNoSeparator(s[1..]);
      assert s[..LineEnd(s)] == [s[0]] + s[1..][..LineEnd(s[1..])];
    }
  }

  /** LineEnd finds the first separator: a prefix without one, followed by one or by the end. */
  lemma {:induction false} LineEndAt(s: string, n: nat)
    requires n <= |s| && NoSeparator(s[..n])
    requires n < |s| ==> IsLineSeparator(s[n])
    ensures LineEnd(s) == n
    decreases n
  {
    if n > 0 {
      assert s[0] == s[..n][0];
      assert s[1..][..n - 1] == s[..n][1..];
      LineEndAt(s[1..], n - 1);
    }
  }

  /** Length of the separator at index e: 2 for "\r\n", 1 otherwise. */
  function SepLen(s: string, e: nat): (n: nat)
    requires e < |s|
    ensures 1 <= n <= 2 && e + n <= |s|
  {
    if s[e] == '\r' && e + 1 < |s| && s[e + 1] == '\n' then 2 else 1
  }

  /** The lines Scanner yields for s, in order. */
  function Lines(s: string): (ls: seq<string>)
    ensures (ls == []) <==> (s == [])
    decreases |s|
  {
    if s == [] then []
    else
      var e := LineEnd(s);
      if e == |s| then [s]
      else [s[..e]] + Lines(s[e + SepLen(s, e)..])
  }

  /** No line Scanner yields holds a separator. */
  lemma {:induction false} LinesHaveNoSeparator(s: string)
    ensures forall k :: 0 <= k < |Lines(s)| ==> NoSeparator(Lines(s)[k])
    decreases |s|
  {
    if s != [] {
      var e := LineEnd(s);
      LineEndNoSeparator(s);
      if e < |s| {
        var rest := s[e + SepLen(s, e)..];
        LinesHaveNoSeparator(rest);
        var ls := Lines(s);
        assert ls == [s[..e]] + Lines(rest);
        forall k | 0 <= k < |ls|
          ensures NoSeparator(ls[k])
        {
          if k > 0 {
            assert ls[k] == Lines(rest)[k - 1];
          }
        }
      }
    }
  }

  /**
   * Where the next line of src[p..] starts once a line ending at i has been
   * read: after the separator at i, or at the end.
   */
  function NextStart(src: string, i: nat): (q: nat)
    requires i <= |src|
    ensures i <= q <= |src|
  {
    if i < |src| then i + SepLen(src, i) else i
  }

  /** Reading src from p up to the first separator at i yields the line src[p..i] and then the lines after it. */
  lemma LinesAt(src: string, p: nat, i: nat)
    requires p <= i <= |src| && p < |src|
    requires forall j :: p <= j < i ==> !IsLineSeparator(src[j])
    requires i < |src| ==> IsLineSeparator(src[i])
    ensures Lines(src[p..]) == [src[p..i]] + Lines(src[NextStart(src, i)..])
  {
    var s := src[p..];
    var e := i - p;
    assert s[..e] == src[p..i];
    assert NoSeparator(s[..e]) by {
      forall j | 0 <= j < e
        ensures !IsLineSeparator(s[..e][j])
      {
        assert s[..e][j] == src[p + j];
      }
    }
    LineEndAt(s, e);
    if i < |src| {
      assert SepLen(s, e) == SepLen(src, i);
      assert s[e + SepLen(s, e)..] == src[NextStart(src, i)..];
    } else {
      assert s[..e] == s;
    }
  }

  /** The lines joined with "\n" between them. */
  function JoinLines(ls: seq<string>): string
  {
    if ls == [] then ""
    else if |ls| == 1 then ls[0]
    else ls[0] + "\n" + JoinLines(ls[1..])
  }

  /**
   * Splitting undoes joining: lines that hold no separator, the last of which
   * is not empty, come back unchanged.
   */
  lemma {:induction false} LinesOfJoin(ls: seq<string>)
    requires forall k :: 0 <= k < |ls| ==> NoSeparator(ls[k])
    requires ls != [] ==> ls[|ls| - 1] != ""
    ensures Lines(JoinLines(ls)) == ls
  {
    if |ls| == 1 {
      var s := ls[0];
      assert s[..|s|] == s;
      assert LineEnd(s) == |s|;
    } else if |ls| > 1 {
      var l0, rest := ls[0], JoinLines(ls[1..]);
      var s := l0 + "\n" + rest;
      assert s[..|l0|] == l0;
      assert IsLineSeparator(s[|l0|]);
      LineEndAt(s, |l0|);
      var e := LineEnd(s);
      assert SepLen(s, e) == 1;
      assert s[e + 1..] == rest;
      LinesOfJoin(ls[1..]);
      assert Lines(s) == [l0] + ls[1..];
      assert ls == [l0] + ls[1..];
    }
  }

  /** A java.util.Scanner reading lines from a string. */
  class Scanner {
    const source: string
    var pos: nat

    ghost predicate Valid()
      reads this
    {
      pos <= |source|
    }

    /** The input not yet consumed. */
    function Rest(): string
      reads this
      requires Valid()
    {
      source[pos..]
    }

    constructor (text: string)
      ensures Valid() && source == text && pos == 0
    {
      source := text;
      pos := 0;
    }

    /** hasNextLine: some input is left. */
    function HasNextLine(): (b: bool)
      reads this
      requires Valid()
      ensures b <==> Lines(Rest()) != []
    {
      pos < |source|
    }

    /**
     * nextLine: consume one line and its separator. Scanner throws when no
     * line is left, which is why its callers ask hasNextLine first.
     */
    method NextLine() returns (line: string)
      requires Valid() && HasNextLine()
      modifies this
      ensures Valid()
      ensures Lines(old(Rest())) == [line] + Lines(Rest())
      ensures |Rest()| < |old(Rest())|
    {
      var i := pos;
      while i < |source| && !IsLineSeparator(source[i])
        invariant pos <= i <= |source|
        invariant forall j :: pos <= j < i ==> !IsLineSeparator(source[j])
      {
        i := i + 1;
      }
      line := source[pos..i];
      LinesAt(source, pos, i);
      pos := NextStart(source, i);
    }
  }
}
