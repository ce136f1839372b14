/** The text a journal's entries are saved as: every entry on a line of its
    own, each line ended by a line break. */
module Serialization {

  const Newline: char := '\n'

  /** The content written for `entries`: each entry followed by a line break,
      in order. */
  function Content(entries: seq<string>): string {
    if |entries| == 0 then ""
    else Content(entries[..|entries| - 1]) + entries[|entries| - 1] + [Newline]
  }

  predicate NoNewline(s: string) {
    forall i :: 0 <= i < |s| ==> s[i] != Newline
  }

  /** The number of characters of `s` before its first line break. */
  function LineLength(s: string): (k: nat)
    ensures k <= |s| && NoNewline(s[..k])
    ensures k < |s| ==> s[k] == Newline
  {
    if |s| == 0 || s[0] == Newline then 0
    else
      var k := 1 + LineLength(s[1..]);
      assert s[..k] == [s[0]] + s[1..][..k - 1];
      k
  }

  /** Splits text at its line breaks; a final line without a line break is
      kept as a line. */
  function Lines(text: string): seq<string>
    decreases |text|
  {
    if |text| == 0 then []
    else
      var k := LineLength(text);
      if k == |text| then [text]
      else [text[..k]] + Lines(text[k + 1..])
  }

  function CountChar(s: string, c: char): nat {
    if |s| == 0 then 0
    else CountChar(s[..|s| - 1], c) + (if s[|s| - 1] == c then 1 else 0)
  }

  /** Saving a concatenation of entry lists writes the two contents one
      after the other. */
  lemma {:induction false} ContentAppend(a: seq<string>, b: seq<string>)
    ensures Content(a + b) == Content(a) + Content(b)
  {
    if |b| == 0 {
      assert a + b == a;
    } else {
      var init := b[..|b| - 1];
      ContentAppend(a, init);
      assert (a + b)[..|a + b| - 1] == a + init;
    }
  }

  /** The content of a non-empty list starts with its first entry's line. */
  lemma ContentCons(e: string, rest: seq<string>)
    ensures Content([e] + rest) == e + [Newline] + Content(rest)
  {
    ContentAppend([e], rest);
    assert Content([e]) == Content([]) + e + [Newline];
  }

  lemma LineLengthOf(line: string, tail: string)
    requires NoNewline(line)
    ensures LineLength(line + [Newline] + tail) == |line|
  {
    var s := line + [Newline] + tail;
    assert forall i :: 0 <= i < |line| ==> s[i] == line[i];
    assert s[|line|] == Newline;
    assert NoNewline(s[..LineLength(s)]);
  }

  /** Splitting saved content at its line breaks gives back exactly the
      entries, in order, when no entry holds a line break itself. */
  lemma {:induction false} LinesOfContent(entries: seq<string>)
    requires forall i :: 0 <= i < |entries| ==> NoNewline(entries[i])
    ensures Lines(Content(entries)) == entries
  {
    if |entries| > 0 {
      var e, rest := entries[0], entries[1..];
      assert entries == [e] + rest;
      ContentCons(e, rest);
      var text := Content(entries);
      LineLengthOf(e, Content(rest));
      assert text[..|e|] == e;
      assert text[|e| + 1..] == Content(rest);
      LinesOfContent(rest);
    }
  }

  lemma {:induction false} CountCharAppend(a: string, b: string, c: char)
    ensures CountChar(a + b, c) == CountChar(a, c) + CountChar(b, c)
  {
    if |b| > 0 {
      CountCharAppend(a, b[..|b| - 1], c);
      assert (a + b)[..|a + b| - 1] == a + b[..|b| - 1];
    } else {
      assert a + b == a;
    }
  }

  lemma {:induction false} CountNewlineFree(s: string)
    requires NoNewline(s)
    ensures CountChar(s, Newline) == 0
  {
    if |s| > 0 {
      CountNewlineFree(s[..|s| - 1]);
    }
  }

  /** Saved content holds one line break per entry when no entry holds a
      line break itself. */
  lemma {:induction false} NewlineCount(entries: seq<string>)
    requires forall i :: 0 <= i < |entries| ==> NoNewline(entries[i])
    ensures CountChar(Content(entries), Newline) == |entries|
  {
    if |entries| > 0 {
      var init, last := entries[..|entries| - 1], entries[|entries| - 1];
      NewlineCount(init);
      CountNewlineFree(last);
      CountCharAppend(Content(init), last, Newline);
      CountCharAppend(Content(init) + last, [Newline], Newline);
    }
  }
}
