/** The Ruby I/O the remote registry goes through: `File.readlines`, which
    splits a file's text after every newline and keeps the newlines, and
    `IO#puts`, which writes a string followed by a newline unless it already
    ends with one (and, given an array, does that for each element). */
module RubyIO {

  /** The index of the first newline of `s`, or |s| when there is none. */
  function NewlineIndex(s: string): (i: nat)
    ensures i <= |s|
    ensures i < |s| ==> s[i] == '\n'
    ensures forall j :: 0 <= j < i ==> s[j] != '\n'
  {
    if s == [] || s[0] == '\n' then 0 else 1 + NewlineIndex(s[1..])
  }

  /** A complete line: it ends with its only newline. */
  predicate IsLine(l: string)
  {
    |l| > 0 && l[|l| - 1] == '\n' && '\n' !in l[..|l| - 1]
  }

  /** Text whose newlines, if any, end lines: the file is empty or its last
      character is a newline. */
  predicate Terminated(text: string)
  {
    text == [] || text[|text| - 1] == '\n'
  }

  /** `File.readlines`: the lines of `text`, each keeping its newline; only
      the last one may lack it, when the text does not end with a newline
      (`ReadLinesShape`). */
  function ReadLines(text: string): (lines: seq<string>)
    decreases |text|
    ensures text == [] <==> lines == []
    ensures |lines| <= |text|
  {
    if text == [] then []
    else
      var i := NewlineIndex(text);
      if i == |text| then [text]
      else [text[..i + 1]] + ReadLines(text[i + 1..])
  }

  /** Every line read is non-empty and holds no newline before its end;
      every line but the last is complete, and the last is complete exactly
      when the text ends with a newline. */
  lemma {:induction false} ReadLinesShape(text: string)
    decreases |text|
    ensures var lines := ReadLines(text);
      && (forall k :: 0 <= k < |lines| ==> lines[k] != [] && '\n' !in lines[k][..|lines[k]| - 1])
      && (forall k :: 0 <= k < |lines| - 1 ==> IsLine(lines[k]))
      && (lines != [] ==> (IsLine(lines[|lines| - 1]) <==> Terminated(text)))
  {
    if text != [] {
      var i := NewlineIndex(text);
      if i < |text| {
        ReadLinesShape(text[i + 1..]);
        assert text[..i + 1][..i] == text[..i];
      }
    }
  }

  /** Every line of a terminated text is complete. */
  lemma CompleteLines(text: string)
    requires Terminated(text)
    ensures forall k :: 0 <= k < |ReadLines(text)| ==> IsLine(ReadLines(text)[k])
  {
    ReadLinesShape(text);
  }

  /** The text a sequence of strings makes when written one after another. */
  function Concat(parts: seq<string>): (text: string)
  {
    if parts == [] then [] else parts[0] + Concat(parts[1..])
  }

  /** Reading the lines of a text and writing them back out unchanged
      gives the same text. */
  lemma {:induction false} ConcatReadLines(text: string)
    ensures Concat(ReadLines(text)) == text
    decreases |text|
  {
    if text != [] {
      var i := NewlineIndex(text);
      if i < |text| {
        ConcatReadLines(text[i + 1..]);
        assert text[..i + 1] + text[i + 1..] == text;
      }
    }
  }

  /** Lines of a terminated text stay separate from whatever text is
      written after it. */
  lemma {:induction false} ReadLinesAppend(a: string, b: string)
    requires Terminated(a)
    ensures ReadLines(a + b) == ReadLines(a) + ReadLines(b)
    decreases |a|
  {
    if a == [] {
      assert a + b == b;
    } else {
      var i := NewlineIndex(a);
      assert i < |a|;
      NewlineIndexOfPrefix(a, b, i);
      var ab := a + b;
      assert ab[..i + 1] == a[..i + 1];
      assert ab[i + 1..] == a[i + 1..] + b;
      ReadLinesAppend(a[i + 1..], b);
      AppendAssociative([a[..i + 1]], ReadLines(a[i + 1..]), ReadLines(b));
    }
  }

  lemma AppendAssociative<T>(x: seq<T>, y: seq<T>, z: seq<T>)
    ensures x + (y + z) == (x + y) + z
  {
  }

  lemma NewlineIndexOfPrefix(a: string, b: string, i: nat)
    requires i < |a| && i == NewlineIndex(a)
    ensures NewlineIndex(a + b) == i
  {
    var ab := a + b;
    assert ab[i] == '\n';
    assert forall k :: 0 <= k < i ==> ab[k] == a[k];
  }

  /** A complete line read on its own is that one line. */
  lemma ReadLinesOfLine(l: string)
    requires IsLine(l)
    ensures ReadLines(l) == [l]
  {
    assert forall j :: 0 <= j < |l| - 1 ==> l[j] == l[..|l| - 1][j];
    assert NewlineIndex(l) == |l| - 1;
    assert l[..|l|] == l;
  }

  /** Complete lines written one after another read back as the same lines. */
  lemma {:induction false} ReadLinesOfConcat(lines: seq<string>)
    requires forall k :: 0 <= k < |lines| ==> IsLine(lines[k])
    ensures ReadLines(Concat(lines)) == lines
    ensures Terminated(Concat(lines))
  {
    ConcatOfLinesTerminated(lines);
    if lines != [] {
      ReadLinesOfConcat(lines[1..]);
      ReadLinesOfLine(lines[0]);
      ReadLinesAppend(lines[0], Concat(lines[1..]));
      assert [lines[0]] + lines[1..] == lines;
    }
  }

  lemma {:induction false} ConcatOfLinesTerminated(lines: seq<string>)
    requires forall k :: 0 <= k < |lines| ==> IsLine(lines[k])
    ensures Terminated(Concat(lines))
  {
    if lines != [] {
      ConcatOfLinesTerminated(lines[1..]);
      var rest := Concat(lines[1..]);
      if rest != [] {
        assert (lines[0] + rest)[|lines[0] + rest| - 1] == rest[|rest| - 1];
      }
    }
  }

  /** What `io.puts(s)` writes for one string. */
  function PutsText(s: string): (w: string)
    ensures Terminated(w) && w != []
    ensures w == s || w == s + "\n"
    ensures Terminated(s) && s != [] ==> w == s
  {
    if s != [] && s[|s| - 1] == '\n' then s else s + "\n"
  }

  /** Each string as `puts` completes it. */
  function PutsLines(parts: seq<string>): (ws: seq<string>)
    ensures |ws| == |parts|
    ensures forall k :: 0 <= k < |parts| ==> ws[k] == PutsText(parts[k])
  {
    seq(|parts|, k requires 0 <= k < |parts| => PutsText(parts[k]))
  }

  /** What `io.puts(ary)` writes for an array of strings: each element as
      `puts` writes it, and a lone newline for an empty array. */
  function PutsArray(parts: seq<string>): (w: string)
    ensures parts == [] ==> w == "\n"
    ensures parts != [] ==> w == Concat(PutsLines(parts))
  {
    if parts == [] then "\n" else Concat(PutsLines(parts))
  }

  /** `puts` turns a string with no newline before its end into one
      complete line. */
  lemma PutsTextIsLine(s: string)
    requires s == [] || '\n' !in s[..|s| - 1]
    ensures IsLine(PutsText(s))
  {
    var w := PutsText(s);
    if w == s + "\n" {
      assert w[..|w| - 1] == s;
      if s != [] {
        assert s == s[..|s| - 1] + [s[|s| - 1]];
        assert s[|s| - 1] != '\n';
      }
    }
  }

  /** Rewriting a file with `puts` and the lines `readlines` gave: each line
      comes back, the last one now ending with a newline; an empty array
      leaves one blank line. */
  lemma ReadLinesOfPutsArray(parts: seq<string>)
    requires forall k :: 0 <= k < |parts| ==> parts[k] == [] || '\n' !in parts[k][..|parts[k]| - 1]
    ensures ReadLines(PutsArray(parts)) == if parts == [] then ["\n"] else PutsLines(parts)
    ensures Terminated(PutsArray(parts))
  {
    if parts == [] {
      ReadLinesOfLine("\n");
    } else {
      var ws := PutsLines(parts);
      forall k | 0 <= k < |ws| ensures IsLine(ws[k]) {
        PutsTextIsLine(parts[k]);
      }
      ReadLinesOfConcat(ws);
    }
  }

  /** The lines of a terminated text are already complete, so `puts` leaves
      them as they are. */
  lemma PutsLinesOfTerminated(text: string)
    requires Terminated(text)
    ensures PutsLines(ReadLines(text)) == ReadLines(text)
  {
    var lines := ReadLines(text);
    CompleteLines(text);
    forall k | 0 <= k < |lines| ensures PutsText(lines[k]) == lines[k] {
      assert IsLine(lines[k]);
    }
  }
}
