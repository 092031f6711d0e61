/** The parts of Python's `str` the repository relies on, over Unicode scalar values. */
module PyText {
  import Seqs

  /** `str.isspace` of one character: what `str.strip()` removes. */
  predicate IsSpace(c: char) {
    var n := c as int;
    || 0x09 <= n <= 0x0D
    || 0x1C <= n <= 0x20
    || n == 0x85
    || n == 0xA0
    || n == 0x1680
    || 0x2000 <= n <= 0x200A
    || n == 0x2028
    || n == 0x2029
    || n == 0x202F
    || n == 0x205F
    || n == 0x3000
  }

  /** The characters at which `str.splitlines()` ends a line. */
  predicate IsLineBreak(c: char) {
    var n := c as int;
    || 0x0A <= n <= 0x0D
    || 0x1C <= n <= 0x1E
    || n == 0x85
    || n == 0x2028
    || n == 0x2029
  }

  /** Both tables, one code point at a time: `strip` removes every character that `splitlines` breaks at. */
  lemma SpacesAndBreaks(c: char)
    ensures IsSpace(c) <==>
            c as int in { 0x09, 0x0A, 0x0B, 0x0C, 0x0D, 0x1C, 0x1D, 0x1E, 0x1F, 0x20, 0x85, 0xA0, 0x1680, 0x2000,
                          0x2001, 0x2002, 0x2003, 0x2004, 0x2005, 0x2006, 0x2007, 0x2008, 0x2009, 0x200A, 0x2028,
                          0x2029, 0x202F, 0x205F, 0x3000 }
    ensures IsLineBreak(c) <==> c as int in { 0x0A, 0x0B, 0x0C, 0x0D, 0x1C, 0x1D, 0x1E, 0x85, 0x2028, 0x2029 }
    ensures IsLineBreak(c) ==> IsSpace(c)
  {
  }

  predicate NoLineBreak(s: string) {
    forall i :: 0 <= i < |s| ==> !IsLineBreak(s[i])
  }

  /** The characters `ensure_ascii` leaves alone: space to tilde. */
  predicate IsPrintableAscii(c: char) {
    ' ' <= c <= '~'
  }

  predicate AllPrintableAscii(s: string) {
    forall i :: 0 <= i < |s| ==> IsPrintableAscii(s[i])
  }

  function LStrip(s: string): string {
    if s != "" && IsSpace(s[0]) then LStrip(s[1..]) else s
  }

  function RStrip(s: string): string {
    if s != "" && IsSpace(s[|s| - 1]) then RStrip(s[..|s| - 1]) else s
  }

  function Strip(s: string): string {
    RStrip(LStrip(s))
  }

  /** Position of the first line break at or after `i`, or the end of the text. */
  function LineEnd(t: string, i: nat): (j: nat)
    requires i <= |t|
    ensures i <= j <= |t|
    decreases |t| - i
  {
    if i == |t| || IsLineBreak(t[i]) then i else LineEnd(t, i + 1)
  }

  lemma LineEndIsFirst(t: string, i: nat)
    requires i <= |t|
    ensures LineEnd(t, i) < |t| ==> IsLineBreak(t[LineEnd(t, i)])
    ensures forall k :: i <= k < LineEnd(t, i) ==> !IsLineBreak(t[k])
    decreases |t| - i
  {
  }

  /** Where the line after the break at `j` starts: "\r\n" is one break. */
  function AfterBreak(t: string, j: nat): (next: nat)
    requires j < |t|
    ensures j < next <= |t|
  {
    if t[j] == '\r' && j + 1 < |t| && t[j + 1] == '\n' then j + 2 else j + 1
  }

  /** `text.splitlines()`. */
  function SplitLines(t: string): (lines: seq<string>)
    decreases |t|
  {
    var j := LineEnd(t, 0);
    if t == "" then []
    else if j == |t| then [t]
    else [t[..j]] + SplitLines(t[AfterBreak(t, j)..])
  }

  lemma LineEndAt(t: string, i: nat, j: nat)
    requires i <= j < |t| && IsLineBreak(t[j])
    requires forall k :: i <= k < j ==> !IsLineBreak(t[k])
    ensures LineEnd(t, i) == j
    decreases |t| - i
  {
  }

  /** What ends a line: one break character, or "\r\n". */
  predicate IsTerminator(end: string) {
    (|end| == 1 && IsLineBreak(end[0])) || end == "\r\n"
  }

  /** The joint of `a` and `b` does not make one "\r\n" of a final and an initial character. */
  predicate NoCrLfJoint(a: string, b: string) {
    !(a != "" && b != "" && a[|a| - 1] == '\r' && b[0] == '\n')
  }

  /** `a` holds whole lines of the text `a + b`. */
  predicate AtBoundary(a: string, b: string) {
    a == "" || (IsLineBreak(a[|a| - 1]) && NoCrLfJoint(a, b))
  }

  /** A line without breaks is the first line of the text, whatever terminator ends it. */
  lemma FirstLine(line: string, end: string, rest: string)
    requires NoLineBreak(line) && IsTerminator(end) && NoCrLfJoint(end, rest)
    ensures SplitLines(line + (end + rest)) == [line] + SplitLines(rest)
  {
    var t := line + (end + rest);
    LineEndAt(t, 0, |line|);
    assert t[..|line|] == line;
    assert t[|line|] == end[0];
    assert AfterBreak(t, |line|) == |line| + |end|;
    assert t[|line| + |end|..] == rest;
  }

  lemma OneLine(line: string)
    requires NoLineBreak(line)
    ensures SplitLines(line) == if line == "" then [] else [line]
  {
    LineEndIsFirst(line, 0);
  }

  /** The first line of a text that ends in a line break is unaffected by what follows the text. */
  lemma FirstLineOfPrefix(a: string, b: string)
    requires a != "" && AtBoundary(a, b)
    ensures LineEnd(a, 0) < |a| && LineEnd(a + b, 0) == LineEnd(a, 0)
    ensures AfterBreak(a + b, LineEnd(a, 0)) == AfterBreak(a, LineEnd(a, 0))
    ensures (a + b)[..LineEnd(a, 0)] == a[..LineEnd(a, 0)]
  {
    var j := LineEnd(a, 0);
    LineEndIsFirst(a, 0);
    assert j < |a| by {
      if j == |a| {
        assert IsLineBreak(a[|a| - 1]);
      }
    }
    LineEndAt(a + b, 0, j);
  }

  lemma TailAtBoundary(a: string, n: nat, b: string)
    requires n <= |a| && AtBoundary(a, b)
    ensures AtBoundary(a[n..], b)
  {
  }

  /** Whole lines are split independently of what follows them. */
  lemma {:induction false} SplitAtBoundary(a: string, b: string)
    requires AtBoundary(a, b)
    ensures SplitLines(a + b) == SplitLines(a) + SplitLines(b)
    decreases |a|
  {
    if a == "" {
      assert a + b == b;
    } else {
      FirstLineOfPrefix(a, b);
      var j := LineEnd(a, 0);
      var tail := a[AfterBreak(a, j)..];
      TailAtBoundary(a, AfterBreak(a, j), b);
      SplitAtBoundary(tail, b);
      Seqs.DropOfConcat(a, b, AfterBreak(a, j));
      Seqs.ConcatAssociative([a[..j]], SplitLines(tail), SplitLines(b));
    }
  }

  /** Every text is whole lines and then a last line without a break, empty when the text ends in one. */
  lemma {:induction false} LastLine(t: string) returns (whole: string, last: string)
    ensures t == whole + last && NoLineBreak(last) && AtBoundary(whole, last)
    ensures last == "" <==> t == "" || IsLineBreak(t[|t| - 1])
    decreases |t|
  {
    if t == "" || IsLineBreak(t[|t| - 1]) {
      whole, last := t, "";
    } else {
      var front := t[..|t| - 1];
      var w, l := LastLine(front);
      whole, last := w, l + [t[|t| - 1]];
      assert t == front + [t[|t| - 1]];
      Seqs.ConcatAssociative(w, l, [t[|t| - 1]]);
    }
  }

  lemma LinesOfLast(whole: string, last: string, end: string)
    requires NoLineBreak(last) && IsTerminator(end) && AtBoundary(whole, last + end)
    ensures SplitLines(whole + (last + end)) == SplitLines(whole) + [last]
  {
    SplitAtBoundary(whole, last + end);
    FirstLine(last, end, "");
    assert end + "" == end;
  }

  /** Ending an unterminated last line changes no line. */
  lemma TerminatorAddsNoLine(t: string, end: string)
    requires IsTerminator(end) && t != "" && !IsLineBreak(t[|t| - 1])
    ensures SplitLines(t + end) == SplitLines(t)
  {
    var whole, last := LastLine(t);
    Seqs.ConcatAssociative(whole, last, end);
    assert NoCrLfJoint(whole, last + end) by {
      assert (last + end)[0] == last[0];
    }
    LinesOfLast(whole, last, end);
    SplitAtBoundary(whole, last);
    OneLine(last);
  }

  /** A terminator that cannot complete an earlier "\r\n" ends the last line. */
  lemma EndedLast(whole: string, last: string, end: string)
    requires NoLineBreak(last) && AtBoundary(whole, last)
    requires IsTerminator(end) && end[0] != '\n'
    ensures SplitLines(whole + last + end) == SplitLines(whole) + [last]
  {
    assert (last + end)[0] != '\n' by {
      assert (last + end)[0] == if last == "" then end[0] else last[0];
    }
    LinesOfLast(whole, last, end);
    Seqs.ConcatAssociative(whole, last, end);
  }

  lemma EndsAlike(t: string, end: string, other: string)
    requires IsTerminator(end) && IsTerminator(other) && end[0] != '\n' && other[0] != '\n'
    ensures SplitLines(t + end) == SplitLines(t + other)
  {
    var whole, last := LastLine(t);
    EndedLast(whole, last, end);
    EndedLast(whole, last, other);
  }

  /** Neither does a line feed after a final carriage return. */
  lemma LineFeedCompletesCr(t: string, end: string)
    requires t != "" && t[|t| - 1] == '\r' && end == "\n"
    ensures SplitLines(t + end) == SplitLines(t)
  {
    var front := t[..|t| - 1];
    EndsAlike(front, [t[|t| - 1]], [t[|t| - 1]] + end);
    assert front + [t[|t| - 1]] == t;
    Seqs.ConcatAssociative(front, [t[|t| - 1]], end);
  }

  // ----- one more line in a text -----

  /** Both joints keep the lines apart: the inserted line stands between those before and after. */
  lemma InsertedApart(before: string, line: string, end: string, after: string)
    requires AtBoundary(before, after) && AtBoundary(before, line + (end + after))
    requires NoLineBreak(line) && IsTerminator(end) && NoCrLfJoint(end, after)
    ensures SplitLines(before + (line + (end + after))) == SplitLines(before) + [line] + SplitLines(after)
    ensures SplitLines(before + after) == SplitLines(before) + SplitLines(after)
  {
    SplitAtBoundary(before, line + (end + after));
    SplitAtBoundary(before, after);
    FirstLine(line, end, after);
    Seqs.ConcatAssociative(SplitLines(before), [line], SplitLines(after));
  }

  /** An empty line ended by a line feed, put after a carriage return, completes its "\r\n". */
  lemma InsertedLineFeed(before: string, end: string, after: string)
    requires before != "" && before[|before| - 1] == '\r' && end == "\n"
    ensures SplitLines(before + (end + after)) == SplitLines(before) + SplitLines(after)
  {
    LineFeedCompletesCr(before, end);
    Seqs.ConcatAssociative(before, end, after);
    SplitAtBoundary(before + end, after);
  }

  /** A line ended by a carriage return, put before an empty line, takes over its line feed. */
  lemma InsertedCarriageReturn(before: string, line: string, end: string, after: string)
    requires AtBoundary(before, after) && NoLineBreak(line)
    requires end == "\r" && after != "" && after[0] == '\n'
    ensures SplitLines(before + (line + (end + after))) == SplitLines(before) + [line] + SplitLines(after[1..])
    ensures SplitLines(before + after) == SplitLines(before) + [""] + SplitLines(after[1..])
  {
    var feed, rest := [after[0]], after[1..];
    var a, b := SplitLines(before), SplitLines(rest);
    assert after == "" + (feed + rest);
    FirstLine("", feed, rest);
    SplitAtBoundary(before, after);
    Seqs.ConcatAssociative(end, feed, rest);
    assert (line + (end + after))[0] != '\n' by {
      assert (line + (end + after))[0] == if line == "" then end[0] else line[0];
    }
    FirstLine(line, end + feed, rest);
    SplitAtBoundary(before, line + (end + after));
    Seqs.ConcatAssociative(a, [line], b);
    Seqs.ConcatAssociative(a, [""], b);
  }

  /** An unterminated line at the end of the text. */
  lemma InsertedLast(before: string, line: string)
    requires AtBoundary(before, "") && NoLineBreak(line)
    ensures SplitLines(before + line) == SplitLines(before) + (if line == "" then [] else [line])
  {
    SplitAtBoundary(before, line);
    OneLine(line);
  }

  /** The lines of two texts that differ in one line: it is there in one of them, and missing or empty in the other. */
  ghost predicate DifferInLine(longer: seq<string>, shorter: seq<string>, a: seq<string>, line: string,
                               b: seq<string>)
  {
    && (longer == a + [line] + b || (line == "" && longer == a + b))
    && (shorter == a + b || shorter == a + [""] + b)
  }

  /** What one more line, with any terminator, at any boundary of a text does to its lines. */
  lemma LineInserted(before: string, line: string, end: string, after: string) returns (a: seq<string>, b: seq<string>)
    requires AtBoundary(before, after) && NoLineBreak(line)
    requires IsTerminator(end) || (end == "" && after == "")
    ensures DifferInLine(SplitLines(before + (line + (end + after))), SplitLines(before + after), a, line, b)
  {
    a := SplitLines(before);
    if end == "" {
      b := [];
      assert line + (end + after) == line && before + after == before;
      InsertedLast(before, line);
      assert a + [line] + [] == a + [line] && a + [] == a;
    } else if !NoCrLfJoint(end, after) {
      b := SplitLines(after[1..]);
      assert end == "\r";
      InsertedCarriageReturn(before, line, end, after);
    } else if line == "" && end == "\n" && !NoCrLfJoint(before, end) {
      b := SplitLines(after);
      assert line + (end + after) == end + after;
      InsertedLineFeed(before, end, after);
      SplitAtBoundary(before, after);
    } else {
      b := SplitLines(after);
      assert (line + (end + after))[0] == if line == "" then end[0] else line[0];
      InsertedApart(before, line, end, after);
    }
  }

  /** `line.partition(sep)`: the position of the first separator, or the length. */
  function Find(s: string, sep: char): (i: nat)
    ensures i <= |s|
    ensures i < |s| ==> s[i] == sep
    ensures forall k :: 0 <= k < i ==> s[k] != sep
  {
    if s == "" || s[0] == sep then 0 else 1 + Find(s[1..], sep)
  }

  lemma StripClean(s: string)
    requires s != "" ==> !IsSpace(s[0]) && !IsSpace(s[|s| - 1])
    ensures Strip(s) == s
  {
  }

  // ----- what `strip` removes -----

  predicate AllSpace(s: string) {
    forall i :: 0 <= i < |s| ==> IsSpace(s[i])
  }

  predicate NothingToStrip(s: string) {
    s != "" ==> !IsSpace(s[0]) && !IsSpace(s[|s| - 1])
  }

  lemma {:induction false} LStripParts(s: string) returns (w: string)
    ensures s == w + LStrip(s) && AllSpace(w)
    ensures LStrip(s) != "" ==> !IsSpace(LStrip(s)[0])
  {
    if s != "" && IsSpace(s[0]) {
      var v := LStripParts(s[1..]);
      w := [s[0]] + v;
    } else {
      w := "";
    }
  }

  lemma {:induction false} RStripParts(s: string) returns (w: string)
    ensures s == RStrip(s) + w && AllSpace(w)
    ensures RStrip(s) != "" ==> !IsSpace(RStrip(s)[|RStrip(s)| - 1])
  {
    if s != "" && IsSpace(s[|s| - 1]) {
      var front, last := s[..|s| - 1], [s[|s| - 1]];
      var v := RStripParts(front);
      w := v + last;
      assert s == front + last;
      Seqs.ConcatAssociative(RStrip(front), v, last);
    } else {
      w := "";
    }
  }

  lemma {:induction false} LStripSpaces(w: string, s: string)
    requires AllSpace(w) && (s != "" ==> !IsSpace(s[0]))
    ensures LStrip(w + s) == s
  {
    if w == "" {
      assert w + s == s;
    } else {
      LStripSpaces(w[1..], s);
      assert (w + s)[1..] == w[1..] + s;
    }
  }

  lemma {:induction false} RStripSpaces(s: string, w: string)
    requires AllSpace(w) && (s != "" ==> !IsSpace(s[|s| - 1]))
    ensures RStrip(s + w) == s
  {
    if w == "" {
      assert s + w == s;
    } else {
      RStripSpaces(s, w[..|w| - 1]);
      assert (s + w)[..|s + w| - 1] == s + w[..|w| - 1];
    }
  }

  /** White space on both sides, and only that, is what `strip` removes. */
  lemma StripAround(w: string, s: string, v: string)
    requires AllSpace(w) && AllSpace(v) && NothingToStrip(s)
    ensures Strip(w + (s + v)) == s
  {
    if s == "" {
      assert w + (s + v) == (w + v) + "";
      LStripSpaces(w + v, "");
    } else {
      assert (s + v)[0] == s[0];
      LStripSpaces(w, s + v);
      RStripSpaces(s, v);
    }
  }

  lemma StripParts(s: string) returns (w: string, v: string)
    ensures s == w + (Strip(s) + v) && AllSpace(w) && AllSpace(v) && NothingToStrip(Strip(s))
    ensures Strip(s) == "" <==> AllSpace(s)
  {
    w := LStripParts(s);
    v := RStripParts(LStrip(s));
    if Strip(s) != "" {
      assert LStrip(s)[0] == Strip(s)[0];
      assert s[|w|] == Strip(s)[0];
    }
  }

  lemma {:induction false} LStripUpTo(a: string, b: string)
    requires b != "" && !IsSpace(b[0])
    ensures LStrip(a + b) == LStrip(a) + b
  {
    if a == "" {
      assert a + b == b;
    } else if IsSpace(a[0]) {
      LStripUpTo(a[1..], b);
      assert (a + b)[1..] == a[1..] + b;
    }
  }

  lemma {:induction false} RStripDownTo(a: string, b: string)
    requires a != "" && !IsSpace(a[|a| - 1])
    ensures RStrip(a + b) == a + RStrip(b)
  {
    if b == "" {
      assert a + b == a;
    } else if IsSpace(b[|b| - 1]) {
      RStripDownTo(a, b[..|b| - 1]);
      assert (a + b)[..|a + b| - 1] == a + b[..|b| - 1];
    }
  }

  /** A text with a character in it that stays: only the outer sides of the rest are stripped. */
  lemma StripOutside(a: string, c: char, b: string)
    requires !IsSpace(c)
    ensures Strip(a + ([c] + b)) == LStrip(a) + ([c] + RStrip(b))
  {
    LStripUpTo(a, [c] + b);
    Seqs.ConcatAssociative(LStrip(a), [c], b);
    RStripDownTo(LStrip(a) + [c], b);
    Seqs.ConcatAssociative(LStrip(a), [c], RStrip(b));
  }

  lemma StripAfterLStrip(s: string)
    ensures Strip(LStrip(s)) == Strip(s)
  {
    var w := LStripParts(s);
  }

  lemma StripAfterRStrip(s: string)
    ensures Strip(RStrip(s)) == Strip(s)
  {
    var w, v := StripParts(s);
    if Strip(s) == "" {
      assert "" + s == s;
      RStripSpaces("", s);
    } else {
      var t := Strip(s);
      Seqs.ConcatAssociative(w, t, v);
      assert (w + t)[|w + t| - 1] == t[|t| - 1];
      RStripSpaces(w + t, v);
      assert t + "" == t;
      StripAround(w, t, "");
    }
  }

  /** Python compares strings code point by code point, a proper prefix first. */
  predicate Less(a: string, b: string) {
    b != "" && (a == "" || a[0] < b[0] || (a[0] == b[0] && Less(a[1..], b[1..])))
  }

  lemma LessIrreflexive(a: string)
    ensures !Less(a, a)
  {
  }

  lemma LessTransitive(a: string, b: string, c: string)
    requires Less(a, b) && Less(b, c)
    ensures Less(a, c)
  {
  }

  lemma LessTotal(a: string, b: string)
    ensures Less(a, b) || a == b || Less(b, a)
  {
    if a != "" && b != "" && a[0] == b[0] {
      LessTotal(a[1..], b[1..]);
      assert a == [a[0]] + a[1..];
      assert b == [b[0]] + b[1..];
    }
  }

  /** `b` is longer and begins with `a`, or has the larger code point where the two first differ, at `i`. */
  predicate LessAt(a: string, b: string, i: nat) {
    i <= |a| && i < |b| && a[..i] == b[..i] && (i == |a| || a[i] < b[i])
  }

  lemma LessAtTail(a: string, b: string, i: nat)
    requires a != "" && b != "" && a[0] == b[0]
    ensures LessAt(a, b, i + 1) <==> LessAt(a[1..], b[1..], i)
  {
    if i <= |a[1..]| && i < |b[1..]| {
      assert a[..i + 1] == [a[0]] + a[1..][..i] && b[..i + 1] == [b[0]] + b[1..][..i];
      assert a[..i + 1][1..] == a[1..][..i] && b[..i + 1][1..] == b[1..][..i];
    }
  }

  lemma LaterDifference(a: string, b: string, i: nat)
    requires i > 0 && LessAt(a, b, i)
    ensures a != "" && b != "" && a[0] == b[0]
  {
    assert a[..i][0] == b[..i][0];
  }

  /** One text comes before another exactly when it is a proper prefix or smaller where they first differ. */
  lemma {:induction false} LessAtFirstDifference(a: string, b: string)
    ensures Less(a, b) <==> exists i: nat :: LessAt(a, b, i)
  {
    if a != "" && b != "" && a[0] == b[0] {
      LessAtFirstDifference(a[1..], b[1..]);
      if Less(a, b) {
        var i: nat :| LessAt(a[1..], b[1..], i);
        LessAtTail(a, b, i);
        assert LessAt(a, b, i + 1);
      }
      if i: nat :| LessAt(a, b, i) {
        assert i > 0;
        LessAtTail(a, b, i - 1);
        assert LessAt(a[1..], b[1..], i - 1);
      }
    } else {
      assert Less(a, b) ==> LessAt(a, b, 0);
      if i: nat :| LessAt(a, b, i) && !Less(a, b) {
        LaterDifference(a, b, i);
        assert false;
      }
    }
  }
}
