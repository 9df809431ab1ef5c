/** The Python `str` operations the handler relies on: `strip()`,
    `split(sep)` with a one-character separator, and `sep.join(parts)`. */
module Text {

  /** The code-point ranges of the characters Python's `str.isspace()`
      accepts, which `str.strip()` with no argument removes from both ends. */
  const WhitespaceRanges: seq<(int, int)> := [
    (0x09, 0x0D), (0x1C, 0x20), (0x85, 0x85), (0xA0, 0xA0), (0x1680, 0x1680),
    (0x2000, 0x200A), (0x2028, 0x2029), (0x202F, 0x202F), (0x205F, 0x205F),
    (0x3000, 0x3000)
  ]

  /** `n` lies in one of the inclusive ranges. */
  predicate InRanges(n: int, ranges: seq<(int, int)>)
  {
    ranges != [] && ((ranges[0].0 <= n <= ranges[0].1) || InRanges(n, ranges[1..]))
  }

  predicate IsWhitespace(c: char)
  {
    InRanges(c as int, WhitespaceRanges)
  }

  predicate AllWhitespace(s: string)
  {
    forall i :: 0 <= i < |s| ==> IsWhitespace(s[i])
  }

  // ---------------------------------------------------------------------
  // strip
  // ---------------------------------------------------------------------
  /** The number of whitespace characters `s` starts with. */
  function LeadingWhitespace(s: string): (n: nat)
    ensures n <= |s|
  {
    if s != [] && IsWhitespace(s[0]) then 1 + LeadingWhitespace(s[1..]) else 0
  }

  /** The number of whitespace characters `s` ends with. */
  function TrailingWhitespace(s: string): (n: nat)
    ensures n <= |s|
  {
    if s != [] && IsWhitespace(s[|s| - 1]) then 1 + TrailingWhitespace(s[..|s| - 1]) else 0
  }

  /** The leading run is whitespace and the character after it is not. */
  lemma {:induction false} LeadingWhitespaceIsMaximal(s: string)
    ensures forall k :: 0 <= k < LeadingWhitespace(s) ==> IsWhitespace(s[k])
    ensures LeadingWhitespace(s) < |s| ==> !IsWhitespace(s[LeadingWhitespace(s)])
  {
    if s != [] && IsWhitespace(s[0]) {
      var t := s[1..];
      LeadingWhitespaceIsMaximal(t);
      forall k | 1 <= k < LeadingWhitespace(s) ensures IsWhitespace(s[k]) {
        assert s[k] == t[k - 1];
      }
      assert LeadingWhitespace(s) < |s| ==> s[LeadingWhitespace(s)] == t[LeadingWhitespace(t)];
    }
  }

  /** The trailing run is whitespace and the character before it is not. */
  lemma {:induction false} TrailingWhitespaceIsMaximal(s: string)
    ensures forall k :: |s| - TrailingWhitespace(s) <= k < |s| ==> IsWhitespace(s[k])
    ensures TrailingWhitespace(s) < |s| ==> !IsWhitespace(s[|s| - 1 - TrailingWhitespace(s)])
  {
    if s != [] && IsWhitespace(s[|s| - 1]) {
      var t := s[..|s| - 1];
      TrailingWhitespaceIsMaximal(t);
      forall k | |s| - TrailingWhitespace(s) <= k < |s| - 1 ensures IsWhitespace(s[k]) {
        assert s[k] == t[k];
      }
      assert TrailingWhitespace(s) < |s| ==>
        s[|s| - 1 - TrailingWhitespace(s)] == t[|t| - 1 - TrailingWhitespace(t)];
    }
  }

  /** `s.lstrip()`: `s` without its leading whitespace. */
  function TrimStart(s: string): string
  {
    s[LeadingWhitespace(s)..]
  }

  /** `s.rstrip()`: `s` without its trailing whitespace. */
  function TrimEnd(s: string): string
  {
    s[..|s| - TrailingWhitespace(s)]
  }

  /** Where the strip of `s` begins: after the leading whitespace. */
  function StripStart(s: string): nat
  {
    LeadingWhitespace(s)
  }

  /** Where the strip of `s` ends: before the trailing whitespace of what
      follows the leading whitespace. */
  function StripStop(s: string): int
  {
    |s| - TrailingWhitespace(TrimStart(s))
  }

  /** Neither end of `s` is whitespace (the empty string qualifies). */
  predicate Unpadded(s: string)
  {
    s != [] ==> !IsWhitespace(s[0]) && !IsWhitespace(s[|s| - 1])
  }

  /** `s.strip()`: `s` without the whitespace at either end. It is empty
      exactly when `s` is all whitespace, and otherwise starts and ends with
      a character that is not whitespace. */
  function Strip(s: string): (r: string)
    ensures |r| <= |s|
    ensures r == [] <==> AllWhitespace(s)
    ensures Unpadded(r)
  {
    StripIsSlice(s);
    StripIsEmpty(s);
    TrimEnd(TrimStart(s))
  }

  /** The strip is the slice of `s` between its leading and its trailing
      whitespace, and only whitespace lies outside it. */
  lemma StripIsSlice(s: string)
    ensures StripStart(s) <= StripStop(s) <= |s|
    ensures TrimEnd(TrimStart(s)) == s[StripStart(s)..StripStop(s)]
    ensures forall k :: 0 <= k < StripStart(s) ==> IsWhitespace(s[k])
    ensures forall k :: StripStop(s) <= k < |s| ==> IsWhitespace(s[k])
    ensures StripStart(s) < StripStop(s) ==>
      !IsWhitespace(s[StripStart(s)]) && !IsWhitespace(s[StripStop(s) - 1])
  {
    var i := LeadingWhitespace(s);
    var t := TrimStart(s);
    LeadingWhitespaceIsMaximal(s);
    TrailingWhitespaceIsMaximal(t);
    forall k | StripStop(s) <= k < |s| ensures IsWhitespace(s[k]) {
      assert s[k] == t[k - i];
    }
    if StripStart(s) < StripStop(s) {
      assert s[StripStop(s) - 1] == t[|t| - 1 - TrailingWhitespace(t)];
    }
  }

  /** The strip is empty exactly when `s` is all whitespace. */
  lemma StripIsEmpty(s: string)
    ensures TrimEnd(TrimStart(s)) == [] <==> AllWhitespace(s)
  {
    StripIsSlice(s);
    if StripStart(s) < StripStop(s) {
      assert !IsWhitespace(s[StripStart(s)]);
    } else {
      forall k | 0 <= k < |s| ensures IsWhitespace(s[k]) {
        if k >= StripStart(s) {
          assert k >= StripStop(s);
        }
      }
    }
  }
  /** A string with no whitespace at either end is its own strip. */
  lemma StripUnpadded(s: string)
    requires s != [] && !IsWhitespace(s[0]) && !IsWhitespace(s[|s| - 1])
    ensures Strip(s) == s
  {
    assert LeadingWhitespace(s) == 0;
    assert TrimStart(s) == s;
    assert TrailingWhitespace(s) == 0;
  }

  /** Leading whitespace does not reach the strip. */
  lemma StripLeading(s: string)
    requires s != [] && IsWhitespace(s[0])
    ensures Strip(s) == Strip(s[1..])
  {
    assert LeadingWhitespace(s) == 1 + LeadingWhitespace(s[1..]);
    assert TrimStart(s) == TrimStart(s[1..]);
  }

  /** Stripping twice strips nothing more. */
  lemma StripIdempotent(s: string)
    ensures Strip(Strip(s)) == Strip(s)
  {
    var r := Strip(s);
    if r != [] {
      StripUnpadded(r);
    }
  }

  // ---------------------------------------------------------------------
  // split and join
  // ---------------------------------------------------------------------

  /** `s.split(sep)`: the pieces between occurrences of `sep`, empty pieces
      included; the empty string gives one empty piece. */
  function Split(s: string, sep: char): (pieces: seq<string>)
    ensures |pieces| >= 1
  {
    if s == [] then
      [[]]
    else
      var rest := Split(s[1..], sep);
      if s[0] == sep then [[]] + rest
      else [[s[0]] + rest[0]] + rest[1..]
  }

  /** No piece of a split holds the separator. */
  lemma {:induction false} SplitPiecesLackSeparator(s: string, sep: char)
    ensures forall k :: 0 <= k < |Split(s, sep)| ==> sep !in Split(s, sep)[k]
  {
    if s != [] {
      SplitPiecesLackSeparator(s[1..], sep);
      var rest := Split(s[1..], sep);
      if s[0] != sep {
        assert sep !in [s[0]] + rest[0];
      }
    }
  }

  /** `sep.join(parts)`. */
  function Join(parts: seq<string>, sep: string): string
  {
    if |parts| == 0 then []
    else if |parts| == 1 then parts[0]
    else parts[0] + sep + Join(parts[1..], sep)
  }

  /** Total length of the parts. */
  function TotalLength(parts: seq<string>): nat
  {
    if parts == [] then 0 else |parts[0]| + TotalLength(parts[1..])
  }

  /** Where part `i` starts in `Join(parts, sep)`: every earlier part and
      the separator after it come first. */
  function JoinOffset(parts: seq<string>, sep: string, i: nat): nat
    requires i <= |parts|
  {
    if i == 0 then 0 else |parts[0]| + |sep| + JoinOffset(parts[1..], sep, i - 1)
  }

  /** Each offset is the previous one plus a part and a separator. */
  lemma {:induction false} JoinOffsetStep(parts: seq<string>, sep: string, i: nat)
    requires i < |parts|
    ensures JoinOffset(parts, sep, i + 1) == JoinOffset(parts, sep, i) + |parts[i]| + |sep|
  {
    if i > 0 {
      JoinOffsetStep(parts[1..], sep, i - 1);
    }
  }

  /** The offsets add up the first parts and one separator after each. */
  lemma {:induction false} JoinOffsetTotal(parts: seq<string>, sep: string, i: nat)
    requires i <= |parts|
    ensures JoinOffset(parts, sep, i) == TotalLength(parts[..i]) + i * |sep|
  {
    if i > 0 {
      JoinOffsetTotal(parts[1..], sep, i - 1);
      assert parts[..i][1..] == parts[1..][..i - 1];
    } else {
      assert parts[..0] == [];
    }
  }

  /** Joining the pieces of a split with the same separator gives the
      string back. */
  lemma {:induction false} JoinSplit(s: string, sep: char)
    ensures Join(Split(s, sep), [sep]) == s
  {
    if s != [] {
      var rest := Split(s[1..], sep);
      JoinSplit(s[1..], sep);
      if s[0] == sep {
        assert Split(s, sep)[1..] == rest;
      } else {
        var pieces := Split(s, sep);
        if |rest| > 1 {
          assert pieces[1..] == rest[1..];
          assert Join(rest, [sep]) == rest[0] + [sep] + Join(rest[1..], [sep]);
        }
      }
    }
  }

  /** Splitting a string whose first piece holds no separator. */
  lemma {:induction false} SplitAfterPiece(p: string, t: string, sep: char)
    requires sep !in p
    ensures Split(p + t, sep) == [p + Split(t, sep)[0]] + Split(t, sep)[1..]
  {
    if p != [] {
      assert (p + t)[1..] == p[1..] + t;
      assert p[0] in p;
      SplitAfterPiece(p[1..], t, sep);
      assert [p[0]] + (p[1..] + Split(t, sep)[0]) == p + Split(t, sep)[0];
    } else {
      var pieces := Split(t, sep);
      assert pieces == [pieces[0]] + pieces[1..];
      assert p + t == t && p + pieces[0] == pieces[0];
    }
  }

  /** Splitting a join of separator-free parts gives the parts back, so
      `Split` and `Join` are inverse on non-empty lists of such parts. */
  lemma {:induction false} SplitJoin(parts: seq<string>, sep: char)
    requires |parts| >= 1
    requires forall k :: 0 <= k < |parts| ==> sep !in parts[k]
    ensures Split(Join(parts, [sep]), sep) == parts
  {
    if |parts| == 1 {
      SplitAfterPiece(parts[0], [], sep);
      assert parts[0] + [] == parts[0];
    } else {
      var tail := Join(parts[1..], [sep]);
      SplitJoin(parts[1..], sep);
      assert ([sep] + tail)[1..] == tail;
      assert Split([sep] + tail, sep) == [[]] + parts[1..];
      SplitAfterPiece(parts[0], [sep] + tail, sep);
      assert parts[0] + [sep] + tail == parts[0] + ([sep] + tail);
      assert parts[0] + [] == parts[0];
      assert parts == [parts[0]] + parts[1..];
    }
  }

  /** The length of a join: all the parts and one separator between each
      adjacent pair. */
  lemma {:induction false} JoinLength(parts: seq<string>, sep: string)
    requires |parts| >= 1
    ensures |Join(parts, sep)| == TotalLength(parts) + (|parts| - 1) * |sep|
  {
    if |parts| > 1 {
      JoinLength(parts[1..], sep);
    } else {
      assert TotalLength(parts[1..]) == 0;
    }
  }

  /** Part `i` of a join sits at `JoinOffset(parts, sep, i)`. */
  lemma {:induction false} JoinPartAt(parts: seq<string>, sep: string, i: nat)
    requires i < |parts|
    ensures JoinOffset(parts, sep, i) + |parts[i]| <= |Join(parts, sep)|
    ensures Join(parts, sep)[JoinOffset(parts, sep, i)..JoinOffset(parts, sep, i) + |parts[i]|] == parts[i]
  {
    if i == 0 {
      if |parts| > 1 {
        assert Join(parts, sep) == parts[0] + (sep + Join(parts[1..], sep));
      }
    } else {
      var head := parts[0] + sep;
      var tail := Join(parts[1..], sep);
      var at := JoinOffset(parts[1..], sep, i - 1);
      JoinPartAt(parts[1..], sep, i - 1);
      assert Join(parts, sep) == head + tail;
      SliceOfSuffix(head, tail, at, at + |parts[i]|);
    }
  }

  /** A slice that lies in the second half of a concatenation. */
  lemma SliceOfSuffix(a: string, b: string, x: nat, y: nat)
    requires x <= y <= |b|
    ensures (a + b)[|a| + x..|a| + y] == b[x..y]
  {
  }

  /** The separator follows every part of a join but the last. */
  lemma {:induction false} JoinSeparatorAt(parts: seq<string>, sep: string, i: nat)
    requires i + 1 < |parts|
    ensures JoinOffset(parts, sep, i) + |parts[i]| + |sep| <= |Join(parts, sep)|
    ensures Join(parts, sep)[JoinOffset(parts, sep, i) + |parts[i]|..JoinOffset(parts, sep, i) + |parts[i]| + |sep|] == sep
  {
    var head := parts[0] + sep;
    var tail := Join(parts[1..], sep);
    assert Join(parts, sep) == head + tail;
    if i > 0 {
      var at := JoinOffset(parts[1..], sep, i - 1) + |parts[i]|;
      JoinSeparatorAt(parts[1..], sep, i - 1);
      SliceOfSuffix(head, tail, at, at + |sep|);
    }
  }

  /** The one-character strings a Python `str` yields when iterated. */
  function Chars(s: string): seq<string>
  {
    seq(|s|, k requires 0 <= k < |s| => [s[k]])
  }

  /** `"".join(s)` on a string `s` is `s` itself. */
  lemma {:induction false} JoinCharsIdentity(s: string)
    ensures Join(Chars(s), "") == s
  {
    if |s| > 1 {
      assert Chars(s)[1..] == Chars(s[1..]);
      JoinCharsIdentity(s[1..]);
      assert s == [s[0]] + s[1..];
    }
  }
}
