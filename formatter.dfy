/** `Searcher.formatMessage`: cut a commit message down to a one-line summary
    of a given width. The code finds the first newline with `strings.Index`,
    which counts BYTES, and then slices the message's RUNES with that count;
    the two agree only while the text before the newline is ASCII. */
module Formatter {
  import opened Seqs
  import opened Utf8

  const Ellipsis: string := "..."

  /** The message up to, and not including, its first newline; the whole
      message when it has none. */
  function FirstLine(msg: string): (line: string)
    ensures |line| <= |msg|
  {
    var k := IndexOf(msg, '\n');
    if k < 0 then msg else msg[..k]
  }

  /** The first line is a newline-free prefix of the message; it stops at
      the first newline when there is one and is the whole message when
      there is none. */
  lemma FirstLineSpec(msg: string)
    ensures FirstLine(msg) <= msg
    ensures '\n' !in FirstLine(msg)
    ensures '\n' in msg ==> msg[|FirstLine(msg)|] == '\n'
    ensures '\n' !in msg ==> FirstLine(msg) == msg
  {
    IndexOfFinds(msg, '\n');
  }

  /** `strings.Index(msg, "\n")`: the byte offset of the first newline, or -1. */
  function NewlineOffset(msg: string): (i: int)
    ensures i == -1 <==> '\n' !in msg
    ensures '\n' in msg ==> |FirstLine(msg)| <= i
  {
    NewlineOffsetIsByteLength(msg);
    IndexOfFinds(msg, '\n');
    IndexOf(Encode(msg), NewlineByte)
  }

  /** The inputs on which `formatMessage` returns with slices inside the
      runes: `r[0:i]` needs `0 <= i`, and `r[0:width-3]` needs
      `0 <= width-3`; both upper bounds are taken here as `len(r)`, where
      Go allows up to `cap(r)`. */
  predicate Defined(msg: string, width: int)
    ensures Defined(msg, width) ==> '\n' in msg && (|FirstLine(msg)| < width || 3 <= width)
  {
    var i := NewlineOffset(msg);
    0 <= i && if i < width then i <= |msg| else 3 <= width <= |msg| + 3
  }

  /** `formatMessage` as written: the branch and the slice both use the byte
      offset `i` of the first newline as a count of runes. */
  function FormatMessage(msg: string, width: int): (r: string)
    requires Defined(msg, width)
    ensures |r| <= width
  {
    var i := NewlineOffset(msg);
    if i < width then msg[..i] else msg[..width - 3] + Ellipsis
  }

  /** The summary is a prefix of the message, or a prefix followed by "...". */
  lemma FormatMessageShape(msg: string, width: int)
    requires Defined(msg, width)
    ensures var r := FormatMessage(msg, width);
      r <= msg || (3 <= |r| && r[..|r| - 3] <= msg && r[|r| - 3..] == Ellipsis)
  {
  }

  /** The branch is decided by the byte length of the first line, which is
      never smaller than its rune length. */
  lemma FormatMessageByBytes(msg: string, width: int)
    requires Defined(msg, width)
    ensures '\n' in msg
    ensures NewlineOffset(msg) == |Encode(FirstLine(msg))| >= |FirstLine(msg)|
    ensures FormatMessage(msg, width) ==
      var b := |Encode(FirstLine(msg))|;
      if b < width then msg[..b] else msg[..width - 3] + Ellipsis
  {
    NewlineOffsetIsByteLength(msg);
    IndexOfFinds(msg, '\n');
  }

  /** With an ASCII first line the byte offset is the rune length of that
      line. */
  lemma AsciiOffsetIsLineLength(msg: string)
    requires '\n' in msg && IsAscii(FirstLine(msg))
    ensures NewlineOffset(msg) == |FirstLine(msg)|
  {
    NewlineOffsetIsByteLength(msg);
    IndexOfFinds(msg, '\n');
    AsciiEncodeLength(FirstLine(msg));
  }

  /** A message without a newline makes `strings.Index` return -1, and
      `r[0:-1]` panics: no width helps. */
  lemma NoNewlinePanics(msg: string, width: int)
    requires '\n' !in msg
    ensures !Defined(msg, width)
  {
    NewlineOffsetIsByteLength(msg);
    IndexOfFinds(msg, '\n');
  }

  /** Counterexample: a first line of at least `width` runes with
      `width < 3` makes `r[0:width-3]` panic on a negative bound, whatever
      runes the line holds, since its byte length is at least its rune
      length. */
  lemma NarrowWidthPanics(msg: string, width: int)
    requires width < 3 && |FirstLine(msg)| >= width
    ensures !Defined(msg, width)
  {
    NewlineOffsetIsByteLength(msg);
    IndexOfFinds(msg, '\n');
  }

  /** With an ASCII first line, `formatMessage` returns exactly when the
      message has a newline and either the line is shorter than `width` or
      `width - 3` is a valid rune count. */
  lemma DefinedIff(msg: string, width: int)
    requires IsAscii(FirstLine(msg))
    ensures Defined(msg, width) <==>
      '\n' in msg && (|FirstLine(msg)| < width || 3 <= width <= |msg| + 3)
  {
    NewlineOffsetIsByteLength(msg);
    IndexOfFinds(msg, '\n');
    AsciiEncodeLength(FirstLine(msg));
  }

  /** A first line shorter than `width` comes back whole, without the
      newline and without an ellipsis. */
  lemma ShortLineKept(msg: string, width: int)
    requires Defined(msg, width) && IsAscii(FirstLine(msg))
    requires |FirstLine(msg)| < width
    ensures FormatMessage(msg, width) == FirstLine(msg)
  {
    FormatMessageByBytes(msg, width);
    AsciiOffsetIsLineLength(msg);
  }

  /** A first line of `width` runes or more is cut to `width - 3` runes and
      gets "...", so the summary has exactly `width` runes. */
  lemma LongLineTruncated(msg: string, width: int)
    requires Defined(msg, width) && IsAscii(FirstLine(msg))
    requires |FirstLine(msg)| >= width
    ensures 3 <= width
    ensures FormatMessage(msg, width) == FirstLine(msg)[..width - 3] + Ellipsis
    ensures |FormatMessage(msg, width)| == width
  {
    FormatMessageByBytes(msg, width);
    AsciiOffsetIsLineLength(msg);
  }

  /** The comparison is strict: a first line of exactly `width` runes, of
      whatever runes, does not fit (its byte length is at least `width`). It
      is cut to `width - 3` runes plus "...", which gives the line back
      unchanged only if the line itself ends in "...". */
  lemma BoundaryIsStrict(msg: string, width: int)
    requires Defined(msg, width)
    requires |FirstLine(msg)| == width
    ensures 3 <= width
    ensures FormatMessage(msg, width) == FirstLine(msg)[..width - 3] + Ellipsis
    ensures FormatMessage(msg, width) == FirstLine(msg) <==>
      FirstLine(msg)[width - 3..] == Ellipsis
  {
    FormatMessageByBytes(msg, width);
    FirstLineSpec(msg);
    var line := FirstLine(msg);
    assert line == line[..width - 3] + line[width - 3..];
  }

  /** A one-line ASCII message shorter than the width, with its newline,
      is kept whole. */
  lemma OneAsciiLine(line: string, width: int)
    requires '\n' !in line && IsAscii(line) && |line| < width
    ensures Defined(line + "\n", width) && FormatMessage(line + "\n", width) == line
  {
    var msg := line + "\n";
    IndexOfAfter(line, "\n", '\n');
    assert FirstLine(msg) == line;
    DefinedIff(msg, width);
    ShortLineKept(msg, width);
  }

  /** With an ASCII first line, the summary never holds a newline: both
      branches cut strictly before it. */
  lemma AsciiSummaryIsOneLine(msg: string, width: int)
    requires Defined(msg, width) && IsAscii(FirstLine(msg))
    ensures '\n' !in FormatMessage(msg, width)
  {
    FirstLineSpec(msg);
    if |FirstLine(msg)| < width {
      ShortLineKept(msg, width);
    } else {
      LongLineTruncated(msg, width);
      assert FormatMessage(msg, width)[..width - 3] <= FirstLine(msg);
    }
  }

  /** Counterexample: "é\nab" has its newline at byte 2 but rune 1, so
      `r[0:2]` returns the newline with the summary. */
  lemma NonAsciiLeaksNewline()
    ensures Defined("\U{E9}\nab", 80)
    ensures FormatMessage("\U{E9}\nab", 80) == "\U{E9}\n"
    ensures '\n' in FormatMessage("\U{E9}\nab", 80)
  {
    var msg := "\U{E9}\nab";
    var e := EncodeRune('\U{E9}');
    assert e == [0xC3, 0xA9];
    assert Encode(msg) == e + Encode(msg[1..]);
    assert Encode(msg[1..]) == [NewlineByte] + Encode(msg[2..]);
    IndexOfAfter(e, Encode(msg[1..]), NewlineByte);
    assert NewlineOffset(msg) == 2;
  }

  /** Counterexample: "éééé\n" has a first line of four runes but eight
      bytes (see WideLineOffset), so at width 6 it is truncated although
      its four runes fit. (The call is defined: the ensures clause is only
      well formed because `Defined` holds of these arguments.) */
  lemma NonAsciiShortLineTruncated()
    ensures FormatMessage("\U{E9}\U{E9}\U{E9}\U{E9}\n", 6) == "\U{E9}\U{E9}\U{E9}" + Ellipsis
  {
    WideLineOffset();
  }

  /** The first line of "éééé\n" is four runes and eight bytes long. */
  lemma WideLineOffset()
    ensures NewlineOffset("\U{E9}\U{E9}\U{E9}\U{E9}\n") == 8
    ensures FirstLine("\U{E9}\U{E9}\U{E9}\U{E9}\n") == "\U{E9}\U{E9}\U{E9}\U{E9}"
  {
    var msg := "\U{E9}\U{E9}\U{E9}\U{E9}\n";
    var e := EncodeRune('\U{E9}');
    assert e == [0xC3, 0xA9];
    var line := msg[..4];
    assert msg == line + "\n";
    assert Encode("\n") == [NewlineByte];
    assert Encode(line) == e + e + e + e by {
      assert Encode(line[3..]) == e;
      assert Encode(line[2..]) == e + Encode(line[3..]);
      assert Encode(line[1..]) == e + Encode(line[2..]);
    }
    EncodeAppend(line, "\n");
    IndexOfAfter(Encode(line), [NewlineByte], NewlineByte);
    assert '\n' !in line;
    IndexOfAfter(line, "\n", '\n');
  }

  /** The evidently intended formatter: it finds the first newline among the
      runes, keeps a first line shorter than `width` whole, and otherwise
      keeps `width - 3` runes of it (none when `width < 3`) and adds "...". */
  function FormatFirstLine(msg: string, width: int): (r: string)
    ensures '\n' !in r
    ensures |r| <= if width < 3 then 3 else width
  {
    FirstLineSpec(msg);
    var line := FirstLine(msg);
    if |line| < width then line
    else line[..if width < 3 then 0 else width - 3] + Ellipsis
  }

  /** The truncation property the corrected formatter meets for every
      message, multi-byte runes included: for `width >= 3` a short first
      line is returned unchanged, a long one becomes exactly `width` runes,
      a prefix of the line followed by "...". */
  lemma FormatFirstLineTruncates(msg: string, width: int)
    requires 3 <= width
    ensures var line, r := FirstLine(msg), FormatFirstLine(msg, width);
      if |line| < width then r == line
      else |r| == width && r[..width - 3] <= line && r[width - 3..] == Ellipsis
  {
    FirstLineSpec(msg);
  }

  /** The corrected formatter keeps the four runes of "éééé\n" at width 6,
      where the code as written truncates them. */
  lemma CorrectedKeepsWideLine()
    ensures FormatFirstLine("\U{E9}\U{E9}\U{E9}\U{E9}\n", 6) == "\U{E9}\U{E9}\U{E9}\U{E9}"
  {
    WideLineOffset();
  }

  /** The corrected formatter needs no newline: a message without one is
      its own first line. */
  lemma CorrectedWithoutNewline(msg: string, width: int)
    requires '\n' !in msg && |msg| < width
    ensures FormatFirstLine(msg, width) == msg
  {
    FirstLineSpec(msg);
  }

  /** Below a width of 3 the corrected formatter gives a long first line
      as the ellipsis alone. */
  lemma CorrectedNarrowWidth(msg: string, width: int)
    requires width < 3 && |FirstLine(msg)| >= width
    ensures FormatFirstLine(msg, width) == Ellipsis
  {
  }

  /** On messages whose first line is ASCII, the code as written and the
      corrected formatter agree wherever the former returns. */
  lemma AsciiAgreesWithCorrected(msg: string, width: int)
    requires Defined(msg, width) && IsAscii(FirstLine(msg))
    ensures FormatMessage(msg, width) == FormatFirstLine(msg, width)
  {
    if |FirstLine(msg)| < width {
      ShortLineKept(msg, width);
    } else {
      LongLineTruncated(msg, width);
    }
  }
}
