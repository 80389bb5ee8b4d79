/** One repository scan of `Searcher.Run`, from the point where go-git hands
    over the commit log: keep the commits whose message matches the pattern,
    render each as "<hash>: <summary>\n" in log order (the order the
    log iterator yields from HEAD), and write either the whole report to the output stream or one
    error text to the error stream. */
module Search {
  import opened Seqs
  import opened Utf8
  import opened Formatter

  /** A go-git `plumbing.Hash` is a 20-byte array; `len(c.Hash)` is 20. */
  const HashSize := 20

  type Hash = h: seq<uint8> | |h| == HashSize witness seq(HashSize, _ => 0 as uint8)

  datatype Commit = Commit(hash: Hash, message: string)

  datatype Option<T> = None | Some(value: T)

  /** What the scan gets from go-git for one directory: either opening the
      repository, resolving HEAD or starting the log failed, or the log was
      walked; `commits` are the ones `ForEach` handed to the callback, and
      `failure` the error that ended the walk, if one did. */
  datatype LogSource =
    | Unavailable(reason: string)
    | Walked(commits: seq<Commit>, failure: Option<string>)

  function HexDigit(d: int): char
    requires 0 <= d < 16
  {
    "0123456789abcdef"[d]
  }

  /** `%v` of a hash: two lower-case hexadecimal digits per byte, so a
      20-byte hash prints as 40 characters. */
  function Hex(h: seq<uint8>): (s: string)
    ensures |s| == 2 * |h|
  {
    if |h| == 0 then ""
    else [HexDigit(h[0] as int / 16), HexDigit(h[0] as int % 16)] + Hex(h[1..])
  }

  /** A printed hash is made of hexadecimal digits only. */
  lemma {:induction false} HexDigits(h: seq<uint8>)
    ensures forall i :: 0 <= i < |Hex(h)| ==> Hex(h)[i] in "0123456789abcdef"
  {
    if |h| > 0 {
      HexDigits(h[1..]);
      var s := Hex(h);
      assert s[2..] == Hex(h[1..]);
      forall i | 2 <= i < |s|
        ensures s[i] in "0123456789abcdef"
      {
        assert s[i] == s[2..][i - 2];
      }
    }
  }

  /** The width a commit's summary gets: the terminal width less the byte
      size of the hash (20), not less the 40 characters it prints as. */
  function SummaryWidth(c: Commit, width: int): (w: int)
    ensures w == width - HashSize
  {
    width - |c.hash|
  }

  /** `formatMessage` returns for this commit's message. */
  predicate Renderable(c: Commit, width: int)
    ensures Renderable(c, width) ==> '\n' in c.message
  {
    Defined(c.message, SummaryWidth(c, width))
  }

  /** The line appended for a matching commit:
      `fmt.Sprintf("%v: %v\n", c.Hash, s.formatMessage(c.Message, s.width-len(c.Hash)))`. */
  function RenderLine(c: Commit, width: int): (line: string)
    requires Renderable(c, width)
    ensures Hex(c.hash) + ": " <= line
    ensures line[|line| - 1] == '\n'
    ensures |line| <= width + HashSize + 3
  {
    Hex(c.hash) + ": " + FormatMessage(c.message, SummaryWidth(c, width)) + "\n"
  }

  /** The commits whose message matches, in log order. */
  function Selected(cs: seq<Commit>, matches: string -> bool): (s: seq<Commit>)
    ensures |s| <= |cs|
  {
    if |cs| == 0 then []
    else (if matches(cs[0].message) then [cs[0]] else []) + Selected(cs[1..], matches)
  }

  /** Exactly the matching commits of the log are selected. */
  lemma {:induction false} SelectedMembers(cs: seq<Commit>, matches: string -> bool, c: Commit)
    ensures c in Selected(cs, matches) <==> c in cs && matches(c.message)
  {
    if |cs| > 0 {
      SelectedMembers(cs[1..], matches, c);
      assert c in cs <==> c == cs[0] || c in cs[1..] by {
        assert cs == [cs[0]] + cs[1..];
      }
    }
  }

  /** Every commit that the callback formats can be formatted. */
  predicate Scannable(cs: seq<Commit>, matches: string -> bool, width: int)
    ensures Scannable(cs, matches, width) ==>
      forall i :: 0 <= i < |cs| && matches(cs[i].message) ==> '\n' in cs[i].message
  {
    forall c :: c in cs && matches(c.message) ==> Renderable(c, width)
  }

  /** The commits selected from a scannable log can all be rendered. */
  lemma SelectedRenderable(cs: seq<Commit>, matches: string -> bool, width: int)
    requires Scannable(cs, matches, width)
    ensures forall c :: c in Selected(cs, matches) ==> Renderable(c, width)
  {
    forall c | c in Selected(cs, matches)
      ensures Renderable(c, width)
    {
      SelectedMembers(cs, matches, c);
    }
  }

  /** A prefix of a scannable log is scannable. */
  lemma ScannablePrefix(cs: seq<Commit>, matches: string -> bool, width: int, k: int)
    requires Scannable(cs, matches, width)
    requires 0 <= k <= |cs|
    ensures Scannable(cs[..k], matches, width)
  {
    forall c | c in cs[..k] && matches(c.message)
      ensures Renderable(c, width)
    {
      var i :| 0 <= i < k && cs[..k][i] == c;
      assert cs[i] == c;
    }
  }

  /** The line of each commit of `sel`, in order. */
  function Rendered(sel: seq<Commit>, width: int): (lines: seq<string>)
    requires forall c :: c in sel ==> Renderable(c, width)
    ensures |lines| == |sel|
  {
    if |sel| == 0 then [] else [RenderLine(sel[0], width)] + Rendered(sel[1..], width)
  }

  /** The `result` string that the `ForEach` callback builds. */
  function Report(cs: seq<Commit>, matches: string -> bool, width: int): (r: string)
    requires Scannable(cs, matches, width)
    ensures r == "" <==> Selected(cs, matches) == []
  {
    SelectedRenderable(cs, matches, width);
    Concat(Rendered(Selected(cs, matches), width))
  }

  lemma {:induction false} SelectedAppend(a: seq<Commit>, b: seq<Commit>, matches: string -> bool)
    ensures Selected(a + b, matches) == Selected(a, matches) + Selected(b, matches)
  {
    if |a| == 0 {
      assert a + b == b;
    } else {
      var head := if matches(a[0].message) then [a[0]] else [];
      assert (a + b)[0] == a[0] && (a + b)[1..] == a[1..] + b;
      SelectedAppend(a[1..], b, matches);
      assert head + (Selected(a[1..], matches) + Selected(b, matches))
          == (head + Selected(a[1..], matches)) + Selected(b, matches);
    }
  }

  lemma {:induction false} RenderedAppend(a: seq<Commit>, b: seq<Commit>, width: int)
    requires forall c :: c in a + b ==> Renderable(c, width)
    ensures Rendered(a + b, width) == Rendered(a, width) + Rendered(b, width)
  {
    if |a| == 0 {
      assert a + b == b;
    } else {
      var head := [RenderLine(a[0], width)];
      assert (a + b)[0] == a[0] && (a + b)[1..] == a[1..] + b;
      assert forall c :: c in a[1..] + b ==> c in a + b;
      RenderedAppend(a[1..], b, width);
      assert head + (Rendered(a[1..], width) + Rendered(b, width))
          == (head + Rendered(a[1..], width)) + Rendered(b, width);
    }
  }

  lemma {:induction false} RenderedAt(sel: seq<Commit>, width: int, k: int)
    requires forall c :: c in sel ==> Renderable(c, width)
    requires 0 <= k < |sel|
    ensures Rendered(sel, width)[k] == RenderLine(sel[k], width)
  {
    if k > 0 {
      RenderedAt(sel[1..], width, k - 1);
    }
  }

  /** One more commit from the log adds its line when it matches and
      nothing otherwise. */
  lemma ReportStep(cs: seq<Commit>, c: Commit, matches: string -> bool, width: int)
    requires Scannable(cs + [c], matches, width)
    ensures Scannable(cs, matches, width)
    ensures Report(cs + [c], matches, width) ==
      Report(cs, matches, width) + if matches(c.message) then RenderLine(c, width) else ""
  {
    ScannablePrefix(cs + [c], matches, width, |cs|);
    assert (cs + [c])[..|cs|] == cs;
    SelectedAppend(cs, [c], matches);
    SelectedRenderable(cs + [c], matches, width);
    var tail := Selected([c], matches);
    assert tail == if matches(c.message) then [c] else [];
    RenderedAppend(Selected(cs, matches), tail, width);
    ConcatAppend(Rendered(Selected(cs, matches), width), Rendered(tail, width));
    if matches(c.message) {
      assert Rendered(tail, width) == [RenderLine(c, width)];
      assert Concat([RenderLine(c, width)]) == RenderLine(c, width);
    }
  }

  /** The step of the callback loop over a scannable log: the next commit
      can be formatted if it matches, and adds its line to the report of
      the commits before it. */
  lemma ScanStep(cs: seq<Commit>, n: int, matches: string -> bool, width: int)
    requires Scannable(cs, matches, width)
    requires 0 <= n < |cs|
    ensures matches(cs[n].message) ==> Renderable(cs[n], width)
    ensures Scannable(cs[..n], matches, width) && Scannable(cs[..n + 1], matches, width)
    ensures Report(cs[..n + 1], matches, width) ==
      Report(cs[..n], matches, width) + if matches(cs[n].message) then RenderLine(cs[n], width) else ""
  {
    assert cs[n] in cs;
    assert cs[..n + 1] == cs[..n] + [cs[n]];
    ScannablePrefix(cs, matches, width, n + 1);
    ReportStep(cs[..n], cs[n], matches, width);
  }

  /** A commit whose message does not match leaves the report as it would
      be without that commit. */
  lemma NonMatchingIgnored(a: seq<Commit>, c: Commit, b: seq<Commit>, matches: string -> bool, width: int)
    requires !matches(c.message)
    requires Scannable(a + b, matches, width)
    ensures Scannable(a + [c] + b, matches, width)
    ensures Report(a + [c] + b, matches, width) == Report(a + b, matches, width)
  {
    SelectedAppend(a + [c], b, matches);
    SelectedAppend(a, [c], matches);
    SelectedAppend(a, b, matches);
    assert Selected([c], matches) == [];
    assert Selected(a + [c], matches) == Selected(a, matches);
    assert Selected(a + [c] + b, matches) == Selected(a + b, matches);
  }

  /** The report keeps the log's order: of two matching commits, the one
      met first in the log is selected first. */
  lemma SelectedKeepsOrder(cs: seq<Commit>, matches: string -> bool, i: int, j: int)
    requires 0 <= i < j < |cs|
    requires matches(cs[i].message) && matches(cs[j].message)
    ensures exists p, q ::
      && 0 <= p < q < |Selected(cs, matches)|
      && Selected(cs, matches)[p] == cs[i]
      && Selected(cs, matches)[q] == cs[j]
  {
    var before, after := cs[..j], cs[j..];
    assert cs == before + after;
    SelectedAppend(before, after, matches);
    assert after == [cs[j]] + after[1..];
    SelectedAppend([cs[j]], after[1..], matches);
    assert Selected([cs[j]], matches) == [cs[j]];
    assert cs[i] in before;
    SelectedMembers(before, matches, cs[i]);
    var s := Selected(before, matches);
    var p :| 0 <= p < |s| && s[p] == cs[i];
    var q := |s|;
    assert Selected(cs, matches)[p] == cs[i];
    assert Selected(cs, matches)[q] == cs[j];
  }

  /** A commit whose message has an ASCII first line renders as exactly
      one line. */
  lemma RenderLineIsOneLine(c: Commit, width: int)
    requires Renderable(c, width) && IsAscii(FirstLine(c.message))
    ensures Count(RenderLine(c, width), '\n') == 1
  {
    var summary := FormatMessage(c.message, SummaryWidth(c, width));
    AsciiSummaryIsOneLine(c.message, SummaryWidth(c, width));
    CountAbsent(summary, '\n');
    HexDigits(c.hash);
    CountAbsent(Hex(c.hash), '\n');
    CountAppend(Hex(c.hash), ": ", '\n');
    CountAppend(Hex(c.hash) + ": ", summary, '\n');
    CountAppend(Hex(c.hash) + ": " + summary, "\n", '\n');
  }

  /** With the corrected formatter every commit, whatever its runes,
      renders as exactly one line. */
  lemma CorrectedLineIsOneLine(c: Commit, width: int)
    ensures Count(Hex(c.hash) + ": " + FormatFirstLine(c.message, SummaryWidth(c, width)) + "\n", '\n') == 1
  {
    var summary := FormatFirstLine(c.message, SummaryWidth(c, width));
    CountAbsent(summary, '\n');
    HexDigits(c.hash);
    CountAbsent(Hex(c.hash), '\n');
    CountAppend(Hex(c.hash), ": ", '\n');
    CountAppend(Hex(c.hash) + ": ", summary, '\n');
    CountAppend(Hex(c.hash) + ": " + summary, "\n", '\n');
  }

  /** When every matching commit has an ASCII first line, the report holds
      exactly one line per matching commit. */
  lemma ReportLineCount(cs: seq<Commit>, matches: string -> bool, width: int)
    requires Scannable(cs, matches, width)
    requires forall c :: c in cs && matches(c.message) ==> IsAscii(FirstLine(c.message))
    ensures Count(Report(cs, matches, width), '\n') == |Selected(cs, matches)|
  {
    var sel := Selected(cs, matches);
    SelectedRenderable(cs, matches, width);
    var lines := Rendered(sel, width);
    forall i | 0 <= i < |lines|
      ensures Count(lines[i], '\n') == 1
    {
      RenderedAt(sel, width, i);
      assert sel[i] in sel;
      SelectedMembers(cs, matches, sel[i]);
      RenderLineIsOneLine(sel[i], width);
    }
    ConcatCount(lines, '\n');
  }

  /** A summary that had to be truncated (the newline's byte offset is not
      below the summary width) fills its whole width, whatever runes the
      first line holds, so the printed line (40 hexadecimal digits, ": ",
      the summary) is 22 runes longer than the terminal width it was meant
      to fit. */
  lemma TruncatedLineOverflowsWidth(c: Commit, width: int)
    requires Renderable(c, width)
    requires NewlineOffset(c.message) >= SummaryWidth(c, width)
    ensures |RenderLine(c, width)| - 1 == width + HashSize + 2
  {
  }

  /** A log of three commits of which the first and the last yielded match
      (say "fix bug again", "add feature", "fix bug" searched for "fix"):
      the report is their two lines, in the order the log yields them. */
  lemma FirstAndLast(c3: Commit, c2: Commit, c1: Commit, matches: string -> bool, width: int)
    requires matches(c3.message) && !matches(c2.message) && matches(c1.message)
    requires Renderable(c3, width) && Renderable(c1, width)
    ensures Scannable([c3, c2, c1], matches, width)
    ensures Report([c3, c2, c1], matches, width) == RenderLine(c3, width) + RenderLine(c1, width)
  {
    ThreeCommitSelection(c3, c2, c1, matches);
    var l3, l1 := RenderLine(c3, width), RenderLine(c1, width);
    assert Rendered([c3, c1], width) == [l3, l1] by {
      assert [c3, c1][1..] == [c1];
    }
    assert Concat([l1]) == l1 by {
      assert [l1][1..] == [];
      assert l1 + [] == l1;
    }
    assert Concat([l3, l1]) == l3 + l1 by {
      assert [l3, l1][1..] == [l1];
    }
  }

  /** The selection step of FirstAndLast, one commit at a time. */
  lemma ThreeCommitSelection(c3: Commit, c2: Commit, c1: Commit, matches: string -> bool)
    requires matches(c3.message) && !matches(c2.message) && matches(c1.message)
    ensures Selected([c3, c2, c1], matches) == [c3, c1]
  {
    var t1, t2, log := [c1], [c2, c1], [c3, c2, c1];
    assert t1[1..] == [];
    assert Selected(t1, matches) == [c1];
    assert t2[1..] == t1;
    assert Selected(t2, matches) == [c1];
    assert log[1..] == t2;
  }

  /** The error text `Run` writes for a directory. */
  function ErrorText(directory: string, reason: string): (e: string)
    ensures |e| == |directory| + |reason| + 21
    ensures e[18..18 + |directory|] == directory && e[|e| - |reason|..] == reason
  {
    "error occured in `" + directory + "`: " + reason
  }

  /** The text `Run` writes when the walk succeeds. */
  function SuccessText(directory: string, result: string): (s: string)
    ensures |s| == |directory| + |result| + 13
    ensures s[10..10 + |directory|] == directory
    ensures s[12 + |directory|..|s| - 1] == result && s[|s| - 1] == '\n'
  {
    "searched `" + directory + "`\n" + result + "\n"
  }

  /** An `io.Writer`: everything written to it so far. */
  class Writer {
    var written: string

    constructor ()
      ensures written == ""
    {
      written := "";
    }

    method Write(s: string)
      modifies this
      ensures written == old(written) + s
    {
      written := written + s;
    }
  }

  class Searcher {
    const directory: string
    const pattern: string -> bool
    const width: int
    const outStream: Writer
    const errStream: Writer

    constructor (directory: string, pattern: string -> bool, width: int, outStream: Writer, errStream: Writer)
      ensures this.directory == directory && this.pattern == pattern && this.width == width
      ensures this.outStream == outStream && this.errStream == errStream
    {
      this.directory := directory;
      this.pattern := pattern;
      this.width := width;
      this.outStream := outStream;
      this.errStream := errStream;
    }

    /** The `ForEach` callback over the walked commits: append the line of
        each matching commit to `result`, in log order. */
    method Scan(commits: seq<Commit>) returns (result: string)
      requires Scannable(commits, pattern, width)
      ensures result == Report(commits, pattern, width)
    {
      result := "";
      var n := 0;
      while n < |commits|
        invariant 0 <= n <= |commits|
        invariant Scannable(commits[..n], pattern, width)
        invariant result == Report(commits[..n], pattern, width)
      {
        var c := commits[n];
        ScanStep(commits, n, pattern, width);
        if pattern(c.message) {
          var line := Hex(c.hash) + ": " + FormatMessage(c.message, width - |c.hash|) + "\n";
          result := result + line;
        }
        n := n + 1;
      }
      assert commits[..n] == commits;
    }

    /** Scan one repository. Only a walk that ends without error writes, to
        the output stream, the report of the matching commits; any failure
        drops the report and writes one error text to the error stream. The
        two streams may be the same writer. */
    method Run(source: LogSource)
      requires source.Walked? ==> Scannable(source.commits, pattern, width)
      modifies outStream, errStream
      ensures source.Walked? && source.failure.None? ==>
        outStream.written == old(outStream.written) + SuccessText(directory, Report(source.commits, pattern, width))
        && (errStream != outStream ==> errStream.written == old(errStream.written))
      ensures source.Unavailable? ==>
        errStream.written == old(errStream.written) + ErrorText(directory, source.reason)
        && (errStream != outStream ==> outStream.written == old(outStream.written))
      ensures source.Walked? && source.failure.Some? ==>
        errStream.written == old(errStream.written) + ErrorText(directory, source.failure.value)
        && (errStream != outStream ==> outStream.written == old(outStream.written))
    {
      if source.Unavailable? {
        errStream.Write(ErrorText(directory, source.reason));
        return;
      }
      var result := Scan(source.commits);
      if source.failure.Some? {
        errStream.Write(ErrorText(directory, source.failure.value));
        return;
      }
      outStream.Write(SuccessText(directory, result));
    }
  }
}
