/**
 * What the reader promises, proved about the specification functions of
 * module TSVReader: the shape of the lines and fields it splits, when a load
 * fails, and how the data rows fill the table.
 */
module TSVProperties {
  import opened Wrappers
  import opened Strings
  import opened TSVReader

  // ---------------------------------------------------------------------------
  // Lines
  // ---------------------------------------------------------------------------

  /**
   * Every line is non-empty and holds no line feed, hence no line ending of
   * any of the three kinds.
   */
  lemma SplitLinesWellFormed(text: string)
    ensures forall i :: 0 <= i < |SplitLines(text)| ==>
              SplitLines(text)[i] != "" && '\n' !in SplitLines(text)[i]
    ensures forall i, k :: 0 <= i < |SplitLines(text)| && 0 <= k < |LineSeparator| ==>
              !Contains(SplitLines(text)[i], LineSeparator[k])
  {
    var segs := SplitAny(text, LineSeparator);
    assert LineSeparator[2] == ['\n'];
    SplitAnyAvoids(text, LineSeparator, '\n');
    var lines := SplitLines(text);
    forall i, k | 0 <= i < |lines| && 0 <= k < |LineSeparator|
      ensures '\n' !in lines[i] && !Contains(lines[i], LineSeparator[k])
    {
      assert lines[i] in segs;
      if Contains(lines[i], LineSeparator[k]) {
        assert '\n' in LineSeparator[k];
        ContainsChar(lines[i], LineSeparator[k], '\n');
      }
    }
  }

  /**
   * The lines are the non-empty segments of a decomposition of the text into
   * segments and line endings: no text is lost, none is reordered, and every
   * removed piece is one of the three line endings.
   */
  lemma SplitLinesRoundTrip(text: string)
    ensures |SplitAny(text, LineSeparator)| == |Delimiters(text, LineSeparator)| + 1
    ensures Interleave(SplitAny(text, LineSeparator), Delimiters(text, LineSeparator)) == text
    ensures forall i :: 0 <= i < |Delimiters(text, LineSeparator)| ==>
              Delimiters(text, LineSeparator)[i] in LineSeparator
    ensures Concat(SplitLines(text)) == Concat(SplitAny(text, LineSeparator))
  {
    SplitAnyRoundTrip(text, LineSeparator);
    RemoveEmptyKeepsText(SplitAny(text, LineSeparator));
  }

  /**
   * The line ending `Split` consumes at the start of `s`: `"\r\n"` is tried
   * before `"\n\r"`, and a carriage return that does not touch a line feed
   * ends nothing.
   */
  lemma LineEndingAt(s: string)
    ensures SeparatorAt(s, LineSeparator) ==
              if |s| >= 2 && s[0] == '\r' && s[1] == '\n' then Some(0)
              else if |s| >= 2 && s[0] == '\n' && s[1] == '\r' then Some(1)
              else if |s| >= 1 && s[0] == '\n' then Some(2)
              else None
  {
    var l := LineSeparator;
    assert l[1..] == ["\n\r", "\n"] && l[1..][1..] == ["\n"] && l[1..][1..][1..] == [];
    StartsWithPair(s, '\r', '\n');
    StartsWithPair(s, '\n', '\r');
    StartsWithChar(s, '\n');
  }

  /** A two-character separator matches exactly when the text starts with both characters. */
  lemma StartsWithPair(s: string, a: char, b: char)
    ensures StartsWith(s, [a, b]) <==> |s| >= 2 && s[0] == a && s[1] == b
  {
    if |s| >= 2 {
      assert s[..2] == [s[0], s[1]];
    }
  }

  /** A one-character separator matches exactly when the text starts with it. */
  lemma StartsWithChar(s: string, a: char)
    ensures StartsWith(s, [a]) <==> |s| >= 1 && s[0] == a
  {
    if |s| >= 1 {
      assert s[..1] == [s[0]];
    }
  }

  /** A line that survives splitting unchanged whatever line endings surround it. */
  predicate PlainLine(p: string)
  {
    p != [] && '\n' !in p && p[0] != '\r' && p[|p| - 1] != '\r'
  }

  /** No line ending starts at a character other than a line feed, or a carriage return before one. */
  lemma NoLineEndingAt(s: string)
    requires s != [] && s[0] != '\n' && (s[0] == '\r' ==> |s| >= 2 && s[1] != '\n')
    ensures SeparatorAt(s, LineSeparator) == None
  {
    LineEndingAt(s);
  }

  /** No line ending starts inside a prefix that holds no line feed and does not end in a carriage return. */
  lemma {:induction false} PlainUnbroken(p: string, t: string)
    requires '\n' !in p && (p != [] ==> p[|p| - 1] != '\r')
    ensures Unbroken(p, t, LineSeparator)
    decreases |p|
  {
    if p != [] {
      var s := p + t;
      assert p[1..] != [] ==> p[1..][|p[1..]| - 1] == p[|p| - 1];
      PlainUnbroken(p[1..], t);
      assert s[0] == p[0] && (|p| > 1 ==> s[1] == p[1]);
      NoLineEndingAt(s);
    }
  }

  /** A line ending followed by the start of a plain line is consumed whole. */
  lemma LineEndingConsumed(sep: string, t: string)
    requires sep in LineSeparator
    requires t != [] && t[0] != '\r' && t[0] != '\n'
    ensures SeparatorAt(sep + t, LineSeparator).Some?
    ensures LineSeparator[SeparatorAt(sep + t, LineSeparator).value] == sep
    ensures (sep + t)[|sep|..] == t
  {
    LineEndingAt(sep + t);
    assert (sep + t)[|sep|..] == t;
  }

  /** Such a line ending ends the current segment. */
  lemma LineEndingSegment(sep: string, t: string)
    requires sep in LineSeparator
    requires t != [] && t[0] != '\r' && t[0] != '\n'
    ensures SplitAny(sep + t, LineSeparator) == [""] + SplitAny(t, LineSeparator)
  {
    LineEndingConsumed(sep, t);
  }

  /** Such a line ending is the first one consumed. */
  lemma LineEndingDelimiter(sep: string, t: string)
    requires sep in LineSeparator
    requires t != [] && t[0] != '\r' && t[0] != '\n'
    ensures Delimiters(sep + t, LineSeparator) == [sep] + Delimiters(t, LineSeparator)
  {
    LineEndingConsumed(sep, t);
  }

  /** A plain line, a line ending and more text: the line is the first segment. */
  lemma PlainLineThenEnding(p: string, sep: string, t: string)
    requires PlainLine(p) && sep in LineSeparator
    requires t != [] && t[0] != '\r' && t[0] != '\n'
    ensures SplitAny(p + (sep + t), LineSeparator) == [p] + SplitAny(t, LineSeparator)
    ensures Delimiters(p + (sep + t), LineSeparator) == [sep] + Delimiters(t, LineSeparator)
  {
    var r := SplitAny(t, LineSeparator);
    PlainUnbroken(p, sep + t);
    SplitAnyUnbroken(p, sep + t, LineSeparator);
    DelimitersUnbroken(p, sep + t, LineSeparator);
    LineEndingSegment(sep, t);
    LineEndingDelimiter(sep, t);
    assert ([""] + r)[0] == "" && ([""] + r)[1..] == r;
    assert p + "" == p;
  }

  /** A plain line by itself is one segment with no line ending. */
  lemma PlainLineAlone(p: string)
    requires PlainLine(p)
    ensures SplitAny(p, LineSeparator) == [p]
    ensures Delimiters(p, LineSeparator) == []
  {
    PlainUnbroken(p, "");
    SplitAnyUnbroken(p, "", LineSeparator);
    DelimitersUnbroken(p, "", LineSeparator);
    assert p + "" == p;
  }

  /** Joining one more plain line in front with a line ending preserves the inverse. */
  lemma InterleaveStep(p: string, sep: string, rest: seq<string>, drest: seq<string>)
    requires |rest| == |drest| + 1
    requires PlainLine(p) && PlainLine(rest[0]) && sep in LineSeparator
    requires SplitAny(Interleave(rest, drest), LineSeparator) == rest
    requires Delimiters(Interleave(rest, drest), LineSeparator) == drest
    ensures SplitAny(Interleave([p] + rest, [sep] + drest), LineSeparator) == [p] + rest
    ensures Delimiters(Interleave([p] + rest, [sep] + drest), LineSeparator) == [sep] + drest
  {
    var t := Interleave(rest, drest);
    InterleaveCons(p, rest, sep, drest);
    InterleaveStart(rest, drest);
    PlainLineThenEnding(p, sep, t);
  }

  /**
   * The inverse of the round trip: plain lines joined by any mix of the three
   * line endings split back into exactly those lines and line endings.
   */
  lemma {:induction false} SplitAnyInterleave(parts: seq<string>, ds: seq<string>)
    requires |parts| == |ds| + 1
    requires forall i :: 0 <= i < |parts| ==> PlainLine(parts[i])
    requires forall i :: 0 <= i < |ds| ==> ds[i] in LineSeparator
    ensures SplitAny(Interleave(parts, ds), LineSeparator) == parts
    ensures Delimiters(Interleave(parts, ds), LineSeparator) == ds
    decreases |ds|
  {
    if ds == [] {
      assert PlainLine(parts[0]);
      PlainLineAlone(parts[0]);
      assert parts == [parts[0]];
    } else {
      SplitAnyInterleave(parts[1..], ds[1..]);
      assert PlainLine(parts[0]) && PlainLine(parts[1..][0]) && ds[0] in LineSeparator;
      InterleaveStep(parts[0], ds[0], parts[1..], ds[1..]);
      assert [parts[0]] + parts[1..] == parts && [ds[0]] + ds[1..] == ds;
    }
  }

  /** No plain line is lost or merged by `SplitLines`, whichever line endings join them. */
  lemma SplitLinesInterleave(parts: seq<string>, ds: seq<string>)
    requires |parts| == |ds| + 1
    requires forall i :: 0 <= i < |parts| ==> PlainLine(parts[i])
    requires forall i :: 0 <= i < |ds| ==> ds[i] in LineSeparator
    ensures SplitLines(Interleave(parts, ds)) == parts
  {
    SplitAnyInterleave(parts, ds);
    RemoveEmptyOfNonEmpty(parts);
  }

  /** Removing empty entries ignores a leading empty entry. */
  lemma RemoveEmptyBlankFirst(rest: seq<string>)
    ensures RemoveEmpty([""] + rest) == RemoveEmpty(rest)
  {
    assert ([""] + rest)[1..] == rest;
  }

  /** A text starting with a line ending begins with an empty segment. */
  lemma LineEndingFirst(sep: string, t: string)
    requires sep in LineSeparator
    ensures SplitAny(sep + t, LineSeparator) == [""] + SplitAny(sep + t, LineSeparator)[1..]
  {
    assert sep <= sep + t;
    assert SeparatorAt(sep + t, LineSeparator).Some?;
  }

  /** A line ending the scan consumes whole ends an empty segment. */
  lemma DropEnding(d: string, rest: string)
    requires d in LineSeparator
    requires d == "\n" && rest != [] ==> rest[0] != '\r'
    ensures RemoveEmpty(SplitAny(d + rest, LineSeparator)) == RemoveEmpty(SplitAny(rest, LineSeparator))
  {
    var s := d + rest;
    LineEndingAt(s);
    assert SeparatorAt(s, LineSeparator).Some? && LineSeparator[SeparatorAt(s, LineSeparator).value] == d;
    assert s[|d|..] == rest;
    RemoveEmptyBlankFirst(SplitAny(rest, LineSeparator));
  }

  /** `"\n"` then `"\r\n"` is scanned as `"\n\r"` then a `"\n"` that starts the rest. */
  lemma StolenCarriageReturn(run: seq<string>, t: string)
    requires |run| >= 2 && run[0] == "\n" && run[1] == "\r\n"
    ensures Concat(run) + t == "\n\r" + (Concat(["\n"] + run[2..]) + t)
    ensures |Concat(["\n"] + run[2..])| < |Concat(run)|
  {
    var run' := ["\n"] + run[2..];
    assert run[1..][0] == run[1] && run[1..][1..] == run[2..] && run'[1..] == run[2..];
    assert Concat(run) == "\n" + ("\r\n" + Concat(run[2..]));
    assert Concat(run') == "\n" + Concat(run[2..]);
  }

  /** Every line ending but `"\r\n"` starts with a line feed. */
  lemma EndingStart(d: string)
    requires d in LineSeparator && d != "\r\n"
    ensures d != [] && d[0] == '\n'
  {
  }

  /** The first line ending of a run, then the rest of it. */
  lemma RunUnfold(run: seq<string>, t: string)
    requires run != []
    ensures Concat(run) + t == run[0] + (Concat(run[1..]) + t)
  {
  }

  /** After a line feed that is not followed by `"\r\n"`, the text goes on without a carriage return. */
  lemma RunRest(run: seq<string>, t: string)
    requires run != []
    requires |run| >= 2 ==> run[1] in LineSeparator && run[1] != "\r\n"
    requires t == [] || t[0] != '\r'
    ensures Concat(run[1..]) + t != [] ==> (Concat(run[1..]) + t)[0] != '\r'
  {
    if |run| >= 2 {
      var r1 := run[1];
      RunUnfold(run[1..], t);
      assert run[1..][0] == r1;
      EndingStart(r1);
    } else {
      assert run[1..] == [];
    }
  }

  /**
   * A run of line endings, in any mix, followed by the start of a line or by
   * the end of the text contributes only empty segments. The scan may pair
   * the run's characters differently from the way it was written (a `"\n"`
   * followed by `"\r\n"` is read as `"\n\r"` and `"\n"`), but it never leaves
   * a carriage return behind.
   */
  lemma {:induction false} BlankRunDropped(run: seq<string>, t: string)
    requires forall i :: 0 <= i < |run| ==> run[i] in LineSeparator
    requires t == [] || (t[0] != '\r' && t[0] != '\n')
    ensures RemoveEmpty(SplitAny(Concat(run) + t, LineSeparator)) == RemoveEmpty(SplitAny(t, LineSeparator))
    decreases |Concat(run)|
  {
    if run == [] {
      assert Concat(run) + t == t;
    } else if run[0] == "\n" && |run| >= 2 && run[1] == "\r\n" {
      var run' := ["\n"] + run[2..];
      StolenCarriageReturn(run, t);
      BlankRunDropped(run', t);
      DropEnding("\n\r", Concat(run') + t);
    } else {
      RunUnfold(run, t);
      if run[0] == "\n" {
        assert |run| >= 2 ==> run[1] in LineSeparator && run[1] != "\r\n";
        RunRest(run, t);
      }
      BlankRunDropped(run[1..], t);
      DropEnding(run[0], Concat(run[1..]) + t);
    }
  }

  /** A plain line before a line ending is kept whole as the first line. */
  lemma PlainLineBeforeEnding(p: string, d: string, x: string)
    requires PlainLine(p) && d in LineSeparator
    ensures RemoveEmpty(SplitAny(p + (d + x), LineSeparator)) == [p] + RemoveEmpty(SplitAny(d + x, LineSeparator))
  {
    PlainUnbroken(p, d + x);
    SplitAnyUnbroken(p, d + x, LineSeparator);
    var tail := SplitAny(d + x, LineSeparator)[1..];
    LineEndingFirst(d, x);
    assert p + "" == p;
    assert SplitAny(p + (d + x), LineSeparator) == [p] + tail;
    RemoveEmptyAppend([p], tail);
    RemoveEmptySingle(p);
    RemoveEmptyBlankFirst(tail);
  }

  /** A blank line between two line endings lengthens the run. */
  lemma RunSnoc(run: seq<string>, d: string, x: string)
    ensures Concat(run) + (d + x) == Concat(run + [d]) + x
  {
    ConcatAppend(run, [d]);
    assert [d][1..] == [] && Concat([d]) == d;
  }

  /** The last line after a run of line endings is the only line, unless it is blank. */
  lemma LastLineAfterRun(run: seq<string>, p: string)
    requires forall i :: 0 <= i < |run| ==> run[i] in LineSeparator
    requires p == "" || PlainLine(p)
    ensures SplitLines(Concat(run) + p) == RemoveEmpty([p])
  {
    RemoveEmptySingle(p);
    BlankRunDropped(run, p);
    if p != "" {
      PlainLineAlone(p);
    }
  }

  /** A plain line after a run of line endings, then a line ending and more text. */
  lemma PlainLineAfterRun(run: seq<string>, p: string, d: string, x: string)
    requires forall i :: 0 <= i < |run| ==> run[i] in LineSeparator
    requires PlainLine(p) && d in LineSeparator
    ensures SplitLines(Concat(run) + (p + (d + x))) == [p] + SplitLines(Concat([d]) + x)
  {
    BlankRunDropped(run, p + (d + x));
    PlainLineBeforeEnding(p, d, x);
    RunSnoc([], d, x);
    assert Concat([]) + (d + x) == d + x;
  }

  /** The first line and line ending of an interleaving. */
  lemma InterleaveFirst(parts: seq<string>, ds: seq<string>)
    requires |parts| == |ds| + 1 && ds != []
    ensures Interleave(parts, ds) == parts[0] + (ds[0] + Interleave(parts[1..], ds[1..]))
  {
  }

  /** Removing empty entries treats the first entry on its own. */
  lemma RemoveEmptyFirst(parts: seq<string>)
    requires parts != []
    ensures RemoveEmpty(parts) == RemoveEmpty([parts[0]]) + RemoveEmpty(parts[1..])
  {
    RemoveEmptyAppend([parts[0]], parts[1..]);
    assert [parts[0]] + parts[1..] == parts;
  }

  /**
   * Lines that are each plain or blank, joined by any mix of the three line
   * endings and preceded by a run of line endings: the line split returns
   * exactly the non-empty lines, in order and each as often as it occurs.
   */
  lemma {:induction false} SplitLinesAfterRun(run: seq<string>, parts: seq<string>, ds: seq<string>)
    requires |parts| == |ds| + 1
    requires forall i :: 0 <= i < |run| ==> run[i] in LineSeparator
    requires forall i :: 0 <= i < |parts| ==> parts[i] == "" || PlainLine(parts[i])
    requires forall i :: 0 <= i < |ds| ==> ds[i] in LineSeparator
    ensures SplitLines(Concat(run) + Interleave(parts, ds)) == RemoveEmpty(parts)
    decreases |ds|
  {
    var p := parts[0];
    assert p == "" || PlainLine(p);
    if ds == [] {
      assert parts == [p] && Interleave(parts, ds) == p;
      LastLineAfterRun(run, p);
    } else {
      var d, x := ds[0], Interleave(parts[1..], ds[1..]);
      assert d in LineSeparator;
      InterleaveFirst(parts, ds);
      RemoveEmptyFirst(parts);
      RemoveEmptySingle(p);
      if p == "" {
        assert Interleave(parts, ds) == d + x;
        RunSnoc(run, d, x);
        SplitLinesAfterRun(run + [d], parts[1..], ds[1..]);
        assert RemoveEmpty(parts) == [] + RemoveEmpty(parts[1..]);
      } else {
        PlainLineAfterRun(run, p, d, x);
        SplitLinesAfterRun([d], parts[1..], ds[1..]);
      }
    }
  }

  /**
   * Blank lines are dropped and nothing else is: lines that are each plain or
   * empty, joined by any mix of line endings, split into exactly the
   * non-empty ones, in order.
   */
  lemma SplitLinesBlankLines(parts: seq<string>, ds: seq<string>)
    requires |parts| == |ds| + 1
    requires forall i :: 0 <= i < |parts| ==> parts[i] == "" || PlainLine(parts[i])
    requires forall i :: 0 <= i < |ds| ==> ds[i] in LineSeparator
    ensures SplitLines(Interleave(parts, ds)) == RemoveEmpty(parts)
  {
    assert Concat([]) + Interleave(parts, ds) == Interleave(parts, ds);
    SplitLinesAfterRun([], parts, ds);
  }

  /** A line ending after the last line adds no line. */
  lemma SplitLinesTrailingEnding(parts: seq<string>, ds: seq<string>, sep: string)
    requires |parts| == |ds| + 1
    requires forall i :: 0 <= i < |parts| ==> PlainLine(parts[i])
    requires forall i :: 0 <= i < |ds| ==> ds[i] in LineSeparator
    requires sep in LineSeparator
    ensures SplitLines(Interleave(parts, ds) + sep) == parts
  {
    InterleaveSnoc(parts, ds, sep, "");
    assert Interleave(parts, ds) + sep + "" == Interleave(parts, ds) + sep;
    SplitLinesBlankLines(parts + [""], ds + [sep]);
    RemoveEmptyAppend(parts, [""]);
    RemoveEmptySingle("");
    RemoveEmptyOfNonEmpty(parts);
  }

  /** Text made of line feeds alone has no line, so it has no header row. */
  lemma {:induction false} OnlyLineFeeds(text: string)
    requires forall i :: 0 <= i < |text| ==> text[i] == '\n'
    ensures forall j :: 0 <= j < |SplitAny(text, LineSeparator)| ==> SplitAny(text, LineSeparator)[j] == ""
    ensures SplitLines(text) == []
    decreases |text|
  {
    if text != [] {
      assert text[0] == '\n' && LineSeparator[0][0] == '\r';
      assert |text| > 1 ==> text[1] == '\n' && LineSeparator[1][1] == '\r';
      assert !StartsWith(text, LineSeparator[0]) && !StartsWith(text, LineSeparator[1]);
      assert StartsWith(text, LineSeparator[2]);
      OnlyLineFeeds(text[1..]);
    }
    RemoveEmptyOfEmpty(SplitAny(text, LineSeparator));
  }

  /** A character other than a line feed or carriage return survives in some segment. */
  lemma {:induction false} SegmentKeepsChar(text: string, i: nat)
    requires i < |text| && text[i] != '\r' && text[i] != '\n'
    ensures exists j :: 0 <= j < |SplitAny(text, LineSeparator)| && SplitAny(text, LineSeparator)[j] != ""
    decreases |text|
  {
    match SeparatorAt(text, LineSeparator)
    case Some(k) =>
      var sep := LineSeparator[k];
      assert forall m :: 0 <= m < |sep| ==> sep[m] == '\r' || sep[m] == '\n';
      assert i >= |sep|;
      var rest := text[|sep|..];
      SegmentKeepsChar(rest, i - |sep|);
      var j :| 0 <= j < |SplitAny(rest, LineSeparator)| && SplitAny(rest, LineSeparator)[j] != "";
      assert SplitAny(text, LineSeparator)[j + 1] == SplitAny(rest, LineSeparator)[j];
    case None =>
      assert SplitAny(text, LineSeparator)[0] != "";
  }

  /** Text with any character besides line endings has a header row. */
  lemma HasHeaderRow(text: string, i: nat)
    requires i < |text| && text[i] != '\r' && text[i] != '\n'
    ensures SplitLines(text) != []
  {
    SegmentKeepsChar(text, i);
    var segs := SplitAny(text, LineSeparator);
    var j :| 0 <= j < |segs| && segs[j] != "";
    assert segs[j] in SplitLines(text);
  }

  // ---------------------------------------------------------------------------
  // Fields
  // ---------------------------------------------------------------------------

  /**
   * A row's fields are its tab-separated pieces: none holds a tab, there is one
   * more than there are tabs, and joining them with tabs gives the row back.
   */
  lemma FieldsRoundTrip(row: string)
    ensures Fields(row) == Split(row, Separator)
    ensures forall i :: 0 <= i < |Fields(row)| ==> Separator !in Fields(row)[i]
    ensures |Fields(row)| == Count(row, Separator) + 1
    ensures Join(Fields(row), [Separator]) == row
  {
    SplitJoin(row, Separator);
  }

  /** The plain value parser, `Regex("\t")`, is the ordered-separator scan with the one separator `"\t"`. */
  lemma FieldsAreSplitAny(row: string)
    ensures Fields(row) == SplitAny(row, [[Separator]])
  {
    SplitIsSplitAny(row, Separator);
  }

  /** Joining the quote-aware fields with tabs gives the row back. */
  lemma {:induction false} SplitOutsideQuotesJoin(s: string)
    ensures Join(SplitOutsideQuotes(s), [Separator]) == s
  {
    if s != [] {
      var rest := SplitOutsideQuotes(s[1..]);
      SplitOutsideQuotesJoin(s[1..]);
      if s[0] == Separator && Count(s[1..], '"') % 2 == 0 {
        assert ([""] + rest)[1..] == rest;
        assert Join([""] + rest, [Separator]) == "" + [Separator] + Join(rest, [Separator]);
        assert s == [Separator] + s[1..];
      } else {
        JoinConsFirst(s[0], rest[0], rest[1..], [Separator]);
        assert [rest[0]] + rest[1..] == rest;
        assert s == [s[0]] + s[1..];
      }
    }
  }

  /** On a row without double quotes the quote-aware parser splits at every tab. */
  lemma {:induction false} SplitOutsideQuotesWithoutQuotes(s: string)
    requires Count(s, '"') == 0
    ensures SplitOutsideQuotes(s) == Split(s, Separator)
  {
    if s != [] {
      SplitOutsideQuotesWithoutQuotes(s[1..]);
    }
  }

  /** A prefix without tabs becomes the start of the first quote-aware field. */
  lemma {:induction false} SplitOutsideQuotesPrefix(p: string, t: string)
    requires Separator !in p
    ensures SplitOutsideQuotes(p + t) == [p + SplitOutsideQuotes(t)[0]] + SplitOutsideQuotes(t)[1..]
    decreases |p|
  {
    var r := SplitOutsideQuotes(t);
    if p == [] {
      assert p + t == t && p + r[0] == r[0];
      assert [r[0]] + r[1..] == r;
    } else {
      SplitOutsideQuotesPrefix(p[1..], t);
      assert (p + t)[1..] == p[1..] + t;
      assert [p[0]] + (p[1..] + r[0]) == p + r[0];
    }
  }

  /**
   * Tabs followed by an odd number of double quotes are inside a quoted
   * field: a quote-free prefix of such text starts the first field, tabs included.
   */
  lemma {:induction false} SplitOutsideQuotesOpenQuote(p: string, t: string)
    requires '"' !in p && Count(t, '"') % 2 == 1
    ensures SplitOutsideQuotes(p + t) == [p + SplitOutsideQuotes(t)[0]] + SplitOutsideQuotes(t)[1..]
    decreases |p|
  {
    var r := SplitOutsideQuotes(t);
    if p == [] {
      assert p + t == t && p + r[0] == r[0];
      assert [r[0]] + r[1..] == r;
    } else {
      SplitOutsideQuotesOpenQuote(p[1..], t);
      assert (p + t)[1..] == p[1..] + t;
      CountAppend(p[1..], t, '"');
      CountAbsent(p[1..], '"');
      assert [p[0]] + (p[1..] + r[0]) == p + r[0];
    }
  }

  /** A field enclosed in double quotes, with none inside, is one quote-aware field. */
  lemma QuotedField(q: string)
    requires '"' !in q
    ensures SplitOutsideQuotes("\"" + q + "\"") == ["\"" + q + "\""]
    ensures Count("\"" + q + "\"", '"') == 2
  {
    var quote := "\"";
    var t := quote + q + quote;
    assert Count(quote, '"') == 1;
    assert quote[0] != Separator && quote[1..] == [] && [quote[0]] + "" == quote;
    assert SplitOutsideQuotes(quote) == [quote];
    SplitOutsideQuotesOpenQuote(q, quote);
    assert SplitOutsideQuotes(q + quote) == [q + quote];
    assert t[0] != Separator && t[1..] == q + quote && [t[0]] + (q + quote) == t;
    CountAbsent(q, '"');
    CountAppend(quote + q, quote, '"');
    CountAppend(quote, q, '"');
  }

  /**
   * A quoted last field keeps its tabs under the quote-aware parser, while the
   * plain parser splits it at each of them.
   */
  lemma QuotedTabKept(a: string, q: string)
    requires Separator !in a && '"' !in q
    ensures SplitOutsideQuotes(a + "\t\"" + q + "\"") == [a, "\"" + q + "\""]
    ensures |Split(a + "\t\"" + q + "\"", Separator)| == Count(a, Separator) + Count(q, Separator) + 2
  {
    var u := "\t\"" + q + "\"";
    TabBeforeQuotedField(q);
    SplitOutsideQuotesPrefix(a, u);
    assert a + "\t\"" + q + "\"" == a + u;
    assert a + "" == a;
    TabQuotedCount(a, q);
  }

  /** A tab before a quoted field is outside the quotes, so it separates. */
  lemma TabBeforeQuotedField(q: string)
    requires '"' !in q
    ensures SplitOutsideQuotes("\t\"" + q + "\"") == ["", "\"" + q + "\""]
  {
    var t := "\"" + q + "\"";
    var u := "\t\"" + q + "\"";
    QuotedField(q);
    assert u == "\t" + t;
    assert u[0] == Separator && u[1..] == t;
  }

  lemma TabQuotedCount(a: string, q: string)
    ensures Count(a + "\t\"" + q + "\"", Separator) == Count(a, Separator) + Count(q, Separator) + 1
  {
    var quote := "\"";
    assert a + "\t\"" + q + "\"" == a + ("\t" + quote) + q + quote;
    CountAppend(a + ("\t" + quote) + q, quote, Separator);
    CountAppend(a + ("\t" + quote), q, Separator);
    CountAppend(a, "\t" + quote, Separator);
    assert Count(quote, Separator) == 0;
    assert ("\t" + quote)[1..] == quote;
  }

  // ---------------------------------------------------------------------------
  // Header selection and failures
  // ---------------------------------------------------------------------------

  /** The match is on substrings: "EN" selects a column headed "EN_US". */
  lemma HeaderMatchesSubstring()
    ensures HeaderColumn("EN", ["Key", "EN_US", "EN"]) == Some(1)
  {
    assert Contains("EN_US", "EN");
    if Contains("Key", "EN") {
      ContainsChar("Key", "EN", 'N');
      assert false;
    }
  }

  /**
   * A load of existing text fails exactly when the text has no line (the
   * header row is missing) or no header contains the language code.
   */
  lemma LoadFailures(language: string, text: string, d: map<string, string>)
    ensures Load(language, Some(text), d) == Failure(MissingHeaderRow) <==> SplitLines(text) == []
    ensures Load(language, Some(text), d) == Failure(HeaderNotFound) <==>
              SplitLines(text) != [] &&
              forall j :: 0 <= j < |Split(SplitLines(text)[0], Separator)| ==>
                !Contains(Split(SplitLines(text)[0], Separator)[j], language)
    ensures Load(language, Some(text), d).Success? <==>
              SplitLines(text) != [] &&
              exists j :: 0 <= j < |Split(SplitLines(text)[0], Separator)| &&
                Contains(Split(SplitLines(text)[0], Separator)[j], language)
  {
    var lines := SplitLines(text);
    if lines != [] {
      var headers := Split(lines[0], Separator);
      var column := HeaderColumn(language, headers);
      assert Load(language, Some(text), d) ==
               if column.None? then Failure(HeaderNotFound) else Success(ParsedTable(lines, column.value, d));
      if column.Some? {
        var j := column.value;
        assert headers == Split(SplitLines(text)[0], Separator);
        assert 0 <= j < |headers| && Contains(headers[j], language);
      }
    }
  }

  // ---------------------------------------------------------------------------
  // Row population
  // ---------------------------------------------------------------------------

  /** The non-empty keys of `rows`. */
  function KeysOf(rows: seq<string>): set<string>
    decreases |rows|
  {
    if rows == [] then {}
    else (if Key(rows[0]) == "" then {} else {Key(rows[0])}) + KeysOf(rows[1..])
  }

  /** Row `j` is the first of `rows` whose key is `k`. */
  predicate FirstRowFor(rows: seq<string>, k: string, j: int)
  {
    0 <= j < |rows| && Key(rows[j]) == k && forall i :: 0 <= i < j ==> Key(rows[i]) != k
  }

  /**
   * Entries already in the table, whether given by the caller or added by an
   * earlier row, keep their values: a duplicate key never overwrites.
   */
  lemma {:induction false} PopulateKeepsEntries(rows: seq<string>, languageId: nat, d: map<string, string>)
    ensures forall k :: k in d ==> k in Populate(rows, languageId, d) && Populate(rows, languageId, d)[k] == d[k]
    decreases |rows|
  {
    if rows != [] && !Skipped(rows[0], d) && !IsShort(rows[0], languageId) {
      PopulateKeepsEntries(rows[1..], languageId, d[Key(rows[0]) := Fields(rows[0])[languageId]]);
    } else if rows != [] && Skipped(rows[0], d) {
      PopulateKeepsEntries(rows[1..], languageId, d);
    }
  }

  /**
   * Every entry the rows add comes from the first row with that key, which
   * was processed and long enough: the key is its first field and the text its
   * field at the target column.
   */
  lemma {:induction false} PopulateNewEntry(rows: seq<string>, languageId: nat, d: map<string, string>, k: string)
    requires k in Populate(rows, languageId, d) && k !in d
    ensures k != ""
    ensures exists j :: FirstRowFor(rows, k, j) && j < Processed(rows, languageId, d) &&
              !IsShort(rows[j], languageId) && Populate(rows, languageId, d)[k] == Fields(rows[j])[languageId]
    decreases |rows|
  {
    var r := Populate(rows, languageId, d);
    if Skipped(rows[0], d) {
      PopulateNewEntry(rows[1..], languageId, d, k);
      var j :| FirstRowFor(rows[1..], k, j) && j < Processed(rows[1..], languageId, d) &&
               !IsShort(rows[1..][j], languageId) && r[k] == Fields(rows[1..][j])[languageId];
      assert FirstRowFor(rows, k, j + 1);
    } else {
      var key := Key(rows[0]);
      var d' := d[key := Fields(rows[0])[languageId]];
      if k == key {
        PopulateKeepsEntries(rows[1..], languageId, d');
        assert FirstRowFor(rows, k, 0);
      } else {
        PopulateNewEntry(rows[1..], languageId, d', k);
        var j :| FirstRowFor(rows[1..], k, j) && j < Processed(rows[1..], languageId, d') &&
                 !IsShort(rows[1..][j], languageId) && r[k] == Fields(rows[1..][j])[languageId];
        assert FirstRowFor(rows, k, j + 1);
      }
    }
  }

  /**
   * The keys of the final table are the keys it started with plus the
   * non-empty keys of the rows processed before the loop stopped.
   */
  lemma {:induction false} PopulateKeys(rows: seq<string>, languageId: nat, d: map<string, string>)
    ensures Populate(rows, languageId, d).Keys == d.Keys + KeysOf(rows[..Processed(rows, languageId, d)])
    decreases |rows|
  {
    var n := Processed(rows, languageId, d);
    if rows == [] || (!Skipped(rows[0], d) && IsShort(rows[0], languageId)) {
      assert rows[..n] == [];
    } else {
      var d' := if Skipped(rows[0], d) then d else d[Key(rows[0]) := Fields(rows[0])[languageId]];
      PopulateKeys(rows[1..], languageId, d');
      assert rows[..n][0] == rows[0] && rows[..n][1..] == rows[1..][..n - 1];
    }
  }

  /**
   * A short row with a new key ends the loop: the result is the table built
   * from the rows before it (everything inserted so far stays), and the row
   * where processing stopped is one with a new, non-empty key and no field at
   * the target column.
   */
  lemma {:induction false} PopulateStops(rows: seq<string>, languageId: nat, d: map<string, string>)
    ensures Populate(rows, languageId, d) == Populate(rows[..Processed(rows, languageId, d)], languageId, d)
    ensures Processed(rows, languageId, d) < |rows| ==>
              !Skipped(rows[Processed(rows, languageId, d)], Populate(rows, languageId, d)) &&
              IsShort(rows[Processed(rows, languageId, d)], languageId)
    decreases |rows|
  {
    var n := Processed(rows, languageId, d);
    if rows == [] || (!Skipped(rows[0], d) && IsShort(rows[0], languageId)) {
      assert rows[..n] == [];
    } else {
      var d' := if Skipped(rows[0], d) then d else d[Key(rows[0]) := Fields(rows[0])[languageId]];
      PopulateStops(rows[1..], languageId, d');
      assert rows[..n][0] == rows[0] && rows[..n][1..] == rows[1..][..n - 1];
      if n < |rows| {
        assert rows[n] == rows[1..][n - 1];
      }
    }
  }

  /**
   * Processing a file in two parts: once a row of the first part has stopped
   * the loop, nothing after it is inserted, however well formed; otherwise the
   * second part continues from the table the first part built.
   */
  lemma {:induction false} PopulateAppend(rows1: seq<string>, rows2: seq<string>, languageId: nat, d: map<string, string>)
    ensures Processed(rows1, languageId, d) < |rows1| ==>
              Populate(rows1 + rows2, languageId, d) == Populate(rows1, languageId, d)
    ensures Processed(rows1, languageId, d) == |rows1| ==>
              Populate(rows1 + rows2, languageId, d) == Populate(rows2, languageId, Populate(rows1, languageId, d))
    decreases |rows1|
  {
    if rows1 == [] {
      assert rows1 + rows2 == rows2;
    } else {
      assert (rows1 + rows2)[0] == rows1[0] && (rows1 + rows2)[1..] == rows1[1..] + rows2;
      if !(!Skipped(rows1[0], d) && IsShort(rows1[0], languageId)) {
        var d' := if Skipped(rows1[0], d) then d else d[Key(rows1[0]) := Fields(rows1[0])[languageId]];
        PopulateAppend(rows1[1..], rows2, languageId, d');
      }
    }
  }

  /**
   * A short row whose key is new stops the loop once the rows before it have
   * all been processed: nothing after it is inserted.
   */
  lemma ShortRowStops(pre: seq<string>, r: string, post: seq<string>, languageId: nat, d: map<string, string>)
    requires Processed(pre, languageId, d) == |pre|
    requires !Skipped(r, Populate(pre, languageId, d)) && IsShort(r, languageId)
    ensures Populate(pre + [r] + post, languageId, d) == Populate(pre, languageId, d)
  {
    PopulateAppend(pre, [r] + post, languageId, d);
    assert pre + [r] + post == pre + ([r] + post);
  }

  /** A row with an empty key changes nothing and processing goes on, even if it is short. */
  lemma EmptyKeySkipped(row: string, rest: seq<string>, languageId: nat, d: map<string, string>)
    requires Key(row) == ""
    ensures Populate([row] + rest, languageId, d) == Populate(rest, languageId, d)
    ensures Processed([row] + rest, languageId, d) == 1 + Processed(rest, languageId, d)
  {
    assert ([row] + rest)[1..] == rest;
  }

  /** A row whose key is present changes nothing and processing goes on, even if it is short. */
  lemma DuplicateKeySkipped(row: string, rest: seq<string>, languageId: nat, d: map<string, string>)
    requires Key(row) in d
    ensures Populate([row] + rest, languageId, d) == Populate(rest, languageId, d)
    ensures Processed([row] + rest, languageId, d) == 1 + Processed(rest, languageId, d)
  {
    assert ([row] + rest)[1..] == rest;
  }

  /**
   * The header row is never read as data: its key only reaches the table if
   * the table had it or a data row has it too.
   */
  lemma HeaderRowNotInserted(lines: seq<string>, languageId: nat, d: map<string, string>)
    requires lines != []
    requires Key(lines[0]) !in d
    requires forall j :: 1 <= j < |lines| ==> Key(lines[j]) != Key(lines[0])
    ensures Key(lines[0]) !in ParsedTable(lines, languageId, d)
  {
    var k := Key(lines[0]);
    if k in ParsedTable(lines, languageId, d) {
      PopulateNewEntry(lines[1..], languageId, d, k);
      assert false;
    }
  }

  /**
   * A successful load keeps every entry the caller passed in, and each entry it
   * adds maps the first field of the first data row with that key to the row's
   * field at the selected column.
   */
  lemma LoadExtends(language: string, text: string, d: map<string, string>)
    requires Load(language, Some(text), d).Success?
    ensures forall k :: k in d ==> k in Load(language, Some(text), d).value && Load(language, Some(text), d).value[k] == d[k]
    ensures forall k :: k in Load(language, Some(text), d).value && k !in d ==>
              exists column, j :: HeaderColumn(language, Split(SplitLines(text)[0], Separator)) == Some(column) &&
                FirstRowFor(SplitLines(text)[1..], k, j) &&
                !IsShort(SplitLines(text)[1..][j], column) &&
                Load(language, Some(text), d).value[k] == Fields(SplitLines(text)[1..][j])[column]
  {
    var lines := SplitLines(text);
    var column := HeaderColumn(language, Split(lines[0], Separator)).value;
    PopulateKeepsEntries(lines[1..], column, d);
    forall k | k in Load(language, Some(text), d).value && k !in d
      ensures exists j :: FirstRowFor(lines[1..], k, j) && !IsShort(lines[1..][j], column) &&
                Load(language, Some(text), d).value[k] == Fields(lines[1..][j])[column]
    {
      PopulateNewEntry(lines[1..], column, d, k);
    }
  }

  // ---------------------------------------------------------------------------
  // Worked examples
  // ---------------------------------------------------------------------------

  /** A row whose fields are `fields` when joined by tabs. */
  lemma FieldsOf(fields: seq<string>)
    requires |fields| >= 1
    requires forall i :: 0 <= i < |fields| ==> Separator !in fields[i]
    ensures Fields(Join(fields, [Separator])) == fields
  {
    JoinSplit(fields, Separator);
  }

  /** Three lines with two line endings. */
  lemma InterleaveThree(l0: string, l1: string, l2: string, d0: string, d1: string)
    ensures Interleave([l0, l1, l2], [d0, d1]) == l0 + d0 + l1 + d1 + l2
  {
    assert [l0, l1, l2][1..] == [l1, l2] && [l1, l2][1..] == [l2] && [d0, d1][1..] == [d1] && [d1][1..] == [];
    assert Interleave([l2], []) == l2;
    assert Interleave([l1, l2], [d1]) == l1 + d1 + l2;
    assert Interleave([l0, l1, l2], [d0, d1]) == l0 + d0 + (l1 + d1 + l2);
    assert l0 + d0 + (l1 + d1 + l2) == l0 + d0 + l1 + d1 + l2;
  }

  /** Two well-formed rows with distinct new keys each add their entry. */
  lemma PopulateTwoRows(r1: string, r2: string, languageId: nat, d: map<string, string>)
    requires !Skipped(r1, d) && !IsShort(r1, languageId)
    requires !Skipped(r2, d[Key(r1) := Fields(r1)[languageId]]) && !IsShort(r2, languageId)
    ensures Populate([r1, r2], languageId, d) == d[Key(r1) := Fields(r1)[languageId]][Key(r2) := Fields(r2)[languageId]]
  {
    var d1 := d[Key(r1) := Fields(r1)[languageId]];
    assert [r1, r2][1..] == [r2] && [r2][1..] == [];
    assert Populate([r2], languageId, d1) == Populate([], languageId, d1[Key(r2) := Fields(r2)[languageId]]);
    assert Populate([r1, r2], languageId, d) == Populate([r2], languageId, d1);
  }

  /** Loading a header row and two well-formed data rows with distinct keys. */
  lemma TwoRowLoad(language: string, text: string, l0: string, l1: string, l2: string, column: nat)
    requires SplitLines(text) == [l0, l1, l2]
    requires HeaderColumn(language, Split(l0, Separator)) == Some(column)
    requires Key(l1) != "" && Key(l2) != "" && Key(l1) != Key(l2)
    requires column < |Fields(l1)| && column < |Fields(l2)|
    ensures Load(language, Some(text), map[]) == Success(map[Key(l1) := Fields(l1)[column], Key(l2) := Fields(l2)[column]])
  {
    assert [l0, l1, l2][1..] == [l1, l2];
    PopulateTwoRows(l1, l2, column, map[]);
  }

  /** The lines of the English example sheet. */
  lemma SheetLines(text: string, l0: string, l1: string, l2: string)
    requires l0 == "Key\tEN\tFR" && l1 == "hello\tHi\tBonjour" && l2 == "bye\tBye\tAu revoir"
    requires text == l0 + "\n" + l1 + "\n" + l2
    ensures SplitLines(text) == [l0, l1, l2]
  {
    InterleaveThree(l0, l1, l2, "\n", "\n");
    assert PlainLine(l0) && PlainLine(l1) && PlainLine(l2);
    SplitLinesInterleave([l0, l1, l2], ["\n", "\n"]);
  }

  /** The fields of the header row of the English example sheet. */
  lemma HeaderRowFields()
    ensures Split("Key\tEN\tFR", Separator) == ["Key", "EN", "FR"]
  {
    assert "Key\tEN\tFR" == Join(["Key", "EN", "FR"], "\t");
    FieldsOf(["Key", "EN", "FR"]);
  }

  /** The fields of the first data row of the English example sheet. */
  lemma HelloRowFields()
    ensures Fields("hello\tHi\tBonjour") == ["hello", "Hi", "Bonjour"]
  {
    assert "hello\tHi\tBonjour" == Join(["hello", "Hi", "Bonjour"], "\t");
    FieldsOf(["hello", "Hi", "Bonjour"]);
  }

  /** The fields of the second data row of the English example sheet. */
  lemma ByeRowFields()
    ensures Fields("bye\tBye\tAu revoir") == ["bye", "Bye", "Au revoir"]
  {
    assert "bye\tBye\tAu revoir" == Join(["bye", "Bye", "Au revoir"], "\t");
    FieldsOf(["bye", "Bye", "Au revoir"]);
  }

  /** The fields of the lines of the English example sheet. */
  lemma SheetFields()
    ensures Split("Key\tEN\tFR", Separator) == ["Key", "EN", "FR"]
    ensures Fields("hello\tHi\tBonjour") == ["hello", "Hi", "Bonjour"]
    ensures Fields("bye\tBye\tAu revoir") == ["bye", "Bye", "Au revoir"]
  {
    HeaderRowFields();
    HelloRowFields();
    ByeRowFields();
  }

  /** "EN" selects the second column of the example header. */
  lemma HeaderEN()
    ensures HeaderColumn("EN", ["Key", "EN", "FR"]) == Some(1)
  {
    if Contains("Key", "EN") {
      ContainsChar("Key", "EN", 'N');
      assert false;
    }
    assert Contains("EN", "EN");
  }

  /** The English column of any text whose lines and fields are those of the example. */
  lemma EnglishColumn(text: string, l0: string, l1: string, l2: string)
    requires SplitLines(text) == [l0, l1, l2]
    requires Split(l0, Separator) == ["Key", "EN", "FR"]
    requires Fields(l1) == ["hello", "Hi", "Bonjour"]
    requires Fields(l2) == ["bye", "Bye", "Au revoir"]
    ensures Load("EN", Some(text), map[]) == Success(map["hello" := "Hi", "bye" := "Bye"])
  {
    HeaderEN();
    TwoRowLoad("EN", text, l0, l1, l2, 1);
  }

  /** Loading "EN" from the example sheet gives hello -> Hi and bye -> Bye. */
  lemma EnglishSheet(text: string)
    requires text == "Key\tEN\tFR\nhello\tHi\tBonjour\nbye\tBye\tAu revoir"
    ensures Load("EN", Some(text), map[]) == Success(map["hello" := "Hi", "bye" := "Bye"])
  {
    var l0, l1, l2 := "Key\tEN\tFR", "hello\tHi\tBonjour", "bye\tBye\tAu revoir";
    SheetText(text, l0, l1, l2);
    SheetLines(text, l0, l1, l2);
    SheetFields();
    EnglishColumn(text, l0, l1, l2);
  }

  /** Four lines with three line endings. */
  lemma InterleaveFour(l0: string, l1: string, l2: string, l3: string, d: string)
    ensures Interleave([l0, l1, l2, l3], [d, d, d]) == l0 + d + l1 + d + l2 + d + l3
  {
    InterleaveThree(l1, l2, l3, d, d);
    assert [l0, l1, l2, l3][1..] == [l1, l2, l3] && [d, d, d][1..] == [d, d];
    assert Interleave([l0, l1, l2, l3], [d, d, d]) == l0 + d + (l1 + d + l2 + d + l3);
    assert l0 + d + (l1 + d + l2 + d + l3) == l0 + d + l1 + d + l2 + d + l3;
  }

  /** A third row repeating the first row's key leaves the two-row table as it was. */
  lemma PopulateRepeatedKey(r1: string, r2: string, r3: string, languageId: nat, d: map<string, string>)
    requires !Skipped(r1, d) && !IsShort(r1, languageId)
    requires !Skipped(r2, d[Key(r1) := Fields(r1)[languageId]]) && !IsShort(r2, languageId)
    requires Key(r3) == Key(r1)
    ensures Populate([r1, r2, r3], languageId, d) == Populate([r1, r2], languageId, d)
  {
    var d1 := d[Key(r1) := Fields(r1)[languageId]];
    var d2 := d1[Key(r2) := Fields(r2)[languageId]];
    PopulateTwoRows(r1, r2, languageId, d);
    assert [r1, r2, r3][1..] == [r2, r3] && [r2, r3][1..] == [r3] && [r3][1..] == [];
    assert Populate([r3], languageId, d2) == d2;
    assert Populate([r2, r3], languageId, d1) == Populate([r3], languageId, d2);
  }

  /** Loading a header row, two well-formed data rows with distinct keys and a row repeating the first key. */
  lemma RepeatedKeyLoad(language: string, text: string, l0: string, l1: string, l2: string, l3: string, column: nat)
    requires SplitLines(text) == [l0, l1, l2, l3]
    requires HeaderColumn(language, Split(l0, Separator)) == Some(column)
    requires Key(l1) != "" && Key(l2) != "" && Key(l1) != Key(l2) && Key(l3) == Key(l1)
    requires column < |Fields(l1)| && column < |Fields(l2)|
    ensures Load(language, Some(text), map[]) == Success(map[Key(l1) := Fields(l1)[column], Key(l2) := Fields(l2)[column]])
  {
    assert [l0, l1, l2, l3][1..] == [l1, l2, l3];
    PopulateRepeatedKey(l1, l2, l3, column, map[]);
    PopulateTwoRows(l1, l2, column, map[]);
  }

  /** The lines of the example sheet with a repeated key appended. */
  lemma RepeatedKeySheetLines(text: string, sheet: string, l0: string, l1: string, l2: string, l3: string)
    requires l0 == "Key\tEN\tFR" && l1 == "hello\tHi\tBonjour" && l2 == "bye\tBye\tAu revoir"
    requires l3 == "hello\tHowdy\tSalut"
    requires sheet == l0 + "\n" + l1 + "\n" + l2 && text == sheet + "\n" + l3
    ensures SplitLines(text) == [l0, l1, l2, l3]
  {
    InterleaveFour(l0, l1, l2, l3, "\n");
    assert PlainLine(l0) && PlainLine(l1) && PlainLine(l2) && PlainLine(l3);
    SplitLinesInterleave([l0, l1, l2, l3], ["\n", "\n", "\n"]);
  }

  /** The first occurrence of a key wins for any text with the lines of the example. */
  lemma RepeatedKeyColumn(text: string, l0: string, l1: string, l2: string, l3: string)
    requires SplitLines(text) == [l0, l1, l2, l3]
    requires Split(l0, Separator) == ["Key", "EN", "FR"]
    requires Fields(l1) == ["hello", "Hi", "Bonjour"]
    requires Fields(l2) == ["bye", "Bye", "Au revoir"]
    requires Fields(l3) == ["hello", "Howdy", "Salut"]
    ensures Load("EN", Some(text), map[]) == Success(map["hello" := "Hi", "bye" := "Bye"])
  {
    HeaderEN();
    assert Key(l1) == "hello" && Key(l2) == "bye" && Key(l3) == "hello";
    RepeatedKeyLoad("EN", text, l0, l1, l2, l3, 1);
  }

  /** The example sheet is its three lines joined by line feeds. */
  lemma SheetText(sheet: string, l0: string, l1: string, l2: string)
    requires sheet == "Key\tEN\tFR\nhello\tHi\tBonjour\nbye\tBye\tAu revoir"
    requires l0 == "Key\tEN\tFR" && l1 == "hello\tHi\tBonjour" && l2 == "bye\tBye\tAu revoir"
    ensures sheet == l0 + "\n" + l1 + "\n" + l2
  {
  }

  /** The fields of the appended row. */
  lemma RepeatedRowFields()
    ensures Fields("hello\tHowdy\tSalut") == ["hello", "Howdy", "Salut"]
  {
    assert "hello\tHowdy\tSalut" == Join(["hello", "Howdy", "Salut"], "\t");
    FieldsOf(["hello", "Howdy", "Salut"]);
  }

  /** With the row "hello\tHowdy\tSalut" appended to the example sheet, hello still maps to Hi. */
  lemma RepeatedKeySheet(sheet: string, row: string, text: string)
    requires sheet == "Key\tEN\tFR\nhello\tHi\tBonjour\nbye\tBye\tAu revoir"
    requires row == "hello\tHowdy\tSalut" && text == sheet + "\n" + row
    ensures Load("EN", Some(text), map[]) == Success(map["hello" := "Hi", "bye" := "Bye"])
  {
    var l0, l1, l2 := "Key\tEN\tFR", "hello\tHi\tBonjour", "bye\tBye\tAu revoir";
    SheetText(sheet, l0, l1, l2);
    RepeatedKeySheetLines(text, sheet, l0, l1, l2, row);
    SheetFields();
    RepeatedRowFields();
    RepeatedKeyColumn(text, l0, l1, l2, row);
  }

  /** The fields of the rows of the short-row example. */
  lemma ShortRowFields()
    ensures Fields("hello\tHi") == ["hello", "Hi"]
    ensures Fields("oops") == ["oops"]
  {
    assert "hello\tHi" == Join(["hello", "Hi"], "\t") && "oops" == Join(["oops"], "\t");
    FieldsOf(["hello", "Hi"]);
    FieldsOf(["oops"]);
  }

  /** A first row with two fields, then a row with one: the loop stops at the second. */
  lemma ShortRowStopsLoop(r1: string, r2: string, r3: string)
    requires Fields(r1) == ["hello", "Hi"] && Fields(r2) == ["oops"]
    ensures Populate([r1, r2, r3], 1, map[]) == map["hello" := "Hi"]
  {
    var d1 := map["hello" := "Hi"];
    assert [r1][1..] == [];
    assert Populate([r1], 1, map[]) == d1 && Processed([r1], 1, map[]) == 1;
    assert Key(r2) == "oops" && !Skipped(r2, d1) && IsShort(r2, 1);
    ShortRowStops([r1], r2, [r3], 1, map[]);
    assert [r1] + [r2] + [r3] == [r1, r2, r3];
  }

  /** A row with one field, where the target column needs two, stops the loop before a later good row. */
  lemma ShortRowExample()
    ensures Populate(["hello\tHi", "oops", "bye\tBye"], 1, map[]) == map["hello" := "Hi"]
  {
    ShortRowFields();
    ShortRowStopsLoop("hello\tHi", "oops", "bye\tBye");
  }

  /** Three lines with a blank line after the first and a trailing line feed. */
  lemma InterleaveBlankLine(l0: string, l1: string, l2: string)
    ensures Interleave([l0, "", l1, l2, ""], ["\n", "\n", "\n", "\n"]) == l0 + "\n" + "" + "\n" + l1 + "\n" + l2 + "\n" + ""
  {
    InterleaveFour(l0, "", l1, l2, "\n");
    InterleaveSnoc([l0, "", l1, l2], ["\n", "\n", "\n"], "\n", "");
    assert [l0, "", l1, l2] + [""] == [l0, "", l1, l2, ""];
    assert ["\n", "\n", "\n"] + ["\n"] == ["\n", "\n", "\n", "\n"];
  }

  /** Removing the empty entries of that layout leaves the three lines. */
  lemma RemoveBlankLines(l0: string, l1: string, l2: string)
    requires l0 != "" && l1 != "" && l2 != ""
    ensures RemoveEmpty([l0, "", l1, l2, ""]) == [l0, l1, l2]
  {
    var tail := [""] + ([l1] + ([l2] + [""]));
    assert [l0, "", l1, l2, ""] == [l0] + tail;
    RemoveEmptyAppend([l0], tail);
    RemoveEmptyAppend([""], [l1] + ([l2] + [""]));
    RemoveEmptyAppend([l1], [l2] + [""]);
    RemoveEmptyAppend([l2], [""]);
    RemoveEmptySingle(l0);
    RemoveEmptySingle("");
    RemoveEmptySingle(l1);
    RemoveEmptySingle(l2);
  }

  /** Plain lines laid out with a blank line and a trailing line feed split into those lines. */
  lemma BlankLineLayout(text: string, l0: string, l1: string, l2: string)
    requires PlainLine(l0) && PlainLine(l1) && PlainLine(l2)
    requires text == l0 + "\n" + "" + "\n" + l1 + "\n" + l2 + "\n" + ""
    ensures SplitLines(text) == [l0, l1, l2]
  {
    var parts := [l0, "", l1, l2, ""];
    var ds := ["\n", "\n", "\n", "\n"];
    InterleaveBlankLine(l0, l1, l2);
    assert forall i :: 0 <= i < |parts| ==> parts[i] == "" || PlainLine(parts[i]);
    SplitLinesBlankLines(parts, ds);
    RemoveBlankLines(l0, l1, l2);
  }

  /** The lines of a sheet with a blank line and a trailing line feed. */
  lemma BlankLineSheetLines(text: string, l0: string, l1: string, l2: string)
    requires l0 == "Key\tEN\tFR" && l1 == "hello\tHi\tBonjour" && l2 == "bye\tBye\tAu revoir"
    requires text == l0 + "\n" + "" + "\n" + l1 + "\n" + l2 + "\n" + ""
    ensures SplitLines(text) == [l0, l1, l2]
  {
    assert PlainLine(l0) && PlainLine(l1) && PlainLine(l2);
    BlankLineLayout(text, l0, l1, l2);
  }

  /** The example sheet written with a blank line and a trailing line feed. */
  lemma BlankLineSheetText(text: string, l0: string, l1: string, l2: string)
    requires text == "Key\tEN\tFR\n\nhello\tHi\tBonjour\nbye\tBye\tAu revoir\n"
    requires l0 == "Key\tEN\tFR" && l1 == "hello\tHi\tBonjour" && l2 == "bye\tBye\tAu revoir"
    ensures text == l0 + "\n" + "" + "\n" + l1 + "\n" + l2 + "\n" + ""
  {
  }

  /** Blank lines and a trailing line feed do not change what the example sheet loads. */
  lemma BlankLineSheet(text: string)
    requires text == "Key\tEN\tFR\n\nhello\tHi\tBonjour\nbye\tBye\tAu revoir\n"
    ensures Load("EN", Some(text), map[]) == Success(map["hello" := "Hi", "bye" := "Bye"])
  {
    var l0, l1, l2 := "Key\tEN\tFR", "hello\tHi\tBonjour", "bye\tBye\tAu revoir";
    BlankLineSheetText(text, l0, l1, l2);
    BlankLineSheetLines(text, l0, l1, l2);
    SheetFields();
    EnglishColumn(text, l0, l1, l2);
  }
}
