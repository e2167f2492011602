/** The Server-Sent Events line parser of html_studio.py. */
module SseEvents {
  import opened Text
  import opened Utf8

  /** A line of more bytes than this, its LF included, stops the parser. */
  const LINE_LIMIT := 1024 * 1024

  // ---------------------------------------------------------------- lines

  /** response.readline(LINE_LIMIT + 1): through the next LF, to the end, or to the bound. */
  function ReadLine(s: seq<byte>): (raw: seq<byte>)
    ensures raw <= s && |raw| <= LINE_LIMIT + 1
    ensures s != [] ==> raw != []
  {
    var n := Find(s, LF);
    var end := if n < |s| then n + 1 else n;
    s[..if end > LINE_LIMIT then LINE_LIMIT + 1 else end]
  }

  /** line.rstrip("\r\n") */
  function RStripBreaks(s: string): string {
    if s != [] && (s[|s| - 1] == '\r' || s[|s| - 1] == '\n') then RStripBreaks(s[..|s| - 1]) else s
  }

  function LineText(raw: seq<byte>): string {
    RStripBreaks(Decode(raw))
  }

  /** The line texts up to the end of the stream or the first oversized line. */
  datatype Lines = Lines(texts: seq<string>, oversized: bool)

  function LinesOf(stream: seq<byte>): Lines
    decreases |stream|
  {
    var raw := ReadLine(stream);
    if |raw| > LINE_LIMIT then Lines([], true)
    else if raw == [] then Lines([], false)
    else
      var rest := LinesOf(stream[|raw|..]);
      Lines([LineText(raw)] + rest.texts, rest.oversized)
  }

  // ---------------------------------------------------------------- events

  /** What reading some lines leaves behind: the events yielded and the lines of the
      event still being collected. */
  datatype Scan = Scan(events: seq<string>, data: seq<string>)

  function DropOneSpace(s: string): string {
    if StartsWith(s, " ") then s[1..] else s
  }

  function Pending(data: seq<string>): seq<string> {
    if data == [] then [] else [JoinLines(data)]
  }

  /** The effect of one line: the events it yields and the collected lines it leaves. */
  function Step(line: string, data: seq<string>): Scan {
    if line == "" then Scan(Pending(data), [])
    else if StartsWith(line, "data:") then Scan([], data + [DropOneSpace(line[5..])])
    else Scan([], data)
  }

  function Feed(lines: seq<string>, data: seq<string>): Scan {
    if lines == [] then Scan([], data)
    else
      var s := Step(lines[0], data);
      var r := Feed(lines[1..], s.data);
      Scan(s.events + r.events, r.data)
  }

  /** Everything the generator yields: at end of stream the pending event is yielded too,
      at an oversized line it is lost to the error. */
  function Events(stream: seq<byte>): seq<string> {
    var l := LinesOf(stream);
    var s := Feed(l.texts, []);
    if l.oversized then s.events else s.events + Pending(s.data)
  }

  method ReadEvents(stream: seq<byte>) returns (events: seq<string>, oversized: bool)
    ensures events == Events(stream)
    ensures oversized == LinesOf(stream).oversized
  {
    var data: seq<string> := [];
    var rest := stream;
    ghost var done: seq<string> := [];
    events := [];
    while true
      invariant Reached(stream, done, rest, Scan(events, data))
      decreases |rest|
    {
      var raw := ReadLine(rest);
      if |raw| > LINE_LIMIT {
        ReachedEnd(stream, done, rest, Scan(events, data));
        return events, true;
      }
      if raw == [] {
        ReachedEnd(stream, done, rest, Scan(events, data));
        if data != [] {
          events := events + [JoinLines(data)];
        }
        return events, false;
      }
      var line := LineText(raw);
      ReachedNext(stream, done, rest, Scan(events, data));
      done := done + [line];
      if line == "" {
        if data != [] {
          events := events + [JoinLines(data)];
          data := [];
        }
      } else if StartsWith(line, "data:") {
        data := data + [DropOneSpace(line[5..])];
      }
      rest := rest[|raw|..];
    }
  }

  /** The loop has read the lines `done` of `stream`, `rest` is still unread. */
  ghost predicate Reached(stream: seq<byte>, done: seq<string>, rest: seq<byte>, s: Scan) {
    && LinesOf(stream) == Lines(done + LinesOf(rest).texts, LinesOf(rest).oversized)
    && Feed(done, []) == s
  }

  lemma ReachedNext(stream: seq<byte>, done: seq<string>, rest: seq<byte>, s: Scan)
    requires Reached(stream, done, rest, s)
    requires 0 < |ReadLine(rest)| <= LINE_LIMIT
    ensures var line := LineText(ReadLine(rest));
            var t := Step(line, s.data);
            Reached(stream, done + [line], rest[|ReadLine(rest)|..], Scan(s.events + t.events, t.data))
  {
    var line := LineText(ReadLine(rest));
    FeedSnoc(done, line, []);
    Assoc(done, [line], LinesOf(rest[|ReadLine(rest)|..]).texts);
  }

  lemma ReachedEnd(stream: seq<byte>, done: seq<string>, rest: seq<byte>, s: Scan)
    requires Reached(stream, done, rest, s)
    requires |ReadLine(rest)| == 0 || |ReadLine(rest)| > LINE_LIMIT
    ensures LinesOf(stream).oversized == (|ReadLine(rest)| > LINE_LIMIT)
    ensures Events(stream) == if |ReadLine(rest)| > LINE_LIMIT then s.events else s.events + Pending(s.data)
  {
    assert done + [] == done;
  }

  // ---------------------------------------------------------------- composition

  lemma {:induction false} FeedConcat(a: seq<string>, b: seq<string>, data: seq<string>)
    ensures var s := Feed(a, data);
            var t := Feed(b, s.data);
            Feed(a + b, data) == Scan(s.events + t.events, t.data)
  {
    if a == [] {
      assert a + b == b;
    } else {
      assert (a + b)[1..] == a[1..] + b;
      var t := Step(a[0], data);
      FeedConcat(a[1..], b, t.data);
      var u := Feed(a[1..], t.data);
      Assoc(t.events, u.events, Feed(b, u.data).events);
    }
  }

  lemma FeedSnoc(a: seq<string>, line: string, data: seq<string>)
    ensures var s := Feed(a, data);
            var t := Step(line, s.data);
            Feed(a + [line], data) == Scan(s.events + t.events, t.data)
  {
    FeedConcat(a, [line], data);
    var d := Feed(a, data).data;
    assert Feed([line], d) == Scan(Step(line, d).events + [], Step(line, d).data);
  }

  predicate WholeLines(b: seq<byte>) {
    b != [] ==> b[|b| - 1] == LF
  }

  lemma ReadLineConcat(a: seq<byte>, b: seq<byte>)
    requires a != [] && WholeLines(a)
    ensures ReadLine(a + b) == ReadLine(a)
    ensures |ReadLine(a)| <= LINE_LIMIT ==> WholeLines(a[|ReadLine(a)|..])
  {
    var n := Find(a, LF);
    FindIs(a + b, LF, n);
  }

  /** Splitting into lines is compositional at line boundaries. */
  lemma {:induction false} LinesConcat(a: seq<byte>, b: seq<byte>)
    requires WholeLines(a)
    ensures var x := LinesOf(a);
            LinesOf(a + b) == if x.oversized then x else Lines(x.texts + LinesOf(b).texts, LinesOf(b).oversized)
    decreases |a|
  {
    hide LineText, ReadLine;
    if a == [] {
      assert a + b == b;
    } else {
      ReadLineConcat(a, b);
      var raw := ReadLine(a);
      if |raw| <= LINE_LIMIT {
        assert (a + b)[|raw|..] == a[|raw|..] + b;
        LinesConcat(a[|raw|..], b);
        Assoc([LineText(raw)], LinesOf(a[|raw|..]).texts, LinesOf(b).texts);
      }
    }
  }

  predicate OneLine(raw: seq<byte>) {
    0 < |raw| <= LINE_LIMIT && Find(raw, LF) == |raw| - 1
  }

  lemma LinesOne(raw: seq<byte>)
    requires OneLine(raw)
    ensures LinesOf(raw) == Lines([LineText(raw)], false)
  {
    assert ReadLine(raw) == raw;
    assert raw[|raw|..] == [];
    assert LinesOf([]) == Lines([], false);
  }

  lemma LinesBlank()
    ensures OneLine([LF]) && LineText([LF]) == ""
  {
    DecodeLine([]);
    assert [] + [LF] == [LF];
    RStripBreaksLine("");
  }

  lemma RStripBreaksLine(s: string)
    requires s != [] ==> s[|s| - 1] != '\r' && s[|s| - 1] != '\n'
    ensures RStripBreaks(s + "\n") == s
  {
    var t := s + "\n";
    assert t[..|t| - 1] == s;
    assert RStripBreaks(s) == s;
    StripsOne(t);
  }

  lemma StripsOne(s: string)
    requires s != "" && IsBreak(s[|s| - 1])
    ensures RStripBreaks(s) == RStripBreaks(s[..|s| - 1])
  {
  }

  lemma DecodeLine(b: seq<byte>)
    ensures Decode(b + [LF]) == Decode(b) + "\n"
  {
    DecodeConcat(b, [LF]);
    assert [LF][1..] == [];
    assert Decode([LF]) == "\n" + Decode([]);
  }

  lemma LinesThrough(a: seq<byte>, raw: seq<byte>, b: seq<byte>)
    requires WholeLines(a) && OneLine(raw) && WholeLines(raw) && !LinesOf(a).oversized
    ensures LinesOf(a + raw + b)
         == Lines(LinesOf(a).texts + [LineText(raw)] + LinesOf(b).texts, LinesOf(b).oversized)
  {
    LinesConcat(a + raw, b);
    LinesConcat(a, raw);
    LinesOne(raw);
  }

  lemma FeedThrough(x: seq<string>, line: string, y: seq<string>, data: seq<string>)
    ensures var s := Feed(x, data);
            var t := Step(line, s.data);
            var u := Feed(y, t.data);
            Feed(x + [line] + y, data) == Scan(s.events + t.events + u.events, u.data)
  {
    FeedConcat(x + [line], y, data);
    FeedSnoc(x, line, data);
  }

  /** A blank line is a full boundary: the events around it are found independently. */
  lemma SplitsAtBlankLines(a: seq<byte>, b: seq<byte>)
    requires WholeLines(a) && !LinesOf(a).oversized
    ensures LinesOf(a + [LF] + b).oversized == LinesOf(b).oversized
    ensures Events(a + [LF] + b) == Events(a) + Events(b)
  {
    LinesBlank();
    LinesThrough(a, [LF], b);
    var x, y := LinesOf(a).texts, LinesOf(b).texts;
    FeedThrough(x, "", y, []);
    var s, u := Feed(x, []), Feed(y, []);
    Assoc(s.events + Pending(s.data), u.events, Pending(u.data));
  }

  /** The last blank line may be missing: what is pending is delivered all the same. */
  lemma LastBlankLineOptional(a: seq<byte>)
    requires WholeLines(a)
    ensures Events(a + [LF]) == Events(a)
  {
    LinesConcat(a, [LF]);
    LinesBlank();
    LinesOne([LF]);
    var s := Feed(LinesOf(a).texts, []);
    FeedSnoc(LinesOf(a).texts, "", []);
    assert s.events + Pending(s.data) + [] == s.events + Pending(s.data);
  }

  lemma {:induction false} NoBlankNoEvent(lines: seq<string>, data: seq<string>)
    requires "" !in lines
    ensures Feed(lines, data).events == []
  {
    if lines != [] {
      assert lines[0] in lines;
      NoBlankNoEvent(lines[1..], Step(lines[0], data).data);
    }
  }

  /** A line of more than 1 MiB ends the events: the one being collected is lost with it. */
  lemma OversizedLineLosesPending(a: seq<byte>, c: seq<byte>, rest: seq<byte>)
    requires WholeLines(a) && !LinesOf(a).oversized
    requires WholeLines(c) && !LinesOf(c).oversized && "" !in LinesOf(c).texts
    requires |rest| > 1024 * 1024 && Find(rest, LF) >= 1024 * 1024
    ensures LinesOf(a + [LF] + (c + rest)).oversized
    ensures Events(a + [LF] + (c + rest)) == Events(a)
  {
    LinesConcat(c, rest);
    assert LinesOf(rest) == Lines([], true);
    NothingAdded(LinesOf(c).texts);
    SplitsAtBlankLines(a, c + rest);
    NoBlankNoEvent(LinesOf(c).texts, []);
    NothingAdded(Events(a));
  }

  /** A comment, or a field other than data. */
  predicate Ignorable(raw: seq<byte>) {
    OneLine(raw) && LineText(raw) != "" && !StartsWith(LineText(raw), "data:")
  }

  /** Comments and other fields change nothing wherever they stand. */
  lemma IgnorableAnywhere(a: seq<byte>, raw: seq<byte>, b: seq<byte>)
    requires WholeLines(a) && WholeLines(raw) && Ignorable(raw)
    ensures Events(a + raw + b) == Events(a + b)
    ensures LinesOf(a + raw + b).oversized == LinesOf(a + b).oversized
  {
    LinesConcat(a, b);
    if LinesOf(a).oversized {
      LinesConcat(a, raw + b);
      Assoc(a, raw, b);
    } else {
      LinesThrough(a, raw, b);
      var x, y := LinesOf(a).texts, LinesOf(b).texts;
      FeedThrough(x, LineText(raw), y, []);
      FeedConcat(x, y, []);
      assert Feed(x, []).events + [] == Feed(x, []).events;
    }
  }

  // ---------------------------------------------------------------- round trip

  /** e.split("\n") */
  function SplitLines(e: string): (lines: seq<string>)
    ensures lines != []
    decreases |e|
  {
    var n := Find(e, '\n');
    if n == |e| then [e] else [e[..n]] + SplitLines(e[n + 1..])
  }

  lemma {:induction false} SplitClean(e: string)
    ensures forall l :: l in SplitLines(e) ==> '\n' !in l
    decreases |e|
  {
    var n := Find(e, '\n');
    if n < |e| { SplitClean(e[n + 1..]); }
  }

  lemma JoinCons(line: string, rest: seq<string>)
    requires rest != []
    ensures JoinLines([line] + rest) == line + "\n" + JoinLines(rest)
  {
    assert ([line] + rest)[1..] == rest;
  }

  lemma JoinOne(line: string)
    ensures JoinLines([line]) == line
  {
  }

  lemma {:induction false} JoinSplit(e: string)
    ensures JoinLines(SplitLines(e)) == e
    decreases |e|
  {
    hide JoinLines;
    var n := Find(e, '\n');
    if n == |e| {
      JoinOne(e);
    } else {
      JoinSplit(e[n + 1..]);
      JoinCons(e[..n], SplitLines(e[n + 1..]));
      assert e == e[..n] + "\n" + e[n + 1..];
    }
  }

  /** A data line, with or without the optional space after the colon. */
  function PrintLine(line: string, spaced: bool): seq<byte> {
    Encode((if spaced then "data: " else "data:") + line) + [LF]
  }

  function PrintLines(lines: seq<string>, spaced: bool): seq<byte> {
    if lines == [] then [] else PrintLine(lines[0], spaced) + PrintLines(lines[1..], spaced)
  }

  function PrintEvents(events: seq<string>, spaced: bool): seq<byte> {
    if events == [] then []
    else PrintLines(SplitLines(events[0]), spaced) + [LF] + PrintEvents(events[1..], spaced)
  }

  /** Every printed line is at most 1 MiB long and ends in no carriage return; one printed
      without the optional space does not begin with a space of its own. */
  predicate Printable(e: string, spaced: bool) {
    forall l :: l in SplitLines(e) ==>
      && |PrintLine(l, spaced)| <= 1024 * 1024
      && !EndsWith(l, "\r")
      && (spaced || !StartsWith(l, " "))
  }

  /** `rstrip("\r\n")` cuts exactly the line breaks at the end. */
  lemma {:induction false} RStripBreaksExact(s: string)
    ensures var r := RStripBreaks(s);
            && r <= s && (r != "" ==> r[|r| - 1] !in "\r\n")
            && forall i :: |r| <= i < |s| ==> s[i] in "\r\n"
  {
    if s != "" && s[|s| - 1] in "\r\n" { RStripBreaksExact(s[..|s| - 1]); }
  }

  lemma {:induction false} RStripBreaksBehind(p: string, s: string)
    requires p != "" && !IsBreak(p[|p| - 1])
    ensures RStripBreaks(p + s) == p + RStripBreaks(s)
  {
    if s == "" {
      NothingAdded(p);
    } else {
      assert (p + s)[..|p + s| - 1] == p + s[..|s| - 1];
      RStripBreaksBehind(p, s[..|s| - 1]);
    }
  }

  lemma CleanedBody(field: string, l: string)
    requires field != "" && !IsBreak(field[|field| - 1])
    ensures RStripBreaks(field + l + "\n") == field + RStripBreaks(l)
  {
    var body := field + l;
    assert (body + "\n")[..|body|] == body;
    RStripBreaksBehind(field, l);
  }

  /** What is read back of a printed line. */
  lemma PrintedLine(l: string, spaced: bool)
    requires '\n' !in l
    ensures WholeLines(PrintLine(l, spaced)) && Find(PrintLine(l, spaced), LF) == |PrintLine(l, spaced)| - 1
    ensures LineText(PrintLine(l, spaced)) == (if spaced then "data: " else "data:") + RStripBreaks(l)
  {
    hide Encode, Decode, RStripBreaks;
    var field := if spaced then "data: " else "data:";
    var body, raw := field + l, PrintLine(l, spaced);
    EncodeNoLf(body);
    assert raw[..|raw| - 1] == Encode(body);
    FindIs(raw, LF, |raw| - 1);
    DecodeLine(Encode(body));
    DecodeEncode(body);
    CleanedBody(field, l);
  }

  /** What a data line with the text `l` carries. */
  function Carried(l: string, spaced: bool): string {
    if spaced then l else DropOneSpace(l)
  }

  lemma StepPrinted(l: string, spaced: bool, data: seq<string>)
    ensures Step((if spaced then "data: " else "data:") + l, data) == Scan([], data + [Carried(l, spaced)])
  {
    var line := (if spaced then "data: " else "data:") + l;
    assert line[..5] == "data:";
    assert line[5..] == if spaced then " " + l else l;
    assert spaced ==> line[5..][1..] == l;
  }

  /** How many lines come before one that is too long when printed. */
  function Fitting(lines: seq<string>, spaced: bool): (n: nat)
    ensures n <= |lines|
    ensures forall i :: 0 <= i < n ==> |PrintLine(lines[i], spaced)| <= LINE_LIMIT
    ensures n < |lines| ==> |PrintLine(lines[n], spaced)| > LINE_LIMIT
  {
    if lines == [] || |PrintLine(lines[0], spaced)| > LINE_LIMIT then 0 else 1 + Fitting(lines[1..], spaced)
  }

  /** The lines without the carriage returns at their ends. */
  function Cleaned(lines: seq<string>): seq<string> {
    seq(|lines|, i requires 0 <= i < |lines| => RStripBreaks(lines[i]))
  }

  function ReadBack(lines: seq<string>, spaced: bool): seq<string> {
    seq(|lines|, i requires 0 <= i < |lines| => Carried(RStripBreaks(lines[i]), spaced))
  }

  lemma LinesTooLong(raw: seq<byte>, b: seq<byte>)
    requires raw != [] && WholeLines(raw) && Find(raw, LF) == |raw| - 1 && |raw| > LINE_LIMIT
    ensures LinesOf(raw + b) == Lines([], true)
  {
    ReadLineConcat(raw, b);
  }

  lemma {:induction false} PrintedWhole(lines: seq<string>, spaced: bool)
    ensures WholeLines(PrintLines(lines, spaced))
  {
    if lines != [] { PrintedWhole(lines[1..], spaced); }
  }

  /** Printed lines are read back up to the first that is too long. */
  lemma {:induction false} PrintedLines(lines: seq<string>, spaced: bool)
    requires forall l :: l in lines ==> '\n' !in l
    ensures var n := Fitting(lines, spaced);
            LinesOf(PrintLines(lines, spaced)) == Lines(Prefixed(Cleaned(lines[..n]), spaced), n < |lines|)
  {
    hide PrintLine, LineText, RStripBreaks, LinesOf, WholeLines, Cleaned;
    if lines == [] {
      NothingPrinted(spaced);
    } else {
      var raw, n := PrintLine(lines[0], spaced), Fitting(lines, spaced);
      PrintedLine(lines[0], spaced);
      PrintedLines(lines[1..], spaced);
      if |raw| > LINE_LIMIT {
        LinesTooLong(raw, PrintLines(lines[1..], spaced));
        NothingPrinted(spaced);
        assert lines[..n] == [];
      } else {
        LinesOne(raw);
        LinesConcat(raw, PrintLines(lines[1..], spaced));
        PrefixedCleaned(lines, n, spaced);
        hide Prefixed;
      }
    }
  }

  lemma NothingPrinted(spaced: bool)
    ensures LinesOf([]) == Lines([], false) && Prefixed(Cleaned([]), spaced) == []
  {
  }

  function Prefixed(lines: seq<string>, spaced: bool): seq<string> {
    if lines == [] then []
    else [(if spaced then "data: " else "data:") + lines[0]] + Prefixed(lines[1..], spaced)
  }

  lemma PrefixedCleaned(lines: seq<string>, n: nat, spaced: bool)
    requires 0 < n <= |lines|
    ensures Prefixed(Cleaned(lines[..n]), spaced)
         == [(if spaced then "data: " else "data:") + RStripBreaks(lines[0])]
            + Prefixed(Cleaned(lines[1..][..n - 1]), spaced)
  {
    hide RStripBreaks;
    var clean := Cleaned(lines[..n]);
    assert lines[..n][1..] == lines[1..][..n - 1];
    assert clean[0] == RStripBreaks(lines[0]) && clean[1..] == Cleaned(lines[1..][..n - 1]);
  }

  function AllCarried(lines: seq<string>, spaced: bool): seq<string> {
    seq(|lines|, i requires 0 <= i < |lines| => Carried(lines[i], spaced))
  }

  lemma {:induction false} FeedPrefixed(lines: seq<string>, spaced: bool, data: seq<string>)
    ensures Feed(Prefixed(lines, spaced), data) == Scan([], data + AllCarried(lines, spaced))
  {
    if lines == [] {
      assert data + AllCarried(lines, spaced) == data;
    } else {
      var p, l := Prefixed(lines, spaced), lines[0];
      assert p[0] == (if spaced then "data: " else "data:") + l && p[1..] == Prefixed(lines[1..], spaced);
      StepPrinted(l, spaced, data);
      FeedPrefixed(lines[1..], spaced, data + [Carried(l, spaced)]);
      hide Step, Prefixed, Carried;
      Assoc(data, [Carried(l, spaced)], AllCarried(lines[1..], spaced));
      assert AllCarried(lines, spaced) == [Carried(l, spaced)] + AllCarried(lines[1..], spaced);
    }
  }

  /** A printed event comes back without the carriage returns that end its lines, or not at all
      when one of its lines is too long. */
  lemma PrintedEvent(e: string, spaced: bool)
    ensures var lines := SplitLines(e);
            var a := PrintLines(lines, spaced);
            && WholeLines(a) && (LinesOf(a).oversized <==> Fitting(lines, spaced) < |lines|)
            && Events(a) == if LinesOf(a).oversized then [] else [JoinLines(ReadBack(lines, spaced))]
  {
    hide RStripBreaks, Carried, SplitLines, JoinLines, Fitting, PrintLines, Prefixed, LinesOf;
    var lines := SplitLines(e);
    SplitClean(e);
    PrintedWhole(lines, spaced);
    PrintedLines(lines, spaced);
    var n := Fitting(lines, spaced);
    var clean := Cleaned(lines[..n]);
    FeedPrefixed(clean, spaced, []);
    var data := AllCarried(clean, spaced);
    NothingAdded(data);
    assert data == ReadBack(lines[..n], spaced);
    if n == |lines| {
      assert lines[..n] == lines;
      NothingAdded(Pending(data));
    }
  }

  lemma {:induction false} StripShortens(s: string)
    requires '\n' !in s
    ensures |RStripBreaks(s)| <= |s|
    ensures RStripBreaks(s) == s <==> !EndsWith(s, "\r")
    ensures RStripBreaks(s) != s ==> |RStripBreaks(s)| < |s|
  {
    if s != "" {
      assert s[|s| - 1..] == [s[|s| - 1]];
      StripShortens(s[..|s| - 1]);
    }
  }

  /** The line comes back as it was printed. */
  predicate Unchanged(l: string, spaced: bool) {
    !EndsWith(l, "\r") && (spaced || !StartsWith(l, " "))
  }

  lemma CarriedShortens(l: string, spaced: bool)
    requires '\n' !in l
    ensures var r := Carried(RStripBreaks(l), spaced);
            && |r| <= |l| && (r == l <==> Unchanged(l, spaced)) && (r != l ==> |r| < |l|)
  {
    StripShortens(l);
    hide RStripBreaks;
  }

  /** Reading back changes the joined text exactly when it changes a line. */
  lemma {:induction false} JoinReadBack(lines: seq<string>, spaced: bool)
    requires lines != [] && forall l :: l in lines ==> '\n' !in l
    ensures var joined := JoinLines(ReadBack(lines, spaced));
            && |joined| <= |JoinLines(lines)|
            && (joined == JoinLines(lines) <==> forall l :: l in lines ==> Unchanged(l, spaced))
            && (joined != JoinLines(lines) ==> |joined| < |JoinLines(lines)|)
  {
    hide RStripBreaks, Unchanged, Carried;
    var l, rest := lines[0], lines[1..];
    CarriedShortens(l, spaced);
    var r := Carried(RStripBreaks(l), spaced);
    assert lines == [l] + rest && ReadBack(lines, spaced) == [r] + ReadBack(rest, spaced);
    if rest != [] {
      JoinReadBack(rest, spaced);
      JoinCons(l, rest);
      JoinCons(r, ReadBack(rest, spaced));
      hide JoinLines;
      SameHead(r, l, JoinLines(ReadBack(rest, spaced)), JoinLines(rest));
    }
  }

  lemma SameHead(a: string, b: string, x: string, y: string)
    requires |a| <= |b| && |x| <= |y|
    ensures a + "\n" + x == b + "\n" + y <==> a == b && x == y
  {
    var s, t := a + "\n" + x, b + "\n" + y;
    if s == t {
      assert |s| == |t|;
      assert s[..|a|] == a && t[..|b|] == b;
      assert s[|a| + 1..] == x && t[|b| + 1..] == y;
    }
  }

  lemma PrintableExact(e: string, spaced: bool)
    ensures var lines := SplitLines(e);
            Printable(e, spaced) <==> Fitting(lines, spaced) == |lines| && JoinLines(ReadBack(lines, spaced)) == e
  {
    hide EndsWith, PrintLine, StartsWith;
    var lines, n := SplitLines(e), Fitting(SplitLines(e), spaced);
    SplitClean(e);
    JoinSplit(e);
    JoinReadBack(lines, spaced);
    if n < |lines| {
      assert lines[n] in lines;
    } else {
      forall l | l in lines
        ensures |PrintLine(l, spaced)| <= LINE_LIMIT
      {
        var i :| 0 <= i < |lines| && lines[i] == l;
      }
    }
  }

  /** Parsing gives back exactly the events that were printed, with the optional space or without
      it, if and only if all are printable that way. */
  lemma {:induction false} RoundTrip(events: seq<string>, spaced: bool)
    ensures Events(PrintEvents(events, spaced)) == events <==> forall e :: e in events ==> Printable(e, spaced)
    ensures (forall e :: e in events ==> Printable(e, spaced)) ==> !LinesOf(PrintEvents(events, spaced)).oversized
  {
    hide Printable, ReadBack, SplitLines, JoinLines, Fitting;
    if events == [] {
      assert LinesOf([]) == Lines([], false);
    } else {
      var e, rest := events[0], events[1..];
      assert [e] + rest == events;
      var a := PrintLines(SplitLines(e), spaced);
      PrintedEvent(e, spaced);
      PrintableExact(e, spaced);
      RoundTrip(rest, spaced);
      if LinesOf(a).oversized {
        LinesConcat(a, [LF] + PrintEvents(rest, spaced));
        Assoc(a, [LF], PrintEvents(rest, spaced));
      } else {
        SplitsAtBlankLines(a, PrintEvents(rest, spaced));
      }
    }
  }
}
