/** Section 9.2.6 "Interpreting an event stream" of the WHATWG HTML Living Standard, as an
    independent reference for SseEvents: the whole stream is decoded first, lines end at CRLF,
    LF or CR, and dispatched data comes from a text buffer. */
module EventStreamStandard {
  import opened Text
  import opened Utf8
  import opened SseEvents

  datatype Interpretation = Interpretation(dispatched: seq<string>, buffer: string)

  /** Dispatching resets the buffer; an empty buffer dispatches nothing. */
  function Dispatch(buffer: string): seq<string> {
    if buffer == "" then []
    else [if buffer[|buffer| - 1] == '\n' then buffer[..|buffer| - 1] else buffer]
  }

  function ProcessField(field: string, value: string, buffer: string): string {
    if field == "data" then buffer + value + "\n" else buffer
  }

  /** The standard's own rule for a value: one U+0020 in front of it is removed. */
  function WithoutLeadingSpace(value: string): string {
    if |value| > 0 && value[0] as int == 0x20 then value[1..] else value
  }

  function ProcessLine(line: string, buffer: string): string
    requires line != ""
  {
    var c := Find(line, ':');
    if c == 0 then buffer
    else if c < |line| then ProcessField(line[..c], WithoutLeadingSpace(line[c + 1..]), buffer)
    else ProcessField(line, "", buffer)
  }

  function Interpret(t: string, buffer: string): Interpretation
    decreases |t|
  {
    if t == "" then Interpretation([], buffer)
    else
      var line := t[..FirstBreak(t)];
      if line == "" then
        var r := Interpret(AfterBreak(t), "");
        Interpretation(Dispatch(buffer) + r.dispatched, r.buffer)
      else
        Interpret(AfterBreak(t), ProcessLine(line, buffer))
  }

  /** The decoder drops one leading byte order mark. */
  function DropBom(t: string): string {
    if StartsWith(t, "\U{FEFF}") then t[1..] else t
  }

  function Standard(b: seq<byte>): Interpretation {
    Interpret(DropBom(Decode(b)), "")
  }

  /** What the standard dispatches, and then the event it would drop at end of stream. */
  function WithPending(r: Interpretation): seq<string> {
    r.dispatched + Dispatch(r.buffer)
  }

  // ---------------------------------------------------------------- the streams compared

  predicate NoBareCr(t: string) {
    forall i :: 0 <= i < |t| && t[i] == '\r' ==> i + 1 < |t| && t[i + 1] == '\n'
  }

  predicate NoBom(t: string) {
    DropBom(t) == t
  }

  // ---------------------------------------------------------------- line by line

  /** The reference run over lines already split. */
  function InterpretLines(lines: seq<string>, buffer: string): Interpretation {
    if lines == [] then Interpretation([], buffer)
    else if lines[0] == "" then
      var r := InterpretLines(lines[1..], "");
      Interpretation(Dispatch(buffer) + r.dispatched, r.buffer)
    else
      InterpretLines(lines[1..], ProcessLine(lines[0], buffer))
  }

  lemma {:induction false} StripOneCr(h: string)
    requires forall i :: 0 <= i < |h| - 1 ==> !IsBreak(h[i])
    requires h != "" ==> h[|h| - 1] != '\n'
    ensures RStripBreaks(h + "\n") == if h != "" && h[|h| - 1] == '\r' then h[..|h| - 1] else h
  {
    assert (h + "\n")[..|h|] == h;
    if h != "" && h[|h| - 1] == '\r' {
      var g := h[..|h| - 1];
      assert g != "" ==> !IsBreak(g[|g| - 1]);
      assert RStripBreaks(h) == RStripBreaks(g) == g;
    }
  }

  lemma DecodeJoin(a: seq<byte>, c: seq<byte>)
    ensures Decode(a + [LF] + c) == Decode(a) + "\n" + Decode(c)
  {
    var d := [LF] + c;
    Assoc(a, [LF], c);
    DecodeConcat(a, d);
    assert d[1..] == c;
    assert Decode(d) == ['\n'] + Decode(c);
    hide Decode;
    Assoc(Decode(a), "\n", Decode(c));
  }

  lemma DecodeAtLf(b: seq<byte>, n: nat)
    requires n == Find(b, LF) && n < |b|
    ensures Decode(b) == Decode(b[..n]) + "\n" + Decode(b[n + 1..])
    ensures '\n' !in Decode(b[..n])
    ensures Decode(b[..n + 1]) == Decode(b[..n]) + "\n"
  {
    hide Decode;
    DecodeNoLf(b[..n]);
    DecodeLine(b[..n]);
    assert b[..n + 1] == b[..n] + [LF];
    assert b == b[..n] + [LF] + b[n + 1..];
    DecodeJoin(b[..n], b[n + 1..]);
  }

  /** The standard's first line of a text whose first LF follows `h`. */
  lemma FirstBreakAt(h: string, rest: string)
    requires '\n' !in h && NoBareCr(h + "\n" + rest)
    ensures var t := h + "\n" + rest;
            && NoBareCr(rest) && AfterBreak(t) == rest
            && t[..FirstBreak(t)] == RStripBreaks(h + "\n")
  {
    var t := h + "\n" + rest;
    assert t[|h|] == '\n' && t[|h| + 1..] == rest;
    assert forall i :: 0 <= i < |h| ==> t[i] == h[i];
    forall i | 0 <= i < |h| - 1
      ensures !IsBreak(h[i])
    {
      assert t[i] == h[i] && t[i + 1] == h[i + 1];
    }
    StripOneCr(h);
    var cr := h != "" && h[|h| - 1] == '\r';
    assert FirstBreak(t) == if cr then |h| - 1 else |h|;
    assert t[..|h|] == h;
    assert cr ==> t[..|h| - 1] == h[..|h| - 1];
    assert forall i :: 0 <= i < |rest| ==> t[|h| + 1 + i] == rest[i];
  }

  /** Where the first LF-terminated line of the bytes ends, the standard's first line ends too. */
  lemma FirstLine(b: seq<byte>, n: nat)
    requires n == Find(b, LF) && n < |b| && NoBareCr(Decode(b))
    ensures var t := Decode(b);
            && t != "" && NoBareCr(AfterBreak(t))
            && AfterBreak(t) == Decode(b[n + 1..])
            && t[..FirstBreak(t)] == LineText(b[..n + 1])
  {
    DecodeAtLf(b, n);
    FirstBreakAt(Decode(b[..n]), Decode(b[n + 1..]));
  }

  lemma LastLine(b: seq<byte>)
    requires b != [] && LF !in b && NoBareCr(Decode(b))
    ensures var t := Decode(b);
            t != "" && FirstBreak(t) == |t| && LineText(b) == t
  {
    var t := Decode(b);
    DecodeNoLf(b);
    forall i | 0 <= i < |t|
      ensures !IsBreak(t[i])
    {
      assert i + 1 < |t| ==> t[i + 1] != '\n';
    }
  }

  /** Decoding everything and splitting the text finds the lines that splitting the bytes
      and decoding each piece finds, for valid and for ill-formed UTF-8 alike. */
  lemma {:induction false} SameLines(b: seq<byte>, buffer: string)
    requires NoBareCr(Decode(b)) && !LinesOf(b).oversized
    ensures Interpret(Decode(b), buffer) == InterpretLines(LinesOf(b).texts, buffer)
    decreases |b|
  {
    if b != [] {
      var raw, n := ReadLine(b), Find(b, LF);
      var t := Decode(b);
      var line := LineText(raw);
      if n < |b| {
        assert raw == b[..n + 1];
        FirstLine(b, n);
      } else {
        assert raw == b && b[|b|..] == [];
        LastLine(b);
        assert t[..|t|] == t && Decode([]) == "";
      }
      assert t[..FirstBreak(t)] == line && AfterBreak(t) == Decode(b[|raw|..]);
      var next := if line == "" then "" else ProcessLine(line, buffer);
      SameLines(b[|raw|..], next);
      assert LinesOf(b).texts[1..] == LinesOf(b[|raw|..]).texts;
    }
  }

  // ---------------------------------------------------------------- agreement

  /** The standard's buffer holding the lines `data`. */
  function Buffer(data: seq<string>): string {
    if data == [] then "" else data[0] + "\n" + Buffer(data[1..])
  }

  lemma {:induction false} BufferSnoc(data: seq<string>, v: string)
    ensures Buffer(data + [v]) == Buffer(data) + v + "\n"
  {
    if data == [] {
      assert [] + [v] == [v];
      assert [v][1..] == [];
      assert v + "\n" + "" == v + "\n";
    } else {
      assert (data + [v])[1..] == data[1..] + [v];
      BufferSnoc(data[1..], v);
    }
  }

  lemma {:induction false} BufferJoin(data: seq<string>)
    requires data != []
    ensures Buffer(data) == JoinLines(data) + "\n"
  {
    if |data| == 1 {
      assert data[0] + "\n" + "" == data[0] + "\n";
    } else {
      BufferJoin(data[1..]);
    }
  }

  lemma DispatchBuffer(data: seq<string>)
    ensures Dispatch(Buffer(data)) == Pending(data)
  {
    if data != [] {
      BufferJoin(data);
      assert (JoinLines(data) + "\n")[..|JoinLines(data)|] == JoinLines(data);
    }
  }

  lemma DataField(line: string)
    ensures var c := Find(line, ':');
            c < |line| && line[..c] == "data" ==> StartsWith(line, "data:")
  {
    var c := Find(line, ':');
    if c < |line| && line[..c] == "data" {
      assert line == line[..c] + [line[c]] + line[c + 1..];
    }
  }

  /** One line has the same effect on both sides, unless it is a bare "data". */
  lemma SameStep(line: string, data: seq<string>)
    requires line != ""
    ensures line != "data" ==> ProcessLine(line, Buffer(data)) == Buffer(Step(line, data).data)
    ensures line == "data" ==> ProcessLine(line, Buffer(data)) == Buffer(data + [""]) && Step(line, data).data == data
  {
    var c := Find(line, ':');
    DataField(line);
    if StartsWith(line, "data:") {
      assert forall i :: 0 <= i < 5 ==> line[i] == "data:"[i];
      FindIs(line, ':', 4);
      assert line[..4] == "data";
      BufferSnoc(data, DropOneSpace(line[5..]));
    } else if line == "data" {
      FindIs(line, ':', 4);
      BufferSnoc(data, "");
      assert Buffer(data) + "" + "\n" == Buffer(data) + "\n";
    }
  }

  lemma {:induction false} SameEvents(lines: seq<string>, data: seq<string>)
    requires "data" !in lines
    ensures var s := Feed(lines, data);
            InterpretLines(lines, Buffer(data)) == Interpretation(s.events, Buffer(s.data))
  {
    if lines != [] {
      var t := Step(lines[0], data);
      if lines[0] == "" {
        DispatchBuffer(data);
      } else {
        SameStep(lines[0], data);
        assert [] + Feed(lines[1..], t.data).events == Feed(lines[1..], t.data).events;
      }
      SameEvents(lines[1..], t.data);
    }
  }

  // ---------------------------------------------------------------- exactness

  function Breaks(s: string): nat {
    if s == "" then 0 else (if s[0] == '\n' then 1 else 0) + Breaks(s[1..])
  }

  lemma {:induction false} BreaksConcat(a: string, b: string)
    ensures Breaks(a + b) == Breaks(a) + Breaks(b)
  {
    if a == "" {
      assert a + b == b;
    } else {
      assert (a + b)[1..] == a[1..] + b;
      BreaksConcat(a[1..], b);
    }
  }

  /** The number of data lines a list of events was built from. */
  function DataLines(events: seq<string>): nat {
    if events == [] then 0 else 1 + Breaks(events[0]) + DataLines(events[1..])
  }

  lemma {:induction false} DataLinesConcat(a: seq<string>, b: seq<string>)
    ensures DataLines(a + b) == DataLines(a) + DataLines(b)
  {
    if a == [] {
      assert a + b == b;
    } else {
      assert (a + b)[1..] == a[1..] + b;
      DataLinesConcat(a[1..], b);
    }
  }

  function BareData(lines: seq<string>): nat {
    if lines == [] then 0 else (if lines[0] == "data" then 1 else 0) + BareData(lines[1..])
  }

  lemma {:induction false} BareDataZero(lines: seq<string>)
    ensures BareData(lines) == 0 <==> "data" !in lines
  {
    if lines != [] {
      BareDataZero(lines[1..]);
      assert "data" in lines <==> lines[0] == "data" || "data" in lines[1..];
    }
  }

  lemma DispatchWeight(buffer: string)
    requires buffer != "" ==> buffer[|buffer| - 1] == '\n'
    ensures DataLines(Dispatch(buffer)) == Breaks(buffer)
  {
    if buffer != "" {
      var e := buffer[..|buffer| - 1];
      assert buffer == e + "\n";
      BreaksConcat(e, "\n");
      assert Dispatch(buffer) == [e] && [e][1..] == [];
    }
  }

  lemma {:induction false} BufferEnds(data: seq<string>)
    ensures Buffer(data) != "" ==> Buffer(data)[|Buffer(data)| - 1] == '\n'
  {
    if data != [] { BufferEnds(data[1..]); }
  }

  /** Reading `lines`, with `std` collected by the standard and `data` by html_studio.py,
      the standard delivers one data line more for every colon-less "data" line. */
  ghost predicate Extra(lines: seq<string>, std: seq<string>, data: seq<string>) {
    var s := Feed(lines, data);
    var r := InterpretLines(lines, Buffer(std));
    && DataLines(WithPending(r)) + Breaks(Buffer(data))
    == DataLines(s.events + Pending(s.data)) + Breaks(Buffer(std)) + BareData(lines)
  }

  lemma ExtraBlank(lines: seq<string>, std: seq<string>, data: seq<string>)
    requires lines != [] && lines[0] == "" && Extra(lines[1..], [], [])
    ensures Extra(lines, std, data)
  {
    ExtraAtEnd(std, data);
    var s, r := Feed(lines[1..], []), InterpretLines(lines[1..], "");
    DataLinesConcat3(Pending(data), s.events, Pending(s.data));
    DataLinesConcat3(Dispatch(Buffer(std)), r.dispatched, Dispatch(r.buffer));
  }

  lemma ExtraField(lines: seq<string>, std: seq<string>, data: seq<string>)
    requires lines != [] && lines[0] != ""
    requires Extra(lines[1..], std + StepLines(lines[0]), Step(lines[0], data).data)
    ensures Extra(lines, std, data)
  {
    ExtraStep(lines[0], std, data);
    var s := Feed(lines[1..], Step(lines[0], data).data);
    assert [] + s.events == s.events;
  }

  lemma {:induction false} ExtraLines(lines: seq<string>, std: seq<string>, data: seq<string>)
    ensures Extra(lines, std, data)
  {
    if lines == [] {
      ExtraAtEnd(std, data);
      assert [] + Pending(data) == Pending(data);
      assert [] + Dispatch(Buffer(std)) == Dispatch(Buffer(std));
    } else if lines[0] == "" {
      ExtraLines(lines[1..], [], []);
      ExtraBlank(lines, std, data);
    } else {
      ExtraLines(lines[1..], std + StepLines(lines[0]), Step(lines[0], data).data);
      ExtraField(lines, std, data);
    }
  }

  lemma DataLinesConcat3(a: seq<string>, b: seq<string>, c: seq<string>)
    ensures DataLines(a + b + c) == DataLines(a) + DataLines(b + c)
  {
    Assoc(a, b, c);
    DataLinesConcat(a, b + c);
  }

  lemma ExtraAtEnd(std: seq<string>, data: seq<string>)
    ensures Buffer(std) != "" ==> Buffer(std)[|Buffer(std)| - 1] == '\n'
    ensures DataLines(Pending(data)) == Breaks(Buffer(data))
    ensures DataLines(Dispatch(Buffer(std))) == Breaks(Buffer(std))
  {
    BufferEnds(std);
    BufferEnds(data);
    DispatchBuffer(data);
    DispatchWeight(Buffer(data));
    DispatchWeight(Buffer(std));
  }

  /** The data lines the standard takes from one non-empty line. */
  function StepLines(line: string): seq<string> {
    if line == "data" then [""] else Step(line, []).data
  }

  lemma ExtraStep(line: string, std: seq<string>, data: seq<string>)
    requires line != ""
    ensures ProcessLine(line, Buffer(std)) == Buffer(std + StepLines(line))
    ensures Breaks(Buffer(std + StepLines(line))) + Breaks(Buffer(data))
         == Breaks(Buffer(Step(line, data).data)) + Breaks(Buffer(std)) + (if line == "data" then 1 else 0)
  {
    SameStep(line, std);
    assert std + [] == std && [] + [DropOneSpace(line[|line|..])] == [DropOneSpace(line[|line|..])];
    if line == "data" {
      BufferSnoc(std, "");
      BreaksConcat(Buffer(std) + "", "\n");
      assert Buffer(std) + "" == Buffer(std);
    } else if StartsWith(line, "data:") {
      var v := DropOneSpace(line[5..]);
      assert [] + [v] == [v];
      BufferBreaks(std, v);
      BufferBreaks(data, v);
    }
  }

  lemma BufferBreaks(data: seq<string>, v: string)
    ensures Breaks(Buffer(data + [v])) == Breaks(Buffer(data)) + Breaks(v) + 1
  {
    BufferSnoc(data, v);
    BreaksConcat(Buffer(data) + v, "\n");
    BreaksConcat(Buffer(data), v);
  }

  /** On streams with LF or CRLF endings and no byte order mark, whatever their bytes,
      html_studio.py yields the standard's events, and the pending one besides, exactly
      when no line is a colon-less "data". */
  lemma AgreesWithStandard(b: seq<byte>)
    requires NoBareCr(Decode(b)) && NoBom(Decode(b)) && !LinesOf(b).oversized
    ensures Events(b) == WithPending(Standard(b)) <==> "data" !in LinesOf(b).texts
  {
    var lines := LinesOf(b).texts;
    SameLines(b, "");
    var s := Feed(lines, []);
    if "data" !in lines {
      SameEvents(lines, []);
      DispatchBuffer(s.data);
    } else {
      BareDataZero(lines);
      ExtraLines(lines, [], []);
    }
  }

  // ---------------------------------------------------------------- byte order mark

  const BOM: seq<byte> := [0xEF, 0xBB, 0xBF]

  lemma DecodeBom(b: seq<byte>)
    ensures Decode(BOM + b) == "\U{FEFF}" + Decode(b)
  {
    var t := BOM + b;
    assert t[0] == 0xEF && t[1] == 0xBB && t[2] == 0xBF;
    assert DecodeOne(t) == ('\U{FEFF}', 3);
    assert t[3..] == b;
  }

  /** With a byte order mark in front, html_studio.py sees the same lines but for the first. */
  lemma LinesAfterBom(b: seq<byte>)
    requires b != [] && !LinesOf(BOM + b).oversized
    ensures var x, y := LinesOf(BOM + b), LinesOf(b);
            && !y.oversized && y.texts != []
            && x.texts == ["\U{FEFF}" + y.texts[0]] + y.texts[1..]
  {
    hide LineText, Find, Decode, ReadLine;
    FirstReadAfterBom(b);
    var raw := ReadLine(b);
    LinesUnfold(BOM + b);
    LinesUnfold(b);
    assert (BOM + b)[|BOM + raw|..] == b[|raw|..];
    TextAfterBom(raw);
    assert ([LineText(raw)] + LinesOf(b[|raw|..]).texts)[1..] == LinesOf(b[|raw|..]).texts;
  }

  lemma FirstReadAfterBom(b: seq<byte>)
    requires b != [] && |ReadLine(BOM + b)| <= LINE_LIMIT
    ensures ReadLine(BOM + b) == BOM + ReadLine(b)
  {
    var t, n := BOM + b, Find(b, LF);
    FindIs(t, LF, n + 3);
    var end := if n < |b| then n + 1 else n;
    assert ReadLine(t) == t[..end + 3];
    assert t[..end + 3] == BOM + b[..end];
  }

  lemma TextAfterBom(raw: seq<byte>)
    ensures LineText(BOM + raw) == "\U{FEFF}" + LineText(raw)
  {
    DecodeBom(raw);
    RStripBreaksBehind("\U{FEFF}", Decode(raw));
  }

  lemma LinesUnfold(b: seq<byte>)
    requires b != []
    ensures var raw := ReadLine(b);
            LinesOf(b) == if |raw| > LINE_LIMIT then Lines([], true)
                          else Lines([LineText(raw)] + LinesOf(b[|raw|..]).texts, LinesOf(b[|raw|..]).oversized)
  {
  }

  /** The data line the standard takes from the first line. */
  function FirstData(lines: seq<string>): seq<string> {
    if lines == [] || lines[0] == "" then [] else StepLines(lines[0])
  }

  lemma InterpretFirst(lines: seq<string>)
    requires lines != []
    ensures WithPending(InterpretLines(lines, "")) == WithPending(InterpretLines(lines[1..], Buffer(FirstData(lines))))
  {
    if lines[0] == "" {
      NothingAdded(InterpretLines(lines[1..], "").dispatched);
    } else {
      ExtraStep(lines[0], [], []);
      NothingAdded(StepLines(lines[0]));
    }
  }

  lemma IgnoredFirst(line: string, rest: seq<string>)
    requires line != "" && !StartsWith(line, "data:")
    ensures Feed([line] + rest, []) == Feed(rest, [])
  {
    assert ([line] + rest)[1..] == rest;
    NothingAdded(Feed(rest, []).events);
  }

  lemma AfterBomCount(lines: seq<string>)
    requires lines != []
    ensures var s := Feed(lines[1..], []);
            (s.events + Pending(s.data) == WithPending(InterpretLines(lines, ""))) <==>
            ("data" !in lines && !StartsWith(lines[0], "data:"))
  {
    var rest, first := lines[1..], FirstData(lines);
    InterpretFirst(lines);
    ExtraLines(rest, first, []);
    BareDataZero(rest);
    assert "data" in lines <==> lines[0] == "data" || "data" in rest;
    if first == [] {
      if "data" !in rest {
        SameEvents(rest, []);
        DispatchBuffer(Feed(rest, []).data);
      }
    } else {
      assert first == [first[0]] && [] + first == first;
      BufferBreaks([], first[0]);
    }
    FirstDataExact(lines);
  }

  lemma FirstDataExact(lines: seq<string>)
    requires lines != []
    ensures FirstData(lines) == [] <==> lines[0] != "data" && !StartsWith(lines[0], "data:")
    ensures |FirstData(lines)| <= 1
  {
  }

  /** After a byte order mark, which the standard drops and html_studio.py keeps, the two agree
      exactly when no line is a bare "data" and the first line carries no data at all. */
  lemma AgreesAfterBom(b: seq<byte>)
    requires NoBareCr(Decode(b)) && !LinesOf(BOM + b).oversized
    ensures Events(BOM + b) == WithPending(Standard(BOM + b)) <==>
            b == [] || ("data" !in LinesOf(b).texts && !StartsWith(LinesOf(b).texts[0], "data:"))
  {
    hide Decode, LinesOf, Interpret, InterpretLines, Feed;
    StandardAfterBom(b);
    if b == [] {
      OnlyBom();
    } else {
      LinesAfterBom(b);
      var lines := LinesOf(b).texts;
      SameLines(b, "");
      assert ("\U{FEFF}" + lines[0])[0] == '\U{FEFF}';
      IgnoredFirst("\U{FEFF}" + lines[0], lines[1..]);
      AfterBomCount(lines);
    }
  }

  lemma StandardAfterBom(b: seq<byte>)
    ensures Standard(BOM + b) == Interpret(Decode(b), "")
  {
    DecodeBom(b);
    hide Decode, Interpret;
    assert ("\U{FEFF}" + Decode(b))[1..] == Decode(b);
    assert ("\U{FEFF}" + Decode(b))[..1] == "\U{FEFF}";
  }

  lemma OnlyBom()
    ensures Events(BOM + []) == []
    ensures WithPending(Interpret(Decode([]), "")) == []
  {
    assert BOM + [] == BOM && Find(BOM, LF) == 3;
    assert ReadLine(BOM) == BOM && BOM[3..] == [];
    assert LinesOf(BOM) == Lines([LineText(BOM)] + LinesOf([]).texts, LinesOf([]).oversized);
    DecodeBom([]);
    assert Decode(BOM) == "\U{FEFF}" + Decode([]);
    RStripBreaksBehind("\U{FEFF}", "");
    IgnoredFirst("\U{FEFF}", []);
  }

  // ---------------------------------------------------------------- bare carriage returns

  lemma ProcessNoCr(line: string, buffer: string)
    requires line != "" && '\r' !in line && '\r' !in buffer
    ensures '\r' !in ProcessLine(line, buffer)
  {
  }

  lemma {:induction false} StandardNoCr(t: string, buffer: string)
    requires '\r' !in buffer
    ensures var r := Interpret(t, buffer);
            '\r' !in r.buffer && forall e :: e in r.dispatched ==> '\r' !in e
    decreases |t|
  {
    hide ProcessLine;
    if t != "" {
      var line := t[..FirstBreak(t)];
      assert '\r' !in line;
      if line == "" {
        StandardNoCr(AfterBreak(t), "");
      } else {
        ProcessNoCr(line, buffer);
        StandardNoCr(AfterBreak(t), ProcessLine(line, buffer));
      }
    }
  }

  ghost predicate HasCr(lines: seq<string>) {
    exists l :: l in lines && '\r' in l
  }

  lemma HasCrConcat(a: seq<string>, b: seq<string>)
    ensures HasCr(a + b) <==> HasCr(a) || HasCr(b)
  {
    assert forall l :: l in a + b <==> l in a || l in b;
  }

  lemma {:induction false} JoinHasCr(lines: seq<string>)
    ensures '\r' in JoinLines(lines) <==> HasCr(lines)
    ensures HasCr(Pending(lines)) <==> HasCr(lines)
  {
    if |lines| == 1 {
      assert lines == [lines[0]];
    } else if lines != [] {
      JoinHasCr(lines[1..]);
      HasCrConcat([lines[0]], lines[1..]);
      assert lines == [lines[0]] + lines[1..];
    }
    assert forall e :: e in Pending(lines) <==> lines != [] && e == JoinLines(lines);
  }

  /** A data line with a carriage return left after the trailing ones are stripped. */
  predicate KeepsCr(line: string) {
    StartsWith(line, "data:") && '\r' in line[5..]
  }

  lemma StepHasCr(line: string, data: seq<string>)
    ensures var s := Step(line, data);
            && (HasCr(s.events) <==> line == "" && HasCr(data))
            && (HasCr(s.data) <==> line != "" && (HasCr(data) || KeepsCr(line)))
  {
    JoinHasCr(data);
    hide JoinLines;
    if StartsWith(line, "data:") {
      var value := DropOneSpace(line[5..]);
      assert '\r' in value <==> '\r' in line[5..] by {
        if StartsWith(line[5..], " ") { assert line[5..] == " " + value; }
      }
      HasCrConcat(data, [value]);
    }
  }

  /** Some data line with a carriage return is delivered: the stream ends well, or a blank line
      comes after it. */
  ghost predicate DeliversCr(lines: seq<string>, end: bool) {
    exists i :: 0 <= i < |lines| && KeepsCr(lines[i]) && (end || "" in lines[i + 1..])
  }

  lemma DeliversFirst(lines: seq<string>, end: bool)
    requires lines != []
    ensures DeliversCr(lines, end) <==>
            (KeepsCr(lines[0]) && (end || "" in lines[1..])) || DeliversCr(lines[1..], end)
  {
    var rest := lines[1..];
    forall i | 0 <= i < |rest|
      ensures rest[i] == lines[i + 1] && rest[i + 1..] == lines[i + 2..]
    {
    }
    if i :| 0 <= i < |lines| && KeepsCr(lines[i]) && (end || "" in lines[i + 1..]) {
      if i > 0 { assert KeepsCr(rest[i - 1]) && rest[i - 1 + 1..] == lines[i + 1..]; }
    }
    if i :| 0 <= i < |rest| && KeepsCr(rest[i]) && (end || "" in rest[i + 1..]) {
      assert KeepsCr(lines[i + 1]) && rest[i + 1..] == lines[i + 1 + 1..];
    }
  }

  /** What is pending at the end, where it is delivered. */
  function AtEnd(data: seq<string>, end: bool): seq<string> {
    if end then Pending(data) else []
  }

  lemma {:induction false} FeedHasCr(lines: seq<string>, data: seq<string>, end: bool)
    ensures var s := Feed(lines, data);
            HasCr(s.events + AtEnd(s.data, end)) <==>
            (HasCr(data) && (end || "" in lines)) || DeliversCr(lines, end)
  {
    hide HasCr, KeepsCr, DeliversCr, Step;
    NoCr();
    if lines == [] {
      JoinHasCr(data);
      HasCrConcat([], AtEnd(data, end));
      NothingDelivered(end);
    } else {
      var t := Step(lines[0], data);
      var s := Feed(lines[1..], t.data);
      FeedHasCr(lines[1..], t.data, end);
      StepHasCr(lines[0], data);
      DeliversFirst(lines, end);
      BlankKeepsNoCr();
      Assoc(t.events, s.events, AtEnd(s.data, end));
      HasCrConcat(t.events, s.events + AtEnd(s.data, end));
      assert "" in lines <==> lines[0] == "" || "" in lines[1..];
    }
  }

  lemma NoCr()
    ensures !HasCr([])
  {
  }

  lemma NothingDelivered(end: bool)
    ensures !DeliversCr([], end)
  {
  }

  lemma BlankKeepsNoCr()
    ensures !KeepsCr("")
  {
  }

  /** html_studio.py delivers a carriage return inside an event exactly when a data line keeps one
      and is delivered; and each time that is a disagreement: the standard ends a line there. */
  lemma CrInEventDisagrees(b: seq<byte>)
    ensures HasCr(Events(b)) <==> DeliversCr(LinesOf(b).texts, !LinesOf(b).oversized)
    ensures HasCr(Events(b)) ==> Events(b) != WithPending(Standard(b))
  {
    hide Interpret, KeepsCr, LinesOf, Feed, DeliversCr;
    var l := LinesOf(b);
    FeedHasCr(l.texts, [], !l.oversized);
    NothingAdded(Feed(l.texts, []).events);
    StandardNoCr(DropBom(Decode(b)), "");
    assert forall x :: x in WithPending(Standard(b)) ==> '\r' !in x;
  }
}
