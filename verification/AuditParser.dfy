/** The exception-list parser of tools/check_pnpm_audit_exceptions.py. */
module AuditParser {
  import opened Text

  type Record = map<string, string>

  /** The parser raises ValueError on an item line that has no colon. */
  datatype Parsed = Records(records: seq<Record>) | NoColon

  // ---------------------------------------------------------------- lines

  /** Iterating over a file opened in text mode: LF, CR and CRLF all end a line. */
  function FileLines(text: string): seq<string>
    decreases |text|
  {
    if text == "" then [] else [text[..FirstBreak(text)]] + FileLines(AfterBreak(text))
  }

  predicate Quoted(v: string, quote: char) {
    StartsWith(v, [quote]) && EndsWith(v, [quote])
  }

  /** value[1:-1], also of a value that is a single quote. */
  function Unquote(v: string): string {
    if Quoted(v, '"') || Quoted(v, '\'') then (if |v| < 2 then "" else v[1..|v| - 1]) else v
  }

  function SplitKv(line: string): (string, string)
    requires ':' in line
  {
    var c := Find(line, ':');
    (Strip(line[..c]), Unquote(Strip(line[c + 1..])))
  }

  predicate Skipped(line: string) {
    || line == "" || StartsWith(line, "#")
    || StartsWith(line, "version:") || StartsWith(line, "exceptions:")
  }

  // ---------------------------------------------------------------- the parser as a fold

  /** The records finished so far, and the one being read. */
  datatype Reading = Reading(done: seq<Record>, current: Option<Record>)

  /** `if current:` is false for no record and for an empty one. */
  function Flushed(s: Reading): seq<Record> {
    if s.current.Some? && s.current.value != map[] then s.done + [s.current.value] else s.done
  }

  /** One line; None stands for the ValueError. */
  function Step(raw: string, s: Reading): Option<Reading> {
    var line := Strip(raw);
    if Skipped(line) then Some(s)
    else if StartsWith(line, "- ") then
      var item := Strip(line[2..]);
      if item == "" then Some(Reading(Flushed(s), Some(map[])))
      else if ':' !in item then None
      else var kv := SplitKv(item); Some(Reading(Flushed(s), Some(map[kv.0 := kv.1])))
    else if s.current.Some? && ':' in line then
      var kv := SplitKv(line); Some(s.(current := Some(s.current.value[kv.0 := kv.1])))
    else Some(s)
  }

  function Fold(lines: seq<string>, s: Reading): Option<Reading> {
    if lines == [] then Some(s)
    else
      var t := Step(lines[0], s);
      if t.None? then None else Fold(lines[1..], t.value)
  }

  const START := Reading([], None)

  function ParseText(text: string): Parsed {
    var r := Fold(FileLines(text), START);
    if r.None? then NoColon else Records(Flushed(r.value))
  }

  method ParseExceptions(text: string) returns (parsed: Parsed)
    ensures parsed == ParseText(text)
  {
    var lines := FileLines(text);
    var exceptions: seq<Record> := [];
    var current: Option<Record> := None;
    var i := 0;
    while i < |lines|
      invariant 0 <= i <= |lines|
      invariant Fold(lines, START) == Fold(lines[i..], Reading(exceptions, current))
    {
      assert lines[i..][1..] == lines[i + 1..];
      var line := Strip(lines[i]);
      i := i + 1;
      if Skipped(line) {
        continue;
      }
      if StartsWith(line, "- ") {
        if current.Some? && current.value != map[] {
          exceptions := exceptions + [current.value];
        }
        current := Some(map[]);
        var item := Strip(line[2..]);
        if item != "" {
          if ':' !in item {
            return NoColon;
          }
          var (key, value) := SplitKv(item);
          current := Some(map[key := value]);
        }
        continue;
      }
      if current.Some? && ':' in line {
        var (key, value) := SplitKv(line);
        current := Some(current.value[key := value]);
      }
    }
    if current.Some? && current.value != map[] {
      exceptions := exceptions + [current.value];
    }
    return Records(exceptions);
  }

  // ---------------------------------------------------------------- the printer

  /** How a value is written: as it is, or between quotes of either kind. */
  datatype Style = Plain | SingleQuoted | DoubleQuoted

  datatype Pair = Pair(key: string, value: string, style: Style)

  type Pairs = seq<Pair>

  function Written(v: string, style: Style): string {
    match style
    case Plain => v
    case SingleQuoted => "'" + v + "'"
    case DoubleQuoted => "\"" + v + "\""
  }

  function PairLine(kv: Pair): string {
    kv.key + ": " + Written(kv.value, kv.style)
  }

  function PrintPairs(pairs: Pairs): seq<string> {
    if pairs == [] then [] else ["    " + PairLine(pairs[0])] + PrintPairs(pairs[1..])
  }

  function PrintRecord(pairs: Pairs): seq<string>
    requires pairs != []
  {
    ["  - " + PairLine(pairs[0])] + PrintPairs(pairs[1..])
  }

  function PrintRecords(records: seq<Pairs>): seq<string>
    requires forall i :: 0 <= i < |records| ==> records[i] != []
  {
    if records == [] then [] else PrintRecord(records[0]) + PrintRecords(records[1..])
  }

  predicate LineEnd(nl: string) {
    nl == "\n" || nl == "\r" || nl == "\r\n"
  }

  function TextOf(lines: seq<string>, nl: string): string {
    if lines == [] then "" else lines[0] + nl + TextOf(lines[1..], nl)
  }

  predicate Unbroken(s: string) {
    forall c :: c in s ==> !IsBreak(c)
  }

  /** Keys that survive: trimmed, without colon or line break.  Quoted values need only be one
      line; others must not be blank at an edge or look quoted. */
  predicate PrintablePair(kv: Pair) {
    && Trimmed(kv.key) && ':' !in kv.key && Unbroken(kv.key) && Unbroken(kv.value)
    && (kv.style.Plain? ==> CanStandAlone(kv.value))
  }

  predicate CanStandAlone(v: string) {
    v != "" && Trimmed(v) && !(v[0] == v[|v| - 1] && v[0] in "'\"")
  }

  /** Keys whose line would be taken for something else when it is not the first of its item. */
  predicate Reserved(key: string) {
    StartsWith(key, "#") || key == "version" || key == "exceptions" || StartsWith(key, "- ")
  }

  predicate Printable(pairs: Pairs) {
    pairs != [] && forall i :: 0 <= i < |pairs| ==> PrintablePair(pairs[i])
  }

  predicate PrintableRecord(pairs: Pairs) {
    Printable(pairs) && forall i :: 1 <= i < |pairs| ==> !Reserved(pairs[i].key)
  }

  // ---------------------------------------------------------------- round trip

  lemma StripLeft(n: nat, s: string)
    requires n < |s| && (forall i :: 0 <= i < n ==> IsSpace(s[i])) && !IsSpace(s[n]) && !IsSpace(s[|s| - 1])
    ensures Strip(s) == s[n..]
  {
    LStripSpaces(n, s);
  }

  lemma UnquotePair(v: string, q: char)
    requires q == '\'' || q == '"'
    ensures Unquote([q] + v + [q]) == v
  {
    var t := [q] + v + [q];
    assert t[..1] == [q] && t[|t| - 1..] == [q] && t[1..|t| - 1] == v;
  }

  lemma UnquoteNothing(v: string)
    requires CanStandAlone(v)
    ensures Unquote(v) == v
  {
    assert v[..1] == [v[0]] && v[|v| - 1..] == [v[|v| - 1]];
  }

  /** Quotes of either kind are taken off in pairs, once; nothing else is. */
  lemma UnquoteExact(v: string)
    ensures Unquote("\"" + v + "\"") == v && Unquote("'" + v + "'") == v
    ensures CanStandAlone(v) ==> Unquote(v) == v
    ensures Unquote("") == Unquote("\"") == Unquote("'") == ""
  {
    UnquotePair(v, '"');
    UnquotePair(v, '\'');
    if CanStandAlone(v) { UnquoteNothing(v); }
    UnquoteShort();
    hide Unquote, CanStandAlone;
  }

  lemma UnquoteShort()
    ensures Unquote("") == Unquote("\"") == Unquote("'") == ""
  {
    assert "\""[..1] == "\"" && "\""[0..] == "\"";
    assert "'"[..1] == "'" && "'"[0..] == "'";
  }

  lemma WrittenEdges(kv: Pair)
    requires PrintablePair(kv)
    ensures var t := Written(kv.value, kv.style);
            t != "" && Trimmed(t) && Unquote(t) == kv.value
  {
    hide Unquote, IsBreak;
    UnquoteExact(kv.value);
  }

  lemma PairEdges(kv: Pair)
    requires PrintablePair(kv)
    ensures Trimmed(PairLine(kv)) && PairLine(kv) != ""
  {
    WrittenEdges(kv);
    hide Written;
    var k, line, t := kv.key, PairLine(kv), Written(kv.value, kv.style);
    assert line[|k|] == ':' && line[|line| - 1] == t[|t| - 1];
    assert k != "" ==> line[0] == k[0];
  }

  /** A printed pair is read back, whatever colons, quotes or spaces its value holds. */
  lemma SplitPair(kv: Pair)
    requires PrintablePair(kv)
    ensures ':' in PairLine(kv) && SplitKv(PairLine(kv)) == (kv.key, kv.value)
    ensures Trimmed(PairLine(kv)) && PairLine(kv) != ""
  {
    hide Strip, Unquote, Written;
    PairEdges(kv);
    WrittenEdges(kv);
    var k, line, t := kv.key, PairLine(kv), Written(kv.value, kv.style);
    assert line[|k|] == ':' && line[..|k|] == k;
    FindIs(line, ':', |k|);
    StripTrimmed(k);
    var rest := line[|k| + 1..];
    assert rest[1..] == t && rest[0] == ' ' && rest[1] == t[0] && rest[|rest| - 1] == t[|t| - 1];
    StripLeft(1, rest);
  }

  /** White space before and after the colon makes no difference. */
  lemma SplitSpaced(kv: Pair, left: string, right: string)
    requires PrintablePair(kv)
    requires (forall k :: 0 <= k < |left| ==> IsSpace(left[k])) && (forall k :: 0 <= k < |right| ==> IsSpace(right[k]))
    ensures var line := kv.key + left + ":" + right + Written(kv.value, kv.style);
            ':' in line && SplitKv(line) == (kv.key, kv.value)
  {
    hide Strip, Unquote, Written;
    WrittenEdges(kv);
    var t, c := Written(kv.value, kv.style), |kv.key| + |left|;
    var line := kv.key + left + ":" + right + t;
    assert line[c] == ':' && line[..c] == kv.key + left && line[c + 1..] == right + t;
    assert !IsSpace(':');
    forall k | 0 <= k < c
      ensures line[k] != ':'
    {
      assert line[k] == if k < |kv.key| then kv.key[k] else left[k - |kv.key|];
    }
    FindIs(line, ':', c);
    StripAround("", kv.key, left);
    StripAround(right, t, "");
    assert "" + kv.key + left == kv.key + left && right + t + "" == right + t;
  }

  /** A prefix without colon of a "key: ..." line is a prefix of the key. */
  lemma PrefixOfKey(k: string, rest: string, p: string)
    requires ':' !in p
    ensures p <= k + ":" + rest <==> p <= k
  {
    var line := k + ":" + rest;
    assert line[|k|] == ':' && line[..|k|] == k;
    if p <= line {
      forall i | 0 <= i < |p|
        ensures line[i] != ':'
      {
        assert line[i] == p[i] && p[i] in p;
      }
      assert p == line[..|p|] == k[..|p|];
    }
    if p <= k { assert line[..|p|] == k[..|p|]; }
  }

  lemma WordIsKey(k: string, rest: string, word: string)
    requires ':' !in word && ':' !in k
    ensures word + ":" <= k + ":" + rest ==> k == word
  {
    var line := k + ":" + rest;
    if word + ":" <= line {
      assert line[..|k|] == k && line[|k|] == ':';
      assert line[..|word| + 1] == word + ":";
      assert line[..|word|] == word && line[|word|] == ':';
      FindIs(line, ':', |k|);
      FindIs(line, ':', |word|);
    }
  }

  lemma NotSkipped(kv: Pair)
    requires PrintablePair(kv) && !Reserved(kv.key)
    ensures !Skipped(PairLine(kv)) && !StartsWith(PairLine(kv), "- ")
  {
    var k, rest := kv.key, " " + Written(kv.value, kv.style);
    assert PairLine(kv) == k + ":" + rest;
    PrefixOfKey(k, rest, "#");
    PrefixOfKey(k, rest, "- ");
    WordIsKey(k, rest, "version");
    WordIsKey(k, rest, "exceptions");
    assert "version" + ":" == "version:" && "exceptions" + ":" == "exceptions:";
  }

  lemma ReservedSkipped(kv: Pair)
    requires Reserved(kv.key) && !StartsWith(kv.key, "- ")
    ensures Skipped(PairLine(kv))
  {
    var k, rest := kv.key, " " + Written(kv.value, kv.style);
    var line := PairLine(kv);
    assert line == k + ":" + rest;
    assert line[..|k| + 1] == k + ":";
    if StartsWith(k, "#") { assert line[..1] == k[..1] == "#"; }
  }

  // ---------------------------------------------------------------- the printed lines, read back

  lemma DashNotSkipped(body: string)
    ensures !Skipped("- " + body) && StartsWith("- " + body, "- ") && ("- " + body)[2..] == body
  {
    assert ("- " + body)[0] == '-';
    assert ("- " + body)[..2] == "- ";
  }

  lemma StepLine(raw: string, line: string, k: string, v: string, s: Reading)
    requires Strip(raw) == line && !Skipped(line)
    ensures StartsWith(line, "- ") && Trimmed(line[2..]) && line[2..] != ""
            && ':' in line[2..] && SplitKv(line[2..]) == (k, v) ==>
              Step(raw, s) == Some(Reading(Flushed(s), Some(map[k := v])))
    ensures !StartsWith(line, "- ") && s.current.Some? && ':' in line && SplitKv(line) == (k, v) ==>
              Step(raw, s) == Some(s.(current := Some(s.current.value[k := v])))
  {
    hide Strip, SplitKv, Skipped;
    if StartsWith(line, "- ") && Trimmed(line[2..]) { StripTrimmed(line[2..]); }
  }

  lemma StepItem(kv: Pair, s: Reading)
    requires PrintablePair(kv)
    ensures Step("  - " + PairLine(kv), s) == Some(Reading(Flushed(s), Some(map[kv.key := kv.value])))
  {
    hide Strip, SplitKv, Skipped, Step, PairLine;
    var body := PairLine(kv);
    var raw, line := "  - " + body, "- " + body;
    SplitPair(kv);
    DashNotSkipped(body);
    assert raw[2..] == line && raw[|raw| - 1] == body[|body| - 1];
    StripLeft(2, raw);
    StepLine(raw, line, kv.key, kv.value, s);
  }

  /** A key that starts like an item, without its dash. */
  function Undashed(kv: Pair): Pair
    requires StartsWith(kv.key, "- ")
  {
    kv.(key := LStrip(kv.key[2..]))
  }

  lemma UndashedKey(kv: Pair) returns (n: nat)
    requires PrintablePair(kv) && StartsWith(kv.key, "- ")
    ensures PrintablePair(Undashed(kv))
    ensures var rest := kv.key[2..];
            && kv.key == "- " + rest && n < |rest| && Undashed(kv) == kv.(key := rest[n..])
            && forall i :: 0 <= i < n ==> IsSpace(rest[i])
  {
    hide IsSpace, LStrip, Unbroken;
    var k, rest := kv.key, kv.key[2..];
    SpaceIsSpace();
    assert k == "- " + rest && rest != "" && rest[|rest| - 1] == k[|k| - 1];
    n := LStripAt(rest);
    var inner := Undashed(kv).key;
    assert inner == rest[n..] && inner[|inner| - 1] == k[|k| - 1];
    assert forall c :: c in inner ==> c in k;
    PartUnbroken(k, inner);
  }

  lemma SpaceIsSpace()
    ensures IsSpace(' ')
  {
  }

  lemma PartUnbroken(s: string, part: string)
    requires Unbroken(s) && forall c :: c in part ==> c in s
    ensures Unbroken(part)
  {
  }

  /** The line of such a pair is an item: a dash, spaces and the pair without its dash. */
  lemma DashedLine(kv: Pair) returns (n: nat)
    requires PrintablePair(kv) && StartsWith(kv.key, "- ")
    ensures PrintablePair(Undashed(kv))
    ensures var line := PairLine(kv);
            && StartsWith(line, "- ") && n < |line[2..]| && line[2..][n..] == PairLine(Undashed(kv))
            && forall i :: 0 <= i < n ==> IsSpace(line[2..][i])
  {
    hide IsSpace, Undashed, PrintablePair;
    n := UndashedKey(kv);
    var k, line := kv.key, PairLine(kv);
    var rest, end := k[2..], ": " + Written(kv.value, kv.style);
    var inner := Undashed(kv);
    assert line == k + end && PairLine(inner) == inner.key + end;
    assert line[..2] == k[..2] == "- " && line[2..] == rest + end;
    assert (rest + end)[n..] == rest[n..] + end;
  }

  lemma StripDashed(kv: Pair)
    requires PrintablePair(kv) && StartsWith(kv.key, "- ")
    ensures PrintablePair(Undashed(kv)) && StartsWith(PairLine(kv), "- ")
    ensures Strip(PairLine(kv)[2..]) == PairLine(Undashed(kv))
  {
    hide Strip, PrintablePair, PairLine, Undashed;
    var n := DashedLine(kv);
    var tail, body := PairLine(kv)[2..], PairLine(Undashed(kv));
    SplitPair(Undashed(kv));
    assert tail[n] == body[0] && tail[|tail| - 1] == body[|body| - 1];
    StripLeft(n, tail);
  }

  /** Its line opens another record. */
  lemma StepDashed(kv: Pair, raw: string, s: Reading)
    requires PrintablePair(kv) && StartsWith(kv.key, "- ") && Strip(raw) == PairLine(kv)
    ensures Step(raw, s) == Some(Reading(Flushed(s), Some(map[Undashed(kv).key := Undashed(kv).value])))
  {
    hide Strip, SplitKv, Skipped, PairLine, Undashed, PrintablePair, Flushed;
    var line := PairLine(kv);
    StripDashed(kv);
    SplitPair(Undashed(kv));
    assert line == "- " + line[2..];
    DashNotSkipped(line[2..]);
  }

  /** What the line of a pair that is not the first of its record does. */
  function TakeLater(kv: Pair, s: Reading): Reading
    requires s.current.Some?
  {
    if StartsWith(kv.key, "- ") then Reading(Flushed(s), Some(map[Undashed(kv).key := Undashed(kv).value]))
    else if Reserved(kv.key) then s
    else s.(current := Some(s.current.value[kv.key := kv.value]))
  }

  lemma StepLater(kv: Pair, s: Reading)
    requires PrintablePair(kv) && s.current.Some?
    ensures Step("    " + PairLine(kv), s) == Some(TakeLater(kv, s))
  {
    hide Strip, SplitKv, Skipped, Step, PairLine, LStrip;
    var body := PairLine(kv);
    var raw := "    " + body;
    SplitPair(kv);
    assert raw[4..] == body && raw[4] == body[0] && raw[|raw| - 1] == body[|body| - 1];
    StripLeft(4, raw);
    if StartsWith(kv.key, "- ") {
      StepDashed(kv, raw, s);
    } else if Reserved(kv.key) {
      ReservedSkipped(kv);
      SkippedStep(raw, s);
    } else {
      NotSkipped(kv);
      StepLine(raw, body, kv.key, kv.value, s);
    }
  }

  lemma SkippedStep(raw: string, s: Reading)
    requires Skipped(Strip(raw))
    ensures Step(raw, s) == Some(s)
  {
  }

  lemma {:induction false} FoldConcat(a: seq<string>, b: seq<string>, s: Reading)
    ensures var r := Fold(a, s);
            Fold(a + b, s) == if r.None? then None else Fold(b, r.value)
  {
    hide Step;
    if a == [] {
      assert a + b == b;
    } else {
      assert (a + b)[1..] == a[1..] + b;
      var t := Step(a[0], s);
      if t.Some? { FoldConcat(a[1..], b, t.value); }
    }
  }

  /** `d` with the pairs written over it. */
  function Over(d: Record, pairs: Pairs): Record
    decreases |pairs|
  {
    if pairs == [] then d else Over(d[pairs[0].key := pairs[0].value], pairs[1..])
  }

  /** A record as the dictionary Python builds from it: later pairs replace earlier ones. */
  function Dict(pairs: Pairs): Record {
    Over(map[], pairs)
  }

  /** The pairs whose lines are stored when they stand inside a record. */
  function Kept(pairs: Pairs): Pairs {
    if pairs == [] then [] else (if Reserved(pairs[0].key) then [] else [pairs[0]]) + Kept(pairs[1..])
  }

  /** The lines that open a record of their own. */
  function Dashes(pairs: Pairs): nat {
    if pairs == [] then 0 else (if StartsWith(pairs[0].key, "- ") then 1 else 0) + Dashes(pairs[1..])
  }

  lemma KeptFirst(pairs: Pairs, d: Record)
    requires pairs != []
    ensures Over(d, Kept(pairs))
         == if Reserved(pairs[0].key) then Over(d, Kept(pairs[1..]))
            else Over(d[pairs[0].key := pairs[0].value], Kept(pairs[1..]))
  {
    hide Reserved;
    if Reserved(pairs[0].key) {
      NothingAdded(Kept(pairs[1..]));
    } else {
      assert Kept(pairs)[1..] == Kept(pairs[1..]);
    }
  }

  /** The lines after the first of a record: each dashed one adds a record, and without any the
      current record takes what is kept. */
  lemma {:induction false} FoldLater(pairs: Pairs, s: Reading)
    requires s.current.Some? && s.current.value != map[]
    requires forall i :: 0 <= i < |pairs| ==> PrintablePair(pairs[i])
    ensures var r := Fold(PrintPairs(pairs), s);
            && r.Some? && r.value.current.Some? && r.value.current.value != map[]
            && |r.value.done| == |s.done| + Dashes(pairs)
            && (Dashes(pairs) == 0 ==> r.value == s.(current := Some(Over(s.current.value, Kept(pairs)))))
    decreases |pairs|
  {
    hide Step, PairLine, PrintablePair, LStrip, Kept, Over;
    if pairs == [] {
      NothingKept(s.current.value);
    } else {
      var kv, t := pairs[0], TakeLater(pairs[0], s);
      StepLater(kv, s);
      TakeKeeps(kv, s);
      FoldLater(pairs[1..], t);
      KeptFirst(pairs, s.current.value);
      assert PrintPairs(pairs)[1..] == PrintPairs(pairs[1..]);
    }
  }

  lemma NothingKept(d: Record)
    ensures Over(d, Kept([])) == d
  {
  }

  lemma TakeKeeps(kv: Pair, s: Reading)
    requires s.current.Some? && s.current.value != map[]
    ensures var t := TakeLater(kv, s);
            && t.current.Some? && t.current.value != map[]
            && |t.done| == |s.done| + (if StartsWith(kv.key, "- ") then 1 else 0)
  {
    var t := TakeLater(kv, s);
    if StartsWith(kv.key, "- ") {
      assert Undashed(kv).key in t.current.value;
    } else if !Reserved(kv.key) {
      assert kv.key in t.current.value;
    }
  }

  /** A record without the pairs that are lost. */
  function Stored(pairs: Pairs): Pairs
    requires pairs != []
  {
    [pairs[0]] + Kept(pairs[1..])
  }

  lemma FoldRecord(pairs: Pairs, s: Reading)
    requires Printable(pairs)
    ensures var r := Fold(PrintRecord(pairs), s);
            && r.Some? && |Flushed(r.value)| == |Flushed(s)| + 1 + Dashes(pairs[1..])
            && (Dashes(pairs[1..]) == 0 ==> Flushed(r.value) == Flushed(s) + [Dict(Stored(pairs))])
  {
    hide Step, PairLine, PrintablePair, Reserved, Kept;
    var kv := pairs[0];
    StepItem(kv, s);
    assert PrintRecord(pairs)[1..] == PrintPairs(pairs[1..]);
    var none: Record := map[];
    var first := none[kv.key := kv.value];
    assert first == map[kv.key := kv.value] && kv.key in first;
    FoldLater(pairs[1..], Reading(Flushed(s), Some(first)));
    assert Stored(pairs)[1..] == Kept(pairs[1..]);
  }

  predicate AllPrintable(records: seq<Pairs>) {
    forall i :: 0 <= i < |records| ==> records[i] != [] && Printable(records[i])
  }

  function Dicts(records: seq<Pairs>): seq<Record> {
    seq(|records|, i requires 0 <= i < |records| => Dict(records[i]))
  }

  function StoredAll(records: seq<Pairs>): seq<Pairs>
    requires AllPrintable(records)
  {
    seq(|records|, i requires 0 <= i < |records| => Stored(records[i]))
  }

  function AllDashes(records: seq<Pairs>): nat
    requires AllPrintable(records)
  {
    if records == [] then 0 else Dashes(records[0][1..]) + AllDashes(records[1..])
  }

  /** The records read are as many as those printed and the dashed lines inside them, and without
      such lines they are the stored parts of those printed. */
  lemma {:induction false} FoldRecords(records: seq<Pairs>, s: Reading)
    requires AllPrintable(records)
    ensures var r := Fold(PrintRecords(records), s);
            && r.Some? && |Flushed(r.value)| == |Flushed(s)| + |records| + AllDashes(records)
            && (AllDashes(records) == 0 ==> Flushed(r.value) == Flushed(s) + Dicts(StoredAll(records)))
  {
    hide Step, Dict, Printable, Stored, Dashes, Flushed, Fold, StoredAll, Dicts, PrintRecord;
    if records == [] {
      NothingRead(s);
    } else {
      var r, rest := records[0], records[1..];
      FoldRecord(r, s);
      var t := Fold(PrintRecord(r), s).value;
      FoldRecords(rest, t);
      FoldConcat(PrintRecord(r), PrintRecords(rest), s);
      if AllDashes(records) == 0 {
        StoredFirst(records);
        Assoc(Flushed(s), [Dict(Stored(r))], Dicts(StoredAll(rest)));
      }
    }
  }

  lemma NothingRead(s: Reading)
    ensures Fold([], s) == Some(s) && Flushed(s) + Dicts(StoredAll([])) == Flushed(s)
  {
  }

  lemma StoredFirst(records: seq<Pairs>)
    requires AllPrintable(records) && records != []
    ensures Dicts(StoredAll(records)) == [Dict(Stored(records[0]))] + Dicts(StoredAll(records[1..]))
  {
    hide Dict, Stored, Printable;
  }

  // ---------------------------------------------------------------- the printed text, read back

  lemma FirstLine(line: string, nl: string, rest: string)
    requires Unbroken(line) && LineEnd(nl) && (nl == "\r" && rest != "" ==> rest[0] != '\n')
    ensures var t := line + nl + rest;
            t[..FirstBreak(t)] == line && AfterBreak(t) == rest
  {
    var t := line + nl + rest;
    assert t[|line|] == nl[0] && t[..|line|] == line;
    assert forall i :: 0 <= i < |line| ==> t[i] == line[i] && line[i] in line;
    assert t[|line| + |nl|..] == rest;
    assert nl == "\r\n" ==> t[|line| + 1] == '\n';
    assert nl == "\r" && rest != "" ==> t[|line| + 1] == rest[0];
  }

  lemma NoLfInFront(lines: seq<string>, nl: string)
    requires LineEnd(nl) && nl != "\n" && forall l :: l in lines ==> Unbroken(l)
    ensures TextOf(lines, nl) != "" ==> TextOf(lines, nl)[0] != '\n'
  {
    if lines != [] {
      assert lines[0] in lines;
      assert lines[0] != "" ==> lines[0][0] in lines[0];
    }
  }

  /** Lines with any of the three line ends are found again. */
  lemma {:induction false} LinesOfText(lines: seq<string>, nl: string)
    requires LineEnd(nl) && forall l :: l in lines ==> Unbroken(l)
    ensures FileLines(TextOf(lines, nl)) == lines
  {
    hide FirstBreak, AfterBreak, Unbroken, FileLines;
    if lines == [] {
      NoLines();
    } else {
      var line, rest := lines[0], TextOf(lines[1..], nl);
      assert line in lines;
      if nl != "\n" { NoLfInFront(lines[1..], nl); }
      FirstLine(line, nl, rest);
      LinesOfText(lines[1..], nl);
      hide TextOf;
      assert line + nl + rest != "";
      LinesFrom(line + nl + rest);
      assert [line] + lines[1..] == lines;
    }
  }

  lemma NoLines()
    ensures FileLines("") == []
  {
  }

  lemma LinesFrom(text: string)
    requires text != ""
    ensures FileLines(text) == [text[..FirstBreak(text)]] + FileLines(AfterBreak(text))
  {
  }

  lemma PairUnbroken(indent: string, kv: Pair)
    requires PrintablePair(kv) && Unbroken(indent)
    ensures Unbroken(indent + PairLine(kv))
  {
  }

  lemma {:induction false} PairsUnbroken(pairs: Pairs)
    requires forall i :: 0 <= i < |pairs| ==> PrintablePair(pairs[i])
    ensures forall l :: l in PrintPairs(pairs) ==> Unbroken(l)
  {
    hide PrintablePair, PairLine, Unbroken;
    if pairs != [] {
      IndentUnbroken();
      PairUnbroken("    ", pairs[0]);
      PairsUnbroken(pairs[1..]);
    }
  }

  lemma IndentUnbroken()
    ensures Unbroken("    ") && Unbroken("  - ")
  {
  }

  lemma {:induction false} RecordsUnbroken(records: seq<Pairs>)
    requires AllPrintable(records)
    ensures forall l :: l in PrintRecords(records) ==> Unbroken(l)
  {
    hide PrintablePair, PairLine, Unbroken, Reserved;
    if records != [] {
      var r := records[0];
      IndentUnbroken();
      PairUnbroken("  - ", r[0]);
      PairsUnbroken(r[1..]);
      RecordsUnbroken(records[1..]);
    }
  }

  /** The whole text, read back. */
  lemma ParsePrinted(records: seq<Pairs>, nl: string)
    requires LineEnd(nl)
    requires AllPrintable(records)
    ensures var r := ParseText(TextOf(PrintRecords(records), nl));
            && r.Records? && |r.records| == |records| + AllDashes(records)
            && (AllDashes(records) == 0 ==> r.records == Dicts(StoredAll(records)))
  {
    hide Fold, PrintRecords, Printable, Dict, Stored, AllDashes;
    RecordsUnbroken(records);
    LinesOfText(PrintRecords(records), nl);
    FoldRecords(records, START);
    if AllDashes(records) == 0 { NothingAdded(Dicts(StoredAll(records))); }
  }

  // ---------------------------------------------------------------- what a dictionary keeps

  /** The last value given to a key. */
  function LastValue(pairs: Pairs, k: string): Option<string> {
    if pairs == [] then None
    else
      var later := LastValue(pairs[1..], k);
      if later.Some? then later else if pairs[0].key == k then Some(pairs[0].value) else None
  }

  lemma {:induction false} OverAt(d: Record, pairs: Pairs, k: string)
    ensures var r, v := Over(d, pairs), LastValue(pairs, k);
            && (k in r <==> v.Some? || k in d)
            && (k in r ==> r[k] == if v.Some? then v.value else d[k])
    decreases |pairs|
  {
    if pairs != [] { OverAt(d[pairs[0].key := pairs[0].value], pairs[1..], k); }
  }

  lemma {:induction false} KeptValue(pairs: Pairs, k: string)
    ensures LastValue(Kept(pairs), k) == if Reserved(k) then None else LastValue(pairs, k)
  {
    hide Reserved;
    if pairs != [] {
      KeptValue(pairs[1..], k);
      if Reserved(pairs[0].key) {
        NothingAdded(Kept(pairs[1..]));
      } else {
        assert Kept(pairs)[1..] == Kept(pairs[1..]);
      }
    }
  }

  lemma {:induction false} HasValue(pairs: Pairs, k: string)
    ensures LastValue(pairs, k).Some? <==> exists i :: 0 <= i < |pairs| && pairs[i].key == k
  {
    if pairs != [] {
      HasValue(pairs[1..], k);
      assert forall i :: 0 < i < |pairs| ==> pairs[i] == pairs[1..][i - 1];
    }
  }

  /** What is stored of a record is all of it exactly when a reserved key inside it does no more
      than repeat its first pair. */
  lemma StoredExact(pairs: Pairs)
    requires pairs != []
    ensures Dict(Stored(pairs)) == Dict(pairs)
       <==> forall i :: 1 <= i < |pairs| && Reserved(pairs[i].key) ==> Repeats(pairs, pairs[i].key)
  {
    hide Reserved, Kept, LastValue;
    var first: Record, rest := map[pairs[0].key := pairs[0].value], pairs[1..];
    DictFirst(pairs);
    DictFirst(Stored(pairs));
    assert Stored(pairs)[1..] == Kept(rest);
    var a, b := Dict(Stored(pairs)), Dict(pairs);
    forall k
      ensures SameAt(a, b, k) <==> (Reserved(k) && LastValue(rest, k).Some? ==> Repeats(pairs, k))
      ensures LastValue(rest, k).Some? <==> exists i :: 1 <= i < |pairs| && pairs[i].key == k
    {
      OverAt(first, Kept(rest), k);
      OverAt(first, rest, k);
      KeptValue(rest, k);
      HasValue(rest, k);
      assert forall i :: 1 <= i < |pairs| ==> pairs[i] == rest[i - 1];
      assert forall i :: 0 <= i < |rest| ==> rest[i] == pairs[i + 1];
    }
    SameMaps(a, b);
  }

  /** Every later value of the key is overwritten by the one of the first pair, which has it. */
  predicate Repeats(pairs: Pairs, k: string)
    requires pairs != []
  {
    pairs[0].key == k && LastValue(pairs[1..], k) == Some(pairs[0].value)
  }

  predicate SameAt(a: Record, b: Record, k: string) {
    (k in a <==> k in b) && (k in a && k in b ==> a[k] == b[k])
  }

  lemma SameMaps(a: Record, b: Record)
    ensures a == b <==> forall k :: SameAt(a, b, k)
  {
    if forall k :: SameAt(a, b, k) {
      forall k
        ensures k in a <==> k in b
        ensures k in a && k in b ==> a[k] == b[k]
      {
        assert SameAt(a, b, k);
      }
    }
  }

  lemma DictFirst(pairs: Pairs)
    requires pairs != []
    ensures Dict(pairs) == Over(map[pairs[0].key := pairs[0].value], pairs[1..])
  {
    var none: Record := map[];
    assert none[pairs[0].key := pairs[0].value] == map[pairs[0].key := pairs[0].value];
  }

  // ---------------------------------------------------------------- round trip, exactly

  /** No line inside the record opens another one, and no reserved key loses a value. */
  predicate Survives(pairs: Pairs) {
    forall i :: 1 <= i < |pairs| && Reserved(pairs[i].key) ==>
      !StartsWith(pairs[i].key, "- ") && Repeats(pairs, pairs[i].key)
  }

  lemma {:induction false} NoDashes(pairs: Pairs)
    ensures Dashes(pairs) == 0 <==> forall i :: 0 <= i < |pairs| ==> !StartsWith(pairs[i].key, "- ")
  {
    if pairs != [] {
      NoDashes(pairs[1..]);
      assert forall i :: 0 < i < |pairs| ==> pairs[i] == pairs[1..][i - 1];
    }
  }

  lemma SurvivesExact(pairs: Pairs)
    requires pairs != []
    ensures Survives(pairs) <==> Dashes(pairs[1..]) == 0 && Dict(Stored(pairs)) == Dict(pairs)
  {
    hide Dict, Stored, Repeats;
    StoredExact(pairs);
    NoDashes(pairs[1..]);
    assert forall i :: 1 <= i < |pairs| ==> pairs[i] == pairs[1..][i - 1];
    assert forall i :: 0 <= i < |pairs| - 1 ==> pairs[1..][i] == pairs[i + 1];
  }

  lemma {:induction false} NoDashesAnywhere(records: seq<Pairs>)
    requires AllPrintable(records)
    ensures AllDashes(records) == 0 <==> forall i :: 0 <= i < |records| ==> Dashes(records[i][1..]) == 0
  {
    hide Printable, Dashes;
    if records != [] {
      NoDashesAnywhere(records[1..]);
      assert forall i :: 0 < i < |records| ==> records[i] == records[1..][i - 1];
    }
  }

  /** Printed records parse back to their dictionaries exactly when every one of them survives. */
  lemma RoundTripExact(records: seq<Pairs>, nl: string)
    requires LineEnd(nl)
    requires AllPrintable(records)
    ensures ParseText(TextOf(PrintRecords(records), nl)) == Records(Dicts(records))
       <==> forall i :: 0 <= i < |records| ==> Survives(records[i])
  {
    hide ParseText, TextOf, PrintRecords, Printable, Dict, Stored, Dashes, AllDashes, Survives;
    ParsePrinted(records, nl);
    NoDashesAnywhere(records);
    forall i | 0 <= i < |records|
      ensures Survives(records[i])
         <==> Dashes(records[i][1..]) == 0 && Dict(Stored(records[i])) == Dict(records[i])
    {
      SurvivesExact(records[i]);
    }
    if AllDashes(records) == 0 {
      var a, b := Dicts(StoredAll(records)), Dicts(records);
      assert forall i :: 0 <= i < |records| ==> a[i] == Dict(Stored(records[i])) && b[i] == Dict(records[i]);
    }
  }

  predicate DistinctKeys(pairs: Pairs) {
    forall i, j :: 0 <= i < j < |pairs| ==> pairs[i].key != pairs[j].key
  }

  /** With distinct keys a record survives exactly when no key after its first is reserved. */
  lemma DistinctSurvives(pairs: Pairs)
    requires Printable(pairs) && DistinctKeys(pairs)
    ensures Survives(pairs) <==> PrintableRecord(pairs)
  {
    hide Reserved, PrintablePair, LastValue;
  }

  lemma DistinctRoundTripExact(records: seq<Pairs>, nl: string)
    requires LineEnd(nl)
    requires AllPrintable(records)
    requires forall i :: 0 <= i < |records| ==> DistinctKeys(records[i])
    ensures ParseText(TextOf(PrintRecords(records), nl)) == Records(Dicts(records))
       <==> forall i, j :: 0 <= i < |records| && 1 <= j < |records[i]| ==> !Reserved(records[i][j].key)
  {
    hide ParseText, TextOf, PrintRecords, Dict, Reserved, PrintablePair, Survives;
    RoundTripExact(records, nl);
    forall i | 0 <= i < |records|
      ensures Survives(records[i]) <==> PrintableRecord(records[i])
    {
      DistinctSurvives(records[i]);
    }
  }

  /** Parser and printer undo each other, whatever keys repeat, when no later key is reserved. */
  lemma RoundTrip(records: seq<Pairs>, nl: string)
    requires LineEnd(nl)
    requires forall i :: 0 <= i < |records| ==> records[i] != [] && PrintableRecord(records[i])
    ensures ParseText(TextOf(PrintRecords(records), nl)) == Records(Dicts(records))
  {
    hide ParseText, TextOf, PrintRecords, Dict, Reserved, PrintablePair, Repeats;
    RoundTripExact(records, nl);
  }

  // ---------------------------------------------------------------- other lines, and the error

  /** An empty line, a comment, a header, or text that is neither an item nor a pair. */
  predicate Idle(raw: string) {
    var line := Strip(raw);
    || line == "" || "#" <= line || "version:" <= line || "exceptions:" <= line
    || (!("- " <= line) && ':' !in line)
  }

  lemma IdleStep(raw: string, s: Reading)
    requires Idle(raw)
    ensures Step(raw, s) == Some(s)
  {
  }

  /** Such lines change nothing wherever they stand. */
  lemma IdleAnywhere(a: seq<string>, raw: string, b: seq<string>, nl: string)
    requires LineEnd(nl) && Idle(raw) && Unbroken(raw)
    requires forall l :: l in a + b ==> Unbroken(l)
    ensures ParseText(TextOf(a + [raw] + b, nl)) == ParseText(TextOf(a + b, nl))
  {
    hide TextOf, FileLines, Step, Idle, Unbroken, Fold;
    assert forall l :: l in a + [raw] + b ==> l in a + b || l == raw;
    LinesOfText(a + [raw] + b, nl);
    LinesOfText(a + b, nl);
    FoldConcat(a + [raw], b, START);
    FoldConcat(a, b, START);
    FoldConcat(a, [raw], START);
    var r := Fold(a, START);
    if r.Some? {
      IdleStep(raw, r.value);
      FoldOne(raw, r.value);
    }
  }

  lemma FoldOne(raw: string, s: Reading)
    ensures Fold([raw], s) == Step(raw, s)
  {
    hide Step;
    assert [raw][1..] == [];
    var t := Step(raw, s);
    assert t.Some? ==> Fold([], t.value) == t;
  }

  lemma {:induction false} NoItemNoRecord(lines: seq<string>)
    requires forall l :: l in lines ==> !("- " <= Strip(l))
    ensures Fold(lines, START) == Some(START)
  {
    hide Strip, SplitKv, Flushed;
    if lines != [] {
      assert lines[0] in lines;
      NoItemNoRecord(lines[1..]);
    }
  }

  /** Whatever stands before the first item is ignored. */
  lemma PreambleIgnored(a: seq<string>, b: seq<string>, nl: string)
    requires LineEnd(nl) && forall l :: l in a + b ==> Unbroken(l)
    requires forall l :: l in a ==> !("- " <= Strip(l))
    ensures ParseText(TextOf(a + b, nl)) == ParseText(TextOf(b, nl))
  {
    hide TextOf, FileLines, Step, Unbroken, Fold, Strip;
    LinesOfText(a + b, nl);
    LinesOfText(b, nl);
    NoItemNoRecord(a);
    FoldConcat(a, b, START);
  }

  /** An item line without a colon. */
  predicate BadItem(raw: string) {
    "- " <= Strip(raw) && ':' !in Strip(raw)
  }

  lemma StripHasColon(s: string)
    ensures ':' in Strip(s) <==> ':' in s
  {
    var i, j := StripExact(s);
    if ':' in s {
      var k :| 0 <= k < |s| && s[k] == ':';
      assert i <= k < j;
      assert s[i..j][k - i] == ':';
    }
  }

  /** What follows the dash of a stripped item line is never blank. */
  lemma ItemNotBlank(raw: string)
    requires "- " <= Strip(raw)
    ensures Strip(Strip(raw)[2..]) != ""
    ensures ':' in Strip(Strip(raw)[2..]) <==> ':' in Strip(raw)
  {
    hide LStrip, RStrip, Strip;
    var line := Strip(raw);
    var i, j := StripExact(raw);
    assert line[..2] == "- ";
    assert forall k :: 0 <= k < 2 ==> line[k] == line[..2][k];
    var rest := line[2..];
    assert rest != "" && rest[|rest| - 1] == line[|line| - 1];
    StripHasColon(rest);
    assert line == line[..2] + rest;
    if Strip(rest) == "" { AllSpace(rest); }
  }

  lemma AllSpace(s: string)
    requires Strip(s) == ""
    ensures s != "" ==> IsSpace(s[|s| - 1])
  {
    StripEmpty(s);
  }

  /** Only an item line without a colon fails, whatever was read before. */
  lemma StepFails(raw: string, s: Reading)
    ensures Step(raw, s).None? <==> BadItem(raw)
  {
    hide Strip, SplitKv, Flushed;
    var line := Strip(raw);
    if "- " <= line {
      ItemNotBlank(raw);
      assert line[0] == '-';
    }
  }

  lemma {:induction false} FoldFails(lines: seq<string>, s: Reading)
    ensures Fold(lines, s).None? <==> exists l :: l in lines && BadItem(l)
  {
    hide Step, BadItem;
    if lines != [] {
      StepFails(lines[0], s);
      var t := Step(lines[0], s);
      if t.Some? {
        FoldFails(lines[1..], t.value);
        assert lines == [lines[0]] + lines[1..];
      }
    }
  }

  /** The parser raises its error exactly when some item line has no colon. */
  lemma FailsExactlyWhen(text: string)
    ensures ParseText(text).NoColon? <==> exists l :: l in FileLines(text) && BadItem(l)
  {
    FoldFails(FileLines(text), START);
  }
}
