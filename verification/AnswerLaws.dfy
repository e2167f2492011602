/** What `generate` promises about whole answers, over the fold it refines. */
module AnswerLaws {
  import opened Text
  import opened Utf8
  import opened Generation
  import opened Generate

  // ---------------------------------------------------------------- one flat answer

  /** The text of all content deltas, in order. */
  function Contents(atoms: seq<Atom>): string {
    if atoms == [] then ""
    else (if atoms[0].Delta? then atoms[0].content else "") + Contents(atoms[1..])
  }

  lemma {:induction false} ContentsConcat(a: seq<Atom>, b: seq<Atom>)
    ensures Contents(a + b) == Contents(a) + Contents(b)
  {
    if a == [] {
      assert a + b == b;
    } else {
      assert (a + b)[1..] == a[1..] + b;
      ContentsConcat(a[1..], b);
    }
  }

  /** Bytes that the first `n` atoms bring. */
  function BytesOf(atoms: seq<Atom>): nat {
    |Encode(Contents(atoms))|
  }

  lemma BytesConcat(a: seq<Atom>, b: seq<Atom>)
    ensures BytesOf(a + b) == BytesOf(a) + BytesOf(b)
  {
    ContentsConcat(a, b);
    EncodeConcat(Contents(a), Contents(b));
  }

  function LastUsage(atoms: seq<Atom>, otherwise: Usage): Usage {
    if atoms == [] then otherwise
    else
      var last := atoms[|atoms| - 1];
      if last.SetUsage? then last.usage else LastUsage(atoms[..|atoms| - 1], otherwise)
  }

  function LastFinish(atoms: seq<Atom>, otherwise: Option<string>): Option<string> {
    if atoms == [] then otherwise
    else
      var last := atoms[|atoms| - 1];
      if last.Delta? && last.finish.Some? then last.finish else LastFinish(atoms[..|atoms| - 1], otherwise)
  }

  /** Atom `n` ends the reading: it is an error, the end marker, or the delta whose text passes
      the bound, counting `bytes` that were there before. */
  ghost predicate EndsReading(atoms: seq<Atom>, n: nat, bytes: nat)
    requires n < |atoms|
  {
    || atoms[n].Fail? || atoms[n].Done?
    || (atoms[n].Delta? && bytes + BytesOf(atoms[..n + 1]) > 16 * 1024 * 1024)
  }

  /** The reading takes the atoms before `n`, and ends at atom `n` or with the last atom. */
  ghost predicate StopsAt(atoms: seq<Atom>, n: nat, bytes: nat) {
    && n <= |atoms|
    && (n < |atoms| ==> EndsReading(atoms, n, bytes))
    && forall m: nat :: m < n ==> !EndsReading(atoms, m, bytes)
  }

  function StatusAt(atoms: seq<Atom>, n: nat): Status
    requires n <= |atoms|
  {
    if n == |atoms| then Running
    else match atoms[n]
      case Done => Finished
      case Fail(e) => Failed(e)
      case _ => Failed(OutputTooLarge)
  }

  lemma FoldSnoc(atoms: seq<Atom>, s: GenState)
    requires atoms != []
    ensures var r := Fold(atoms[..|atoms| - 1], s);
            Fold(atoms, s) == if r.status.Running? then Apply(atoms[|atoms| - 1], r.state) else r
  {
    var a, last := atoms[..|atoms| - 1], atoms[|atoms| - 1];
    assert atoms == a + [last];
    FoldConcat(a, [last], s);
    var r := Fold(a, s);
    if r.status.Running? {
      var q := Apply(last, r.state);
      assert [last][1..] == [];
      assert q.status.Running? ==> Fold([], q.state) == q;
    }
  }

  /** While nothing ends the reading, everything is taken. */
  lemma {:induction false} FoldTakesAll(atoms: seq<Atom>, s: GenState)
    requires Counted(s)
    requires forall m: nat :: m < |atoms| ==> !EndsReading(atoms, m, s.textBytes)
    ensures var r := Fold(atoms, s);
            && r.status == Running && Counted(r.state)
            && r.state.Text() == s.Text() + Contents(atoms)
            && r.state.usage == LastUsage(atoms, s.usage)
            && r.state.finishReason == LastFinish(atoms, s.finishReason)
            && r.state.complete == s.complete && r.state.endedBy == s.endedBy
            && r.state.textBytes == s.textBytes + BytesOf(atoms)
  {
    NoBytes();
    hide Apply, EndsReading, Encode, Concat, BytesOf;
    if atoms == [] {
      NothingAdded(s.Text());
    } else {
      var k := |atoms| - 1;
      var a, last := atoms[..k], atoms[k];
      EndsBefore(atoms, k, s.textBytes);
      FoldTakesAll(a, s);
      FoldSnoc(atoms, s);
      assert atoms[..k + 1] == a + [last] == atoms;
      var t := Fold(a, s).state;
      StepText(a, last, s, t);
      StepRest(a, last, s.textBytes, t);
      assert !EndsReading(atoms, k, s.textBytes);
    }
  }

  lemma NoBytes()
    ensures BytesOf([]) == 0
  {
    assert Encode("") == [];
  }

  /** Whether an early atom ends the reading does not depend on later ones. */
  lemma EndsBefore(atoms: seq<Atom>, n: nat, bytes: nat)
    requires n <= |atoms|
    ensures forall m: nat :: m < n ==> (EndsReading(atoms[..n], m, bytes) <==> EndsReading(atoms, m, bytes))
  {
    forall m: nat | m < n
      ensures EndsReading(atoms[..n], m, bytes) <==> EndsReading(atoms, m, bytes)
    {
      assert atoms[..n][..m + 1] == atoms[..m + 1];
    }
  }

  /** The text after one more atom. */
  lemma StepText(a: seq<Atom>, last: Atom, s: GenState, t: GenState)
    requires Counted(t) && t.Text() == s.Text() + Contents(a)
    requires t.textBytes == s.textBytes + BytesOf(a)
    ensures var r := Apply(last, t);
            && Counted(r.state) && r.state.Text() == s.Text() + Contents(a + [last])
            && r.state.textBytes == s.textBytes + BytesOf(a + [last])
  {
    ContentsConcat(a, [last]);
    BytesConcat(a, [last]);
    ContentsOne(last);
    Assoc(s.Text(), Contents(a), Contents([last]));
    hide Encode, Concat, Contents;
    if last.Delta? {
      AddedText(t, last.content, last.reasoning);
    } else {
      NothingAdded(s.Text() + Contents(a));
    }
  }

  /** Its other effects. */
  lemma StepRest(a: seq<Atom>, last: Atom, bytes: nat, t: GenState)
    requires t.textBytes == bytes + BytesOf(a)
    ensures var r := Apply(last, t);
            && (r.status.Running? <==> !EndsReading(a + [last], |a|, bytes))
            && (last.Done? ==> r.status.Finished?)
            && (r.status.Finished? ==> last.Done?)
            && (!r.status.Running? ==> r.status == StatusAt(a + [last], |a|))
            && r.state.complete == (t.complete || last.Done?)
            && r.state.endedBy == (if last.Done? then Some("[DONE]") else t.endedBy)
            && r.state.usage == (if last.SetUsage? then last.usage else t.usage)
            && r.state.finishReason
            == (if r.status.Running? && last.Delta? && last.finish.Some? then last.finish else t.finishReason)
  {
    BytesConcat(a, [last]);
    ContentsOne(last);
    assert (a + [last])[..|a| + 1] == a + [last];
    hide Encode, Concat, Contents;
  }

  lemma ContentsOne(a: Atom)
    ensures Contents([a]) == if a.Delta? then a.content else ""
    ensures BytesOf([a]) == if a.Delta? then |Encode(a.content)| else 0
  {
    assert [a][1..] == [];
    NothingAdded(Contents([a]));
    assert Encode("") == [];
  }

  /** The accumulator holds exactly what came before the atom that ends the reading, and the
      text of that atom too when it is the one that passes the bound. */
  lemma FoldTakes(atoms: seq<Atom>, n: nat, s: GenState)
    requires Counted(s) && StopsAt(atoms, n, s.textBytes)
    ensures var r := Fold(atoms, s);
            var taken := if n < |atoms| then atoms[..n + 1] else atoms;
            && r.status == StatusAt(atoms, n) && Counted(r.state)
            && r.state.Text() == s.Text() + Contents(taken)
            && r.state.usage == LastUsage(atoms[..n], s.usage)
            && r.state.finishReason == LastFinish(atoms[..n], s.finishReason)
            && r.state.complete == (s.complete || r.status.Finished?)
            && (r.status.Finished? ==> r.state.endedBy == Some("[DONE]"))
  {
    EndsBefore(atoms, n, s.textBytes);
    FoldTakesAll(atoms[..n], s);
    if n < |atoms| {
      StopTaken(atoms, n, s, Fold(atoms[..n], s).state);
    } else {
      assert atoms[..n] == atoms;
    }
    hide Apply, EndsReading, Encode, Concat, BytesOf, Contents, LastUsage, LastFinish, Fold;
  }

  /** The atom `n` that ends the reading, taken in state `t`. */
  lemma StopTaken(atoms: seq<Atom>, n: nat, s: GenState, t: GenState)
    requires n < |atoms| && EndsReading(atoms, n, s.textBytes)
    requires Fold(atoms[..n], s) == Run(t, Running)
    requires Counted(t) && t.Text() == s.Text() + Contents(atoms[..n])
    requires t.textBytes == s.textBytes + BytesOf(atoms[..n])
    ensures var r := Fold(atoms, s);
            && r.status == StatusAt(atoms, n) && Counted(r.state)
            && r.state.Text() == s.Text() + Contents(atoms[..n + 1])
            && r.state.usage == t.usage && r.state.finishReason == t.finishReason
            && r.state.complete == (t.complete || r.status.Finished?)
            && (r.status.Finished? ==> r.state.endedBy == Some("[DONE]"))
  {
    hide Apply, Encode, Concat, BytesOf, Contents, Fold;
    var a := atoms[..n];
    assert atoms[..n + 1] == a + [atoms[n]];
    assert (a + [atoms[n]])[..n + 1] == a + [atoms[n]];
    StepText(a, atoms[n], s, t);
    StepRest(a, atoms[n], s.textBytes, t);
    TakesLast(atoms, n, s);
  }

  lemma TakesLast(atoms: seq<Atom>, n: nat, s: GenState)
    requires n < |atoms|
    requires Fold(atoms[..n], s).status.Running?
    requires !Apply(atoms[n], Fold(atoms[..n], s).state).status.Running?
    ensures Fold(atoms, s) == Apply(atoms[n], Fold(atoms[..n], s).state)
  {
    hide Apply;
    var a := atoms[..n];
    assert atoms == a + atoms[n..];
    FoldConcat(a, atoms[n..], s);
  }

  /** Every answer stops somewhere. */
  lemma {:induction false} StopExists(atoms: seq<Atom>, bytes: nat, from: nat) returns (n: nat)
    requires from <= |atoms|
    requires forall m: nat :: m < from ==> !EndsReading(atoms, m, bytes)
    ensures StopsAt(atoms, n, bytes)
    decreases |atoms| - from
  {
    if from == |atoms| || EndsReading(atoms, from, bytes) {
      n := from;
    } else {
      n := StopExists(atoms, bytes, from + 1);
    }
  }

  // ---------------------------------------------------------------- meters

  function Reasonings(atoms: seq<Atom>): string {
    if atoms == [] then ""
    else (if atoms[0].Delta? then atoms[0].reasoning else "") + Reasonings(atoms[1..])
  }

  function EventCount(atoms: seq<Atom>): nat {
    if atoms == [] then 0 else (if atoms[0].CountEvent? then 1 else 0) + EventCount(atoms[1..])
  }

  lemma {:induction false} MetersSnoc(atoms: seq<Atom>, last: Atom)
    ensures Reasonings(atoms + [last]) == Reasonings(atoms) + if last.Delta? then last.reasoning else ""
    ensures EventCount(atoms + [last]) == EventCount(atoms) + if last.CountEvent? then 1 else 0
  {
    var r := if last.Delta? then last.reasoning else "";
    NothingAdded(r);
    if atoms == [] {
      assert [] + [last] == [last] && [last][1..] == [];
    } else {
      assert (atoms + [last])[1..] == atoms[1..] + [last];
      MetersSnoc(atoms[1..], last);
      Assoc(if atoms[0].Delta? then atoms[0].reasoning else "", Reasonings(atoms[1..]), r);
    }
  }

  /** `t` counts the events, the reasoning text and the token estimate of `atoms` on top of `s`,
      and shows the phase they end in. */
  ghost predicate Metered(s: GenState, t: GenState, atoms: seq<Atom>) {
    && t.events == s.events + EventCount(atoms)
    && t.reasoningChars == s.reasoningChars + |Reasonings(atoms)|
    && t.estimate == s.estimate + EstimateOf(Contents(atoms)) + EstimateOf(Reasonings(atoms))
    && t.phase == LastPhase(atoms, s.phase)
  }

  /** What the last delta with any text brought. */
  function LastPhase(atoms: seq<Atom>, otherwise: Phase): Phase {
    if atoms == [] then otherwise
    else
      var before, last := atoms[..|atoms| - 1], atoms[|atoms| - 1];
      if last.Delta? && last.content != "" then Writing
      else if last.Delta? && last.reasoning != "" then Thinking
      else LastPhase(before, otherwise)
  }

  lemma EstimateSnoc(a: seq<Atom>, last: Atom)
    ensures EstimateOf(Contents(a + [last])) + EstimateOf(Reasonings(a + [last]))
         == EstimateOf(Contents(a)) + EstimateOf(Reasonings(a))
            + if last.Delta? then EstimateOf(last.content) + EstimateOf(last.reasoning) else 0
  {
    MetersSnoc(a, last);
    ContentsConcat(a, [last]);
    ContentsOne(last);
    EstimateConcat(Contents(a), Contents([last]));
    EstimateConcat(Reasonings(a), if last.Delta? then last.reasoning else "");
    assert EstimateOf("") == 0;
    hide Contents, Reasonings, EventCount, EstimateOf;
  }

  lemma MeterStep(a: seq<Atom>, last: Atom, s: GenState, t: GenState)
    requires Metered(s, t, a)
    ensures Metered(s, Apply(last, t).state, a + [last])
  {
    MetersSnoc(a, last);
    EstimateSnoc(a, last);
    PhaseSnoc(a, last, s.phase);
    hide Contents, Reasonings, EventCount, Encode, LastPhase, EstimateOf;
  }

  lemma PhaseSnoc(a: seq<Atom>, last: Atom, otherwise: Phase)
    ensures LastPhase(a + [last], otherwise)
         == if last.Delta? && last.content != "" then Writing
            else if last.Delta? && last.reasoning != "" then Thinking else LastPhase(a, otherwise)
  {
    assert (a + [last])[..|a|] == a;
  }

  lemma {:induction false} MetersAll(atoms: seq<Atom>, s: GenState)
    requires Counted(s)
    requires forall m: nat :: m < |atoms| ==> !EndsReading(atoms, m, s.textBytes)
    ensures Metered(s, Fold(atoms, s).state, atoms)
  {
    if atoms != [] {
      var k := |atoms| - 1;
      var a, last := atoms[..k], atoms[k];
      EndsBefore(atoms, k, s.textBytes);
      FoldTakesAll(a, s);
      MetersAll(a, s);
      FoldSnoc(atoms, s);
      MeterStep(a, last, s, Fold(a, s).state);
      assert atoms == a + [last];
      hide Fold, Metered;
    }
  }

  /** The meters count exactly what is taken, the part that passes the bound included; the token
      estimate depends only on the texts, not on how they came in pieces. */
  lemma FoldMeters(atoms: seq<Atom>, n: nat, s: GenState)
    requires Counted(s) && StopsAt(atoms, n, s.textBytes)
    ensures Metered(s, Fold(atoms, s).state, if n < |atoms| then atoms[..n + 1] else atoms)
  {
    hide EndsReading, Apply, BytesOf, Contents, LastUsage, LastFinish, Encode, Concat;
    var a := atoms[..n];
    EndsBefore(atoms, n, s.textBytes);
    FoldTakesAll(a, s);
    MetersAll(a, s);
    if n < |atoms| {
      var t := Fold(a, s).state;
      FoldTakes(atoms, n, s);
      MeterStep(a, atoms[n], s, t);
      StopFold(atoms, n, s);
      assert atoms[..n + 1] == a + [atoms[n]];
    } else {
      assert a == atoms;
    }
    hide Fold, Metered;
  }

  /** The token count shown is the one reported, or else the estimate of all text taken: a
      quarter for each ASCII character and 0.67 for each other, rounded up. */
  lemma ShownTokens(atoms: seq<Atom>, n: nat)
    requires StopsAt(atoms, n, 0)
    ensures var t := Fold(atoms, FRESH).state;
            var text := t.Text() + Reasonings(if n < |atoms| then atoms[..n + 1] else atoms);
            var hundredths := 25 * |Positions(text, true)| + 67 * |Positions(text, false)|;
            if "completion_tokens" in t.usage then Tokens(t) == t.usage["completion_tokens"]
            else Tokens(t) * 100 - 99 <= hundredths <= Tokens(t) * 100
  {
    assert Counted(FRESH);
    FoldMeters(atoms, n, FRESH);
    FoldTakes(atoms, n, FRESH);
    var taken := if n < |atoms| then atoms[..n + 1] else atoms;
    NothingAdded(Contents(taken));
    EstimateConcat(Contents(taken), Reasonings(taken));
    EstimateExact(Contents(taken) + Reasonings(taken));
    hide Fold, Contents, Reasonings, EstimateOf, Positions;
  }

  lemma StopFold(atoms: seq<Atom>, n: nat, s: GenState)
    requires n < |atoms| && Fold(atoms[..n], s).status.Running?
    requires !Fold(atoms, s).status.Running?
    requires EndsReading(atoms, n, s.textBytes) && Counted(s)
    requires Fold(atoms[..n], s).state.textBytes == s.textBytes + BytesOf(atoms[..n])
    ensures Fold(atoms, s) == Apply(atoms[n], Fold(atoms[..n], s).state)
  {
    StepRest(atoms[..n], atoms[n], s.textBytes, Fold(atoms[..n], s).state);
    assert atoms[..n + 1] == atoms[..n] + [atoms[n]];
    assert (atoms[..n] + [atoms[n]])[..n + 1] == atoms[..n + 1];
    TakesLast(atoms, n, s);
    hide Fold, Apply;
  }

  // ---------------------------------------------------------------- events

  /** An event that is neither the end marker nor rejected. */
  predicate Accepted(event: string, json: string -> Payload) {
    && Strip(event) != "[DONE]"
    && json(event).Object? && !json(event).error && json(event).choices.Some?
  }

  /** The content strings of choice 0 in one event. */
  function ChoiceText(choices: seq<Choice>): string {
    if choices == [] then ""
    else (if choices[0].Choice? then choices[0].content else "") + ChoiceText(choices[1..])
  }

  function EventText(event: string, json: string -> Payload): string
    requires Accepted(event, json)
  {
    ChoiceText(json(event).choices.value)
  }

  /** The text of the events before the first end marker or rejected event. */
  function AnswerText(events: seq<string>, json: string -> Payload): string {
    if events == [] || !Accepted(events[0], json) then ""
    else EventText(events[0], json) + AnswerText(events[1..], json)
  }

  lemma {:induction false} ChoiceContents(choices: seq<Choice>)
    ensures Contents(ChoiceAtoms(choices)) == ChoiceText(choices)
    ensures forall a :: a in ChoiceAtoms(choices) ==> a.Delta?
  {
    if choices != [] {
      ChoiceContents(choices[1..]);
      if choices[0].Choice? {
        assert ChoiceAtoms(choices)[1..] == ChoiceAtoms(choices[1..]);
      } else {
        ChoiceSkip(choices);
      }
    }
  }

  lemma BytesOfPrefix(atoms: seq<Atom>, n: nat)
    requires n <= |atoms|
    ensures BytesOf(atoms[..n]) <= BytesOf(atoms)
  {
    hide BytesOf;
    assert atoms == atoms[..n] + atoms[n..];
    BytesConcat(atoms[..n], atoms[n..]);
  }

  /** A run that takes in all the atoms given, so long as the bound holds. */
  lemma {:induction false} DeltasWithinBound(atoms: seq<Atom>, s: GenState)
    requires Counted(s) && s.textBytes + BytesOf(atoms) <= 16 * 1024 * 1024
    requires forall a :: a in atoms ==> a.Delta?
    ensures var r := Fold(atoms, s);
            r.status.Running? && r.state.Text() == s.Text() + Contents(atoms) && Counted(r.state)
  {
    forall m: nat | m < |atoms|
      ensures !EndsReading(atoms, m, s.textBytes)
    {
      assert atoms[m] in atoms;
      BytesOfPrefix(atoms, m + 1);
    }
    hide EndsReading, BytesOf, Fold;
    FoldTakesAll(atoms, s);
  }

  /** The finish reason of the last choice 0 that has one. */
  function ChoiceFinish(choices: seq<Choice>, otherwise: Option<string>): Option<string> {
    if choices == [] then otherwise
    else
      var c := choices[0];
      ChoiceFinish(choices[1..], if c.Choice? && c.finish.Some? then c.finish else otherwise)
  }

  lemma {:induction false} ChoicesExact(choices: seq<Choice>, s: GenState)
    requires Fold(ChoiceAtoms(choices), s).status.Running?
    ensures var t := Fold(ChoiceAtoms(choices), s).state;
            && t.finishReason == ChoiceFinish(choices, s.finishReason)
            && t.usage == s.usage && t.events == s.events && t.complete == s.complete
  {
    if choices != [] {
      if choices[0].Choice? {
        var c := choices[0];
        ChoiceFold(choices, s);
        var t := Added(s, c.content, c.reasoning);
        ChoicesExact(choices[1..], if c.finish.Some? then t.(finishReason := c.finish) else t);
      } else {
        ChoiceSkip(choices);
        ChoicesExact(choices[1..], s);
      }
    }
  }

  /** The usage report of one event, if it has one. */
  function Report(event: string, json: string -> Payload, otherwise: Usage): Usage {
    var d := json(event);
    if d.Object? && d.usage.Some? then d.usage.value else otherwise
  }

  lemma AcceptedEvent(event: string, json: string -> Payload, s: GenState)
    requires Accepted(event, json)
    requires Counted(s) && s.textBytes + |Encode(EventText(event, json))| <= 16 * 1024 * 1024
    ensures var r := Fold(EventAtoms(event, json), s);
            && r.status.Running? && r.state.Text() == s.Text() + EventText(event, json) && Counted(r.state)
            && r.state.finishReason == ChoiceFinish(json(event).choices.value, s.finishReason)
            && r.state.usage == Report(event, json, s.usage)
            && r.state.events == s.events + 1 && r.state.complete == s.complete
  {
    hide EventAtoms, Fold, ChoiceFinish;
    EventFold(event, json, s);
    var d := json(event);
    var s1 := s.(events := s.events + 1);
    var s2 := if d.usage.Some? then s1.(usage := d.usage.value) else s1;
    ChoiceContents(d.choices.value);
    DeltasWithinBound(ChoiceAtoms(d.choices.value), s2);
    ChoicesExact(d.choices.value, s2);
  }

  /** How an event that is not accepted ends the reading. */
  function Ending(event: string, json: string -> Payload): Status {
    if Strip(event) == "[DONE]" then Finished
    else match json(event)
      case NotJson => Failed(BadJson)
      case NotObject => Failed(NotAnObject)
      case Object(error, _, _) => Failed(if error then ServerError else BadChoices)
  }

  lemma RejectedEvent(event: string, json: string -> Payload, s: GenState)
    requires !Accepted(event, json)
    ensures var r := Fold(EventAtoms(event, json), s);
            && r.status == Ending(event, json) && r.state.Text() == s.Text()
            && r.state.finishReason == s.finishReason
            && r.state.usage == (if r.status == Failed(BadChoices) then Report(event, json, s.usage) else s.usage)
            && r.state.events == s.events + (if Strip(event) != "[DONE]" && json(event).Object? then 1 else 0)
            && r.state.complete == (s.complete || r.status.Finished?)
  {
    hide EventAtoms, Fold, Strip;
    EventFold(event, json, s);
  }

  /** How many events come before the first end marker or rejected event. */
  function AcceptedCount(events: seq<string>, json: string -> Payload): (k: nat)
    ensures k <= |events|
    ensures forall i :: 0 <= i < k ==> Accepted(events[i], json)
    ensures k < |events| ==> !Accepted(events[k], json)
  {
    if events == [] || !Accepted(events[0], json) then 0 else 1 + AcceptedCount(events[1..], json)
  }

  function FinishReason(events: seq<string>, json: string -> Payload, otherwise: Option<string>): Option<string> {
    if events == [] || !Accepted(events[0], json) then otherwise
    else FinishReason(events[1..], json, ChoiceFinish(json(events[0]).choices.value, otherwise))
  }

  /** The last usage report among the events taken, and an event with bad choices after them. */
  function LastReport(events: seq<string>, json: string -> Payload, otherwise: Usage): Usage {
    if events == [] then otherwise
    else if Accepted(events[0], json) then LastReport(events[1..], json, Report(events[0], json, otherwise))
    else if Ending(events[0], json) == Failed(BadChoices) then Report(events[0], json, otherwise)
    else otherwise
  }

  /** Within the bound, and with the timer silent, an answer leaves the text of the events before
      the first end marker or rejected event, their last finish reason and their last usage
      report; that event decides how the reading ends, and the flag is read once for each. */
  lemma {:induction false} AnswerExact(events: seq<string>, json: string -> Payload,
                                       deadline: Option<nat>, check: nat, s: GenState)
    requires Counted(s) && s.textBytes + |Encode(AnswerText(events, json))| <= 16 * 1024 * 1024
    requires forall c: nat :: check <= c < check + |events| ==> !Expired(deadline, c)
    ensures var q := Fold(Atoms(events, json, deadline, check), s);
            var k := AcceptedCount(events, json);
            && q.status == (if k < |events| then Ending(events[k], json) else Running)
            && q.state.Text() == s.Text() + AnswerText(events, json)
            && q.state.finishReason == FinishReason(events, json, s.finishReason)
            && q.state.usage == LastReport(events, json, s.usage)
            && q.state.events == s.events + k
               + (if k < |events| && Strip(events[k]) != "[DONE]" && json(events[k]).Object? then 1 else 0)
            && q.state.complete == (s.complete || q.status.Finished?)
            && ChecksMade(events, json, s) == (if k < |events| then k + 1 else k)
  {
    hide EventAtoms, Concat, Accepted, EventText, Ending, Strip, Report, ChoiceFinish;
    NothingAdded(s.Text());
    if events != [] {
      assert !Expired(deadline, check);
      OneTurn(events, json, deadline, check, s);
      if Accepted(events[0], json) {
        AcceptedChoices(events[0], json);
        var x, y := EventText(events[0], json), AnswerText(events[1..], json);
        EncodeConcat(x, y);
        EncodeConcat(s.Text(), x);
        AcceptedEvent(events[0], json, s);
        var t := Fold(EventAtoms(events[0], json), s).state;
        AnswerExact(events[1..], json, deadline, check + 1, t);
        Assoc(s.Text(), x, y);
      } else {
        RejectedEvent(events[0], json, s);
        NeverRunning(events[0], json);
      }
    }
  }

  lemma AcceptedChoices(event: string, json: string -> Payload)
    requires Accepted(event, json)
    ensures json(event).Object? && json(event).choices.Some?
  {
  }

  lemma NeverRunning(event: string, json: string -> Payload)
    ensures !Ending(event, json).Running?
  {
  }

  /** One look at the flag, and one event. */
  lemma OneTurn(events: seq<string>, json: string -> Payload, deadline: Option<nat>, check: nat, s: GenState)
    requires events != []
    ensures var r := Fold(EventAtoms(events[0], json), s);
            && Fold(Atoms(events, json, deadline, check), s)
            == (if Expired(deadline, check) then Run(s, Failed(TimedOut))
                else if r.status.Running? then Fold(Atoms(events[1..], json, deadline, check + 1), r.state) else r)
            && ChecksMade(events, json, s)
            == 1 + (if r.status.Running? then ChecksMade(events[1..], json, r.state) else 0)
  {
    hide EventAtoms;
    if Expired(deadline, check) {
      assert Atoms(events, json, deadline, check) == [Fail(TimedOut)];
    } else {
      FoldConcat(EventAtoms(events[0], json), Atoms(events[1..], json, deadline, check + 1), s);
    }
  }

  /** With the flag set from look `d` on, the events before it are read as without a timer, and
      one more turn finds the flag. */
  lemma {:induction false} DeadlineCuts(events: seq<string>, json: string -> Payload, d: nat, check: nat, s: GenState)
    requires check <= d
    ensures Fold(Atoms(events, json, Some(d), check), s) == (
      if d - check < |events| then
        var r := Fold(Atoms(events[..d - check], json, None, check), s);
        if r.status.Running? then Run(r.state, Failed(TimedOut)) else r
      else Fold(Atoms(events, json, None, check), s))
  {
    hide EventAtoms;
    if events != [] {
      OneTurn(events, json, Some(d), check, s);
      OneTurn(events, json, None, check, s);
      if d > check {
        if d - check < |events| {
          var cut := events[..d - check];
          OneTurn(cut, json, None, check, s);
          assert cut[1..] == events[1..][..d - check - 1];
        }
        var r := Fold(EventAtoms(events[0], json), s);
        DeadlineCuts(events[1..], json, d, check + 1, r.state);
      }
    }
  }

  /** What follows an end marker has no effect, however the source ends. */
  lemma {:induction false} NothingAfterDone(events: seq<string>, k: nat, json: string -> Payload,
                                            deadline: Option<nat>, check: nat, s: GenState)
    requires k < |events| && Strip(events[k]) == "[DONE]"
    ensures var cut := events[..k + 1];
            && Fold(Atoms(events, json, deadline, check), s) == Fold(Atoms(cut, json, deadline, check), s)
            && !Fold(Atoms(cut, json, deadline, check), s).status.Running?
            && ChecksMade(events, json, s) == ChecksMade(cut, json, s)
    decreases k
  {
    hide EventAtoms, Fold, Atoms, ChecksMade, Strip;
    var cut := events[..k + 1];
    assert cut[1..] == events[1..][..k];
    OneTurn(events, json, deadline, check, s);
    OneTurn(cut, json, deadline, check, s);
    if k > 0 {
      var r := Fold(EventAtoms(events[0], json), s);
      NothingAfterDone(events[1..], k - 1, json, deadline, check + 1, r.state);
    } else {
      EventFold(events[0], json, s);
    }
  }

  lemma DoneCutsOff(events: seq<string>, k: nat, end: StreamEnd, end': StreamEnd,
                    json: string -> Payload, deadline: Option<nat>)
    requires k < |events| && Strip(events[k]) == "[DONE]"
    ensures Outcome(FRESH, events, end, json, deadline) == Outcome(FRESH, events[..k + 1], end', json, deadline)
  {
    NothingAfterDone(events, k, json, deadline, 0, FRESH);
  }

  /** `generate` returns normally exactly when the reading ended by the marker, or by end of
      stream after a finish reason; the flag was unset at the last check; and the text is not
      blank.  The accumulator then is complete and says how it ended. */
  lemma NormalReturn(events: seq<string>, end: StreamEnd, json: string -> Payload, deadline: Option<nat>)
    ensures var (t, e) := Outcome(FRESH, events, end, json, deadline);
            var r := Fold(Atoms(events, json, deadline, 0), FRESH);
            && (e.None? <==> (
                  && (r.status.Finished? || (r.status.Running? && end.Eof? && r.state.finishReason.Some?))
                  && !Expired(deadline, ChecksMade(events, json, FRESH))
                  && Strip(t.Text()) != ""))
            && (e.None? ==> t.complete && t.phase == Received)
            && (e.None? ==>
                  t.endedBy == Some(if r.status.Finished? then "[DONE]" else "finish_reason + EOF"))
            && (!t.complete ==> t.phase == Stopped)
            && t.Text() == r.state.Text()
            && (e.Some? ==> t.phase != Received)
            && (e.Some? ==>
                  e.value == (if r.status.Failed? then r.status.error
                              else if r.status.Running? && end.Broken? then StreamFailed
                              else if Expired(deadline, ChecksMade(events, json, FRESH)) then TimedOut
                              else if r.status.Running? && r.state.finishReason.None? then CutShort
                              else BlankAnswer))
  {
    var atoms := Atoms(events, json, deadline, 0);
    assert Counted(FRESH);
    var n := StopExists(atoms, 0, 0);
    FoldTakes(atoms, n, FRESH);
    NeverReceived(atoms, FRESH);
  }

  lemma {:induction false} NeverReceived(atoms: seq<Atom>, s: GenState)
    requires s.phase != Received
    ensures Fold(atoms, s).state.phase != Received
  {
    if atoms != [] {
      var r := Apply(atoms[0], s);
      NeverReceived(atoms[1..], r.state);
    }
  }
}
