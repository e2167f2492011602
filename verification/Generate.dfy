/** generate of html_studio.py: reading one answer, event by event, into a Generation.
    JSON decoding is a parameter; the timer is known by the number of checks that find its
    flag unset. */
module Generate {
  import opened Text
  import opened Utf8
  import opened Generation

  datatype Error =
    | OutputTooLarge | TimedOut | BadJson | NotAnObject | ServerError | BadChoices
    | StreamFailed | CutShort | BlankAnswer

  /** One entry of `choices`: not a dictionary, another index, a delta that is no dictionary,
      or the texts and the truthy finish reason of choice 0. */
  datatype Choice =
    | NotADict | OtherIndex | BadDelta
    | Choice(content: string, reasoning: string, finish: Option<string>)

  /** A decoded event. `error` covers both ways of reporting one; `usage` is present when it is
      a dictionary; `choices` is absent when it is neither empty nor a list. */
  datatype Payload =
    | NotJson | NotObject
    | Object(error: bool, usage: Option<Usage>, choices: Option<seq<Choice>>)

  /** How the event source ends: end of stream, or an exception raised by it. */
  datatype StreamEnd = Eof | Broken

  // ---------------------------------------------------------------- atoms of an answer

  /** An answer as a flat list of effects. */
  datatype Atom =
    | CountEvent
    | SetUsage(usage: Usage)
    | Delta(content: string, reasoning: string, finish: Option<string>)
    | Fail(error: Error)
    | Done

  function ChoiceAtoms(choices: seq<Choice>): seq<Atom> {
    if choices == [] then []
    else
      (match choices[0]
       case Choice(c, r, f) => [Delta(c, r, f)]
       case _ => [])
      + ChoiceAtoms(choices[1..])
  }

  function EventAtoms(event: string, json: string -> Payload): seq<Atom> {
    if Strip(event) == "[DONE]" then [Done]
    else match json(event)
      case NotJson => [Fail(BadJson)]
      case NotObject => [Fail(NotAnObject)]
      case Object(error, usage, choices) =>
        [CountEvent] +
        if error then [Fail(ServerError)]
        else (if usage.Some? then [SetUsage(usage.value)] else [])
             + (if choices.None? then [Fail(BadChoices)] else ChoiceAtoms(choices.value))
  }

  /** The flag is set by the time of check number `check`. */
  predicate Expired(deadline: Option<nat>, check: nat) {
    deadline.Some? && deadline.value <= check
  }

  /** The flag is read once before each event; `check` counts the readings. */
  function Atoms(events: seq<string>, json: string -> Payload, deadline: Option<nat>, check: nat): seq<Atom> {
    if events == [] then []
    else if Expired(deadline, check) then [Fail(TimedOut)]
    else EventAtoms(events[0], json) + Atoms(events[1..], json, deadline, check + 1)
  }

  // ---------------------------------------------------------------- the fold

  datatype Status = Running | Finished | Failed(error: Error)

  datatype Run = Run(state: GenState, status: Status)

  function Apply(a: Atom, s: GenState): Run {
    match a
    case CountEvent => Run(s.(events := s.events + 1), Running)
    case SetUsage(u) => Run(s.(usage := u), Running)
    case Delta(c, r, f) =>
      var t := Added(s, c, r);
      if t.textBytes > MAX_OUTPUT_BYTES then Run(t, Failed(OutputTooLarge))
      else Run(if f.Some? then t.(finishReason := f) else t, Running)
    case Fail(e) => Run(s, Failed(e))
    case Done => Run(s.(complete := true, endedBy := Some("[DONE]")), Finished)
  }

  function Fold(atoms: seq<Atom>, s: GenState): Run {
    if atoms == [] then Run(s, Running)
    else
      var r := Apply(atoms[0], s);
      if r.status.Running? then Fold(atoms[1..], r.state) else r
  }

  /** The checks after the loop, with the flag read once more. */
  function Conclude(s: GenState, expired: bool): (GenState, Option<Error>) {
    if expired then (s, Some(TimedOut))
    else
      var t := if !s.complete && s.finishReason.Some?
               then s.(complete := true, endedBy := Some("finish_reason + EOF")) else s;
      if !t.complete then (t, Some(CutShort))
      else if Strip(t.Text()) == "" then (t, Some(BlankAnswer))
      else (t.(phase := Received), None)
  }

  /** The `finally` block. */
  function Closed(s: GenState): GenState {
    if s.complete then s else s.(phase := Stopped)
  }

  /** How many times the flag has been read when the loop ends. */
  function ChecksMade(events: seq<string>, json: string -> Payload, s: GenState): nat {
    if events == [] then 0
    else
      var r := Fold(EventAtoms(events[0], json), s);
      1 + if r.status.Running? then ChecksMade(events[1..], json, r.state) else 0
  }

  /** How a request ends after its loop: the checks, then the `finally` block. */
  function Ended(r: Run, end: StreamEnd, expired: bool): (GenState, Option<Error>) {
    var t := if r.status.Failed? then (r.state, Some(r.status.error))
             else if r.status.Running? && end.Broken? then (r.state, Some(StreamFailed))
             else Conclude(r.state, expired);
    (Closed(t.0), t.1)
  }

  /** What one request leaves in the accumulator, and the exception it raises. */
  function Outcome(s: GenState, events: seq<string>, end: StreamEnd,
                   json: string -> Payload, deadline: Option<nat>): (GenState, Option<Error>)
  {
    Ended(Fold(Atoms(events, json, deadline, 0), s), end, Expired(deadline, ChecksMade(events, json, s)))
  }

  // ---------------------------------------------------------------- the reader

  /** Reads the choices of one event. */
  method ReadChoices(state: Generation, choices: seq<Choice>) returns (failed: bool)
    modifies state
    ensures Fold(ChoiceAtoms(choices), old(state.View()))
         == Run(state.View(), if failed then Failed(OutputTooLarge) else Running)
  {
    ghost var s0 := state.View();
    var i := 0;
    while i < |choices|
      invariant 0 <= i <= |choices|
      invariant Fold(ChoiceAtoms(choices), s0) == Fold(ChoiceAtoms(choices[i..]), state.View())
    {
      assert choices[i..][1..] == choices[i + 1..];
      var choice := choices[i];
      i := i + 1;
      if choice.Choice? {
        ghost var s := state.View();
        ChoiceFold(choices[i - 1..], s);
        var tooLarge := state.Add(choice.content, choice.reasoning);
        if tooLarge {
          return true;
        }
        if choice.finish.Some? {
          state.finishReason := choice.finish;
        }
      } else {
        ChoiceSkip(choices[i - 1..]);
      }
    }
    return false;
  }

  lemma ChoiceFold(choices: seq<Choice>, s: GenState)
    requires choices != [] && choices[0].Choice?
    ensures Fold(ChoiceAtoms(choices), s) == (
      var c := choices[0];
      var r := Apply(Delta(c.content, c.reasoning, c.finish), s);
      if r.status.Running? then Fold(ChoiceAtoms(choices[1..]), r.state) else r)
  {
    assert ChoiceAtoms(choices)[1..] == ChoiceAtoms(choices[1..]);
  }

  lemma ChoiceSkip(choices: seq<Choice>)
    requires choices != [] && !choices[0].Choice?
    ensures ChoiceAtoms(choices) == ChoiceAtoms(choices[1..])
  {
    assert [] + ChoiceAtoms(choices[1..]) == ChoiceAtoms(choices[1..]);
  }

  lemma {:induction false} FoldConcat(a: seq<Atom>, b: seq<Atom>, s: GenState)
    ensures var r := Fold(a, s);
            Fold(a + b, s) == if r.status.Running? then Fold(b, r.state) else r
  {
    if a == [] {
      assert a + b == b;
    } else {
      assert (a + b)[1..] == a[1..] + b;
      var r := Apply(a[0], s);
      if r.status.Running? { FoldConcat(a[1..], b, r.state); }
    }
  }

  /** The effects of one event, in the order the code has them. */
  lemma EventFold(event: string, json: string -> Payload, s: GenState)
    ensures Fold(EventAtoms(event, json), s) == (
      var d := json(event);
      if Strip(event) == "[DONE]" then Run(s.(complete := true, endedBy := Some("[DONE]")), Finished)
      else if d.NotJson? then Run(s, Failed(BadJson))
      else if d.NotObject? then Run(s, Failed(NotAnObject))
      else
        var s1 := s.(events := s.events + 1);
        var s2 := if d.usage.Some? then s1.(usage := d.usage.value) else s1;
        if d.error then Run(s1, Failed(ServerError))
        else if d.choices.None? then Run(s2, Failed(BadChoices))
        else Fold(ChoiceAtoms(d.choices.value), s2))
  {
    var d := json(event);
    if Strip(event) != "[DONE]" && d.Object? {
      var rest := EventAtoms(event, json)[1..];
      if d.error {
        assert rest == [Fail(ServerError)];
      } else {
        var report := if d.usage.Some? then [SetUsage(d.usage.value)] else [];
        var body := if d.choices.None? then [Fail(BadChoices)] else ChoiceAtoms(d.choices.value);
        assert rest == report + body;
        FoldConcat(report, body, s.(events := s.events + 1));
      }
    }
  }

  /** Handles one event whose flag check has passed. */
  method ReadEvent(state: Generation, event: string, json: string -> Payload) returns (status: Status)
    modifies state
    ensures Fold(EventAtoms(event, json), old(state.View())) == Run(state.View(), status)
  {
    hide EventAtoms, Fold, Strip;
    EventFold(event, json, state.View());
    if Strip(event) == "[DONE]" {
      state.complete, state.endedBy := true, Some("[DONE]");
      return Finished;
    }
    var data := json(event);
    if data.NotJson? {
      return Failed(BadJson);
    }
    if data.NotObject? {
      return Failed(NotAnObject);
    }
    state.events := state.events + 1;
    if data.error {
      return Failed(ServerError);
    }
    if data.usage.Some? {
      state.usage := data.usage.value;
    }
    if data.choices.None? {
      return Failed(BadChoices);
    }
    var failed := ReadChoices(state, data.choices.value);
    return if failed then Failed(OutputTooLarge) else Running;
  }

  /** The checks after the loop, and the `finally` block. */
  method Finish(state: Generation, status: Status, end: StreamEnd, expired: bool) returns (raised: Option<Error>)
    modifies state
    ensures (state.View(), raised) == Ended(Run(old(state.View()), status), end, expired)
  {
    if status.Failed? {
      raised := Some(status.error);
    } else if status.Running? && end.Broken? {
      raised := Some(StreamFailed);
    } else if expired {
      raised := Some(TimedOut);
    } else {
      if !state.complete && state.finishReason.Some? {
        state.complete, state.endedBy := true, Some("finish_reason + EOF");
      }
      if !state.complete {
        raised := Some(CutShort);
      } else if Strip(Concat(state.parts)) == "" {
        raised := Some(BlankAnswer);
      } else {
        state.phase := Received;
        raised := None;
      }
    }
    if !state.complete {
      state.phase := Stopped;
    }
  }

  /** One turn of the loop whose flag check has passed. */
  lemma TurnFold(events: seq<string>, json: string -> Payload, deadline: Option<nat>, i: nat, s: GenState)
    requires i < |events| && !Expired(deadline, i)
    ensures var r := Fold(EventAtoms(events[i], json), s);
            && Fold(Atoms(events[i..], json, deadline, i), s)
            == (if r.status.Running? then Fold(Atoms(events[i + 1..], json, deadline, i + 1), r.state) else r)
            && ChecksMade(events[i..], json, s)
            == 1 + (if r.status.Running? then ChecksMade(events[i + 1..], json, r.state) else 0)
  {
    assert events[i..][1..] == events[i + 1..];
    FoldConcat(EventAtoms(events[i], json), Atoms(events[i + 1..], json, deadline, i + 1), s);
  }

  method ReadAnswer(state: Generation, events: seq<string>, end: StreamEnd,
                    json: string -> Payload, deadline: Option<nat>) returns (raised: Option<Error>)
    modifies state
    ensures (state.View(), raised) == Outcome(old(state.View()), events, end, json, deadline)
  {
    ghost var s0 := state.View();
    var i := 0;
    var status := Running;
    while i < |events| && status.Running?
      invariant 0 <= i <= |events|
      invariant status.Running? ==>
        && Fold(Atoms(events, json, deadline, 0), s0) == Fold(Atoms(events[i..], json, deadline, i), state.View())
        && ChecksMade(events, json, s0) == i + ChecksMade(events[i..], json, state.View())
      invariant !status.Running? ==>
        && Fold(Atoms(events, json, deadline, 0), s0) == Run(state.View(), status)
        && (status.Finished? ==> ChecksMade(events, json, s0) == i)
      decreases |events| - i, if status.Running? then 1 else 0
    {
      if Expired(deadline, i) {
        status := Failed(TimedOut);
      } else {
        TurnFold(events, json, deadline, i, state.View());
        hide Fold, Atoms, ChecksMade;
        status := ReadEvent(state, events[i], json);
        i := i + 1;
      }
    }
    raised := Finish(state, status, end, Expired(deadline, i));
  }
}
