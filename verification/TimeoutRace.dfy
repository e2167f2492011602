/** The race inside `generate` of html_studio.py: the timer thread sets its flag and then shuts
    the socket, the reader takes events and looks at the flag.  A state machine over the steps
    of both, and what holds in every interleaving. */
module TimeoutRace {
  import opened Text
  import opened Generation
  import opened Generate
  import opened AnswerLaws

  /** What the server would send if nobody shut the socket. */
  datatype World = World(server: seq<string>, end: StreamEnd, json: string -> Payload)

  datatype Timer = Armed | FlagSet | SocketShut

  /** Where the reader is: waiting for an event, about to look at the flag, past that look,
      at the look after the loop, past it, or gone. */
  datatype Reader =
    | Reading
    | Looking(event: string)
    | Processing(event: string)
    | AtEnd(status: Status)
    | Concluding(status: Status)
    | Gone(raised: Option<Error>)

  /** `taken` counts the server's events handed to the reader.  The last three fields are
      history: the events processed, whether end of stream was the timer's doing, and how many
      events had been processed when the flag was set. */
  datatype State = State(
    timer: Timer, reader: Reader, taken: nat, gen: GenState,
    processed: seq<string>, endByTimer: bool, atFlag: nat)

  ghost predicate Init(s: State) {
    s == State(Armed, Reading, 0, FRESH, [], false, 0)
  }

  predicate FlagIsSet(s: State) {
    !s.timer.Armed?
  }

  // ---------------------------------------------------------------- the timer's steps

  ghost predicate SetFlag(s: State, t: State) {
    s.timer.Armed? && t == s.(timer := FlagSet, atFlag := |s.processed|)
  }

  ghost predicate ShutSocket(s: State, t: State) {
    s.timer.FlagSet? && t == s.(timer := SocketShut)
  }

  // ---------------------------------------------------------------- the reader's steps

  /** A whole event arrives; buffered ones still arrive after the socket is shut. */
  ghost predicate TakeEvent(w: World, s: State, t: State) {
    && s.reader.Reading? && s.taken < |w.server|
    && t == s.(reader := Looking(w.server[s.taken]), taken := s.taken + 1)
  }

  /** The server's own end of stream, or its failure. */
  ghost predicate ServerEnds(w: World, s: State, t: State) {
    && s.reader.Reading? && s.taken == |w.server|
    && t == if w.end.Eof? then s.(reader := AtEnd(Running))
            else s.(reader := Gone(Some(StreamFailed)), gen := Closed(s.gen))
  }

  /** A shut socket ends the stream anywhere.  What was collected of an event comes out as an
      event of any text; then, or at once, comes end of stream or an error. */
  ghost predicate ShutEnds(s: State, t: State) {
    && s.reader.Reading? && s.timer.SocketShut?
    && ((exists cut: string :: t == s.(reader := Looking(cut)))
        || t == s.(reader := AtEnd(Running), endByTimer := true)
        || t == s.(reader := Gone(Some(StreamFailed)), gen := Closed(s.gen)))
  }

  ghost predicate LookAtFlag(s: State, t: State) {
    && s.reader.Looking?
    && t == if FlagIsSet(s) then s.(reader := Gone(Some(TimedOut)), gen := Closed(s.gen))
            else s.(reader := Processing(s.reader.event))
  }

  ghost predicate Process(w: World, s: State, t: State) {
    && s.reader.Processing?
    && var r := Fold(EventAtoms(s.reader.event, w.json), s.gen);
       var u := s.(gen := r.state, processed := s.processed + [s.reader.event]);
       t == if r.status.Failed? then u.(reader := Gone(Some(r.status.error)), gen := Closed(r.state))
            else u.(reader := if r.status.Finished? then AtEnd(Finished) else Reading)
  }

  ghost predicate LastLook(s: State, t: State) {
    && s.reader.AtEnd?
    && t == if FlagIsSet(s) then s.(reader := Gone(Some(TimedOut)), gen := Closed(s.gen))
            else s.(reader := Concluding(s.reader.status))
  }

  ghost predicate Leave(s: State, t: State) {
    && s.reader.Concluding?
    && var c := Conclude(s.gen, false);
       t == s.(reader := Gone(c.1), gen := Closed(c.0))
  }

  ghost predicate Next(w: World, s: State, t: State) {
    || SetFlag(s, t) || ShutSocket(s, t)
    || TakeEvent(w, s, t) || ServerEnds(w, s, t) || ShutEnds(s, t)
    || LookAtFlag(s, t) || Process(w, s, t) || LastLook(s, t) || Leave(s, t)
  }

  ghost predicate Behavior(w: World, b: seq<State>) {
    && b != [] && Init(b[0])
    && forall i: nat :: i + 1 < |b| ==> Next(w, b[i], b[i + 1])
  }

  // ---------------------------------------------------------------- the invariant

  /** Reading events with no timer. */
  function FoldEvents(events: seq<string>, json: string -> Payload): Run {
    Fold(Atoms(events, json, None, 0), FRESH)
  }

  /** The event in the reader's hands, if it is past the look at the flag. */
  function InHand(r: Reader): seq<string> {
    if r.Processing? then [r.event] else []
  }

  /** The run is one that `ReadAnswer` makes on its own, the flag appearing between two of its
      looks: on `events`, which start with the processed ones. */
  ghost predicate Sequential(w: World, s: State, events: seq<string>, end: StreamEnd, deadline: Option<nat>) {
    && s.reader.Gone? && s.processed <= events
    && (s.gen, s.reader.raised) == Outcome(FRESH, events, end, w.json, deadline)
  }

  /** Only whole events of the server are ever processed, in its order; at most one of them
      after the flag is set; and the accumulator is what they make of it. */
  ghost predicate Faithful(w: World, s: State) {
    && s.taken <= |w.server|
    && s.processed + InHand(s.reader) <= w.server
    && (FlagIsSet(s) ==> |s.processed + InHand(s.reader)| <= s.atFlag + 1)
    && (s.endByTimer ==> s.timer.SocketShut?)
  }

  ghost predicate AtReader(w: World, s: State)
    requires s.taken <= |w.server|
  {
    match s.reader
    case Reading =>
      s.processed == w.server[..s.taken] && FoldEvents(s.processed, w.json) == Run(s.gen, Running)
    case Looking(e) =>
      && (s.timer.SocketShut? || s.processed + [e] == w.server[..s.taken])
      && FoldEvents(s.processed, w.json) == Run(s.gen, Running)
    case Processing(e) =>
      s.processed + [e] == w.server[..s.taken] && FoldEvents(s.processed, w.json) == Run(s.gen, Running)
    case AtEnd(status) =>
      && FoldEvents(s.processed, w.json) == Run(s.gen, status) && !status.Failed?
      && (status.Running? ==> s.timer.SocketShut? || (s.processed == w.server && w.end.Eof?))
    case Concluding(status) =>
      && FoldEvents(s.processed, w.json) == Run(s.gen, status) && !status.Failed? && !s.endByTimer
      && (status.Running? ==> s.processed == w.server && w.end.Eof?)
    case Gone(raised) =>
      && (exists events, end, deadline :: Sequential(w, s, events, end, deadline))
      && (raised.None? ==> !s.endByTimer && Sequential(w, s, w.server, w.end, None))
  }

  ghost predicate Inv(w: World, s: State) {
    Faithful(w, s) && AtReader(w, s)
  }

  // ---------------------------------------------------------------- runs with and without a timer

  /** A deadline that none of the looks meets is no deadline. */
  lemma {:induction false} AtomsBeforeDeadline(events: seq<string>, json: string -> Payload, d: nat, check: nat)
    requires check + |events| <= d
    ensures Atoms(events, json, Some(d), check) == Atoms(events, json, None, check)
  {
    if events != [] { AtomsBeforeDeadline(events[1..], json, d, check + 1); }
  }

  lemma {:induction false} AtomsConcat(a: seq<string>, b: seq<string>, json: string -> Payload,
                                       deadline: Option<nat>, check: nat)
    requires deadline.Some? ==> check + |a| <= deadline.value
    ensures Atoms(a + b, json, deadline, check)
         == Atoms(a, json, deadline, check) + Atoms(b, json, deadline, check + |a|)
  {
    if a == [] {
      assert a + b == b;
    } else {
      assert (a + b)[1..] == a[1..] + b;
      AtomsConcat(a[1..], b, json, deadline, check + 1);
      Assoc(EventAtoms(a[0], json), Atoms(a[1..], json, deadline, check + 1), Atoms(b, json, deadline, check + |a|));
    }
  }

  lemma FoldEventsSnoc(events: seq<string>, e: string, json: string -> Payload)
    requires FoldEvents(events, json).status.Running?
    ensures FoldEvents(events + [e], json) == Fold(EventAtoms(e, json), FoldEvents(events, json).state)
  {
    AtomsConcat(events, [e], json, None, 0);
    assert [e][1..] == [];
    NothingAdded(EventAtoms(e, json));
    FoldConcat(Atoms(events, json, None, 0), EventAtoms(e, json), FRESH);
  }

  /** A reading that has ended is not changed by more events. */
  lemma EndedStays(a: seq<string>, b: seq<string>, json: string -> Payload)
    requires a <= b && !FoldEvents(a, json).status.Running?
    ensures FoldEvents(b, json) == FoldEvents(a, json)
  {
    hide Fold, EventAtoms;
    assert b == a + b[|a|..];
    AtomsConcat(a, b[|a|..], json, None, 0);
    FoldConcat(Atoms(a, json, None, 0), Atoms(b[|a|..], json, None, |a|), FRESH);
  }

  /** The flag appears before the look at event `e`. */
  lemma TimedOutAtEvent(p: seq<string>, e: string, json: string -> Payload)
    requires FoldEvents(p, json).status.Running?
    ensures Outcome(FRESH, p + [e], Eof, json, Some(|p|))
         == (Closed(FoldEvents(p, json).state), Some(TimedOut))
  {
    AtomsConcat(p, [e], json, Some(|p|), 0);
    AtomsBeforeDeadline(p, json, |p|, 0);
    assert Atoms([e], json, Some(|p|), |p|) == [Fail(TimedOut)];
    FoldConcat(Atoms(p, json, None, 0), [Fail(TimedOut)], FRESH);
  }

  /** The flag appears before the last look. */
  lemma TimedOutAtEnd(p: seq<string>, json: string -> Payload)
    requires !FoldEvents(p, json).status.Failed?
    ensures exists d: nat :: Outcome(FRESH, p, Eof, json, Some(d))
                          == (Closed(FoldEvents(p, json).state), Some(TimedOut))
  {
    hide Fold, Atoms, ChecksMade;
    var d := ChecksMade(p, json, FRESH);
    CheckedBefore(p, json, 0, FRESH);
    assert Outcome(FRESH, p, Eof, json, Some(d)) == (Closed(FoldEvents(p, json).state), Some(TimedOut));
  }

  /** A flag that appears after the last look inside the loop is not seen inside it. */
  lemma {:induction false} CheckedBefore(p: seq<string>, json: string -> Payload, check: nat, s: GenState)
    ensures Fold(Atoms(p, json, Some(check + ChecksMade(p, json, s)), check), s) == Fold(Atoms(p, json, None, check), s)
  {
    hide EventAtoms, Apply;
    if p != [] {
      var d := check + ChecksMade(p, json, s);
      FoldConcat(EventAtoms(p[0], json), Atoms(p[1..], json, Some(d), check + 1), s);
      FoldConcat(EventAtoms(p[0], json), Atoms(p[1..], json, None, check + 1), s);
      var r := Fold(EventAtoms(p[0], json), s);
      if r.status.Running? { CheckedBefore(p[1..], json, check + 1, r.state); }
    }
  }

  // ---------------------------------------------------------------- every step keeps it

  lemma InitInv(w: World, s: State)
    requires Init(s)
    ensures Inv(w, s)
  {
    assert [] + InHand(s.reader) == [] && w.server[..0] == [];
  }

  lemma ReaderKeeps(w: World, s: State, t: State)
    requires Inv(w, s)
    requires TakeEvent(w, s, t) || LookAtFlag(s, t) || Process(w, s, t)
    ensures Inv(w, t)
  {
    hide Fold, EventAtoms, Outcome, FoldEvents, Conclude;
    NothingAdded(s.processed);
    if TakeEvent(w, s, t) {
      assert w.server[..t.taken] == w.server[..s.taken] + [w.server[s.taken]];
    } else if LookAtFlag(s, t) {
      if FlagIsSet(s) {
        TimedOutAtEvent(s.processed, s.reader.event, w.json);
        assert Sequential(w, t, s.processed + [s.reader.event], Eof, Some(|s.processed|));
      }
    } else {
      FoldEventsSnoc(s.processed, s.reader.event, w.json);
      NothingAdded(t.processed);
      if t.reader.Gone? {
        FailedOutcome(t.processed, w.json);
        assert Sequential(w, t, t.processed, Eof, None);
      }
    }
  }

  lemma FailedOutcome(p: seq<string>, json: string -> Payload)
    ensures var r := FoldEvents(p, json);
            && (r.status.Failed? ==> Outcome(FRESH, p, Eof, json, None) == (Closed(r.state), Some(r.status.error)))
            && (r.status.Running? ==> Outcome(FRESH, p, Broken, json, None) == (Closed(r.state), Some(StreamFailed)))
            && (!r.status.Failed? ==>
                  Outcome(FRESH, p, Eof, json, None)
                  == (Closed(Conclude(r.state, false).0), Conclude(r.state, false).1))
  {
  }

  lemma EndKeeps(w: World, s: State, t: State)
    requires Inv(w, s)
    requires ServerEnds(w, s, t) || ShutEnds(s, t)
    ensures Inv(w, t)
  {
    hide Fold, EventAtoms, Outcome, FoldEvents, Conclude;
    NothingAdded(s.processed);
    assert s.taken == |w.server| ==> w.server[..s.taken] == w.server;
    if t.reader.Gone? {
      FailedOutcome(s.processed, w.json);
      assert Sequential(w, t, s.processed, Broken, None);
    }
  }

  lemma LeaveKeeps(w: World, s: State, t: State)
    requires Inv(w, s)
    requires LastLook(s, t) || Leave(s, t)
    ensures Inv(w, t)
  {
    hide Fold, EventAtoms, Outcome, FoldEvents, Conclude;
    NothingAdded(s.processed);
    if LastLook(s, t) {
      if FlagIsSet(s) {
        TimedOutAtEnd(s.processed, w.json);
        var d: nat :| Outcome(FRESH, s.processed, Eof, w.json, Some(d)) == (t.gen, Some(TimedOut));
        assert Sequential(w, t, s.processed, Eof, Some(d));
      }
    } else {
      FailedOutcome(s.processed, w.json);
      assert Sequential(w, t, s.processed, Eof, None);
      if s.reader.status.Finished? {
        EndedStays(s.processed, w.server, w.json);
        FinishedOutcome(s.processed, w);
      }
    }
  }

  lemma FinishedOutcome(p: seq<string>, w: World)
    requires FoldEvents(w.server, w.json) == FoldEvents(p, w.json)
    requires FoldEvents(p, w.json).status.Finished?
    ensures Outcome(FRESH, w.server, w.end, w.json, None) == Outcome(FRESH, p, Eof, w.json, None)
  {
  }

  lemma NextInv(w: World, s: State, t: State)
    requires Inv(w, s) && Next(w, s, t)
    ensures Inv(w, t)
  {
    hide Fold, EventAtoms, Outcome, FoldEvents;
    if SetFlag(s, t) || ShutSocket(s, t) {
      TimerKeeps(w, s, t);
    } else if TakeEvent(w, s, t) || LookAtFlag(s, t) || Process(w, s, t) {
      ReaderKeeps(w, s, t);
    } else if ServerEnds(w, s, t) || ShutEnds(s, t) {
      EndKeeps(w, s, t);
    } else {
      LeaveKeeps(w, s, t);
    }
  }

  lemma TimerKeeps(w: World, s: State, t: State)
    requires Inv(w, s)
    requires SetFlag(s, t) || ShutSocket(s, t)
    ensures Inv(w, t)
  {
    hide Outcome, FoldEvents;
    if s.reader.Gone? {
      var events, end, deadline :| Sequential(w, s, events, end, deadline);
      assert Sequential(w, t, events, end, deadline);
    }
  }

  /** Every state of every interleaving. */
  lemma {:induction false} AlwaysInv(w: World, b: seq<State>, i: nat)
    requires Behavior(w, b) && i < |b|
    ensures Inv(w, b[i])
  {
    if i == 0 {
      InitInv(w, b[0]);
    } else {
      AlwaysInv(w, b, i - 1);
      NextInv(w, b[i - 1], b[i]);
    }
  }

  // ---------------------------------------------------------------- what follows

  /** A normal return owes nothing to the timer: end of stream was the server's, and the
      accumulator is what the whole answer gives with no timer at all. */
  lemma NormalReturnIsTimerless(w: World, b: seq<State>, i: nat)
    requires Behavior(w, b) && i < |b| && b[i].reader == Gone(None)
    ensures !b[i].endByTimer
    ensures (b[i].gen, None) == Outcome(FRESH, w.server, w.end, w.json, None)
    ensures b[i].gen.complete && b[i].gen.endedBy.Some? && Strip(b[i].gen.Text()) != ""
  {
    AlwaysInv(w, b, i);
    hide Outcome, Fold, EventAtoms;
    NormalReturn(w.server, w.end, w.json, None);
  }

  /** End of stream caused by the timer always ends in an error. */
  lemma TimerEndRaises(w: World, b: seq<State>, i: nat)
    requires Behavior(w, b) && i < |b| && b[i].endByTimer && b[i].reader.Gone?
    ensures b[i].reader.raised.Some?
  {
    AlwaysInv(w, b, i);
  }

  /** What is kept is always made of whole events of the server, with at most one event
      processed after the flag is set; and the run is one of the sequential reader. */
  lemma KeepsWholeEvents(w: World, b: seq<State>, i: nat)
    requires Behavior(w, b) && i < |b|
    ensures b[i].processed <= w.server
    ensures FlagIsSet(b[i]) ==> |b[i].processed| <= b[i].atFlag + 1
    ensures b[i].reader.Gone? ==> exists events, end, deadline :: Sequential(w, b[i], events, end, deadline)
  {
    AlwaysInv(w, b, i);
  }
}
