/** The continuation loop of html_studio.py's `main`, from the first request to the exit: what
    becomes of the text over any number of rounds, and which file it ends in. */
module Studio {
  import opened Text
  import opened Utf8
  import opened HtmlExtract
  import opened Continuation
  import Generation
  import opened Generate
  import opened AnswerLaws

  type GenState = Generation.GenState

  // ---------------------------------------------------------------- one run's surroundings

  /** The user's reply when asked whether to continue: a line, or an interrupt or end of file. */
  datatype Reply = Line(text: string) | Cancel

  predicate Accepts(reply: Reply) {
    reply.Line? && LowerAll(Strip(reply.text)) in ["", "y", "yes"]
  }

  /** How saving the final HTML goes; a failure may come after the HTML file is complete. */
  datatype Save = Saved | SaveFails(htmlWritten: bool, interrupted: bool)

  /** All that is outside the program's control in one round: the answer, the timer, whether a
      KeyboardInterrupt takes the place of the request's own outcome, the user, the disk. */
  datatype Round = Round(
    events: seq<string>, end: StreamEnd, deadline: Option<nat>, interrupted: bool,
    reply: Reply, save: Save, partialWritable: bool)

  datatype Setting = Setting(json: string -> Payload, tty: bool)

  // ---------------------------------------------------------------- one round

  datatype Failure = Raised(error: Error) | Interrupted | Incomplete | SaveFailed

  /** The exit of the program: the last accumulator, why it failed if it did, and the files. */
  datatype Exit = Exit(
    state: GenState, failure: Option<Failure>, code: nat, html: Option<string>, partial: Option<string>)

  datatype RoundEnd = Continues(prefix: string) | Stops(exit: Exit)

  /** What reading the answer of this round takes, before any check. */
  function Reading(w: Setting, r: Round): Run {
    Fold(Atoms(r.events, w.json, r.deadline, 0), Generation.FRESH)
  }

  /** The text the provider sent in this round. */
  function Received(w: Setting, r: Round): string {
    Reading(w, r).state.Text()
  }

  /** That text, joined to what was there before. */
  function TextAfter(w: Setting, prefix: string, r: Round): string {
    if prefix != "" then Merge(prefix, Received(w, r)) else Received(w, r)
  }

  function Merged(g: GenState, prefix: string): GenState {
    var text := Merge(prefix, g.Text());
    g.(parts := [text], textBytes := |Encode(text)|)
  }

  /** The accumulator after the request and its `finally`, and the exception under way. */
  function AfterRequest(w: Setting, prefix: string, r: Round): (GenState, Option<Failure>) {
    var (g, e) := Outcome(Generation.FRESH, r.events, r.end, w.json, r.deadline);
    (if prefix != "" then Merged(g, prefix) else g,
     if r.interrupted then Some(Interrupted) else if e.Some? then Some(Raised(e.value)) else None)
  }

  /** Whether the program's last `finally` writes the partial file. */
  predicate PartialDue(g: GenState) {
    g.Text() != "" && (!g.complete || ExtractHtml(g.Text()) == "")
  }

  function ExitWith(g: GenState, f: Option<Failure>, html: Option<string>, r: Round): Exit {
    Exit(g, f, if f.None? then 0 else if f.value.Interrupted? then 130 else 1, html,
         if PartialDue(g) && r.partialWritable then Some(g.Text()) else None)
  }

  function Saving(g: GenState, r: Round): Exit {
    var html := ExtractHtml(g.Text());
    match r.save
    case Saved => ExitWith(g, None, Some(html), r)
    case SaveFails(written, interrupted) =>
      ExitWith(g, Some(if interrupted then Interrupted else SaveFailed), if written then Some(html) else None, r)
  }

  function Play(w: Setting, prefix: string, r: Round): RoundEnd {
    var (g, f) := AfterRequest(w, prefix, r);
    if f.Some? then Stops(ExitWith(g, f, None, r))
    else if ExtractHtml(g.Text()) != "" then Stops(Saving(g, r))
    else if g.finishReason == Some("length") && w.tty then
      if r.reply.Cancel? then Stops(ExitWith(g, Some(Interrupted), None, r))
      else if Accepts(r.reply) then Continues(g.Text())
      else Stops(ExitWith(g, Some(Incomplete), None, r))
    else Stops(ExitWith(g, Some(Incomplete), None, r))
  }

  // ---------------------------------------------------------------- the loop

  /** Where a session is after the given rounds: about to make another request, or gone. */
  function Session(w: Setting, prefix: string, rounds: seq<Round>): RoundEnd
    decreases |rounds|
  {
    if rounds == [] then Continues(prefix)
    else
      var e := Play(w, prefix, rounds[0]);
      if e.Continues? then Session(w, e.prefix, rounds[1..]) else e
  }

  method RunRound(w: Setting, prefix: string, r: Round) returns (state: Generation.Generation, failure: Option<Failure>)
    ensures fresh(state)
    ensures (state.View(), failure) == AfterRequest(w, prefix, r)
  {
    state := new Generation.Generation();
    var raised := ReadAnswer(state, r.events, r.end, w.json, r.deadline);
    failure := if r.interrupted then Some(Interrupted) else if raised.Some? then Some(Raised(raised.value)) else None;
    if prefix != "" {
      var text := MergeContinuation(prefix, Concat(state.parts));
      state.parts := [text];
      state.textBytes := |Encode(text)|;
    }
  }

  method RunSession(w: Setting, prefix0: string, rounds: seq<Round>) returns (result: RoundEnd)
    ensures result == Session(w, prefix0, rounds)
  {
    var prefix := prefix0;
    var i := 0;
    while i < |rounds|
      invariant 0 <= i <= |rounds|
      invariant Session(w, prefix0, rounds) == Session(w, prefix, rounds[i..])
    {
      var r := rounds[i];
      assert rounds[i..][0] == r && rounds[i..][1..] == rounds[i + 1..];
      var state, failure := RunRound(w, prefix, r);
      var g := state.View();
      if failure.Some? {
        return Stops(ExitWith(g, failure, None, r));
      }
      if ExtractHtml(g.Text()) != "" {
        return Stops(Saving(g, r));
      }
      if state.finishReason == Some("length") && w.tty {
        if r.reply.Cancel? {
          return Stops(ExitWith(g, Some(Interrupted), None, r));
        }
        if LowerAll(Strip(r.reply.text)) in ["", "y", "yes"] {
          prefix := g.Text();
          i := i + 1;
          continue;
        }
      }
      return Stops(ExitWith(g, Some(Incomplete), None, r));
    }
    return Continues(prefix);
  }

  // ---------------------------------------------------------------- text over the rounds

  lemma MergedText(g: GenState, prefix: string)
    ensures Merged(g, prefix).Text() == Merge(prefix, g.Text())
    ensures Generation.Counted(Merged(g, prefix))
  {
    hide Merge;
    var text := Merge(prefix, g.Text());
    assert [text][1..] == [];
    NothingAdded(text);
    assert Concat([text]) == text + Concat([]);
  }

  lemma RoundText(w: Setting, prefix: string, r: Round)
    ensures AfterRequest(w, prefix, r).0.Text() == TextAfter(w, prefix, r)
  {
    hide Merge, Outcome, Concat, Fold;
    NormalReturn(r.events, r.end, w.json, r.deadline);
    MergedText(Outcome(Generation.FRESH, r.events, r.end, w.json, r.deadline).0, prefix);
  }

  lemma FenceIsSuffix(tail: string)
    ensures EndsWith(tail, StripFence(tail))
  {
    var n := Find(tail, '\n') + 1;
    assert n <= |tail| ==> |tail| - |tail[n..]| == n;
    assert tail[0..] == tail;
  }

  /** No round, whether it ends well or is cut off, drops what was there before, unless it
      brought a whole document, and such a round is the last; nor does it drop what it received. */
  lemma RoundKeepsText(w: Setting, prefix: string, r: Round)
    ensures var text := AfterRequest(w, prefix, r).0.Text();
            && EndsWith(text, StripFence(Received(w, r)))
            && (prefix <= text || (text == Received(w, r) && ExtractHtml(text) != ""))
            && (Play(w, prefix, r).Continues? ==>
                  prefix <= text && ExtractHtml(text) == "" && Play(w, prefix, r).prefix == text)
            && (ExtractHtml(text) != "" ==> Play(w, prefix, r).Stops?)
  {
    hide ExtractHtml, Merge, Outcome;
    RoundText(w, prefix, r);
    MergeExtends(prefix, Received(w, r));
    MergeKeepsTail(prefix, Received(w, r));
    FenceIsSuffix(Received(w, r));
  }

  /** The prefixes with which the rounds of a session start. */
  function Prefixes(w: Setting, prefix: string, rounds: seq<Round>): seq<string>
    decreases |rounds|
  {
    if rounds == [] then [prefix]
    else
      var e := Play(w, prefix, rounds[0]);
      [prefix] + if e.Continues? then Prefixes(w, e.prefix, rounds[1..]) else []
  }

  /** Over any number of rounds the prefixes form a chain, and none that a round produced holds
      a whole document. */
  lemma {:induction false} PrefixesFormAChain(w: Setting, prefix: string, rounds: seq<Round>)
    ensures var ps := Prefixes(w, prefix, rounds);
            && ps != [] && ps[0] == prefix
            && (forall i, j :: 0 <= i <= j < |ps| ==> ps[i] <= ps[j])
            && (forall i :: 0 < i < |ps| ==> ExtractHtml(ps[i]) == "")
    decreases |rounds|
  {
    hide Play, ExtractHtml;
    if rounds != [] {
      var e := Play(w, prefix, rounds[0]);
      RoundKeepsText(w, prefix, rounds[0]);
      if e.Continues? {
        PrefixesFormAChain(w, e.prefix, rounds[1..]);
        var ps, qs := Prefixes(w, prefix, rounds), Prefixes(w, e.prefix, rounds[1..]);
        assert ps == [prefix] + qs;
      }
    }
  }

  /** A session that exits does so in its last round entered, whose start holds all the text of
      the rounds before it. */
  lemma {:induction false} LastRound(w: Setting, prefix: string, rounds: seq<Round>)
    requires Session(w, prefix, rounds).Stops?
    ensures var ps := Prefixes(w, prefix, rounds);
            var n := |ps| - 1;
            && 0 <= n < |rounds| && prefix <= ps[n]
            && Play(w, ps[n], rounds[n]) == Session(w, prefix, rounds)
    decreases |rounds|
  {
    hide Play, ExtractHtml;
    PrefixesFormAChain(w, prefix, rounds);
    var e := Play(w, prefix, rounds[0]);
    if e.Continues? {
      LastRound(w, e.prefix, rounds[1..]);
      var qs := Prefixes(w, e.prefix, rounds[1..]);
      assert Prefixes(w, prefix, rounds) == [prefix] + qs;
    }
  }

  // ---------------------------------------------------------------- the files

  /** The accumulator at the exit of a round is the one its request left. */
  lemma ExitState(w: Setting, p: string, r: Round)
    requires Play(w, p, r).Stops?
    ensures var x := Play(w, p, r).exit;
            var (g, f) := AfterRequest(w, p, r);
            && x.state == g
            && x.partial == (if PartialDue(g) && r.partialWritable then Some(g.Text()) else None)
            && (x.code == 0 <==> x.failure.None?) && (x.code == 130 <==> x.failure == Some(Interrupted))
            && (f.Some? ==> x.failure == f && x.html.None?)
            && (f.None? ==> g.complete)
            && (f.None? && ExtractHtml(g.Text()) != "" ==> x == Saving(g, r))
            && (f.None? && ExtractHtml(g.Text()) == "" ==> x.html.None? && x.failure.Some?)
  {
    hide ExtractHtml, Merge, Outcome, Fold;
    NormalReturn(r.events, r.end, w.json, r.deadline);
    var o := Outcome(Generation.FRESH, r.events, r.end, w.json, r.deadline);
    assert o.1.None? ==> o.0.complete;
    var a := AfterRequest(w, p, r);
    assert a.1.None? ==> o.1.None?;
    assert a.0.complete == o.0.complete;
  }

  /** One run never writes both files. */
  lemma NeverBothFiles(w: Setting, prefix: string, rounds: seq<Round>)
    requires Session(w, prefix, rounds).Stops?
    ensures var x := Session(w, prefix, rounds).exit;
            && !(x.html.Some? && x.partial.Some?)
            && (x.html.Some? ==> x.html.value == ExtractHtml(x.state.Text()) != "")
            && (x.partial.Some? ==> x.partial.value == x.state.Text())
            && (x.code == 0 ==> x.html.Some?) && (x.code == 130 <==> x.failure == Some(Interrupted))
  {
    hide Session, ExtractHtml, AfterRequest;
    LastRound(w, prefix, rounds);
    var ps := Prefixes(w, prefix, rounds);
    var p, r := ps[|ps| - 1], rounds[|ps| - 1];
    ExitState(w, p, r);
    var x, a := Play(w, p, r).exit, AfterRequest(w, p, r);
    assert x.state == a.0;
  }

  /** The flag is set by the last look at it. */
  predicate Late(w: Setting, r: Round) {
    Expired(r.deadline, ChecksMade(r.events, w.json, Generation.FRESH))
  }

  /** The answer ends by its marker, or in time by end of stream after a finish reason. */
  predicate AnswerComplete(w: Setting, r: Round) {
    var q := Reading(w, r);
    q.status.Finished? || (q.status.Running? && r.end.Eof? && !Late(w, r) && q.state.finishReason.Some?)
  }

  /** After a complete answer and with a whole document there is nothing to fall back on: an
      interrupt, a late timer, a blank answer or a save failing before the HTML is on disk loses
      it.  Without one the partial file is all there is. */
  predicate LosesText(w: Setting, p: string, r: Round) {
    if AnswerComplete(w, r) && ExtractHtml(TextAfter(w, p, r)) != "" then
      r.interrupted || Late(w, r) || Strip(Received(w, r)) == "" || (r.save.SaveFails? && !r.save.htmlWritten)
    else !r.partialWritable
  }

  /** What a request makes of its round, by the round alone. */
  lemma RequestExact(w: Setting, p: string, r: Round)
    ensures var (g, f) := AfterRequest(w, p, r);
            && g.Text() == TextAfter(w, p, r)
            && g.complete == AnswerComplete(w, r)
            && (g.complete ==> (f.None? <==> !r.interrupted && !Late(w, r) && Strip(Received(w, r)) != ""))
            && (f.None? ==> g.complete)
  {
    hide ExtractHtml, Merge, Fold, Strip, ChecksMade;
    RoundText(w, p, r);
    NormalReturn(r.events, r.end, w.json, r.deadline);
    var atoms := Atoms(r.events, w.json, r.deadline, 0);
    assert Generation.Counted(Generation.FRESH) by { NoBytes(); NoText(); }
    var n := StopExists(atoms, 0, 0);
    FoldTakes(atoms, n, Generation.FRESH);
  }

  /** A round that ends the program leaves its text in neither file exactly under `LosesText`. */
  lemma TextLostExactlyWhen(w: Setting, p: string, r: Round)
    requires Play(w, p, r).Stops? && TextAfter(w, p, r) != ""
    ensures var x := Play(w, p, r).exit;
            x.html.None? && x.partial.None? <==> LosesText(w, p, r)
  {
    hide ExtractHtml, TextAfter, AfterRequest, AnswerComplete, Late, Strip;
    RequestExact(w, p, r);
    ExitState(w, p, r);
    var a := AfterRequest(w, p, r);
    assert PartialDue(a.0) <==> !(AnswerComplete(w, r) && ExtractHtml(TextAfter(w, p, r)) != "");
  }

  /** Over a whole session the text, all that the rounds before left included, is in neither file
      exactly when the last round entered loses it. */
  lemma SessionLosesTextExactlyWhen(w: Setting, prefix: string, rounds: seq<Round>)
    requires Session(w, prefix, rounds).Stops?
    ensures var x := Session(w, prefix, rounds).exit;
            var ps := Prefixes(w, prefix, rounds);
            var n := |ps| - 1;
            && n < |rounds| && prefix <= ps[n] && x.state.Text() == TextAfter(w, ps[n], rounds[n])
            && (x.state.Text() != "" ==> (x.html.None? && x.partial.None? <==> LosesText(w, ps[n], rounds[n])))
  {
    hide Session, Prefixes, Play, LosesText, TextAfter, AfterRequest, ExtractHtml, Saving, PartialDue;
    LastRound(w, prefix, rounds);
    var ps := Prefixes(w, prefix, rounds);
    var p, r := ps[|ps| - 1], rounds[|ps| - 1];
    RoundText(w, p, r);
    ExitState(w, p, r);
    if TextAfter(w, p, r) != "" { TextLostExactlyWhen(w, p, r); }
  }

  // ---------------------------------------------------------------- the course of a session

  /** Another request follows: the answer was complete, in time and not blank, held no whole
      document and was cut at the token limit, and the user at the terminal agreed. */
  predicate AsksForMore(w: Setting, p: string, r: Round) {
    && !r.interrupted && AnswerComplete(w, r) && !Late(w, r) && Strip(Received(w, r)) != ""
    && ExtractHtml(TextAfter(w, p, r)) == ""
    && Reading(w, r).state.finishReason == Some("length") && w.tty
    && r.reply.Line? && LowerAll(Strip(r.reply.text)) in {"", "y", "yes"}
  }

  /** Why the request of a round fails, if it does. */
  function RequestFailure(w: Setting, r: Round): Option<Failure> {
    var q := Reading(w, r);
    if r.interrupted then Some(Interrupted)
    else if q.status.Failed? then Some(Raised(q.status.error))
    else if q.status.Running? && r.end.Broken? then Some(Raised(StreamFailed))
    else if Late(w, r) then Some(Raised(TimedOut))
    else if !AnswerComplete(w, r) then Some(Raised(CutShort))
    else if Strip(Received(w, r)) == "" then Some(Raised(BlankAnswer))
    else None
  }

  /** Why a round that ends the program fails, if it does. */
  function FailureOf(w: Setting, p: string, r: Round): Option<Failure> {
    if RequestFailure(w, r).Some? then RequestFailure(w, r)
    else if ExtractHtml(TextAfter(w, p, r)) != "" then
      if r.save.Saved? then None else if r.save.interrupted then Some(Interrupted) else Some(SaveFailed)
    else if Reading(w, r).state.finishReason == Some("length") && w.tty && r.reply.Cancel? then Some(Interrupted)
    else Some(Incomplete)
  }

  /** Whether it gets as far as saving, and leaves the HTML file. */
  predicate SavesHtml(w: Setting, p: string, r: Round) {
    && !r.interrupted && AnswerComplete(w, r) && !Late(w, r) && Strip(Received(w, r)) != ""
    && ExtractHtml(TextAfter(w, p, r)) != "" && (r.save.SaveFails? ==> r.save.htmlWritten)
  }

  lemma RequestFailureExact(w: Setting, p: string, r: Round)
    ensures var (g, f) := AfterRequest(w, p, r);
            && f == RequestFailure(w, r) && g.finishReason == Reading(w, r).state.finishReason
            && (f.None? <==> !r.interrupted && AnswerComplete(w, r) && !Late(w, r) && Strip(Received(w, r)) != "")
  {
    hide ExtractHtml, Merge, Fold, Strip, ChecksMade, TextAfter;
    NormalReturn(r.events, r.end, w.json, r.deadline);
    RequestExact(w, p, r);
  }

  /** The exit of a round that ends the program, by the round alone. */
  ghost predicate ExitsAs(w: Setting, p: string, r: Round, x: Exit) {
    var text := TextAfter(w, p, r);
    && x.state.Text() == text
    && x.failure == FailureOf(w, p, r)
    && x.code == (match FailureOf(w, p, r)
                  case None => 0
                  case Some(Interrupted) => 130
                  case Some(_) => 1)
    && x.html == (if SavesHtml(w, p, r) then Some(ExtractHtml(text)) else None)
    && x.partial == if text != "" && r.partialWritable && !(AnswerComplete(w, r) && ExtractHtml(text) != "")
                    then Some(text) else None
  }

  /** What a round does: it continues exactly under `AsksForMore`, and otherwise ends the program
      with its own failure, exit code and files. */
  lemma PlayExact(w: Setting, p: string, r: Round)
    ensures var e := Play(w, p, r);
            && (e.Continues? <==> AsksForMore(w, p, r))
            && (e.Continues? ==> e.prefix == TextAfter(w, p, r))
            && (e.Stops? ==> ExitsAs(w, p, r, e.exit))
  {
    hide ExtractHtml, TextAfter, AfterRequest, AnswerComplete, Late, Reading, Received, RequestFailure;
    hide LStrip, RStrip;
    RequestExact(w, p, r);
    RequestFailureExact(w, p, r);
    if Play(w, p, r).Stops? { ExitState(w, p, r); }
  }

  /** The text with which round `n` starts, or that is there after all of them. */
  function TextBefore(w: Setting, prefix: string, rounds: seq<Round>, n: nat): string
    requires n <= |rounds|
  {
    if n == 0 then prefix else TextAfter(w, TextBefore(w, prefix, rounds, n - 1), rounds[n - 1])
  }

  lemma {:induction false} TextBeforeShift(w: Setting, prefix: string, rounds: seq<Round>, n: nat)
    requires n < |rounds|
    ensures TextBefore(w, prefix, rounds, n + 1)
         == TextBefore(w, TextAfter(w, prefix, rounds[0]), rounds[1..], n)
  {
    hide TextAfter;
    if n > 0 { TextBeforeShift(w, prefix, rounds, n - 1); }
  }

  /** The rounds before `n` all go on to the next. */
  ghost predicate GoesOn(w: Setting, prefix: string, rounds: seq<Round>, n: nat)
    requires n <= |rounds|
  {
    forall i: nat :: i < n ==> AsksForMore(w, TextBefore(w, prefix, rounds, i), rounds[i])
  }

  lemma GoesOnShift(w: Setting, prefix: string, rounds: seq<Round>, n: nat)
    requires n < |rounds|
    ensures GoesOn(w, prefix, rounds, n + 1)
       <==> AsksForMore(w, prefix, rounds[0]) && GoesOn(w, TextAfter(w, prefix, rounds[0]), rounds[1..], n)
  {
    hide TextAfter, AsksForMore;
    assert TextBefore(w, prefix, rounds, 0) == prefix;
    var text, rest := TextAfter(w, prefix, rounds[0]), rounds[1..];
    forall i: nat | i < n
      ensures TextBefore(w, prefix, rounds, i + 1) == TextBefore(w, text, rest, i) && rounds[i + 1] == rest[i]
    {
      TextBeforeShift(w, prefix, rounds, i);
    }
    hide TextBefore;
    if AsksForMore(w, prefix, rounds[0]) && GoesOn(w, text, rest, n) {
      forall i: nat | i < n + 1
        ensures AsksForMore(w, TextBefore(w, prefix, rounds, i), rounds[i])
      {
        assert i > 0 ==> AsksForMore(w, TextBefore(w, text, rest, i - 1), rest[i - 1]);
      }
    }
    if GoesOn(w, prefix, rounds, n + 1) {
      forall i: nat | i < n
        ensures AsksForMore(w, TextBefore(w, text, rest, i), rest[i])
      {
        assert AsksForMore(w, TextBefore(w, prefix, rounds, i + 1), rounds[i + 1]);
      }
    }
  }

  /** A session asks for more exactly when every round goes on; otherwise it ends as the first
      round that does not. */
  lemma {:induction false} SessionExact(w: Setting, prefix: string, rounds: seq<Round>)
    ensures Session(w, prefix, rounds).Continues? <==> GoesOn(w, prefix, rounds, |rounds|)
    ensures GoesOn(w, prefix, rounds, |rounds|) ==>
              Session(w, prefix, rounds).prefix == TextBefore(w, prefix, rounds, |rounds|)
    ensures forall n: nat :: n < |rounds| && GoesOn(w, prefix, rounds, n)
                             && !AsksForMore(w, TextBefore(w, prefix, rounds, n), rounds[n]) ==>
              Session(w, prefix, rounds) == Play(w, TextBefore(w, prefix, rounds, n), rounds[n])
    decreases |rounds|
  {
    hide Play, TextAfter, AsksForMore;
    if rounds != [] {
      var text, rest := TextAfter(w, prefix, rounds[0]), rounds[1..];
      PlayExact(w, prefix, rounds[0]);
      GoesOnShift(w, prefix, rounds, |rest|);
      TextBeforeShift(w, prefix, rounds, |rest|);
      SessionExact(w, text, rest);
      forall n: nat | n < |rounds| && GoesOn(w, prefix, rounds, n)
                      && !AsksForMore(w, TextBefore(w, prefix, rounds, n), rounds[n])
        ensures Session(w, prefix, rounds) == Play(w, TextBefore(w, prefix, rounds, n), rounds[n])
      {
        if n > 0 {
          GoesOnShift(w, prefix, rounds, n - 1);
          TextBeforeShift(w, prefix, rounds, n - 1);
        }
      }
    }
  }

  /** So a session that ends does so with the failure, exit code and files of that round. */
  lemma SessionEnds(w: Setting, prefix: string, rounds: seq<Round>, n: nat)
    requires n < |rounds| && GoesOn(w, prefix, rounds, n)
    requires !AsksForMore(w, TextBefore(w, prefix, rounds, n), rounds[n])
    ensures var e := Session(w, prefix, rounds);
            e.Stops? && ExitsAs(w, TextBefore(w, prefix, rounds, n), rounds[n], e.exit)
  {
    hide ExitsAs, AsksForMore, Play, TextBefore;
    SessionExact(w, prefix, rounds);
    PlayExact(w, TextBefore(w, prefix, rounds, n), rounds[n]);
  }

  /** The failures that come while the accumulator is complete and holds a whole document; a
      blank answer is one of them only when the document was whole before. */
  lemma FailuresOfWholeDocument(w: Setting, p: string, r: Round)
    requires Play(w, p, r).Stops? && Play(w, p, r).exit.failure.Some?
    requires AnswerComplete(w, r) && ExtractHtml(TextAfter(w, p, r)) != ""
    ensures var e := Play(w, p, r).exit.failure.value;
            || e in {Interrupted, SaveFailed, Raised(TimedOut)}
            || (e == Raised(BlankAnswer) && ExtractHtml(p) != "")
  {
    hide ExtractHtml, Merge, Fold, Outcome, Late, Strip;
    RequestExact(w, p, r);
    ExitState(w, p, r);
    RaisedWhileComplete(r.events, r.end, w.json, r.deadline);
    NormalReturn(r.events, r.end, w.json, r.deadline);
    var o := Outcome(Generation.FRESH, r.events, r.end, w.json, r.deadline);
    var a := AfterRequest(w, p, r);
    assert a.0.complete == o.0.complete;
    if a.1 == Some(Raised(BlankAnswer)) {
      BlankKeepsIncomplete(p, Received(w, r));
    }
  }

  lemma BlankKeepsIncomplete(p: string, received: string)
    requires Strip(received) == ""
    ensures ExtractHtml(p) == "" ==> ExtractHtml(if p != "" then Merge(p, received) else received) == ""
  {
    hide ExtractHtml, Merge;
    if p == "" {
      StripEmpty(received);
      SpacesHoldNothing(received);
    } else if ExtractHtml(p) == "" {
      BlankTail(p, received);
    }
  }

  /** The errors that `generate` raises after the accumulator became complete. */
  lemma RaisedWhileComplete(events: seq<string>, end: StreamEnd, json: string -> Payload, deadline: Option<nat>)
    ensures var o := Outcome(Generation.FRESH, events, end, json, deadline);
            o.0.complete && o.1.Some? ==>
              && o.1.value in {TimedOut, BlankAnswer}
              && (o.1.value.BlankAnswer? ==> Strip(o.0.Text()) == "")
  {
    var atoms := Atoms(events, json, deadline, 0);
    var n := StopExists(atoms, 0, 0);
    FoldTakes(atoms, n, Generation.FRESH);
  }

  /** The loss does happen: a whole document received to its end marker, the timer's flag set
      before the last look, and nothing is written. */
  lemma LateTimeoutLosesDocument(w: Setting, r: Round, doc: string)
    requires |r.events| == 2 && Strip(r.events[0]) != "[DONE]" && Strip(r.events[1]) == "[DONE]"
    requires w.json(r.events[0]) == Object(false, None, Some([Choice(doc, "", None)]))
    requires ExtractHtml(doc) != "" && |Encode(doc)| <= 16 * 1024 * 1024
    requires r.deadline == Some(2) && !r.interrupted
    ensures Play(w, "", r).Stops?
    ensures var x := Play(w, "", r).exit;
            && x.state.Text() == doc && x.failure == Some(Raised(TimedOut))
            && x.html.None? && x.partial.None?
  {
    hide ExtractHtml, Encode, Strip, Concat;
    var e, d := r.events[0], r.events[1];
    var s0 := Generation.FRESH;
    assert r.events[1..] == [d] && [d][1..] == [];
    var deltas := ChoiceAtoms([Choice(doc, "", None)]);
    OneDelta(Choice(doc, "", None));
    EventFold(e, w.json, s0);
    var s1 := s0.(events := 1);
    var q := Fold(deltas, s1);
    assert q == Run(Generation.Added(s1, doc, ""), Running);
    Generation.AddedText(s1, doc, "");
    NothingAdded(doc);
    assert s1.Text() == "" by { NoText(); }
    assert q.state.Text() == doc;
    FoldConcat(EventAtoms(e, w.json), Atoms([d], w.json, Some(2), 1), s0);
    EventFold(d, w.json, q.state);
    NothingAdded(EventAtoms(d, w.json));
    assert Atoms([d], w.json, Some(2), 1) == EventAtoms(d, w.json);
    assert Fold(Atoms(r.events, w.json, Some(2), 0), s0).status.Finished?;
    assert ChecksMade([d], w.json, q.state) == 1;
    assert ChecksMade(r.events, w.json, s0) == 2;
  }

  /** Such a run exists: two events, a small document, and a flag set after the second look. */
  lemma LossExample() returns (w: Setting, r: Round)
    ensures Play(w, "", r).Stops? && r.partialWritable && !r.interrupted
    ensures var x := Play(w, "", r).exit;
            && x.state.Text() == "<html></html>" == Received(w, r) && x.state.complete
            && x.html.None? && x.partial.None? && x.code == 1
  {
    hide ExtractHtml, Encode, Strip, Concat, Outcome;
    var doc := "<html></html>";
    w := Setting((e: string) => Object(false, None, Some([Choice("<html></html>", "", None)])), true);
    r := Round(["e", "[DONE]"], Eof, Some(2), false, Cancel, Saved, true);
    StripTrimmed("e");
    StripTrimmed("[DONE]");
    SmallestDocument();
    EncodeLength(doc);
    LateTimeoutLosesDocument(w, r, doc);
    ExitState(w, "", r);
    RaisedWhileComplete(r.events, r.end, w.json, r.deadline);
    RoundText(w, "", r);
    var x := Play(w, "", r).exit;
    assert PartialDue(x.state) ==> x.partial.Some?;
  }

  lemma OneDelta(c: Choice)
    requires c.Choice?
    ensures ChoiceAtoms([c]) == [Delta(c.content, c.reasoning, c.finish)]
  {
    assert [c][1..] == [] && ChoiceAtoms([]) == [];
  }

  lemma NoText()
    ensures Concat([]) == ""
  {
  }
}
