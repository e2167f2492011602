/** The accumulator of one request of html_studio.py: `Generation` and its `add`. */
module Generation {
  import opened Text
  import opened Utf8

  const MAX_OUTPUT_BYTES := 16 * 1024 * 1024

  datatype Phase = Waiting | Thinking | Writing | Received | Stopped

  /** A usage report; entries that are not integers are not represented. */
  type Usage = map<string, int>

  /** The fields of a Generation. `estimate` counts hundredths of a token. */
  datatype GenState = GenState(
    parts: seq<string>, textBytes: nat, reasoningChars: nat, estimate: nat, events: nat, usage: Usage,
    finishReason: Option<string>, endedBy: Option<string>, complete: bool, phase: Phase)
  {
    function Text(): string { Concat(parts) }
  }

  const FRESH := GenState([], 0, 0, 0, 0, map[], None, None, false, Waiting)

  function EstimateOf(s: string): nat {
    if s == "" then 0 else (if s[0] as int < 128 then 25 else 67) + EstimateOf(s[1..])
  }

  /** The estimate of a text does not depend on how it is cut. */
  lemma {:induction false} EstimateConcat(a: string, b: string)
    ensures EstimateOf(a + b) == EstimateOf(a) + EstimateOf(b)
  {
    if a == "" {
      assert a + b == b;
    } else {
      assert (a + b)[1..] == a[1..] + b;
      EstimateConcat(a[1..], b);
    }
  }

  /** Where the ASCII characters of a text stand, or the others. */
  function Positions(s: string, ascii: bool): set<nat> {
    set i | 0 <= i < |s| && (s[i] < '\U{80}') == ascii
  }

  lemma PositionsSnoc(s: string, c: char, ascii: bool)
    ensures |Positions(s + [c], ascii)| == |Positions(s, ascii)| + if (c < '\U{80}') == ascii then 1 else 0
  {
    var t := s + [c];
    assert forall i :: 0 <= i < |s| ==> t[i] == s[i];
    assert Positions(t, ascii) == Positions(s, ascii) + if (c < '\U{80}') == ascii then {|s|} else {};
  }

  /** A quarter of a token for each ASCII character, 0.67 for each other. */
  lemma {:induction false} EstimateExact(s: string)
    ensures EstimateOf(s) == 25 * |Positions(s, true)| + 67 * |Positions(s, false)|
  {
    if s == "" {
      assert Positions(s, true) == {} && Positions(s, false) == {};
    } else {
      var before, c := s[..|s| - 1], s[|s| - 1];
      assert s == before + [c];
      EstimateExact(before);
      EstimateConcat(before, [c]);
      EstimateOne(c);
      PositionsSnoc(before, c, true);
      PositionsSnoc(before, c, false);
      hide EstimateOf, Positions;
    }
  }

  lemma EstimateOne(c: char)
    ensures EstimateOf([c]) == if c < '\U{80}' then 25 else 67
  {
    assert [c][1..] == "";
  }

  /** The token count shown: the one reported, or else the estimate rounded up. */
  function Tokens(s: GenState): int {
    if "completion_tokens" in s.usage then s.usage["completion_tokens"] else (s.estimate + 99) / 100
  }

  function PhaseAfter(p: Phase, content: string, reasoning: string): Phase {
    if content != "" then Writing else if reasoning != "" then Thinking else p
  }

  /** `s` after content and reasoning text have been added. */
  function Added(s: GenState, content: string, reasoning: string): GenState {
    s.(parts := if content == "" then s.parts else s.parts + [content],
       textBytes := s.textBytes + |Encode(content)|,
       phase := PhaseAfter(s.phase, content, reasoning),
       reasoningChars := s.reasoningChars + |reasoning|,
       estimate := s.estimate + EstimateOf(content) + EstimateOf(reasoning))
  }

  /** The byte count is the length of the text as UTF-8. */
  ghost predicate Counted(s: GenState) {
    s.textBytes == |Encode(s.Text())|
  }

  lemma AddedText(s: GenState, content: string, reasoning: string)
    ensures Added(s, content, reasoning).Text() == s.Text() + content
    ensures Counted(s) ==> Counted(Added(s, content, reasoning))
  {
    ConcatSnoc(s.parts, content);
    EncodeConcat(s.Text(), content);
    assert content == "" ==> s.Text() + content == s.Text();
  }

  class Generation {
    var parts: seq<string>
    var textBytes: nat
    var reasoningChars: nat
    var estimate: nat
    var events: nat
    var usage: Usage
    var finishReason: Option<string>
    var endedBy: Option<string>
    var complete: bool
    var phase: Phase

    function View(): GenState
      reads this
    {
      GenState(parts, textBytes, reasoningChars, estimate, events, usage, finishReason, endedBy, complete, phase)
    }

    constructor ()
      ensures View() == FRESH
    {
      parts, textBytes, reasoningChars, estimate, events := [], 0, 0, 0, 0;
      usage, finishReason, endedBy, complete, phase := map[], None, None, false, Waiting;
    }

    /** Adds the text first and only then reports that the bound is passed. */
    method Add(content: string, reasoning: string) returns (tooLarge: bool)
      modifies this
      ensures View() == Added(old(View()), content, reasoning)
      ensures tooLarge == (textBytes > MAX_OUTPUT_BYTES)
    {
      if content != "" {
        parts := parts + [content];
        textBytes := textBytes + |Encode(content)|;
        phase := Writing;
      } else if reasoning != "" {
        phase := Thinking;
      }
      reasoningChars := reasoningChars + |reasoning|;
      estimate := estimate + EstimateOf(content) + EstimateOf(reasoning);
      tooLarge := textBytes > MAX_OUTPUT_BYTES;
    }
  }
}
