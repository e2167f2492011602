/** merge_continuation of html_studio.py: joining the text of a continuation request to the
    text before it. */
module Continuation {
  import opened Text
  import opened HtmlExtract

  const MIN_OVERLAP := 32
  const MAX_OVERLAP := 4096

  /** Drops the line that opens a code fence. */
  function StripFence(tail: string): string {
    if StartsWith(tail, "```") && '\n' in tail then tail[Find(tail, '\n') + 1..] else tail
  }

  function LongestCandidate(prefix: string, t: string): nat {
    var m := if |prefix| <= |t| then |prefix| else |t|;
    if m <= MAX_OVERLAP then m else MAX_OVERLAP
  }

  /** `prefix` ends with the first `k` characters of `t`, 32 to 4096 of them. */
  predicate Overlaps(prefix: string, t: string, k: nat) {
    32 <= k <= 4096 && k <= |t| && EndsWith(prefix, t[..k])
  }

  /** `k` is the greatest overlap, or 0 when there is none. */
  ghost predicate LongestOverlap(prefix: string, t: string, k: nat) {
    && (k == 0 || Overlaps(prefix, t, k))
    && forall j: nat :: k < j ==> !Overlaps(prefix, t, j)
  }

  /** The greatest overlap of length `size` or less. */
  function OverlapUpTo(prefix: string, t: string, size: nat): (k: nat)
    requires size <= LongestCandidate(prefix, t)
    ensures k <= size
    ensures k == 0 || Overlaps(prefix, t, k)
    ensures forall j: nat :: k < j <= size ==> !Overlaps(prefix, t, j)
  {
    if size < MIN_OVERLAP then 0
    else if EndsWith(prefix, t[..size]) then size
    else OverlapUpTo(prefix, t, size - 1)
  }

  function Overlap(prefix: string, t: string): (k: nat)
    ensures LongestOverlap(prefix, t, k)
  {
    OverlapUpTo(prefix, t, LongestCandidate(prefix, t))
  }

  lemma OverlapUnique(prefix: string, t: string, k: nat)
    ensures LongestOverlap(prefix, t, k) <==> k == Overlap(prefix, t)
  {
  }

  function Merge(prefix: string, tail: string): string {
    if ExtractHtml(tail) != "" then tail
    else
      var t := StripFence(tail);
      prefix + t[Overlap(prefix, t)..]
  }

  method MergeContinuation(prefix: string, tail: string) returns (r: string)
    ensures r == Merge(prefix, tail)
  {
    if ExtractHtml(tail) != "" {
      return tail;
    }
    var t := StripFence(tail);
    var size: int := LongestCandidate(prefix, t);
    while size > MIN_OVERLAP - 1
      invariant 0 <= size <= LongestCandidate(prefix, t)
      invariant OverlapUpTo(prefix, t, size) == Overlap(prefix, t)
    {
      if EndsWith(prefix, t[..size]) {
        return prefix + t[size..];
      }
      size := size - 1;
    }
    r := prefix + t;
    assert t[0..] == t;
  }

  // ---------------------------------------------------------------- one round

  /** Unless the provider restarted with a whole document, the result starts with all that was
      there, ends with all that came, and shares exactly the longest overlap. */
  lemma MergeShape(prefix: string, tail: string)
    requires ExtractHtml(tail) == ""
    ensures var t := StripFence(tail);
            var r := Merge(prefix, tail);
            exists k :: LongestOverlap(prefix, t, k) && prefix <= r && EndsWith(r, t)
                        && |r| == |prefix| + |t| - k
  {
    var t := StripFence(tail);
    var k := Overlap(prefix, t);
    var r := Merge(prefix, tail);
    if k > 0 {
      assert prefix == prefix[..|prefix| - k] + t[..k];
      assert t == t[..k] + t[k..];
    }
    assert r == prefix[..|prefix| - k] + t;
    assert r[|r| - |t|..] == t;
  }

  /** A tail that holds a whole document replaces the old text, whatever that was; any other
      extends it. */
  lemma MergeExtends(prefix: string, tail: string)
    ensures ExtractHtml(tail) != "" ==> Merge(prefix, tail) == tail
    ensures ExtractHtml(tail) == "" ==> prefix <= Merge(prefix, tail)
    ensures prefix <= Merge(prefix, tail) || (Merge(prefix, tail) == tail && ExtractHtml(tail) != "")
    ensures ExtractHtml(Merge(prefix, tail)) == "" ==> prefix <= Merge(prefix, tail)
  {
  }

  /** Whatever branch is taken, all that came, but for a fence line, ends the result. */
  lemma MergeKeepsTail(prefix: string, tail: string)
    ensures EndsWith(Merge(prefix, tail), StripFence(tail))
  {
    hide ExtractHtml;
    if ExtractHtml(tail) == "" {
      MergeShape(prefix, tail);
    } else if StripFence(tail) != tail {
      var n := Find(tail, '\n') + 1;
      assert |tail| - |tail[n..]| == n;
    }
  }

  lemma FenceDropped(language: string, body: string)
    requires '\n' !in language
    ensures StripFence("```" + language + "\n" + body) == body
  {
    var tail, n := "```" + language + "\n" + body, 3 + |language|;
    assert tail[..3] == "```" && tail[n] == '\n' && tail[n + 1..] == body;
    assert tail[..n] == "```" + language;
    FindIs(tail, '\n', n);
  }

  lemma FenceFound(tail: string) returns (language: string, body: string)
    requires StripFence(tail) != tail
    ensures '\n' !in language && tail == "```" + language + "\n" + body
  {
    var n := Find(tail, '\n');
    assert tail[..3] == "```";
    assert forall i :: 0 <= i < 3 ==> tail[i] == tail[..3][i];
    language, body := tail[3..n], tail[n + 1..];
    assert tail == tail[..3] + tail[3..n] + [tail[n]] + tail[n + 1..];
  }

  /** A tail that opens a code fence loses exactly its first line, every other tail nothing. */
  lemma FenceExact(tail: string)
    ensures forall language, body :: '\n' !in language && tail == "```" + language + "\n" + body ==>
              StripFence(tail) == body
    ensures (forall language, body :: '\n' !in language ==> tail != "```" + language + "\n" + body) ==>
              StripFence(tail) == tail
  {
    hide StripFence;
    forall language, body | '\n' !in language && tail == "```" + language + "\n" + body
      ensures StripFence(tail) == body
    {
      FenceDropped(language, body);
    }
    if StripFence(tail) != tail {
      var language, body := FenceFound(tail);
    }
  }

  /** The text of a continuation is joined alike with and without a code fence around it. */
  lemma FenceChangesNothing(prefix: string, language: string, body: string)
    requires '\n' !in language && ExtractHtml("```" + language + "\n" + body) == ""
    requires ExtractHtml(body) == "" && !StartsWith(body, "```")
    ensures Merge(prefix, "```" + language + "\n" + body) == Merge(prefix, body)
  {
    hide ExtractHtml;
    FenceDropped(language, body);
  }

  // ---------------------------------------------------------------- stitching a document

  /** A tail that carries `doc[start..end]`, perhaps inside a code fence, but no whole document. */
  ghost predicate Carries(tail: string, doc: string, start: nat, end: nat) {
    && start <= end <= |doc|
    && ExtractHtml(tail) == ""
    && StripFence(tail) == doc[start..end]
  }

  /** A round that restarts `back` characters before the cut continues the document if and only
      if those characters are the longest overlap. */
  lemma RoundExact(doc: string, cut: nat, back: nat, end: nat, tail: string)
    requires back <= cut <= end
    requires Carries(tail, doc, cut - back, end)
    ensures Merge(doc[..cut], tail) == doc[..end] <==> LongestOverlap(doc[..cut], doc[cut - back..end], back)
  {
    hide ExtractHtml, StripFence;
    var prefix, t := doc[..cut], doc[cut - back..end];
    OverlapUnique(prefix, t, back);
    var k := Overlap(prefix, t);
    assert |Merge(prefix, tail)| == cut + (end - cut + back) - k;
    if k == back {
      assert t[back..] == doc[cut..end];
    }
  }

  /** One continuation round of a document: it restarts `back` characters early and brings the
      text up to `end`. */
  datatype Piece = Piece(back: nat, end: nat, tail: string)

  ghost predicate Pieces(doc: string, cut: nat, ps: seq<Piece>)
    decreases |ps|
  {
    && cut <= |doc|
    && (ps != [] ==>
          && ps[0].back <= cut <= ps[0].end
          && Carries(ps[0].tail, doc, cut - ps[0].back, ps[0].end)
          && Pieces(doc, ps[0].end, ps[1..]))
  }

  ghost predicate RestartsAreLongest(doc: string, cut: nat, ps: seq<Piece>)
    requires Pieces(doc, cut, ps)
    decreases |ps|
  {
    ps != [] ==>
      && LongestOverlap(doc[..cut], doc[cut - ps[0].back..ps[0].end], ps[0].back)
      && RestartsAreLongest(doc, ps[0].end, ps[1..])
  }

  function Stitch(prefix: string, ps: seq<Piece>): string
    decreases |ps|
  {
    if ps == [] then prefix else Stitch(Merge(prefix, ps[0].tail), ps[1..])
  }

  function LastCut(cut: nat, ps: seq<Piece>): nat
    decreases |ps|
  {
    if ps == [] then cut else LastCut(ps[0].end, ps[1..])
  }

  /** Starting from `prefix`, every round ends with the document up to its cut. */
  ghost predicate EveryRoundExact(doc: string, prefix: string, ps: seq<Piece>)
    decreases |ps|
  {
    ps != [] ==>
      var r := Merge(prefix, ps[0].tail);
      ps[0].end <= |doc| && r == doc[..ps[0].end] && EveryRoundExact(doc, r, ps[1..])
  }

  /** Any number of rounds give back the document up to the last cut when every restart is the
      longest overlap, and only then is every intermediate text right as well. */
  lemma {:induction false} StitchReconstructs(doc: string, cut: nat, ps: seq<Piece>)
    requires Pieces(doc, cut, ps)
    ensures cut <= LastCut(cut, ps) <= |doc|
    ensures RestartsAreLongest(doc, cut, ps) <==> EveryRoundExact(doc, doc[..cut], ps)
    ensures RestartsAreLongest(doc, cut, ps) ==> Stitch(doc[..cut], ps) == doc[..LastCut(cut, ps)]
    decreases |ps|
  {
    if ps != [] {
      var p := ps[0];
      RoundExact(doc, cut, p.back, p.end, p.tail);
      StitchReconstructs(doc, p.end, ps[1..]);
    }
  }

  function Window(doc: string, i: nat): string
    requires i + 32 <= |doc|
  {
    doc[i..i + 32]
  }

  lemma OverlapWindow(doc: string, cut: nat, start: nat, end: nat, j: nat)
    requires start <= end <= |doc| && cut <= |doc|
    requires Overlaps(doc[..cut], doc[start..end], j)
    ensures j <= cut && Window(doc, cut - j) == Window(doc, start)
  {
    var p, t := doc[..cut], doc[start..end];
    assert p[cut - j..] == t[..j];
    forall m | 0 <= m < 32
      ensures Window(doc, cut - j)[m] == Window(doc, start)[m]
    {
      assert p[cut - j..][m] == t[..j][m];
    }
  }

  /** When the restart is 32 to 4096 characters long and its first 32 characters stand nowhere
      else in the last 4096, the restart is the longest overlap. */
  lemma UniqueWindow(doc: string, cut: nat, back: nat, end: nat)
    requires 32 <= back <= 4096 && back <= cut <= end <= |doc|
    requires forall i: nat :: cut - 4096 <= i && i + 32 <= cut && i != cut - back ==>
               Window(doc, i) != Window(doc, cut - back)
    ensures LongestOverlap(doc[..cut], doc[cut - back..end], back)
  {
    var p, t := doc[..cut], doc[cut - back..end];
    assert p[cut - back..] == t[..back];
    forall j: nat | back < j
      ensures !Overlaps(p, t, j)
    {
      if Overlaps(p, t, j) { OverlapWindow(doc, cut, cut - back, end, j); }
    }
  }

  /** When a continuation that does not restart opens with 32 characters that stand nowhere in
      the last 4096, or is shorter than that, nothing is cut from it. */
  lemma FreshWindow(doc: string, cut: nat, end: nat)
    requires cut <= end <= |doc|
    requires end - cut >= 32 ==>
      forall i: nat :: cut - 4096 <= i && i + 32 <= cut ==>
        Window(doc, i) != Window(doc, cut)
    ensures LongestOverlap(doc[..cut], doc[cut..end], 0)
  {
    var p, t := doc[..cut], doc[cut..end];
    forall j: nat | 0 < j
      ensures !Overlaps(p, t, j)
    {
      if Overlaps(p, t, j) { OverlapWindow(doc, cut, cut, end, j); }
    }
  }

  /** A repetition of fewer than 32 or more than 4096 characters always spoils the join. */
  lemma OutOfRangeRestartFails(doc: string, cut: nat, back: nat, end: nat, tail: string)
    requires back <= cut <= end
    requires 0 < back < 32 || back > 4096
    requires Carries(tail, doc, cut - back, end)
    ensures Merge(doc[..cut], tail) != doc[..end]
  {
    RoundExact(doc, cut, back, end, tail);
  }

  /** A blank tail completes no document. */
  lemma BlankTail(prefix: string, tail: string)
    requires Strip(tail) == "" && ExtractHtml(prefix) == ""
    ensures ExtractHtml(Merge(prefix, tail)) == ""
  {
    hide ExtractHtml;
    StripEmpty(tail);
    SpacesHoldNothing(tail);
    assert tail != "" ==> IsSpace(tail[0]);
    var t := StripFence(tail);
    assert t == tail;
    SpacesCompleteNothing(prefix, t[Overlap(prefix, t)..]);
  }
}
