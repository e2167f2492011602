/** extract_html of html_studio.py: the document inside a model's answer.
    The three case-insensitive patterns are predicates "matches at index i"; the letters they
    are made of have no case variants outside ASCII. */
module HtmlExtract {
  import opened Text

  // ---------------------------------------------------------------- the patterns

  /** `pattern`, given in lower case, stands at `i` in any mix of cases. */
  predicate MatchesAt(t: string, i: nat, pattern: string) {
    i + |pattern| <= |t| && LowerAll(t[i..i + |pattern|]) == pattern
  }

  /** Where the run of white space starting at `i` ends. */
  function SkipSpace(t: string, i: nat): (j: nat)
    requires i <= |t|
    ensures i <= j <= |t|
    ensures forall k :: i <= k < j ==> IsSpace(t[k])
    ensures j < |t| ==> !IsSpace(t[j])
    decreases |t| - i
  {
    if i < |t| && IsSpace(t[i]) then SkipSpace(t, i + 1) else i
  }

  /** <html(?:\s|>) */
  predicate OpenerAt(t: string, i: nat) {
    MatchesAt(t, i, "<html") && i + 5 < |t| && (IsSpace(t[i + 5]) || t[i + 5] == '>')
  }

  /** </html\s*> */
  predicate CloserAt(t: string, i: nat) {
    MatchesAt(t, i, "</html") && var j := SkipSpace(t, i + 6); j < |t| && t[j] == '>'
  }

  function CloserEnd(t: string, i: nat): (e: nat)
    requires CloserAt(t, i)
    ensures i + 7 <= e <= |t| && t[e - 1] == '>'
  {
    SkipSpace(t, i + 6) + 1
  }

  /** <!doctype\s+html\s*> */
  predicate DoctypeAt(t: string, i: nat) {
    MatchesAt(t, i, "<!doctype") && DoctypeTail(t, i + 9)
  }

  /** The tail of a doctype: white space, "html", optional white space, '>'. */
  predicate DoctypeTail(t: string, i: nat)
    requires i <= |t|
  {
    var j := SkipSpace(t, i);
    && i < j
    && MatchesAt(t, j, "html")
    && var e := SkipSpace(t, j + 4);
       e < |t| && t[e] == '>'
  }

  lemma MatchChar(t: string, i: nat, pattern: string, k: nat)
    requires MatchesAt(t, i, pattern) && k < |pattern|
    ensures Lower(t[i + k]) == pattern[k]
  {
    assert t[i..i + |pattern|][k] == t[i + k];
  }

  lemma OpenerChars(t: string, i: nat)
    requires OpenerAt(t, i)
    ensures i + 6 <= |t|
    ensures t[i] == '<' && Lower(t[i + 1]) == 'h'
  {
    MatchChar(t, i, "<html", 0);
    MatchChar(t, i, "<html", 1);
  }

  lemma DoctypeChars(t: string, i: nat)
    requires DoctypeAt(t, i)
    ensures i < |t| && t[i] == '<'
  {
    MatchChar(t, i, "<!doctype", 0);
  }

  lemma CloserChars(t: string, i: nat)
    requires CloserAt(t, i)
    ensures t[i] == '<' && t[i + 1] == '/' && forall k :: i < k < CloserEnd(t, i) ==> t[k] != '<'
  {
    MatchChar(t, i, "</html", 0);
    MatchChar(t, i, "</html", 1);
    MatchChar(t, i, "</html", 2);
    MatchChar(t, i, "</html", 3);
    MatchChar(t, i, "</html", 4);
    MatchChar(t, i, "</html", 5);
  }

  // ---------------------------------------------------------------- the patterns as regular expressions

  /** The regular expressions the three patterns are made of, with IGNORECASE. */
  datatype Regex =
    | Word(text: string) | Space | Many(r: Regex) | Either(r: Regex, or: Regex) | Sequence(r: Regex, next: Regex)

  predicate SameLetter(pattern: char, c: char) {
    c == pattern || ('a' <= pattern <= 'z' && c as int + 32 == pattern as int)
  }

  /** `s` as a whole is matched by `r`. */
  ghost predicate Matches(r: Regex, s: string)
    decreases r, |s|
  {
    match r
    case Word(w) => |s| == |w| && forall i :: 0 <= i < |s| ==> SameLetter(w[i], s[i])
    case Space => |s| == 1 && IsSpace(s[0])
    case Many(p) => s == "" || exists k :: 0 < k <= |s| && Matches(p, s[..k]) && Matches(r, s[k..])
    case Either(p, q) => Matches(p, s) || Matches(q, s)
    case Sequence(p, q) => exists k :: 0 <= k <= |s| && Matches(p, s[..k]) && Matches(q, s[k..])
  }

  const SPACES := Many(Space)
  const OPENER := Sequence(Word("<html"), Either(Space, Word(">")))
  const CLOSER := Sequence(Word("</html"), Sequence(SPACES, Word(">")))
  const DOCTYPE :=
    Sequence(Word("<!doctype"), Sequence(Space, Sequence(SPACES, Sequence(Word("html"), Sequence(SPACES, Word(">"))))))

  predicate LowerCase(w: string) {
    forall c :: c in w ==> !('A' <= c <= 'Z')
  }

  lemma WordThen(w: string, next: Regex, s: string)
    requires LowerCase(w)
    ensures Matches(Sequence(Word(w), next), s)
       <==> |w| <= |s| && LowerAll(s[..|w|]) == w && Matches(next, s[|w|..])
  {
    assert forall i :: 0 <= i < |w| ==> w[i] in w;
    if |w| <= |s| {
      assert forall i :: 0 <= i < |w| ==> (SameLetter(w[i], s[..|w|][i]) <==> Lower(s[i]) == w[i]);
      assert LowerAll(s[..|w|]) == w ==> forall i :: 0 <= i < |w| ==> LowerAll(s[..|w|])[i] == w[i];
    }
  }

  lemma {:induction false} ManySpaces(s: string)
    ensures Matches(SPACES, s) <==> forall i :: 0 <= i < |s| ==> IsSpace(s[i])
  {
    if s != "" {
      ManySpaces(s[1..]);
      assert forall i :: 1 <= i < |s| ==> s[i] == s[1..][i - 1];
      assert s[..1] == [s[0]];
      assert forall k :: 0 < k <= |s| && Matches(Space, s[..k]) ==> k == 1;
    }
  }

  /** White space, then `next`, which begins with no white space. */
  lemma SpacesThen(t: string, i: nat, e: nat, next: Regex)
    requires i <= e <= |t|
    requires forall k :: i <= k <= e && Matches(next, t[k..e]) ==> k < e && !IsSpace(t[k])
    ensures Matches(Sequence(SPACES, next), t[i..e])
       <==> SkipSpace(t, i) <= e && Matches(next, t[SkipSpace(t, i)..e])
  {
    hide Matches;
    var s, j := t[i..e], SkipSpace(t, i);
    SequenceUnfold(SPACES, next, s);
    if k :| 0 <= k <= |s| && Matches(SPACES, s[..k]) && Matches(next, s[k..]) {
      assert s[k..] == t[i + k..e];
      ManySpaces(s[..k]);
      assert forall l :: i <= l < i + k ==> t[l] == s[..k][l - i];
      SkipSpaceIs(t, i, i + k);
    }
    if j <= e && Matches(next, t[j..e]) {
      var k := j - i;
      assert s[k..] == t[j..e];
      assert forall l :: 0 <= l < k ==> s[..k][l] == t[i + l];
      ManySpaces(s[..k]);
      assert Matches(SPACES, s[..k]);
      assert Matches(next, s[k..]);
    }
  }

  lemma SequenceUnfold(p: Regex, q: Regex, s: string)
    ensures Matches(Sequence(p, q), s) <==> exists k :: 0 <= k <= |s| && Matches(p, s[..k]) && Matches(q, s[k..])
  {
  }

  lemma LastGt(s: string)
    ensures Matches(Word(">"), s) <==> s == ">"
  {
  }

  /** `\s*>` */
  lemma TailExact(t: string, i: nat, e: nat)
    requires i <= e <= |t|
    ensures Matches(Sequence(SPACES, Word(">")), t[i..e])
       <==> var j := SkipSpace(t, i); j < |t| && t[j] == '>' && e == j + 1
  {
    hide Matches;
    forall k | i <= k <= e
      ensures Matches(Word(">"), t[k..e]) <==> e == k + 1 && t[k] == '>'
    {
      LastGt(t[k..e]);
    }
    SpacesThen(t, i, e, Word(">"));
  }

  /** The opener predicate is the search pattern. */
  lemma OpenerExact(t: string, i: nat, e: nat)
    requires i <= e <= |t|
    ensures Matches(OPENER, t[i..e]) <==> OpenerAt(t, i) && e == i + 6
  {
    var s := t[i..e];
    WordThen("<html", OPENER.next, s);
    if |s| >= 5 {
      assert s[..5] == t[i..i + 5] && s[5..] == t[i + 5..e];
      LastGt(t[i + 5..e]);
      assert Matches(OPENER.next, s[5..]) <==> e == i + 6 && (IsSpace(t[i + 5]) || t[i + 5] == '>');
    }
  }

  /** The closer predicate is the search pattern, and its match ends at `CloserEnd`. */
  lemma CloserExact(t: string, i: nat, e: nat)
    requires i <= e <= |t|
    ensures Matches(CLOSER, t[i..e]) <==> CloserAt(t, i) && e == CloserEnd(t, i)
  {
    hide Matches;
    var s := t[i..e];
    WordThen("</html", CLOSER.next, s);
    if |s| >= 6 {
      assert s[..6] == t[i..i + 6] && s[6..] == t[i + 6..e];
      TailExact(t, i + 6, e);
    }
  }

  lemma NameExact(t: string, i: nat, e: nat)
    requires i <= e <= |t|
    ensures Matches(Sequence(Word("html"), Sequence(SPACES, Word(">"))), t[i..e])
       <==> MatchesAt(t, i, "html") && var j := SkipSpace(t, i + 4); j < |t| && t[j] == '>' && e == j + 1
    ensures MatchesAt(t, i, "html") ==> !IsSpace(t[i])
  {
    hide Matches;
    var s := t[i..e];
    WordThen("html", Sequence(SPACES, Word(">")), s);
    if |s| >= 4 {
      assert s[..4] == t[i..i + 4] && s[4..] == t[i + 4..e];
      TailExact(t, i + 4, e);
    }
    if MatchesAt(t, i, "html") { MatchChar(t, i, "html", 0); }
  }

  /** The doctype predicate is the search pattern. */
  lemma DoctypeExact(t: string, i: nat)
    ensures DoctypeAt(t, i) <==> exists e :: i <= e <= |t| && Matches(DOCTYPE, t[i..e])
  {
    hide Matches, MatchesAt;
    forall e | i <= e <= |t|
      ensures Matches(DOCTYPE, t[i..e]) <==> DoctypeAt(t, i) && e == DoctypeEnd(t, i)
    {
      DoctypeMatch(t, i, e);
    }
    if DoctypeAt(t, i) {
      var e := DoctypeEnd(t, i);
      assert Matches(DOCTYPE, t[i..e]);
    }
  }

  function DoctypeEnd(t: string, i: nat): (e: nat)
    requires DoctypeAt(t, i)
    ensures i <= e <= |t|
  {
    SkipSpace(t, SkipSpace(t, i + 9) + 4) + 1
  }

  lemma DoctypeMatch(t: string, i: nat, e: nat)
    requires i <= e <= |t|
    ensures Matches(DOCTYPE, t[i..e]) <==> DoctypeAt(t, i) && e == DoctypeEnd(t, i)
  {
    hide Matches, MatchesAt;
    var s := t[i..e];
    var name := Sequence(Word("html"), Sequence(SPACES, Word(">")));
    WordThen("<!doctype", DOCTYPE.next, s);
    MatchFits(t, i, "<!doctype");
    if |s| >= 9 {
      MatchIs(t, i, "<!doctype", s);
      assert s[9..] == t[i + 9..e];
      SpaceThen(Sequence(SPACES, name), t, i + 9, e);
      if i + 9 < e && IsSpace(t[i + 9]) {
        forall k | i + 10 <= k <= e
          ensures Matches(name, t[k..e]) ==> k < e && !IsSpace(t[k])
        {
          NameExact(t, k, e);
          MatchFits(t, k, "html");
        }
        SpacesThen(t, i + 10, e, name);
        var j := SkipSpace(t, i + 9);
        if j <= e { NameExact(t, j, e); }
      }
    }
  }

  lemma MatchIs(t: string, i: nat, pattern: string, s: string)
    requires i + |pattern| <= |t| && |pattern| <= |s| && s <= t[i..]
    ensures MatchesAt(t, i, pattern) <==> LowerAll(s[..|pattern|]) == pattern
  {
    assert s[..|pattern|] == t[i..i + |pattern|];
  }

  lemma SpaceThen(next: Regex, t: string, i: nat, e: nat)
    requires i <= e <= |t|
    ensures Matches(Sequence(Space, next), t[i..e]) <==> i < e && IsSpace(t[i]) && Matches(next, t[i + 1..e])
  {
    var s := t[i..e];
    SequenceUnfold(Space, next, s);
    forall k | 0 <= k <= |s|
      ensures Matches(Space, s[..k]) <==> k == 1 && IsSpace(t[i])
    {
    }
    if i < e { assert s[1..] == t[i + 1..e] && s[..1] == [t[i]]; }
  }

  // ---------------------------------------------------------------- the searches

  /** re.search for the opener, from `i` on. */
  function FindOpener(t: string, i: nat): (r: Option<nat>)
    requires i <= |t|
    ensures r.Some? ==> i <= r.value < |t| && OpenerAt(t, r.value)
    ensures forall k :: i <= k < (if r.Some? then r.value else |t|) ==> !OpenerAt(t, k)
    decreases |t| - i
  {
    if i == |t| then None else if OpenerAt(t, i) then Some(i) else FindOpener(t, i + 1)
  }

  /** re.search for the doctype, from `i` on. */
  function FindDoctype(t: string, i: nat): (r: Option<nat>)
    requires i <= |t|
    ensures r.Some? ==> i <= r.value < |t| && DoctypeAt(t, r.value)
    ensures forall k :: i <= k < (if r.Some? then r.value else |t|) ==> !DoctypeAt(t, k)
    decreases |t| - i
  {
    if i == |t| then None else if DoctypeAt(t, i) then Some(i) else FindDoctype(t, i + 1)
  }

  /** re.finditer for the closer, from left to right, no match overlapping the one before. */
  function Closers(t: string, i: nat): (c: seq<nat>)
    requires i <= |t|
    ensures c != [] ==> CloserAt(t, c[|c| - 1])
    decreases |t| - i
  {
    hide CloserAt;
    if i == |t| then []
    else if CloserAt(t, i) then [i] + Closers(t, CloserEnd(t, i))
    else Closers(t, i + 1)
  }

  ghost predicate NoCloser(t: string, from: int) {
    forall k: nat :: from <= k ==> !CloserAt(t, k)
  }

  lemma CloserFits(t: string, k: nat)
    requires CloserAt(t, k)
    ensures k < |t|
  {
  }

  /** Every closer is found, or overlaps one that is: none lies behind the last one found. */
  lemma {:induction false} NoneBehindLast(t: string, i: nat, k: nat)
    requires i <= k && i <= |t| && CloserAt(t, k)
    ensures var c := Closers(t, i);
            c != [] && i <= k <= c[|c| - 1]
    decreases |t| - i
  {
    hide CloserAt, CloserEnd, MatchesAt, SkipSpace;
    CloserFits(t, k);
    if CloserAt(t, i) {
      NoCloserInside(t, i);
      if i < k { NoneBehindLast(t, CloserEnd(t, i), k); } else { LastFrom(t, CloserEnd(t, i)); }
    } else {
      NoneBehindLast(t, i + 1, k);
    }
  }

  lemma {:induction false} LastFrom(t: string, i: nat)
    requires i <= |t|
    ensures var c := Closers(t, i);
            c != [] ==> i <= c[|c| - 1]
    decreases |t| - i
  {
    hide CloserAt, MatchesAt, SkipSpace;
    if i < |t| { LastFrom(t, if CloserAt(t, i) then CloserEnd(t, i) else i + 1); }
  }

  /** Although matches may not overlap, the last one found is the last there is. */
  lemma LastFound(t: string, i: nat)
    requires i <= |t|
    ensures var c := Closers(t, i);
            if c == [] then NoCloser(t, i) else i <= c[|c| - 1] && NoCloser(t, c[|c| - 1] + 1)
  {
    hide CloserAt, Closers;
    LastFrom(t, i);
    forall k: nat | i <= k && CloserAt(t, k)
      ensures Closers(t, i) != [] && k <= Closers(t, i)[|Closers(t, i)| - 1]
    {
      NoneBehindLast(t, i, k);
    }
  }

  lemma NoCloserInside(t: string, i: nat)
    requires CloserAt(t, i)
    ensures forall k :: i < k < CloserEnd(t, i) ==> !CloserAt(t, k)
  {
    CloserChars(t, i);
    forall k | i < k < CloserEnd(t, i) && MatchesAt(t, k, "</html")
      ensures false
    {
      MatchChar(t, k, "</html", 0);
    }
  }

  /** Where the document of a text starts whose first opener is at `i`. */
  function StartOf(t: string, i: nat): (s: nat)
    requires i <= |t|
    ensures s <= i
  {
    var doctype := FindDoctype(t[..i], 0);
    if doctype.Some? then doctype.value else i
  }

  function ExtractHtml(text: string): string {
    var opener := FindOpener(text, 0);
    var ends := Closers(text, 0);
    if opener.None? || ends == [] || ends[|ends| - 1] < opener.value then ""
    else Strip(text[StartOf(text, opener.value)..CloserEnd(text, ends[|ends| - 1])])
  }

  // ---------------------------------------------------------------- the span, declaratively

  ghost predicate FirstOpener(t: string, i: nat) {
    OpenerAt(t, i) && forall k: nat :: k < i ==> !OpenerAt(t, k)
  }

  /** The document starts at the first doctype that ends before the first opener `i`, or at `i`. */
  ghost predicate StartsAt(t: string, i: nat, s: nat)
    requires i <= |t|
  {
    && s <= i
    && (s < i ==> DoctypeAt(t[..i], s))
    && forall k: nat :: k < s ==> !DoctypeAt(t[..i], k)
  }

  ghost predicate LastCloser(t: string, c: nat) {
    CloserAt(t, c) && NoCloser(t, c + 1)
  }

  /** The document of `t` is `t[s..CloserEnd(t, c)]`: `i` is its first opener, `c` its last closer. */
  ghost predicate Spans(t: string, i: nat, s: nat, c: nat) {
    && FirstOpener(t, i) && StartsAt(t, i, s) && LastCloser(t, c) && i < c
  }

  lemma StartOfStarts(t: string, i: nat, s: nat)
    requires i <= |t|
    ensures StartsAt(t, i, s) <==> s == StartOf(t, i)
  {
    hide DoctypeAt, MatchesAt;
    DoctypeInside(t[..i]);
  }

  lemma DoctypeInside(t: string)
    ensures forall k: nat :: DoctypeAt(t, k) ==> k < |t|
  {
    hide MatchesAt;
    forall k: nat | DoctypeAt(t, k)
      ensures k < |t|
    {
      DoctypeChars(t, k);
    }
  }

  lemma SpanTrimmed(t: string, i: nat, s: nat, c: nat)
    requires Spans(t, i, s, c)
    ensures s < CloserEnd(t, c) <= |t|
    ensures Trimmed(t[s..CloserEnd(t, c)])
  {
    hide OpenerAt, DoctypeAt, MatchesAt, CloserAt;
    OpenerChars(t, i);
    if s < i { DoctypeChars(t[..i], s); }
  }

  /** The result is exactly the span: `strip` has nothing to do on it. */
  lemma ExtractIsSpan(t: string, i: nat, s: nat, c: nat)
    requires Spans(t, i, s, c)
    ensures s < CloserEnd(t, c) <= |t|
    ensures ExtractHtml(t) == t[s..CloserEnd(t, c)]
  {
    hide OpenerAt, DoctypeAt, MatchesAt, CloserAt, CloserEnd, Strip, StartOf;
    SpanTrimmed(t, i, s, c);
    StripTrimmed(t[s..CloserEnd(t, c)]);
    StartOfStarts(t, i, s);
    assert FindOpener(t, 0) == Some(i);
    LastFound(t, 0);
    var ends := Closers(t, 0);
    assert ends[|ends| - 1] == c;
  }

  /** A first opener with some closer after it makes a span. */
  lemma SpanExists(t: string, i: nat, c: nat) returns (s: nat, last: nat)
    requires FirstOpener(t, i) && CloserAt(t, c) && i < c
    ensures Spans(t, i, s, last) && c <= last
  {
    hide OpenerAt, DoctypeAt, MatchesAt, CloserAt, CloserEnd, StartOf;
    OpenerChars(t, i);
    LastFound(t, 0);
    var ends := Closers(t, 0);
    last := ends[|ends| - 1];
    s := StartOf(t, i);
    StartOfStarts(t, i, s);
  }

  lemma SpanOf(t: string) returns (i: nat, s: nat, c: nat)
    requires ExtractHtml(t) != ""
    ensures Spans(t, i, s, c)
  {
    hide OpenerAt, DoctypeAt, MatchesAt, CloserAt, CloserEnd, Strip, StartOf;
    var ends := Closers(t, 0);
    LastFound(t, 0);
    i, c := FindOpener(t, 0).value, ends[|ends| - 1];
    OpenerChars(t, i);
    CloserChars(t, c);
    s := StartOf(t, i);
    StartOfStarts(t, i, s);
  }

  /** Non-empty exactly when some closer follows the first opener. */
  lemma ExtractNonEmpty(t: string)
    ensures ExtractHtml(t) != "" <==> exists i: nat, c: nat :: FirstOpener(t, i) && CloserAt(t, c) && i < c
  {
    hide OpenerAt, DoctypeAt, MatchesAt, CloserAt, CloserEnd, Strip, StartOf, ExtractHtml;
    if ExtractHtml(t) != "" {
      var i, s, c := SpanOf(t);
    }
    if i: nat, c: nat :| FirstOpener(t, i) && CloserAt(t, c) && i < c {
      var s, last := SpanExists(t, i, c);
      ExtractIsSpan(t, i, s, last);
    }
  }

  // ---------------------------------------------------------------- matching in a suffix or a prefix

  lemma MatchInSuffix(t: string, a: nat, i: nat, pattern: string)
    requires a <= |t|
    ensures MatchesAt(t[a..], i, pattern) <==> MatchesAt(t, a + i, pattern)
  {
    if a + i + |pattern| <= |t| {
      assert t[a..][i..i + |pattern|] == t[a + i..a + i + |pattern|];
    }
  }

  lemma MatchInPrefix(t: string, b: nat, i: nat, pattern: string)
    requires b <= |t|
    ensures MatchesAt(t[..b], i, pattern) <==> MatchesAt(t, i, pattern) && i + |pattern| <= b
  {
    if i + |pattern| <= b {
      assert t[..b][i..i + |pattern|] == t[i..i + |pattern|];
    }
  }

  lemma {:induction false} SkipSpaceIs(t: string, i: nat, j: nat)
    requires i <= j <= |t|
    requires forall k :: i <= k < j ==> IsSpace(t[k])
    requires j < |t| ==> !IsSpace(t[j])
    ensures SkipSpace(t, i) == j
  {
  }

  lemma SkipInSuffix(t: string, a: nat, i: nat)
    requires a + i <= |t|
    ensures SkipSpace(t[a..], i) + a == SkipSpace(t, a + i)
  {
    var j := SkipSpace(t, a + i);
    SkipSpaceIs(t[a..], i, j - a);
  }

  lemma SkipInPrefix(t: string, b: nat, i: nat)
    requires i <= b <= |t|
    ensures var j := SkipSpace(t, i); SkipSpace(t[..b], i) == if j < b then j else b
  {
    var j := SkipSpace(t, i);
    SkipSpaceIs(t[..b], i, if j < b then j else b);
  }

  lemma OpenerInSuffix(t: string, a: nat, i: nat)
    requires a <= |t|
    ensures OpenerAt(t[a..], i) <==> OpenerAt(t, a + i)
  {
    hide MatchesAt;
    MatchInSuffix(t, a, i, "<html");
  }

  lemma OpenerInPrefix(t: string, b: nat, i: nat)
    requires b <= |t|
    ensures OpenerAt(t[..b], i) <==> OpenerAt(t, i) && i + 6 <= b
  {
    hide MatchesAt;
    MatchInPrefix(t, b, i, "<html");
  }

  lemma MatchFits(t: string, i: nat, pattern: string)
    ensures MatchesAt(t, i, pattern) ==> i + |pattern| <= |t|
  {
  }

  lemma CloserInSuffix(t: string, a: nat, i: nat)
    requires a <= |t|
    ensures CloserAt(t[a..], i) <==> CloserAt(t, a + i)
    ensures CloserAt(t, a + i) ==> CloserEnd(t[a..], i) + a == CloserEnd(t, a + i)
  {
    MatchFits(t, a + i, "</html");
    MatchFits(t[a..], i, "</html");
    hide MatchesAt, SkipSpace;
    MatchInSuffix(t, a, i, "</html");
    if a + i + 6 <= |t| { SkipInSuffix(t, a, i + 6); }
  }

  lemma CloserInPrefix(t: string, b: nat, i: nat)
    requires b <= |t|
    ensures CloserAt(t[..b], i) <==> CloserAt(t, i) && CloserEnd(t, i) <= b
    ensures CloserAt(t[..b], i) ==> CloserEnd(t[..b], i) == CloserEnd(t, i)
  {
    MatchFits(t, i, "</html");
    MatchFits(t[..b], i, "</html");
    hide MatchesAt, SkipSpace;
    MatchInPrefix(t, b, i, "</html");
    if i + 6 <= b { SkipInPrefix(t, b, i + 6); }
  }

  lemma DoctypeTailInSuffix(t: string, a: nat, i: nat)
    requires a + i <= |t|
    ensures DoctypeTail(t[a..], i) <==> DoctypeTail(t, a + i)
  {
    SkipInSuffix(t, a, i);
    var j := SkipSpace(t[a..], i);
    MatchFits(t[a..], j, "html");
    MatchInSuffix(t, a, j, "html");
    hide MatchesAt, SkipSpace;
    if a + j + 4 <= |t| { SkipInSuffix(t, a, j + 4); }
  }

  lemma DoctypeInSuffix(t: string, a: nat, i: nat)
    requires a <= |t|
    ensures DoctypeAt(t[a..], i) <==> DoctypeAt(t, a + i)
  {
    hide MatchesAt, SkipSpace, DoctypeTail;
    MatchFits(t, a + i, "<!doctype");
    MatchInSuffix(t, a, i, "<!doctype");
    if a + i + 9 <= |t| { DoctypeTailInSuffix(t, a, i + 9); }
  }

  lemma InPrefix(t: string, b: nat)
    requires b <= |t|
    ensures forall k: nat :: OpenerAt(t[..b], k) <==> OpenerAt(t, k) && k + 6 <= b
    ensures forall k: nat :: CloserAt(t[..b], k) <==> CloserAt(t, k) && CloserEnd(t, k) <= b
    ensures forall k: nat :: CloserAt(t[..b], k) ==> CloserEnd(t[..b], k) == CloserEnd(t, k)
  {
    hide OpenerAt, CloserAt, CloserEnd;
    forall k: nat
      ensures OpenerAt(t[..b], k) <==> OpenerAt(t, k) && k + 6 <= b
    {
      OpenerInPrefix(t, b, k);
    }
    forall k: nat
      ensures CloserAt(t[..b], k) <==> CloserAt(t, k) && CloserEnd(t, k) <= b
      ensures CloserAt(t[..b], k) ==> CloserEnd(t[..b], k) == CloserEnd(t, k)
    {
      CloserInPrefix(t, b, k);
    }
  }

  lemma InSuffix(t: string, a: nat)
    requires a <= |t|
    ensures forall k: nat :: OpenerAt(t[a..], k) <==> OpenerAt(t, a + k)
    ensures forall k: nat :: CloserAt(t[a..], k) <==> CloserAt(t, a + k)
    ensures forall k: nat :: CloserAt(t[a..], k) ==> a + CloserEnd(t[a..], k) == CloserEnd(t, a + k)
  {
    hide OpenerAt, CloserAt, CloserEnd;
    forall k: nat
      ensures OpenerAt(t[a..], k) <==> OpenerAt(t, a + k)
    {
      OpenerInSuffix(t, a, k);
    }
    forall k: nat
      ensures CloserAt(t[a..], k) <==> CloserAt(t, a + k)
      ensures CloserAt(t[a..], k) ==> a + CloserEnd(t[a..], k) == CloserEnd(t, a + k)
    {
      CloserInSuffix(t, a, k);
    }
  }

  // ---------------------------------------------------------------- laws

  /** The document of the text cut after its last closer is the same. */
  lemma SpanInPrefix(t: string, b: nat, i: nat, s: nat, c: nat)
    requires Spans(t, i, s, c) && CloserEnd(t, c) <= b <= |t|
    ensures Spans(t[..b], i, s, c) && CloserEnd(t[..b], c) == CloserEnd(t, c)
  {
    hide OpenerAt, DoctypeAt, MatchesAt, CloserAt, CloserEnd;
    InPrefix(t, b);
    OpenerChars(t, i);
    assert t[..b][..i] == t[..i];
  }

  lemma SpanInSuffix(t: string, i: nat, s: nat, c: nat)
    requires Spans(t, i, s, c)
    ensures s <= |t| && Spans(t[s..], i - s, 0, c - s)
    ensures s + CloserEnd(t[s..], c - s) == CloserEnd(t, c)
  {
    hide OpenerAt, DoctypeAt, MatchesAt, CloserAt, CloserEnd;
    OpenerChars(t, i);
    InSuffix(t, s);
    DoctypeInSuffix(t[..i], s, 0);
    assert t[s..][..i - s] == t[..i][s..];
    DoctypeInside(t[s..][..i - s]);
  }

  /** Extracting from an extracted document changes nothing. */
  lemma ExtractIdempotent(t: string)
    ensures ExtractHtml(ExtractHtml(t)) == ExtractHtml(t)
  {
    hide OpenerAt, DoctypeAt, MatchesAt, CloserAt, CloserEnd, ExtractHtml;
    if ExtractHtml(t) == "" {
      ExtractEmpty();
    } else {
      var i, s, c := SpanOf(t);
      var e := CloserEnd(t, c);
      ExtractIsSpan(t, i, s, c);
      SpanInPrefix(t, e, i, s, c);
      SpanInSuffix(t[..e], i, s, c);
      assert t[..e][s..] == t[s..e];
      ExtractIsSpan(t[s..e], i - s, 0, c - s);
      assert t[s..e][0..e - s] == t[s..e];
    }
  }

  lemma ExtractEmpty()
    ensures ExtractHtml("") == ""
  {
  }

  /** Text that arrives later can only lengthen an extracted document. */
  lemma ExtractGrows(p: string, q: string)
    ensures ExtractHtml(p) <= ExtractHtml(p + q)
  {
    hide OpenerAt, DoctypeAt, MatchesAt, CloserAt, CloserEnd, ExtractHtml;
    if ExtractHtml(p) != "" {
      var t := p + q;
      assert t[..|p|] == p;
      var i, s, c := SpanOf(p);
      ExtractIsSpan(p, i, s, c);
      InPrefix(t, |p|);
      var s', c' := SpanExists(t, i, c);
      assert p[..i] == t[..i];
      ExtractIsSpan(t, i, s', c');
      StartOfStarts(t, i, s);
      StartOfStarts(t, i, s');
      NoCloserInside(t, c);
      assert CloserEnd(t, c) <= CloserEnd(t, c');
      assert p[s..CloserEnd(p, c)] == t[s..CloserEnd(t, c)];
    }
  }

  /** White space at the end completes no document. */
  lemma SpacesCompleteNothing(p: string, w: string)
    requires forall i :: 0 <= i < |w| ==> IsSpace(w[i])
    requires ExtractHtml(p) == ""
    ensures ExtractHtml(p + w) == ""
  {
    hide OpenerAt, DoctypeAt, MatchesAt, CloserAt, CloserEnd, ExtractHtml;
    var t := p + w;
    if ExtractHtml(t) != "" {
      var i, s, c := SpanOf(t);
      var e := CloserEnd(t, c);
      assert t[e - 1] == '>';
      assert e <= |p|;
      assert t[..|p|] == p;
      InPrefix(t, |p|);
      OpenerChars(t, i);
      CloserChars(t, c);
      assert FirstOpener(p, i) && CloserAt(p, c) && i < c;
      ExtractNonEmpty(p);
    }
  }

  lemma SpacesHoldNothing(w: string)
    requires forall i :: 0 <= i < |w| ==> IsSpace(w[i])
    ensures ExtractHtml(w) == ""
  {
    ExtractEmpty();
    SpacesCompleteNothing("", w);
    assert "" + w == w;
  }

  lemma SmallestDocument()
    ensures ExtractHtml("<html></html>") != ""
  {
    hide ExtractHtml;
    var t := "<html></html>";
    assert LowerAll(t[0..5]) == "<html" by { assert t[0..5] == "<html"; }
    assert LowerAll(t[6..12]) == "</html" by { assert t[6..12] == "</html"; }
    assert FirstOpener(t, 0);
    SkipSpaceIs(t, 12, 12);
    assert CloserAt(t, 6);
    ExtractNonEmpty(t);
  }
}
