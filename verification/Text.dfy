/** The string vocabulary shared by the models: Python's whitespace class,
    `strip`, ASCII lower-casing, `join` and first-occurrence search. */
module Text {

  datatype Option<+T> = None | Some(value: T)

  /** The characters for which Python's str.isspace holds.  The regular-expression
      class `\s` and a bare `strip()` use this same set. */
  predicate IsSpace(c: char) {
    || '\U{9}' <= c <= '\U{D}'
    || '\U{1C}' <= c <= '\U{20}'
    || c == '\U{85}' || c == '\U{A0}' || c == '\U{1680}'
    || '\U{2000}' <= c <= '\U{200A}'
    || c == '\U{2028}' || c == '\U{2029}' || c == '\U{202F}' || c == '\U{205F}' || c == '\U{3000}'
  }

  /** The whole list of them. */
  lemma SpacesAre(c: char)
    ensures IsSpace(c) <==>
            c in "\U{9}\U{A}\U{B}\U{C}\U{D}\U{1C}\U{1D}\U{1E}\U{1F}\U{20}\U{85}\U{A0}\U{1680}"
              + "\U{2000}\U{2001}\U{2002}\U{2003}\U{2004}\U{2005}\U{2006}\U{2007}\U{2008}\U{2009}\U{200A}"
              + "\U{2028}\U{2029}\U{202F}\U{205F}\U{3000}"
  {
  }

  function LStrip(s: string): string {
    if s != [] && IsSpace(s[0]) then LStrip(s[1..]) else s
  }

  function RStrip(s: string): string {
    if s != [] && IsSpace(s[|s| - 1]) then RStrip(s[..|s| - 1]) else s
  }

  function Strip(s: string): string {
    RStrip(LStrip(s))
  }

  /** A string without space at either edge. */
  predicate Trimmed(s: string) {
    s != [] ==> !IsSpace(s[0]) && !IsSpace(s[|s| - 1])
  }

  lemma StripTrimmed(s: string)
    requires Trimmed(s)
    ensures Strip(s) == s
  {
  }

  /** Only white space strips to nothing. */
  lemma {:induction false} StripEmpty(s: string)
    requires Strip(s) == ""
    ensures forall i :: 0 <= i < |s| ==> IsSpace(s[i])
  {
    if s != "" {
      if IsSpace(s[0]) {
        StripEmpty(s[1..]);
        assert forall i :: 0 < i < |s| ==> s[i] == s[1..][i - 1];
      } else {
        KeepsFirst(s);
      }
    }
  }

  lemma {:induction false} KeepsFirst(s: string)
    requires s != "" && !IsSpace(s[0])
    ensures RStrip(s) != ""
  {
    if IsSpace(s[|s| - 1]) { KeepsFirst(s[..|s| - 1]); }
  }

  lemma {:induction false} LStripSpaces(n: nat, s: string)
    requires n <= |s|
    requires forall i :: 0 <= i < n ==> IsSpace(s[i])
    requires n < |s| ==> !IsSpace(s[n])
    ensures LStrip(s) == s[n..]
  {
    if n > 0 {
      LStripSpaces(n - 1, s[1..]);
    }
  }

  /** `strip` cuts exactly the white space at the two ends. */
  lemma StripExact(s: string) returns (i: nat, j: nat)
    ensures i <= j <= |s| && Strip(s) == s[i..j] && Trimmed(Strip(s))
    ensures forall k :: 0 <= k < i || j <= k < |s| ==> IsSpace(s[k])
  {
    i := LStripAt(s);
    var n := RStripAt(s[i..]);
    j := i + n;
    assert s[i..][..n] == s[i..j];
    assert forall k :: j <= k < |s| ==> s[k] == s[i..][k - i];
  }

  /** White space around a trimmed text is all that is cut. */
  lemma StripAround(left: string, s: string, right: string)
    requires Trimmed(s)
    requires (forall k :: 0 <= k < |left| ==> IsSpace(left[k])) && (forall k :: 0 <= k < |right| ==> IsSpace(right[k]))
    ensures Strip(left + s + right) == s
  {
    hide Strip, IsSpace;
    var t, a, b := left + s + right, |left|, |left| + |s|;
    var i, j := StripExact(t);
    assert forall k :: 0 <= k < a ==> t[k] == left[k];
    assert forall k :: b <= k < |t| ==> t[k] == right[k - b];
    assert t[a..b] == s;
    if i < j {
      assert !IsSpace(t[i..j][0]) && !IsSpace(t[i..j][j - i - 1]);
      assert a <= i && j <= b;
    }
    if s != "" { assert t[a] == s[0] && t[b - 1] == s[|s| - 1]; }
  }

  lemma {:induction false} LStripAt(s: string) returns (n: nat)
    ensures n <= |s| && LStrip(s) == s[n..] && (n < |s| ==> !IsSpace(s[n]))
    ensures forall i :: 0 <= i < n ==> IsSpace(s[i])
  {
    if s != "" && IsSpace(s[0]) {
      var m := LStripAt(s[1..]);
      n := m + 1;
      assert forall i :: 0 < i < n ==> s[i] == s[1..][i - 1];
    } else {
      n := 0;
    }
  }

  lemma {:induction false} RStripAt(s: string) returns (n: nat)
    ensures n <= |s| && RStrip(s) == s[..n] && (n > 0 ==> !IsSpace(s[n - 1]))
    ensures forall i :: n <= i < |s| ==> IsSpace(s[i])
  {
    if s != "" && IsSpace(s[|s| - 1]) {
      n := RStripAt(s[..|s| - 1]);
    } else {
      n := |s|;
    }
  }

  /** ASCII lower-casing of one character. */
  function Lower(c: char): char {
    if 'A' <= c <= 'Z' then (c as int + 32) as char else c
  }

  function LowerAll(s: string): (r: string)
    ensures |r| == |s|
    ensures forall i :: 0 <= i < |s| ==> r[i] == Lower(s[i])
  {
    seq(|s|, i requires 0 <= i < |s| => Lower(s[i]))
  }

  function Concat(parts: seq<string>): string {
    if parts == [] then "" else parts[0] + Concat(parts[1..])
  }

  lemma {:induction false} ConcatAppend(a: seq<string>, b: seq<string>)
    ensures Concat(a + b) == Concat(a) + Concat(b)
  {
    if a == [] {
      assert a + b == b;
    } else {
      assert (a + b)[1..] == a[1..] + b;
      ConcatAppend(a[1..], b);
    }
  }

  lemma ConcatSnoc(a: seq<string>, s: string)
    ensures Concat(a + [s]) == Concat(a) + s
  {
    ConcatAppend(a, [s]);
    assert Concat([s]) == s + Concat([]);
  }

  /** Python's "\n".join(lines). */
  function JoinLines(lines: seq<string>): string {
    if |lines| == 0 then ""
    else if |lines| == 1 then lines[0]
    else lines[0] + "\n" + JoinLines(lines[1..])
  }

  /** The position of the first `x` in `s`, or |s| when there is none. */
  function Find<T(==)>(s: seq<T>, x: T): (i: nat)
    ensures i <= |s|
    ensures i < |s| ==> s[i] == x
    ensures forall j :: 0 <= j < i ==> s[j] != x
  {
    if s == [] || s[0] == x then 0 else 1 + Find(s[1..], x)
  }

  lemma Assoc<T>(a: seq<T>, b: seq<T>, c: seq<T>)
    ensures a + (b + c) == a + b + c
  {
  }

  lemma NothingAdded<T>(a: seq<T>)
    ensures a + [] == a && [] + a == a
  {
  }

  lemma FindIs<T>(s: seq<T>, x: T, i: nat)
    requires i <= |s| && x !in s[..i]
    requires i < |s| ==> s[i] == x
    ensures Find(s, x) == i
  {
    assert forall j :: 0 <= j < i ==> s[j] in s[..i];
  }

  predicate StartsWith(s: string, p: string) {
    p <= s
  }

  predicate EndsWith(s: string, p: string) {
    |p| <= |s| && s[|s| - |p|..] == p
  }

  // ---------------------------------------------------------------- lines ended by LF, CR or CRLF

  predicate IsBreak(c: char) { c == '\r' || c == '\n' }

  function FirstBreak(t: string): (i: nat)
    ensures i <= |t|
    ensures i < |t| ==> IsBreak(t[i])
    ensures forall j :: 0 <= j < i ==> !IsBreak(t[j])
  {
    if t == "" || IsBreak(t[0]) then 0 else 1 + FirstBreak(t[1..])
  }

  function AfterBreak(t: string): (r: string)
    requires t != ""
    ensures |r| < |t|
  {
    var i := FirstBreak(t);
    if i == |t| then ""
    else if t[i] == '\r' && i + 1 < |t| && t[i + 1] == '\n' then t[i + 2..]
    else t[i + 1..]
  }
}
