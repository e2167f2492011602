/** The gate of tools/check_pnpm_audit_exceptions.py: every high or critical finding needs an
    unexpired exception.  Dates are day numbers; reading one is a parameter. */
module AuditGate {
  import opened Text
  import opened AuditParser

  /** A vulnerability as `iter_vulns` yields it, numbers already turned into strings. */
  datatype Finding = Finding(name: Option<string>, severity: Option<string>, advisory: Option<string>)

  datatype Setting = Setting(parseDate: string -> Option<int>, today: int)

  type Key = (string, string)

  datatype Entry = Entry(severity: string, expires: int)

  datatype Error =
    | MissingFields | BadDate | MissingValue | Duplicate(key: Key)
    | MissingAdvisory(finding: Finding) | SeverityMismatch(finding: Finding)

  // ---------------------------------------------------------------- normalization

  function OrEmpty(s: Option<string>): string {
    if s.Some? then s.value else ""
  }

  function NormalizeSeverity(s: string): string { LowerAll(Strip(s)) }
  function NormalizePackage(s: string): string { Strip(s) }
  function NormalizeAdvisory(s: string): string { LowerAll(Strip(s)) }

  // ---------------------------------------------------------------- exceptions

  /** exc.get(field) when it is there, and otherwise what is just as false. */
  function Get(r: Record, field: string): string {
    if field in r then r[field] else ""
  }

  predicate Complete(r: Record) {
    && Get(r, "package") != "" && Get(r, "advisory") != "" && Get(r, "severity") != ""
    && Get(r, "mitigation") != "" && Get(r, "expires_on") != ""
  }

  datatype Judged = Bad(error: Error) | Good(key: Key, entry: Entry)

  /** One exception, looked at on its own. */
  function Judge(r: Record, w: Setting): Judged {
    if !Complete(r) then Bad(MissingFields)
    else
      var key := (NormalizePackage(Get(r, "package")), NormalizeAdvisory(Get(r, "advisory")));
      var date := w.parseDate(Get(r, "expires_on"));
      if date.None? then Bad(BadDate)
      else if key.0 == "" || key.1 == "" then Bad(MissingValue)
      else Good(key, Entry(NormalizeSeverity(Get(r, "severity")), date.value))
  }

  ghost predicate AllFields(r: Record) {
    forall f :: f in {"package", "advisory", "severity", "mitigation", "expires_on"} ==> f in r && r[f] != ""
  }

  /** An exception the gate accepts on its own: all five fields filled in, a readable date, and a
      package and an advisory that are not just white space. */
  ghost predicate Acceptable(r: Record, w: Setting) {
    && AllFields(r)
    && w.parseDate(r["expires_on"]).Some?
    && Strip(r["package"]) != "" && Strip(r["advisory"]) != ""
  }

  lemma JudgeExact(r: Record, w: Setting)
    ensures Judge(r, w).Good? <==> Acceptable(r, w)
    ensures Judge(r, w) == Bad(MissingFields) <==> !AllFields(r)
    ensures Judge(r, w) == Bad(BadDate) <==> AllFields(r) && w.parseDate(r["expires_on"]).None?
    ensures Acceptable(r, w) ==>
              Judge(r, w) == Good((Strip(r["package"]), LowerAll(Strip(r["advisory"]))),
                                  Entry(LowerAll(Strip(r["severity"])), w.parseDate(r["expires_on"]).value))
  {
    hide Strip;
    assert forall f :: f in {"package", "advisory", "severity", "mitigation", "expires_on"} ==>
                         (Get(r, f) != "" <==> f in r && r[f] != "");
  }

  lemma {:induction false} StripFolds(s: string)
    ensures Strip(LowerAll(s)) == LowerAll(Strip(s))
  {
    LStripFolds(s);
    RStripFolds(LStrip(s));
  }

  lemma {:induction false} LStripFolds(s: string)
    ensures LStrip(LowerAll(s)) == LowerAll(LStrip(s))
  {
    if s != "" {
      assert LowerAll(s)[1..] == LowerAll(s[1..]);
      LStripFolds(s[1..]);
    }
  }

  lemma {:induction false} RStripFolds(s: string)
    ensures RStrip(LowerAll(s)) == LowerAll(RStrip(s))
  {
    if s != "" {
      assert LowerAll(s)[..|s| - 1] == LowerAll(s[..|s| - 1]);
      RStripFolds(s[..|s| - 1]);
    }
  }

  /** Advisories and severities that differ in case only are the same. */
  lemma CaseDoesNotMatter(s: string, t: string)
    requires LowerAll(s) == LowerAll(t)
    ensures NormalizeAdvisory(s) == NormalizeAdvisory(t) && NormalizeSeverity(s) == NormalizeSeverity(t)
  {
    StripFolds(s);
    StripFolds(t);
  }

  datatype Index = Index(entries: map<Key, Entry>, errors: seq<Error>)

  function IndexStep(x: Index, j: Judged): Index {
    match j
    case Bad(e) => x.(errors := x.errors + [e])
    case Good(k, e) =>
      if k in x.entries then x.(errors := x.errors + [Duplicate(k)]) else x.(entries := x.entries[k := e])
  }

  function BuildIndex(records: seq<Record>, w: Setting): Index {
    if records == [] then Index(map[], [])
    else IndexStep(BuildIndex(records[..|records| - 1], w), Judge(records[|records| - 1], w))
  }

  // ---------------------------------------------------------------- findings

  predicate Relevant(f: Finding) {
    && NormalizeSeverity(OrEmpty(f.severity)) in {"high", "critical"}
    && OrEmpty(f.name) != ""
  }

  function KeyOf(f: Finding): Key {
    (NormalizePackage(OrEmpty(f.name)), NormalizeAdvisory(OrEmpty(f.advisory)))
  }

  /** What the loop over the findings collects. */
  datatype Report = Report(errors: seq<Error>, missing: seq<Finding>, expired: seq<Finding>)

  predicate Clean(r: Report) {
    r.errors == [] && r.missing == [] && r.expired == []
  }

  predicate Mismatches(e: Entry, f: Finding) {
    e.severity != "" && e.severity != NormalizeSeverity(OrEmpty(f.severity))
  }

  /** What one finding adds that has an advisory and was not seen before. */
  function Examine(r: Report, f: Finding, entries: map<Key, Entry>, today: int): Report {
    if KeyOf(f) !in entries then r.(missing := r.missing + [f])
    else
      var e := entries[KeyOf(f)];
      Report(if Mismatches(e, f) then r.errors + [SeverityMismatch(f)] else r.errors,
             r.missing,
             if e.expires < today then r.expired + [f] else r.expired)
  }

  /** With `dedup`, a finding whose key came up before is passed over. */
  function Check(findings: seq<Finding>, entries: map<Key, Entry>, today: int, dedup: bool): Report {
    if findings == [] then Report([], [], [])
    else
      var before, f := findings[..|findings| - 1], findings[|findings| - 1];
      var r := Check(before, entries, today, dedup);
      if !Relevant(f) then r
      else if KeyOf(f).1 == "" then r.(errors := r.errors + [MissingAdvisory(f)])
      else if dedup && Seen(before, KeyOf(f)) then r
      else Examine(r, f, entries, today)
  }

  /** A relevant finding with this key, whose advisory is not empty, is among `findings`. */
  predicate Seen(findings: seq<Finding>, k: Key) {
    k.1 != "" && exists f | f in findings :: Relevant(f) && KeyOf(f) == k
  }

  /** The exit code of the program, with or without its `seen` set. */
  function ExitCode(records: seq<Record>, findings: seq<Finding>, w: Setting, dedup: bool): (code: nat)
    ensures code <= 1
  {
    var x := BuildIndex(records, w);
    if x.errors == [] && Clean(Check(findings, x.entries, w.today, dedup)) then 0 else 1
  }

  // ---------------------------------------------------------------- the program

  method ReadExceptions(records: seq<Record>, w: Setting) returns (index: map<Key, Entry>, errors: seq<Error>)
    ensures Index(index, errors) == BuildIndex(records, w)
  {
    index, errors := map[], [];
    var i := 0;
    while i < |records|
      invariant 0 <= i <= |records|
      invariant Index(index, errors) == BuildIndex(records[..i], w)
    {
      assert records[..i + 1][..i] == records[..i];
      match Judge(records[i], w) {
        case Bad(e) =>
          errors := errors + [e];
        case Good(key, entry) =>
          if key in index {
            errors := errors + [Duplicate(key)];
          } else {
            index := index[key := entry];
          }
      }
      i := i + 1;
    }
    assert records[..i] == records;
  }

  method CheckFindings(findings: seq<Finding>, entries: map<Key, Entry>, today: int) returns (r: Report)
    ensures r == Check(findings, entries, today, true)
  {
    r := Report([], [], []);
    var seen: set<Key> := {};
    var i := 0;
    while i < |findings|
      invariant 0 <= i <= |findings|
      invariant r == Check(findings[..i], entries, today, true)
      invariant forall k :: k in seen <==> Seen(findings[..i], k)
    {
      var f := findings[i];
      CheckStep(findings, i, entries, today);
      i := i + 1;
      if !Relevant(f) {
        continue;
      }
      var key := KeyOf(f);
      if key.1 == "" {
        r := r.(errors := r.errors + [MissingAdvisory(f)]);
        continue;
      }
      if key in seen {
        continue;
      }
      seen := seen + {key};
      r := Examine(r, f, entries, today);
    }
    assert findings[..i] == findings;
  }

  lemma CheckStep(findings: seq<Finding>, i: nat, entries: map<Key, Entry>, today: int)
    requires i < |findings|
    ensures forall dedup :: Check(findings[..i + 1], entries, today, dedup) == (
              var r, f := Check(findings[..i], entries, today, dedup), findings[i];
              if !Relevant(f) then r
              else if KeyOf(f).1 == "" then r.(errors := r.errors + [MissingAdvisory(f)])
              else if dedup && Seen(findings[..i], KeyOf(f)) then r
              else Examine(r, f, entries, today))
    ensures forall k :: Seen(findings[..i + 1], k) <==>
                        Seen(findings[..i], k) || (Relevant(findings[i]) && KeyOf(findings[i]) == k && k.1 != "")
  {
    assert findings[..i + 1][..i] == findings[..i];
    assert findings[..i + 1] == findings[..i] + [findings[i]];
    hide KeyOf, Relevant, Examine;
  }

  method RunGate(records: seq<Record>, findings: seq<Finding>, w: Setting) returns (code: nat)
    ensures code == ExitCode(records, findings, w, true)
    ensures code == if GatePasses(records, findings, w) then 0 else 1
  {
    GateDeclared(records, findings, w);
    var index, errors := ReadExceptions(records, w);
    var r := CheckFindings(findings, index, w.today);
    code := if errors == [] && Clean(r) then 0 else 1;
  }

  /** The program on the text of the exception list; a ValueError of the parser ends it with 1. */
  method RunProgram(text: string, findings: seq<Finding>, w: Setting) returns (code: nat)
    ensures code == if ParseText(text).Records? && GatePasses(ParseText(text).records, findings, w) then 0 else 1
  {
    var parsed := ParseExceptions(text);
    if parsed.NoColon? {
      return 1;
    }
    code := RunGate(parsed.records, findings, w);
  }

  // ---------------------------------------------------------------- the exceptions, declaratively

  /** Every exception is complete and readable, and no two have the same normalized key. */
  ghost predicate WellFormed(records: seq<Record>, w: Setting) {
    && (forall i :: 0 <= i < |records| ==> Judge(records[i], w).Good?)
    && (forall i, j :: 0 <= i < j < |records| ==> Judge(records[i], w).key != Judge(records[j], w).key)
  }

  ghost predicate Listed(records: seq<Record>, w: Setting, k: Key, e: Entry) {
    exists i :: 0 <= i < |records| && Judge(records[i], w) == Good(k, e)
  }

  lemma ListedSnoc(records: seq<Record>, r: Record, w: Setting, k: Key, e: Entry)
    ensures Listed(records + [r], w, k, e) <==> Listed(records, w, k, e) || Judge(r, w) == Good(k, e)
  {
    var all := records + [r];
    assert all[|records|] == r;
    assert forall i :: 0 <= i < |records| ==> all[i] == records[i];
  }

  /** The index has an entry listed for a key, if any is listed. */
  lemma {:induction false} IndexAt(records: seq<Record>, w: Setting, k: Key)
    ensures var m := BuildIndex(records, w).entries;
            && (k in m ==> Listed(records, w, k, m[k]))
            && (forall e :: Listed(records, w, k, e) ==> k in m)
  {
    hide Judge;
    if records != [] {
      var before, r := records[..|records| - 1], records[|records| - 1];
      assert records == before + [r];
      IndexAt(before, w, k);
      var m, m', j := BuildIndex(before, w).entries, BuildIndex(records, w).entries, Judge(r, w);
      assert m' == if j.Good? && j.key !in m then m[j.key := j.entry] else m;
      if k in m {
        ListedSnoc(before, r, w, k, m[k]);
      } else if k in m' {
        ListedSnoc(before, r, w, k, j.entry);
      }
      forall e | Listed(records, w, k, e)
        ensures k in m'
      {
        ListedSnoc(before, r, w, k, e);
      }
    }
  }

  /** The index holds just the keys of readable exceptions, each with an entry listed for it. */
  lemma IndexListed(records: seq<Record>, w: Setting)
    ensures var m := BuildIndex(records, w).entries;
            && (forall k :: k in m ==> Listed(records, w, k, m[k]))
            && (forall k, e :: Listed(records, w, k, e) ==> k in m)
  {
    var m := BuildIndex(records, w).entries;
    forall k | k in m
      ensures Listed(records, w, k, m[k])
    {
      IndexAt(records, w, k);
    }
    forall k, e | Listed(records, w, k, e)
      ensures k in m
    {
      IndexAt(records, w, k);
    }
  }

  lemma {:induction false} IndexErrors(records: seq<Record>, w: Setting)
    ensures BuildIndex(records, w).errors == [] <==> WellFormed(records, w)
  {
    hide Judge;
    if records != [] {
      var before, r := records[..|records| - 1], records[|records| - 1];
      assert records == before + [r];
      IndexErrors(before, w);
      IndexListed(before, w);
      var x, j := BuildIndex(before, w), Judge(r, w);
      assert forall i :: 0 <= i < |before| ==> records[i] == before[i];
      if WellFormed(before, w) && j.Good? {
        if j.key in x.entries {
          var i :| 0 <= i < |before| && Judge(before[i], w) == Good(j.key, x.entries[j.key]);
          assert !WellFormed(records, w);
        } else {
          forall i | 0 <= i < |before|
            ensures Judge(records[i], w).key != j.key
          {
            assert Listed(before, w, Judge(before[i], w).key, Judge(before[i], w).entry);
          }
        }
      }
    }
  }

  /** In a well-formed list a key has one entry. */
  lemma OneEntry(records: seq<Record>, w: Setting, k: Key, e: Entry, e': Entry)
    requires WellFormed(records, w) && Listed(records, w, k, e) && Listed(records, w, k, e')
    ensures e == e'
  {
    hide Judge;
    var i :| 0 <= i < |records| && Judge(records[i], w) == Good(k, e);
    var j :| 0 <= j < |records| && Judge(records[j], w) == Good(k, e');
    assert Judge(records[i], w).key == Judge(records[j], w).key;
  }

  // ---------------------------------------------------------------- the findings, declaratively

  /** Finding `i` adds nothing to the report. */
  ghost predicate Passes(findings: seq<Finding>, i: nat, entries: map<Key, Entry>, today: int, dedup: bool)
    requires i < |findings|
  {
    var f := findings[i];
    Relevant(f) ==>
      && KeyOf(f).1 != ""
      && ((dedup && Seen(findings[..i], KeyOf(f)))
          || (KeyOf(f) in entries && !Mismatches(entries[KeyOf(f)], f) && entries[KeyOf(f)].expires >= today))
  }

  lemma {:induction false} CleanExact(findings: seq<Finding>, entries: map<Key, Entry>, today: int, dedup: bool)
    ensures Clean(Check(findings, entries, today, dedup))
       <==> forall i: nat :: i < |findings| ==> Passes(findings, i, entries, today, dedup)
  {
    if findings != [] {
      var n := |findings| - 1;
      CleanLast(findings, entries, today, dedup);
      CleanExact(findings[..n], entries, today, dedup);
      forall i: nat | i < n
        ensures Passes(findings[..n], i, entries, today, dedup) <==> Passes(findings, i, entries, today, dedup)
      {
        PassesEarly(findings, n, i, entries, today, dedup);
      }
      hide Passes, Check, Clean;
    }
  }

  lemma PassesEarly(findings: seq<Finding>, n: nat, i: nat, entries: map<Key, Entry>, today: int, dedup: bool)
    requires i < n <= |findings|
    ensures Passes(findings[..n], i, entries, today, dedup) <==> Passes(findings, i, entries, today, dedup)
  {
    assert findings[..n][..i] == findings[..i] && findings[..n][i] == findings[i];
    hide Seen, KeyOf, Relevant, Mismatches;
  }

  lemma CleanLast(findings: seq<Finding>, entries: map<Key, Entry>, today: int, dedup: bool)
    requires findings != []
    ensures var n := |findings| - 1;
            Clean(Check(findings, entries, today, dedup)) <==>
            Clean(Check(findings[..n], entries, today, dedup)) && Passes(findings, n, entries, today, dedup)
  {
    hide Seen, KeyOf, Relevant, Mismatches;
  }

  /** When every finding passes, every relevant one has an unexpired exception, also those that
      the `seen` set passes over. */
  lemma {:induction false} AllCovered(findings: seq<Finding>, i: nat, entries: map<Key, Entry>, today: int, dedup: bool)
    requires i < |findings|
    requires forall j: nat :: j <= i ==> Passes(findings, j, entries, today, dedup)
    ensures Relevant(findings[i]) ==>
              KeyOf(findings[i]) in entries && entries[KeyOf(findings[i])].expires >= today
  {
    hide KeyOf, Relevant, Mismatches;
    var k := KeyOf(findings[i]);
    assert Passes(findings, i, entries, today, dedup);
    if Relevant(findings[i]) && Seen(findings[..i], k) {
      var j := SeenAt(findings, i, k);
      AllCovered(findings, j, entries, today, dedup);
    }
  }

  lemma SeenAt(findings: seq<Finding>, i: nat, k: Key) returns (j: nat)
    requires i <= |findings| && Seen(findings[..i], k)
    ensures j < i && Relevant(findings[j]) && KeyOf(findings[j]) == k
  {
    hide KeyOf, Relevant;
    var f :| f in findings[..i] && Relevant(f) && KeyOf(f) == k;
    j :| 0 <= j < i && findings[..i][j] == f;
  }

  // ---------------------------------------------------------------- the verdict

  /** Some exception covers the finding: same key, not expired, and, where it is asked for, the
      severity left blank or the same. */
  ghost predicate Excused(records: seq<Record>, w: Setting, f: Finding, sameSeverity: bool) {
    exists e :: Listed(records, w, KeyOf(f), e) && e.expires >= w.today && (sameSeverity ==> !Mismatches(e, f))
  }

  /** What the gate demands of finding `i`. */
  ghost predicate Satisfied(records: seq<Record>, findings: seq<Finding>, w: Setting, i: nat, sameSeverity: bool)
    requires i < |findings|
  {
    Relevant(findings[i]) ==> KeyOf(findings[i]).1 != "" && Excused(records, w, findings[i], sameSeverity)
  }

  ghost predicate IsFirst(findings: seq<Finding>, i: nat)
    requires i < |findings|
  {
    !Seen(findings[..i], KeyOf(findings[i]))
  }

  lemma ExcusedByIndex(records: seq<Record>, w: Setting, f: Finding, sameSeverity: bool)
    requires WellFormed(records, w)
    ensures var m := BuildIndex(records, w).entries;
            Excused(records, w, f, sameSeverity) <==>
            KeyOf(f) in m && m[KeyOf(f)].expires >= w.today && (sameSeverity ==> !Mismatches(m[KeyOf(f)], f))
  {
    hide Listed, WellFormed, KeyOf, Mismatches, BuildIndex;
    IndexListed(records, w);
    var m := BuildIndex(records, w).entries;
    if e :| Listed(records, w, KeyOf(f), e) && e.expires >= w.today && (sameSeverity ==> !Mismatches(e, f)) {
      OneEntry(records, w, KeyOf(f), e, m[KeyOf(f)]);
    }
  }

  /** The gate exits with 0 exactly when every exception is well-formed and no two share a key,
      and every named high or critical finding has an advisory and an unexpired exception, whose
      severity, when it has one, is that of the first finding with that key. */
  lemma GateExact(records: seq<Record>, findings: seq<Finding>, w: Setting)
    ensures ExitCode(records, findings, w, true) == 0 <==>
              && WellFormed(records, w)
              && forall i: nat :: i < |findings| ==> Satisfied(records, findings, w, i, IsFirst(findings, i))
  {
    IndexErrors(records, w);
    var m := BuildIndex(records, w).entries;
    CleanExact(findings, m, w.today, true);
    hide WellFormed, BuildIndex, Check, Clean;
    if WellFormed(records, w) {
      forall i: nat | i < |findings|
        ensures Satisfied(records, findings, w, i, IsFirst(findings, i)) ==> Passes(findings, i, m, w.today, true)
      {
        if Satisfied(records, findings, w, i, IsFirst(findings, i)) { SatisfiedPasses(records, findings, w, i); }
      }
      if forall i: nat :: i < |findings| ==> Passes(findings, i, m, w.today, true) {
        forall i: nat | i < |findings|
          ensures Satisfied(records, findings, w, i, IsFirst(findings, i))
        {
          AllCovered(findings, i, m, w.today, true);
          assert Passes(findings, i, m, w.today, true);
          ExcusedByIndex(records, w, findings[i], IsFirst(findings, i));
          hide Relevant, KeyOf, Excused, Mismatches, Seen;
        }
      }
    }
  }

  lemma SatisfiedPasses(records: seq<Record>, findings: seq<Finding>, w: Setting, i: nat)
    requires i < |findings| && WellFormed(records, w)
    requires Satisfied(records, findings, w, i, IsFirst(findings, i))
    ensures Passes(findings, i, BuildIndex(records, w).entries, w.today, true)
  {
    ExcusedByIndex(records, w, findings[i], IsFirst(findings, i));
    hide WellFormed, BuildIndex, Relevant, KeyOf, Excused, Mismatches, Seen;
  }

  /** A high or critical finding with a name. */
  ghost predicate Counts(f: Finding) {
    && f.name.Some? && f.name.value != ""
    && f.severity.Some? && LowerAll(Strip(f.severity.value)) in {"high", "critical"}
  }

  /** It says which advisory it is about. */
  ghost predicate Named(f: Finding) {
    f.advisory.Some? && Strip(f.advisory.value) != ""
  }

  /** The exception is for this package and advisory. */
  ghost predicate IsFor(r: Record, f: Finding, w: Setting) {
    && Acceptable(r, w) && f.name.Some? && f.advisory.Some?
    && Strip(r["package"]) == Strip(f.name.value)
    && LowerAll(Strip(r["advisory"])) == LowerAll(Strip(f.advisory.value))
  }

  /** It has not expired and, where it is asked for, names the severity or none. */
  ghost predicate Covers(r: Record, f: Finding, w: Setting, sameSeverity: bool) {
    && IsFor(r, f, w) && w.parseDate(r["expires_on"]).value >= w.today
    && (sameSeverity ==>
          LowerAll(Strip(r["severity"])) in {"", LowerAll(Strip(if f.severity.Some? then f.severity.value else ""))})
  }

  /** An earlier finding is about the same package and advisory. */
  ghost predicate Repeated(findings: seq<Finding>, i: nat)
    requires i < |findings| && Counts(findings[i]) && Named(findings[i])
  {
    exists j :: 0 <= j < i && Counts(findings[j]) && Named(findings[j])
                && Strip(findings[j].name.value) == Strip(findings[i].name.value)
                && LowerAll(Strip(findings[j].advisory.value)) == LowerAll(Strip(findings[i].advisory.value))
  }

  /** What the gate is for: all exceptions acceptable, no two for one package and advisory, and
      every high or critical finding covered by one, with its severity where it is the first. */
  ghost predicate GatePasses(records: seq<Record>, findings: seq<Finding>, w: Setting) {
    && (forall i :: 0 <= i < |records| ==> Acceptable(records[i], w))
    && (forall i, j :: 0 <= i < j < |records| ==>
          Strip(records[i]["package"]) != Strip(records[j]["package"])
          || LowerAll(Strip(records[i]["advisory"])) != LowerAll(Strip(records[j]["advisory"])))
    && (forall i: nat :: i < |findings| && Counts(findings[i]) ==>
          Named(findings[i]) && Covered(records, findings[i], w, !Repeated(findings, i)))
  }

  ghost predicate Covered(records: seq<Record>, f: Finding, w: Setting, sameSeverity: bool) {
    exists r :: r in records && Covers(r, f, w, sameSeverity)
  }

  lemma StripOfNothing()
    ensures Strip("") == "" && LowerAll("") == ""
  {
  }

  lemma LowerKeepsEmpty(s: string)
    ensures LowerAll(s) == "" <==> s == ""
  {
  }

  /** `Relevant` and `KeyOf` are what they should be. */
  lemma FindingExact(f: Finding)
    ensures Relevant(f) <==> Counts(f)
    ensures Counts(f) ==> (KeyOf(f).1 != "" <==> Named(f))
    ensures Counts(f) && Named(f) ==>
              KeyOf(f) == (Strip(f.name.value), LowerAll(Strip(f.advisory.value)))
  {
    StripOfNothing();
    LowerKeepsEmpty(Strip(OrEmpty(f.advisory)));
    hide Strip, LowerAll;
  }

  lemma WellFormedDeclared(records: seq<Record>, w: Setting)
    ensures WellFormed(records, w) <==>
              && (forall i :: 0 <= i < |records| ==> Acceptable(records[i], w))
              && (forall i, j :: 0 <= i < j < |records| ==>
                    Strip(records[i]["package"]) != Strip(records[j]["package"])
                    || LowerAll(Strip(records[i]["advisory"])) != LowerAll(Strip(records[j]["advisory"])))
  {
    forall i | 0 <= i < |records|
      ensures Judge(records[i], w).Good? <==> Acceptable(records[i], w)
      ensures Acceptable(records[i], w) ==>
                Judge(records[i], w).key == (Strip(records[i]["package"]), LowerAll(Strip(records[i]["advisory"])))
    {
      JudgeExact(records[i], w);
    }
    hide Judge, Strip, LowerAll, Acceptable;
  }

  lemma CoveredDeclared(records: seq<Record>, f: Finding, w: Setting, sameSeverity: bool)
    requires Counts(f) && Named(f)
    ensures Excused(records, w, f, sameSeverity) <==> Covered(records, f, w, sameSeverity)
  {
    FindingExact(f);
    forall i | 0 <= i < |records|
      ensures var j := Judge(records[i], w);
              Covers(records[i], f, w, sameSeverity) <==>
                && j.Good? && j.key == KeyOf(f) && j.entry.expires >= w.today
                && (sameSeverity ==> !Mismatches(j.entry, f))
    {
      CoversDeclared(records[i], f, w, sameSeverity);
    }
    hide Judge, KeyOf, Mismatches, Covers, Counts, Named;
    if r :| r in records && Covers(r, f, w, sameSeverity) {
      var i :| 0 <= i < |records| && records[i] == r;
      assert Listed(records, w, KeyOf(f), Judge(r, w).entry);
    }
  }

  lemma CoversDeclared(r: Record, f: Finding, w: Setting, sameSeverity: bool)
    requires Counts(f) && Named(f)
    ensures var j := Judge(r, w);
            Covers(r, f, w, sameSeverity) <==>
              && j.Good? && j.key == KeyOf(f) && j.entry.expires >= w.today
              && (sameSeverity ==> !Mismatches(j.entry, f))
  {
    FindingExact(f);
    JudgeExact(r, w);
    hide Judge, KeyOf, Strip, LowerAll, AllFields;
  }

  lemma RepeatedDeclared(findings: seq<Finding>, i: nat)
    requires i < |findings| && Counts(findings[i]) && Named(findings[i])
    ensures IsFirst(findings, i) <==> !Repeated(findings, i)
  {
    var k := KeyOf(findings[i]);
    forall j | 0 <= j <= i
      ensures Relevant(findings[j]) && KeyOf(findings[j]).1 != "" <==> Counts(findings[j]) && Named(findings[j])
      ensures Counts(findings[j]) && Named(findings[j]) ==>
                KeyOf(findings[j]) == (Strip(findings[j].name.value), LowerAll(Strip(findings[j].advisory.value)))
    {
      FindingExact(findings[j]);
    }
    hide Relevant, KeyOf, Counts, Strip, LowerAll;
    if Seen(findings[..i], k) {
      var j := SeenAt(findings, i, k);
      assert Counts(findings[j]) && Named(findings[j]);
    }
    if Repeated(findings, i) {
      var j :| 0 <= j < i && Counts(findings[j]) && Named(findings[j])
               && Strip(findings[j].name.value) == Strip(findings[i].name.value)
               && LowerAll(Strip(findings[j].advisory.value)) == LowerAll(Strip(findings[i].advisory.value));
      assert findings[..i][j] == findings[j];
    }
  }

  /** The verdict of the program, in terms of its input alone. */
  lemma GateDeclared(records: seq<Record>, findings: seq<Finding>, w: Setting)
    ensures ExitCode(records, findings, w, true) == 0 <==> GatePasses(records, findings, w)
  {
    GateExact(records, findings, w);
    WellFormedDeclared(records, w);
    hide ExitCode, WellFormed, Relevant, KeyOf, Excused, Counts, Named, Covered, Repeated, Acceptable;
    forall i: nat | i < |findings|
      ensures Satisfied(records, findings, w, i, IsFirst(findings, i)) <==>
              (Counts(findings[i]) ==>
                 Named(findings[i]) && Covered(records, findings[i], w, !Repeated(findings, i)))
    {
      FindingExact(findings[i]);
      if Counts(findings[i]) && Named(findings[i]) {
        RepeatedDeclared(findings, i);
        CoveredDeclared(records, findings[i], w, IsFirst(findings, i));
      }
    }
  }

  /** Without the `seen` set the gate would ask for the severity of every finding. */
  lemma GateWithoutSeen(records: seq<Record>, findings: seq<Finding>, w: Setting)
    ensures ExitCode(records, findings, w, false) == 0 <==>
              && WellFormed(records, w)
              && forall i: nat :: i < |findings| ==> Satisfied(records, findings, w, i, true)
  {
    IndexErrors(records, w);
    var m := BuildIndex(records, w).entries;
    CleanExact(findings, m, w.today, false);
    hide WellFormed, BuildIndex, Check, Clean;
    if WellFormed(records, w) {
      forall i: nat | i < |findings|
        ensures Satisfied(records, findings, w, i, true) <==> Passes(findings, i, m, w.today, false)
      {
        ExcusedByIndex(records, w, findings[i], true);
        hide Relevant, KeyOf, Excused, Mismatches, Seen;
      }
    }
  }

  // ---------------------------------------------------------------- what `seen` changes

  ghost predicate Reports(fs: seq<Finding>, k: Key) {
    exists f :: f in fs && KeyOf(f) == k
  }

  /** The keys reported missing or expired are those of the relevant findings without an
      exception, or with an expired one: `seen` has no part in it. */
  lemma {:induction false} SeenKeepsVerdicts(findings: seq<Finding>, entries: map<Key, Entry>, today: int,
                                             dedup: bool, k: Key)
    ensures var r := Check(findings, entries, today, dedup);
            && (Reports(r.missing, k) <==> Seen(findings, k) && k !in entries)
            && (Reports(r.expired, k) <==> Seen(findings, k) && k in entries && entries[k].expires < today)
  {
    if findings != [] {
      var n := |findings| - 1;
      var before, f := findings[..n], findings[n];
      SeenKeepsVerdicts(before, entries, today, dedup, k);
      CheckStep(findings, n, entries, today);
      assert findings[..n + 1] == findings;
      var r := Check(before, entries, today, dedup);
      ReportsSnoc(r.missing, f, k);
      ReportsSnoc(r.expired, f, k);
      hide Seen, KeyOf, Relevant, Mismatches, Reports, Check;
    }
  }

  lemma ReportsSnoc(fs: seq<Finding>, f: Finding, k: Key)
    ensures Reports(fs + [f], k) <==> Reports(fs, k) || KeyOf(f) == k
  {
    hide KeyOf;
    assert f in fs + [f];
  }

  /** The `seen` set changes the exit code exactly when a later finding repeats a key with a
      severity its exception does not have, and nothing else is wrong. */
  lemma SeenChangesOnlySeverity(records: seq<Record>, findings: seq<Finding>, w: Setting)
    ensures ExitCode(records, findings, w, false) == 0 <==>
              && ExitCode(records, findings, w, true) == 0
              && forall i: nat :: i < |findings| && !IsFirst(findings, i) ==> Satisfied(records, findings, w, i, true)
  {
    GateExact(records, findings, w);
    GateWithoutSeen(records, findings, w);
    hide ExitCode, WellFormed, IsFirst;
    forall i: nat | i < |findings| && Satisfied(records, findings, w, i, true)
      ensures Satisfied(records, findings, w, i, IsFirst(findings, i))
    {
    }
  }

  // ---------------------------------------------------------------- the order of the findings

  /** What the gate would demand of a finding without its `seen` set. */
  ghost predicate Fine(records: seq<Record>, w: Setting, f: Finding) {
    Relevant(f) ==> KeyOf(f).1 != "" && Excused(records, w, f, true)
  }

  /** Every relevant finding has an advisory, and a relevant finding with its key is excused with
      its severity. */
  ghost predicate Excusable(records: seq<Record>, findings: seq<Finding>, w: Setting) {
    forall f :: f in findings && Relevant(f) ==> KeyOf(f).1 != "" && SpokenFor(records, findings, w, KeyOf(f))
  }

  ghost predicate SpokenFor(records: seq<Record>, findings: seq<Finding>, w: Setting, k: Key) {
    exists g :: g in findings && Relevant(g) && KeyOf(g) == k && Excused(records, w, g, true)
  }

  /** The findings that are fine, or those that are not, in their order. */
  ghost function Sift(records: seq<Record>, findings: seq<Finding>, w: Setting, fine: bool): seq<Finding> {
    if findings == [] then []
    else
      var n := |findings| - 1;
      Sift(records, findings[..n], w, fine)
      + if Fine(records, w, findings[n]) == fine then [findings[n]] else []
  }

  lemma {:induction false} SiftHas(records: seq<Record>, findings: seq<Finding>, w: Setting, fine: bool, f: Finding)
    ensures f in Sift(records, findings, w, fine) <==> f in findings && Fine(records, w, f) == fine
  {
    hide Fine;
    if findings != [] {
      var n := |findings| - 1;
      assert findings == findings[..n] + [findings[n]];
      SiftHas(records, findings[..n], w, fine, f);
    }
  }

  lemma {:induction false} SiftRearranges(records: seq<Record>, findings: seq<Finding>, w: Setting)
    ensures multiset(Sift(records, findings, w, true)) + multiset(Sift(records, findings, w, false))
         == multiset(findings)
  {
    hide Fine;
    if findings != [] {
      var n := |findings| - 1;
      assert findings == findings[..n] + [findings[n]];
      SiftRearranges(records, findings[..n], w);
    }
  }

  lemma SameMembers(fs: seq<Finding>, gs: seq<Finding>)
    requires multiset(fs) == multiset(gs)
    ensures forall f :: f in fs <==> f in gs
  {
    assert forall f :: f in fs <==> f in multiset(fs);
    assert forall f :: f in gs <==> f in multiset(gs);
  }

  /** With the fine findings in front the gate passes, when it passes in any order. */
  lemma FineFirstPasses(records: seq<Record>, findings: seq<Finding>, w: Setting)
    requires WellFormed(records, w) && Excusable(records, findings, w)
    ensures ExitCode(records, Sift(records, findings, w, true) + Sift(records, findings, w, false), w, true) == 0
  {
    hide Relevant, KeyOf, WellFormed, Sift, ExitCode, Excused;
    var fine, other := Sift(records, findings, w, true), Sift(records, findings, w, false);
    var all := fine + other;
    GateExact(records, all, w);
    forall i: nat | i < |all|
      ensures Satisfied(records, all, w, i, IsFirst(all, i))
    {
      var f := all[i];
      assert f in all;
      SiftHas(records, findings, w, true, f);
      SiftHas(records, findings, w, false, f);
      if Relevant(f) {
        var g :| g in findings && Relevant(g) && KeyOf(g) == KeyOf(f) && Excused(records, w, g, true);
        SameKeyExcuse(records, w, g, f);
        if i >= |fine| {
          SiftHas(records, findings, w, true, g);
          assert all[..i] == fine + other[..i - |fine|];
          assert Seen(all[..i], KeyOf(f));
        }
      }
    }
  }

  lemma SameKeyExcuse(records: seq<Record>, w: Setting, f: Finding, g: Finding)
    requires KeyOf(f) == KeyOf(g) && Excused(records, w, f, true)
    ensures Excused(records, w, f, false) && Excused(records, w, g, false)
  {
    hide KeyOf, Listed, Mismatches;
  }

  /** The first finding with the key of finding `i`. */
  lemma {:induction false} FirstOf(findings: seq<Finding>, i: nat) returns (j: nat)
    requires i < |findings| && Relevant(findings[i])
    ensures j <= i && Relevant(findings[j]) && KeyOf(findings[j]) == KeyOf(findings[i]) && IsFirst(findings, j)
  {
    hide Relevant, KeyOf;
    j := i;
    if !IsFirst(findings, i) {
      j := SeenAt(findings, i, KeyOf(findings[i]));
      j := FirstOf(findings, j);
    }
  }

  lemma PassNeeds(records: seq<Record>, findings: seq<Finding>, w: Setting)
    requires ExitCode(records, findings, w, true) == 0
    ensures WellFormed(records, w) && Excusable(records, findings, w)
  {
    hide Relevant, KeyOf, WellFormed, ExitCode, Excused;
    GateExact(records, findings, w);
    forall f | f in findings && Relevant(f)
      ensures KeyOf(f).1 != "" && SpokenFor(records, findings, w, KeyOf(f))
    {
      var i :| 0 <= i < |findings| && findings[i] == f;
      assert Satisfied(records, findings, w, i, IsFirst(findings, i));
      var j := FirstOf(findings, i);
      assert Satisfied(records, findings, w, j, IsFirst(findings, j));
      assert findings[j] in findings;
    }
  }

  /** The gate passes for some order of the findings exactly when the exceptions are well-formed
      and every relevant finding has an advisory and shares its key with an excused one. */
  lemma SomeOrderPasses(records: seq<Record>, findings: seq<Finding>, w: Setting)
    ensures (exists fs :: multiset(fs) == multiset(findings) && ExitCode(records, fs, w, true) == 0)
       <==> WellFormed(records, w) && Excusable(records, findings, w)
  {
    hide WellFormed, ExitCode, Relevant, KeyOf, Excused;
    if fs :| multiset(fs) == multiset(findings) && ExitCode(records, fs, w, true) == 0 {
      PassNeeds(records, fs, w);
      SameMembers(fs, findings);
      assert forall k :: SpokenFor(records, fs, w, k) ==> SpokenFor(records, findings, w, k);
    }
    if WellFormed(records, w) && Excusable(records, findings, w) {
      FineFirstPasses(records, findings, w);
      SiftRearranges(records, findings, w);
    }
  }

  lemma AllFine(records: seq<Record>, findings: seq<Finding>, w: Setting)
    ensures ExitCode(records, findings, w, false) == 0
       <==> WellFormed(records, w) && forall f :: f in findings ==> Fine(records, w, f)
  {
    hide WellFormed, ExitCode, Relevant, KeyOf, Excused;
    GateWithoutSeen(records, findings, w);
    assert forall i: nat :: i < |findings| ==>
                              (Satisfied(records, findings, w, i, true) <==> Fine(records, w, findings[i]));
    forall f | f in findings
      ensures exists i: nat :: i < |findings| && findings[i] == f
    {
    }
  }

  /** A finding that is not fine fails the gate when it comes first. */
  lemma OthersFirstFail(records: seq<Record>, findings: seq<Finding>, w: Setting, f: Finding)
    requires f in findings && !Fine(records, w, f)
    ensures ExitCode(records, Sift(records, findings, w, false) + Sift(records, findings, w, true), w, true) == 1
  {
    hide WellFormed, ExitCode, Relevant, KeyOf, Excused, Sift;
    var all := Sift(records, findings, w, false) + Sift(records, findings, w, true);
    SiftHas(records, findings, w, false, f);
    SiftHas(records, findings, w, false, all[0]);
    GateExact(records, all, w);
    assert !Seen(all[..0], KeyOf(all[0]));
    assert !Satisfied(records, all, w, 0, IsFirst(all, 0));
  }

  /** The gate passes for every order of the findings exactly when it would pass without its
      `seen` set. */
  lemma EveryOrderPasses(records: seq<Record>, findings: seq<Finding>, w: Setting)
    ensures (forall fs :: multiset(fs) == multiset(findings) ==> ExitCode(records, fs, w, true) == 0)
       <==> ExitCode(records, findings, w, false) == 0
  {
    hide WellFormed, ExitCode, Fine;
    AllFine(records, findings, w);
    SiftRearranges(records, findings, w);
    if ExitCode(records, findings, w, false) == 0 {
      forall fs | multiset(fs) == multiset(findings)
        ensures ExitCode(records, fs, w, true) == 0
      {
        SameMembers(fs, findings);
        AllFine(records, fs, w);
        SeenChangesOnlySeverity(records, fs, w);
      }
    } else if forall f :: f in findings ==> Fine(records, w, f) {
      GateExact(records, findings, w);
    } else {
      var f :| f in findings && !Fine(records, w, f);
      OthersFirstFail(records, findings, w, f);
    }
  }

  /** The order of the findings decides the exit code exactly when every exception is well-formed,
      every relevant finding has an advisory and shares its key with an excused one, and one of
      them is not excused itself. */
  lemma OrderDecidesExactlyWhen(records: seq<Record>, findings: seq<Finding>, w: Setting)
    ensures (exists fs :: multiset(fs) == multiset(findings)
                          && ExitCode(records, fs, w, true) != ExitCode(records, findings, w, true))
       <==> && WellFormed(records, w)
            && Excusable(records, findings, w)
            && exists f :: f in findings && Relevant(f) && !Excused(records, w, f, true)
  {
    hide WellFormed, ExitCode, Relevant, KeyOf, Excused;
    SomeOrderPasses(records, findings, w);
    EveryOrderPasses(records, findings, w);
    AllFine(records, findings, w);
  }

  /** No key has findings of two severities. */
  ghost predicate OneSeverity(findings: seq<Finding>) {
    forall f, g :: f in findings && g in findings && Relevant(f) && Relevant(g) && KeyOf(f) == KeyOf(g) ==>
      NormalizeSeverity(OrEmpty(f.severity)) == NormalizeSeverity(OrEmpty(g.severity))
  }

  /** Then an excused finding speaks for all that share its key. */
  lemma OneSeverityFine(records: seq<Record>, findings: seq<Finding>, w: Setting, f: Finding)
    requires OneSeverity(findings) && Excusable(records, findings, w) && f in findings && Relevant(f)
    ensures Excused(records, w, f, true)
  {
    hide Excused, KeyOf, Relevant, NormalizeSeverity;
    var g :| g in findings && Relevant(g) && KeyOf(g) == KeyOf(f) && Excused(records, w, g, true);
    assert NormalizeSeverity(OrEmpty(g.severity)) == NormalizeSeverity(OrEmpty(f.severity));
    SameExcuse(records, w, g, f);
  }

  lemma SameExcuse(records: seq<Record>, w: Setting, f: Finding, g: Finding)
    requires KeyOf(f) == KeyOf(g)
    ensures NormalizeSeverity(OrEmpty(f.severity)) == NormalizeSeverity(OrEmpty(g.severity)) ==>
              (Excused(records, w, f, true) <==> Excused(records, w, g, true))
  {
    hide KeyOf, NormalizeSeverity;
  }

  /** When no key has two severities, the exit code depends neither on the order of the findings
      nor on the `seen` set. */
  lemma OrderDoesNotMatter(records: seq<Record>, findings: seq<Finding>, findings': seq<Finding>, w: Setting)
    requires multiset(findings) == multiset(findings') && OneSeverity(findings)
    ensures ExitCode(records, findings, w, true) == ExitCode(records, findings', w, true)
    ensures ExitCode(records, findings, w, true) == ExitCode(records, findings, w, false)
  {
    hide WellFormed, ExitCode, Relevant, KeyOf, Excused, OneSeverity;
    OrderDecidesExactlyWhen(records, findings, w);
    forall f | Excusable(records, findings, w) && f in findings && Relevant(f)
      ensures Excused(records, w, f, true)
    {
      OneSeverityFine(records, findings, w, f);
    }
    EveryOrderPasses(records, findings, w);
  }

  /** An instance of the condition: with an exception for the severity of one of two findings of a key, the
      gate passes when that one comes first and fails when it comes second. */
  lemma OrderMatters(r: Record, f: Finding, g: Finding, w: Setting)
    requires Relevant(f) && Relevant(g) && KeyOf(f) == KeyOf(g) && KeyOf(f).1 != ""
    requires NormalizeSeverity(OrEmpty(f.severity)) != NormalizeSeverity(OrEmpty(g.severity))
    requires Judge(r, w).Good? && Judge(r, w).key == KeyOf(f) && Judge(r, w).entry.expires >= w.today
    requires Judge(r, w).entry.severity == NormalizeSeverity(OrEmpty(f.severity))
    ensures ExitCode([r], [f, g], w, true) == 0
    ensures ExitCode([r], [g, f], w, true) == 1
  {
    hide NormalizeSeverity, KeyOf, Judge;
    assert [r][..0] == [];
    var e := Judge(r, w).entry;
    assert BuildIndex([r], w) == IndexStep(Index(map[], []), Judge(r, w));
    var m := BuildIndex([r], w).entries;
    assert m == map[KeyOf(f) := e];
    CheckOne(f, m, w.today);
    CheckOne(g, m, w.today);
    CheckTwo(f, g, m, w.today);
    CheckTwo(g, f, m, w.today);
  }

  lemma CheckOne(f: Finding, m: map<Key, Entry>, today: int)
    requires Relevant(f) && KeyOf(f).1 != ""
    ensures Check([f], m, today, true) == Examine(Report([], [], []), f, m, today)
  {
    hide KeyOf, Relevant;
    assert [f][..0] == [];
    assert !Seen([], KeyOf(f));
  }

  lemma CheckTwo(f: Finding, g: Finding, m: map<Key, Entry>, today: int)
    requires Relevant(f) && Relevant(g) && KeyOf(f) == KeyOf(g) && KeyOf(f).1 != ""
    ensures Check([f, g], m, today, true) == Check([f], m, today, true)
  {
    hide KeyOf, Relevant;
    assert [f, g][..1] == [f];
    assert f in [f];
  }
}
