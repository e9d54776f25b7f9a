/** Crash diagnosis: the fold of per-line rules over a boot log, and the
    substring conjunctions users may add. */
module Crash {
  import opened Basics
  import opened TextLines

  datatype Kind =
    | MissingBundle | PluginFailed | BadProfile | SourceDeps | MissingModule | NativeDeps | ClientModuleMissing
    | BundleMismatch | SourceMixed | DuplicatePlugin | ToolMissing | CliArg | CliError | WebAuthRefused

  datatype Fix = ExcludeBundle | Restore | InstallDeps | Reinstall | RebuildSource | Restart | ReopenUrl

  datatype Key = Key(kind: Kind, plugin: string)

  datatype Issue = Issue(key: Key, message: string, fix: Fix)

  datatype Capture = Nothing | Quoted | Bare

  datatype Signature = Signature(kind: Kind, fix: Fix, contains: seq<string>, capture: Capture, message: string)

  /** The built-in table on one line: the issues it tries to report, or `None` when no rule knows the line. */
  type Rules = string -> Option<seq<Issue>>

  // ----- searching -----

  /** `needle` stands at index `i`, ASCII case ignored. */
  predicate OccursAt(text: string, needle: string, i: nat) {
    i + |needle| <= |text| && forall k :: 0 <= k < |needle| ==> Lower(text[i + k]) == Lower(needle[k])
  }

  function Lowered(s: string): string { seq(|s|, i requires 0 <= i < |s| => Lower(s[i])) }

  /** An occurrence is one of the lower-cased needle in the lower-cased text. */
  lemma OccursAtIff(text: string, needle: string, i: nat)
    ensures OccursAt(text, needle, i) <==> i <= |text| && Lowered(needle) <= Lowered(text)[i..]
  {
    if i <= |text| && |needle| <= |text| - i {
      var a, b := Lowered(text)[i..], Lowered(needle);
      assert forall k :: 0 <= k < |needle| ==> a[k] == Lower(text[i + k]) && b[k] == Lower(needle[k]);
      if b <= a { assert forall k :: 0 <= k < |needle| ==> a[k] == b[k]; }
    }
  }

  /** `find_ci` from index `from` on: the first occurrence. */
  function Find(text: string, needle: string, from: nat): (r: Option<nat>)
    requires from <= |text|
    ensures r.Some? ==> from <= r.value && OccursAt(text, needle, r.value)
    ensures forall i :: from <= i && OccursAt(text, needle, i) ==> r.Some? && r.value <= i
    decreases |text| - from
  {
    if OccursAt(text, needle, from) then Some(from)
    else if from == |text| then None
    else Find(text, needle, from + 1)
  }

  /** Where the last needle ends when each is searched for behind the one before. */
  function Greedy(text: string, needles: seq<string>, from: nat): (r: Option<nat>)
    requires from <= |text|
    ensures r.Some? ==> from <= r.value <= |text|
    decreases |needles|
  {
    if needles == [] then Some(from)
    else
      match Find(text, needles[0], from)
      case None => None
      case Some(i) => Greedy(text, needles[1..], i + |needles[0]|)
  }

  /** The needles stand in the text in order, from `from` on, without overlap. */
  predicate InOrder(text: string, needles: seq<string>, from: nat, starts: seq<nat>) {
    && |starts| == |needles|
    && (forall i :: 0 <= i < |starts| ==> OccursAt(text, needles[i], starts[i]))
    && (forall i :: 0 <= i < |starts| ==> from <= starts[i])
    && (forall i, j :: 0 <= i < j < |starts| ==> starts[i] + |needles[i]| <= starts[j])
  }

  function EndOf(needles: seq<string>, from: nat, starts: seq<nat>): nat
    requires |starts| == |needles|
  {
    if starts == [] then from else starts[|starts| - 1] + |needles[|starts| - 1]|
  }

  lemma {:induction false} GreedyFinds(text: string, needles: seq<string>, from: nat)
    requires from <= |text| && Greedy(text, needles, from).Some?
    ensures exists starts :: InOrder(text, needles, from, starts)
                          && EndOf(needles, from, starts) == Greedy(text, needles, from).value
    decreases |needles|
  {
    if needles == [] {
      assert InOrder(text, needles, from, []);
    } else {
      var i := Find(text, needles[0], from).value;
      var next := i + |needles[0]|;
      GreedyFinds(text, needles[1..], next);
      var rest :| InOrder(text, needles[1..], next, rest)
               && EndOf(needles[1..], next, rest) == Greedy(text, needles[1..], next).value;
      InOrderCons(text, needles, from, i, rest);
    }
  }

  lemma {:induction false} InOrderCons(text: string, needles: seq<string>, from: nat, i: nat, rest: seq<nat>)
    requires needles != [] && from <= i && OccursAt(text, needles[0], i)
    requires InOrder(text, needles[1..], i + |needles[0]|, rest)
    ensures InOrder(text, needles, from, [i] + rest)
    ensures EndOf(needles, from, [i] + rest) == EndOf(needles[1..], i + |needles[0]|, rest)
  {
    hide OccursAt;
    var starts := [i] + rest;
    forall k | 0 <= k < |starts| ensures OccursAt(text, needles[k], starts[k]) && from <= starts[k] {
      if k > 0 { assert starts[k] == rest[k - 1] && needles[k] == needles[1..][k - 1]; }
    }
    forall a, b | 0 <= a < b < |starts| ensures starts[a] + |needles[a]| <= starts[b] {
      assert starts[b] == rest[b - 1];
      if a > 0 { assert starts[a] == rest[a - 1] && needles[a] == needles[1..][a - 1]; }
    }
  }

  lemma {:induction false} GreedyLeast(text: string, needles: seq<string>, from: nat, starts: seq<nat>)
    requires from <= |text| && InOrder(text, needles, from, starts)
    ensures Greedy(text, needles, from).Some?
    ensures Greedy(text, needles, from).value <= EndOf(needles, from, starts)
    decreases |needles|
  {
    if needles != [] {
      var next := Find(text, needles[0], from).value + |needles[0]|;
      var rest := starts[1..];
      forall k | 0 <= k < |rest| ensures OccursAt(text, needles[1..][k], rest[k]) && next <= rest[k] {
        assert rest[k] == starts[k + 1] && needles[1..][k] == needles[k + 1];
      }
      forall a, b | 0 <= a < b < |rest| ensures rest[a] + |needles[1..][a]| <= rest[b] {
        assert rest[a] == starts[a + 1] && rest[b] == starts[b + 1] && needles[1..][a] == needles[a + 1];
      }
      assert InOrder(text, needles[1..], next, rest);
      GreedyLeast(text, needles[1..], next, rest);
    }
  }

  /** The left-to-right search succeeds exactly when the needles occur in order without overlap at all, and
      then it ends as early as any such choice can. */
  lemma {:induction false} GreedyComplete(text: string, needles: seq<string>)
    ensures Greedy(text, needles, 0).Some? <==> exists starts :: InOrder(text, needles, 0, starts)
    ensures forall starts :: InOrder(text, needles, 0, starts) ==>
              Greedy(text, needles, 0).Some? && Greedy(text, needles, 0).value <= EndOf(needles, 0, starts)
  {
    if Greedy(text, needles, 0).Some? { GreedyFinds(text, needles, 0); }
    forall starts | InOrder(text, needles, 0, starts)
      ensures Greedy(text, needles, 0).Some? && Greedy(text, needles, 0).value <= EndOf(needles, 0, starts)
    {
      GreedyLeast(text, needles, 0, starts);
    }
  }

  // ----- the name a signature captures -----

  function IndexOf(s: string, c: char): Option<nat> {
    if s == [] then None
    else if s[0] == c then Some(0)
    else match IndexOf(s[1..], c) case None => None case Some(i) => Some(i + 1)
  }

  /** `quoted_after` on the rest of the line; "" when there is none. */
  function QuotedIn(s: string): (r: string)
    ensures |r| <= |s|
  {
    if s == [] then ""
    else if IsQuote(s[0]) then
      (match IndexOf(s[1..], s[0]) case Some(i) => (if i <= |s[1..]| then s[1..][..i] else "") case None => "")
    else QuotedIn(s[1..])
  }

  predicate IsNameChar(c: char) { IsAlnum(c) || c == '.' || c == '-' || c == '_' }

  function BareRun(s: string): string {
    if s != [] && IsNameChar(s[0]) then [s[0]] + BareRun(s[1..]) else []
  }

  function Captured(c: Capture, rest: string): string {
    match c
    case Nothing => ""
    case Quoted => QuotedIn(rest)
    case Bare => BareRun(TrimStart(rest))
  }

  const NAME_HOLE := "{name}"

  /** `template.replace("{name}", name)` */
  function Filled(template: string, name: string): string
    decreases |template|
  {
    if template == [] then []
    else if NAME_HOLE <= template then name + Filled(template[|NAME_HOLE|..], name)
    else [template[0]] + Filled(template[1..], name)
  }

  // ----- what one line tries to report -----

  predicate Fires(text: string, sig: Signature) {
    sig.contains != [] && Greedy(text, sig.contains, 0).Some?
  }

  function Reported(text: string, sig: Signature): Issue
    requires Fires(text, sig)
  {
    var plugin := Captured(sig.capture, text[Greedy(text, sig.contains, 0).value..]);
    Issue(Key(sig.kind, plugin), Filled(sig.message, plugin), sig.fix)
  }

  function ExtraAttempts(text: string, extras: seq<Signature>): seq<Issue> {
    if extras == [] then []
    else (if Fires(text, extras[0]) then [Reported(text, extras[0])] else []) + ExtraAttempts(text, extras[1..])
  }

  // ----- which name is reported, and in which message -----

  lemma {:induction false} BareFacts(s: string)
    ensures var r := BareRun(s);
            r <= s && (forall i :: 0 <= i < |r| ==> IsNameChar(r[i])) && (|r| < |s| ==> !IsNameChar(s[|r|]))
  {
    hide IsNameChar;
    if s != [] && IsNameChar(s[0]) {
      BareFacts(s[1..]);
      assert s == [s[0]] + s[1..];
    }
  }

  /** `[i..j]` is the first quoted token: its quote is the first one, and `j` the first place it comes again. */
  predicate IsQuotedAt(s: string, i: nat, j: nat) {
    && i < j < |s| && IsQuote(s[i]) && s[j] == s[i]
    && (forall k :: 0 <= k < i ==> !IsQuote(s[k]))
    && (forall k :: i < k < j ==> s[k] != s[i])
  }

  lemma {:induction false} IndexOfFacts(s: string, c: char, n: nat)
    requires n < |s| && s[n] == c && forall k :: 0 <= k < n ==> s[k] != c
    ensures IndexOf(s, c) == Some(n)
  {
    if n > 0 { IndexOfFacts(s[1..], c, n - 1); }
  }

  lemma {:induction false} IndexOfFinds(s: string, c: char)
    ensures match IndexOf(s, c)
            case Some(n) => n < |s| && s[n] == c && forall k :: 0 <= k < n ==> s[k] != c
            case None => c !in s
  {
    if s != [] && s[0] != c {
      IndexOfFinds(s[1..], c);
      assert s == [s[0]] + s[1..];
      assert forall k :: 0 < k < |s| ==> s[k] == s[1..][k - 1];
    }
  }

  lemma {:induction false} QuotedAtReads(s: string, i: nat, j: nat)
    requires IsQuotedAt(s, i, j)
    ensures QuotedIn(s) == s[i + 1..j]
  {
    hide IsQuote;
    if i == 0 {
      assert forall k :: 0 <= k < j - 1 ==> s[1..][k] == s[k + 1];
      IndexOfFacts(s[1..], s[0], j - 1);
      assert s[1..][..j - 1] == s[1..j];
    } else {
      assert forall k :: 0 <= k < |s| - 1 ==> s[1..][k] == s[k + 1];
      QuotedAtReads(s[1..], i - 1, j - 1);
    }
  }

  /** The search for the first quoted token. */
  lemma {:induction false} FindQuoted(s: string) returns (found: bool, i: nat, j: nat)
    ensures found ==> IsQuotedAt(s, i, j)
    ensures !found ==> QuotedIn(s) == ""
  {
    hide IsQuote;
    found, i, j := false, 0, 0;
    if s != [] {
      assert forall k :: 0 < k < |s| ==> s[k] == s[1..][k - 1];
      if IsQuote(s[0]) {
        IndexOfFinds(s[1..], s[0]);
        if IndexOf(s[1..], s[0]).Some? { found, j := true, IndexOf(s[1..], s[0]).value + 1; }
      } else {
        found, i, j := FindQuoted(s[1..]);
        i, j := i + 1, j + 1;
      }
    }
  }

  /** What a firing signature reports: its own kind and fix, and as the name what stands behind the last needle,
      the first quoted token there, or, white space aside, the longest run of name characters there. */
  lemma {:induction false} ReportedName(text: string, sig: Signature)
    requires Fires(text, sig)
    ensures var rest, r := text[Greedy(text, sig.contains, 0).value..], Reported(text, sig);
            && r.key.kind == sig.kind && r.fix == sig.fix && r.message == Filled(sig.message, r.key.plugin)
            && (sig.capture == Nothing ==> r.key.plugin == "")
            && (sig.capture == Quoted ==>
                  && (forall i: nat, j: nat :: IsQuotedAt(rest, i, j) ==> r.key.plugin == rest[i + 1..j])
                  && ((forall i: nat, j: nat :: !IsQuotedAt(rest, i, j)) ==> r.key.plugin == ""))
            && (sig.capture == Bare ==>
                  var t, n := TrimStart(rest), |r.key.plugin|;
                  && r.key.plugin <= t && (forall i :: 0 <= i < n ==> IsNameChar(t[i]))
                  && (n < |t| ==> !IsNameChar(t[n])))
  {
    hide Greedy, Filled, QuotedIn, IsNameChar, TrimStart;
    var rest := text[Greedy(text, sig.contains, 0).value..];
    BareFacts(TrimStart(rest));
    forall i: nat, j: nat | IsQuotedAt(rest, i, j) ensures QuotedIn(rest) == rest[i + 1..j] {
      QuotedAtReads(rest, i, j);
    }
    var found, i0, j0 := FindQuoted(rest);
  }

  /** The first run of name characters anywhere in the text. */
  function FirstRun(s: string): string {
    if s == [] then [] else if IsNameChar(s[0]) then BareRun(s) else FirstRun(s[1..])
  }

  predicate NoNameChar(s: string) {
    forall i :: 0 <= i < |s| ==> !IsNameChar(s[i])
  }

  lemma {:induction false} FirstRunEmptyIff(s: string)
    ensures FirstRun(s) == [] <==> NoNameChar(s)
  {
    if s != [] && !IsNameChar(s[0]) {
      FirstRunEmptyIff(s[1..]);
      assert forall i :: 0 < i < |s| ==> s[i] == s[1..][i - 1];
    }
  }

  lemma {:induction false} FirstRunOfTrimmed(s: string)
    ensures FirstRun(TrimStart(s)) == FirstRun(s)
  {
    if s != [] && IsSpace(s[0]) { FirstRunOfTrimmed(s[1..]); }
  }

  /** A bare capture is the first run of name characters behind the last needle exactly when no other character,
      white space aside, comes before that run: behind a colon, say, nothing is captured. */
  lemma {:induction false} BareIsFirstRunIff(rest: string)
    ensures Captured(Bare, rest) == FirstRun(rest)
       <==> var t := TrimStart(rest); t == [] || IsNameChar(t[0]) || NoNameChar(t)
  {
    hide IsNameChar, IsSpace, TrimStart;
    var t := TrimStart(rest);
    FirstRunOfTrimmed(rest);
    FirstRunEmptyIff(t);
  }

  /** A colon behind the last needle leaves the capture empty, whatever name follows. */
  lemma ColonEndsCapture(name: string)
    ensures Captured(Bare, ": " + name) == ""
  {
    assert TrimStart(": " + name) == ": " + name;
  }

  /** The message is the signature's with every hole filled. */
  lemma {:induction false} HoleFilled(a: string, b: string, name: string)
    requires '{' !in a
    ensures Filled(a + NAME_HOLE + b, name) == a + name + Filled(b, name)
    ensures Filled(a, name) == a
  {
    var t := a + NAME_HOLE + b;
    if a == [] {
      assert t == NAME_HOLE + b && t[|NAME_HOLE|..] == b;
      assert [] + name + Filled(b, name) == name + Filled(b, name);
    } else {
      assert a[0] in a && NAME_HOLE[0] == '{';
      assert t[1..] == a[1..] + NAME_HOLE + b;
      HoleFilled(a[1..], b, name);
      assert a == [a[0]] + a[1..];
      assert [a[0]] + (a[1..] + name + Filled(b, name)) == a + name + Filled(b, name);
    }
  }

  predicate StartsCi(text: string, prefix: string) { OccursAt(text, prefix, 0) }

  predicate ContainsCi(text: string, needle: string) { Find(text, needle, 0).Some? }

  predicate IsErrorLine(text: string) {
    StartsCi(text, "error:") && !ContainsCi(text, "econnrefused") && !ContainsCi(text, "eaddrinuse")
  }

  const EXCERPT_MAX: nat := 200

  function Excerpt(s: string): string {
    var rest := if "error:" <= s || "Error:" <= s then s[6..] else s;
    var t := Trim(rest);
    if |t| > EXCERPT_MAX then t[..EXCERPT_MAX] + "…" else t
  }

  const CLI_KEY := Key(CliError, "")

  function CatchAll(text: string): seq<Issue> {
    if IsErrorLine(text) then [Issue(CLI_KEY, Excerpt(text), Restart)] else []
  }

  /** The issues a line tries to report, in order, whatever was reported before. */
  function Attempts(rules: Rules, text: string, extras: seq<Signature>): seq<Issue> {
    if text == "" then []
    else
      match rules(text)
      case Some(issues) => issues
      case None =>
        var xs := ExtraAttempts(text, extras);
        if xs != [] then xs else CatchAll(text)
  }

  lemma {:induction false} TrimmedMiddle(a: string, m: string, b: string)
    requires AllSpace(a) && AllSpace(b)
    requires m != [] ==> !IsSpace(m[0]) && !IsSpace(m[|m| - 1])
    ensures Trim(a + (m + b)) == m
  {
    TrimStartOfSpaces(a, m + b);
    if m == [] {
      assert m + b == b && b + [] == b;
      TrimStartOfSpaces(b, []);
    } else {
      assert (m + b)[0] == m[0];
      TrimEndOfSpaces(m, b);
    }
  }

  /** An error line no rule claims is reported with the text behind its `error:`, spaces trimmed and cut
      after 200 characters; any other spelling of that word stays. */
  lemma {:induction false} ErrorReported(
      rules: Rules, extras: seq<Signature>, head: string, a: string, m: string, b: string)
    requires AllSpace(a) && AllSpace(b) && (m != [] ==> !IsSpace(m[0]) && !IsSpace(m[|m| - 1]))
    requires var text := head + (a + (m + b));
             && IsErrorLine(text) && rules(text).None? && (forall x :: x in extras ==> !Fires(text, x))
             && (head == "error:" || head == "Error:"
                 || (head == "" && !("error:" <= text) && !("Error:" <= text)))
    ensures Attempts(rules, head + (a + (m + b)), extras)
         == [Issue(Key(CliError, ""), if |m| <= 200 then m else m[..200] + "…", Restart)]
  {
    hide Fires, Trim, AllSpace, IsErrorLine, OccursAt;
    var text := head + (a + (m + b));
    assert text != "" by { ErrorLineIsText(text); }
    NoneAttempts(text, extras);
    TrimmedMiddle(a, m, b);
    assert head == "" ==> text == a + (m + b);
    assert head != "" ==> text[6..] == a + (m + b) && head <= text;
  }

  lemma ErrorLineIsText(text: string)
    requires IsErrorLine(text)
    ensures text != ""
  {
    var word := "error:";
    assert |word| == 6;
  }

  lemma {:induction false} NoneAttempts(text: string, extras: seq<Signature>)
    requires forall x :: x in extras ==> !Fires(text, x)
    ensures ExtraAttempts(text, extras) == []
  {
    if extras != [] {
      assert extras[0] in extras;
      NoneAttempts(text, extras[1..]);
    }
  }

  predicate Holds(text: string, word: string) { exists i | 0 <= i <= |text| :: word <= text[i..] }

  /** An error line begins with `error:` and names neither refusal, in any letter case. */
  lemma {:induction false} ErrorLineIff(text: string)
    ensures IsErrorLine(text) <==>
              && "error:" <= Lowered(text)
              && !Holds(Lowered(text), "econnrefused") && !Holds(Lowered(text), "eaddrinuse")
  {
    hide OccursAt;
    OccursAtIff(text, "error:", 0);
    HoldsIff(text, "econnrefused");
    HoldsIff(text, "eaddrinuse");
    assert Lowered(text)[0..] == Lowered(text);
    assert Lowered("error:") == "error:";
  }

  lemma {:induction false} HoldsIff(text: string, word: string)
    requires Lowered(word) == word
    ensures ContainsCi(text, word) <==> Holds(Lowered(text), word)
  {
    hide OccursAt;
    var r := Find(text, word, 0);
    if r.Some? { OccursAtIff(text, word, r.value); }
    if Holds(Lowered(text), word) {
      var i :| 0 <= i <= |Lowered(text)| && word <= Lowered(text)[i..];
      OccursAtIff(text, word, i);
    }
  }

  function Flat(rules: Rules, lines: seq<string>, extras: seq<Signature>): seq<Issue> {
    if lines == [] then [] else Attempts(rules, lines[0], extras) + Flat(rules, lines[1..], extras)
  }

  // ----- what is reported -----

  /** The first attempt of every key not seen yet. */
  function Dedup(seen: set<Key>, attempts: seq<Issue>): seq<Issue>
    decreases |attempts|
  {
    if attempts == [] then []
    else if attempts[0].key in seen then Dedup(seen, attempts[1..])
    else [attempts[0]] + Dedup(seen + {attempts[0].key}, attempts[1..])
  }

  function Diagnose(rules: Rules, lines: seq<string>, extras: seq<Signature>): seq<Issue> {
    Dedup({}, Flat(rules, lines, extras))
  }

  function Keys(issues: seq<Issue>): set<Key> {
    set i | i in issues :: i.key
  }

  /** The first issue of a key. */
  function First(issues: seq<Issue>, k: Key): Option<Issue> {
    if issues == [] then None
    else if issues[0].key == k then Some(issues[0])
    else First(issues[1..], k)
  }

  lemma KeysOne(i: Issue)
    ensures Keys([i]) == {i.key}
  {
    assert forall j :: j in [i] <==> j == i;
  }

  lemma KeysConcat(a: seq<Issue>, b: seq<Issue>)
    ensures Keys(a + b) == Keys(a) + Keys(b)
  {
    assert forall i :: i in a + b <==> i in a || i in b;
  }

  lemma {:induction false} FirstIff(issues: seq<Issue>, k: Key)
    ensures First(issues, k).Some? <==> k in Keys(issues)
    ensures First(issues, k).Some? ==> First(issues, k).value in issues && First(issues, k).value.key == k
  {
    if issues != [] {
      FirstIff(issues[1..], k);
      assert issues == [issues[0]] + issues[1..];
      KeysConcat([issues[0]], issues[1..]);
    }
  }

  lemma {:induction false} FirstConcat(a: seq<Issue>, b: seq<Issue>, k: Key)
    ensures First(a + b, k) == if First(a, k).Some? then First(a, k) else First(b, k)
  {
    if a == [] {
      assert a + b == b;
    } else {
      assert (a + b)[1..] == a[1..] + b;
      FirstConcat(a[1..], b, k);
    }
  }

  lemma {:induction false} DedupConcat(seen: set<Key>, a: seq<Issue>, b: seq<Issue>)
    ensures Dedup(seen, a + b) == Dedup(seen, a) + Dedup(seen + Keys(a), b)
    decreases |a|
  {
    hide Keys;
    if a == [] {
      assert a + b == b;
      NothingAdded(seen);
    } else {
      assert (a + b)[1..] == a[1..] + b;
      assert a == [a[0]] + a[1..];
      KeysConcat([a[0]], a[1..]);
      KeysOne(a[0]);
      if a[0].key in seen {
        DedupConcat(seen, a[1..], b);
        assert seen + Keys(a) == seen + Keys(a[1..]);
      } else {
        DedupConcat(seen + {a[0].key}, a[1..], b);
        assert seen + Keys(a) == seen + {a[0].key} + Keys(a[1..]);
      }
    }
  }

  lemma {:induction false} FirstNone(issues: seq<Issue>, k: Key)
    requires First(issues, k) == None
    ensures forall i :: 0 <= i < |issues| ==> issues[i].key != k
  {
    if issues != [] {
      FirstNone(issues[1..], k);
      assert forall i :: 0 < i < |issues| ==> issues[i] == issues[1..][i - 1];
    }
  }

  /** Reporting keeps the first attempt of every key, and of no key twice. */
  lemma {:induction false} DedupFacts(seen: set<Key>, as_: seq<Issue>)
    ensures forall k :: First(Dedup(seen, as_), k) == if k in seen then None else First(as_, k)
    ensures DistinctKeys(Dedup(seen, as_))
    decreases |as_|
  {
    if as_ != [] {
      var k0 := as_[0].key;
      var rest := Dedup(if k0 in seen then seen else seen + {k0}, as_[1..]);
      DedupFacts(if k0 in seen then seen else seen + {k0}, as_[1..]);
      if k0 !in seen {
        FirstNone(rest, k0);
        assert ([as_[0]] + rest)[1..] == rest;
      }
    }
  }

  predicate DistinctKeys(issues: seq<Issue>) {
    forall i, j :: 0 <= i < j < |issues| ==> issues[i].key != issues[j].key
  }

  /** Each (kind, plugin) is reported once, with its first attempt. */
  lemma DiagnoseFacts(rules: Rules, lines: seq<string>, extras: seq<Signature>)
    ensures DistinctKeys(Diagnose(rules, lines, extras))
    ensures forall k :: First(Diagnose(rules, lines, extras), k) == First(Flat(rules, lines, extras), k)
  {
    DedupFacts({}, Flat(rules, lines, extras));
  }

  /** The reported issues are attempts, in the order in which their keys were first attempted. */
  lemma {:induction false} FirstAttemptOrder(rules: Rules, lines: seq<string>, extras: seq<Signature>, n: nat)
    requires n <= |Flat(rules, lines, extras)|
    ensures var flat := Flat(rules, lines, extras);
            var done := Dedup({}, flat[..n]);
            && done <= Diagnose(rules, lines, extras)
            && forall k :: k in Keys(done) <==> k in Keys(flat[..n])
  {
    var flat := Flat(rules, lines, extras);
    assert flat == flat[..n] + flat[n..];
    DedupConcat({}, flat[..n], flat[n..]);
    DedupFacts({}, flat[..n]);
    forall k ensures k in Keys(Dedup({}, flat[..n])) <==> k in Keys(flat[..n]) {
      FirstIff(Dedup({}, flat[..n]), k);
      FirstIff(flat[..n], k);
    }
  }

  lemma {:induction false} FlatConcat(rules: Rules, a: seq<string>, b: seq<string>, extras: seq<Signature>)
    ensures Flat(rules, a + b, extras) == Flat(rules, a, extras) + Flat(rules, b, extras)
  {
    if a == [] {
      assert a + b == b;
    } else {
      assert (a + b)[1..] == a[1..] + b;
      FlatConcat(rules, a[1..], b, extras);
      ConcatAssoc(Attempts(rules, a[0], extras), Flat(rules, a[1..], extras), Flat(rules, b, extras));
    }
  }

  /** A longer log only adds issues behind those of its beginning. */
  lemma LongerLogExtends(rules: Rules, a: seq<string>, b: seq<string>, extras: seq<Signature>)
    ensures Diagnose(rules, a, extras) <= Diagnose(rules, a + b, extras)
  {
    FlatConcat(rules, a, b, extras);
    DedupConcat({}, Flat(rules, a, extras), Flat(rules, b, extras));
  }

  // ----- what extra signatures change -----

  /** Line `i` draws an attempt of key `k` from the built-in table. */
  predicate BuiltIn(rules: Rules, lines: seq<string>, i: nat, k: Key)
    requires i < |lines|
  {
    lines[i] != "" && rules(lines[i]).Some? && k in Keys(rules(lines[i]).value)
  }

  lemma {:induction false} FlatMember(rules: Rules, lines: seq<string>, extras: seq<Signature>, k: Key)
    ensures k in Keys(Flat(rules, lines, extras))
       <==> exists i :: 0 <= i < |lines| && k in Keys(Attempts(rules, lines[i], extras))
  {
    if lines != [] {
      FlatMember(rules, lines[1..], extras, k);
      KeysConcat(Attempts(rules, lines[0], extras), Flat(rules, lines[1..], extras));
      assert forall i :: 0 <= i < |lines[1..]| ==> lines[1..][i] == lines[i + 1];
      if exists i :: 0 <= i < |lines| && k in Keys(Attempts(rules, lines[i], extras)) {
        var i :| 0 <= i < |lines| && k in Keys(Attempts(rules, lines[i], extras));
        if i > 0 { assert lines[i] == lines[1..][i - 1]; }
      }
    }
  }

  lemma {:induction false} KeyReportedIff(rules: Rules, lines: seq<string>, extras: seq<Signature>, k: Key)
    ensures k in Keys(Diagnose(rules, lines, extras))
       <==> exists i :: 0 <= i < |lines| && k in Keys(Attempts(rules, lines[i], extras))
  {
    DiagnoseFacts(rules, lines, extras);
    FirstIff(Diagnose(rules, lines, extras), k);
    FirstIff(Flat(rules, lines, extras), k);
    FlatMember(rules, lines, extras, k);
  }

  /** The line is left to the extras and one of them claims it. */
  predicate Claimed(rules: Rules, text: string, extras: seq<Signature>) {
    rules(text).None? && ExtraAttempts(text, extras) != []
  }

  lemma AttemptsWithout(rules: Rules, text: string, extras: seq<Signature>, k: Key)
    requires k in Keys(Attempts(rules, text, []))
    ensures k !in Keys(Attempts(rules, text, extras)) ==> k == CLI_KEY && Claimed(rules, text, extras)
  {
  }

  /** Extras never cost a key, except the generic error: that one goes exactly when every line that would
      have raised it is claimed by an extra that reports something else, and no other line reports it. */
  lemma {:induction false} KeyLostIff(rules: Rules, lines: seq<string>, extras: seq<Signature>, k: Key)
    requires k in Keys(Diagnose(rules, lines, []))
    ensures k !in Keys(Diagnose(rules, lines, extras))
       <==> k == CLI_KEY
            && forall i :: 0 <= i < |lines| && lines[i] != "" ==>
                 && !BuiltIn(rules, lines, i, k)
                 && (rules(lines[i]).None? ==>
                       if Claimed(rules, lines[i], extras) then k !in Keys(ExtraAttempts(lines[i], extras))
                       else !IsErrorLine(lines[i]))
  {
    KeyReportedIff(rules, lines, [], k);
    KeyReportedIff(rules, lines, extras, k);
    var i :| 0 <= i < |lines| && k in Keys(Attempts(rules, lines[i], []));
    AttemptsWithout(rules, lines[i], extras, k);
    forall j | 0 <= j < |lines| && lines[j] != ""
      ensures CLI_KEY in Keys(Attempts(rules, lines[j], extras))
         <==> BuiltIn(rules, lines, j, CLI_KEY)
              || (rules(lines[j]).None?
                  && if Claimed(rules, lines[j], extras) then CLI_KEY in Keys(ExtraAttempts(lines[j], extras))
                     else IsErrorLine(lines[j]))
    {
      CatchAllKey(lines[j]);
    }
  }

  /** One extra that looks for `error:` and reports another kind takes the generic issue of every error line away. */
  lemma ClaimDropsError(rules: Rules, line: string, kind: Kind, fix: Fix, message: string)
    requires rules(line) == None && IsErrorLine(line) && kind != CliError
    ensures var sig := Signature(kind, fix, ["error:"], Nothing, message);
            CLI_KEY in Keys(Diagnose(rules, [line], [])) && CLI_KEY !in Keys(Diagnose(rules, [line], [sig]))
  {
    hide OccursAt;
    var sig := Signature(kind, fix, ["error:"], Nothing, message);
    assert ["error:"][1..] == [] && Find(line, "error:", 0).Some?;
    assert line != "" by { NotEmpty(line); }
    assert [line][1..] == [] && [sig][1..] == [];
    assert ExtraAttempts(line, [sig]) == [Reported(line, sig)];
    KeysOne(Reported(line, sig));
    CatchAllKey(line);
    assert Attempts(rules, line, []) == CatchAll(line);
    KeyReportedIff(rules, [line], [], CLI_KEY);
    KeyReportedIff(rules, [line], [sig], CLI_KEY);
    assert CLI_KEY in Keys(Attempts(rules, [line][0], []));
  }

  lemma NotEmpty(line: string)
    requires StartsCi(line, "error:")
    ensures line != ""
  {
  }

  lemma CatchAllKey(text: string)
    ensures CLI_KEY in Keys(CatchAll(text)) <==> IsErrorLine(text)
    ensures forall k :: k in Keys(CatchAll(text)) ==> k == CLI_KEY
  {
    if IsErrorLine(text) { assert CatchAll(text)[0] in CatchAll(text); }
  }

  /** Every key the built-in rules attempt is reported, with or without extras. */
  lemma BuiltInKeyReported(rules: Rules, lines: seq<string>, extras: seq<Signature>, i: nat, k: Key)
    requires i < |lines| && BuiltIn(rules, lines, i, k)
    ensures k in Keys(Diagnose(rules, lines, extras))
  {
    assert k in Keys(Attempts(rules, lines[i], extras));
    KeyReportedIff(rules, lines, extras, k);
  }

  /** What the first extra firing on the line with key `k` reports. */
  function FirstFiring(text: string, extras: seq<Signature>, k: Key): Option<Issue> {
    if extras == [] then None
    else if Fires(text, extras[0]) && Reported(text, extras[0]).key == k then Some(Reported(text, extras[0]))
    else FirstFiring(text, extras[1..], k)
  }

  predicate NoneFires(text: string, extras: seq<Signature>) {
    forall i :: 0 <= i < |extras| ==> !Fires(text, extras[i])
  }

  /** The issue of key `k` that a line draws although the built-in table leaves it open. */
  function Drawn(rules: Rules, text: string, extras: seq<Signature>, k: Key): Option<Issue> {
    if text == "" || rules(text).Some? then None
    else if k == CLI_KEY && IsErrorLine(text) && NoneFires(text, extras) then
      Some(Issue(CLI_KEY, Excerpt(text), Restart))
    else FirstFiring(text, extras, k)
  }

  /** Line `i` is the first of the log's lines that draws key `k`. */
  predicate FirstDraw(rules: Rules, lines: seq<string>, extras: seq<Signature>, k: Key, i: nat)
    requires i < |lines|
  {
    Drawn(rules, lines[i], extras, k).Some? && forall j :: 0 <= j < i ==> Drawn(rules, lines[j], extras, k).None?
  }

  lemma {:induction false} ExtraAttemptsFirst(text: string, extras: seq<Signature>, k: Key)
    ensures First(ExtraAttempts(text, extras), k) == FirstFiring(text, extras, k)
    ensures ExtraAttempts(text, extras) == [] <==> NoneFires(text, extras)
  {
    hide Fires, Reported;
    if extras != [] {
      ExtraAttemptsFirst(text, extras[1..], k);
      var rest := ExtraAttempts(text, extras[1..]);
      if Fires(text, extras[0]) {
        assert ([Reported(text, extras[0])] + rest)[1..] == rest;
      } else {
        assert [] + rest == rest;
        assert forall i :: 0 <= i < |extras[1..]| ==> extras[1..][i] == extras[i + 1];
      }
    }
  }

  lemma {:induction false} DrawnIsFirst(rules: Rules, text: string, extras: seq<Signature>, k: Key)
    requires text != "" && rules(text).Some? ==> k !in Keys(rules(text).value)
    ensures First(Attempts(rules, text, extras), k) == Drawn(rules, text, extras, k)
  {
    hide Fires, Reported, IsErrorLine, Excerpt, ExtraAttempts, FirstFiring;
    if text != "" && rules(text).Some? {
      FirstIff(rules(text).value, k);
    } else {
      ExtraAttemptsFirst(text, extras, k);
      if ExtraAttempts(text, extras) == [] && IsErrorLine(text) { assert CatchAll(text)[1..] == []; }
    }
  }

  /** The first attempt of a key the built-in table does not raise is the first line's that draws it. */
  lemma {:induction false} FlatFirst(rules: Rules, lines: seq<string>, extras: seq<Signature>, k: Key)
    requires forall i :: 0 <= i < |lines| ==> !BuiltIn(rules, lines, i, k)
    ensures First(Flat(rules, lines, extras), k).None?
         ==> forall i :: 0 <= i < |lines| ==> Drawn(rules, lines[i], extras, k).None?
    ensures First(Flat(rules, lines, extras), k).Some?
         ==> exists i :: 0 <= i < |lines| && FirstDraw(rules, lines, extras, k, i)
                      && First(Flat(rules, lines, extras), k) == Drawn(rules, lines[i], extras, k)
  {
    hide Drawn, Attempts;
    if lines != [] {
      var rest := lines[1..];
      assert !BuiltIn(rules, lines, 0, k);
      forall i | 0 <= i < |rest| ensures !BuiltIn(rules, rest, i, k) { assert !BuiltIn(rules, lines, i + 1, k); }
      FlatFirst(rules, rest, extras, k);
      DrawnIsFirst(rules, lines[0], extras, k);
      FirstConcat(Attempts(rules, lines[0], extras), Flat(rules, rest, extras), k);
      assert forall i :: 0 <= i < |rest| ==> rest[i] == lines[i + 1];
      if Drawn(rules, lines[0], extras, k).Some? {
        assert FirstDraw(rules, lines, extras, k, 0);
      } else if First(Flat(rules, rest, extras), k).Some? {
        var i :| 0 <= i < |rest| && FirstDraw(rules, rest, extras, k, i)
              && First(Flat(rules, rest, extras), k) == Drawn(rules, rest[i], extras, k);
        assert FirstDraw(rules, lines, extras, k, i + 1);
      } else {
        forall i | 0 <= i < |lines| ensures Drawn(rules, lines[i], extras, k).None? {
          if i > 0 { assert Drawn(rules, rest[i - 1], extras, k).None?; }
        }
      }
    }
  }

  lemma {:induction false} FlatFirstAgrees(rules: Rules, lines: seq<string>, extras: seq<Signature>, k: Key,
                                           own: Option<Issue>)
    requires forall i :: 0 <= i < |lines| ==> !BuiltIn(rules, lines, i, k)
    ensures First(Flat(rules, lines, extras), k) in {None, own}
       <==> forall i :: 0 <= i < |lines| && FirstDraw(rules, lines, extras, k, i)
              ==> Drawn(rules, lines[i], extras, k) == own
  {
    hide Drawn, Flat, BuiltIn;
    FlatFirst(rules, lines, extras, k);
    if First(Flat(rules, lines, extras), k).Some? {
      var i :| 0 <= i < |lines| && FirstDraw(rules, lines, extras, k, i)
            && First(Flat(rules, lines, extras), k) == Drawn(rules, lines[i], extras, k);
      forall j | 0 <= j < |lines| && FirstDraw(rules, lines, extras, k, j) ensures j == i { }
    }
  }

  /** A built-in diagnosis keeps its own message and fix exactly when the first earlier line that draws the
      same kind and name without the built-in table, if there is one, draws the very same issue. */
  lemma {:induction false} BuiltInUnshadowedIff(rules: Rules, lines: seq<string>, extras: seq<Signature>, n: nat,
                                                k: Key)
    requires n < |lines| && BuiltIn(rules, lines, n, k)
    requires forall i :: 0 <= i < n ==> !BuiltIn(rules, lines, i, k)
    ensures var own := First(rules(lines[n]).value, k);
            && own.Some?
            && (First(Diagnose(rules, lines, extras), k) == own
                <==> forall i :: 0 <= i < n && FirstDraw(rules, lines, extras, k, i)
                       ==> Drawn(rules, lines[i], extras, k) == own)
  {
    hide Flat, Diagnose, Dedup, Drawn;
    var own := First(rules(lines[n]).value, k);
    var front := lines[..n];
    FirstOfBuiltIn(rules, lines, extras, n, k);
    forall i | 0 <= i < n ensures !BuiltIn(rules, front, i, k) { assert !BuiltIn(rules, lines, i, k); }
    FlatFirstAgrees(rules, front, extras, k, own);
    forall i | 0 <= i < n ensures FirstDraw(rules, front, extras, k, i) == FirstDraw(rules, lines, extras, k, i) {
      assert forall j :: 0 <= j <= i ==> front[j] == lines[j];
    }
  }

  lemma {:induction false} FirstOfBuiltIn(rules: Rules, lines: seq<string>, extras: seq<Signature>, n: nat, k: Key)
    requires n < |lines| && BuiltIn(rules, lines, n, k)
    ensures var own := First(rules(lines[n]).value, k);
            && own.Some?
            && (First(Diagnose(rules, lines, extras), k) == own
                <==> First(Flat(rules, lines[..n], extras), k) in {None, own})
  {
    hide Flat, Diagnose, Dedup;
    var tail := [lines[n]] + lines[n + 1..];
    FirstIff(rules(lines[n]).value, k);
    DiagnoseFacts(rules, lines, extras);
    assert lines == lines[..n] + tail;
    FlatConcat(rules, lines[..n], tail, extras);
    FlatHead(rules, tail, extras);
    FirstConcat(Flat(rules, lines[..n], extras), Flat(rules, tail, extras), k);
    FirstConcat(rules(lines[n]).value, Flat(rules, tail[1..], extras), k);
  }

  lemma FlatHead(rules: Rules, lines: seq<string>, extras: seq<Signature>)
    requires lines != [] && lines[0] != "" && rules(lines[0]).Some?
    ensures Flat(rules, lines, extras) == rules(lines[0]).value + Flat(rules, lines[1..], extras)
  {
  }

  /** An extra can take over a built-in diagnosis: on an earlier line of its own it reports the same kind and
      name with another message. */
  lemma ExtraShadows(rules: Rules, reworded: string, known: string, sig: Signature, own: Issue)
    requires reworded != "" && known != "" && rules(reworded) == None && rules(known) == Some([own])
    requires Fires(reworded, sig) && Reported(reworded, sig).key == own.key && Reported(reworded, sig) != own
    ensures First(Diagnose(rules, [reworded, known], [sig]), own.key) == Some(Reported(reworded, sig))
    ensures First(Diagnose(rules, [reworded, known], []), own.key)
         == First(CatchAll(reworded) + [own], own.key)
  {
    var lines := [reworded, known];
    DiagnoseFacts(rules, lines, [sig]);
    DiagnoseFacts(rules, lines, []);
    assert [sig][1..] == [] && lines[1..] == [known] && [known][1..] == [];
    assert Flat(rules, [known], []) == [own] && Flat(rules, [known], [sig]) == [own];
  }

  // ----- the fold as the launcher runs it -----

  /** The issues so far and the keys they hold. */
  class Diagnosis {
    var seen: set<Key>
    var issues: seq<Issue>

    constructor ()
      ensures seen == {} && issues == []
    {
      seen, issues := {}, [];
    }

    /** `add` */
    method Add(i: Issue)
      modifies this
      ensures seen == old(seen) + {i.key} && issues == old(issues) + Dedup(old(seen), [i])
    {
      assert [i][1..] == [];
      if i.key !in seen {
        seen := seen + {i.key};
        issues := issues + [i];
      }
    }

    /** `classify_specific`: whether a built-in rule knows the line. */
    method ClassifySpecific(rules: Rules, text: string) returns (recognised: bool)
      modifies this
      ensures recognised == rules(text).Some?
      ensures var as_ := if rules(text).Some? then rules(text).value else [];
              seen == old(seen) + Keys(as_) && issues == old(issues) + Dedup(old(seen), as_)
    {
      var r := rules(text);
      if r.None? { return false; }
      var n := 0;
      while n < |r.value|
        invariant 0 <= n <= |r.value|
        invariant seen == old(seen) + Keys(r.value[..n]) && issues == old(issues) + Dedup(old(seen), r.value[..n])
      {
        assert r.value[..n + 1] == r.value[..n] + [r.value[n]];
        OneMore(old(seen), old(issues), r.value[..n], r.value[n]);
        Add(r.value[n]);
        n := n + 1;
      }
      assert r.value[..n] == r.value;
      recognised := true;
    }

    /** `classify_with_extras`: whether any signature fires on the line. */
    method ClassifyWithExtras(text: string, extras: seq<Signature>) returns (matched: bool)
      modifies this
      ensures matched == (ExtraAttempts(text, extras) != [])
      ensures var as_ := ExtraAttempts(text, extras);
              seen == old(seen) + Keys(as_) && issues == old(issues) + Dedup(old(seen), as_)
    {
      matched := false;
      var n := 0;
      NothingAdded(seen);
      assert ExtraAttempts(text, extras[..0]) == [];
      hide Keys, Dedup, ExtraAttempts, Greedy, Captured, Filled;
      while n < |extras|
        invariant 0 <= n <= |extras|
        invariant matched == (ExtraAttempts(text, extras[..n]) != [])
        invariant var as_ := ExtraAttempts(text, extras[..n]);
                  seen == old(seen) + Keys(as_) && issues == old(issues) + Dedup(old(seen), as_)
      {
        var sig := extras[n];
        ExtraStep(text, extras[..n], sig);
        assert extras[..n + 1] == extras[..n] + [sig];
        var end := MatchNeedles(text, sig.contains);
        if sig.contains != [] && end.Some? {
          matched := true;
          var plugin := Captured(sig.capture, text[end.value..]);
          ghost var as_ := ExtraAttempts(text, extras[..n]);
          var issue := Issue(Key(sig.kind, plugin), Filled(sig.message, plugin), sig.fix);
          OneMore(old(seen), old(issues), as_, issue);
          assert issue == Reported(text, sig);
          Add(issue);
        }
        n := n + 1;
      }
      assert extras[..n] == extras;
    }

    /** `classify_catch_all` */
    method ClassifyCatchAll(text: string)
      modifies this
      ensures seen == old(seen) + Keys(CatchAll(text)) && issues == old(issues) + Dedup(old(seen), CatchAll(text))
    {
      if IsErrorLine(text) { Add(Issue(CLI_KEY, Excerpt(text), Restart)); }
    }

    /** One line: the built-in table first, then the extras, then the catch-all. */
    method Classify(rules: Rules, text: string, extras: seq<Signature>)
      requires text != ""
      modifies this
      ensures var as_ := Attempts(rules, text, extras);
              seen == old(seen) + Keys(as_) && issues == old(issues) + Dedup(old(seen), as_)
    {
      hide Dedup, Keys, ExtraAttempts, CatchAll, IsErrorLine;
      NothingAdded(seen);
      var recognised := ClassifySpecific(rules, text);
      if !recognised {
        var matched := ClassifyWithExtras(text, extras);
        if !matched { ClassifyCatchAll(text); }
      }
    }

    /** `diagnose_crash_with` */
    method Run(rules: Rules, lines: seq<string>, extras: seq<Signature>)
      requires seen == {} && issues == []
      modifies this
      ensures issues == Diagnose(rules, lines, extras)
    {
      var n := 0;
      while n < |lines|
        invariant 0 <= n <= |lines|
        invariant seen == Keys(Flat(rules, lines[..n], extras)) && issues == Diagnose(rules, lines[..n], extras)
      {
        hide Dedup, Keys, Flat, Diagnose, Attempts;
        var text := lines[n];
        RunStep(rules, lines, n, extras);
        if text != "" { Classify(rules, text, extras); }
        n := n + 1;
      }
      assert lines[..n] == lines;
    }
  }

  lemma OneMore(seen: set<Key>, issues: seq<Issue>, done: seq<Issue>, i: Issue)
    ensures seen + Keys(done + [i]) == seen + Keys(done) + {i.key}
    ensures issues + Dedup(seen, done + [i]) == issues + Dedup(seen, done) + Dedup(seen + Keys(done), [i])
  {
    hide Keys, Dedup;
    DedupConcat(seen, done, [i]);
    KeysConcat(done, [i]);
    KeysOne(i);
    ConcatAssoc(issues, Dedup(seen, done), Dedup(seen + Keys(done), [i]));
  }

  lemma NothingAdded(seen: set<Key>)
    ensures seen + Keys([]) == seen && Dedup(seen, []) == []
  {
  }

  lemma {:induction false} ExtraStep(text: string, extras: seq<Signature>, sig: Signature)
    ensures ExtraAttempts(text, extras + [sig])
         == if Fires(text, sig) then ExtraAttempts(text, extras) + [Reported(text, sig)]
            else ExtraAttempts(text, extras)
  {
    hide Fires, Reported;
    if extras == [] {
      assert extras + [sig] == [sig] && [sig][1..] == [];
    } else {
      assert (extras + [sig])[1..] == extras[1..] + [sig];
      ExtraStep(text, extras[1..], sig);
      if Fires(text, sig) {
        ConcatAssoc(if Fires(text, extras[0]) then [Reported(text, extras[0])] else [],
                    ExtraAttempts(text, extras[1..]), [Reported(text, sig)]);
      }
    }
  }

  lemma RunStep(rules: Rules, lines: seq<string>, n: nat, extras: seq<Signature>)
    requires n < |lines|
    ensures var flat, as_ := Flat(rules, lines[..n], extras), Attempts(rules, lines[n], extras);
            && Keys(Flat(rules, lines[..n + 1], extras)) == Keys(flat) + Keys(as_)
            && Diagnose(rules, lines[..n + 1], extras) == Diagnose(rules, lines[..n], extras) + Dedup(Keys(flat), as_)
  {
    var flat, as_ := Flat(rules, lines[..n], extras), Attempts(rules, lines[n], extras);
    assert lines[..n + 1] == lines[..n] + [lines[n]];
    FlatConcat(rules, lines[..n], [lines[n]], extras);
    assert Flat(rules, [lines[n]], extras) == as_ by {
      assert [lines[n]][1..] == [];
      assert Flat(rules, [], extras) == [];
    }
    KeysConcat(flat, as_);
    DedupConcat({}, flat, as_);
    assert {} + Keys(flat) == Keys(flat);
  }

  /** The search for a signature's needles; where the last one ends. */
  method MatchNeedles(text: string, needles: seq<string>) returns (end: Option<nat>)
    ensures end == Greedy(text, needles, 0)
  {
    var from: nat := 0;
    var n := 0;
    while n < |needles|
      invariant 0 <= n <= |needles| && from <= |text|
      invariant Greedy(text, needles, 0) == Greedy(text, needles[n..], from)
    {
      assert needles[n..][1..] == needles[n + 1..];
      var at := Find(text, needles[n], from);
      if at.None? { return None; }
      from := at.value + |needles[n]|;
      n := n + 1;
    }
    assert needles[n..] == [];
    end := Some(from);
  }
}
