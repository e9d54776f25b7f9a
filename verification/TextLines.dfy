/** Text as the launcher's editors see it: characters, trimming, and the
    split/join of a file on line feeds. */
module TextLines {

  /** The Unicode `White_Space` characters, which is what Rust's `trim` strips. */
  predicate IsSpace(c: char) {
    || '\t' <= c <= '\r' || c == ' ' || c == '\U{0085}' || c == '\U{00A0}' || c == '\U{1680}'
    || '\U{2000}' <= c <= '\U{200A}' || c == '\U{2028}' || c == '\U{2029}' || c == '\U{202F}'
    || c == '\U{205F}' || c == '\U{3000}'
  }

  predicate IsAlnum(c: char) {
    'a' <= c <= 'z' || 'A' <= c <= 'Z' || '0' <= c <= '9'
  }

  predicate IsQuote(c: char) {
    c == '"' || c == '\''
  }

  predicate AllSpace(s: string) {
    forall c :: c in s ==> IsSpace(c)
  }

  function TrimStart(s: string): string {
    if s != [] && IsSpace(s[0]) then TrimStart(s[1..]) else s
  }

  function TrimEnd(s: string): string {
    if s != [] && IsSpace(s[|s| - 1]) then TrimEnd(s[..|s| - 1]) else s
  }

  function Trim(s: string): string {
    TrimEnd(TrimStart(s))
  }

  /** `trim_end_matches('\r')` */
  function TrimCr(s: string): string {
    if s != [] && s[|s| - 1] == '\r' then TrimCr(s[..|s| - 1]) else s
  }

  /** `trim_start_matches(['"', '\''])` */
  function TrimQuotes(s: string): string {
    if s != [] && IsQuote(s[0]) then TrimQuotes(s[1..]) else s
  }

  /** `trim_end_matches(['"', '\''])` */
  function TrimEndQuotes(s: string): string {
    if s != [] && IsQuote(s[|s| - 1]) then TrimEndQuotes(s[..|s| - 1]) else s
  }

  /** `trim_start_matches(c)` */
  function TrimStartChar(s: string, c: char): string {
    if s != [] && s[0] == c then TrimStartChar(s[1..], c) else s
  }

  /** `split('#').next()`: what stands before the first hash. */
  function BeforeHash(s: string): string {
    if s == [] || s[0] == '#' then [] else [s[0]] + BeforeHash(s[1..])
  }

  predicate NoNewline(s: string) {
    '\n' !in s
  }

  predicate NewlineFree(ls: seq<string>) {
    forall i :: 0 <= i < |ls| ==> NoNewline(ls[i])
  }

  /** `text.split('\n')` */
  function Split(t: string): (ls: seq<string>)
    ensures |ls| >= 1
    ensures NewlineFree(ls)
  {
    if t == [] then [""]
    else if t[0] == '\n' then [""] + Split(t[1..])
    else
      var r := Split(t[1..]);
      [[t[0]] + r[0]] + r[1..]
  }

  /** `lines.join("\n")` */
  function Join(ls: seq<string>): string {
    if ls == [] then ""
    else if |ls| == 1 then ls[0]
    else ls[0] + "\n" + Join(ls[1..])
  }

  lemma {:induction false} JoinCons(c: char, r: seq<string>)
    requires r != []
    ensures Join([[c] + r[0]] + r[1..]) == [c] + Join(r)
  {
    var ls := [[c] + r[0]] + r[1..];
    assert ls[0] == [c] + r[0] && ls[1..] == r[1..];
    if |r| > 1 {
      assert ([c] + r[0]) + "\n" + Join(r[1..]) == [c] + (r[0] + "\n" + Join(r[1..]));
    }
  }

  lemma {:induction false} JoinSplit(t: string)
    ensures Join(Split(t)) == t
  {
    if t == [] {
    } else if t[0] == '\n' {
      JoinSplit(t[1..]);
    } else {
      JoinSplit(t[1..]);
      JoinCons(t[0], Split(t[1..]));
      assert t == [t[0]] + t[1..];
    }
  }

  lemma {:induction false} SplitOfLine(s: string)
    requires NoNewline(s)
    ensures Split(s) == [s]
  {
    if s != [] {
      assert NoNewline(s[1..]);
      SplitOfLine(s[1..]);
      assert [s[0]] + s[1..] == s;
    }
  }

  lemma {:induction false} SplitLineThen(s: string, t: string)
    requires NoNewline(s)
    ensures Split(s + "\n" + t) == [s] + Split(t)
  {
    if s == [] {
      assert (s + "\n" + t)[1..] == t;
    } else {
      assert NoNewline(s[1..]);
      SplitLineThen(s[1..], t);
      assert (s + "\n" + t)[1..] == s[1..] + "\n" + t;
      assert [s[0]] + s[1..] == s;
    }
  }

  lemma {:induction false} SplitJoin(ls: seq<string>)
    requires ls != [] && NewlineFree(ls)
    ensures Split(Join(ls)) == ls
  {
    if |ls| == 1 {
      assert NoNewline(ls[0]);
      SplitOfLine(ls[0]);
    } else {
      SplitJoin(ls[1..]);
      assert NoNewline(ls[0]);
      SplitLineThen(ls[0], Join(ls[1..]));
    }
  }

  lemma {:induction false} JoinConcat(a: seq<string>, b: seq<string>)
    requires a != [] && b != []
    ensures Join(a + b) == Join(a) + "\n" + Join(b)
  {
    if |a| == 1 {
      assert (a + b)[1..] == b;
    } else {
      assert (a + b)[1..] == a[1..] + b;
      JoinConcat(a[1..], b);
    }
  }

  lemma {:induction false} SplitConcat(a: string, b: string)
    ensures Split(a + "\n" + b) == Split(a) + Split(b)
  {
    var x, y := Split(a), Split(b);
    JoinSplit(a);
    JoinSplit(b);
    JoinConcat(x, y);
    SplitJoin(x + y);
  }

  /** A text ends with a line feed exactly when its last split piece is empty and not its only one. */
  lemma {:induction false} EndsWithNewline(t: string)
    ensures (t != [] && t[|t| - 1] == '\n') <==> (|Split(t)| >= 2 && Split(t)[|Split(t)| - 1] == "")
  {
    if t != [] {
      EndsWithNewline(t[1..]);
      if |t| == 1 {
        assert Split(t[1..]) == [""];
      } else {
        assert t[|t| - 1] == t[1..][|t| - 2];
      }
    }
  }

  lemma ConcatAssoc<T>(a: seq<T>, b: seq<T>, c: seq<T>)
    ensures (a + b) + c == a + (b + c)
  {
  }

  // ----- trimming -----

  lemma {:induction false} TrimStartSuffix(s: string)
    ensures var k := |s| - |TrimStart(s)|;
            0 <= k <= |s| && TrimStart(s) == s[k..] && forall i :: 0 <= i < k ==> IsSpace(s[i])
    ensures TrimStart(s) != [] ==> !IsSpace(TrimStart(s)[0])
  {
    hide IsSpace;
    if s != [] && IsSpace(s[0]) {
      TrimStartSuffix(s[1..]);
      assert forall i :: 0 < i < |s| ==> s[i] == s[1..][i - 1];
    }
  }

  lemma {:induction false} TrimStartSplit(s: string)
    ensures exists k :: 0 <= k <= |s| && TrimStart(s) == s[k..] && AllSpace(s[..k])
    ensures TrimStart(s) != [] ==> !IsSpace(TrimStart(s)[0])
  {
    hide IsSpace;
    TrimStartSuffix(s);
    assert AllSpace(s[..|s| - |TrimStart(s)|]);
  }

  lemma {:induction false} TrimEndSplit(s: string)
    ensures exists k :: 0 <= k <= |s| && TrimEnd(s) == s[..k] && AllSpace(s[k..])
    ensures TrimEnd(s) != [] ==> !IsSpace(TrimEnd(s)[|TrimEnd(s)| - 1])
  {
    hide IsSpace;
    TrimEndPrefix(s);
    assert AllSpace(s[|TrimEnd(s)|..]);
  }

  lemma {:induction false} TrimEndPrefix(s: string)
    ensures var k := |TrimEnd(s)|;
            k <= |s| && TrimEnd(s) == s[..k] && forall i :: k <= i < |s| ==> IsSpace(s[i])
    ensures TrimEnd(s) != [] ==> !IsSpace(TrimEnd(s)[|TrimEnd(s)| - 1])
  {
    hide IsSpace;
    if s != [] && IsSpace(s[|s| - 1]) {
      TrimEndPrefix(s[..|s| - 1]);
      assert forall i :: 0 <= i < |s| - 1 ==> s[i] == s[..|s| - 1][i];
    }
  }

  lemma {:induction false} TrimStartOfSpaces(a: string, s: string)
    requires AllSpace(a)
    ensures TrimStart(a + s) == TrimStart(s)
  {
    if a == [] {
      assert a + s == s;
    } else {
      assert a[0] in a;
      assert (a + s)[1..] == a[1..] + s;
      TrimStartOfSpaces(a[1..], s);
    }
  }

  lemma {:induction false} TrimEndOfSpaces(s: string, b: string)
    requires AllSpace(b)
    ensures TrimEnd(s + b) == TrimEnd(s)
  {
    if b == [] {
      assert s + b == s;
    } else {
      var b' := b[..|b| - 1];
      assert b[|b| - 1] in b;
      assert (s + b)[..|s + b| - 1] == s + b';
      TrimEndOfSpaces(s, b');
    }
  }

  /** Trimming is emptying exactly on whitespace. */
  lemma {:induction false} TrimEmpty(s: string)
    ensures Trim(s) == [] <==> AllSpace(s)
    ensures TrimStart(s) == [] <==> AllSpace(s)
  {
    hide IsSpace, TrimStart, TrimEnd;
    TrimStartSplit(s);
    var k :| 0 <= k <= |s| && TrimStart(s) == s[k..] && AllSpace(s[..k]);
    var u := s[k..];
    TrimEndSplit(u);
    var m :| 0 <= m <= |u| && TrimEnd(u) == u[..m] && AllSpace(u[m..]);
    assert s == s[..k] + u;
    if u != [] {
      assert u[0] in s && !IsSpace(u[0]);
      assert u[0..] == u;
    }
  }

  lemma {:induction false} TrimAround(a: string, s: string, b: string)
    requires AllSpace(a) && AllSpace(b)
    ensures Trim(a + s + b) == Trim(s)
  {
    assert a + s + b == a + (s + b);
    TrimStartOfSpaces(a, s + b);
    if AllSpace(s) {
      TrimEmpty(s);
      TrimEmpty(s + b);
    } else {
      TrimStartAppend(s, b);
      TrimEndOfSpaces(TrimStart(s), b);
    }
  }

  lemma {:induction false} TrimStartAppend(s: string, b: string)
    requires !AllSpace(s)
    ensures TrimStart(s + b) == TrimStart(s) + b
  {
    if IsSpace(s[0]) {
      assert s == [s[0]] + s[1..];
      assert (s + b)[1..] == s[1..] + b;
      TrimStartAppend(s[1..], b);
    }
  }

  lemma {:induction false} TrimEndPrepend(a: string, s: string)
    requires !AllSpace(s)
    ensures TrimEnd(a + s) == a + TrimEnd(s)
  {
    var n := |s| - 1;
    if IsSpace(s[n]) {
      assert s == s[..n] + [s[n]];
      assert (a + s)[..|a + s| - 1] == a + s[..n];
      TrimEndPrepend(a, s[..n]);
    }
  }

  /** A line feed between two non-blank stretches survives the trim. */
  lemma {:induction false} TrimKeepsInnerNewline(x: string, y: string)
    requires !AllSpace(x) && !AllSpace(y)
    ensures '\n' in Trim(x + "\n" + y)
  {
    assert x + "\n" + y == x + ("\n" + y);
    TrimStartAppend(x, "\n" + y);
    assert TrimStart(x) + ("\n" + y) == (TrimStart(x) + "\n") + y;
    TrimEndPrepend(TrimStart(x) + "\n", y);
    assert (TrimStart(x) + "\n" + TrimEnd(y))[|TrimStart(x)|] == '\n';
  }

  lemma {:induction false} TrimCrPrefix(s: string)
    ensures var k := |TrimCr(s)|;
            k <= |s| && TrimCr(s) == s[..k] && forall i :: k <= i < |s| ==> s[i] == '\r'
  {
    if s != [] && s[|s| - 1] == '\r' {
      TrimCrPrefix(s[..|s| - 1]);
      assert forall i :: 0 <= i < |s| - 1 ==> s[i] == s[..|s| - 1][i];
    }
  }

  lemma {:induction false} TrimCrSplit(s: string)
    ensures exists k :: 0 <= k <= |s| && TrimCr(s) == s[..k] && AllSpace(s[k..])
  {
    TrimCrPrefix(s);
    assert AllSpace(s[|TrimCr(s)|..]);
  }

  lemma {:induction false} TrimOfTrimCr(s: string)
    ensures Trim(TrimCr(s)) == Trim(s)
    ensures TrimStart(TrimCr(s)) == [] <==> TrimStart(s) == []
    ensures TrimStart(s) != [] ==> TrimStart(TrimCr(s))[0] == TrimStart(s)[0]
  {
    TrimCrSplit(s);
    var k :| 0 <= k <= |s| && TrimCr(s) == s[..k] && AllSpace(s[k..]);
    assert s == [] + s[..k] + s[k..];
    TrimAround([], s[..k], s[k..]);
    TrimEmpty(s);
    TrimEmpty(s[..k]);
    if !AllSpace(s) {
      assert s == s[..k] + s[k..];
      TrimStartAppend(s[..k], s[k..]);
    }
  }

  lemma {:induction false} BeforeHashPrefix(s: string)
    ensures |BeforeHash(s)| <= |s| && BeforeHash(s) == s[..|BeforeHash(s)|]
    ensures '#' !in BeforeHash(s)
    ensures |BeforeHash(s)| < |s| ==> s[|BeforeHash(s)|] == '#'
    ensures '#' !in s ==> BeforeHash(s) == s
  {
    if s != [] && s[0] != '#' {
      BeforeHashPrefix(s[1..]);
      assert s == [s[0]] + s[1..];
    }
  }
}
