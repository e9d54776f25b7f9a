/** The one line the launcher edits in `pnpm-workspace.yaml`: a package's entry
    under the top-level `allowBuilds:` mapping. */
module Pnpm {
  import opened Basics
  import opened TextLines
  import opened PatchLines
  import opened PatchBlocks

  const LF := "\n"
  const CRLF := "\r\n"
  const ANCHOR := "allowBuilds:"

  // ----- the lines as the editor reads them -----

  function Bared(ls: seq<string>): (r: seq<string>)
    ensures |r| == |ls| && forall i :: 0 <= i < |ls| ==> r[i] == TrimCr(ls[i])
  {
    if ls == [] then [] else [TrimCr(ls[0])] + Bared(ls[1..])
  }

  /** The lines of a file without their `\r`. */
  function Bare(text: string): (r: seq<string>)
    ensures |r| == |Split(text)|
  {
    Bared(Split(text))
  }

  function HasCrlf(text: string): bool {
    exists i :: 0 <= i < |text| - 1 && text[i] == '\r' && text[i + 1] == '\n'
  }

  function Eol(text: string): string { if HasCrlf(text) then CRLF else LF }

  /** `lines.join(eol)` */
  function JoinWith(ls: seq<string>, eol: string): string {
    if ls == [] then "" else if |ls| == 1 then ls[0] else ls[0] + eol + JoinWith(ls[1..], eol)
  }

  /** The first top-level `allowBuilds:` line, or the number of lines. */
  function Anchor(bare: seq<string>): (a: nat)
    ensures a <= |bare| && (a < |bare| ==> bare[a] == ANCHOR)
    ensures forall i :: 0 <= i < a ==> bare[i] != ANCHOR
  {
    if bare == [] || bare[0] == ANCHOR then 0
    else
      var a := 1 + Anchor(bare[1..]);
      assert forall i :: 1 <= i < a ==> bare[i] == bare[1..][i - 1];
      a
  }

  predicate ValuedAnchor(l: string) { ANCHOR <= l && l != ANCHOR }

  predicate Refuses(bare: seq<string>) {
    exists i :: 0 <= i < |bare| && ValuedAnchor(bare[i])
  }

  predicate Indents(l: string) { l != [] && (l[0] == ' ' || l[0] == '\t') }

  /** How many lines the block takes: up to the last indented content line before the next top-level content. */
  function BlockLen(ls: seq<string>): (n: nat)
    ensures n <= |ls|
  {
    if ls == [] then 0
    else if !IsContent(ls[0]) then (var n := BlockLen(ls[1..]); if n == 0 then 0 else 1 + n)
    else if !Indents(ls[0]) then 0
    else 1 + BlockLen(ls[1..])
  }

  function Block(bare: seq<string>): (b: seq<string>)
    ensures Anchor(bare) < |bare| ==> Anchor(bare) + 1 + |b| <= |bare|
  {
    var a := Anchor(bare);
    if a == |bare| then [] else bare[a + 1..][..BlockLen(bare[a + 1..])]
  }

  function Colon(s: string): Option<nat> {
    if s == [] then None
    else if s[0] == ':' then Some(0)
    else match Colon(s[1..]) case None => None case Some(i) => Some(i + 1)
  }

  function Quote(s: string): Option<nat> {
    if s == [] then None
    else if s[0] == '"' then Some(0)
    else match Quote(s[1..]) case None => None case Some(i) => Some(i + 1)
  }

  /** `trim_matches('"')` */
  function Unquoted(s: string): string {
    if s != [] && s[0] == '"' then Unquoted(s[1..])
    else if s != [] && s[|s| - 1] == '"' then Unquoted(s[..|s| - 1])
    else s
  }

  /** The index the source takes for the colon: of a key quoted at column 0, the closing quote. */
  function KeyEnd(l: string): (r: Option<nat>)
    ensures r.Some? ==> r.value < |l|
  {
    ColonBound(l);
    if l != [] && l[0] == '"' then
      (match Quote(l[1..])
       case None => None
       case Some(q) => if q + 2 < |l| && l[q + 2] == ':' then Some(q + 1) else None)
    else Colon(l)
  }

  lemma {:induction false} ColonBound(s: string)
    ensures Colon(s).Some? ==> Colon(s).value < |s|
  {
    if s != [] && s[0] != ':' { ColonBound(s[1..]); }
  }

  /** `entry`: the key and the value text of a mapping line. */
  function Entry(l: string): Option<(string, string)> {
    match KeyEnd(l)
    case None => None
    case Some(c) =>
      var key := Unquoted(Trim(l[..c]));
      if key == [] then None else Some((key, Trim(l[c + 1..])))
  }

  predicate IsEntryOf(l: string, key: string) { Entry(l).Some? && Entry(l).value.0 == key }

  /** An inline comment is no part of the value. */
  function ValueOf(l: string): string
    requires Entry(l).Some?
  {
    Trim(BeforeHash(Entry(l).value.1))
  }

  /** The first line of the block that states the key, or the length of the block. */
  function FindKey(block: seq<string>, key: string): (i: nat)
    ensures i <= |block| && (i < |block| ==> IsEntryOf(block[i], key))
    ensures forall j :: 0 <= j < i ==> !IsEntryOf(block[j], key)
  {
    if block == [] || IsEntryOf(block[0], key) then 0
    else
      var i := 1 + FindKey(block[1..], key);
      assert forall j :: 1 <= j < i ==> block[j] == block[1..][j - 1];
      i
  }

  /** What the block says about a package. */
  function ValueIn(block: seq<string>, key: string): Option<string> {
    var i := FindKey(block, key);
    if i < |block| then Some(ValueOf(block[i])) else None
  }

  function Lookup(text: string, key: string): Option<string> { ValueIn(Block(Bare(text)), key) }

  // ----- the edit -----

  /** `validate_package_name` */
  predicate ValidPackage(p: string) {
    && 0 < |p| <= 214
    && forall c :: c in p ==> IsAlnum(c) || c == '.' || c == '_' || c == '-' || c == '@' || c == '/'
  }

  /** `yaml_key` */
  function YamlKey(p: string): string
    requires p != []
  {
    if (IsAlnum(p[0]) || p[0] == '.' || p[0] == '_')
       && forall c :: c in p ==> IsAlnum(c) || c == '.' || c == '_' || c == '-'
    then p
    else "\"" + p + "\""
  }

  function TrueLine(p: string): string
    requires p != []
  {
    YamlKey(p) + ": true"
  }

  function IndentOf(l: string): string
  {
    TrimStartLen(l);
    l[..|l| - |TrimStart(l)|]
  }

  lemma {:induction false} TrimStartLen(l: string)
    ensures |TrimStart(l)| <= |l|
  {
    if l != [] && IsSpace(l[0]) { TrimStartLen(l[1..]); }
  }

  function LeadingSpaces(l: string): nat {
    if l != [] && l[0] == ' ' then 1 + LeadingSpaces(l[1..]) else 0
  }

  /** The narrowest indentation of the file's non-blank lines; 0 when none is indented. */
  function Narrowest(ls: seq<string>): nat {
    if ls == [] then 0
    else
      var w, rest := if Trim(ls[0]) == "" then 0 else LeadingSpaces(ls[0]), Narrowest(ls[1..]);
      if w == 0 then rest else if rest == 0 || w <= rest then w else rest
  }

  function Spaces(n: nat): string { if n == 0 then "" else " " + Spaces(n - 1) }

  /** `detect_indent` */
  function DetectIndent(bare: seq<string>): string {
    Spaces(if Narrowest(bare) == 0 then 2 else Narrowest(bare))
  }

  function FirstContent(block: seq<string>): Option<string> {
    if block == [] then None else if IsContent(block[0]) then Some(block[0]) else FirstContent(block[1..])
  }

  /** The indentation a new entry gets. */
  function EntryIndent(bare: seq<string>): string {
    match FirstContent(Block(bare))
    case Some(l) => IndentOf(l)
    case None => DetectIndent(bare)
  }

  /** A line with text that is led by exactly `n` spaces, at least one. */
  predicate IndentedBy(l: string, n: nat) {
    && !AllSpace(l) && 0 < n <= |l| && (forall i :: 0 <= i < n ==> l[i] == ' ') && (n < |l| ==> l[n] != ' ')
  }

  lemma {:induction false} LeadingSpacesAre(l: string, n: nat)
    ensures !AllSpace(l) ==> (IndentedBy(l, n) <==> n == LeadingSpaces(l) && n > 0)
  {
    SpacesLead(l);
    var k := LeadingSpaces(l);
    if n < k { assert l[n] == ' '; }
  }

  lemma {:induction false} SpacesLead(l: string)
    ensures var k := LeadingSpaces(l);
            k <= |l| && (forall i :: 0 <= i < k ==> l[i] == ' ') && (k < |l| ==> l[k] != ' ')
  {
    if l != [] && l[0] == ' ' { SpacesLead(l[1..]); }
  }

  lemma {:induction false} BlankIff(l: string)
    ensures Trim(l) == "" <==> AllSpace(l)
  {
    hide IsSpace;
    TrimStartSplit(l);
    var t := TrimStart(l);
    TrimEndSplit(t);
    if t != [] {
      assert t[0] in l && !IsSpace(t[0]) && t[0..] == t && t[0] in t;
    }
  }

  lemma {:induction false} NarrowestIs(ls: seq<string>)
    ensures var n := Narrowest(ls); n > 0 ==> exists l :: l in ls && IndentedBy(l, n)
    ensures forall l, k :: l in ls && IndentedBy(l, k) ==> 0 < Narrowest(ls) <= k
  {
    hide IndentedBy, LeadingSpaces, Trim, AllSpace;
    if ls != [] {
      NarrowestIs(ls[1..]);
      var l := ls[0];
      BlankIff(l);
      LeadingSpacesAre(l, LeadingSpaces(l));
      forall x, k | x in ls && IndentedBy(x, k) ensures 0 < Narrowest(ls) <= k {
        if x == l { IndentedText(x, k); LeadingSpacesAre(x, k); } else { assert x in ls[1..]; }
      }
    }
  }

  lemma IndentedText(l: string, k: nat)
    requires IndentedBy(l, k)
    ensures !AllSpace(l)
  {
  }

  /** A new entry is indented like the first content line of the block; in a block without one, by the narrowest
      indentation in the file, or by two spaces when no line of text is indented. */
  lemma {:induction false} EntryIndentIs(bare: seq<string>, i: nat)
    ensures var block := Block(bare);
            i < |block| && IsContent(block[i]) && (forall j :: 0 <= j < i ==> !IsContent(block[j])) ==>
              EntryIndent(bare) == IndentOf(block[i])
    ensures (forall l :: l in Block(bare) ==> !IsContent(l)) ==>
              var ind := EntryIndent(bare);
              && (forall c :: c in ind ==> c == ' ')
              && (forall l, k :: l in bare && IndentedBy(l, k) ==> |ind| <= k)
              && ((exists l :: l in bare && IndentedBy(l, |ind|))
                  || (|ind| == 2 && forall l, k :: l in bare ==> !IndentedBy(l, k)))
  {
    hide IndentedBy, Block, IndentOf, IsContent, Narrowest;
    var block := Block(bare);
    FirstContentIs(block, i);
    NarrowestIs(bare);
    SpacesAre(if Narrowest(bare) == 0 then 2 else Narrowest(bare));
  }

  lemma {:induction false} FirstContentIs(block: seq<string>, i: nat)
    ensures i < |block| && IsContent(block[i]) && (forall j :: 0 <= j < i ==> !IsContent(block[j])) ==>
              FirstContent(block) == Some(block[i])
    ensures (forall l :: l in block ==> !IsContent(l)) ==> FirstContent(block).None?
  {
    hide IsContent;
    if block != [] {
      assert block[0] in block;
      if i > 0 {
        if i < |block| && (forall j :: 0 <= j < i ==> !IsContent(block[j])) {
          forall j | 0 <= j < i - 1 ensures !IsContent(block[1..][j]) { assert block[1..][j] == block[j + 1]; }
        }
        FirstContentIs(block[1..], i - 1);
      } else {
        FirstContentIs(block[1..], 0);
      }
    }
  }

  lemma {:induction false} SpacesAre(n: nat)
    ensures |Spaces(n)| == n && forall c :: c in Spaces(n) ==> c == ' '
  {
    if n > 0 { SpacesAre(n - 1); }
  }

  predicate EndsWith(s: string, e: string) { |e| <= |s| && s[|s| - |e|..] == e }

  /** `append_block` */
  function AppendBlockTo(text: string, line: string, eol: string): string {
    var a := if text == "" || EndsWith(text, eol) then text else text + eol;
    var b := if text == "" || EndsWith(a, eol + eol) then a else a + eol;
    b + (ANCHOR + eol + "  " + line + eol)
  }

  datatype Edit = Refused | Unchanged | Changed(text: string)

  /** `insert_allow_build` */
  function Approve(text: string, package: string): Edit
    requires package != []
  {
    var L, bare, eol := Split(text), Bare(text), Eol(text);
    var a, block := Anchor(bare), Block(bare);
    if Refuses(bare) then Refused
    else if a == |bare| then Changed(AppendBlockTo(text, TrueLine(package), eol))
    else
      var line := EntryIndent(bare) + TrueLine(package);
      var i := FindKey(block, package);
      if i == |block| then Changed(JoinWith(L[..a + 1 + i] + [line] + L[a + 1 + i..], eol))
      else if ValueOf(block[i]) == "true" then Unchanged
      else Changed(JoinWith(L[a + 1 + i := line], eol))
  }

  // ----- the new line -----

  lemma {:induction false} ColonAfter(a: string, b: string)
    requires ':' !in a
    ensures Colon(a + (":" + b)) == Some(|a|)
  {
    if a == [] {
      assert a + (":" + b) == ":" + b;
    } else {
      assert (a + (":" + b))[1..] == a[1..] + (":" + b);
      ColonAfter(a[1..], b);
    }
  }

  lemma {:induction false} UnquotedWord(p: string)
    requires p != [] && '"' !in p
    ensures Unquoted(p) == p && Unquoted("\"" + p + "\"") == p
  {
    var q := "\"" + p + "\"";
    assert q[1..] == p + "\"";
    assert (p + "\"")[..|p + "\""| - 1] == p;
    assert p[0] in p && p[|p| - 1] in p;
  }

  /** A name free of spaces, colons and double quotes. */
  predicate PlainName(p: string) {
    p != [] && forall c :: c in p ==> !IsSpace(c) && c != ':' && c != '"'
  }

  /** What is read of a line: the name, quoted or not, and the trimmed text behind the colon. */
  lemma {:induction false} EntryReads(ind: string, p: string, quoted: bool, v: string)
    requires PlainName(p) && AllSpace(ind) && (quoted ==> ind != [])
    ensures Entry(ind + (if quoted then "\"" + p + "\"" else p) + (":" + v)) == Some((p, Trim(v)))
  {
    hide Trim, IsSpace, Unquoted, AllSpace;
    var k := if quoted then "\"" + p + "\"" else p;
    var l := ind + k + (":" + v);
    KeySpelled(ind, p, k);
    ColonAfter(ind + k, v);
    assert l[..|ind + k|] == ind + k && l[|ind + k| + 1..] == v;
    assert l[0] == (ind + k)[0];
  }

  lemma {:induction false} KeySpelled(ind: string, p: string, k: string)
    requires PlainName(p) && AllSpace(ind) && (k == p || (k == "\"" + p + "\"" && ind != []))
    ensures ':' !in ind + k && ind + k != [] && (ind + k)[0] != '"' && Unquoted(Trim(ind + k)) == p
  {
    hide Unquoted, TrimStart, TrimEnd;
    assert p[0] in p && p[|p| - 1] in p;
    if ind != [] { assert ind[0] in ind; }
    assert forall c :: c in ind ==> IsSpace(c);
    UnquotedWord(p);
    TrimStartOfSpaces(ind, k);
    assert Tight(k);
    TrimTight(k);
    assert Trim(ind + k) == k;
  }

  /** Of a quoted name at column 0 the closing quote is taken for the colon, so that the value begins with the
      colon; such a line never stands in a block, whose lines are indented. */
  lemma {:induction false} QuotedAtColumnZero(p: string, rest: string)
    requires PlainName(p)
    ensures Entry("\"" + p + "\"" + rest) == if rest != [] && rest[0] == ':' then Some((p, Trim(rest))) else None
  {
    hide Trim, Unquoted, IsSpace;
    var open := "\"" + p;
    var l := open + "\"" + rest;
    QuoteAfter(p, rest);
    assert l[1..] == p + ("\"" + rest);
    assert l[..|open|] == open && l[|open| + 1..] == rest;
    assert rest != [] ==> l[|open| + 1] == rest[0];
    OpenQuote(p);
  }

  lemma {:induction false} QuoteAfter(a: string, b: string)
    requires '"' !in a
    ensures Quote(a + ("\"" + b)) == Some(|a|)
  {
    if a == [] {
      assert a + ("\"" + b) == "\"" + b;
    } else {
      assert (a + ("\"" + b))[1..] == a[1..] + ("\"" + b);
      QuoteAfter(a[1..], b);
    }
  }

  lemma {:induction false} OpenQuote(p: string)
    requires PlainName(p)
    ensures Unquoted(Trim("\"" + p)) == p
  {
    hide Trim;
    var k := "\"" + p;
    assert p[|p| - 1] in p && k[|k| - 1] == p[|p| - 1] && k[1..] == p;
    UnquotedWord(p);
    assert Tight(k);
    TrimTight(k);
  }

  lemma {:induction false} YamlKeyFacts(p: string)
    requires ValidPackage(p)
    ensures Tight(YamlKey(p)) && ':' !in YamlKey(p) && YamlKey(p)[0] != '#' && Unquoted(YamlKey(p)) == p
    ensures NoNewline(YamlKey(p))
  {
    assert p[0] in p && p[|p| - 1] in p;
    UnquotedWord(p);
  }

  /** A package is written in double quotes exactly when it is scoped, holds a slash, or starts with a dash; plain,
      it would not be a YAML key, or not that one. */
  lemma {:induction false} KeyQuotedIff(p: string)
    requires ValidPackage(p)
    ensures if p[0] == '-' || '@' in p || '/' in p then YamlKey(p) == "\"" + p + "\"" else YamlKey(p) == p
  {
    assert p[0] in p;
    if '@' in p || '/' in p {
      assert !(IsAlnum('@') || '@' == '.' || '@' == '_' || '@' == '-');
      assert !(IsAlnum('/') || '/' == '.' || '/' == '_' || '/' == '-');
    }
  }

  /** What the first approval of all writes. */
  lemma {:induction false} FirstApproval(p: string)
    requires ValidPackage(p)
    ensures Approve("", p) == Changed("allowBuilds:\n  " + YamlKey(p) + ": true\n")
  {
    hide YamlKey;
    assert Split("") == [""] && [""][1..] == [];
    assert Bare("") == [""];
    assert ANCHOR != "";
    assert Anchor([""]) == 1 && !Refuses([""]);
    var line := TrueLine(p);
    assert AppendBlockTo("", line, LF) == "" + (ANCHOR + LF + "  " + line + LF);
    assert "" + (ANCHOR + LF + "  " + line + LF) == "allowBuilds:\n  " + YamlKey(p) + ": true\n";
  }

  const TRUE_TAIL := ": true"

  lemma {:induction false} TrueTail()
    ensures TRUE_TAIL == ":" + " true" && Trim(" true") == "true"
    ensures BeforeHash("true") == "true" && Trim("true") == "true"
  {
    assert " true"[1..] == "true";
    BeforeHashPrefix("true");
  }

  lemma {:induction false} NewLineShape(ind: string, p: string)
    requires ValidPackage(p) && AllSpace(ind) && Indents(ind)
    ensures var l := ind + TrueLine(p);
            && TrimStart(l) == TrueLine(p) && TrueLine(p) != [] && TrueLine(p)[0] == YamlKey(p)[0]
            && l[0] == ind[0] && l[|l| - 1] == 'e' && TrimCr(l) == l && IndentOf(l) == ind
  {
    var l, t := ind + TrueLine(p), TrueLine(p);
    YamlKeyFacts(p);
    assert t[0] == YamlKey(p)[0];
    TrimStartOfSpaces(ind, t);
    assert TrimStart(t) == t;
    assert l[..|l| - |t|] == ind;
  }

  lemma {:induction false} NewLineEntry(ind: string, p: string)
    requires ValidPackage(p) && AllSpace(ind) && Indents(ind)
    ensures Entry(ind + TrueLine(p)) == Some((p, "true"))
  {
    hide YamlKey, Unquoted, Trim, Colon;
    var k := YamlKey(p);
    var l := ind + TrueLine(p);
    YamlKeyFacts(p);
    TrueTail();
    assert TrueLine(p) == k + (":" + " true");
    assert l == (ind + k) + (":" + " true");
    assert forall c :: c in ind ==> IsSpace(c);
    assert ':' !in ind + k;
    ColonAfter(ind + k, " true");
    assert l[..|ind + k|] == ind + k && l[|ind + k| + 1..] == " true";
    assert l[0] == ind[0];
    KeyPart(ind, p);
  }

  lemma KeyPart(ind: string, p: string)
    requires ValidPackage(p) && AllSpace(ind)
    ensures Unquoted(Trim(ind + YamlKey(p))) == p
  {
    hide YamlKey, Unquoted;
    YamlKeyFacts(p);
    TrimStartOfSpaces(ind, YamlKey(p));
    TrimTight(YamlKey(p));
  }

  /** The written line is an indented entry that reads back as the package, approved. */
  lemma {:induction false} NewEntry(ind: string, p: string)
    requires ValidPackage(p) && AllSpace(ind) && Indents(ind)
    ensures var l := ind + TrueLine(p);
            && Entry(l) == Some((p, "true")) && ValueOf(l) == "true"
            && IsContent(l) && Indents(l) && !(ANCHOR <= l) && TrimCr(l) == l && IndentOf(l) == ind
  {
    hide TrimStart, TrimCr, TrueLine, Entry, IndentOf;
    NewLineEntry(ind, p);
    NewLineShape(ind, p);
    YamlKeyFacts(p);
    TrueTail();
    assert ANCHOR[0] == 'a';
  }

  // ----- the block under edits -----

  /** What a line without content starts with. */
  lemma {:induction false} NoteHead(l: string) returns (k: nat)
    requires !IsContent(l)
    ensures k <= |l| && AllSpace(l[..k]) && (forall j :: 0 <= j < k ==> IsSpace(l[j])) && (k < |l| ==> l[k] == '#')
  {
    hide IsSpace, TrimStart;
    TrimStartSuffix(l);
    k := |l| - |TrimStart(l)|;
  }

  /** A comment or blank line states no package. */
  lemma {:induction false} NoteIsNoEntry(l: string, p: string)
    requires ValidPackage(p) && !IsContent(l)
    ensures !IsEntryOf(l, p)
  {
    hide Unquoted, Trim, Colon, IsContent;
    var k := NoteHead(l);
    if KeyEnd(l).Some? {
      assert l[0] != '"';
      ColonAt(l);
      NoteKey(l, k, KeyEnd(l).value);
    }
    assert '#' !in p;
  }

  lemma {:induction false} NoteKey(l: string, k: nat, c: nat)
    requires k < c < |l| && l[k] == '#' && AllSpace(l[..k])
    ensures '#' in Unquoted(Trim(l[..c]))
  {
    var key, s := l[..c], l[k..c];
    assert key == l[..k] + s;
    TrimStartOfSpaces(l[..k], s);
    HashHead(s);
    assert Trim(key) == TrimEnd(s);
  }

  lemma {:induction false} ColonAt(s: string)
    ensures Colon(s).Some? ==> Colon(s).value < |s| && s[Colon(s).value] == ':'
  {
    if s != [] && s[0] != ':' { ColonAt(s[1..]); }
  }

  lemma {:induction false} HashHead(s: string)
    requires s != [] && s[0] == '#'
    ensures var t := Unquoted(TrimEnd(s)); t != [] && t[0] == '#'
  {
    TrimEndSplit(s);
    var k :| 0 <= k <= |s| && TrimEnd(s) == s[..k] && AllSpace(s[k..]);
    forall j | k <= j < |s| ensures IsSpace(s[j]) { assert s[j] in s[k..]; }
    UnquotedHash(TrimEnd(s));
  }

  lemma {:induction false} UnquotedHash(s: string)
    requires s != [] && s[0] == '#'
    ensures Unquoted(s) != [] && Unquoted(s)[0] == '#'
  {
    if s[|s| - 1] == '"' { UnquotedHash(s[..|s| - 1]); }
  }

  lemma {:induction false} BlockContent(R: seq<string>, i: nat)
    requires i < BlockLen(R) && IsContent(R[i])
    ensures Indents(R[i])
  {
    if i > 0 { BlockContent(R[1..], i - 1); }
  }

  lemma {:induction false} ReplaceInBlock(R: seq<string>, i: nat, l: string)
    requires i < BlockLen(R) && IsContent(R[i]) && IsContent(l) && Indents(l)
    ensures BlockLen(R[i := l]) == BlockLen(R)
  {
    BlockContent(R, i);
    if i == 0 {
      assert R[i := l][1..] == R[1..];
    } else {
      assert R[i := l][1..] == R[1..][i - 1 := l];
      ReplaceInBlock(R[1..], i - 1, l);
    }
  }

  lemma {:induction false} InsertInBlock(R: seq<string>, l: string)
    requires IsContent(l) && Indents(l)
    ensures var n := BlockLen(R); BlockLen(R[..n] + [l] + R[n..]) == n + 1
  {
    var n := BlockLen(R);
    var S := R[..n] + [l] + R[n..];
    if n == 0 {
      assert S == [l] + R && S[1..] == R;
    } else {
      InsertInBlock(R[1..], l);
      assert S[1..] == R[1..][..n - 1] + [l] + R[1..][n - 1..];
    }
  }

  lemma {:induction false} FirstContentFacts(block: seq<string>)
    ensures FirstContent(block).Some? ==> FirstContent(block).value in block && IsContent(FirstContent(block).value)
    ensures FirstContent(block).None? <==> forall i :: 0 <= i < |block| ==> !IsContent(block[i])
  {
    if block != [] {
      FirstContentFacts(block[1..]);
      assert forall i :: 0 < i < |block| ==> block[i] == block[1..][i - 1];
    }
  }

  lemma {:induction false} SpacesFacts(n: nat)
    ensures AllSpace(Spaces(n)) && NoNewline(Spaces(n)) && (n > 0 ==> Indents(Spaces(n)))
  {
    if n > 0 { SpacesFacts(n - 1); }
  }

  lemma {:induction false} IndentIsSpace(l: string)
    requires IsContent(l) && Indents(l)
    ensures AllSpace(IndentOf(l)) && Indents(IndentOf(l))
  {
    TrimStartSplit(l);
    var k :| 0 <= k <= |l| && TrimStart(l) == l[k..] && AllSpace(l[..k]);
    assert IndentOf(l) == l[..k];
    assert IsSpace(l[0]);
    assert TrimStart(l)[0] == l[k];
  }

  lemma {:induction false} EntryIndentFacts(bare: seq<string>)
    ensures AllSpace(EntryIndent(bare)) && Indents(EntryIndent(bare))
    ensures NewlineFree(bare) ==> NoNewline(EntryIndent(bare))
  {
    var a, block := Anchor(bare), Block(bare);
    FirstContentFacts(block);
    match FirstContent(block) {
      case Some(l) =>
        var i :| 0 <= i < |block| && block[i] == l;
        BlockContent(bare[a + 1..], i);
        IndentIsSpace(l);
      case None => SpacesFacts(if Narrowest(bare) == 0 then 2 else Narrowest(bare));
    }
  }

  lemma AnchorStays(bare: seq<string>, next: seq<string>)
    requires Anchor(bare) < |bare| && |next| > Anchor(bare)
    requires forall i :: 0 <= i <= Anchor(bare) ==> next[i] == bare[i]
    ensures Anchor(next) == Anchor(bare)
  {
    assert next[Anchor(bare)] == ANCHOR;
  }

  /** The block after the edit: the package's line replaced, or one line more at its end. */
  function EditedBlock(block: seq<string>, package: string, line: string): seq<string> {
    var i := FindKey(block, package);
    if i == |block| then block + [line] else block[i := line]
  }

  /** The lines after the edit. */
  function EditedLines(L: seq<string>, a: nat, block: seq<string>, package: string, line: string): seq<string>
    requires a + 1 + |block| <= |L|
  {
    var i := FindKey(block, package);
    if i == |block| then L[..a + 1 + i] + [line] + L[a + 1 + i..] else L[a + 1 + i := line]
  }

  lemma {:induction false} EditsBlock(bare: seq<string>, package: string, line: string)
    requires Anchor(bare) < |bare| && ValidPackage(package)
    requires IsContent(line) && Indents(line)
    ensures var next := EditedLines(bare, Anchor(bare), Block(bare), package, line);
            && Anchor(next) == Anchor(bare) && |bare| <= |next|
            && Block(next) == EditedBlock(Block(bare), package, line)
  {
    hide FindKey, BlockLen, IsContent, Indents, ValidPackage;
    var a, block := Anchor(bare), Block(bare);
    var R := bare[a + 1..];
    var i := FindKey(block, package);
    var next := EditedLines(bare, a, block, package, line);
    EditedTail(bare, a, block, package, line);
    AnchorStays(bare, next);
    if i == |block| {
      InsertInBlock(R, line);
      assert (R[..i] + [line] + R[i..])[..i + 1] == R[..i] + [line];
    } else {
      KeyIsContent(block, package);
      ReplaceInBlock(R, i, line);
      assert R[i := line][..|block|] == R[..|block|][i := line];
    }
  }

  lemma EditedTail(L: seq<string>, a: nat, block: seq<string>, package: string, line: string)
    requires a + 1 + |block| <= |L|
    ensures var R, next, i := L[a + 1..], EditedLines(L, a, block, package, line), FindKey(block, package);
            && next[..a + 1] == L[..a + 1]
            && next[a + 1..] == if i == |block| then R[..i] + [line] + R[i..] else R[i := line]
    ensures forall i :: 0 <= i <= a ==> EditedLines(L, a, block, package, line)[i] == L[i]
  {
    hide FindKey;
  }

  lemma {:induction false} BaredEdited(L: seq<string>, a: nat, block: seq<string>, package: string, line: string)
    requires a + 1 + |block| <= |L| && NewlineFree(L) && NoNewline(line) && TrimCr(line) == line
    ensures var M := EditedLines(L, a, block, package, line);
            && M != [] && NewlineFree(M)
            && Bared(M) == EditedLines(Bared(L), a, block, package, line)
  {
    hide FindKey, TrimCr;
    var M, N := EditedLines(L, a, block, package, line), EditedLines(Bared(L), a, block, package, line);
    var i := FindKey(block, package);
    forall k | 0 <= k < |M| ensures NoNewline(M[k]) && TrimCr(M[k]) == N[k] {
      assert M[k] == line || (k < |L| && M[k] == L[k]) || (k > 0 && M[k] == L[k - 1]);
    }
  }

  lemma KeyIsContent(block: seq<string>, package: string)
    requires ValidPackage(package) && FindKey(block, package) < |block|
    ensures IsContent(block[FindKey(block, package)])
  {
    var l := block[FindKey(block, package)];
    if !IsContent(l) { NoteIsNoEntry(l, package); }
  }

  /** The edited block states the package as the new line does, and every other key as before. */
  lemma {:induction false} EditedReads(block: seq<string>, package: string, line: string, q: string)
    requires Entry(line).Some? && Entry(line).value.0 == package
    ensures var next := EditedBlock(block, package, line);
            ValueIn(next, q) == if q == package then Some(ValueOf(line)) else ValueIn(block, q)
  {
    hide FindKey, Entry, ValueOf;
    var i, next := FindKey(block, package), EditedBlock(block, package, line);
    var j, k := FindKey(block, q), FindKey(next, q);
    if q == package {
      assert IsEntryOf(next[i], q);
    } else {
      assert !IsEntryOf(line, q);
      assert i < |block| ==> !IsEntryOf(block[i], q);
      assert forall m :: 0 <= m < |block| && m != i ==> next[m] == block[m];
      assert next[i] == line;
      assert j < |block| ==> j != i && IsEntryOf(next[j], q);
    }
  }

  // ----- the text after the edit -----

  lemma {:induction false} JoinWithLf(ls: seq<string>)
    ensures JoinWith(ls, LF) == Join(ls)
  {
    if |ls| > 1 { JoinWithLf(ls[1..]); }
  }

  /** What a join with CRLF makes of the lines: each but the last gets one more `\r`. */
  function Widened(ls: seq<string>): seq<string> {
    if |ls| <= 1 then ls else [ls[0] + "\r"] + Widened(ls[1..])
  }

  lemma {:induction false} JoinWithCrlf(ls: seq<string>)
    ensures JoinWith(ls, CRLF) == Join(Widened(ls))
  {
    if |ls| > 1 {
      JoinWithCrlf(ls[1..]);
      var rest := Widened(ls[1..]);
      assert Widened(ls)[1..] == rest;
      assert (ls[0] + "\r") + "\n" == ls[0] + CRLF;
    }
  }

  lemma {:induction false} WidenedSize(ls: seq<string>)
    ensures |Widened(ls)| == |ls| && (|ls| >= 2 ==> Widened(ls) != ls)
    ensures NewlineFree(ls) ==> NewlineFree(Widened(ls))
  {
    if |ls| > 1 {
      WidenedSize(ls[1..]);
      assert Widened(ls)[0] == ls[0] + "\r";
      assert NewlineFree(ls) ==> NewlineFree(ls[1..]) && NoNewline(ls[0]);
    }
  }

  lemma {:induction false} WidenedReads(ls: seq<string>)
    ensures Bared(Widened(ls)) == Bared(ls)
  {
    if |ls| > 1 {
      WidenedReads(ls[1..]);
      assert (ls[0] + "\r")[..|ls[0]|] == ls[0];
      assert Widened(ls)[1..] == Widened(ls[1..]);
    }
  }

  /** Written back, the lines read the same whatever the line ending; they are the same bytes only with LF. */
  lemma {:induction false} JoinedLines(M: seq<string>, eol: string)
    requires M != [] && NewlineFree(M) && (eol == LF || eol == CRLF)
    ensures Bare(JoinWith(M, eol)) == Bared(M)
    ensures Split(JoinWith(M, eol)) == if eol == LF then M else Widened(M)
  {
    WidenedSize(M);
    WidenedReads(M);
    if eol == LF {
      JoinWithLf(M);
      SplitJoin(M);
    } else {
      JoinWithCrlf(M);
      SplitJoin(Widened(M));
    }
  }

  lemma {:induction false} CrlfHasTwoLines(text: string)
    requires HasCrlf(text)
    ensures |Split(text)| >= 2
  {
    var i :| 0 <= i < |text| - 1 && text[i] == '\r' && text[i + 1] == '\n';
    assert text == text[..i + 1] + "\n" + text[i + 2..];
    SplitConcat(text[..i + 1], text[i + 2..]);
  }

  lemma {:induction false} BaredConcat(a: seq<string>, b: seq<string>)
    ensures Bared(a + b) == Bared(a) + Bared(b)
  {
    assert forall i :: 0 <= i < |a + b| ==> Bared(a + b)[i] == (Bared(a) + Bared(b))[i];
  }

  /** A line ending splits the reading, whichever of the two it is. */
  lemma {:induction false} BareEol(a: string, eol: string, b: string)
    requires eol == LF || eol == CRLF
    ensures Bare(a + eol + b) == Bare(a) + Bare(b)
  {
    if eol == LF {
      SplitConcat(a, b);
      BaredConcat(Split(a), Split(b));
    } else {
      assert a + eol + b == (a + "\r") + "\n" + b;
      SplitConcat(a + "\r", b);
      BaredConcat(Split(a + "\r"), Split(b));
      BareReturn(a);
    }
  }

  lemma ReturnTrimmed(l: string)
    ensures TrimCr(l + "\r") == TrimCr(l)
  {
    assert (l + "\r")[..|l|] == l;
  }

  lemma {:induction false} BareReturn(a: string)
    ensures Bare(a + "\r") == Bare(a)
  {
    hide Split, TrimCr;
    var L := Split(a);
    var k := |L| - 1;
    JoinSplit(a);
    var M := L[..k] + [L[k] + "\r"];
    assert L == L[..k] + [L[k]];
    ReturnTrimmed(L[k]);
    assert Join(M) == a + "\r" by {
      if k > 0 {
        JoinConcat(L[..k], [L[k]]);
        JoinConcat(L[..k], [L[k] + "\r"]);
      }
    }
    SplitJoin(M);
    BaredConcat(L[..k], [L[k]]);
    BaredConcat(L[..k], [L[k] + "\r"]);
  }

  // ----- a file that has no block yet -----

  /** The text in front of the appended block reads as the old lines, one blank line more or less. */
  lemma {:induction false} AppendReads(text: string, line: string, eol: string)
    requires eol == LF || eol == CRLF
    ensures exists P :: Bare(AppendBlockTo(text, line, eol)) == P + Bare(ANCHOR + eol + "  " + line + eol)
                     && forall l :: l in P ==> l == "" || l in Bare(text)
  {
    var tail := ANCHOR + eol + "  " + line + eol;
    var t := AppendBlockTo(text, line, eol);
    if text == "" {
      assert t == tail;
      assert Bare(t) == [] + Bare(tail);
    } else {
      var a := if EndsWith(text, eol) then text else text + eol;
      var b := if EndsWith(a, eol + eol) then a else a + eol;
      var x := b[..|b| - |eol|];
      assert b == x + eol;
      assert t == x + eol + tail;
      BareEol(x, eol, tail);
      assert x == a || x == text || x == text[..|text| - |eol|];
      forall l | l in Bare(x) ensures l == "" || l in Bare(text) { PrefixLines(text, eol, x, l); }
    }
  }

  lemma {:induction false} PrefixLines(text: string, eol: string, x: string, l: string)
    requires eol == LF || eol == CRLF
    requires x == text || x == text + eol || (EndsWith(text, eol) && x == text[..|text| - |eol|])
    requires l in Bare(x)
    ensures l == "" || l in Bare(text)
  {
    assert Bare("") == [""];
    if x == text + eol {
      assert x == text + eol + "";
      BareEol(text, eol, "");
    } else if x != text {
      assert text == x + eol + "";
      BareEol(x, eol, "");
    }
  }

  lemma {:induction false} BareOne(l: string)
    requires NoNewline(l) && TrimCr(l) == l
    ensures Bare(l) == [l]
  {
    SplitOfLine(l);
  }

  lemma {:induction false} TailReads(line: string, eol: string)
    requires eol == LF || eol == CRLF
    requires NoNewline(line) && TrimCr("  " + line) == "  " + line
    ensures Bare(ANCHOR + eol + "  " + line + eol) == [ANCHOR, "  " + line, ""]
  {
    hide Bare, TrimCr;
    var l := "  " + line;
    var rest := l + eol + "";
    assert ANCHOR + eol + "  " + line + eol == ANCHOR + eol + rest;
    BareEol(ANCHOR, eol, rest);
    BareEol(l, eol, "");
    AnchorTight();
    BareOne(ANCHOR);
    BareOne(l);
    BareOne("");
  }

  lemma AnchorTight()
    ensures NoNewline(ANCHOR) && TrimCr(ANCHOR) == ANCHOR && NoNewline("") && TrimCr("") == "" && NoNewline("  ")
  {
  }

  /** The appended block states the package and nothing else, and it is the first block of the file. */
  lemma {:induction false} AppendedBlock(P: seq<string>, line: string)
    requires forall i :: 0 <= i < |P| ==> P[i] != ANCHOR
    requires IsContent(line) && Indents(line)
    ensures Block(P + [ANCHOR, line, ""]) == [line]
    ensures Anchor(P + [ANCHOR, line, ""]) == |P|
  {
    var bare := P + [ANCHOR, line, ""];
    assert bare[|P|] == ANCHOR && forall i :: 0 <= i < |P| ==> bare[i] == P[i];
    var R := bare[|P| + 1..];
    assert R == [line, ""] && R[1..] == [""] && [""][1..] == [];
    assert BlockLen([""]) == 0;
  }

  // ----- the guarantees -----

  /** The text after the call. */
  function TextAfter(text: string, package: string): string
    requires package != []
  {
    match Approve(text, package) case Changed(t) => t case _ => text
  }

  lemma {:induction false} AppendedFile(text: string, line: string, eol: string)
    requires !Refuses(Bare(text)) && Anchor(Bare(text)) == |Bare(text)|
    requires eol == LF || eol == CRLF
    requires NoNewline(line) && TrimCr("  " + line) == "  " + line && IsContent("  " + line)
    requires !(ANCHOR <= "  " + line)
    ensures var after := Bare(AppendBlockTo(text, line, eol));
            && !Refuses(after) && Anchor(after) < |after|
            && Block(after) == ["  " + line]
  {
    hide Bare, AppendBlockTo, Block, IsContent, TrimCr;
    var bare := Bare(text);
    AppendReads(text, line, eol);
    var P :| Bare(AppendBlockTo(text, line, eol)) == P + Bare(ANCHOR + eol + "  " + line + eol)
          && forall l :: l in P ==> l == "" || l in bare;
    TailReads(line, eol);
    forall i | 0 <= i < |P| ensures P[i] != ANCHOR && !ValuedAnchor(P[i]) { assert P[i] in P; }
    AppendedBlock(P, "  " + line);
  }

  lemma {:induction false} AppendCase(text: string, package: string)
    requires ValidPackage(package) && !Refuses(Bare(text)) && Anchor(Bare(text)) == |Bare(text)|
    ensures var after := Bare(TextAfter(text, package));
            && !Refuses(after) && Anchor(after) < |after|
            && Block(after) == ["  " + TrueLine(package)]
  {
    hide AppendBlockTo, TrueLine, Bare, Block, Anchor, Refuses, IsContent, TrimCr;
    NewEntry("  ", package);
    NoNewlineTrue(package);
    AppendedFile(text, TrueLine(package), Eol(text));
  }

  lemma {:induction false} ApproveEdits(text: string, package: string)
    requires package != [] && Approve(text, package).Changed? && Anchor(Bare(text)) < |Bare(text)|
    ensures var bare := Bare(text);
            && !Refuses(bare)
            && TextAfter(text, package)
            == JoinWith(EditedLines(Split(text), Anchor(bare), Block(bare), package,
                                    EntryIndent(bare) + TrueLine(package)),
                        Eol(text))
  {
    hide Block, FindKey, EntryIndent, TrueLine, ValueOf, JoinWith, Split;
  }

  lemma {:induction false} EditCase(text: string, package: string)
    requires ValidPackage(package) && Approve(text, package).Changed? && Anchor(Bare(text)) < |Bare(text)|
    ensures var bare, after := Bare(text), Bare(TextAfter(text, package));
            var line := EntryIndent(bare) + TrueLine(package);
            && !Refuses(after) && Anchor(after) < |after|
            && Block(after) == EditedBlock(Block(bare), package, line)
    ensures var bare := Bare(text);
            var line := EntryIndent(bare) + TrueLine(package);
            var M := EditedLines(Split(text), Anchor(bare), Block(bare), package, line);
            Split(TextAfter(text, package)) == if HasCrlf(text) then Widened(M) else M
  {
    hide Block, FindKey, EntryIndent, TrueLine, Approve, TextAfter, IsContent, Anchor, TrimCr, JoinWith, Split;
    var L, bare := Split(text), Bare(text);
    var a, block := Anchor(bare), Block(bare);
    var line := EntryIndent(bare) + TrueLine(package);
    ApproveEdits(text, package);
    BareNewlineFree(L);
    EntryIndentFacts(bare);
    NewEntry(EntryIndent(bare), package);
    NoNewlineTrue(package);
    var M := EditedLines(L, a, block, package, line);
    BaredEdited(L, a, block, package, line);
    JoinedLines(M, Eol(text));
    EditsBlock(bare, package, line);
    EditRefusesNot(bare, package, line);
  }

  lemma {:induction false} BareNewlineFree(L: seq<string>)
    requires NewlineFree(L)
    ensures NewlineFree(Bared(L))
  {
    forall i | 0 <= i < |L| ensures NoNewline(Bared(L)[i]) {
      TrimCrSplit(L[i]);
      assert forall c :: c in TrimCr(L[i]) ==> c in L[i];
    }
  }

  lemma NoNewlineTrue(p: string)
    requires ValidPackage(p)
    ensures NoNewline(TrueLine(p))
  {
    YamlKeyFacts(p);
  }

  lemma {:induction false} EditRefusesNot(bare: seq<string>, package: string, line: string)
    requires Anchor(bare) < |bare| && !Refuses(bare) && !(ANCHOR <= line)
    ensures !Refuses(EditedLines(bare, Anchor(bare), Block(bare), package, line))
  {
    var next := EditedLines(bare, Anchor(bare), Block(bare), package, line);
    forall i | 0 <= i < |next| ensures !ValuedAnchor(next[i]) {
      assert next[i] == line || next[i] in bare;
    }
  }

  /** Refused exactly when a top-level `allowBuilds:` carries a value; otherwise the package reads back as
      approved, every other package as before, and a second call changes nothing. */
  lemma {:induction false} ApproveWorks(text: string, package: string)
    requires ValidPackage(package)
    ensures Approve(text, package) == Refused <==> Refuses(Bare(text))
    ensures Approve(text, package) == Unchanged
       <==> !Refuses(Bare(text)) && Lookup(text, package) == Some("true")
    ensures Approve(text, package) != Refused ==>
              var after := TextAfter(text, package);
              && Lookup(after, package) == Some("true")
              && (forall q :: q != package ==> Lookup(after, q) == Lookup(text, q))
              && Approve(after, package) == Unchanged
  {
    ApproveCases(text, package);
    hide Approve, TextAfter, Lookup, Refuses, Bare, Anchor;
    if Approve(text, package).Changed? {
      forall q ensures Lookup(TextAfter(text, package), q) == if q == package then Some("true") else Lookup(text, q) {
        ChangedReads(text, package, q);
      }
      ChangedIsSettled(text, package);
      ApproveCases(TextAfter(text, package), package);
    }
    SameTextAfter(text, package);
  }

  lemma SameTextAfter(text: string, package: string)
    requires package != []
    ensures !Approve(text, package).Changed? ==> TextAfter(text, package) == text
  {
    hide Approve;
  }

  /** What a changed file says about a package. */
  lemma {:induction false} ChangedReads(text: string, package: string, q: string)
    requires ValidPackage(package) && Approve(text, package).Changed?
    ensures Lookup(TextAfter(text, package), q) == if q == package then Some("true") else Lookup(text, q)
  {
    var bare := Bare(text);
    ApproveCases(text, package);
    hide Approve, TextAfter, Bare, Anchor, Block, ValueIn, EntryIndent, TrueLine, Refuses, Entry, ValueOf;
    if Anchor(bare) == |bare| {
      AppendCase(text, package);
      NewEntry("  ", package);
      OneEntry("  " + TrueLine(package), q);
    } else {
      EditCase(text, package);
      EntryIndentFacts(bare);
      NewEntry(EntryIndent(bare), package);
      EditedReads(Block(bare), package, EntryIndent(bare) + TrueLine(package), q);
    }
  }

  lemma {:induction false} ChangedIsSettled(text: string, package: string)
    requires ValidPackage(package) && Approve(text, package).Changed?
    ensures var after := Bare(TextAfter(text, package)); !Refuses(after) && Anchor(after) < |after|
  {
    ApproveCases(text, package);
    hide Approve, TextAfter, Bare, Anchor, Block, EntryIndent, TrueLine, Refuses, Lookup;
    if Anchor(Bare(text)) == |Bare(text)| { AppendCase(text, package); } else { EditCase(text, package); }
  }

  lemma {:induction false} ApproveCases(text: string, package: string)
    requires package != []
    ensures Approve(text, package) == Refused <==> Refuses(Bare(text))
    ensures Approve(text, package) == Unchanged
       <==> !Refuses(Bare(text)) && Anchor(Bare(text)) < |Bare(text)| && Lookup(text, package) == Some("true")
    ensures Anchor(Bare(text)) == |Bare(text)| ==> forall q :: Lookup(text, q) == None
  {
  }

  lemma OneEntry(l: string, q: string)
    requires Entry(l).Some?
    ensures ValueIn([l], q) == if q == Entry(l).value.0 then Some(ValueOf(l)) else None
  {
    assert [l][1..] == [];
  }

  /** Inside an existing block every original line survives but the one replaced, byte for byte, exactly
      when the file holds no CRLF; a CRLF file gets one more `\r` on every line but its last. */
  lemma {:induction false} BytesKeptIff(text: string, package: string)
    requires ValidPackage(package) && Approve(text, package).Changed? && Anchor(Bare(text)) < |Bare(text)|
    ensures var bare := Bare(text);
            var line := EntryIndent(bare) + TrueLine(package);
            var M := EditedLines(Split(text), Anchor(bare), Block(bare), package, line);
            && (Split(TextAfter(text, package)) == M <==> !HasCrlf(text))
            && (HasCrlf(text) ==> Split(TextAfter(text, package)) == Widened(M))
  {
    hide Approve, TextAfter, EntryIndent, Block, TrueLine;
    var bare := Bare(text);
    var M := EditedLines(Split(text), Anchor(bare), Block(bare), package, EntryIndent(bare) + TrueLine(package));
    EditCase(text, package);
    if HasCrlf(text) {
      CrlfHasTwoLines(text);
      WidenedSize(M);
    }
  }

  /** The shortest such file: approving anything in an empty CRLF block widens the line that opens it. */
  lemma {:induction false} CrlfWidensAnchor(package: string)
    requires ValidPackage(package)
    ensures TextAfter(ANCHOR + CRLF, package) == ANCHOR + "\r" + CRLF + "  " + TrueLine(package) + CRLF
  {
    hide TrueLine, Split, Bare, HasCrlf, BlockLen, JoinWith, DetectIndent, Refuses;
    var line := "  " + TrueLine(package);
    EmptyCrlfBlock();
    var L := [ANCHOR + "\r", ""];
    assert [ANCHOR, ""][1..] == [""] && [""][..0] == [];
    assert L[..1] + [line] + L[1..] == [ANCHOR + "\r", line, ""];
    JoinThree(ANCHOR + "\r", line);
    assert ANCHOR + "\r" + CRLF + line + CRLF == ANCHOR + "\r" + CRLF + "  " + TrueLine(package) + CRLF;
  }

  lemma JoinThree(a: string, b: string)
    ensures JoinWith([a, b, ""], CRLF) == a + CRLF + b + CRLF
  {
    assert [a, b, ""][1..] == [b, ""] && [b, ""][1..] == [""];
    assert JoinWith([b, ""], CRLF) == b + CRLF;
    ConcatAssoc(a + CRLF, b, CRLF);
  }

  lemma {:induction false} EmptyCrlfBlock()
    ensures var text := ANCHOR + CRLF;
            && HasCrlf(text) && Split(text) == [ANCHOR + "\r", ""] && Bare(text) == [ANCHOR, ""]
            && !Refuses(Bare(text)) && DetectIndent(Bare(text)) == "  " && BlockLen([""]) == 0
  {
    var text := ANCHOR + CRLF;
    AnchorTight();
    assert text == ANCHOR + "\r" + "\n" + "";
    SplitLineThen(ANCHOR + "\r", "");
    SplitOfLine("");
    assert text[|ANCHOR|] == '\r' && text[|ANCHOR| + 1] == '\n';
    assert [ANCHOR + "\r", ""][1..] == [""] && [""][1..] == [];
    ReturnTrimmed(ANCHOR);
    assert [ANCHOR, ""][1..] == [""];
    TrimTight(ANCHOR);
    assert Narrowest([ANCHOR, ""]) == 0;
    assert Spaces(2) == " " + Spaces(1) && Spaces(1) == " " + Spaces(0);
  }

  /** Without a block the old text stays as it is, whatever its line endings. */
  lemma AppendKeepsText(text: string, package: string)
    requires ValidPackage(package) && !Refuses(Bare(text)) && Anchor(Bare(text)) == |Bare(text)|
    ensures text <= TextAfter(text, package)
  {
  }

  // ----- entries of packages nested below other keys -----

  predicate IsTopEntry(l: string, key: string, ind: string) { IsEntryOf(l, key) && IndentOf(l) == ind }

  function FindTop(block: seq<string>, key: string, ind: string): (i: nat)
    ensures i <= |block| && (i < |block| ==> IsTopEntry(block[i], key, ind))
    ensures forall j :: 0 <= j < i ==> !IsTopEntry(block[j], key, ind)
  {
    if block == [] || IsTopEntry(block[0], key, ind) then 0
    else
      var i := 1 + FindTop(block[1..], key, ind);
      assert forall j :: 1 <= j < i ==> block[j] == block[1..][j - 1];
      i
  }

  /** What the block says about a package at its own indentation, as a YAML reader takes it. */
  function TopValueIn(block: seq<string>, key: string): Option<string> {
    match FirstContent(block)
    case None => None
    case Some(l) =>
      var i := FindTop(block, key, IndentOf(l));
      if i < |block| then Some(ValueOf(block[i])) else None
  }

  function TopLookup(text: string, key: string): Option<string> { TopValueIn(Block(Bare(text)), key) }

  lemma {:induction false} FirstContentConcat(a: seq<string>, b: seq<string>)
    ensures FirstContent(a + b) == if FirstContent(a).Some? then FirstContent(a) else FirstContent(b)
  {
    if a == [] {
      assert a + b == b;
    } else {
      assert (a + b)[1..] == a[1..] + b;
      FirstContentConcat(a[1..], b);
    }
  }

  lemma {:induction false} FirstContentReplaced(block: seq<string>, i: nat, l: string)
    requires i < |block| && IsContent(block[i]) && IsContent(l)
    ensures FirstContent(block[i := l]) == FirstContent(block) || FirstContent(block[i := l]) == Some(l)
    ensures FirstContent(block).Some?
  {
    if i == 0 {
    } else {
      assert block[i := l][1..] == block[1..][i - 1 := l];
      FirstContentReplaced(block[1..], i - 1, l);
    }
  }

  /** The edited block states the new line's package at its own indentation. */
  lemma {:induction false} EditedTop(block: seq<string>, package: string, line: string)
    requires ValidPackage(package) && IsContent(line) && IsEntryOf(line, package)
    requires FirstContent(block).Some? ==> IndentOf(line) == IndentOf(FirstContent(block).value)
    ensures TopValueIn(EditedBlock(block, package, line), package) == Some(ValueOf(line))
  {
    hide ValidPackage, IsContent, IsEntryOf, IndentOf;
    var i, next := FindKey(block, package), EditedBlock(block, package, line);
    if i == |block| {
      FirstContentConcat(block, [line]);
      assert FirstContent([line]) == Some(line);
    } else {
      KeyIsContent(block, package);
      FirstContentReplaced(block, i, line);
    }
    var ind := IndentOf(FirstContent(next).value);
    assert ind == IndentOf(line) && next[i] == line;
    assert forall j :: 0 <= j < i ==> next[j] == block[j];
  }

  /** After a call that is not refused the package is approved at the block's own indentation, unless what
      the editor took for the package's approval is nested under another key. */
  lemma {:induction false} ApprovedAtTopIff(text: string, package: string)
    requires ValidPackage(package) && Approve(text, package) != Refused
    ensures TopLookup(TextAfter(text, package), package) == Some("true")
       <==> (Lookup(text, package) == Some("true") ==> TopLookup(text, package) == Some("true"))
  {
    hide TopValueIn, EntryIndent, TrueLine, Block, Bare, Anchor, Approve, TextAfter, Lookup, Refuses;
    ApproveCases(text, package);
    if Approve(text, package).Changed? { ChangedTop(text, package); }
    SameTextAfter(text, package);
  }

  lemma {:induction false} ChangedTop(text: string, package: string)
    requires ValidPackage(package) && Approve(text, package).Changed?
    ensures TopLookup(TextAfter(text, package), package) == Some("true")
  {
    hide TopValueIn, EntryIndent, TrueLine, Block, Bare, Anchor, Approve, TextAfter, Lookup, Refuses, Entry, ValueOf,
         IsContent, IndentOf;
    var bare := Bare(text);
    ApproveCases(text, package);
    if Anchor(bare) == |bare| {
      AppendCase(text, package);
      NewEntry("  ", package);
      EditedTop([], package, "  " + TrueLine(package));
      assert EditedBlock([], package, "  " + TrueLine(package)) == ["  " + TrueLine(package)];
    } else {
      EditCase(text, package);
      EntryIndentFacts(bare);
      NewEntry(EntryIndent(bare), package);
      IndentIsBlocks(bare);
      EditedTop(Block(bare), package, EntryIndent(bare) + TrueLine(package));
    }
  }

  /** A file where the package stands below another key: the call reports it approved, and at the block's own
      indentation it is not. */
  lemma {:induction false} NestedApproval(package: string, other: string)
    requires ValidPackage(package) && ValidPackage(other) && other != package
    ensures var text := ANCHOR + LF + ("  " + (YamlKey(other) + ":")) + LF + ("    " + TrueLine(package)) + LF;
            Approve(text, package) == Unchanged && TopLookup(text, package) == None
  {
    hide TrueLine, Bare, Entry, ValueOf, IsContent, Indents, IndentOf, YamlKey;
    var outer, inner := "  " + (YamlKey(other) + ":"), "    " + TrueLine(package);
    var text := ANCHOR + LF + outer + LF + inner + LF;
    OuterLine(other);
    FourSpaces();
    NewEntry("    ", package);
    NoNewlineTrue(package);
    BareThree(outer, inner);
    var bare := [ANCHOR, outer, inner, ""];
    assert ANCHOR != outer && ANCHOR != inner && !(ANCHOR <= "");
    NestedBlock(outer, inner);
    assert IsEntryOf(inner, package) && !IsEntryOf(outer, package);
    assert [outer, inner][1..] == [inner];
    assert !IsTopEntry(inner, package, "  ");
    assert [inner][1..] == [];
    assert Bare(text) == bare && !Refuses(bare) && Block(bare) == [outer, inner];
    assert FindKey([inner], package) == 0 && FindTop([inner], package, "  ") == 1;
    assert FindKey([outer, inner], package) == 1 && FindTop([outer, inner], package, "  ") == 2;
    assert Lookup(text, package) == Some("true");
    ApproveCases(text, package);
  }

  lemma {:induction false} NestedBlock(outer: string, inner: string)
    requires IsContent(outer) && IsContent(inner) && Indents(outer) && Indents(inner)
    ensures var bare := [ANCHOR, outer, inner, ""];
            Anchor(bare) == 0 && Block(bare) == [outer, inner] && FirstContent(Block(bare)) == Some(outer)
  {
    hide IsContent, Indents;
    var bare := [ANCHOR, outer, inner, ""];
    var R := [outer, inner, ""];
    EmptyIsNoContent();
    assert bare[1..] == R && R[1..] == [inner, ""] && [inner, ""][1..] == [""] && [""][1..] == [];
    assert BlockLen([""]) == 0 && BlockLen([inner, ""]) == 1 && BlockLen(R) == 2;
    assert R[..2] == [outer, inner];
  }

  lemma FourSpaces()
    ensures AllSpace("    ") && Indents("    ") && NoNewline("    ")
  {
  }

  lemma EmptyIsNoContent()
    ensures !IsContent("")
  {
  }

  lemma {:induction false} OuterLine(key: string)
    requires ValidPackage(key)
    ensures var l := "  " + (YamlKey(key) + ":");
            && Entry(l).Some? && Entry(l).value.0 == key
            && IsContent(l) && Indents(l) && !(ANCHOR <= l) && TrimCr(l) == l && IndentOf(l) == "  " && NoNewline(l)
  {
    hide YamlKey, Unquoted, Trim, Colon;
    var k := YamlKey(key);
    var l := "  " + (k + ":");
    YamlKeyFacts(key);
    assert l == ("  " + k) + (":" + "");
    assert ':' !in "  " + k;
    ColonAfter("  " + k, "");
    assert l[..|"  " + k|] == "  " + k;
    assert l[0] == ' ' && ANCHOR[0] == 'a';
    KeyPart("  ", key);
    TrimStartOfSpaces("  ", k + ":");
    assert (k + ":")[0] == k[0];
    assert TrimStart(k + ":") == k + ":";
    assert l[..|l| - |k + ":"|] == "  ";
  }

  lemma {:induction false} BareThree(a: string, b: string)
    requires NoNewline(a) && TrimCr(a) == a && NoNewline(b) && TrimCr(b) == b
    ensures Bare(ANCHOR + LF + a + LF + b + LF) == [ANCHOR, a, b, ""]
  {
    hide Bare, TrimCr;
    AnchorTight();
    BareOne(ANCHOR);
    BareLine(ANCHOR, a);
    BareLine(ANCHOR + LF + a, b);
    BareEnd(ANCHOR + LF + a + LF + b);
  }

  /** One line more behind a line feed. */
  lemma BareLine(x: string, l: string)
    requires NoNewline(l) && TrimCr(l) == l
    ensures Bare(x + LF + l) == Bare(x) + [l]
  {
    hide Bare;
    BareEol(x, LF, l);
    BareOne(l);
  }

  lemma BareEnd(x: string)
    ensures Bare(x + LF) == Bare(x) + [""]
  {
    hide Bare;
    BareLine(x, "");
    assert x + LF + "" == x + LF;
  }

  lemma IndentIsBlocks(bare: seq<string>)
    ensures FirstContent(Block(bare)).Some? ==> EntryIndent(bare) == IndentOf(FirstContent(Block(bare)).value)
  {
  }

  // ----- the edit as the launcher runs it -----

  /** `insert_allow_build` */
  method InsertAllowBuild(text: string, package: string, line: string) returns (edit: Edit)
    requires package != [] && line == TrueLine(package)
    ensures edit == Approve(text, package)
  {
    hide Split, Bare, BlockLen, EntryIndent, TrueLine, Block, Anchor, Eol, JoinWith, FindKey, Entry, ValueOf, Refuses,
         AppendBlockTo;
    var eol, lines, bare := Eol(text), Split(text), Bare(text);
    if Refuses(bare) { return Refused; }
    var anchor := Anchor(bare);
    if anchor == |bare| { return Changed(AppendBlockTo(text, line, eol)); }
    var end := FindEnd(bare, anchor);
    var block := bare[anchor + 1..end];
    BlockIs(bare, anchor, end);
    var indent := EntryIndent(bare);
    var i := FindEntry(block, package);
    if i == |block| { return Changed(JoinWith(lines[..end] + [indent + line] + lines[end..], eol)); }
    if ValueOf(block[i]) == "true" { return Unchanged; }
    edit := Changed(JoinWith(lines[anchor + 1 + i := indent + line], eol));
  }

  /** The search for the package's line in the block. */
  method FindEntry(block: seq<string>, package: string) returns (i: nat)
    ensures i == FindKey(block, package)
  {
    i := 0;
    while i < |block|
      invariant i <= FindKey(block, package)
    {
      var e := Entry(block[i]);
      if e.Some? && e.value.0 == package { return; }
      i := i + 1;
    }
  }

  lemma SliceSlice(s: seq<string>, from: nat, n: nat)
    requires from + n <= |s|
    ensures s[from..][..n] == s[from..from + n]
  {
  }

  lemma BlockIs(bare: seq<string>, a: nat, end: nat)
    requires a == Anchor(bare) < |bare| && end == a + 1 + BlockLen(bare[a + 1..])
    ensures bare[a + 1..end] == Block(bare)
  {
    hide BlockLen, Anchor;
    SliceSlice(bare, a + 1, BlockLen(bare[a + 1..]));
  }

  /** The scan for the end of the block: the last indented content line before other top-level content. */
  method FindEnd(bare: seq<string>, anchor: nat) returns (end: nat)
    requires anchor < |bare|
    ensures end == anchor + 1 + BlockLen(bare[anchor + 1..])
  {
    end := anchor + 1;
    var i := anchor + 1;
    while i < |bare|
      invariant anchor + 1 <= end <= i <= |bare|
      invariant var n := BlockLen(bare[i..]);
                BlockLen(bare[anchor + 1..]) == if n == 0 then end - anchor - 1 else i - anchor - 1 + n
    {
      var l := bare[i];
      assert bare[i..][1..] == bare[i + 1..];
      if IsContent(l) {
        if !Indents(l) { break; }
        end := i + 1;
      }
      i := i + 1;
    }
    assert i == |bare| ==> bare[i..] == [];
  }

  datatype Outcome = Invalid | NotBare | Unwritable | AlreadyApproved | Written

  /** The profile's workspace file, when there is one, and the copy kept before an edit. */
  class Workspace {
    var text: Option<string>
    var backup: Option<string>

    constructor (t: Option<string>)
      ensures text == t && backup == None
    {
      text, backup := t, None;
    }

    function Before(): string
      reads this
    {
      match text case Some(t) => t case None => ""
    }

    /** `add_allow_build`; `parses` is what the YAML parser says of the edited text. */
    method AddAllowBuild(name: string, parses: (string, string) -> bool) returns (r: Outcome)
      modifies this
      ensures var p := Trim(name);
              && (r == Invalid <==> !ValidPackage(p))
              && (r == NotBare <==> ValidPackage(p) && Refuses(Bare(old(Before()))))
              && (r != Written ==> text == old(text) && backup == old(backup))
              && (r in {AlreadyApproved, Written} ==>
                    && Lookup(Before(), p) == Some("true")
                    && forall q :: q != p ==> Lookup(Before(), q) == Lookup(old(Before()), q))
              && (r == Written ==>
                    && text == Some(TextAfter(old(Before()), p)) && parses(Before(), p)
                    && backup == if old(Before()) == "" then old(backup) else Some(old(Before())))
    {
      var package := Trim(name);
      if !ValidPackage(package) { return Invalid; }
      var before := Before();
      ApproveWorks(before, package);
      var edit := InsertAllowBuild(before, package, TrueLine(package));
      match edit
      case Refused => r := NotBare;
      case Unchanged => r := AlreadyApproved;
      case Changed(after) =>
        if !parses(after, package) { return Unwritable; }
        if before != "" { backup := Some(before); }
        text := Some(after);
        r := Written;
    }
  }
}
