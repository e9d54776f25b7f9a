/** Which packages a patch file mounts: `parse_insert_names`, and its agreement
    with the block a skin sync prints. */
module SkinNames {
  import opened Basics
  import opened TextLines
  import opened PatchLines
  import opened PatchText
  import opened PatchDoc
  import opened PatchBlocks
  import opened SkinRows
  import opened FreshNames
  import opened PatchOps
  import opened PatchTheorems
  import opened PatchBytes

  function Utf8Len(c: char): nat {
    if c < '\U{80}' then 1 else if c < '\U{800}' then 2 else if c < '\U{10000}' then 3 else 4
  }

  /** `line.len() - line.trim_start().len()`, in bytes. */
  function Indent(s: string): nat {
    if s != [] && IsSpace(s[0]) then Utf8Len(s[0]) + Indent(s[1..]) else 0
  }

  predicate IsInsertLine(trimmed: string) {
    match After(Trim(StripDash(trimmed)), "insert:")
    case None => false
    case Some(rest) => Trim(rest) == ""
  }

  predicate IsRowLine(trimmed: string) {
    var t := Trim(StripDash(trimmed));
    ID_KEY <= t || NAME_KEY <= t || "config:" <= t
  }

  /** The insert block a line belongs to, once the line itself has been looked at. */
  function Scope(trimmed: string, indent: nat, ins: Option<nat>): Option<nat> {
    if IsInsertLine(trimmed) then Some(indent)
    else if ins.Some? && indent <= ins.value && !IsRowLine(trimmed) then None
    else ins
  }

  function ScopeAfter(line: string, ins: Option<nat>): Option<nat> {
    var l := BeforeHash(line);
    if TrimStart(l) == [] then ins else Scope(TrimStart(l), Indent(l), ins)
  }

  /** The `name:` a line contributes, given the insert block it stands in. */
  function NameOn(line: string, ins: Option<nat>): set<string> {
    var l := BeforeHash(line);
    var t := TrimStart(l);
    if t == [] || IsInsertLine(t) then {}
    else
      match (ParseField(t, NAME_KEY), Scope(t, Indent(l), ins))
      case (Some(name), Some(at)) => if Indent(l) > at then {name} else {}
      case _ => {}
  }

  function NamesFrom(L: seq<string>, ins: Option<nat>): set<string> {
    if L == [] then {} else NameOn(L[0], ins) + NamesFrom(L[1..], ScopeAfter(L[0], ins))
  }

  /** `parse_insert_names` */
  function InsertNames(text: string): set<string> { NamesFrom(RustLines(Split(text)), None) }

  /** The loop of `parse_insert_names`. */
  method ParseInsertNames(text: string) returns (out: set<string>)
    ensures out == InsertNames(text)
  {
    out := {};
    var ins: Option<nat> := None;
    var lines := RustLines(Split(text));
    var i := 0;
    while i < |lines|
      invariant 0 <= i <= |lines|
      invariant out + NamesFrom(lines[i..], ins) == InsertNames(text)
    {
      assert lines[i..][0] == lines[i] && lines[i..][1..] == lines[i + 1..];
      var line := BeforeHash(lines[i]);
      var trimmed := TrimStart(line);
      i := i + 1;
      if trimmed == [] { continue; }
      var indent := Indent(line);
      var before := ins;
      if ins.Some? && indent <= ins.value && !IsRowLine(trimmed) { ins := None; }
      if IsInsertLine(trimmed) {
        ins := Some(indent);
        continue;
      }
      match ParseField(trimmed, NAME_KEY) {
        case Some(name) =>
          if ins.Some? && indent > ins.value { out := out + {name}; }
        case None =>
      }
    }
  }

  function ScopeThrough(L: seq<string>, ins: Option<nat>): Option<nat> {
    if L == [] then ins else ScopeThrough(L[1..], ScopeAfter(L[0], ins))
  }

  lemma {:induction false} NamesConcat(A: seq<string>, B: seq<string>, ins: Option<nat>)
    ensures NamesFrom(A + B, ins) == NamesFrom(A, ins) + NamesFrom(B, ScopeThrough(A, ins))
  {
    if A == [] {
      assert A + B == B;
    } else {
      assert (A + B)[1..] == A[1..] + B;
      NamesConcat(A[1..], B, ScopeAfter(A[0], ins));
    }
  }

  // ----- which names are read -----

  /** The line's text, remark and indentation dropped. */
  function TextOf(line: string): string { TrimStart(BeforeHash(line)) }

  function IndentAt(line: string): nat { Indent(BeforeHash(line)) }

  predicate Opens(line: string) { TextOf(line) != [] && IsInsertLine(TextOf(line)) }

  /** A line that is no row ends the insert block at an indentation it does not exceed. */
  predicate Closes(line: string, at: nat) {
    TextOf(line) != [] && IndentAt(line) <= at && !IsRowLine(TextOf(line))
  }

  /** Line `j` opens an insert block that no line from it up to `i` opens anew or closes. */
  predicate Within(L: seq<string>, j: nat, i: nat)
    requires j < i <= |L|
  {
    Opens(L[j]) && forall k :: j < k < i ==> !Opens(L[k]) && !Closes(L[k], IndentAt(L[j]))
  }

  lemma {:induction false} ScopeSnoc(L: seq<string>, l: string, ins: Option<nat>)
    ensures ScopeThrough(L + [l], ins) == ScopeAfter(l, ScopeThrough(L, ins))
  {
    hide ScopeAfter;
    if L == [] {
      assert (L + [l])[1..] == [];
    } else {
      assert (L + [l])[1..] == L[1..] + [l];
      ScopeSnoc(L[1..], l, ScopeAfter(L[0], ins));
    }
  }

  lemma ScopeStep(l: string, ins: Option<nat>)
    ensures ScopeAfter(l, ins)
         == if Opens(l) then Some(IndentAt(l)) else if ins.Some? && Closes(l, ins.value) then None else ins
  {
    hide IsInsertLine, IsRowLine;
  }

  /** The scope behind the first `n` lines is the block some line of them opened that none since has closed. */
  lemma {:induction false} ScopeIff(L: seq<string>, n: nat, at: nat)
    requires n <= |L|
    ensures ScopeThrough(L[..n], None) == Some(at)
       <==> exists j :: 0 <= j < n && Within(L, j, n) && IndentAt(L[j]) == at
  {
    hide ScopeAfter, Opens, Closes;
    if n > 0 {
      var l := L[n - 1];
      ScopeIff(L, n - 1, at);
      assert L[..n] == L[..n - 1] + [l];
      ScopeSnoc(L[..n - 1], l, None);
      ScopeStep(l, ScopeThrough(L[..n - 1], None));
      WithinStep(L, n, at);
    }
  }

  lemma {:induction false} WithinStep(L: seq<string>, n: nat, at: nat)
    requires 0 < n <= |L|
    ensures (exists j :: 0 <= j < n && Within(L, j, n) && IndentAt(L[j]) == at) <==>
              if Opens(L[n - 1]) then IndentAt(L[n - 1]) == at
              else
                && !Closes(L[n - 1], at)
                && exists j :: 0 <= j < n - 1 && Within(L, j, n - 1) && IndentAt(L[j]) == at
  {
    hide Opens, Closes, IndentAt;
    if Opens(L[n - 1]) { assert Within(L, n - 1, n); }
    forall j | 0 <= j < n - 1
      ensures Within(L, j, n) <==>
                Within(L, j, n - 1) && !Opens(L[n - 1]) && !Closes(L[n - 1], IndentAt(L[j]))
    {
    }
  }

  /** A name is read of a line exactly when it states one, deeper than the head of the insert block it stands in. */
  predicate NamedAt(L: seq<string>, i: nat, name: string)
    requires i < |L|
  {
    && !Opens(L[i]) && TextOf(L[i]) != [] && ParseField(TextOf(L[i]), NAME_KEY) == Some(name)
    && exists j :: 0 <= j < i && Within(L, j, i + 1) && IndentAt(L[i]) > IndentAt(L[j])
  }

  lemma {:induction false} NameOnIff(L: seq<string>, i: nat, name: string)
    requires i < |L|
    ensures name in NameOn(L[i], ScopeThrough(L[..i], None)) <==> NamedAt(L, i, name)
  {
    hide ScopeThrough, ParseField, IsInsertLine, Within;
    var ins := ScopeThrough(L[..i], None);
    assert L[..i + 1] == L[..i] + [L[i]];
    ScopeSnoc(L[..i], L[i], None);
    var now := ScopeAfter(L[i], ins);
    if now.Some? { ScopeIff(L, i + 1, now.value); }
    forall j | 0 <= j < i && Within(L, j, i + 1) ensures now == Some(IndentAt(L[j])) {
      ScopeIff(L, i + 1, IndentAt(L[j]));
    }
    OpensHere(L, i);
  }

  lemma OpensHere(L: seq<string>, i: nat)
    requires i < |L|
    ensures Within(L, i, i + 1) <==> Opens(L[i])
  {
  }

  lemma {:induction false} NamesFromIff(L: seq<string>, n: nat, name: string)
    requires n <= |L|
    ensures name in NamesFrom(L[..n], None) <==> exists i :: 0 <= i < n && NamedAt(L, i, name)
  {
    hide NameOn, NamedAt, ScopeThrough, ScopeAfter;
    if n > 0 {
      var l := L[n - 1];
      NamesFromIff(L, n - 1, name);
      NameOnIff(L, n - 1, name);
      assert L[..n] == L[..n - 1] + [l];
      NamesConcat(L[..n - 1], [l], None);
      OneName(l, ScopeThrough(L[..n - 1], None));
    }
  }

  /** The names read of a file are those stated by lines that stand, deeper than its head, in an insert block. */
  lemma {:induction false} NamesIff(text: string, L: seq<string>, name: string)
    requires L == RustLines(Split(text))
    ensures name in InsertNames(text) <==> exists i :: 0 <= i < |L| && NamedAt(L, i, name)
  {
    hide NamesFrom, NamedAt;
    NamesOfLines(L, name);
  }

  lemma NamesOfLines(L: seq<string>, name: string)
    ensures name in NamesFrom(L, None) <==> exists i :: 0 <= i < |L| && NamedAt(L, i, name)
  {
    hide NamesFrom, NamedAt;
    NamesFromIff(L, |L|, name);
    assert L[..|L|] == L;
  }

  /** The width of the indentation is counted in bytes: one for ASCII, two for U+0085 and U+00A0, else three. */
  lemma SpaceWidths(c: char)
    requires IsSpace(c)
    ensures Utf8Len(c) == if c <= ' ' then 1 else if c == '\U{0085}' || c == '\U{00A0}' then 2 else 3
  {
  }

  lemma {:induction false} InsertLineIs()
    ensures IsInsertLine(INSERT_LINE)
  {
    assert StripDash(INSERT_LINE) == " " + "insert:";
    TrimTight("insert:");
    assert "insert:"[7..] == "";
  }

  lemma {:induction false} InsertLineScope(ins: Option<nat>)
    ensures ScopeAfter(INSERT_LINE, ins) == Some(0) && NameOn(INSERT_LINE, ins) == {}
  {
    hide IsInsertLine, BeforeHash, TrimStart, Indent;
    InsertLineIs();
    InsertLineText();
  }

  lemma {:induction false} InsertLineText()
    ensures BeforeHash(INSERT_LINE) == INSERT_LINE && TrimStart(INSERT_LINE) == INSERT_LINE
    ensures Indent(INSERT_LINE) == 0 && INSERT_LINE != []
  {
    assert !IsSpace(INSERT_LINE[0]);
    hide BeforeHash, IsSpace;
    BeforeHashPrefix(INSERT_LINE);
  }

  /** A line that opens with an id key, whatever follows. */
  lemma {:induction false} IdLineScope(id: string)
    ensures ScopeAfter(SkinIdLine(id), Some(0)) == Some(0) && NameOn(SkinIdLine(id), Some(0)) == {}
  {
    SkinPrefixFacts();
    var a := "- " + ID_KEY;
    CleanConcat("- ", ID_KEY);
    CleanConcat("    ", a);
    var line := SkinIdLine(id);
    assert line == ("    " + a) + (" " + id);
    BeforeHashAppend("    " + a, " " + id);
    var z := BeforeHash(" " + id);
    var l := ("    " + a) + z;
    assert BeforeHash(line) == l && l == "    " + (a + z);
    TrimStartOfSpaces("    ", a + z);
    assert TrimStart(l) == a + z;
    assert a + z == "- " + (ID_KEY + z);
    assert StripDash(a + z) == " " + (ID_KEY + z);
    TrimStartChars(ID_KEY + z);
    TrimEndKeeps(ID_KEY, z);
    var t := Trim(StripDash(a + z));
    assert ID_KEY <= t;
    IdKeyIsNoOther(t);
    IndentPad("    ", a + z);
  }

  lemma {:induction false} IdKeyIsNoOther(t: string)
    requires ID_KEY <= t
    ensures After(t, "insert:").None? && After(t, NAME_KEY).None?
  {
    assert t[0] == 'i' && t[1] == 'd';
  }

  lemma {:induction false} IndentPad(pad: string, s: string)
    requires forall c :: c in pad ==> c == ' '
    requires s != [] && !IsSpace(s[0])
    ensures Indent(pad + s) == |pad|
  {
    if pad == [] {
      assert pad + s == s;
    } else {
      assert pad[0] in pad;
      assert (pad + s)[1..] == pad[1..] + s;
      assert forall c :: c in pad[1..] ==> c in pad;
      IndentPad(pad[1..], s);
    }
  }

  lemma {:induction false} WordIsClean(w: string)
    requires Word(w)
    ensures Clean(w) && Tight(w) && NoNewline(w)
  {
    assert w[0] in w && w[|w| - 1] in w;
  }

  lemma {:induction false} SpelledNameReads(package: string)
    requires Word(package)
    ensures Clean(SpelledName(package)) && Tight(SpelledName(package))
    ensures Scalar(TrimQuotes(SpelledName(package))) == package
  {
    WordIsClean(package);
    WordEnds(package);
    assert package[|package| - 1] in package;
    QuotedReads(package);
    if '/' in package {
      var v := Quoted(package);
      assert v[1..] == package + "'";
      assert TrimQuotes(v) == package + "'";
      ScalarOfWord(package, "'");
    }
  }

  lemma {:induction false} NameKeyIsNoOther(t: string)
    requires NAME_KEY <= t
    ensures After(t, "insert:").None? && StripDash(t) == t
  {
    assert t[0] == 'n';
  }

  /** A printed name line reads back as its package, quoted or not. */
  lemma {:induction false} NameLineReads(package: string)
    requires Word(package)
    ensures NameOn(SkinNameLine(package), Some(0)) == {package}
    ensures ScopeAfter(SkinNameLine(package), Some(0)) == Some(0)
  {
    SkinPrefixFacts();
    var v := SpelledName(package);
    SpelledNameReads(package);
    KeyValue("      ", NAME_KEY, v);
    var t := NAME_KEY + " " + v;
    IndentPad("      ", t);
    NameKeyIsNoOther(t);
    assert ParseField(t, NAME_KEY) == Some(package);
  }

  predicate Words(ps: seq<string>) {
    forall i :: 0 <= i < |ps| ==> Word(ps[i])
  }

  /** The printed rows mount exactly the packages they were printed for. */
  lemma {:induction false} RowsMount(packages: seq<string>, ids: seq<string>)
    requires |packages| == |ids| && Words(packages)
    ensures NamesFrom(SkinRowLines(packages, ids), Some(0)) == Elements(packages)
    ensures ScopeThrough(SkinRowLines(packages, ids), Some(0)) == Some(0)
  {
    hide NameOn, ScopeAfter, SkinIdLine, SkinNameLine;
    if packages == [] {
    } else {
      var rest := SkinRowLines(packages[1..], ids[1..]);
      var rows := SkinRowLines(packages, ids);
      assert forall i :: 0 <= i < |packages[1..]| ==> packages[1..][i] == packages[i + 1];
      RowsMount(packages[1..], ids[1..]);
      IdLineScope(ids[0]);
      assert Word(packages[0]);
      NameLineReads(packages[0]);
      assert rows[1..] == [SkinNameLine(packages[0])] + rest && rows[1..][1..] == rest;
      assert NamesFrom(rows, Some(0)) == NamesFrom(rows[1..], Some(0));
      assert NamesFrom(rows[1..], Some(0)) == {packages[0]} + NamesFrom(rest, Some(0));
      ElementsCons(packages);
    }
  }

  lemma {:induction false} ElementsCons(ps: seq<string>)
    requires ps != []
    ensures Elements(ps) == {ps[0]} + Elements(ps[1..])
  {
    forall x ensures x in Elements(ps) <==> x == ps[0] || x in Elements(ps[1..]) {
      if x in Elements(ps) {
        var i :| 0 <= i < |ps| && ps[i] == x;
        if i > 0 { assert ps[1..][i - 1] == x; }
      }
      if x in Elements(ps[1..]) {
        var i :| 0 <= i < |ps[1..]| && ps[1..][i] == x;
        assert ps[i + 1] == x;
      }
    }
  }

  predicate NoCr(L: seq<string>) {
    forall i :: 0 <= i < |L| ==> L[i] == [] || L[i][|L[i]| - 1] != '\r'
  }

  lemma {:induction false} CutAllNoCr(L: seq<string>)
    requires NoCr(L)
    ensures CutAll(L) == L
  {
    if L != [] {
      assert forall i :: 0 <= i < |L[1..]| ==> L[1..][i] == L[i + 1];
      CutAllNoCr(L[1..]);
    }
  }

  predicate CleanEnds(ids: seq<string>) {
    forall i :: 0 <= i < |ids| ==> ids[i] != [] && ids[i][|ids[i]| - 1] != '\r'
  }

  lemma {:induction false} RowsNoCr(packages: seq<string>, ids: seq<string>)
    requires |packages| == |ids| && Words(packages) && CleanEnds(ids)
    ensures NoCr(SkinRowLines(packages, ids))
  {
    if packages != [] {
      assert forall i :: 0 <= i < |packages[1..]| ==> packages[1..][i] == packages[i + 1];
      assert forall i :: 0 <= i < |ids[1..]| ==> ids[1..][i] == ids[i + 1];
      RowsNoCr(packages[1..], ids[1..]);
      assert Word(packages[0]);
      RowEnds(packages[0], ids[0]);
      hide SkinIdLine, SkinNameLine;
      NoCrConcat([SkinIdLine(ids[0]), SkinNameLine(packages[0])], SkinRowLines(packages[1..], ids[1..]));
    }
  }

  lemma NoCrConcat(a: seq<string>, b: seq<string>)
    requires NoCr(a) && NoCr(b)
    ensures NoCr(a + b)
  {
  }

  lemma {:induction false} RowEnds(p: string, id: string)
    requires Word(p) && id != [] && id[|id| - 1] != '\r'
    ensures var k, l := SkinIdLine(id), SkinNameLine(p);
            k != [] && k[|k| - 1] != '\r' && l != [] && l[|l| - 1] != '\r'
  {
    WordIsClean(p);
    hide Word, Clean;
    var k, l := SkinIdLine(id), SkinNameLine(p);
    assert l[|l| - 1] == if '/' in p then '\'' else p[|p| - 1];
    assert k[|k| - 1] == id[|id| - 1];
  }

  lemma {:induction false} TrimIdEndFacts(s: string)
    ensures TrimIdEnd(s) != [] ==> IdChar(TrimIdEnd(s)[|TrimIdEnd(s)| - 1])
  {
    if s != [] && !IdChar(s[|s| - 1]) { TrimIdEndFacts(s[..|s| - 1]); }
  }

  lemma {:induction false} DecimalEnds(n: nat)
    ensures IdChar(Decimal(n)[|Decimal(n)| - 1])
  {
  }

  lemma {:induction false} SkinIdsCleanEnds(packages: seq<string>, used: set<string>)
    ensures CleanEnds(SkinIds(packages, used))
  {
    if packages != [] {
      var base := SkinId(packages[0]);
      var core := TrimIdEnd(TrimIdStart(StripDsh(AfterLastSlash(packages[0]))));
      TrimIdEndFacts(TrimIdStart(StripDsh(AfterLastSlash(packages[0]))));
      assert base != [] && IdChar(base[|base| - 1]) by {
        if core == [] { assert base == SKIN_PREFIX; assert base[|base| - 1] == '-'; }
      }
      var n := FreeIndex(base, used, 1);
      DecimalEnds(n);
      var id := Fresh(base, used);
      assert IdChar(id[|id| - 1]);
      SkinIdsCleanEnds(packages[1..], used + {id});
    }
  }

  /** The packages mounted by the lines in front of a block, whatever they are. */
  function NamesBefore(P: seq<string>): set<string> { NamesFrom(CutAll(P), None) }

  lemma {:induction false} BlockMounts(P: seq<string>, packages: seq<string>, ids: seq<string>)
    requires |packages| == |ids| && Words(packages) && CleanEnds(ids)
    ensures NamesFrom(RustLines(P + ([INSERT_LINE] + SkinRowLines(packages, ids) + [""])), None)
         == NamesBefore(P) + Elements(packages)
  {
    hide NameOn, ScopeAfter, SkinRowLines, CutAll;
    var rows := SkinRowLines(packages, ids);
    var B := [INSERT_LINE] + rows;
    RowsNoCr(packages, ids);
    assert NoCr(B) by { assert INSERT_LINE[|INSERT_LINE| - 1] == ':'; }
    CutAllNoCr(B);
    RustLinesConcat(B, [""]);
    RustLinesConcat(P, B + [""]);
    assert RustLines([""]) == [];
    assert RustLines(P + (B + [""])) == CutAll(P) + B;
    NamesConcat(CutAll(P), B, None);
    InsertLineScope(ScopeThrough(CutAll(P), None));
    assert B[1..] == rows;
    RowsMount(packages, ids);
  }

  lemma {:induction false} WordsSingleLines(packages: seq<string>)
    requires Words(packages)
    ensures SingleLines(packages)
  {
    forall i | 0 <= i < |packages| ensures NoNewline(packages[i]) {
      assert Word(packages[i]);
      WordIsClean(packages[i]);
    }
  }

  /** A placeholder, a comment or a blank line mounts nothing. */
  predicate Idle(l: string) {
    IsContent(l) ==> IsPlaceholder(l)
  }

  lemma {:induction false} NoNameOn(l: string, ins: Option<nat>)
    requires Idle(l)
    ensures NameOn(l, ins) == {}
  {
    if IsContent(l) { PlaceholderNames(l, ins); } else { BeforeHashHead(l); }
  }

  lemma {:induction false} PlaceholderNames(l: string, ins: Option<nat>)
    requires IsPlaceholder(l)
    ensures NameOn(l, ins) == {}
  {
    var b := BeforeHash(l);
    BeforeHashHead(l);
    TrimHead(l);
    TrimHead(b);
    if TrimStart(b) != [] {
      var t := TrimStart(b);
      assert t[0] == '[';
      assert StripDash(t) == t;
      TrimEmpty(t);
      TrimStartSplit(b);
      assert TrimStart(t) == t;
      if Trim(t) != [] { assert Trim(t)[0] == '[' by { TrimHead(t); } }
      assert NAME_KEY[0] == 'n';
    }
  }

  predicate AllIdle(L: seq<string>) {
    forall i :: 0 <= i < |L| ==> Idle(L[i])
  }

  lemma {:induction false} IdleCut(l: string)
    requires Idle(l) && l != [] && l[|l| - 1] == '\r'
    ensures Idle(l[..|l| - 1])
  {
    CutCr(l);
  }

  lemma {:induction false} IdleCuts(L: seq<string>, ins: Option<nat>)
    requires AllIdle(L)
    ensures NamesFrom(CutAll(L), ins) == {}
  {
    hide NameOn, ScopeAfter, Idle;
    if L != [] {
      var l := L[0];
      if l != [] && l[|l| - 1] == '\r' { IdleCut(l); }
      NoNameOn(CutAll(L)[0], ins);
      assert forall i :: 0 <= i < |L[1..]| ==> L[1..][i] == L[i + 1];
      IdleCuts(L[1..], ScopeAfter(CutAll(L)[0], ins));
      assert CutAll(L)[1..] == CutAll(L[1..]);
    }
  }

  lemma {:induction false} NoNames(L: seq<string>, ins: Option<nat>)
    requires L != [] && AllIdle(L)
    ensures NamesFrom(RustLines(L), ins) == {}
  {
    hide NameOn, ScopeAfter, Idle;
    var k := |L| - 1;
    var front, last := L[..k], [L[k]];
    assert L == front + last;
    RustLinesConcat(front, last);
    IdleCuts(front, ins);
    NamesConcat(CutAll(front), RustLines(last), ins);
    NoNameOn(L[k], ScopeThrough(CutAll(front), ins));
  }

  lemma {:induction false} RestoreLinesNoNames(L: seq<string>)
    requires L != [] && Content(L) == []
    ensures RestoreLines(L) != [] && NamesFrom(RustLines(L), None) == NamesFrom(RustLines(RestoreLines(L)), None)
  {
    hide IsContent, IsPlaceholder, RustLines, NamesFrom, RestoreLines;
    var R := RestoreLines(L);
    RestoredContent(L);
    PlaceholderSpelling();
    forall i | 0 <= i < |L| ensures Idle(L[i]) { ContentIndexNone(L, i); }
    forall i | 0 <= i < |R| ensures Idle(R[i]) { if IsContent(R[i]) { ContentIndex(R, i); } }
    NoNames(L, None);
    NoNames(R, None);
  }

  lemma {:induction false} RestoredContent(L: seq<string>)
    requires L != [] && Content(L) == []
    ensures Content(RestoreLines(L)) == ["[]"]
  {
    if HasCommentedPlaceholder(L) { ReviveContent(L); } else { AddPlaceholderContent(L); }
  }

  /** Restoring the placeholder mounts and unmounts nothing. */
  lemma {:induction false} RestoreKeepsNames(t: string)
    ensures InsertNames(RestorePlaceholder(t)) == InsertNames(t)
  {
    hide IsContent, RustLines, NamesFrom, RestorePlaceholder, Content;
    if Content(Split(t)) == [] {
      RestorePlaceholderLines(t);
      RestoreLinesNoNames(Split(t));
    } else {
      ContentStays(t);
    }
  }

  /** A `\r` at the end changes nothing of what a line says. */
  lemma {:induction false} TrimReturn(s: string)
    ensures Trim(s + "\r") == Trim(s)
  {
    assert s + "\r" == [] + s + "\r";
    TrimAround([], s, "\r");
  }

  lemma {:induction false} IndentAppend(m: string, b: string)
    requires !AllSpace(m)
    ensures Indent(m + b) == Indent(m)
  {
    assert m == [m[0]] + m[1..];
    if IsSpace(m[0]) {
      assert (m + b)[1..] == m[1..] + b;
      IndentAppend(m[1..], b);
    }
  }

  lemma {:induction false} BeforeHashReturn(m: string)
    ensures BeforeHash(m + "\r") == BeforeHash(m) || BeforeHash(m + "\r") == BeforeHash(m) + "\r"
  {
    if m != [] && m[0] != '#' {
      assert (m + "\r")[1..] == m[1..] + "\r";
      BeforeHashReturn(m[1..]);
    }
  }

  lemma {:induction false} NameOnReturn(m: string, ins: Option<nat>)
    ensures NameOn(m + "\r", ins) == NameOn(m, ins)
  {
    hide Trim, IsSpace, TrimStart, Indent;
    BeforeHashReturn(m);
    var b := BeforeHash(m);
    if BeforeHash(m + "\r") != b {
      TrimEmpty(b);
      TrimEmpty(b + "\r");
      ReturnIsSpace();
      if !AllSpace(b) {
        var t := TrimStart(b);
        TrimStartAppend(b, "\r");
        IndentAppend(b, "\r");
        assert StripDash(t + "\r") == StripDash(t) + "\r";
        TrimReturn(StripDash(t));
      }
    }
  }

  lemma ReturnIsSpace()
    ensures IsSpace('\r')
  {
  }

  /** The names on a file's lines, whether or not the last line's `\r` is cut with the others. */
  lemma {:induction false} CutNames(L: seq<string>)
    requires L != [] && L[|L| - 1] != ""
    ensures NamesFrom(CutAll(L), None) == NamesFrom(RustLines(L), None)
  {
    hide NameOn, ScopeAfter;
    var k := |L| - 1;
    var front, last := L[..k], [L[k]];
    assert L == front + last;
    RustLinesConcat(front, last);
    CutAllConcat(front, last);
    var ins := ScopeThrough(CutAll(front), None);
    NamesConcat(CutAll(front), RustLines(last), None);
    NamesConcat(CutAll(front), CutAll(last), None);
    var l := L[k];
    if l[|l| - 1] == '\r' {
      assert l == l[..|l| - 1] + "\r";
      NameOnReturn(l[..|l| - 1], ins);
    }
    OneName(l, ins);
    OneName(CutAll(last)[0], ins);
    assert CutAll(last) == [CutAll(last)[0]];
  }

  lemma OneName(l: string, ins: Option<nat>)
    ensures NamesFrom([l], ins) == NameOn(l, ins)
  {
    hide NameOn, ScopeAfter;
    assert |[l][1..]| == 0;
  }

  lemma {:induction false} CutAllConcat(A: seq<string>, B: seq<string>)
    ensures CutAll(A + B) == CutAll(A) + CutAll(B)
  {
    if A == [] {
      assert A + B == B;
    } else {
      assert (A + B)[1..] == A[1..] + B;
      CutAllConcat(A[1..], B);
    }
  }

  /** What a file mounts is what its lines mount once they are ready for a block behind them. */
  lemma {:induction false} NamesBeforeAre(S: seq<string>)
    requires S != []
    ensures NamesBefore(Before(S)) == NamesFrom(RustLines(S), None)
  {
    hide NamesFrom, RustLines, CutAll, IsContent, IsPlaceholder;
    if AllBlank(S) {
      AllBlankContent(S);
      forall i | 0 <= i < |S| ensures Idle(S[i]) { ContentIndexNone(S, i); }
      NoNames(S, None);
      IdleCuts([], None);
    } else if OnlyPlaceholder(S) {
      SoleIsIdle(S);
      NoNames(S, None);
      CommentOutContent(S);
      var P := Terminated(CommentOut(S));
      forall i | 0 <= i < |P| ensures Idle(P[i]) { ContentIndexNone(CommentOut(S), i); }
      IdleCuts(P, None);
    } else {
      TerminatedNames(S);
    }
  }

  lemma {:induction false} SoleIsIdle(S: seq<string>)
    requires OnlyPlaceholder(S)
    ensures AllIdle(S)
  {
    hide IsContent, IsPlaceholder;
    forall i | 0 <= i < |S| ensures Idle(S[i]) { if IsContent(S[i]) { ContentIndex(S, i); } }
  }

  lemma {:induction false} TerminatedNames(S: seq<string>)
    requires S != [] && !AllBlank(S)
    ensures NamesFrom(CutAll(Terminated(S)), None) == NamesFrom(RustLines(S), None)
  {
    hide NamesFrom, CutAll;
    var k := |S| - 1;
    var j :| 0 <= j < |S| && !AllSpace(S[j]);
    if S[k] == "" {
      assert j < k;
      assert S == S[..k] + [""];
      RustLinesConcat(S[..k], [""]);
      assert CutAll(S[..k]) + [] == CutAll(S[..k]);
    } else {
      CutNames(S);
    }
  }

  lemma {:induction false} SyncedNames(t: string, skins: seq<SkinPackage>)
    requires Words(Mounted(skins))
    ensures InsertNames(Step(t, SyncSkins(skins)))
         == InsertNames(Join(StripBlocks(Skin, Split(t)))) + Elements(Mounted(skins))
  {
    hide Step, StripBlocks, Before, RustLines, NamesFrom;
    if Mounted(skins) == [] {
      NoSkinsStep(t, skins);
      RestoreKeepsNames(Join(StripBlocks(Skin, Split(t))));
    } else {
      StripBlocksNewlineFree(Skin, Split(t));
      SplitOfJoin(StripBlocks(Skin, Split(t)));
      NamesBeforeAre(Stripped(Skin, t));
      PrintedIsParsed(t, skins);
    }
  }

  /** After a skin sync the launcher reads back exactly the packages of the enabled skins that are no bundles,
      besides whatever the rest of the file mounts: what is printed is what is parsed. */
  lemma {:induction false} SyncedSkinsReadBack(t: string, skins: seq<SkinPackage>, p: string)
    requires Words(Mounted(skins))
    ensures p in InsertNames(Step(t, SyncSkins(skins)))
       <==> p in InsertNames(Join(StripBlocks(Skin, Split(t))))
            || exists s :: s in skins && s.enabled && !s.hasBundle && s.package == p
  {
    hide Step, InsertNames;
    SyncedNames(t, skins);
    MountedIff(skins, p);
  }

  lemma NoSkinsStep(t: string, skins: seq<SkinPackage>)
    requires Mounted(skins) == []
    ensures Step(t, SyncSkins(skins)) == RestorePlaceholder(Join(StripBlocks(Skin, Split(t))))
  {
    hide RestorePlaceholder, StripBlocks;
    assert SkinBlockRows([]) == [];
  }

  lemma {:induction false} PrintedIsParsed(t: string, skins: seq<SkinPackage>)
    requires Words(Mounted(skins)) && Mounted(skins) != []
    ensures InsertNames(Step(t, SyncSkins(skins)))
         == NamesBefore(Before(Stripped(Skin, t))) + Elements(Mounted(skins))
  {
    var packages := Mounted(skins);
    WordsSingleLines(packages);
    SkinBlockRowsFacts(packages);
    assert SkinBlockRows(packages) != [];
    assert Step(t, SyncSkins(skins)) == SyncText(Skin, t, SkinBlockRows(packages));
    SyncLines(Skin, t, SkinBlockRows(packages));
    SkinIdsCleanEnds(packages, {});
    BlockMounts(Before(Stripped(Skin, t)), packages, SkinIds(packages, {}));
  }
}
