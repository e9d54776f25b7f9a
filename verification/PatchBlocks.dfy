/** The blocks the launcher writes into a patch file: toggle rows, the MCP
    insert block and the skin insert block, and how each reads back. */
module PatchBlocks {
  import opened Basics
  import opened TextLines
  import opened PatchLines
  import opened PatchText
  import opened PatchDoc

  /** Each line followed by a line feed. */
  function Unlines(ls: seq<string>): string {
    if ls == [] then "" else ls[0] + "\n" + Unlines(ls[1..])
  }

  lemma {:induction false} SplitUnlines(ls: seq<string>)
    requires NewlineFree(ls)
    ensures Split(Unlines(ls)) == ls + [""]
  {
    if ls == [] {
      assert Split("") == [""];
    } else {
      NewlineFreeParts(ls);
      SplitUnlines(ls[1..]);
      SplitLineThen(ls[0], Unlines(ls[1..]));
    }
  }

  lemma {:induction false} UnlinesConcat(a: seq<string>, b: seq<string>)
    ensures Unlines(a + b) == Unlines(a) + Unlines(b)
  {
    if a == [] {
      assert a + b == b;
    } else {
      assert (a + b)[1..] == a[1..] + b;
      UnlinesConcat(a[1..], b);
    }
  }

  // ----- words: what a scalar can be read back as -----

  /** A non-empty run free of whitespace, quotes and hashes. */
  predicate Word(w: string) {
    w != [] && forall c :: c in w ==> !IsSpace(c) && !IsQuote(c) && c != '#'
  }

  /** `is_valid_row_id` */
  predicate ValidRowId(id: string) {
    id != [] && forall c :: c in id ==> IsAlnum(c) || c == '.' || c == '_' || c == '-'
  }

  lemma {:induction false} ValidRowIdIsWord(id: string)
    requires ValidRowId(id)
    ensures Word(id) && NoNewline(id)
  {
  }

  lemma {:induction false} TrimTight(s: string)
    requires s != [] && !IsSpace(s[0]) && !IsSpace(s[|s| - 1])
    ensures Trim(s) == s && Trim(" " + s) == s
  {
    assert (" " + s)[1..] == s;
  }

  lemma {:induction false} CommentedSpelling()
    ensures IsCommentedPlaceholder("# []") && IsCommentedPlaceholder("[]") && !IsPlaceholder("# []")
  {
    var l := "# []";
    TrimTight(l);
    TrimTight("[]");
    assert l[1..] == " []" && " []" == " " + "[]";
    assert TrimStartChar(l, '#') == " []";
    assert TrimStartChar("[]", '#') == "[]";
  }

  /** The placeholder itself passes for a commented-out one. */
  lemma {:induction false} PlaceholderIsCommented(l: string)
    ensures IsPlaceholder(l) ==> IsCommentedPlaceholder(l)
  {
    if IsPlaceholder(l) { assert TrimStartChar(Trim(l), '#') == Trim(l); }
    TrimTight("[]");
    TrimTight("[ ]");
  }

  /** Text on one line with no comment in it. */
  predicate Clean(s: string) {
    forall c :: c in s ==> c != '\n' && c != '\r' && c != '#'
  }

  predicate Tight(s: string) {
    s != [] && !IsSpace(s[0]) && !IsSpace(s[|s| - 1])
  }

  lemma CleanConcat(a: string, b: string)
    requires Clean(a) && Clean(b)
    ensures Clean(a + b)
  {
  }

  lemma {:induction false} CleanLine(l: string)
    requires Clean(l)
    ensures BeforeHash(l) == l && TrimCr(l) == l && NoNewline(l)
  {
    BeforeHashPrefix(l);
    if l != [] { assert l[|l| - 1] in l; }
  }

  /** A padded `key value` line, taken apart. */
  lemma {:induction false} KeyValue(pad: string, key: string, v: string)
    requires AllSpace(pad) && key != [] && !IsSpace(key[0]) && Tight(v)
    requires Clean(pad) && Clean(key) && Clean(v)
    ensures var l, t := pad + (key + " " + v), key + " " + v;
            && Clean(l) && BeforeHash(l) == l && TrimCr(l) == l
            && Trim(l) == t && Trim(t) == t && TrimStart(l) == t && t[0] == key[0]
            && After(t, key) == Some(" " + v) && Trim(" " + v) == v
  {
    var l, t := pad + (key + " " + v), key + " " + v;
    CleanConcat(key, " ");
    CleanConcat(key + " ", v);
    CleanConcat(pad, t);
    CleanLine(l);
    assert t[|t| - 1] == v[|v| - 1] && t[0] == key[0];
    TrimTight(t);
    TrimStartOfSpaces(pad, t);
    assert t[|key|..] == " " + v;
    TrimTight(v);
  }

  lemma {:induction false} ScalarOfWord(w: string, tail: string)
    requires forall c :: c in w ==> !IsSpace(c) && !IsQuote(c)
    requires tail == [] || IsSpace(tail[0]) || IsQuote(tail[0])
    ensures Scalar(w + tail) == w
  {
    if w == [] {
      assert w + tail == tail;
    } else {
      assert w[0] in w;
      assert (w + tail)[1..] == w[1..] + tail;
      ScalarOfWord(w[1..], tail);
    }
  }

  lemma {:induction false} WordEnds(w: string)
    requires Word(w)
    ensures !IsSpace(w[0]) && !IsSpace(w[|w| - 1]) && !IsQuote(w[0])
    ensures BeforeHash(w) == w && Scalar(TrimQuotes(w)) == w
  {
    assert w[0] in w && w[|w| - 1] in w;
    BeforeHashPrefix(w);
    ScalarOfWord(w, []);
    assert w + [] == w;
  }

  /** `- id: w` and `name: w` read back as `w`. */
  lemma {:induction false} ParseWord(line: string, key: string, w: string)
    requires Word(w) && key != [] && !IsSpace(key[0])
    requires Trim(StripDash(line)) == key + " " + w
    ensures ParseField(line, key) == Some(w)
  {
    WordEnds(w);
    TrimTight(w);
    assert (key + " " + w)[|key|..] == " " + w;
  }

  // ----- toggle rows -----

  function RowLine(id: string): string { "- id: " + id }

  function BoolText(b: bool): string { if b then "true" else "false" }

  function FlagLine(disabled: bool): string {
    "  " + (FLAG_KEY + " " + BoolText(disabled))
  }

  /** `row_block` */
  function RowBlock(id: string, disabled: bool): string {
    RowLine(id) + "\n" + FlagLine(disabled) + "\n"
  }

  function RowEntry(id: string, disabled: bool): seq<string> { [RowLine(id), FlagLine(disabled)] }

  lemma {:induction false} FlagText(b: bool)
    ensures Tight(BoolText(b)) && Clean(BoolText(b)) && Clean(FLAG_KEY) && AllSpace("  ") && Clean("  ")
  {
  }

  lemma {:induction false} RowBlockLines(id: string, disabled: bool)
    requires ValidRowId(id)
    ensures Split(RowBlock(id, disabled)) == RowEntry(id, disabled) + [""]
    ensures NewlineFree(RowEntry(id, disabled))
  {
    ValidRowIdIsWord(id);
    FlagText(disabled);
    KeyValue("  ", FLAG_KEY, BoolText(disabled));
    SplitLineThen(RowLine(id), FlagLine(disabled) + "\n");
    SplitLineThen(FlagLine(disabled), "");
    assert FlagLine(disabled) + "\n" == FlagLine(disabled) + "\n" + "";
    assert Split("") == [""];
    ConcatAssoc(RowLine(id) + "\n", FlagLine(disabled), "\n");
  }

  lemma {:induction false} RowLineShape(id: string)
    requires Clean(id)
    ensures StripDash(RowLine(id)) == " " + (ID_KEY + " " + id) && ROW_HEAD <= RowLine(id)
    ensures TrimCr(RowLine(id)) == RowLine(id) && BeforeHash(RowLine(id)) == RowLine(id)
  {
    hide Clean, TrimCr, BeforeHash;
    CleanHead();
    CleanConcat("- id: ", id);
    CleanLine(RowLine(id));
    assert "- id: " == "-" + (" " + (ID_KEY + " "));
  }

  lemma CleanHead()
    ensures Clean("- id: ")
  {
  }

  lemma {:induction false} RowLineReads(id: string)
    requires ValidRowId(id)
    ensures RawRow(RowLine(id)) == Some(id) && ReadRow(RowLine(id)) == Some(id)
  {
    ValidRowIdIsWord(id);
    WordEnds(id);
    var l := RowLine(id);
    KeyValue(" ", ID_KEY, id);
    RowLineShape(id);
    ParseWord(l, ID_KEY, id);
  }

  lemma {:induction false} FlagLineReads(disabled: bool)
    ensures Flag(FlagLine(disabled)) == Some(disabled)
    ensures BeforeHash(FlagLine(disabled)) == FlagLine(disabled)
    ensures !Breaks(FlagLine(disabled)) && IsContent(FlagLine(disabled))
  {
    FlagText(disabled);
    KeyValue("  ", FLAG_KEY, BoolText(disabled));
    TrimCrHead(FlagLine(disabled));
  }

  /** A toggle block is one entry, and it reads back as the toggle it states. */
  lemma {:induction false} RowBlockRefines(id: string, disabled: bool)
    requires ValidRowId(id)
    ensures var B := RowEntry(id, disabled) + [""];
            && Plain(B) && Breaks(B[0])
            && Entries(B) == [RowEntry(id, disabled)]
    ensures ToggleOf(RowEntry(id, disabled)) == Some((id, disabled))
  {
    hide RowLine, FlagLine, RawRow, ReadRow, RawFlag, ReadFlag, Breaks, IsContent, IsEntryHead, BeforeHash;
    var B := RowEntry(id, disabled) + [""];
    RowLineReads(id);
    FlagLineReads(disabled);
    RowHead(B[0]);
    EntryHeadFacts(B[0]);
    EmptyLine();
    assert B[1..] == [FlagLine(disabled), ""];
    assert IsChunk(B);
    assert Content(B) == RowEntry(id, disabled) by {
      ContentOfChunk(B);
      assert B[1..][1..] == [""];
    }
    assert B + [] == B;
    ConsChunk(B, []);
  }

  // ----- insert blocks -----

  const INSERT_LINE := "- insert:"

  predicate Indented(ls: seq<string>) {
    forall i :: 0 <= i < |ls| ==> ls[i] != [] && ls[i][0] == ' '
  }

  function InsertEntry(rows: seq<string>): seq<string> { [INSERT_LINE] + Content(rows) }

  lemma {:induction false} InsertLineFacts()
    ensures RawRow(INSERT_LINE).None? && ReadRow(INSERT_LINE).None?
    ensures IsInsertHead(INSERT_LINE) && IsEntryHead(INSERT_LINE)
  {
    hide ParseField, BeforeHash;
    BeforeHashPrefix(INSERT_LINE);
    assert TrimCr(INSERT_LINE) == INSERT_LINE;
    assert INSERT_LINE[2] == 'i' && INSERT_LINE[3] == 'n' && ROW_HEAD[3] == 'd';
  }

  /** An insert head is never a toggle row. */
  lemma {:induction false} InsertHeadIsNoRow(l: string)
    requires IsInsertHead(l)
    ensures RawRow(l).None?
  {
    assert INSERT_HEAD[3] == 'n' && ROW_HEAD[3] == 'd';
  }

  lemma {:induction false} HeadedContent(h: string, rows: seq<string>)
    requires IsContent(h)
    ensures Content([h] + rows + [""]) == [h] + Content(rows)
  {
    var B := [h] + rows + [""];
    assert B[1..] == rows + [""];
    ContentConcat(rows, [""]);
    assert Content([""]) == [];
    ContentOfChunk(B);
  }

  lemma IndentedInner(rows: seq<string>)
    requires Indented(rows)
    ensures Inner(rows + [""])
  {
    forall i | 0 <= i < |rows| ensures !Breaks(rows[i]) { TrimCrHead(rows[i]); }
    assert !Breaks("");
  }

  /** An insert block is one entry made of its content lines. */
  lemma {:induction false} InsertBlockRefines(rows: seq<string>)
    requires Indented(rows)
    ensures var B := [INSERT_LINE] + rows + [""];
            && Plain(B) && Breaks(B[0])
            && Entries(B) == [InsertEntry(rows)]
  {
    hide Breaks, RawRow, ReadRow, IsContent, IsEntryHead, BeforeHash, Indented;
    var B := [INSERT_LINE] + rows + [""];
    InsertLineFacts();
    EntryHeadFacts(INSERT_LINE);
    assert B[1..] == rows + [""];
    IndentedInner(rows);
    HeadedContent(INSERT_LINE, rows);
    assert B[0] == INSERT_LINE && IsChunk(B) && RowOk(B);
    assert B + [] == B;
    ConsChunk(B, []);
  }

  lemma {:induction false} InsertEntryFacts(rows: seq<string>)
    ensures forall o :: IsOwned(o, InsertEntry(rows)) <==> Owns(o, rows)
    ensures ToggleOf(InsertEntry(rows)).None?
  {
    InsertLineFacts();
    assert InsertEntry(rows)[1..] == Content(rows);
    forall o ensures IsOwned(o, InsertEntry(rows)) <==> Owns(o, rows) {
      OwnsContentLines(o, rows);
    }
  }

  // ----- the MCP block -----

  /** A manifest record: `config` is its serialized YAML, `None` when that fails. */
  datatype McpRecord = McpRecord(serverName: string, config: Option<string>, enabled: bool)

  function IndentBy(pad: string, ls: seq<string>): seq<string> {
    if ls == [] then [] else [pad + ls[0]] + IndentBy(pad, ls[1..])
  }

  function McpNameLine(): string { "      " + (NAME_KEY + " " + Quoted(MCP_CLIENT)) }

  function Quoted(s: string): string { "'" + s + "'" }

  /** The lines of `mcp_insert_row`. */
  function McpRow(r: McpRecord): seq<string>
    requires r.config.Some?
  {
    ["    - id: mcp-" + r.serverName, McpNameLine(), "      config:"]
    + IndentBy("        ", RustLines(Split(r.config.value)))
  }

  function EnabledRecords(rs: seq<McpRecord>): seq<McpRecord> {
    if rs == [] then [] else (if rs[0].enabled then [rs[0]] else []) + EnabledRecords(rs[1..])
  }

  predicate AllSerialized(rs: seq<McpRecord>) {
    forall i :: 0 <= i < |rs| ==> rs[i].config.Some?
  }

  function McpRows(rs: seq<McpRecord>): seq<string>
    requires AllSerialized(rs)
  {
    if rs == [] then [] else McpRow(rs[0]) + McpRows(rs[1..])
  }

  lemma {:induction false} McpRowsConcat(a: seq<McpRecord>, b: seq<McpRecord>)
    requires AllSerialized(a) && AllSerialized(b)
    ensures AllSerialized(a + b) && McpRows(a + b) == McpRows(a) + McpRows(b)
  {
    if a == [] {
      assert a + b == b;
    } else {
      assert forall i :: 0 <= i < |a[1..]| ==> a[1..][i] == a[i + 1];
      assert (a + b)[1..] == a[1..] + b;
      McpRowsConcat(a[1..], b);
      ConcatAssoc(McpRow(a[0]), McpRows(a[1..]), McpRows(b));
    }
  }

  /** Server names are written on one line. */
  predicate SingleLine(rs: seq<McpRecord>) {
    forall i :: 0 <= i < |rs| ==> NoNewline(rs[i].serverName)
  }

  lemma {:induction false} EnabledSingleLine(rs: seq<McpRecord>)
    requires SingleLine(rs)
    ensures SingleLine(EnabledRecords(rs))
  {
    if rs != [] {
      assert forall i :: 0 <= i < |rs[1..]| ==> rs[1..][i] == rs[i + 1];
      EnabledSingleLine(rs[1..]);
    }
  }

  lemma {:induction false} RustLinesNewlineFree(L: seq<string>)
    requires L != [] && NewlineFree(L)
    ensures NewlineFree(RustLines(L))
  {
    NewlineFreeParts(L);
    if |L| > 1 { RustLinesNewlineFree(L[1..]); }
  }

  lemma {:induction false} IndentByFacts(pad: string, ls: seq<string>)
    requires NewlineFree(ls) && NoNewline(pad) && pad != [] && pad[0] == ' '
    ensures NewlineFree(IndentBy(pad, ls)) && Indented(IndentBy(pad, ls))
  {
    if ls != [] {
      NewlineFreeParts(ls);
      IndentByFacts(pad, ls[1..]);
    }
  }

  lemma {:induction false} McpRowFacts(r: McpRecord)
    requires r.config.Some? && NoNewline(r.serverName)
    ensures NewlineFree(McpRow(r)) && Indented(McpRow(r))
    ensures Owns(Mcp, McpRow(r))
  {
    var cfg := Split(r.config.value);
    RustLinesNewlineFree(cfg);
    IndentByFacts("        ", RustLines(cfg));
    McpNameLineOwns();
    McpHead(r);
    var a, b := McpRow(r)[..3], IndentBy("        ", RustLines(cfg));
    assert McpRow(r) == a + b;
    assert McpRow(r)[1] == McpNameLine();
  }

  lemma McpLiterals(name: string)
    requires NoNewline(name)
    ensures NoNewline("    - id: mcp-" + name) && ("    - id: mcp-" + name)[0] == ' '
    ensures NoNewline("      config:") && "      config:"[0] == ' '
    ensures McpNameLine() != [] && McpNameLine()[0] == ' '
  {
    assert NoNewline("    - id: mcp-");
  }

  lemma {:induction false} McpHead(r: McpRecord)
    requires r.config.Some? && NoNewline(r.serverName)
    ensures NewlineFree(McpRow(r)[..3]) && Indented(McpRow(r)[..3])
  {
    hide RustLines, Split, IndentBy, McpNameLine, NewlineFree, Indented;
    McpNameLineOwns();
    McpLiterals(r.serverName);
    assert McpRow(r)[..3] == ["    - id: mcp-" + r.serverName, McpNameLine(), "      config:"];
    ThreeLines("    - id: mcp-" + r.serverName, McpNameLine(), "      config:");
  }

  lemma ThreeLines(a: string, b: string, c: string)
    requires forall l :: l in {a, b, c} ==> NoNewline(l) && l != [] && l[0] == ' '
    ensures NewlineFree([a, b, c]) && Indented([a, b, c])
  {
    assert forall i :: 0 <= i < 3 ==> [a, b, c][i] in {a, b, c};
  }

  lemma {:induction false} OwnsConcat(o: Owner, a: seq<string>, b: seq<string>)
    ensures Owns(o, a + b) <==> Owns(o, a) || Owns(o, b)
  {
    if Owns(o, a) {
      var k :| 0 <= k < |a| && OwnsLine(o, a[k]);
      assert (a + b)[k] == a[k];
    }
    if Owns(o, b) {
      var k :| 0 <= k < |b| && OwnsLine(o, b[k]);
      assert (a + b)[|a| + k] == b[k];
    }
  }

  /** The compiled MCP rows are indented lines, and they mark their block as owned. */
  lemma {:induction false} McpRowsFacts(rs: seq<McpRecord>)
    requires AllSerialized(rs) && SingleLine(rs)
    ensures NewlineFree(McpRows(rs)) && Indented(McpRows(rs))
    ensures rs != [] ==> Owns(Mcp, McpRows(rs))
  {
    if rs != [] {
      assert forall i :: 0 <= i < |rs[1..]| ==> rs[1..][i] == rs[i + 1];
      McpRowsFacts(rs[1..]);
      McpRowFacts(rs[0]);
      OwnsConcat(Mcp, McpRow(rs[0]), McpRows(rs[1..]));
    }
  }

  lemma {:induction false} ClientName()
    ensures Clean(MCP_CLIENT) && MCP_CLIENT != [] && !IsQuote(MCP_CLIENT[0]) && !IsQuote(MCP_CLIENT[|MCP_CLIENT| - 1])
    ensures Clean(NAME_KEY) && NAME_KEY[0] == 'n' && Clean("      ") && AllSpace("      ")
  {
  }

  lemma {:induction false} McpNameLineOwns()
    ensures OwnsLine(Mcp, McpNameLine()) && NoNewline(McpNameLine())
  {
    hide Trim, BeforeHash, TrimCr, After, TrimQuotes, TrimEndQuotes, Quoted;
    ClientName();
    QuotedReads(MCP_CLIENT);
    KeyValue("      ", NAME_KEY, Quoted(MCP_CLIENT));
  }

  lemma {:induction false} QuotedReads(s: string)
    requires s != [] && !IsQuote(s[0]) && !IsQuote(s[|s| - 1])
    ensures TrimEndQuotes(TrimQuotes(Quoted(s))) == s
    ensures Tight(Quoted(s)) && (Clean(s) ==> Clean(Quoted(s)))
  {
    var q := Quoted(s);
    assert q[1..] == s + "'";
    assert TrimQuotes(q) == s + "'";
    assert (s + "'")[..|s|] == s;
  }
}
