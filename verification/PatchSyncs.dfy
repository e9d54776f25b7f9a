/** What a sync does to a file of any shape: the toggles read afterwards, when the
    file can still be edited, and whose blocks are taken for the launcher's. */
module PatchSyncs {
  import opened Basics
  import opened TextLines
  import opened PatchLines
  import opened PatchText
  import opened PatchDoc
  import opened PatchBlocks
  import opened SkinRows
  import opened PatchOps
  import opened PatchTheorems
  import opened PatchLimits

  // ----- the toggles read after a sync -----

  /** An insert block at the front with a line that marks it as the launcher's. */
  predicate OwnedBlock(o: Owner, L: seq<string>) {
    L != [] && IsInsertHead(L[0]) && Owns(o, L[1..BlockEnd(L)])
  }

  /** What stands behind the blocks removed at the front. */
  function BehindBlocks(o: Owner, L: seq<string>): (r: seq<string>)
    ensures |r| <= |L|
    decreases |L|
  {
    if OwnedBlock(o, L) then BehindBlocks(o, L[BlockEnd(L)..]) else L
  }

  /** The toggles that come about when the blocks between two kept lines go. */
  function FormedAcrossBlocks(o: Owner, L: seq<string>): set<(string, bool)>
    decreases |L|
  {
    if L == [] then {}
    else if OwnedBlock(o, L) then FormedAcrossBlocks(o, L[BlockEnd(L)..])
    else
      (var next := BehindBlocks(o, L[1..]);
       if OwnedBlock(o, L[1..]) && next != [] && PairRead(L[0], next[0]).Some?
       then {PairRead(L[0], next[0]).value}
       else {})
      + FormedAcrossBlocks(o, L[1..])
  }

  lemma {:induction false} FirstKeptLine(o: Owner, L: seq<string>)
    ensures var R, next := StripBlocks(o, L), BehindBlocks(o, L);
            (R == [] <==> next == []) && (R != [] ==> R[0] == next[0])
    decreases |L|
  {
    if OwnedBlock(o, L) { FirstKeptLine(o, L[BlockEnd(L)..]); }
  }

  /** An insert head and the lines under it state no toggle. */
  lemma {:induction false} BlockStatesNone(L: seq<string>)
    requires L != [] && IsInsertHead(L[0])
    ensures ReadPairs(L) == ReadPairs(L[BlockEnd(L)..]) && !HasFlag(L[0])
  {
    hide Breaks, RawRow, RawFlag, ReadRow, ReadFlag;
    FirstChunk(L);
    var n := BlockEnd(L);
    var c, R := L[..n], L[n..];
    HeadIsNoRow(L[0]);
    ReadSkips(c[1..], R);
    assert L[1..] == c[1..] + R;
    if |L| >= 2 { ReadPairsStep(L); } else { assert R == []; }
  }

  lemma {:induction false} HeadIsNoRow(l: string)
    requires IsInsertHead(l)
    ensures ReadRow(l).None? && !HasFlag(l)
  {
    RowHead(l);
    FlagFacts(l);
    BeforeHashPrefix(l);
    TrimCrHead(l);
    TrimCrHead(BeforeHash(l));
    assert INSERT_HEAD[3] == 'n' && ROW_HEAD[3] == 'd';
    assert l[3] == 'n';
    assert ReadRow(l).Some? ==> ROW_HEAD <= l;
  }

  /** On any file, stripping blocks keeps every toggle; it adds those that come about where blocks are taken
      out. */
  lemma {:induction false} StripReads(o: Owner, L: seq<string>)
    ensures ReadPairs(StripBlocks(o, L)) == ReadPairs(L) + FormedAcrossBlocks(o, L)
    decreases |L|
  {
    hide PairRead, IsInsertHead, Owns, RawRow, RawFlag;
    if L != [] {
      if OwnedBlock(o, L) {
        BlockStatesNone(L);
        StripReads(o, L[BlockEnd(L)..]);
      } else {
        var R := StripBlocks(o, L[1..]);
        StripReads(o, L[1..]);
        KeptLine(o, L);
        assert ([L[0]] + R)[1..] == R;
      }
    }
  }

  lemma {:induction false} KeptLine(o: Owner, L: seq<string>)
    requires L != [] && !OwnedBlock(o, L)
    ensures var R := StripBlocks(o, L[1..]);
            ReadPairs([L[0]] + R) + ReadPairs(L[1..]) + FormedAcrossBlocks(o, L[1..])
            == ReadPairs(L) + FormedAcrossBlocks(o, L) + ReadPairs(R)
  {
    hide OwnedBlock, PairRead, HasFlag, StripBlocks, ReadPairs;
    var M, R := L[1..], StripBlocks(o, L[1..]);
    FirstKeptLine(o, M);
    HeadOf(L[0], R);
    assert L == [L[0]] + M;
    HeadOf(L[0], M);
    if OwnedBlock(o, M) { OwnedHeadsNone(o, L[0], M); }
  }

  lemma OwnedHeadsNone(o: Owner, head: string, M: seq<string>)
    requires OwnedBlock(o, M)
    ensures PairRead(head, M[0]).None?
  {
    hide Owns;
    BlockStatesNone(M);
  }

  lemma HeadOf(l: string, R: seq<string>)
    ensures ReadPairs([l] + R)
         == (if R != [] && PairRead(l, R[0]).Some? then {PairRead(l, R[0]).value} else {}) + ReadPairs(R)
  {
    var all := [l] + R;
    assert all[1..] == R;
    if R != [] { ReadPairsStep(all); }
  }

  lemma {:induction false} InsertBlockReads(rows: seq<string>)
    requires NewlineFree(rows) && Indented(rows)
    ensures var B := Split(Unlines([INSERT_LINE] + rows));
            !HasFlag(B[0]) && ReadPairs(B) == {}
  {
    assert NoNewline(INSERT_LINE);
    hide Split, Unlines, NoNewline, ReadPairs, HasFlag, Indented;
    NewlineFreeConcat([INSERT_LINE], rows);
    SplitUnlines([INSERT_LINE] + rows);
    InsertLinesRead(rows);
  }

  lemma {:induction false} InsertLinesRead(rows: seq<string>)
    requires Indented(rows)
    ensures var B := [INSERT_LINE] + rows + [""];
            !HasFlag(B[0]) && ReadPairs(B) == {}
  {
    hide Breaks, IsInsertHead, Indented, HasFlag;
    var B := [INSERT_LINE] + rows + [""];
    InsertLineFacts();
    IndentedInner(rows);
    EmptyLine();
    TailOf(INSERT_LINE, rows + [""]);
    ConcatAssoc([INSERT_LINE], rows, [""]);
    WholeBlock(B);
    BlockStatesNone(B);
  }

  lemma TailOf<T>(x: T, a: seq<T>)
    ensures ([x] + a)[1..] == a
  {
  }

  lemma {:induction false} WholeBlock(B: seq<string>)
    requires B != [] && Inner(B[1..])
    ensures B[BlockEnd(B)..] == []
  {
    hide Breaks;
    assert B[1..] + [] == B[1..];
    BodyLenConcat(B[1..], []);
  }

  /** On any file, a sync loses no toggle; it adds exactly those that come about where blocks are taken out. */
  lemma {:induction false} SyncReads(o: Owner, t: string, rows: seq<string>)
    requires NewlineFree(rows) && Indented(rows)
    ensures ReadPairs(Split(SyncText(o, t, rows))) == ReadPairs(Split(t)) + FormedAcrossBlocks(o, Split(t))
  {
    hide ReadPairs, FormedAcrossBlocks;
    var L := Split(t);
    var s := Join(StripBlocks(o, L));
    StripBlocksNewlineFree(o, L);
    SplitOfJoin(StripBlocks(o, L));
    StripReads(o, L);
    NothingToRead();
    if rows == [] {
      RestoreReads(s);
    } else {
      InsertBlockReads(rows);
      AppendReads(s, Unlines([INSERT_LINE] + rows));
    }
  }

  lemma NothingToRead()
    ensures ReadPairs([]) == {} && ReadPairs([""]) == {}
  {
  }

  // ----- when the file can still be edited after a sync -----

  /** Chunk by chunk, what a sync does not remove can be edited. */
  predicate KeptOk(o: Owner, L: seq<string>)
    decreases |L|
  {
    L == [] || ((OwnedBlock(o, L) || ChunkOk(L[..BlockEnd(L)])) && KeptOk(o, L[BlockEnd(L)..]))
  }

  /** The content lines of the chunks a sync does not remove. */
  function KeptContent(o: Owner, L: seq<string>): seq<string>
    decreases |L|
  {
    if L == [] then []
    else (if OwnedBlock(o, L) then [] else Content(L[..BlockEnd(L)])) + KeptContent(o, L[BlockEnd(L)..])
  }

  lemma {:induction false} StripHead(o: Owner, R: seq<string>)
    requires R == [] || Breaks(R[0])
    ensures StripBlocks(o, R) == [] || Breaks(StripBlocks(o, R)[0])
    decreases |R|
  {
    if OwnedBlock(o, R) {
      FirstChunk(R);
      StripHead(o, R[BlockEnd(R)..]);
    }
  }

  /** Stripped chunk by chunk. */
  lemma {:induction false} StripOneChunk(o: Owner, L: seq<string>)
    requires L != []
    ensures var c, R := L[..BlockEnd(L)], L[BlockEnd(L)..];
            && IsChunk(c)
            && StripBlocks(o, L) == (if OwnedBlock(o, L) then [] else c) + StripBlocks(o, R)
            && (StripBlocks(o, R) == [] || Breaks(StripBlocks(o, R)[0]))
  {
    hide IsInsertHead, Owns, Breaks;
    FirstChunk(L);
    var n := BlockEnd(L);
    StripChunk(o, L[..n], L[n..]);
    StripHead(o, L[n..]);
    assert L[..n][1..] == L[1..n];
  }

  /** On any file, what stripping leaves can be edited exactly when every chunk it keeps can. */
  lemma {:induction false} StrippedPlainIff(o: Owner, L: seq<string>)
    ensures Plain(StripBlocks(o, L)) <==> KeptOk(o, L)
    ensures Content(StripBlocks(o, L)) == KeptContent(o, L)
    decreases |L|
  {
    hide OwnedBlock, ChunkOk, Breaks, IsContent, Content, Plain, StripBlocks;
    if L == [] {
      NothingStripped(o);
    } else {
      var c, R := L[..BlockEnd(L)], L[BlockEnd(L)..];
      var S := StripBlocks(o, R);
      StripOneChunk(o, L);
      StrippedPlainIff(o, R);
      if OwnedBlock(o, L) {
        assert [] + S == S && [] + KeptContent(o, R) == KeptContent(o, R);
      } else {
        ChunkThen(c, S);
        ContentConcat(c, S);
      }
    }
  }

  lemma NothingStripped(o: Owner)
    ensures StripBlocks(o, []) == [] && Plain([]) && Content([]) == []
  {
  }

  /** A chunk in front of a rest that starts at column 0. */
  lemma ChunkThen(c: seq<string>, S: seq<string>)
    requires IsChunk(c) && (S == [] || Breaks(S[0]))
    ensures Plain(c + S) <==> ChunkOk(c) && Plain(S)
  {
    hide ChunkOk, Breaks;
    BodyLenAtBreak(S);
    FrontOf(c, S);
    assert c + [] == c;
  }

  lemma BodyLenAtBreak(S: seq<string>)
    requires S == [] || Breaks(S[0])
    ensures BodyLen(S) == 0 && S[..0] == [] && S[0..] == S
  {
  }

  lemma {:induction false} PlainFront(A: seq<string>, B: seq<string>)
    requires Plain(A + B) && B != [] && Breaks(B[0])
    ensures Plain(A)
    decreases |A|
  {
    hide ChunkOk, Breaks;
    if A != [] {
      var n := BlockEnd(A);
      var c, R := A[..n], A[n..];
      FirstChunk(A);
      ConcatAssoc(c, R, B);
      var X := R + B;
      ChunkThen(c, X);
      PlainFront(R, B);
      ChunkThen(c, R);
    }
  }

  /** Appending an entry makes no file editable that was not. */
  lemma {:induction false} AppendReadableIff(A: seq<string>, B: seq<string>)
    requires A != [] && B != [] && Plain(B) && Breaks(B[0])
    ensures Readable(AppendLines(A, B)) <==> Readable(A)
  {
    hide Plain, Breaks, IsContent;
    if Readable(A) {
      AppendLinesRefines(A, B);
    } else {
      if Content(A) == [] { NoContentPlain(A); }
      if AllBlank(A) { AllBlankContent(A); }
      AppendUnreadable(A, B);
    }
  }

  lemma {:induction false} AppendUnreadable(A: seq<string>, B: seq<string>)
    requires A != [] && B != [] && Breaks(B[0]) && !Readable(A) && Content(A) != []
    ensures !Readable(Terminated(A) + B)
  {
    hide Content, IsPlaceholder, Plain, Breaks;
    var T := Terminated(A);
    EmptyLine();
    if T != A {
      assert A == T + [""];
      ContentConcat(T, [""]);
    }
    if Plain(T + B) {
      PlainFront(T, B);
      if T != A { PlainPad(T); }
    }
    ContentConcat(T, B);
  }

  predicate LonePlaceholder(content: seq<string>) { |content| == 1 && IsPlaceholder(content[0]) }

  lemma {:induction false} RestoreReadableIff(L: seq<string>)
    requires L != []
    ensures Readable(RestoreLines(L)) <==> Readable(L)
  {
    hide Plain, IsContent;
    if Content(L) == [] {
      NoContentPlain(L);
      RestoreLinesRefines(L);
    }
  }

  lemma AtLeastOneReadable(L: seq<string>)
    ensures Readable(AtLeastOne(L)) <==> Readable(L)
  {
    EmptyLine();
    NoContentPlain([""]);
  }

  /** On any file, the launcher can edit what a sync leaves exactly when it can edit every chunk the sync does
      not remove, or these hold nothing but the placeholder. */
  lemma {:induction false} SyncReadableIff(o: Owner, t: string, rows: seq<string>)
    requires NewlineFree(rows) && Indented(rows)
    ensures ReadableText(SyncText(o, t, rows)) <==> KeptOk(o, Split(t)) || LonePlaceholder(KeptContent(o, Split(t)))
  {
    hide Plain, StripBlocks, KeptOk, KeptContent, Content;
    var L := Split(t);
    var S, s := StripBlocks(o, L), Join(StripBlocks(o, L));
    StripBlocksNewlineFree(o, L);
    SplitOfJoin(S);
    StrippedPlainIff(o, L);
    AtLeastOneReadable(S);
    if rows == [] {
      RestorePlaceholderLines(s);
      RestoreReadableIff(AtLeastOne(S));
    } else {
      InsertBlockText(rows);
      AppendBlockLines(s, Unlines([INSERT_LINE] + rows));
      AppendReadableIff(AtLeastOne(S), Split(Unlines([INSERT_LINE] + rows)));
    }
  }

  // ----- a skin sync beside an MCP block -----

  lemma {:induction false} TrimCrPadded(pad: string, l: string)
    requires Clean(pad)
    ensures TrimCr(pad + l) == pad + TrimCr(l)
  {
    if l == [] {
      assert pad + l == pad;
      if pad != [] { assert pad[|pad| - 1] in pad; }
    } else if l[|l| - 1] == '\r' {
      assert (pad + l)[..|pad + l| - 1] == pad + l[..|l| - 1];
      TrimCrPadded(pad, l[..|l| - 1]);
    }
  }

  /** Indentation does not change who owns a line. */
  lemma {:induction false} OwnsPadded(o: Owner, pad: string, l: string)
    requires Clean(pad) && AllSpace(pad)
    ensures OwnsLine(o, pad + l) == OwnsLine(o, l)
  {
    TrimCrPadded(pad, l);
    BeforeHashAppend(pad, TrimCr(l));
    TrimStartOfSpaces(pad, BeforeHash(TrimCr(l)));
  }

  lemma {:induction false} OwnsIndented(o: Owner, pad: string, ls: seq<string>)
    requires Clean(pad) && AllSpace(pad)
    ensures Owns(o, IndentBy(pad, ls)) <==> Owns(o, ls)
  {
    if ls != [] {
      OwnsIndented(o, pad, ls[1..]);
      OwnsPadded(o, pad, ls[0]);
      OwnsConcat(o, [pad + ls[0]], IndentBy(pad, ls[1..]));
      OwnsConcat(o, [ls[0]], ls[1..]);
      assert ls == [ls[0]] + ls[1..];
      OwnsOne(o, pad + ls[0]);
      OwnsOne(o, ls[0]);
    }
  }

  lemma OwnsOne(o: Owner, l: string)
    ensures Owns(o, [l]) <==> OwnsLine(o, l)
  {
    assert [l][0] == l;
  }

  const MCP_ID := "mcp-"

  lemma {:induction false} McpIdLineIsNoSkin(name: string)
    ensures !OwnsLine(Skin, "    - id: mcp-" + name)
  {
    hide Trim, TrimStartChar, BeforeHash, TrimCr, TrimQuotes;
    McpIdFacts();
    var line := "    - id: mcp-" + name;
    assert line == "    " + ("- " + (ID_KEY + " " + MCP_ID) + name);
    IdLineKey(MCP_ID, name);
    IdValue(MCP_ID, Trim(TrimStartChar(Trim(BeforeHash(TrimCr(line))), '-')));
    assert SKIN_PREFIX[0] == 's' && MCP_ID[0] == 'm';
  }

  lemma McpIdFacts()
    ensures Tight(MCP_ID) && Clean(MCP_ID) && !IsQuote(MCP_ID[0])
  {
  }

  /** A line `key…` whose key is another than `id:` marks no skin block. */
  lemma {:induction false} OtherKeyIsNoSkin(pad: string, l: string)
    requires Clean(pad) && AllSpace(pad) && Clean(l) && Tight(l) && l[0] != 'i' && l[0] != '-'
    ensures !OwnsLine(Skin, pad + l)
  {
    OwnsPadded(Skin, pad, l);
    CleanLine(l);
    TrimTight(l);
    assert ID_KEY[0] == 'i';
  }

  lemma {:induction false} McpNameLineIsNoSkin()
    ensures !OwnsLine(Skin, McpNameLine()) && !OwnsLine(Skin, "      config:")
  {
    hide OwnsLine;
    ClientName();
    QuotedReads(MCP_CLIENT);
    KeyValue("      ", NAME_KEY, Quoted(MCP_CLIENT));
    OtherKeyIsNoSkin("      ", NAME_KEY + " " + Quoted(MCP_CLIENT));
    OtherKeyIsNoSkin("      ", "config:");
    assert "      " + "config:" == "      config:";
  }

  lemma {:induction false} McpRowOwnedBySkin(r: McpRecord)
    requires r.config.Some?
    ensures Owns(Skin, McpRow(r)) <==> Owns(Skin, RustLines(Split(r.config.value)))
  {
    hide OwnsLine, McpNameLine, RustLines, Split, IndentBy;
    var ls := RustLines(Split(r.config.value));
    var id := "    - id: mcp-" + r.serverName;
    McpIdLineIsNoSkin(r.serverName);
    McpNameLineIsNoSkin();
    OwnsIndented(Skin, "        ", ls);
    OwnsConcat(Skin, [id, McpNameLine(), "      config:"], IndentBy("        ", ls));
  }

  /** Some serialized config holds a line that reads as an `id:` in the skin namespace. */
  predicate MentionsSkinId(rs: seq<McpRecord>)
    requires AllSerialized(rs)
  {
    exists i :: 0 <= i < |rs| && Owns(Skin, RustLines(Split(rs[i].config.value)))
  }

  lemma {:induction false} McpRowsOwnedBySkin(rs: seq<McpRecord>)
    requires AllSerialized(rs)
    ensures Owns(Skin, McpRows(rs)) <==> MentionsSkinId(rs)
  {
    if rs != [] {
      assert forall i :: 0 <= i < |rs[1..]| ==> rs[1..][i] == rs[i + 1];
      McpRowsOwnedBySkin(rs[1..]);
      McpRowOwnedBySkin(rs[0]);
      OwnsConcat(Skin, McpRow(rs[0]), McpRows(rs[1..]));
      if MentionsSkinId(rs[1..]) {
        var i :| 0 <= i < |rs[1..]| && Owns(Skin, RustLines(Split(rs[1..][i].config.value)));
        assert Owns(Skin, RustLines(Split(rs[i + 1].config.value)));
      }
    }
  }

  /** The two syncs on the entry list. */
  lemma {:induction false} BothSyncs(es: seq<seq<string>>, mcp: seq<string>, skin: seq<string>)
    requires mcp != []
    ensures var rest := DropOwned(Skin, DropOwned(Mcp, es));
            AbsSync(Skin, AbsSync(Mcp, es, mcp), skin)
            == rest + (if Owns(Skin, mcp) then [] else [InsertEntry(mcp)]) + AbsSync(Skin, [], skin)
  {
    InsertEntryFacts(mcp);
    DropOwnedConcat(Skin, DropOwned(Mcp, es), [InsertEntry(mcp)]);
    assert DropOwned(Skin, [InsertEntry(mcp)]) == if Owns(Skin, mcp) then [] else [InsertEntry(mcp)];
    assert AbsSync(Skin, [], skin) == if skin == [] then [] else [InsertEntry(skin)];
  }

  /** A skin sync after an MCP sync keeps the MCP entry, and with it every other entry a skin sync of the
      file alone would keep, exactly when no enabled server's config holds an `id: skin-…` line. */
  lemma {:induction false} SkinSyncKeepsMcpIff(t: string, rs: seq<McpRecord>, skins: seq<SkinPackage>)
    requires ReadableText(t) && SingleLine(rs) && SingleLines(Mounted(skins))
    requires McpSyncRows(rs).Some? && EnabledRecords(rs) != []
    ensures var on := EnabledRecords(rs);
            var rest := DropOwned(Skin, DropOwned(Mcp, EntriesOf(t)));
            var block := AbsSync(Skin, [], SkinBlockRows(Mounted(skins)));
            var after := EntriesOf(Step(Step(t, SyncMcp(rs)), SyncSkins(skins)));
            && (after == rest + [InsertEntry(McpRows(on))] + block <==> !MentionsSkinId(on))
            && (after == rest + [] + block <==> MentionsSkinId(on))
  {
    hide AbsSync, DropOwned, InsertEntry, Owns, MentionsSkinId, SkinBlockRows, Step, EntriesOf, ReadableText;
    var on := EnabledRecords(rs);
    StepRefines(t, SyncMcp(rs));
    StepRefines(Step(t, SyncMcp(rs)), SyncSkins(skins));
    McpRowsOwnedBySkin(on);
    BothSyncs(EntriesOf(t), McpRows(on), SkinBlockRows(Mounted(skins)));
    var rest, block := DropOwned(Skin, DropOwned(Mcp, EntriesOf(t))), AbsSync(Skin, [], SkinBlockRows(Mounted(skins)));
    assert |rest + [InsertEntry(McpRows(on))] + block| == |rest + [] + block| + 1;
  }

  lemma {:induction false} ConfigLineOwns(x: string)
    ensures OwnsLine(Skin, ID_KEY + " " + SKIN_PREFIX + x)
  {
    hide Trim, BeforeHash, TrimCr, TrimQuotes;
    SkinPrefixFacts();
    var k := ID_KEY + " " + SKIN_PREFIX;
    CleanConcat(ID_KEY, " ");
    CleanConcat(ID_KEY + " ", SKIN_PREFIX);
    assert k[|k| - 1] == SKIN_PREFIX[|SKIN_PREFIX| - 1];
    var z := CutLine("", k, x);
    assert "" + (k + x) == k + x;
    assert TrimStartChar(k + z, '-') == k + z;
    TrimKeeps(k, z);
    IdValue(SKIN_PREFIX, Trim(k + z));
  }

  /** A config with a line `id: skin-…` somewhere, at whatever indentation, is such a config. */
  lemma {:induction false} SkinIdConfigIsOwned(a: string, pad: string, x: string, b: string)
    requires AllSpace(pad) && Clean(pad) && NoNewline(x)
    ensures Owns(Skin, RustLines(Split(a + "\n" + (pad + (ID_KEY + " " + SKIN_PREFIX + x)) + "\n" + b)))
  {
    hide OwnsLine, RustLines, Split, Clean, AllSpace;
    var line := pad + (ID_KEY + " " + SKIN_PREFIX + x);
    PaddedKeyIsLine(pad, x);
    ConfigLines(a, line, b);
    var cut := IdLineCut(pad, x);
    OwnsOne(Skin, cut);
    OwnsConcat(Skin, [cut], RustLines(Split(b)));
    OwnsConcat(Skin, CutAll(Split(a)), [cut] + RustLines(Split(b)));
  }

  lemma PaddedKeyIsLine(pad: string, x: string)
    requires Clean(pad) && NoNewline(x)
    ensures NoNewline(pad + (ID_KEY + " " + SKIN_PREFIX + x))
  {
    assert NoNewline(ID_KEY + " " + SKIN_PREFIX);
  }

  /** The lines of a text with a line in the middle. */
  lemma {:induction false} ConfigLines(a: string, l: string, b: string)
    requires NoNewline(l)
    ensures RustLines(Split(a + "\n" + l + "\n" + b)) == CutAll(Split(a)) + (CutAll([l]) + RustLines(Split(b)))
  {
    hide RustLines, CutAll, Split;
    SplitLineThen(l, b);
    SplitConcat(a, l + "\n" + b);
    assert a + "\n" + (l + "\n" + b) == a + "\n" + l + "\n" + b;
    RustLinesConcat([l], Split(b));
    RustLinesConcat(Split(a), [l] + Split(b));
  }

  /** The line as it is indented, its `\r` cut. */
  lemma {:induction false} IdLineCut(pad: string, x: string) returns (cut: string)
    requires AllSpace(pad) && Clean(pad)
    ensures CutAll([pad + (ID_KEY + " " + SKIN_PREFIX + x)]) == [cut] && OwnsLine(Skin, cut)
  {
    hide OwnsLine;
    var k := ID_KEY + " " + SKIN_PREFIX;
    var l := pad + (k + x);
    var y := if x != "" && x[|x| - 1] == '\r' then x[..|x| - 1] else x;
    assert k[|k| - 1] == '-';
    cut := pad + (k + y);
    assert l[|l| - 1] == if x == "" then '-' else x[|x| - 1];
    assert x != "" ==> l[..|l| - 1] == pad + (k + x[..|x| - 1]);
    assert CutAll([l]) == [cut] + CutAll([l][1..]);
    ConfigLineOwns(y);
    OwnsPadded(Skin, pad, k + y);
  }

  /** So one enabled server with such a config loses its whole MCP block to the next skin sync. */
  lemma {:induction false} SkinSyncDropsMcp(t: string, name: string, a: string, pad: string, x: string, b: string,
                                            skins: seq<SkinPackage>)
    requires ReadableText(t) && NoNewline(name) && NoNewline(x) && SingleLines(Mounted(skins))
    requires AllSpace(pad) && Clean(pad)
    ensures var config := a + "\n" + (pad + (ID_KEY + " " + SKIN_PREFIX + x)) + "\n" + b;
            var rs := [McpRecord(name, Some(config), true)];
            EntriesOf(Step(Step(t, SyncMcp(rs)), SyncSkins(skins)))
            == DropOwned(Skin, DropOwned(Mcp, EntriesOf(t))) + [] + AbsSync(Skin, [], SkinBlockRows(Mounted(skins)))
  {
    hide Step, EntriesOf, DropOwned, AbsSync, SkinBlockRows, Owns, Clean, AllSpace;
    var rs := [McpRecord(name, Some(a + "\n" + (pad + (ID_KEY + " " + SKIN_PREFIX + x)) + "\n" + b), true)];
    assert rs[1..] == [] && EnabledRecords(rs) == rs;
    SkinIdConfigIsOwned(a, pad, x, b);
    assert Owns(Skin, RustLines(Split(rs[0].config.value)));
    SkinSyncKeepsMcpIff(t, rs, skins);
  }

  /** The config of a stdio server without arguments whose environment is the one variable `id`, as it is
      serialized when its values are written plain. */
  function IdEnvConfig(name: string, command: string, x: string): string {
    "serverName: " + name + "\ntransport: stdio\ncommand: " + command + "\nargs: []\nenv:" + "\n"
    + ("  " + (ID_KEY + " " + SKIN_PREFIX + x)) + "\n" + ""
  }

  /** An environment variable `id` with a value in the skin namespace is such a config. */
  lemma {:induction false} IdVariableDropsMcp(t: string, name: string, command: string, x: string,
                                              skins: seq<SkinPackage>)
    requires ReadableText(t) && NoNewline(name) && NoNewline(x) && SingleLines(Mounted(skins))
    ensures var rs := [McpRecord(name, Some(IdEnvConfig(name, command, x)), true)];
            EntriesOf(Step(Step(t, SyncMcp(rs)), SyncSkins(skins)))
            == DropOwned(Skin, DropOwned(Mcp, EntriesOf(t))) + [] + AbsSync(Skin, [], SkinBlockRows(Mounted(skins)))
  {
    hide Step, EntriesOf, DropOwned, AbsSync, SkinBlockRows;
    var a := "serverName: " + name + "\ntransport: stdio\ncommand: " + command + "\nargs: []\nenv:";
    assert AllSpace("  ") && Clean("  ");
    SkinSyncDropsMcp(t, name, a, "  ", x, "", skins);
  }

  // ----- a block split by a comment -----

  lemma MiddleOf(a: string, b: string, R: seq<string>)
    ensures var L := [a, b] + R; L[1..] == [b] + R && L[1..][1..] == R && L[1..2] == [b] && L[2..] == R
  {
  }

  lemma NoteIsNoHead(note: string)
    requires note != [] && note[0] == '#'
    ensures Breaks(note) && !IsInsertHead(note)
  {
    TrimCrHead(note);
    assert INSERT_HEAD[0] == '-';
  }

  lemma NameLineStays()
    ensures !Breaks(McpNameLine())
  {
    TrimCrHead(McpNameLine());
  }

  /** A column-0 comment ends an insert block, so stripping the block leaves the rows below it. */
  lemma {:induction false} NoteSplitsBlock(note: string, rest: seq<string>)
    requires note != [] && note[0] == '#' && Indented(rest)
    ensures var L := [INSERT_LINE, McpNameLine()] + ([note] + rest);
            && StripBlocks(Mcp, L) == [note] + rest
            && (KeptOk(Mcp, L) <==> Content(rest) == []) && KeptContent(Mcp, L) == Content(rest)
  {
    hide McpNameLine, OwnsLine, IsInsertHead, ChunkOk, IsContent;
    var R := [note] + rest;
    var L := [INSERT_LINE, McpNameLine()] + R;
    InsertLineFacts();
    McpNameLineOwns();
    NoteIsNoHead(note);
    MiddleOf(INSERT_LINE, McpNameLine(), R);
    NameLineStays();
    assert BodyLen(R) == 0 && BlockEnd(L) == 2;
    OwnsOne(Mcp, McpNameLine());
    assert OwnedBlock(Mcp, L);
    forall i | 0 <= i < |rest| ensures !Breaks(rest[i]) { TrimCrHead(rest[i]); }
    StripSkips(Mcp, rest, []);
    assert rest + [] == rest;
    NoteChunk(note, rest);
  }

  lemma {:induction false} NoteChunk(note: string, rest: seq<string>)
    requires note != [] && note[0] == '#' && Inner(rest)
    ensures var R := [note] + rest;
            && (KeptOk(Mcp, R) <==> Content(rest) == []) && KeptContent(Mcp, R) == Content(rest)
  {
    var R := [note] + rest;
    NoteIsNoHead(note);
    assert R[1..] == rest;
    assert rest + [] == rest;
    BodyLenConcat(rest, []);
    assert BlockEnd(R) == |R| && R[..|R|] == R && R[|R|..] == [];
    assert !IsContent(note) && !IsEntryHead(note);
    assert Content(R) == [] + Content(rest);
  }

  /** So the next sync that compiles nothing leaves rows without a head, and a file the launcher cannot edit. */
  lemma {:induction false} SyncOrphansRows(note: string, rest: seq<string>)
    requires note != [] && note[0] == '#' && NoNewline(note) && NewlineFree(rest) && Indented(rest)
    requires Content(rest) != [] && !LonePlaceholder(Content(rest))
    ensures var t := Join([INSERT_LINE, McpNameLine()] + ([note] + rest));
            && Split(Step(t, SyncMcp([]))) == [note] + rest
            && !ReadableText(Step(t, SyncMcp([])))
  {
    hide StripBlocks, KeptOk, KeptContent, Readable, Split, Join, McpNameLine, RestorePlaceholder, Content, Step;
    var L := [INSERT_LINE, McpNameLine()] + ([note] + rest);
    var t := Join(L);
    BlockNewlineFree(note, rest);
    SplitJoin(L);
    NoteSplitsBlock(note, rest);
    NoServersStep(t);
    SyncReadableIff(Mcp, t, []);
    SplitJoin([note] + rest);
    RestorePlaceholderLines(Join([note] + rest));
    assert Content([note] + rest) == Content(rest) by { ContentConcat([note], rest); NoteHasNoContent(note); }
  }

  lemma BlockNewlineFree(note: string, rest: seq<string>)
    requires NoNewline(note) && NewlineFree(rest)
    ensures NewlineFree([INSERT_LINE, McpNameLine()] + ([note] + rest)) && NewlineFree([note] + rest)
  {
    McpNameLineOwns();
    assert NoNewline(INSERT_LINE);
    hide NoNewline, McpNameLine, OwnsLine;
    assert NewlineFree([INSERT_LINE, McpNameLine()]) && NewlineFree([note]);
    NewlineFreeConcat([note], rest);
    NewlineFreeConcat([INSERT_LINE, McpNameLine()], [note] + rest);
  }

  lemma NewlineFreeConcat(a: seq<string>, b: seq<string>)
    requires NewlineFree(a) && NewlineFree(b)
    ensures NewlineFree(a + b)
  {
    hide NoNewline;
  }

  lemma NoServersStep(t: string)
    ensures Step(t, SyncMcp([])) == SyncText(Mcp, t, [])
    ensures SyncText(Mcp, t, []) == RestorePlaceholder(Join(StripBlocks(Mcp, Split(t))))
  {
    hide RestorePlaceholder, StripBlocks;
    assert McpSyncRows([]) == Some([]);
  }

  lemma NoteHasNoContent(note: string)
    requires note != [] && note[0] == '#'
    ensures Content([note]) == []
  {
    assert [note][1..] == [];
  }
}
