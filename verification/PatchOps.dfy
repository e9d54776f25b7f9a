/** The editing operations on the patch file's text, and the entry-list
    operations they refine, one by one and over whole runs. */
module PatchOps {
  import opened Basics
  import opened TextLines
  import opened PatchLines
  import opened PatchText
  import opened PatchDoc
  import opened PatchBlocks
  import opened SkinRows

  // ----- the text operations -----

  function Without(t: string, id: string, both: bool): string {
    Join(RemoveBlocks(Split(t), id, Values(both)))
  }

  predicate Removes(t: string, id: string, both: bool) {
    |RemoveBlocks(Split(t), id, Values(both))| < |Split(t)|
  }

  /** `disable_row` */
  function DisableText(t: string, id: string): string {
    if (id, true) in ReadPairs(Split(t)) then t else AppendBlock(t, RowBlock(id, true))
  }

  /** `enable_row` */
  function EnableText(t: string, id: string): string {
    if Removes(t, id, false) then RestorePlaceholder(Without(t, id, false))
    else if (id, false) in ReadPairs(Split(t)) then t
    else AppendBlock(t, RowBlock(id, false))
  }

  function WithoutAll(t: string, ids: seq<string>): string
    decreases |ids|
  {
    if ids == [] then t else WithoutAll(Without(t, ids[0], true), ids[1..])
  }

  /** `remove_row_blocks` */
  function RemoveRowsText(t: string, ids: seq<string>): string {
    var n := WithoutAll(t, ids);
    if n == t then t else RestorePlaceholder(n)
  }

  /** The shared core of `sync_mcp_patch` and `sync_skin_patch`: `rows` is empty when nothing is enabled. */
  function SyncText(o: Owner, t: string, rows: seq<string>): string {
    var stripped := Join(StripBlocks(o, Split(t)));
    if rows == [] then RestorePlaceholder(stripped)
    else AppendBlock(stripped, Unlines([INSERT_LINE] + rows))
  }

  ghost function SkinBlockRows(packages: seq<string>): seq<string> {
    SkinRowLines(packages, SkinIds(packages, {}))
  }

  // ----- the same operations on the entry list -----

  function AbsDisable(es: seq<seq<string>>, id: string): seq<seq<string>> {
    if (id, true) in Toggles(es) then es else es + [RowEntry(id, true)]
  }

  function AbsEnable(es: seq<seq<string>>, id: string): seq<seq<string>> {
    if (id, true) in Toggles(es) then DropToggles(es, id, false)
    else if (id, false) in Toggles(es) then es
    else es + [RowEntry(id, false)]
  }

  function AbsRemove(es: seq<seq<string>>, ids: seq<string>): seq<seq<string>>
    decreases |ids|
  {
    if ids == [] then es else AbsRemove(DropToggles(es, ids[0], true), ids[1..])
  }

  function AbsSync(o: Owner, es: seq<seq<string>>, rows: seq<string>): seq<seq<string>> {
    DropOwned(o, es) + (if rows == [] then [] else [InsertEntry(rows)])
  }

  function EntriesOf(t: string): seq<seq<string>> { Entries(Split(t)) }

  predicate ReadableText(t: string) { Readable(Split(t)) }

  predicate DocText(t: string) { Doc(Split(t)) }

  // ----- refinement, operation by operation -----

  lemma {:induction false} AtLeastOneRefines(L: seq<string>)
    requires Plain(L)
    ensures Plain(AtLeastOne(L)) && Entries(AtLeastOne(L)) == Entries(L)
  {
    if L == [] {
      assert Content([""]) == [];
      NoContentPlain([""]);
    }
  }

  /** What the launcher reads as toggles is what the entries state. */
  lemma {:induction false} StateRefines(t: string)
    requires ReadableText(t)
    ensures ReadPairs(Split(t)) == Toggles(EntriesOf(t))
  {
    if OnlyPlaceholder(Split(t)) { PlaceholderFile(Split(t)); } else { ReadPairsRefines(Split(t)); }
  }

  lemma {:induction false} DropTogglesSame(es: seq<seq<string>>, id: string, both: bool)
    ensures |DropToggles(es, id, both)| <= |es|
    ensures DropToggles(es, id, both) == es
       <==> (id, true) !in Toggles(es) && (both ==> (id, false) !in Toggles(es))
    ensures DropToggles(es, id, both) == es <==> |DropToggles(es, id, both)| == |es|
  {
    if es != [] {
      DropTogglesSame(es[1..], id, both);
      assert es == [es[0]] + es[1..];
      if !IsToggle(es[0], id, both) {
        assert DropToggles(es, id, both)[1..] == DropToggles(es[1..], id, both);
      }
    }
  }

  lemma {:induction false} RemoveBlocksShorter(L: seq<string>, id: string, values: seq<string>)
    ensures |RemoveBlocks(L, id, values)| == |L| ==> RemoveBlocks(L, id, values) == L
    ensures |RemoveBlocks(L, id, values)| < |L| ==> |RemoveBlocks(L, id, values)| + 2 <= |L|
  {
    if L != [] && !IsPairOf(L, id, values) {
      RemoveBlocksShorter(L[1..], id, values);
      assert L == [L[0]] + L[1..];
    }
  }

  lemma {:induction false} RemovesNone(c: seq<string>, R: seq<string>, id: string, both: bool)
    requires IsChunk(c) && ChunkOk(c) && (R != [] ==> RawFlag(R[0]).None?)
    ensures |RemoveBlocks(c + R, id, Values(both))|
         == |RemoveBlocks(R, id, Values(both))| + (if DropToggles(Entry(c), id, both) == Entry(c) then |c| else |c| - 2)
  {
    RemoveChunk(c, R, id, Values(both));
    if IsEntryHead(c[0]) {
      PairIsToggle(c, id, both);
      assert DropToggles(Entry(c), id, both) == if IsToggle(Content(c), id, both) then [] else Entry(c);
    } else {
      RowHead(c[0]);
    }
  }

  /** The loop removes a line exactly when an entry is dropped. */
  lemma {:induction false} RemovesIff(L: seq<string>, id: string, both: bool)
    requires Plain(L)
    ensures |RemoveBlocks(L, id, Values(both))| < |L| <==> DropToggles(Entries(L), id, both) != Entries(L)
    decreases |L|
  {
    if L != [] {
      var c, R := PlainSplit(L);
      RemovesIff(R, id, both);
      RemovesNone(c, R, id, both);
      DropTogglesConcat(Entry(c), Entries(R), id, both);
      DropTogglesSame(Entry(c), id, both);
      DropTogglesSame(Entries(R), id, both);
      DropTogglesSame(Entries(L), id, both);
    }
  }

  lemma {:induction false} WithoutRefines(t: string, id: string, both: bool)
    requires ReadableText(t)
    ensures ReadableText(Without(t, id, both))
    ensures EntriesOf(Without(t, id, both)) == DropToggles(EntriesOf(t), id, both)
    ensures Removes(t, id, both) <==> DropToggles(EntriesOf(t), id, both) != EntriesOf(t)
    ensures Removes(t, id, both) <==> Without(t, id, both) != t
    ensures |Split(Without(t, id, both))| <= |Split(t)|
    ensures Removes(t, id, both) ==> |Split(Without(t, id, both))| < |Split(t)|
    ensures Removes(t, id, both) ==> Plain(Split(Without(t, id, both)))
  {
    var L := Split(t);
    JoinSplit(t);
    RemoveBlocksNewlineFree(L, id, Values(both));
    SplitOfJoin(RemoveBlocks(L, id, Values(both)));
    RemoveBlocksShorter(L, id, Values(both));
    if OnlyPlaceholder(L) {
      PlaceholderFile(L);
    } else {
      RemoveBlocksRefines(L, id, both);
      AtLeastOneRefines(RemoveBlocks(L, id, Values(both)));
      RemovesIff(L, id, both);
    }
  }

  lemma {:induction false} RestoreRefines(t: string)
    requires ReadableText(t)
    ensures DocText(RestorePlaceholder(t)) && EntriesOf(RestorePlaceholder(t)) == EntriesOf(t)
  {
    RestorePlaceholderLines(t);
    RestoreLinesRefines(Split(t));
  }

  lemma {:induction false} AppendRefines(t: string, block: string, e: seq<string>)
    requires ReadableText(t)
    requires var B := Split(block); Plain(B) && Breaks(B[0]) && Entries(B) == [e]
    ensures DocText(AppendBlock(t, block)) && EntriesOf(AppendBlock(t, block)) == EntriesOf(t) + [e]
  {
    AppendBlockLines(t, block);
    AppendLinesRefines(Split(t), Split(block));
  }

  /** Disabling a row adds its toggle entry, unless the row is disabled already. */
  lemma {:induction false} DisableRefines(t: string, id: string)
    requires ReadableText(t) && ValidRowId(id)
    ensures EntriesOf(DisableText(t, id)) == AbsDisable(EntriesOf(t), id)
    ensures ReadableText(DisableText(t, id)) && (DocText(t) ==> DocText(DisableText(t, id)))
  {
    StateRefines(t);
    RowBlockLines(id, true);
    RowBlockRefines(id, true);
    if (id, true) !in ReadPairs(Split(t)) {
      AppendRefines(t, RowBlock(id, true), RowEntry(id, true));
    }
  }

  /** Enabling a row drops its disabling entries, or force-enables it. */
  lemma {:induction false} EnableRefines(t: string, id: string)
    requires ReadableText(t) && ValidRowId(id)
    ensures EntriesOf(EnableText(t, id)) == AbsEnable(EntriesOf(t), id)
    ensures ReadableText(EnableText(t, id)) && (DocText(t) ==> DocText(EnableText(t, id)))
  {
    StateRefines(t);
    WithoutRefines(t, id, false);
    DropTogglesSame(EntriesOf(t), id, false);
    if Removes(t, id, false) {
      RestoreRefines(Without(t, id, false));
    } else if (id, false) !in ReadPairs(Split(t)) {
      RowBlockLines(id, false);
      RowBlockRefines(id, false);
      AppendRefines(t, RowBlock(id, false), RowEntry(id, false));
    }
  }

  lemma {:induction false} WithoutAllRefines(t: string, ids: seq<string>)
    requires ReadableText(t)
    ensures ReadableText(WithoutAll(t, ids)) && EntriesOf(WithoutAll(t, ids)) == AbsRemove(EntriesOf(t), ids)
    decreases |ids|
  {
    if ids != [] {
      WithoutRefines(t, ids[0], true);
      WithoutAllRefines(Without(t, ids[0], true), ids[1..]);
    }
  }

  /** Uninstall cleanup drops every toggle entry of the given ids. */
  lemma {:induction false} RemoveRowsRefines(t: string, ids: seq<string>)
    requires ReadableText(t)
    ensures EntriesOf(RemoveRowsText(t, ids)) == AbsRemove(EntriesOf(t), ids)
    ensures ReadableText(RemoveRowsText(t, ids)) && (DocText(t) ==> DocText(RemoveRowsText(t, ids)))
  {
    WithoutAllRefines(t, ids);
    if WithoutAll(t, ids) != t { RestoreRefines(WithoutAll(t, ids)); }
  }

  lemma {:induction false} InsertBlockText(rows: seq<string>)
    requires NewlineFree(rows) && Indented(rows)
    ensures var B := Split(Unlines([INSERT_LINE] + rows));
            Plain(B) && Breaks(B[0]) && Entries(B) == [InsertEntry(rows)]
  {
    InsertLineFacts();
    assert NoNewline(INSERT_LINE);
    SplitUnlines([INSERT_LINE] + rows);
    InsertBlockRefines(rows);
  }

  /** A sync drops the launcher's blocks of one kind and appends the new one, whatever else the file holds. */
  lemma {:induction false} SyncRefines(o: Owner, t: string, rows: seq<string>)
    requires ReadableText(t) && NewlineFree(rows) && Indented(rows)
    ensures DocText(SyncText(o, t, rows))
    ensures EntriesOf(SyncText(o, t, rows)) == AbsSync(o, EntriesOf(t), rows)
  {
    var L := Split(t);
    StripBlocksNewlineFree(o, L);
    SplitOfJoin(StripBlocks(o, L));
    var s := Join(StripBlocks(o, L));
    if OnlyPlaceholder(L) {
      PlaceholderFile(L);
    } else {
      StripBlocksRefines(o, L);
      AtLeastOneRefines(StripBlocks(o, L));
    }
    if rows == [] {
      RestoreRefines(s);
    } else {
      InsertBlockText(rows);
      AppendRefines(s, Unlines([INSERT_LINE] + rows), InsertEntry(rows));
    }
  }

  // ----- runs -----

  datatype Op =
    | Disable(id: string)
    | Enable(id: string)
    | RemoveRows(ids: seq<string>)
    | SyncMcp(records: seq<McpRecord>)
    | SyncSkins(skins: seq<SkinPackage>)

  /** What the callers guarantee: row ids are checked, names are written on one line. */
  predicate ValidOp(op: Op) {
    match op
    case Disable(id) => ValidRowId(id)
    case Enable(id) => ValidRowId(id)
    case RemoveRows(_) => true
    case SyncMcp(records) => SingleLine(records)
    case SyncSkins(skins) => SingleLines(Mounted(skins))
  }

  /** The rows an MCP sync compiles, or nothing when a record cannot be serialized. */
  function McpSyncRows(records: seq<McpRecord>): Option<seq<string>> {
    var on := EnabledRecords(records);
    if AllSerialized(on) then Some(McpRows(on)) else None
  }

  ghost function Step(t: string, op: Op): string {
    match op
    case Disable(id) => DisableText(t, id)
    case Enable(id) => EnableText(t, id)
    case RemoveRows(ids) => RemoveRowsText(t, ids)
    case SyncMcp(records) => (match McpSyncRows(records) case None => t case Some(rows) => SyncText(Mcp, t, rows))
    case SyncSkins(skins) => SyncText(Skin, t, SkinBlockRows(Mounted(skins)))
  }

  ghost function AbsStep(es: seq<seq<string>>, op: Op): seq<seq<string>> {
    match op
    case Disable(id) => AbsDisable(es, id)
    case Enable(id) => AbsEnable(es, id)
    case RemoveRows(ids) => AbsRemove(es, ids)
    case SyncMcp(records) => (match McpSyncRows(records) case None => es case Some(rows) => AbsSync(Mcp, es, rows))
    case SyncSkins(skins) => AbsSync(Skin, es, SkinBlockRows(Mounted(skins)))
  }

  ghost function Run(t: string, ops: seq<Op>): string
    decreases |ops|
  {
    if ops == [] then t else Run(Step(t, ops[0]), ops[1..])
  }

  ghost function AbsRun(es: seq<seq<string>>, ops: seq<Op>): seq<seq<string>>
    decreases |ops|
  {
    if ops == [] then es else AbsRun(AbsStep(es, ops[0]), ops[1..])
  }

  predicate ValidOps(ops: seq<Op>) {
    forall i :: 0 <= i < |ops| ==> ValidOp(ops[i])
  }

  lemma {:induction false} SkinBlockRowsFacts(packages: seq<string>)
    requires SingleLines(packages)
    ensures NewlineFree(SkinBlockRows(packages)) && Indented(SkinBlockRows(packages))
  {
    SkinIdsNoNewline(packages, {});
    SkinRowsFacts(packages, SkinIds(packages, {}));
  }

  lemma {:induction false} StepRefines(t: string, op: Op)
    requires ReadableText(t) && ValidOp(op)
    ensures ReadableText(Step(t, op)) && (DocText(t) ==> DocText(Step(t, op)))
    ensures EntriesOf(Step(t, op)) == AbsStep(EntriesOf(t), op)
  {
    match op
    case Disable(id) => DisableRefines(t, id);
    case Enable(id) => EnableRefines(t, id);
    case RemoveRows(ids) => RemoveRowsRefines(t, ids);
    case SyncMcp(records) =>
      EnabledSingleLine(records);
      if AllSerialized(EnabledRecords(records)) {
        McpRowsFacts(EnabledRecords(records));
        SyncRefines(Mcp, t, McpRows(EnabledRecords(records)));
      }
    case SyncSkins(skins) =>
      SkinBlockRowsFacts(Mounted(skins));
      SyncRefines(Skin, t, SkinBlockRows(Mounted(skins)));
  }

  /** Any run of edits acts on the entry list as the run of entry operations, and a
      valid patch file stays one: the placeholder alone, or entries and no placeholder. */
  lemma {:induction false} RunRefines(t: string, ops: seq<Op>)
    requires ReadableText(t) && ValidOps(ops)
    ensures ReadableText(Run(t, ops)) && (DocText(t) ==> DocText(Run(t, ops)))
    ensures EntriesOf(Run(t, ops)) == AbsRun(EntriesOf(t), ops)
    ensures ReadPairs(Split(Run(t, ops))) == Toggles(AbsRun(EntriesOf(t), ops))
    decreases |ops|
  {
    if ops == [] {
      StateRefines(t);
    } else {
      StepRefines(t, ops[0]);
      assert ValidOp(ops[0]);
      assert forall i :: 0 <= i < |ops[1..]| ==> ops[1..][i] == ops[i + 1];
      RunRefines(Step(t, ops[0]), ops[1..]);
    }
  }

  lemma {:induction false} ChunkHeadIsNone(c: seq<string>)
    requires c != [] && ChunkOk(c)
    ensures !IsPlaceholder(c[0])
  {
    hide IsPlaceholder, IsContent, RowOk;
    if IsEntryHead(c[0]) {
      EntryHeadFacts(c[0]);
    } else {
      ContentIndexNone(c, 0);
      if IsPlaceholder(c[0]) { PlaceholderContent(c[0]); }
    }
  }

  /** No placeholder line stands at column 0 of a list of entries. */
  lemma {:induction false} NoPlaceholderBeside(L: seq<string>, i: nat)
    requires Plain(L) && i < |L| && Breaks(L[i])
    ensures !IsPlaceholder(L[i])
    decreases |L|
  {
    hide Breaks, IsPlaceholder, ChunkOk;
    var n := BlockEnd(L);
    if i == 0 {
      ChunkHeadIsNone(L[..n]);
    } else {
      assert L[i] == L[1..][i - 1];
      NoPlaceholderBeside(L[n..], i - n);
    }
  }

  /** A template that ships the placeholder, with whatever comments around it, is a valid file without entries. */
  lemma {:induction false} TemplateIsDoc(above: seq<string>, below: seq<string>)
    requires NewlineFree(above) && NewlineFree(below) && Content(above) == [] && Content(below) == []
    ensures var t := Join(above + (["[]"] + below));
            DocText(t) && EntriesOf(t) == []
  {
    hide IsContent, IsPlaceholder, NoNewline;
    var L := above + (["[]"] + below);
    PlaceholderLine();
    SplitJoin(L);
    ContentConcat(above, ["[]"] + below);
    ContentConcat(["[]"], below);
    PlaceholderFile(L);
  }

  lemma PlaceholderLine()
    ensures NoNewline("[]") && IsPlaceholder("[]") && Content(["[]"]) == ["[]"]
  {
    PlaceholderSpelling();
    assert ["[]"][1..] == [];
  }

  /** Never both and never neither: a valid file has the placeholder exactly when it has no entry. */
  lemma {:induction false} DocIsOneOf(t: string)
    requires DocText(t)
    ensures OnlyPlaceholder(Split(t)) <==> EntriesOf(t) == []
    ensures OnlyPlaceholder(Split(t)) <==> !Plain(Split(t))
    ensures EntriesOf(t) != [] ==>
              forall i :: 0 <= i < |Split(t)| && Breaks(Split(t)[i]) ==> !IsPlaceholder(Split(t)[i])
  {
    hide Breaks, IsPlaceholder;
    if OnlyPlaceholder(Split(t)) {
      PlaceholderFile(Split(t));
    } else {
      forall i | 0 <= i < |Split(t)| && Breaks(Split(t)[i]) ensures !IsPlaceholder(Split(t)[i]) {
        NoPlaceholderBeside(Split(t), i);
      }
    }
  }
}
