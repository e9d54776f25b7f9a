/** What the refinement gives: toggles as a map, the last sync wins, comments
    stay, and when an edit is undone to the byte. */
module PatchTheorems {
  import opened Basics
  import opened TextLines
  import opened PatchLines
  import opened PatchText
  import opened PatchDoc
  import opened PatchBlocks
  import opened SkinRows
  import opened PatchOps

  // ----- toggles as a set of facts -----

  /** How each operation acts on the toggle facts, the sync operations not at all. */
  function ToggleStep(s: set<(string, bool)>, op: Op): set<(string, bool)> {
    match op
    case Disable(id) => s + {(id, true)}
    case Enable(id) => if (id, true) in s then s - {(id, true)} else s + {(id, false)}
    case RemoveRows(ids) => set p | p in s && p.0 !in ids
    case SyncMcp(_) => s
    case SyncSkins(_) => s
  }

  function ToggleRun(s: set<(string, bool)>, ops: seq<Op>): set<(string, bool)>
    decreases |ops|
  {
    if ops == [] then s else ToggleRun(ToggleStep(s, ops[0]), ops[1..])
  }

  lemma {:induction false} TogglesOfDrop(es: seq<seq<string>>, id: string, both: bool)
    ensures Toggles(DropToggles(es, id, both))
         == Toggles(es) - (if both then {(id, true), (id, false)} else {(id, true)})
  {
    if es != [] {
      TogglesOfDrop(es[1..], id, both);
      var rest := DropToggles(es[1..], id, both);
      assert [] + rest == rest;
      assert ([es[0]] + rest)[1..] == rest;
    }
  }

  lemma {:induction false} TogglesOfRemove(es: seq<seq<string>>, ids: seq<string>)
    ensures Toggles(AbsRemove(es, ids)) == set p | p in Toggles(es) && p.0 !in ids
    decreases |ids|
  {
    if ids != [] {
      var kept := DropToggles(es, ids[0], true);
      TogglesOfDrop(es, ids[0], true);
      TogglesOfRemove(kept, ids[1..]);
      assert forall x :: x in ids <==> x == ids[0] || x in ids[1..];
      forall p: (string, bool) ensures p in Toggles(kept) <==> p in Toggles(es) && p.0 != ids[0] {
        if p.1 { assert p == (p.0, true); } else { assert p == (p.0, false); }
      }
    }
  }

  lemma {:induction false} TogglesOfDropOwned(o: Owner, es: seq<seq<string>>)
    ensures Toggles(DropOwned(o, es)) == Toggles(es)
  {
    if es != [] {
      TogglesOfDropOwned(o, es[1..]);
      var rest := DropOwned(o, es[1..]);
      assert [] + rest == rest;
      assert ([es[0]] + rest)[1..] == rest;
      if IsOwned(o, es[0]) { InsertHeadIsNoRow(es[0][0]); }
    }
  }

  lemma {:induction false} TogglesOfSync(o: Owner, es: seq<seq<string>>, rows: seq<string>)
    ensures Toggles(AbsSync(o, es, rows)) == Toggles(es)
  {
    TogglesOfDropOwned(o, es);
    InsertEntryFacts(rows);
    TogglesConcat(DropOwned(o, es), if rows == [] then [] else [InsertEntry(rows)]);
  }

  lemma {:induction false} TogglesOfStep(es: seq<seq<string>>, op: Op)
    requires ValidOp(op)
    ensures Toggles(AbsStep(es, op)) == ToggleStep(Toggles(es), op)
  {
    match op
    case Disable(id) =>
      RowBlockRefines(id, true);
      TogglesConcat(es, [RowEntry(id, true)]);
    case Enable(id) =>
      TogglesOfDrop(es, id, false);
      RowBlockRefines(id, false);
      TogglesConcat(es, [RowEntry(id, false)]);
    case RemoveRows(ids) => TogglesOfRemove(es, ids);
    case SyncMcp(records) =>
      if AllSerialized(EnabledRecords(records)) { TogglesOfSync(Mcp, es, McpRows(EnabledRecords(records))); }
    case SyncSkins(skins) => TogglesOfSync(Skin, es, SkinBlockRows(Mounted(skins)));
  }

  lemma {:induction false} TogglesOfRun(es: seq<seq<string>>, ops: seq<Op>)
    requires ValidOps(ops)
    ensures Toggles(AbsRun(es, ops)) == ToggleRun(Toggles(es), ops)
    decreases |ops|
  {
    if ops != [] {
      assert ValidOp(ops[0]);
      TogglesOfStep(es, ops[0]);
      assert forall i :: 0 <= i < |ops[1..]| ==> ops[1..][i] == ops[i + 1];
      TogglesOfRun(AbsStep(es, ops[0]), ops[1..]);
    }
  }

  /** After any run of edits the launcher reads back exactly the toggle facts the run
      prescribes: the text file behaves as a set of `(id, disabled)` facts. */
  lemma {:induction false} TogglesOverRuns(t: string, ops: seq<Op>)
    requires ReadableText(t) && ValidOps(ops)
    ensures ReadPairs(Split(Run(t, ops))) == ToggleRun(ReadPairs(Split(t)), ops)
  {
    RunRefines(t, ops);
    StateRefines(t);
    TogglesOfRun(EntriesOf(t), ops);
  }

  /** The operation says nothing about `id`. */
  predicate LeavesAlone(op: Op, id: string) {
    match op
    case Disable(x) => x != id
    case Enable(x) => x != id
    case RemoveRows(ids) => id !in ids
    case SyncMcp(_) => true
    case SyncSkins(_) => true
  }

  lemma {:induction false} UntouchedInRun(s: set<(string, bool)>, ops: seq<Op>, id: string, v: bool)
    requires forall i :: 0 <= i < |ops| ==> LeavesAlone(ops[i], id)
    ensures (id, v) in ToggleRun(s, ops) <==> (id, v) in s
    decreases |ops|
  {
    if ops != [] {
      assert LeavesAlone(ops[0], id);
      assert forall i :: 0 <= i < |ops[1..]| ==> ops[1..][i] == ops[i + 1];
      UntouchedInRun(ToggleStep(s, ops[0]), ops[1..], id, v);
    }
  }

  /** The last decision about a row stands, through any later edits of other rows and any syncs. */
  lemma {:induction false} LastDecisionStands(t: string, op: Op, ops: seq<Op>, id: string)
    requires ReadableText(t) && ValidOps([op] + ops)
    requires op == Disable(id) || op == Enable(id) || op == RemoveRows([id])
    requires forall i :: 0 <= i < |ops| ==> LeavesAlone(ops[i], id)
    ensures (id, true) in ReadPairs(Split(Run(t, [op] + ops))) <==> op == Disable(id)
    ensures op.RemoveRows? ==> (id, false) !in ReadPairs(Split(Run(t, [op] + ops)))
  {
    TogglesOverRuns(t, [op] + ops);
    var s := ReadPairs(Split(t));
    assert ([op] + ops)[1..] == ops;
    assert ToggleRun(s, [op] + ops) == ToggleRun(ToggleStep(s, op), ops);
    UntouchedInRun(ToggleStep(s, op), ops, id, true);
    UntouchedInRun(ToggleStep(s, op), ops, id, false);
  }

  // ----- the last sync wins -----

  /** A second sync of the same kind replaces the first exactly when it can recognise the first one's block. */
  lemma {:induction false} LastSyncWinsIff(o: Owner, es: seq<seq<string>>, r1: seq<string>, r2: seq<string>)
    ensures AbsSync(o, AbsSync(o, es, r1), r2) == AbsSync(o, es, r2) <==> r1 == [] || Owns(o, r1)
  {
    var kept := DropOwned(o, es);
    var new1 := if r1 == [] then [] else [InsertEntry(r1)];
    InsertEntryFacts(r1);
    DropOwnedIdempotent(o, es);
    DropOwnedConcat(o, kept, new1);
    if r1 != [] && !Owns(o, r1) {
      assert DropOwned(o, [InsertEntry(r1)]) == [InsertEntry(r1)];
      assert |AbsSync(o, AbsSync(o, es, r1), r2)| == |AbsSync(o, es, r2)| + 1;
    }
  }

  /** For MCP records the last sync always wins, and what is not the launcher's MCP region keeps its entries and
      order. */
  lemma {:induction false} LastMcpSyncWins(t: string, r1: seq<McpRecord>, r2: seq<McpRecord>)
    requires ReadableText(t) && SingleLine(r1) && SingleLine(r2)
    requires McpSyncRows(r1).Some? && McpSyncRows(r2).Some?
    ensures EntriesOf(Step(Step(t, SyncMcp(r1)), SyncMcp(r2))) == EntriesOf(Step(t, SyncMcp(r2)))
    ensures var after := EntriesOf(Step(t, SyncMcp(r1)));
            && DropOwned(Mcp, after) == DropOwned(Mcp, EntriesOf(t))
            && |after| <= |DropOwned(Mcp, after)| + 1
  {
    StepRefines(t, SyncMcp(r1));
    StepRefines(t, SyncMcp(r2));
    StepRefines(Step(t, SyncMcp(r1)), SyncMcp(r2));
    EnabledSingleLine(r1);
    McpRowsFacts(EnabledRecords(r1));
    var rows := McpRows(EnabledRecords(r1));
    LastSyncWinsIff(Mcp, EntriesOf(t), rows, McpRows(EnabledRecords(r2)));
    SyncKeepsRest(Mcp, EntriesOf(t), rows);
  }

  lemma {:induction false} SyncKeepsRest(o: Owner, es: seq<seq<string>>, rows: seq<string>)
    requires rows == [] || Owns(o, rows)
    ensures DropOwned(o, AbsSync(o, es, rows)) == DropOwned(o, es)
  {
    DropOwnedIdempotent(o, es);
    InsertEntryFacts(rows);
    DropOwnedConcat(o, DropOwned(o, es), if rows == [] then [] else [InsertEntry(rows)]);
  }

  /** For skins the last sync wins unless the first compiled exactly one skin whose id is
      the bare `skin`: that block carries no `skin-` id, so no later sync removes it. */
  lemma {:induction false} LastSkinSyncWinsIff(t: string, s1: seq<SkinPackage>, s2: seq<SkinPackage>)
    requires ReadableText(t) && SingleLines(Mounted(s1)) && SingleLines(Mounted(s2))
    ensures EntriesOf(Step(Step(t, SyncSkins(s1)), SyncSkins(s2))) == EntriesOf(Step(t, SyncSkins(s2)))
       <==> !(|Mounted(s1)| == 1 && SkinId(Mounted(s1)[0]) == "skin")
  {
    StepRefines(t, SyncSkins(s1));
    StepRefines(t, SyncSkins(s2));
    StepRefines(Step(t, SyncSkins(s1)), SyncSkins(s2));
    var m := Mounted(s1);
    if m != [] { SkinBlockOwned(m); }
    LastSyncWinsIff(Skin, EntriesOf(t), SkinBlockRows(m), SkinBlockRows(Mounted(s2)));
  }

  /** A lone package `<scope>/dsh-skin` is such a skin, so a later sync leaves its block in the file. */
  lemma {:induction false} BareSkinStays(t: string, scope: string, s2: seq<SkinPackage>)
    requires ReadableText(t) && NoNewline(scope) && SingleLines(Mounted(s2))
    ensures var s1 := [SkinPackage(scope + "/" + "dsh-skin", true, false)];
            EntriesOf(Step(Step(t, SyncSkins(s1)), SyncSkins(s2))) != EntriesOf(Step(t, SyncSkins(s2)))
  {
    var s1 := [SkinPackage(scope + "/" + "dsh-skin", true, false)];
    assert s1[1..] == [] && Mounted(s1) == [scope + "/" + "dsh-skin"];
    BareSkinId(scope);
    LastSkinSyncWinsIff(t, s1, s2);
  }

  // ----- which servers and skins a sync compiles -----

  lemma {:induction false} EnabledConcat(a: seq<McpRecord>, b: seq<McpRecord>)
    ensures EnabledRecords(a + b) == EnabledRecords(a) + EnabledRecords(b)
  {
    if a == [] {
      assert a + b == b;
    } else {
      assert (a + b)[1..] == a[1..] + b;
      EnabledConcat(a[1..], b);
    }
  }

  lemma EnabledOne(r: McpRecord)
    ensures EnabledRecords([r]) == if r.enabled then [r] else []
  {
    assert |[r][1..]| == 0;
  }

  /** A disabled server changes nothing, wherever it stands in the list and whether or not it can be serialized. */
  lemma {:induction false} DisabledServerIgnored(t: string, a: seq<McpRecord>, r: McpRecord, b: seq<McpRecord>)
    requires !r.enabled
    ensures McpSyncRows(a + [r] + b) == McpSyncRows(a + b)
    ensures Step(t, SyncMcp(a + [r] + b)) == Step(t, SyncMcp(a + b))
  {
    EnabledConcat(a + [r], b);
    EnabledConcat(a, [r]);
    EnabledConcat(a, b);
    EnabledOne(r);
    assert EnabledRecords(a) + [] == EnabledRecords(a);
  }

  /** An enabled server adds exactly its own row at its place, and makes the sync fail when it cannot be serialized. */
  lemma {:induction false} EnabledServerAdds(a: seq<McpRecord>, r: McpRecord, b: seq<McpRecord>)
    requires r.enabled
    ensures McpSyncRows([]) == Some([])
    ensures McpSyncRows(a + [r] + b)
         == if McpSyncRows(a).Some? && r.config.Some? && McpSyncRows(b).Some?
            then Some(McpSyncRows(a).value + McpRow(r) + McpSyncRows(b).value) else None
  {
    hide McpRow;
    EnabledConcat(a + [r], b);
    EnabledConcat(a, [r]);
    EnabledOne(r);
    SerializedConcat(EnabledRecords(a) + [r], EnabledRecords(b));
    SerializedConcat(EnabledRecords(a), [r]);
    if r.config.Some? { OneRow(r); }
  }

  lemma OneRow(r: McpRecord)
    requires r.config.Some?
    ensures AllSerialized([r]) && McpRows([r]) == McpRow(r)
  {
    assert |[r][1..]| == 0;
  }

  lemma {:induction false} SerializedConcat(a: seq<McpRecord>, b: seq<McpRecord>)
    ensures AllSerialized(a + b) <==> AllSerialized(a) && AllSerialized(b)
    ensures AllSerialized(a + b) ==> McpRows(a + b) == McpRows(a) + McpRows(b)
  {
    assert AllSerialized(a + b) ==> AllSerialized(a) && AllSerialized(b) by {
      assert forall i :: 0 <= i < |a| ==> (a + b)[i] == a[i];
      assert forall i :: 0 <= i < |b| ==> (a + b)[|a| + i] == b[i];
    }
    if AllSerialized(a) && AllSerialized(b) { McpRowsConcat(a, b); }
  }

  /** The row of a server, line by line: its id, the client, and its config eight columns in. */
  lemma {:induction false} McpRowReads(r: McpRecord, k: nat)
    requires r.config.Some?
    ensures var cfg, row := RustLines(Split(r.config.value)), McpRow(r);
            && |row| == 3 + |cfg|
            && row[0] == "    - id: mcp-" + r.serverName
            && row[1] == "      name: '" + MCP_CLIENT + "'" && row[2] == "      config:"
            && (k < |cfg| ==> row[3 + k] == "        " + cfg[k])
  {
    hide RustLines, Split, McpNameLine, IndentBy;
    IndentByAt("        ", RustLines(Split(r.config.value)), k);
    McpNameLineIs();
  }

  lemma McpNameLineIs()
    ensures McpNameLine() == "      name: '" + MCP_CLIENT + "'"
  {
    var c := MCP_CLIENT + "'";
    assert NAME_KEY + " " + ("'" + MCP_CLIENT + "'") == "name: '" + c;
    assert "      " + ("name: '" + c) == "      name: '" + c;
  }

  lemma {:induction false} IndentByAt(pad: string, ls: seq<string>, k: nat)
    ensures |IndentBy(pad, ls)| == |ls| && (k < |ls| ==> IndentBy(pad, ls)[k] == pad + ls[k])
  {
    if ls != [] { IndentByAt(pad, ls[1..], if k > 0 then k - 1 else 0); }
  }

  lemma {:induction false} MountedConcat(a: seq<SkinPackage>, b: seq<SkinPackage>)
    ensures Mounted(a + b) == Mounted(a) + Mounted(b)
  {
    if a == [] {
      assert a + b == b;
    } else {
      assert (a + b)[1..] == a[1..] + b;
      MountedConcat(a[1..], b);
    }
  }

  lemma MountedOne(s: SkinPackage)
    ensures Mounted([s]) == if s.enabled && !s.hasBundle then [s.package] else []
  {
    assert |[s][1..]| == 0;
  }

  /** A skin that is disabled, or mounts itself as a bundle, changes nothing, wherever it stands in the list. */
  lemma {:induction false} UnmountedSkinIgnored(t: string, a: seq<SkinPackage>, s: SkinPackage, b: seq<SkinPackage>)
    requires !s.enabled || s.hasBundle
    ensures Step(t, SyncSkins(a + [s] + b)) == Step(t, SyncSkins(a + b))
  {
    MountedConcat(a + [s], b);
    MountedConcat(a, [s]);
    MountedConcat(a, b);
    MountedOne(s);
    assert Mounted(a) + [] == Mounted(a);
  }

  /** The packages mounted are those of the enabled skins that are no bundles. */
  lemma {:induction false} MountedIff(skins: seq<SkinPackage>, p: string)
    ensures p in Mounted(skins) <==> exists s :: s in skins && s.enabled && !s.hasBundle && s.package == p
  {
    if skins != [] {
      MountedIff(skins[1..], p);
      assert skins == [skins[0]] + skins[1..];
      assert skins[0] in skins && forall s :: s in skins[1..] ==> s in skins;
    }
  }

  // ----- comments -----

  /** A column-0 comment that is not a commented-out placeholder. */
  predicate IsNote(l: string) {
    IsComment(l) && Breaks(l) && !IsCommentedPlaceholder(l)
  }

  function Notes(L: seq<string>): seq<string> {
    if L == [] then [] else (if IsNote(L[0]) then [L[0]] else []) + Notes(L[1..])
  }

  lemma {:induction false} NotesConcat(a: seq<string>, b: seq<string>)
    ensures Notes(a + b) == Notes(a) + Notes(b)
  {
    if a == [] {
      assert a + b == b;
    } else {
      assert (a + b)[1..] == a[1..] + b;
      NotesConcat(a[1..], b);
    }
  }

  predicate NoNotes(L: seq<string>) {
    forall i :: 0 <= i < |L| ==> !IsNote(L[i])
  }

  lemma {:induction false} NoNotesEmpty(L: seq<string>)
    requires NoNotes(L)
    ensures Notes(L) == []
  {
    if L != [] {
      assert forall i :: 0 <= i < |L[1..]| ==> L[1..][i] == L[i + 1];
      NoNotesEmpty(L[1..]);
    }
  }

  lemma {:induction false} NotesOfRemove(L: seq<string>, id: string, values: seq<string>)
    ensures Notes(RemoveBlocks(L, id, values)) == Notes(L)
  {
    if L != [] {
      if IsPairOf(L, id, values) {
        RowHead(L[0]);
        EntryHeadFacts(L[0]);
        FlagFacts(L[1]);
        assert L[1..][1..] == L[2..] && L[1..][0] == L[1];
        NotesOfRemove(L[2..], id, values);
      } else {
        NotesOfRemove(L[1..], id, values);
        assert ([L[0]] + RemoveBlocks(L[1..], id, values))[1..] == RemoveBlocks(L[1..], id, values);
      }
    }
  }

  lemma {:induction false} NotesOfStrip(o: Owner, L: seq<string>)
    ensures Notes(StripBlocks(o, L)) == Notes(L)
    decreases |L|
  {
    hide Owns, IsInsertHead, IsCommentedPlaceholder;
    if L != [] {
      var n := BlockEnd(L);
      if IsInsertHead(L[0]) && Owns(o, L[1..n]) {
        RowHead(L[0]);
        EntryHeadFacts(L[0]);
        FirstChunk(L);
        forall i | 0 <= i < n ensures !IsNote(L[..n][i]) {
          if i > 0 { assert L[..n][1..][i - 1] == L[..n][i]; }
        }
        NoNotesEmpty(L[..n]);
        NotesConcat(L[..n], L[n..]);
        NotesOfStrip(o, L[n..]);
      } else {
        NotesOfStrip(o, L[1..]);
        assert ([L[0]] + StripBlocks(o, L[1..]))[1..] == StripBlocks(o, L[1..]);
      }
    }
  }

  lemma {:induction false} NotesOfCommentOut(L: seq<string>)
    ensures Notes(CommentOut(L)) == Notes(L)
  {
    if L != [] {
      CommentedSpelling();
      PlaceholderIsCommented(L[0]);
      NotesOfCommentOut(L[1..]);
      assert CommentOut(L)[1..] == if IsPlaceholder(L[0]) then L[1..] else CommentOut(L[1..]);
    }
  }

  lemma {:induction false} NotesOfRevive(L: seq<string>)
    ensures Notes(Revive(L)) == Notes(L)
  {
    if L != [] {
      CommentedSpelling();
      NotesOfRevive(L[1..]);
      assert Revive(L)[1..] == if IsCommentedPlaceholder(L[0]) then L[1..] else Revive(L[1..]);
    }
  }

  lemma {:induction false} BlankIsNoNote(l: string)
    requires AllSpace(l)
    ensures !IsNote(l)
  {
    TrimEmpty(l);
  }

  lemma {:induction false} NotesOfTerminated(L: seq<string>)
    ensures Notes(Terminated(L)) == Notes(L)
  {
    if |L| >= 2 && L[|L| - 1] == "" {
      assert L == Terminated(L) + [""];
      NotesConcat(Terminated(L), [""]);
      BlankIsNoNote("");
      NoNotesEmpty([""]);
    }
  }

  lemma {:induction false} NotesOfAppend(t: string, block: string)
    requires NoNotes(Split(block))
    ensures Notes(Split(AppendBlock(t, block))) == Notes(Split(t))
  {
    var L := Split(t);
    AppendBlockLines(t, block);
    NoNotesEmpty(Split(block));
    if AllBlank(L) {
      forall i | 0 <= i < |L| ensures !IsNote(L[i]) { BlankIsNoNote(L[i]); }
      NoNotesEmpty(L);
    } else {
      var X := if OnlyPlaceholder(L) then CommentOut(L) else L;
      NotesOfCommentOut(L);
      NotesOfTerminated(X);
      NotesConcat(Terminated(X), Split(block));
    }
  }

  lemma {:induction false} NotesOfRestore(t: string)
    ensures Notes(Split(RestorePlaceholder(t))) == Notes(Split(t))
  {
    var L := Split(t);
    RestorePlaceholderLines(t);
    if Content(L) == [] {
      if HasCommentedPlaceholder(L) {
        NotesOfRevive(L);
      } else {
        NotesOfAddPlaceholder(L);
      }
    }
  }

  lemma {:induction false} NotesOfAddPlaceholder(L: seq<string>)
    requires L != []
    ensures Notes((if L[|L| - 1] == "" then L[..|L| - 1] else L) + ["[]", ""]) == Notes(L)
  {
    var K := if L[|L| - 1] == "" then L[..|L| - 1] else L;
    BlankIsNoNote("");
    CommentedSpelling();
    NoNotesEmpty(["[]", ""]);
    NoNotesEmpty([""]);
    NotesConcat(K, ["[]", ""]);
    if L[|L| - 1] == "" {
      assert L == K + [""];
      NotesConcat(K, [""]);
    }
  }

  lemma {:induction false} NotesOfJoin(L: seq<string>)
    requires NewlineFree(L)
    ensures Notes(Split(Join(L))) == Notes(L)
  {
    SplitOfJoin(L);
    BlankIsNoNote("");
    NoNotesEmpty([""]);
  }

  lemma {:induction false} NotesOfWithoutAll(t: string, ids: seq<string>)
    ensures Notes(Split(WithoutAll(t, ids))) == Notes(Split(t))
    decreases |ids|
  {
    if ids != [] {
      NotesOfWithout(t, ids[0], true);
      NotesOfWithoutAll(Without(t, ids[0], true), ids[1..]);
    }
  }

  lemma {:induction false} NotesOfWithout(t: string, id: string, both: bool)
    ensures Notes(Split(Without(t, id, both))) == Notes(Split(t))
  {
    RemoveBlocksNewlineFree(Split(t), id, Values(both));
    NotesOfJoin(RemoveBlocks(Split(t), id, Values(both)));
    NotesOfRemove(Split(t), id, Values(both));
  }

  lemma {:induction false} ToggleBlockNoNotes(id: string, disabled: bool)
    requires ValidRowId(id)
    ensures NoNotes(Split(RowBlock(id, disabled)))
  {
    RowBlockLines(id, disabled);
    RowLineReads(id);
    RowHead(RowLine(id));
    EntryHeadFacts(RowLine(id));
    FlagLineReads(disabled);
    BlankIsNoNote("");
  }

  lemma {:induction false} NotesOfSync(o: Owner, t: string, rows: seq<string>)
    requires NewlineFree(rows) && Indented(rows)
    ensures Notes(Split(SyncText(o, t, rows))) == Notes(Split(t))
  {
    var L := Split(t);
    var s := Join(StripBlocks(o, L));
    StripBlocksNewlineFree(o, L);
    NotesOfJoin(StripBlocks(o, L));
    NotesOfStrip(o, L);
    if rows == [] {
      NotesOfRestore(s);
    } else {
      InsertBlockNoNotes(rows);
      NotesOfAppend(s, Unlines([INSERT_LINE] + rows));
    }
  }

  lemma InsertLineNoNote()
    ensures NoNewline(INSERT_LINE) && !IsNote(INSERT_LINE)
  {
    InsertLineFacts();
    EntryHeadFacts(INSERT_LINE);
  }

  lemma IndentedNoNote(l: string)
    requires l != [] && l[0] == ' '
    ensures !IsNote(l)
  {
    TrimCrHead(l);
  }

  lemma {:induction false} InsertBlockNoNotes(rows: seq<string>)
    requires NewlineFree(rows) && Indented(rows)
    ensures NoNotes(Split(Unlines([INSERT_LINE] + rows)))
  {
    hide IsNote;
    InsertLineNoNote();
    SplitUnlines([INSERT_LINE] + rows);
    BlankIsNoNote("");
    forall i | 0 <= i < |rows| ensures !IsNote(rows[i]) { IndentedNoNote(rows[i]); }
  }

  /** Every column-0 comment of any file, valid or not, survives every edit, verbatim and in order, but for those
      that read as a commented-out placeholder: these the editors revive and write. */
  lemma {:induction false} NotesSurvive(t: string, op: Op)
    requires ValidOp(op)
    ensures Notes(Split(Step(t, op))) == Notes(Split(t))
  {
    match op
    case Disable(id) =>
      ToggleBlockNoNotes(id, true);
      NotesOfAppend(t, RowBlock(id, true));
    case Enable(id) =>
      NotesOfWithout(t, id, false);
      NotesOfRestore(Without(t, id, false));
      ToggleBlockNoNotes(id, false);
      NotesOfAppend(t, RowBlock(id, false));
    case RemoveRows(ids) =>
      NotesOfWithoutAll(t, ids);
      NotesOfRestore(WithoutAll(t, ids));
    case SyncMcp(records) =>
      EnabledSingleLine(records);
      if AllSerialized(EnabledRecords(records)) {
        McpRowsFacts(EnabledRecords(records));
        NotesOfSync(Mcp, t, McpRows(EnabledRecords(records)));
      }
    case SyncSkins(skins) =>
      SkinBlockRowsFacts(Mounted(skins));
      NotesOfSync(Skin, t, SkinBlockRows(Mounted(skins)));
  }
}
