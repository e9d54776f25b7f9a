/** The patch file and the methods that read and rewrite it, loop by loop as
    the launcher runs them. */
module PatchFiles {
  import opened Basics
  import opened TextLines
  import opened PatchLines
  import opened PatchText
  import opened PatchDoc
  import opened PatchBlocks
  import opened SkinRows
  import opened FreshNames
  import opened PatchOps
  import opened PatchTheorems

  /** `comment_out_placeholder` */
  method CommentOutPlaceholder(text: string) returns (r: string)
    ensures r == Join(CommentOut(Split(text)))
  {
    hide CommentOut, IsPlaceholder;
    var lines := Split(text);
    var result: seq<string> := [];
    var done := false;
    assert lines[0..] == lines && [] + CommentOut(lines) == CommentOut(lines);
    for i := 0 to |lines|
      invariant result + (if done then lines[i..] else CommentOut(lines[i..])) == CommentOut(lines)
    {
      assert lines[i..][0] == lines[i] && lines[i..][1..] == lines[i + 1..];
      ConcatAssoc(result, ["# []"], lines[i + 1..]);
      ConcatAssoc(result, [lines[i]], if done then lines[i + 1..] else CommentOut(lines[i + 1..]));
      assert lines[i..] == [lines[i]] + lines[i + 1..];
      CommentOutStep(lines[i..]);
      if !done && IsPlaceholder(lines[i]) {
        result := result + ["# []"];
        done := true;
      } else {
        result := result + [lines[i]];
      }
    }
    CommentOutStep([]);
    assert lines[|lines|..] == [] && result + [] == result;
    r := Join(result);
  }

  lemma CommentOutStep(L: seq<string>)
    ensures CommentOut(L)
         == if L == [] then [] else if IsPlaceholder(L[0]) then ["# []"] + L[1..] else [L[0]] + CommentOut(L[1..])
  {
    hide IsPlaceholder;
  }

  /** `append_block_to_text` */
  method AppendBlockToText(text: string, block: string) returns (r: string)
    ensures r == AppendBlock(text, block)
  {
    if Trim(text) == "" { return block; }
    var stripped := Trim(WithoutCommentLines(text));
    var next := text;
    if stripped == "[]" || stripped == "[ ]" {
      next := CommentOutPlaceholder(text);
    }
    if !EndsWithLf(next) { next := next + "\n"; }
    r := next + block;
  }

  /** `remove_blocks` */
  method RemoveBlocksLoop(text: string, id: string, values: seq<string>) returns (after: string, removed: bool)
    ensures after == Join(RemoveBlocks(Split(text), id, values))
    ensures removed <==> |RemoveBlocks(Split(text), id, values)| < |Split(text)|
  {
    removed := false;
    var out: seq<string> := [];
    var lines := Split(text);
    var i := 0;
    while i < |lines|
      invariant 0 <= i <= |lines|
      invariant out + RemoveBlocks(lines[i..], id, values) == RemoveBlocks(lines, id, values)
      invariant |out| <= i && (removed <==> |out| < i)
    {
      assert lines[i..][1..] == lines[i + 1..];
      ConcatAssoc(out, [lines[i]], RemoveBlocks(lines[i + 1..], id, values));
      var dropped := false;
      if RawRow(lines[i]) == Some(id) && i + 1 < |lines| {
        assert lines[i..][2..] == lines[i + 2..];
        match RawFlag(lines[i + 1]) {
          case Some(v) =>
            if v in values { removed := true; dropped := true; }
          case None =>
        }
      }
      if dropped {
        i := i + 2;
      } else {
        out := out + [lines[i]];
        i := i + 1;
      }
    }
    assert lines[|lines|..] == [] && out + [] == out;
    after := Join(out);
  }

  lemma {:induction false} HasCommentedStep(L: seq<string>)
    requires L != []
    ensures HasCommentedPlaceholder(L) <==> IsCommentedPlaceholder(L[0]) || HasCommentedPlaceholder(L[1..])
  {
    if HasCommentedPlaceholder(L) {
      var i :| 0 <= i < |L| && IsCommentedPlaceholder(L[i]);
      if i > 0 { assert L[1..][i - 1] == L[i]; }
    }
    if HasCommentedPlaceholder(L[1..]) {
      var i :| 0 <= i < |L[1..]| && IsCommentedPlaceholder(L[1..][i]);
      assert L[i + 1] == L[1..][i];
    }
  }

  lemma {:induction false} ReviveStep(out: seq<string>, L: seq<string>)
    requires L != []
    ensures out + L == (out + [L[0]]) + L[1..]
    ensures IsCommentedPlaceholder(L[0]) ==> out + Revive(L) == (out + ["[]"]) + L[1..]
    ensures !IsCommentedPlaceholder(L[0]) ==> out + Revive(L) == (out + [L[0]]) + Revive(L[1..])
  {
    assert L == [L[0]] + L[1..];
    ConcatAssoc(out, [L[0]], L[1..]);
    ConcatAssoc(out, ["[]"], L[1..]);
    ConcatAssoc(out, [L[0]], Revive(L[1..]));
  }

  /** The scan of `restore_placeholder` for a placeholder to revive. */
  method ReviveLoop(lines: seq<string>) returns (result: seq<string>, revivified: bool)
    ensures result == Revive(lines)
    ensures revivified <==> HasCommentedPlaceholder(lines)
  {
    result := [];
    revivified := false;
    for i := 0 to |lines|
      invariant result + (if revivified then lines[i..] else Revive(lines[i..])) == Revive(lines)
      invariant HasCommentedPlaceholder(lines) <==> revivified || HasCommentedPlaceholder(lines[i..])
    {
      assert lines[i..][0] == lines[i] && lines[i..][1..] == lines[i + 1..];
      HasCommentedStep(lines[i..]);
      ReviveStep(result, lines[i..]);
      if !revivified && IsCommentedPlaceholder(lines[i]) {
        result := result + ["[]"];
        revivified := true;
      } else {
        result := result + [lines[i]];
      }
    }
    assert lines[|lines|..] == [] && result + [] == result;
  }

  /** `restore_placeholder` */
  method RestorePlaceholderLoop(text: string) returns (r: string)
    ensures r == RestorePlaceholder(text)
  {
    if Trim(WithoutCommentLines(text)) != "" { return text; }
    var result, revivified := ReviveLoop(Split(text));
    if revivified { return Join(result); }
    r := if text == "" || EndsWithLf(text) then text + "[]\n" else text + "\n[]\n";
  }

  /** Where the block that starts at line `i` ends: the next column-0 line. */
  method FindBlockEnd(lines: seq<string>, i: nat) returns (end: nat)
    requires i < |lines|
    ensures i < end <= |lines| && end == i + BlockEnd(lines[i..])
  {
    end := i + 1;
    assert lines[i..][1..] == lines[i + 1..];
    while end < |lines| && !Breaks(lines[end])
      invariant i + 1 <= end <= |lines|
      invariant BodyLen(lines[i + 1..]) == end - (i + 1) + BodyLen(lines[end..])
    {
      assert lines[end..][0] == lines[end] && lines[end..][1..] == lines[end + 1..];
      end := end + 1;
    }
  }

  lemma SliceOfSuffix<T>(s: seq<T>, i: nat, end: nat)
    requires i < end <= |s|
    ensures s[i..][1..end - i] == s[i + 1..end] && s[i..][end - i..] == s[end..]
  {
  }

  lemma StripOwned(o: Owner, L: seq<string>)
    requires L != [] && IsInsertHead(L[0]) && Owns(o, L[1..BlockEnd(L)])
    ensures StripBlocks(o, L) == StripBlocks(o, L[BlockEnd(L)..])
  {
  }

  lemma StripNone(o: Owner)
    ensures StripBlocks(o, []) == []
  {
  }

  lemma {:induction false} StripStep(o: Owner, out: seq<string>, L: seq<string>)
    requires L != [] && !(IsInsertHead(L[0]) && Owns(o, L[1..BlockEnd(L)]))
    ensures out + StripBlocks(o, L) == (out + [L[0]]) + StripBlocks(o, L[1..])
  {
    ConcatAssoc(out, [L[0]], StripBlocks(o, L[1..]));
  }

  /** `remove_mcp_insert_blocks` and `remove_skin_insert_blocks`, which differ in the lines they own. */
  method RemoveInsertBlocks(o: Owner, text: string) returns (r: string)
    ensures r == Join(StripBlocks(o, Split(text)))
  {
    hide IsInsertHead, Owns, Join, Split, Breaks, StripBlocks;
    var lines := Split(text);
    var out: seq<string> := [];
    var i := 0;
    while i < |lines|
      invariant 0 <= i <= |lines|
      invariant out + StripBlocks(o, lines[i..]) == StripBlocks(o, lines)
    {
      ghost var L := lines[i..];
      assert L[0] == lines[i] && L[1..] == lines[i + 1..];
      if IsInsertHead(lines[i]) {
        var end := FindBlockEnd(lines, i);
        SliceOfSuffix(lines, i, end);
        if Owns(o, lines[i + 1..end]) {
          StripOwned(o, L);
          i := end;
          continue;
        }
      }
      StripStep(o, out, L);
      out := out + [lines[i]];
      i := i + 1;
    }
    StripNone(o);
    assert lines[|lines|..] == [] && out + [] == out;
    r := Join(out);
  }

  /** The block `sync_skin_patch` compiles: one fresh id per mounted package. */
  method CompileSkinBlock(packages: seq<string>) returns (block: string)
    ensures block == Unlines([INSERT_LINE] + SkinBlockRows(packages))
  {
    ghost var rows := SkinBlockRows(packages);
    block := INSERT_LINE + "\n";
    assert ([INSERT_LINE] + rows)[1..] == rows;
    var used: set<string> := {};
    for i := 0 to |packages|
      invariant block + Unlines(SkinRowLines(packages[i..], SkinIds(packages[i..], used)))
             == Unlines([INSERT_LINE] + rows)
    {
      assert packages[i..][0] == packages[i] && packages[i..][1..] == packages[i + 1..];
      var id, _ := FreshName(SkinId(packages[i]), used);
      ghost var rest := SkinRowLines(packages[i + 1..], SkinIds(packages[i + 1..], used + {id}));
      ghost var head := [SkinIdLine(id), SkinNameLine(packages[i])];
      assert SkinIds(packages[i..], used)[1..] == SkinIds(packages[i + 1..], used + {id});
      assert SkinRowLines(packages[i..], SkinIds(packages[i..], used)) == head + rest;
      UnlinesConcat(head, rest);
      UnlinesOfTwo(SkinIdLine(id), SkinNameLine(packages[i]));
      ConcatAssoc(block, SkinIdLine(id) + "\n" + SkinNameLine(packages[i]) + "\n", Unlines(rest));
      used := used + {id};
      block := block + (SkinIdLine(id) + "\n" + SkinNameLine(packages[i]) + "\n");
    }
    assert packages[|packages|..] == [];
  }

  lemma UnlinesOfTwo(a: string, b: string)
    ensures Unlines([a, b]) == a + "\n" + b + "\n"
  {
    assert [a, b][1..] == [b];
    assert Unlines([b]) == b + "\n";
    ConcatAssoc(a + "\n", b, "\n");
  }

  /** The block `sync_mcp_patch` compiles, or nothing when a record does not serialize. */
  method CompileMcpBlock(records: seq<McpRecord>) returns (block: Option<string>)
    ensures AllSerialized(records) ==> block == Some(Unlines([INSERT_LINE] + McpRows(records)))
    ensures !AllSerialized(records) ==> block.None?
  {
    var text := INSERT_LINE + "\n";
    for i := 0 to |records|
      invariant AllSerialized(records[..i])
      invariant text == Unlines([INSERT_LINE] + McpRows(records[..i]))
    {
      if records[i].config.None? { return None; }
      assert records[..i + 1] == records[..i] + [records[i]];
      McpRowsConcat(records[..i], [records[i]]);
      assert McpRows([records[i]]) == McpRow(records[i]) by { assert [records[i]][1..] == []; }
      ConcatAssoc([INSERT_LINE], McpRows(records[..i]), McpRow(records[i]));
      UnlinesConcat([INSERT_LINE] + McpRows(records[..i]), McpRow(records[i]));
      text := text + Unlines(McpRow(records[i]));
    }
    assert records[..|records|] == records;
    block := Some(text);
  }

  /** A profile's `cordis.patch.yml`; a missing file reads as the empty text. */
  class PatchFile {
    var text: string

    constructor (initial: string)
      ensures text == initial
    {
      text := initial;
    }

    /** `read_patch_state` */
    method ReadPatchState() returns (disables: set<string>, forced: set<string>)
      ensures forall id :: id in disables <==> (id, true) in ReadPairs(Split(text))
      ensures forall id :: id in forced <==> (id, false) in ReadPairs(Split(text))
    {
      disables, forced := {}, {};
      var lines := Split(text);
      for i := 0 to |lines|
        invariant forall id :: id in disables || (id, true) in ReadPairs(lines[i..]) <==> (id, true) in ReadPairs(lines)
        invariant forall id :: id in forced || (id, false) in ReadPairs(lines[i..]) <==> (id, false) in ReadPairs(lines)
      {
        assert lines[i..][0] == lines[i] && lines[i..][1..] == lines[i + 1..];
        if i + 1 < |lines| {
          assert lines[i..][1] == lines[i + 1];
          match (ReadRow(lines[i]), ReadFlag(lines[i + 1])) {
            case (Some(id), Some(v)) =>
              if v == "true" { disables := disables + {id}; }
              else if v == "false" { forced := forced + {id}; }
            case _ =>
          }
        }
      }
    }

    /** `disable_row`: afterwards the row reads as disabled and no other entry has changed. */
    method DisableRow(id: string)
      modifies this
      ensures text == DisableText(old(text), id)
      ensures ReadableText(old(text)) && ValidRowId(id) ==>
                ReadableText(text) && EntriesOf(text) == AbsDisable(old(EntriesOf(text)), id)
    {
      var disables, _ := ReadPatchState();
      if id !in disables {
        text := AppendBlockToText(text, RowBlock(id, true));
      }
      if ReadableText(old(text)) && ValidRowId(id) { DisableRefines(old(text), id); }
    }

    /** `enable_row` */
    method EnableRow(id: string)
      modifies this
      ensures text == EnableText(old(text), id)
      ensures ReadableText(old(text)) && ValidRowId(id) ==>
                ReadableText(text) && EntriesOf(text) == AbsEnable(old(EntriesOf(text)), id)
    {
      var _, forced := ReadPatchState();
      var after, removed := RemoveBlocksLoop(text, id, ["true"]);
      if removed {
        text := RestorePlaceholderLoop(after);
      } else if id !in forced {
        text := AppendBlockToText(text, RowBlock(id, false));
      }
      if ReadableText(old(text)) && ValidRowId(id) { EnableRefines(old(text), id); }
    }

    /** `remove_row_blocks` */
    method RemoveRowBlocks(ids: seq<string>)
      modifies this
      ensures text == RemoveRowsText(old(text), ids)
      ensures ReadableText(old(text)) ==>
                ReadableText(text) && EntriesOf(text) == AbsRemove(old(EntriesOf(text)), ids)
    {
      var next := text;
      var changed := false;
      for i := 0 to |ids|
        invariant text == old(text)
        invariant WithoutAll(next, ids[i..]) == WithoutAll(text, ids)
        invariant |Split(next)| <= |Split(text)|
        invariant if changed then |Split(next)| < |Split(text)| else next == text
      {
        assert ids[i..][0] == ids[i] && ids[i..][1..] == ids[i + 1..];
        var after, removed := RemoveBlocksLoop(next, ids[i], ["true", "false"]);
        JoinSplit(next);
        RemoveBlocksShorter(Split(next), ids[i], Values(true));
        RemoveBlocksNewlineFree(Split(next), ids[i], Values(true));
        SplitOfJoin(RemoveBlocks(Split(next), ids[i], Values(true)));
        if removed {
          next := after;
          changed := true;
        }
      }
      assert ids[|ids|..] == [];
      if changed {
        text := RestorePlaceholderLoop(next);
      }
      if ReadableText(old(text)) { RemoveRowsRefines(old(text), ids); }
    }

    /** `set_plugin_enabled` from its row ids on: rows are switched one by one until an id cannot be written. The
        rows switched read as disabled or not as asked, and no fact about any other row changes. */
    method SetPluginEnabled(ids: seq<string>, enabled: bool) returns (ok: bool)
      modifies this
      ensures ok <==> ids != [] && FirstUnwritable(ids) == |ids|
      ensures text == Run(old(text), Switches(ids[..FirstUnwritable(ids)], enabled))
      ensures ReadableText(old(text)) ==>
                ReadableText(text)
                && Switched(ids[..FirstUnwritable(ids)], enabled, old(ReadPairs(Split(text))), ReadPairs(Split(text)))
    {
      hide Switched, Switches, ReadableText, ReadPairs, Split;
      hide EntriesOf, AbsEnable, AbsDisable, EnableText, DisableText;
      ghost var n := FirstUnwritable(ids);
      ghost var ops := Switches(ids[..n], enabled);
      if ReadableText(text) { SwitchesTake(text, ids[..n], enabled); }
      if ids == [] {
        NoSwitches(text, enabled);
        return false;
      }
      for i := 0 to |ids|
        invariant i <= n
        invariant Run(text, Switches(ids[i..n], enabled)) == Run(old(text), ops)
      {
        if !ValidRowId(ids[i]) {
          assert ids[i..n] == [];
          NoSwitches(text, enabled);
          return false;
        }
        assert ids[i..n][0] == ids[i] && ids[i..n][1..] == ids[i + 1..n];
        SwitchesStep(ids[i..n], enabled);
        if enabled { EnableRow(ids[i]); } else { DisableRow(ids[i]); }
      }
      assert ids[|ids|..n] == [];
      NoSwitches(text, enabled);
      ok := true;
    }

    /** `sync_mcp_patch`: fails, and leaves the file alone, when an enabled record cannot be serialized. */
    method SyncMcpPatch(records: seq<McpRecord>) returns (ok: bool)
      modifies this
      ensures ok <==> McpSyncRows(records).Some?
      ensures text == Step(old(text), SyncMcp(records))
      ensures ReadableText(old(text)) && SingleLine(records) ==>
                ReadableText(text) && EntriesOf(text) == AbsStep(old(EntriesOf(text)), SyncMcp(records))
    {
      var stripped := RemoveInsertBlocks(Mcp, text);
      var enabled := EnabledRecords(records);
      if enabled == [] {
        text := RestorePlaceholderLoop(stripped);
        ok := true;
      } else {
        var block := CompileMcpBlock(enabled);
        if block.Some? { text := AppendBlockToText(stripped, block.value); }
        ok := block.Some?;
      }
      if ReadableText(old(text)) && SingleLine(records) { StepRefines(old(text), SyncMcp(records)); }
    }

    /** `sync_skin_patch` */
    method SyncSkinPatch(skins: seq<SkinPackage>)
      modifies this
      ensures text == Step(old(text), SyncSkins(skins))
      ensures ReadableText(old(text)) && SingleLines(Mounted(skins)) ==>
                ReadableText(text) && EntriesOf(text) == AbsStep(old(EntriesOf(text)), SyncSkins(skins))
    {
      var stripped := RemoveInsertBlocks(Skin, text);
      var packages := Mounted(skins);
      assert SkinBlockRows(packages) == [] <==> packages == [];
      if packages == [] {
        text := RestorePlaceholderLoop(stripped);
      } else {
        var block := CompileSkinBlock(packages);
        text := AppendBlockToText(stripped, block);
      }
      if ReadableText(old(text)) && SingleLines(Mounted(skins)) { StepRefines(old(text), SyncSkins(skins)); }
    }
  }

  /** The index of the first id that cannot be written, or the number of ids. */
  function FirstUnwritable(ids: seq<string>): (n: nat)
    ensures n <= |ids| && (n < |ids| ==> !ValidRowId(ids[n]))
    ensures forall j :: 0 <= j < n ==> ValidRowId(ids[j])
  {
    if ids == [] || !ValidRowId(ids[0]) then 0
    else
      var n := 1 + FirstUnwritable(ids[1..]);
      assert forall j :: 1 <= j < n ==> ids[j] == ids[1..][j - 1];
      n
  }

  function Switches(ids: seq<string>, enabled: bool): seq<Op> {
    if ids == [] then []
    else [if enabled then Enable(ids[0]) else Disable(ids[0])] + Switches(ids[1..], enabled)
  }

  lemma NoSwitches(t: string, enabled: bool)
    ensures Run(t, Switches([], enabled)) == t
  {
  }

  lemma SwitchesStep(ids: seq<string>, enabled: bool)
    requires ids != []
    ensures Switches(ids, enabled) != [] && Switches(ids, enabled)[1..] == Switches(ids[1..], enabled)
    ensures Switches(ids, enabled)[0] == if enabled then Enable(ids[0]) else Disable(ids[0])
  {
  }

  lemma {:induction false} SwitchesAreValid(ids: seq<string>, enabled: bool)
    requires forall j :: 0 <= j < |ids| ==> ValidRowId(ids[j])
    ensures ValidOps(Switches(ids, enabled))
  {
    if ids != [] {
      assert forall j :: 0 <= j < |ids[1..]| ==> ids[1..][j] == ids[j + 1];
      SwitchesAreValid(ids[1..], enabled);
      var rest := Switches(ids[1..], enabled);
      assert forall j :: 1 <= j < |Switches(ids, enabled)| ==> Switches(ids, enabled)[j] == rest[j - 1];
    }
  }

  /** The facts after switching `ids`: each of them is disabled exactly when that was asked; a row that was not
      disabled is forced on, once; no other row has changed. */
  ghost predicate Switched(ids: seq<string>, enabled: bool, before: set<(string, bool)>, after: set<(string, bool)>) {
    && (forall id :: id in ids ==> ((id, true) in after <==> !enabled))
    && (forall id :: id in ids && (!enabled || (id, false) in before) ==>
          ((id, false) in after <==> (id, false) in before))
    && (forall id :: id in ids && enabled && (id, true) !in before ==> (id, false) in after)
    && (forall id, v: bool :: id !in ids ==> ((id, v) in after <==> (id, v) in before))
  }

  lemma {:induction false} SwitchedOverRun(s: set<(string, bool)>, ids: seq<string>, enabled: bool)
    ensures Switched(ids, enabled, s, ToggleRun(s, Switches(ids, enabled)))
    decreases |ids|
  {
    if ids != [] {
      SwitchesStep(ids, enabled);
      var next := ToggleStep(s, Switches(ids, enabled)[0]);
      SwitchedOverRun(next, ids[1..], enabled);
      assert ids == [ids[0]] + ids[1..];
    }
  }

  lemma {:induction false} SwitchesTake(t: string, ids: seq<string>, enabled: bool)
    requires ReadableText(t) && forall j :: 0 <= j < |ids| ==> ValidRowId(ids[j])
    ensures var after := Run(t, Switches(ids, enabled));
            ReadableText(after) && Switched(ids, enabled, ReadPairs(Split(t)), ReadPairs(Split(after)))
  {
    hide Switched, Run, ReadableText, ReadPairs;
    SwitchesAreValid(ids, enabled);
    RunRefines(t, Switches(ids, enabled));
    TogglesOverRuns(t, Switches(ids, enabled));
    SwitchedOverRun(ReadPairs(Split(t)), ids, enabled);
  }
}
