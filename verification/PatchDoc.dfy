/** What a patch file means: a list of top-level entries. The line loops are
    shown to act on that list. */
module PatchDoc {
  import opened Basics
  import opened TextLines
  import opened PatchLines
  import opened PatchText

  // ----- facts about single lines -----

  lemma {:induction false} TrimHead(l: string)
    ensures Trim(l) != [] ==> TrimStart(l) != [] && Trim(l)[0] == TrimStart(l)[0]
  {
    TrimEndSplit(TrimStart(l));
    var k :| 0 <= k <= |TrimStart(l)| && TrimEnd(TrimStart(l)) == TrimStart(l)[..k] && AllSpace(TrimStart(l)[k..]);
  }

  lemma {:induction false} TrimCrHead(l: string)
    ensures TrimCr(l) != [] ==> l != [] && TrimCr(l)[0] == l[0]
    ensures l != [] && !IsSpace(l[0]) ==> TrimCr(l) != []
    ensures TrimCr(l) <= l
  {
    TrimCrSplit(l);
    var k :| 0 <= k <= |l| && TrimCr(l) == l[..k] && AllSpace(l[k..]);
    assert l[0..] == l;
  }

  lemma {:induction false} BeforeHashHead(l: string)
    ensures TrimStart(BeforeHash(l)) != [] ==> TrimStart(l) != [] && TrimStart(l)[0] == TrimStart(BeforeHash(l))[0]
    ensures TrimStart(BeforeHash(l)) != [] ==> TrimStart(l)[0] != '#'
  {
    BeforeHashPrefix(l);
    var k := |BeforeHash(l)|;
    assert l == l[..k] + l[k..];
    if TrimStart(l[..k]) != [] {
      TrimEmpty(l[..k]);
      TrimStartAppend(l[..k], l[k..]);
      TrimStartSplit(l[..k]);
      var j :| 0 <= j <= k && TrimStart(l[..k]) == l[..k][j..] && AllSpace(l[..k][..j]);
      assert TrimStart(l[..k])[0] == l[j] && l[j] == BeforeHash(l)[j];
    }
  }

  /** A `disabled:` line, comment stripped or not, carries content and is no entry head. */
  lemma {:induction false} FlagFacts(l: string)
    ensures RawFlag(l).Some? ==> IsContent(l) && !IsEntryHead(l)
    ensures ReadFlag(l).Some? ==> IsContent(l) && !IsEntryHead(l)
  {
    FlagHead(l);
    FlagHead(BeforeHash(l));
    BeforeHashHead(l);
  }

  lemma {:induction false} FlagHead(l: string)
    ensures RawFlag(l).Some? ==> TrimStart(l) != [] && TrimStart(l)[0] == 'd'
  {
    if RawFlag(l).Some? {
      TrimOfTrimCr(l);
      TrimHead(l);
      assert FLAG_KEY[0] == 'd';
      assert FLAG_KEY <= Trim(TrimCr(l));
    }
  }

  /** The head line of a top-level sequence entry. */
  predicate IsEntryHead(l: string) { "- " <= l }

  lemma {:induction false} EntryHeadFacts(l: string)
    requires IsEntryHead(l)
    ensures Breaks(l) && IsContent(l) && !IsPlaceholder(l)
  {
    assert l[0] == '-';
    TrimCrHead(l);
    TrimHead(l);
  }

  lemma {:induction false} RowHead(l: string)
    ensures RawRow(l).Some? ==> IsEntryHead(l)
    ensures ReadRow(l).Some? ==> IsEntryHead(l)
    ensures IsInsertHead(l) ==> IsEntryHead(l)
  {
    TrimCrHead(l);
    TrimCrHead(BeforeHash(l));
    BeforeHashPrefix(l);
    if RawRow(l).Some? { assert ROW_HEAD <= l; assert ROW_HEAD[..2] == "- "; }
    if ReadRow(l).Some? { assert ROW_HEAD <= l; assert ROW_HEAD[..2] == "- "; }
    if IsInsertHead(l) { assert INSERT_HEAD <= l; assert INSERT_HEAD[..2] == "- "; }
  }

  /** An indented or empty line heads nothing. */
  lemma {:induction false} InnerLine(l: string)
    requires !Breaks(l)
    ensures !IsEntryHead(l) && RawRow(l).None? && ReadRow(l).None? && !IsInsertHead(l)
  {
    RowHead(l);
    if IsEntryHead(l) { EntryHeadFacts(l); }
  }

  lemma {:induction false} OwnsContent(o: Owner, l: string)
    requires OwnsLine(o, l)
    ensures IsContent(l)
  {
    var m := BeforeHash(TrimCr(l));
    assert TrimStartChar([], '-') == [] && Trim([]) == [];
    TrimHead(m);
    BeforeHashHead(TrimCr(l));
    TrimOfTrimCr(l);
    TrimEmpty(l);
    TrimEmpty(TrimCr(l));
  }

  lemma {:induction false} PlaceholderContent(l: string)
    requires IsPlaceholder(l)
    ensures IsContent(l)
  {
    TrimHead(l);
  }

  // ----- chunks: a line and the indented or empty lines after it -----

  function Flag(l: string): Option<bool> {
    match RawFlag(l)
    case None => None
    case Some(v) => if v == "true" then Some(true) else if v == "false" then Some(false) else None
  }

  /** A `- id:` entry the toggle editors can read and remove: no inline comment
      changes its meaning, and its `disabled:` line, if second, is adjacent and last. */
  predicate RowOk(c: seq<string>)
    requires c != []
  {
    && ReadRow(c[0]) == RawRow(c[0])
    && (RawRow(c[0]).Some? ==>
          && (|c| >= 2 ==> Flag(BeforeHash(c[1])) == Flag(c[1]))
          && (|Content(c)| >= 2 && Flag(Content(c)[1]).Some? ==> c[1] == Content(c)[1] && |Content(c)| == 2))
  }

  predicate ChunkOk(c: seq<string>)
    requires c != []
  {
    if IsEntryHead(c[0]) then RowOk(c) else Content(c) == []
  }

  /** A top-level sequence written as the launcher can edit it: content only in
      entries, each headed by a column-0 dash. */
  predicate Plain(L: seq<string>)
    decreases |L|
  {
    L == [] || (ChunkOk(L[..BlockEnd(L)]) && Plain(L[BlockEnd(L)..]))
  }

  /** The meaning of the file: the content lines of its entries, in order. */
  function Entries(L: seq<string>): seq<seq<string>>
    decreases |L|
  {
    if L == [] then []
    else Entry(L[..BlockEnd(L)]) + Entries(L[BlockEnd(L)..])
  }

  /** The entry a chunk states, if it is headed by one. */
  function Entry(c: seq<string>): seq<seq<string>>
    requires c != []
  {
    if IsEntryHead(c[0]) then [Content(c)] else []
  }

  predicate Readable(L: seq<string>) {
    OnlyPlaceholder(L) || Plain(L)
  }

  /** A valid patch file: the placeholder alone, or at least one entry and no placeholder beside it. */
  predicate Doc(L: seq<string>) {
    OnlyPlaceholder(L) || (Plain(L) && Entries(L) != [])
  }

  lemma {:induction false} BodyLenConcat(a: seq<string>, R: seq<string>)
    requires forall i :: 0 <= i < |a| ==> !Breaks(a[i])
    ensures BodyLen(a + R) == |a| + BodyLen(R)
  {
    if a == [] {
      assert a + R == R;
    } else {
      assert (a + R)[1..] == a[1..] + R;
      BodyLenConcat(a[1..], R);
    }
  }

  /** Lines that never start a chunk. */
  predicate Inner(a: seq<string>) {
    forall i :: 0 <= i < |a| ==> !Breaks(a[i])
  }

  predicate IsChunk(c: seq<string>) {
    c != [] && Inner(c[1..])
  }

  lemma {:induction false} FirstChunk(L: seq<string>)
    requires L != []
    ensures var n := BlockEnd(L);
            && L == L[..n] + L[n..]
            && IsChunk(L[..n])
            && (L[n..] != [] ==> Breaks(L[n..][0]))
  {
    var n := BlockEnd(L);
    assert forall i :: 0 <= i < n - 1 ==> L[..n][1..][i] == L[1..][i];
    if n < |L| { assert L[n] == L[1..][n - 1]; }
  }

  /** Blank and comment lines at the end of a chunk change neither its content nor its form. */
  lemma {:induction false} PadChunk(c: seq<string>, pre: seq<string>)
    requires IsChunk(c) && Content(pre) == []
    ensures Content(c + pre) == Content(c)
    ensures ChunkOk(c + pre) <==> ChunkOk(c)
  {
    ContentConcat(c, pre);
    if pre == [] {
      assert c + pre == c;
    } else if |c| == 1 {
      assert (c + pre)[1] == pre[0];
      ContentIndexNone(pre, 0);
      FlagFacts(pre[0]);
    } else {
      assert (c + pre)[1] == c[1];
    }
  }

  /** The chunk at the front of a file that starts with a given chunk. */
  lemma {:induction false} FrontOf(c: seq<string>, R: seq<string>)
    requires IsChunk(c)
    ensures var L, m := c + R, BodyLen(R);
            && BlockEnd(L) == |c| + m
            && L[..|c| + m] == c + R[..m]
            && L[|c| + m..] == R[m..]
  {
    assert (c + R)[1..] == c[1..] + R;
    BodyLenConcat(c[1..], R);
  }

  /** Leading lines that start no chunk carry no content in a plain file. */
  lemma {:induction false} FrontPadding(R: seq<string>)
    requires Plain(R)
    ensures var m := BodyLen(R);
            Content(R[..m]) == [] && Plain(R[m..]) && Entries(R) == Entries(R[m..])
  {
    var m := BodyLen(R);
    if m == 0 {
      assert R[..0] == [] && R[0..] == R;
    } else {
      InnerLine(R[0]);
      assert BlockEnd(R) == m;
    }
  }

  /** Putting a chunk in front of a readable rest, whatever the rest starts with. */
  lemma {:induction false} ConsChunk(c: seq<string>, R: seq<string>)
    requires IsChunk(c) && Plain(R)
    ensures Plain(c + R) <==> ChunkOk(c)
    ensures Entries(c + R) == Entry(c) + Entries(R)
  {
    hide IsEntryHead, Content, Breaks, RowOk;
    FrontOf(c, R);
    FrontPadding(R);
    PadChunk(c, R[..BodyLen(R)]);
  }

  lemma {:induction false} ContentIndexNone(L: seq<string>, i: nat)
    requires Content(L) == [] && i < |L|
    ensures !IsContent(L[i])
  {
    if IsContent(L[i]) { ContentIndex(L, i); }
  }

  lemma {:induction false} NoContentPlain(L: seq<string>)
    requires Content(L) == []
    ensures Plain(L) && Entries(L) == []
    decreases |L|
  {
    if L != [] {
      var n := BlockEnd(L);
      FirstChunk(L);
      ContentConcat(L[..n], L[n..]);
      ContentIndexNone(L, 0);
      if IsEntryHead(L[0]) { EntryHeadFacts(L[0]); }
      NoContentPlain(L[n..]);
    }
  }

  /** The next chunk of a plain file never opens with a `disabled:` line. */
  lemma {:induction false} PlainHead(R: seq<string>)
    requires Plain(R) && R != []
    ensures RawFlag(R[0]).None? && ReadFlag(R[0]).None?
  {
    FlagFacts(R[0]);
    if !IsEntryHead(R[0]) {
      ContentIndexNone(R[..BlockEnd(R)], 0);
    }
  }

  /** The first chunk of a plain file and what follows it. */
  lemma {:induction false} PlainSplit(L: seq<string>) returns (c: seq<string>, R: seq<string>)
    requires L != []
    ensures L == c + R && IsChunk(c) && |R| < |L| && c == L[..BlockEnd(L)] && R == L[BlockEnd(L)..]
    ensures Plain(L) <==> ChunkOk(c) && Plain(R)
    ensures Entries(L) == Entry(c) + Entries(R)
    ensures R != [] ==> Breaks(R[0])
    ensures R != [] && Plain(R) ==> RawFlag(R[0]).None? && ReadFlag(R[0]).None?
  {
    c, R := L[..BlockEnd(L)], L[BlockEnd(L)..];
    FirstChunk(L);
    if R != [] && Plain(R) { PlainHead(R); }
  }

  /** Two files one after the other, the second starting at column 0. */
  lemma {:induction false} PlainConcat(A: seq<string>, B: seq<string>)
    requires B == [] || Breaks(B[0])
    requires Plain(A) && Plain(B)
    ensures Plain(A + B) && Entries(A + B) == Entries(A) + Entries(B)
    decreases |A|
  {
    if A == [] {
      assert A + B == B;
    } else {
      var c, R := PlainSplit(A);
      PlainConcat(R, B);
      ConsChunk(c, R + B);
      ConcatAssoc(c, R, B);
      ConcatAssoc(Entry(c), Entries(R), Entries(B));
    }
  }

  lemma EmptyLine()
    ensures !Breaks("") && Content([""]) == []
  {
  }

  lemma {:induction false} DropLastBlank(A: seq<string>)
    requires Plain(A + [""])
    ensures Plain(A) && Entries(A + [""]) == Entries(A)
    decreases |A|
  {
    hide IsEntryHead, Content, Breaks, RowOk;
    EmptyLine();
    if A == [] {
      assert A + [""] == [""];
      NoContentPlain([""]);
    } else {
      var n := BlockEnd(A);
      var c, R := A[..n], A[n..];
      FirstChunk(A);
      assert A == c + R;
      ConcatAssoc(c, R, [""]);
      assert Plain(R + [""]) && ChunkOk(c) by {
        FrontOf(c, R + [""]);
        if R == [] {
          NoContentPlain([""]);
          assert R + [""] == [""] && [""][..1] == [""];
          PadChunk(c, [""]);
        } else {
          assert BodyLen(R + [""]) == 0;
          assert c + (R + [""])[..0] == c && (R + [""])[0..] == R + [""];
        }
      }
      DropLastBlank(R);
      ConsChunk(c, R);
      ConsChunk(c, R + [""]);
    }
  }

  lemma {:induction false} PlainPad(A: seq<string>)
    requires Plain(A)
    ensures Plain(A + [""]) && Entries(A + [""]) == Entries(A)
    decreases |A|
  {
    if A == [] {
      EmptyLine();
      NoContentPlain([""]);
    } else {
      var c, R := PlainSplit(A);
      PlainPad(R);
      ConsChunk(c, R + [""]);
      ConcatAssoc(c, R, [""]);
    }
  }

  // ----- entries as toggles and launcher blocks -----

  /** The `(id, disabled)` an entry states, if it is a toggle row. */
  function ToggleOf(e: seq<string>): Option<(string, bool)> {
    if |e| == 2 && RawRow(e[0]).Some? && Flag(e[1]).Some? then Some((RawRow(e[0]).value, Flag(e[1]).value)) else None
  }

  function Toggles(es: seq<seq<string>>): set<(string, bool)> {
    if es == [] then {}
    else (match ToggleOf(es[0]) case Some(t) => {t} case None => {}) + Toggles(es[1..])
  }

  predicate IsToggle(e: seq<string>, id: string, both: bool) {
    ToggleOf(e) == Some((id, true)) || (both && ToggleOf(e) == Some((id, false)))
  }

  function DropToggles(es: seq<seq<string>>, id: string, both: bool): seq<seq<string>> {
    if es == [] then []
    else (if IsToggle(es[0], id, both) then [] else [es[0]]) + DropToggles(es[1..], id, both)
  }

  /** The entry is an insert block the launcher compiles. */
  predicate IsOwned(o: Owner, e: seq<string>) {
    e != [] && IsInsertHead(e[0]) && Owns(o, e[1..])
  }

  function DropOwned(o: Owner, es: seq<seq<string>>): seq<seq<string>> {
    if es == [] then []
    else (if IsOwned(o, es[0]) then [] else [es[0]]) + DropOwned(o, es[1..])
  }

  lemma {:induction false} DropOwnedIdempotent(o: Owner, es: seq<seq<string>>)
    ensures DropOwned(o, DropOwned(o, es)) == DropOwned(o, es)
    ensures forall i :: 0 <= i < |DropOwned(o, es)| ==> !IsOwned(o, DropOwned(o, es)[i])
  {
    if es != [] {
      DropOwnedIdempotent(o, es[1..]);
      var rest := DropOwned(o, es[1..]);
      assert [] + rest == rest;
      assert ([es[0]] + rest)[1..] == rest;
    }
  }

  function Values(both: bool): seq<string> {
    if both then ["true", "false"] else ["true"]
  }

  lemma {:induction false} ContentOfChunk(c: seq<string>)
    requires c != [] && IsContent(c[0])
    ensures Content(c) == [c[0]] + Content(c[1..])
  {
  }

  /** On an entry's chunk, the pair test of the line loop is the toggle test of the entry. */
  lemma {:induction false} PairIsToggle(c: seq<string>, id: string, both: bool)
    requires IsChunk(c) && IsEntryHead(c[0]) && RowOk(c)
    ensures IsPairOf(c, id, Values(both)) <==> IsToggle(Content(c), id, both)
    ensures IsPairOf(c, id, Values(both)) ==> Content(c[2..]) == []
  {
    hide RawRow, ReadRow, RawFlag, IsContent, IsEntryHead, BeforeHash;
    EntryHeadFacts(c[0]);
    ContentOfChunk(c);
    if IsPairOf(c, id, Values(both)) {
      assert Flag(c[1]).Some?;
      FlagFacts(c[1]);
      ContentOfChunk(c[1..]);
      assert c[1..][0] == c[1] && c[1..][1..] == c[2..];
      assert Content(c) == [c[0]] + ([c[1]] + Content(c[2..]));
      assert Content(c)[1] == c[1];
    }
  }

  lemma {:induction false} RemoveSkips(a: seq<string>, R: seq<string>, id: string, values: seq<string>)
    requires Inner(a)
    ensures RemoveBlocks(a + R, id, values) == a + RemoveBlocks(R, id, values)
  {
    hide Breaks, RawRow, RawFlag;
    if a == [] {
      assert a + R == R;
    } else {
      InnerLine(a[0]);
      assert (a + R)[1..] == a[1..] + R;
      RemoveSkips(a[1..], R, id, values);
    }
  }

  lemma {:induction false} RemoveChunk(c: seq<string>, R: seq<string>, id: string, values: seq<string>)
    requires IsChunk(c)
    requires R != [] ==> RawFlag(R[0]).None?
    ensures RemoveBlocks(c + R, id, values)
         == (if IsPairOf(c, id, values) then c[2..] else c) + RemoveBlocks(R, id, values)
  {
    hide Breaks, RawRow, RawFlag;
    var L := c + R;
    if IsPairOf(c, id, values) {
      assert IsPairOf(L, id, values);
      assert L[2..] == c[2..] + R;
      assert forall i :: 0 <= i < |c[2..]| ==> c[2..][i] == c[1..][i + 1];
      RemoveSkips(c[2..], R, id, values);
    } else {
      assert !IsPairOf(L, id, values) by {
        if |c| == 1 && R != [] { assert L[1] == R[0]; }
      }
      assert L[1..] == c[1..] + R;
      RemoveSkips(c[1..], R, id, values);
      assert c == [c[0]] + c[1..];
      ConcatAssoc([c[0]], c[1..], RemoveBlocks(R, id, values));
    }
  }

  /** The row-removal loop filters the entries. */
  lemma {:induction false} RemoveBlocksRefines(L: seq<string>, id: string, both: bool)
    requires Plain(L)
    ensures var out := RemoveBlocks(L, id, Values(both));
            Plain(out) && Entries(out) == DropToggles(Entries(L), id, both)
    decreases |L|
  {
    hide Breaks, RawRow, RawFlag, ReadRow, BeforeHash, IsEntryHead;
    if L != [] {
      var n := BlockEnd(L);
      var c, R := L[..n], L[n..];
      FirstChunk(L);
      if R != [] { PlainHead(R); }
      RemoveChunk(c, R, id, Values(both));
      RemoveBlocksRefines(R, id, both);
      var R' := RemoveBlocks(R, id, Values(both));
      var keep := if IsPairOf(c, id, Values(both)) then c[2..] else c;
      if IsEntryHead(c[0]) {
        PairIsToggle(c, id, both);
      } else {
        RowHead(c[0]);
      }
      if keep == [] {
        assert keep + R' == R';
      } else {
        if IsPairOf(c, id, Values(both)) {
          assert keep[0] == c[1..][1];
          InnerLine(keep[0]);
          assert forall i :: 0 <= i < |keep[1..]| ==> keep[1..][i] == c[1..][i + 2];
        }
        ConsChunk(keep, R');
      }
      DropTogglesConcat(if IsEntryHead(c[0]) then [Content(c)] else [], Entries(R), id, both);
    }
  }

  lemma {:induction false} DropTogglesConcat(a: seq<seq<string>>, b: seq<seq<string>>, id: string, both: bool)
    ensures DropToggles(a + b, id, both) == DropToggles(a, id, both) + DropToggles(b, id, both)
  {
    if a == [] {
      assert a + b == b;
    } else {
      assert (a + b)[1..] == a[1..] + b;
      DropTogglesConcat(a[1..], b, id, both);
    }
  }

  lemma {:induction false} DropOwnedConcat(o: Owner, a: seq<seq<string>>, b: seq<seq<string>>)
    ensures DropOwned(o, a + b) == DropOwned(o, a) + DropOwned(o, b)
  {
    if a == [] {
      assert a + b == b;
    } else {
      assert (a + b)[1..] == a[1..] + b;
      DropOwnedConcat(o, a[1..], b);
    }
  }

  lemma {:induction false} StripSkips(o: Owner, a: seq<string>, R: seq<string>)
    requires Inner(a)
    ensures StripBlocks(o, a + R) == a + StripBlocks(o, R)
  {
    hide Breaks, IsInsertHead, Owns;
    if a == [] {
      assert a + R == R;
    } else {
      InnerLine(a[0]);
      assert (a + R)[1..] == a[1..] + R && (a + R)[0] == a[0];
      StripSkips(o, a[1..], R);
      assert a == [a[0]] + a[1..];
      ConcatAssoc([a[0]], a[1..], StripBlocks(o, R));
    }
  }

  lemma {:induction false} OwnsContentLines(o: Owner, body: seq<string>)
    ensures Owns(o, body) <==> Owns(o, Content(body))
  {
    if Owns(o, body) {
      var k :| 0 <= k < |body| && OwnsLine(o, body[k]);
      OwnsContent(o, body[k]);
      ContentIndex(body, k);
    }
    if Owns(o, Content(body)) {
      var k :| 0 <= k < |Content(body)| && OwnsLine(o, Content(body)[k]);
      ContentMember(body, Content(body)[k]);
    }
  }

  /** On an entry's chunk, the ownership test of the line loop is the one on the entry. */
  lemma {:induction false} OwnedChunk(o: Owner, c: seq<string>)
    requires IsChunk(c)
    ensures IsInsertHead(c[0]) && Owns(o, c[1..]) <==> IsEntryHead(c[0]) && IsOwned(o, Content(c))
  {
    RowHead(c[0]);
    if IsEntryHead(c[0]) {
      EntryHeadFacts(c[0]);
      ContentOfChunk(c);
      OwnsContentLines(o, c[1..]);
      assert Content(c)[1..] == Content(c[1..]);
    }
  }

  /** The insert-block removal loop filters the entries. */
  lemma {:induction false} StripBlocksRefines(o: Owner, L: seq<string>)
    requires Plain(L)
    ensures var out := StripBlocks(o, L);
            Plain(out) && Entries(out) == DropOwned(o, Entries(L))
    decreases |L|
  {
    if L != [] {
      var c, R := PlainSplit(L);
      StripBlocksRefines(o, R);
      OwnedChunk(o, c);
      DropOwnedConcat(o, Entry(c), Entries(R));
      StripChunk(o, c, R);
      if !(IsInsertHead(c[0]) && Owns(o, c[1..])) {
        ConsChunk(c, StripBlocks(o, R));
      }
    }
  }

  lemma {:induction false} StripChunk(o: Owner, c: seq<string>, R: seq<string>)
    requires IsChunk(c) && (R != [] ==> Breaks(R[0]))
    ensures StripBlocks(o, c + R)
         == (if IsInsertHead(c[0]) && Owns(o, c[1..]) then [] else c) + StripBlocks(o, R)
  {
    hide Breaks, IsInsertHead, Owns;
    FrontOf(c, R);
    var L := c + R;
    assert BodyLen(R) == 0;
    assert L[1..BlockEnd(L)] == c[1..] && L[BlockEnd(L)..] == R;
    if !(IsInsertHead(c[0]) && Owns(o, c[1..])) {
      assert L[1..] == c[1..] + R;
      StripSkips(o, c[1..], R);
      assert c == [c[0]] + c[1..];
      ConcatAssoc([c[0]], c[1..], StripBlocks(o, R));
    }
  }

  // ----- reading back -----

  lemma {:induction false} TogglesConcat(a: seq<seq<string>>, b: seq<seq<string>>)
    ensures Toggles(a + b) == Toggles(a) + Toggles(b)
  {
    if a == [] {
      assert a + b == b;
    } else {
      assert (a + b)[1..] == a[1..] + b;
      TogglesConcat(a[1..], b);
    }
  }

  lemma {:induction false} ReadSkips(a: seq<string>, R: seq<string>)
    requires Inner(a)
    ensures ReadPairs(a + R) == ReadPairs(R)
  {
    if a == [] {
      assert a + R == R;
    } else {
      InnerLine(a[0]);
      assert (a + R)[1..] == a[1..] + R;
      ReadSkips(a[1..], R);
      if |a + R| < 2 { assert R == [] && a[1..] + R == []; }
    }
  }

  /** The state the launcher reads is exactly the toggle entries of the file. */
  lemma {:induction false} ReadPairsRefines(L: seq<string>)
    requires Plain(L)
    ensures ReadPairs(L) == Toggles(Entries(L))
    decreases |L|
  {
    if L != [] {
      var c, R := PlainSplit(L);
      ReadPairsRefines(R);
      ReadChunk(c, R);
      TogglesConcat(Entry(c), Entries(R));
    }
  }

  lemma {:induction false} ReadChunk(c: seq<string>, R: seq<string>)
    requires IsChunk(c) && ChunkOk(c)
    requires R != [] ==> ReadFlag(R[0]).None?
    ensures ReadPairs(c + R) == Toggles(Entry(c)) + ReadPairs(R)
  {
    hide RawRow, ReadRow, RawFlag, BeforeHash, Breaks;
    var L := c + R;
    assert L[1..] == c[1..] + R;
    ReadSkips(c[1..], R);
    RowHead(c[0]);
    if IsEntryHead(c[0]) {
      EntryHeadFacts(c[0]);
      ContentOfChunk(c);
      assert Toggles(Entry(c)) == match ToggleOf(Content(c)) case Some(t) => {t} case None => {};
      if |c| >= 2 {
        assert L[1] == c[1];
        ReadSecond(c);
      } else {
        assert Content(c) == [c[0]];
      }
    }
  }

  lemma {:induction false} ReadSecond(c: seq<string>)
    requires IsChunk(c) && IsEntryHead(c[0]) && RowOk(c) && |c| >= 2
    ensures ToggleOf(Content(c))
         == if ReadRow(c[0]).Some? && Flag(BeforeHash(c[1])).Some?
            then Some((ReadRow(c[0]).value, Flag(BeforeHash(c[1])).value)) else None
  {
    EntryHeadFacts(c[0]);
    ContentOfChunk(c);
    FlagFacts(c[1]);
    if IsContent(c[1]) {
      ContentOfChunk(c[1..]);
      assert Content(c)[1] == c[1];
    }
  }

  // ----- placeholder, append, restore -----

  lemma {:induction false} CommentOutContent(L: seq<string>)
    requires OnlyPlaceholder(L)
    ensures Content(CommentOut(L)) == []
  {
    if IsPlaceholder(L[0]) {
      PlaceholderContent(L[0]);
      assert CommentOut(L)[1..] == L[1..];
      assert TrimStart("# []") == "# []";
    } else {
      CommentOutContent(L[1..]);
      assert CommentOut(L)[1..] == CommentOut(L[1..]);
    }
  }

  lemma {:induction false} ReviveContent(L: seq<string>)
    requires Content(L) == [] && HasCommentedPlaceholder(L)
    ensures OnlyPlaceholder(Revive(L)) && Content(Revive(L)) == ["[]"]
  {
    PlaceholderSpelling();
    if IsCommentedPlaceholder(L[0]) {
      assert Revive(L)[1..] == L[1..];
    } else {
      var i :| 0 <= i < |L| && IsCommentedPlaceholder(L[i]);
      assert L[1..][i - 1] == L[i];
      ReviveContent(L[1..]);
      assert Revive(L)[1..] == Revive(L[1..]);
    }
  }

  lemma {:induction false} PlaceholderSpelling()
    ensures IsPlaceholder("[]") && IsContent("[]")
  {
    assert TrimStart("[]") == "[]" && TrimEnd("[]") == "[]";
  }

  /** A file that holds the placeholder alone has no entry at all. */
  lemma {:induction false} PlaceholderHasNoHead(L: seq<string>, i: nat)
    requires OnlyPlaceholder(L) && i < |L|
    ensures !IsEntryHead(L[i])
  {
    if IsEntryHead(L[i]) {
      EntryHeadFacts(L[i]);
      ContentIndex(L, i);
    }
  }

  lemma {:induction false} NoHeadsNoEntries(L: seq<string>)
    requires forall i :: 0 <= i < |L| ==> !IsEntryHead(L[i])
    ensures Entries(L) == []
    ensures forall o :: StripBlocks(o, L) == L
    ensures forall id, values :: RemoveBlocks(L, id, values) == L
    ensures ReadPairs(L) == {}
    decreases |L|
  {
    hide IsEntryHead, RawRow, RawFlag, ReadRow, ReadFlag, IsInsertHead, Owns, Content;
    if L != [] {
      RowHead(L[0]);
      NoHeadsNoEntries(L[1..]);
      NoHeadsNoEntries(L[BlockEnd(L)..]);
      assert L == [L[0]] + L[1..];
    }
  }

  lemma {:induction false} PlaceholderFile(L: seq<string>)
    requires OnlyPlaceholder(L)
    ensures Entries(L) == [] && !Plain(L)
    ensures forall o :: StripBlocks(o, L) == L
    ensures forall id, values :: RemoveBlocks(L, id, values) == L
    ensures ReadPairs(L) == {}
  {
    forall i | 0 <= i < |L| ensures !IsEntryHead(L[i]) { PlaceholderHasNoHead(L, i); }
    NoHeadsNoEntries(L);
    if Plain(L) { PlainNoHeads(L); }
  }

  lemma {:induction false} PlainNoHeads(L: seq<string>)
    requires Plain(L) && forall i :: 0 <= i < |L| ==> !IsEntryHead(L[i])
    ensures Content(L) == []
    decreases |L|
  {
    if L != [] {
      FirstChunk(L);
      ContentConcat(L[..BlockEnd(L)], L[BlockEnd(L)..]);
      PlainNoHeads(L[BlockEnd(L)..]);
    }
  }

  lemma {:induction false} PlainTerminated(L: seq<string>)
    requires Plain(L)
    ensures Plain(Terminated(L)) && Entries(Terminated(L)) == Entries(L)
  {
    if |L| >= 2 && L[|L| - 1] == "" {
      assert L == Terminated(L) + [""];
      DropLastBlank(Terminated(L));
    }
  }

  lemma {:induction false} AllBlankContent(L: seq<string>)
    requires AllBlank(L)
    ensures Content(L) == []
  {
    if L != [] {
      TrimEmpty(L[0]);
      AllBlankContent(L[1..]);
    }
  }

  /** Appending a block adds its entries at the end, whatever the file held. */
  lemma {:induction false} AppendLinesRefines(L: seq<string>, B: seq<string>)
    requires Readable(L)
    requires Plain(B) && B != [] && Breaks(B[0])
    ensures var out := AppendLines(L, B);
            Plain(out) && Entries(out) == Entries(L) + Entries(B)
  {
    if AllBlank(L) {
      AllBlankContent(L);
      NoContentPlain(L);
    } else if OnlyPlaceholder(L) {
      PlaceholderFile(L);
      CommentOutContent(L);
      NoContentPlain(CommentOut(L));
      PlainTerminated(CommentOut(L));
      PlainConcat(Terminated(CommentOut(L)), B);
    } else {
      PlainTerminated(L);
      PlainConcat(Terminated(L), B);
    }
  }

  lemma {:induction false} EntriesHaveContent(L: seq<string>)
    requires Plain(L) && Content(L) != []
    ensures Entries(L) != []
    decreases |L|
  {
    if L != [] {
      FirstChunk(L);
      ContentConcat(L[..BlockEnd(L)], L[BlockEnd(L)..]);
      if !IsEntryHead(L[0]) { EntriesHaveContent(L[BlockEnd(L)..]); }
    }
  }

  lemma {:induction false} AddPlaceholderContent(L: seq<string>)
    requires L != [] && Content(L) == []
    ensures Content((if L[|L| - 1] == "" then L[..|L| - 1] else L) + ["[]", ""]) == ["[]"]
  {
    var K := if L[|L| - 1] == "" then L[..|L| - 1] else L;
    if L[|L| - 1] == "" {
      assert L == K + [""];
      ContentConcat(K, [""]);
    }
    PlaceholderSpelling();
    ContentConcat(K, ["[]", ""]);
    assert ["[]", ""][1..] == [""];
    assert Content([""]) == [];
  }

  /** Restoring the placeholder makes any readable file valid and changes no entry. */
  lemma {:induction false} RestoreLinesRefines(L: seq<string>)
    requires Readable(L) && L != []
    ensures Doc(RestoreLines(L)) && Entries(RestoreLines(L)) == Entries(L)
  {
    if Content(L) != [] {
      if Plain(L) { EntriesHaveContent(L); }
    } else {
      NoContentPlain(L);
      PlaceholderSpelling();
      if HasCommentedPlaceholder(L) {
        ReviveContent(L);
      } else {
        AddPlaceholderContent(L);
      }
      PlaceholderFile(RestoreLines(L));
    }
  }
}
