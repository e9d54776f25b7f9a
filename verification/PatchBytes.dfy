/** Edits undone and repeated, to the byte. */
module PatchBytes {
  import opened Basics
  import opened TextLines
  import opened PatchLines
  import opened PatchText
  import opened PatchDoc
  import opened PatchBlocks
  import opened PatchOps

  // ----- a removable pair is always one the launcher reads -----

  lemma {:induction false} TrimStartKeepsHash(s: string)
    requires '#' in s
    ensures '#' in TrimStart(s)
  {
    if IsSpace(s[0]) {
      assert s == [s[0]] + s[1..];
      TrimStartKeepsHash(s[1..]);
    }
  }

  lemma {:induction false} TrimEndKeepsHash(s: string)
    requires '#' in s
    ensures '#' in TrimEnd(s)
  {
    if IsSpace(s[|s| - 1]) {
      assert s == s[..|s| - 1] + [s[|s| - 1]];
      TrimEndKeepsHash(s[..|s| - 1]);
    }
  }

  lemma {:induction false} TrimKeepsHash(s: string)
    requires '#' in s
    ensures '#' in Trim(s)
  {
    TrimStartKeepsHash(s);
    TrimEndKeepsHash(TrimStart(s));
  }

  /** A flag line whose value is exactly `true` or `false` holds no comment. */
  lemma {:induction false} RawFlagIsRead(l: string)
    requires RawFlag(l) == Some("true") || RawFlag(l) == Some("false")
    ensures ReadFlag(l) == RawFlag(l)
  {
    var t := Trim(TrimCr(l));
    TrimOfTrimCr(l);
    if '#' in l {
      TrimKeepsHash(l);
      assert t == FLAG_KEY + t[|FLAG_KEY|..];
      FlagText(true);
      TrimKeepsHash(t[|FLAG_KEY|..]);
    }
    BeforeHashPrefix(l);
  }

  /** The id after `- id:`, read off directly. */
  function DirectId(x: string): string { Scalar(TrimQuotes(TrimStart(x))) }

  lemma {:induction false} ScalarIgnoresTrailing(y: string, sp: string)
    requires AllSpace(sp)
    ensures Scalar(y + sp) == Scalar(y)
    ensures Scalar(TrimQuotes(y + sp)) == Scalar(TrimQuotes(y))
  {
    if y == [] {
      assert y + sp == sp;
      if sp != [] { assert sp[0] in sp; }
    } else {
      assert (y + sp)[1..] == y[1..] + sp;
      ScalarIgnoresTrailing(y[1..], sp);
    }
  }

  lemma {:induction false} DirectIgnoresTrailing(x: string, sp: string)
    requires AllSpace(sp)
    ensures DirectId(x + sp) == DirectId(x)
  {
    if AllSpace(x) {
      TrimEmpty(x);
      TrimEmpty(x + sp);
    } else {
      TrimStartAppend(x, sp);
      ScalarIgnoresTrailing(TrimStart(x), sp);
    }
  }

  lemma {:induction false} DirectOfTrimEnd(x: string)
    ensures DirectId(TrimEnd(x)) == DirectId(x) && Scalar(TrimQuotes(Trim(x))) == DirectId(x)
  {
    hide IsSpace, TrimStart, TrimEnd, Scalar, TrimQuotes;
    var y := TrimStart(x);
    TrimEndPrefix(x);
    TrimEndPrefix(y);
    var k, m := |TrimEnd(x)|, |TrimEnd(y)|;
    assert x == x[..k] + x[k..];
    DirectIgnoresTrailing(x[..k], x[k..]);
    assert y == y[..m] + y[m..];
    ScalarIgnoresTrailing(y[..m], y[m..]);
  }

  function SomeIf(v: string): Option<string> { if v == "" then None else Some(v) }

  lemma {:induction false} ParseDirect(x: string)
    ensures ParseField(ROW_HEAD + x, ID_KEY) == SomeIf(DirectId(x))
  {
    assert StripDash(ROW_HEAD + x) == " " + (ID_KEY + x);
    assert (" " + (ID_KEY + x))[1..] == ID_KEY + x;
    assert TrimStart(" " + (ID_KEY + x)) == ID_KEY + x;
    var rest: string;
    if AllSpace(x) {
      TrimEndOfSpaces(ID_KEY, x);
      assert TrimEnd(ID_KEY) == ID_KEY;
      rest := [];
      TrimEmpty(x);
    } else {
      TrimEndPrepend(ID_KEY, x);
      rest := TrimEnd(x);
      DirectOfTrimEnd(x);
    }
    var t := Trim(StripDash(ROW_HEAD + x));
    assert t == ID_KEY + rest;
    assert After(t, ID_KEY) == Some(rest);
    DirectOfTrimEnd(rest);
  }

  lemma {:induction false} SpacesFrom(l: string, k: nat)
    requires k <= |l| && AllSpace(l[k..])
    ensures forall j :: k <= j < |l| ==> IsSpace(l[j])
  {
    forall j | k <= j < |l| ensures IsSpace(l[j]) {
      assert l[k..][j - k] in l[k..];
    }
  }

  lemma {:induction false} RowDirect(x: string)
    ensures RawRow(ROW_HEAD + x) == SomeIf(DirectId(x))
  {
    var l := ROW_HEAD + x;
    TrimCrSplit(l);
    var k :| 0 <= k <= |l| && TrimCr(l) == l[..k] && AllSpace(l[k..]);
    SpacesFrom(l, k);
    assert l[|ROW_HEAD| - 1] == ':';
    var x' := x[..k - |ROW_HEAD|];
    assert TrimCr(l) == ROW_HEAD + x';
    assert x == x' + x[k - |ROW_HEAD|..] && x[k - |ROW_HEAD|..] == l[k..];
    DirectIgnoresTrailing(x', l[k..]);
    ParseDirect(x');
  }

  lemma {:induction false} DirectBeforeHash(x: string)
    requires DirectId(x) != [] && '#' !in DirectId(x)
    ensures DirectId(BeforeHash(x)) == DirectId(x)
  {
    if x != [] && IsSpace(x[0]) {
      DirectBeforeHash(x[1..]);
      assert BeforeHash(x)[1..] == BeforeHash(x[1..]);
    } else {
      UnquotedBeforeHash(x);
      BeforeHashPrefix(x);
      if BeforeHash(x) != [] { assert BeforeHash(x)[0] == x[0]; }
      assert TrimStart(BeforeHash(x)) == BeforeHash(x);
    }
  }

  lemma {:induction false} UnquotedBeforeHash(x: string)
    requires Scalar(TrimQuotes(x)) != [] && '#' !in Scalar(TrimQuotes(x))
    ensures Scalar(TrimQuotes(BeforeHash(x))) == Scalar(TrimQuotes(x))
  {
    if x != [] && IsQuote(x[0]) {
      UnquotedBeforeHash(x[1..]);
      assert BeforeHash(x)[1..] == BeforeHash(x[1..]);
    } else {
      ScalarBeforeHash(x);
      BeforeHashPrefix(x);
    }
  }

  lemma {:induction false} ScalarBeforeHash(y: string)
    requires '#' !in Scalar(y)
    ensures Scalar(BeforeHash(y)) == Scalar(y)
  {
    if y != [] && !IsSpace(y[0]) && !IsQuote(y[0]) {
      assert Scalar(y) == [y[0]] + Scalar(y[1..]);
      assert y[0] in Scalar(y);
      assert forall c :: c in Scalar(y[1..]) ==> c in Scalar(y);
      ScalarBeforeHash(y[1..]);
      assert BeforeHash(y)[1..] == BeforeHash(y[1..]);
    } else if y != [] {
      assert y[0] != '#';
      assert BeforeHash(y)[0] == y[0];
    }
  }

  lemma {:induction false} RawRowIsRead(l: string, id: string)
    requires RawRow(l) == Some(id) && ValidRowId(id)
    ensures ReadRow(l) == Some(id)
  {
    ValidRowIdIsWord(id);
    TrimCrHead(l);
    assert ROW_HEAD <= l;
    var x := l[|ROW_HEAD|..];
    assert l == ROW_HEAD + x;
    RowDirect(x);
    DirectBeforeHash(x);
    BeforeHashOfRow(x);
    RowDirect(BeforeHash(x));
  }

  lemma {:induction false} BeforeHashOfRow(x: string)
    ensures BeforeHash(ROW_HEAD + x) == ROW_HEAD + BeforeHash(x)
  {
    var l := ROW_HEAD + x;
    assert l[1..][1..][1..][1..][1..] == x;
    assert BeforeHash(l) == [l[0]] + BeforeHash(l[1..]);
    assert BeforeHash(l[1..]) == [l[1]] + BeforeHash(l[1..][1..]);
    assert BeforeHash(l[1..][1..]) == [l[2]] + BeforeHash(l[1..][1..][1..]);
    assert BeforeHash(l[1..][1..][1..]) == [l[3]] + BeforeHash(l[1..][1..][1..][1..]);
    assert BeforeHash(l[1..][1..][1..][1..]) == [l[4]] + BeforeHash(x);
  }

  /** Whatever the file, what enabling would remove is read as disabled. */
  lemma {:induction false} RemovableIsRead(L: seq<string>, id: string)
    requires ValidRowId(id) && |RemoveBlocks(L, id, Values(false))| < |L|
    ensures (id, true) in ReadPairs(L)
  {
    if IsPairOf(L, id, Values(false)) {
      RawRowIsRead(L[0], id);
      RawFlagIsRead(L[1]);
    } else {
      RemovableIsRead(L[1..], id);
    }
  }

  // ----- disable, then enable -----

  /** A single removable row at the end of a text that has none comes off again. */
  lemma {:induction false} RemoveAppended(P: seq<string>, r: string, f: string, id: string, values: seq<string>)
    requires RemoveBlocks(P, id, values) == P
    requires IsPairOf([r, f, ""], id, values) && RawFlag(r).None?
    ensures RemoveBlocks(P + [r, f, ""], id, values) == P + [""]
  {
    hide RawRow, RawFlag;
    var B := [r, f, ""];
    var D := P + B;
    if P == [] {
      assert D == B && P + [""] == [""];
      assert B[2..] == [""];
      assert [""][1..] == [];
      assert RemoveBlocks([""], id, values) == [""];
    } else {
      RemoveBlocksShorter(P, id, values);
      RemoveBlocksShorter(P[1..], id, values);
      assert RemoveBlocks(P[1..], id, values) == P[1..];
      RemoveAppended(P[1..], r, f, id, values);
      assert D[1..] == P[1..] + B;
      assert !IsPairOf(D, id, values) by {
        if |P| == 1 { assert D[1] == r; } else { assert D[1] == P[1]; }
      }
      assert [P[0]] + (P[1..] + [""]) == P + [""];
    }
  }

  /** The placeholder is spelled `[]` and no comment before it looks like one. */
  predicate FirstIsPlain(L: seq<string>) {
    exists k :: 0 <= k < |L| && L[k] == "[]" && forall i :: 0 <= i < k ==> !IsCommentedPlaceholder(L[i])
  }

  /** When disabling and enabling a row gives the file back byte for byte. */
  predicate Reversible(t: string) {
    var L := Split(t);
    EndsWithLf(t) && Content(L) != [] && (OnlyPlaceholder(L) ==> FirstIsPlain(L))
  }

  lemma {:induction false} CommentOutKeepsNone(L: seq<string>, id: string)
    requires OnlyPlaceholder(L)
    ensures RemoveBlocks(CommentOut(L), id, Values(false)) == CommentOut(L)
  {
    CommentOutContent(L);
    forall i | 0 <= i < |CommentOut(L)| ensures !IsEntryHead(CommentOut(L)[i]) {
      ContentIndexNone(CommentOut(L), i);
      if IsEntryHead(CommentOut(L)[i]) { EntryHeadFacts(CommentOut(L)[i]); }
    }
    NoHeadsNoEntries(CommentOut(L));
  }

  lemma {:induction false} TerminatedKeepsNone(L: seq<string>, id: string)
    requires RemoveBlocks(L, id, Values(false)) == L
    ensures RemoveBlocks(Terminated(L), id, Values(false)) == Terminated(L)
  {
    if |L| >= 2 && L[|L| - 1] == "" {
      PrefixKeepsNone(L, |L| - 1, id);
    }
  }

  lemma {:induction false} PrefixKeepsNone(L: seq<string>, n: nat, id: string)
    requires RemoveBlocks(L, id, Values(false)) == L && n <= |L|
    ensures RemoveBlocks(L[..n], id, Values(false)) == L[..n]
  {
    if n > 0 {
      RemoveBlocksShorter(L, id, Values(false));
      assert !IsPairOf(L, id, Values(false)) && RemoveBlocks(L[1..], id, Values(false)) == L[1..];
      PrefixKeepsNone(L[1..], n - 1, id);
      assert L[..n][1..] == L[1..][..n - 1];
      assert !IsPairOf(L[..n], id, Values(false));
      assert [L[0]] + L[1..][..n - 1] == L[..n];
    }
  }

  /** The lines in front of a freshly appended block. */
  function Before(L: seq<string>): seq<string> {
    if AllBlank(L) then [] else Terminated(if OnlyPlaceholder(L) then CommentOut(L) else L)
  }

  lemma {:induction false} BeforeKeepsNone(L: seq<string>, id: string)
    requires ValidRowId(id) && (id, true) !in ReadPairs(L)
    ensures RemoveBlocks(Before(L), id, Values(false)) == Before(L)
  {
    if !AllBlank(L) {
      if OnlyPlaceholder(L) {
        CommentOutKeepsNone(L, id);
        TerminatedKeepsNone(CommentOut(L), id);
      } else {
        if |RemoveBlocks(L, id, Values(false))| < |L| { RemovableIsRead(L, id); }
        RemoveBlocksShorter(L, id, Values(false));
        TerminatedKeepsNone(L, id);
      }
    }
  }

  lemma {:induction false} RemoveRow(P: seq<string>, id: string)
    requires ValidRowId(id) && RemoveBlocks(P, id, Values(false)) == P
    ensures RemoveBlocks(P + (RowEntry(id, true) + [""]), id, Values(false)) == P + [""]
  {
    hide RowLine, FlagLine, RawRow, RawFlag, ReadRow, RemoveBlocks;
    RowLineReads(id);
    FlagLineReads(true);
    RowHead(RowLine(id));
    FlagFacts(RowLine(id));
    assert RowEntry(id, true) + [""] == [RowLine(id), FlagLine(true), ""];
    RemoveAppended(P, RowLine(id), FlagLine(true), id, Values(false));
  }

  /** What enabling leaves of a file right after disabling. */
  lemma {:induction false} UndoLines(t: string, id: string)
    requires ValidRowId(id) && (id, true) !in ReadPairs(Split(t))
    ensures Split(EnableText(DisableText(t, id), id)) == RestoreLines(Before(Split(t)) + [""])
  {
    var P := Before(Split(t));
    var d := DisableText(t, id);
    RowBlockLines(id, true);
    AppendBlockLines(t, RowBlock(id, true));
    assert [] + (RowEntry(id, true) + [""]) == RowEntry(id, true) + [""];
    assert Split(d) == P + (RowEntry(id, true) + [""]);
    BeforeKeepsNone(Split(t), id);
    RemoveRow(P, id);
    assert Removes(d, id, false);
    RemoveBlocksNewlineFree(Split(d), id, Values(false));
    SplitOfJoin(P + [""]);
    RestorePlaceholderLines(Without(d, id, false));
  }

  lemma {:induction false} SameText(a: string, b: string)
    ensures a == b <==> Split(a) == Split(b)
  {
    JoinSplit(a);
    JoinSplit(b);
  }

  lemma UpdateTail<T>(L: seq<T>, j: nat, v: T)
    requires j + 1 < |L|
    ensures [L[0]] + L[1..][j := v] == L[j + 1 := v]
  {
  }

  lemma {:induction false} CommentOutAt(L: seq<string>) returns (k: nat)
    requires OnlyPlaceholder(L)
    ensures k < |L| && IsPlaceholder(L[k]) && CommentOut(L) == L[k := "# []"]
    ensures forall i :: 0 <= i < k ==> !IsPlaceholder(L[i])
  {
    if IsPlaceholder(L[0]) {
      k := 0;
    } else {
      var j := CommentOutAt(L[1..]);
      k := j + 1;
      UpdateTail(L, j, "# []");
      assert forall i :: 0 < i < k ==> L[i] == L[1..][i - 1];
    }
  }

  lemma {:induction false} ReviveAt(L: seq<string>) returns (m: nat)
    requires HasCommentedPlaceholder(L)
    ensures m < |L| && IsCommentedPlaceholder(L[m]) && Revive(L) == L[m := "[]"]
    ensures forall i :: 0 <= i < m ==> !IsCommentedPlaceholder(L[i])
  {
    hide IsCommentedPlaceholder;
    if IsCommentedPlaceholder(L[0]) {
      m := 0;
    } else {
      var i :| 0 <= i < |L| && IsCommentedPlaceholder(L[i]);
      assert L[1..][i - 1] == L[i];
      var j := ReviveAt(L[1..]);
      m := j + 1;
      assert forall i :: 0 < i < m ==> L[i] == L[1..][i - 1];
      UpdateTail(L, j, "[]");
    }
  }

  /** Commenting the placeholder out and reviving it is the identity exactly on a plainly spelled, first placeholder. */
  lemma {:induction false} ReviveUndoes(L: seq<string>)
    requires OnlyPlaceholder(L)
    ensures HasCommentedPlaceholder(CommentOut(L))
    ensures Revive(CommentOut(L)) == L <==> FirstIsPlain(L)
  {
    hide IsCommentedPlaceholder, IsPlaceholder;
    var k := CommentOutAt(L);
    var X := CommentOut(L);
    PlaceholderIsCommented(L[k]);
    CommentedSpelling();
    assert IsCommentedPlaceholder(X[k]);
    var m := ReviveAt(X);
    assert m <= k;
    if Revive(X) == L {
      assert Revive(X)[k] == if m == k then "[]" else "# []";
      assert L[k] == "[]";
      assert forall i :: 0 <= i < k ==> !IsCommentedPlaceholder(L[i]) by {
        assert forall i :: 0 <= i < k ==> X[i] == L[i];
      }
    }
    if FirstIsPlain(L) {
      var p :| 0 <= p < |L| && L[p] == "[]" && forall i :: 0 <= i < p ==> !IsCommentedPlaceholder(L[i]);
      PlaceholderSpelling();
      assert k <= p;
      assert k == p;
      assert forall i :: 0 <= i < k ==> X[i] == L[i];
      assert Revive(X) == L;
    }
  }

  /** Which files come back, by what they hold. */
  lemma {:induction false} UndoneIff(t: string)
    ensures RestoreLines(Before(Split(t)) + [""]) == Split(t) <==> Reversible(t)
  {
    hide RestoreLines, Terminated, Split;
    var L := Split(t);
    EndsWithNewline(t);
    if AllBlank(L) {
      AllBlankContent(L);
      assert [] + [""] == [""];
      UndoOfEmpty(L, [""]);
    } else if OnlyPlaceholder(L) {
      UndoOfPlaceholder(L);
    } else if Content(L) == [] {
      UndoOfEmpty(L, Terminated(L) + [""]);
    } else {
      UndoOfEntries(L);
    }
  }

  /** Disabling a row that is not disabled and enabling it again restores the file to the byte exactly
      when it ends in a line feed, has content, and its placeholder (if that is all) is spelled `[]`
      with no comment before it that looks like one. */
  lemma {:induction false} ToggleRoundTripIff(t: string, id: string)
    requires ValidRowId(id) && (id, true) !in ReadPairs(Split(t))
    ensures EnableText(DisableText(t, id), id) == t <==> Reversible(t)
  {
    UndoLines(t, id);
    UndoneIff(t);
    SameText(EnableText(DisableText(t, id), id), t);
  }

  lemma {:induction false} UndoOfEntries(L: seq<string>)
    requires Content(L) != []
    ensures RestoreLines(Terminated(L) + [""]) == L <==> |L| >= 2 && L[|L| - 1] == ""
  {
    var P := Terminated(L);
    ContentConcat(P, [""]);
    assert Content([""]) == [];
    if |L| >= 2 && L[|L| - 1] == "" {
      assert L == P + [""];
    } else {
      assert |P + [""]| == |L| + 1;
    }
  }

  /** A file without content never comes back: the placeholder is written into it. */
  lemma {:induction false} UndoOfEmpty(L: seq<string>, Y: seq<string>)
    requires Content(L) == [] && Y != []
    requires Y == [""] || Y == Terminated(L) + [""]
    ensures RestoreLines(Y) != L
  {
    assert Content([""]) == [];
    if Y == Terminated(L) + [""] {
      if Terminated(L) != L { assert Y == L; } else { ContentConcat(L, [""]); }
    }
    assert Content(Y) == [];
    NoContentPlain(Y);
    RestoreLinesRefines(Y);
    if RestoreLines(Y) == L { NoContentPlain(L); }
  }

  lemma TerminatedOfUpdate(L: seq<string>, k: nat, v: string)
    requires k < |L| && L[k] != "" && v != ""
    ensures var X := L[k := v];
            if |L| >= 2 && L[|L| - 1] == "" then Terminated(X) + [""] == X else Terminated(X) == X
  {
  }

  lemma {:induction false} UndoOfPlaceholder(L: seq<string>)
    requires OnlyPlaceholder(L)
    ensures RestoreLines(Terminated(CommentOut(L)) + [""]) == L <==> |L| >= 2 && L[|L| - 1] == "" && FirstIsPlain(L)
  {
    var k := CommentOutAt(L);
    var X := CommentOut(L);
    CommentOutContent(L);
    assert L[k] != "" by { PlaceholderContent(L[k]); }
    TerminatedOfUpdate(L, k, "# []");
    ReviveUndoes(L);
    if |L| >= 2 && L[|L| - 1] == "" {
      assert RestoreLines(X) == Revive(X);
    } else {
      LongerRestore(X);
    }
  }

  lemma {:induction false} LongerRestore(X: seq<string>)
    requires Content(X) == [] && HasCommentedPlaceholder(X)
    ensures |RestoreLines(X + [""])| == |X| + 1
  {
    var Y := X + [""];
    ContentConcat(X, [""]);
    assert Content([""]) == [];
    var i :| 0 <= i < |X| && IsCommentedPlaceholder(X[i]);
    assert Y[i] == X[i];
    var m := ReviveAt(Y);
  }

  // ----- the same sync twice -----

  lemma {:induction false} StripNothing(o: Owner, L: seq<string>)
    requires Plain(L) && forall i :: 0 <= i < |Entries(L)| ==> !IsOwned(o, Entries(L)[i])
    ensures StripBlocks(o, L) == L
    decreases |L|
  {
    hide Plain, ChunkOk, IsInsertHead, Owns, IsOwned, Breaks, Content, IsEntryHead;
    if L != [] {
      var c, R := PlainSplit(L);
      assert forall i :: 0 <= i < |Entries(R)| ==> Entries(R)[i] == Entries(L)[|Entry(c)| + i];
      StripNothing(o, R);
      OwnedChunk(o, c);
      if IsEntryHead(c[0]) { assert Entries(L)[0] == Content(c); }
      StripChunk(o, c, R);
    }
  }

  lemma {:induction false} StripConcat(o: Owner, A: seq<string>, B: seq<string>)
    requires B != [] && Breaks(B[0])
    ensures StripBlocks(o, A + B) == StripBlocks(o, A) + StripBlocks(o, B)
    decreases |A|
  {
    if A == [] {
      assert A + B == B;
    } else {
      var c, R := PlainSplit(A);
      StripConcat(o, R, B);
      ConcatAssoc(c, R, B);
      StripChunk(o, c, R + B);
      StripChunk(o, c, R);
      var kept := if IsInsertHead(c[0]) && Owns(o, c[1..]) then [] else c;
      ConcatAssoc(kept, StripBlocks(o, R), StripBlocks(o, B));
    }
  }

  lemma {:induction false} StripOwnBlock(o: Owner, rows: seq<string>)
    requires Indented(rows) && Owns(o, rows)
    ensures StripBlocks(o, [INSERT_LINE] + rows + [""]) == []
  {
    hide Breaks, IsInsertHead, Owns, OwnsLine;
    var B := [INSERT_LINE] + rows + [""];
    InsertLineFacts();
    assert B[1..] == rows + [""];
    IndentedInner(rows);
    OwnsConcat(o, rows, [""]);
    assert B + [] == B;
    StripChunk(o, B, []);
  }

  /** The lines a sync leaves of a file before it appends its block. */
  function Stripped(o: Owner, t: string): seq<string> { AtLeastOne(StripBlocks(o, Split(t))) }

  lemma {:induction false} SyncLines(o: Owner, t: string, rows: seq<string>)
    requires rows != [] && NewlineFree(rows)
    ensures Split(SyncText(o, t, rows)) == Before(Stripped(o, t)) + ([INSERT_LINE] + rows + [""])
  {
    hide Split, StripBlocks, AppendLines, Before;
    StripBlocksNewlineFree(o, Split(t));
    SplitOfJoin(StripBlocks(o, Split(t)));
    InsertLineFacts();
    assert NoNewline(INSERT_LINE);
    SplitUnlines([INSERT_LINE] + rows);
    AppendBlockLines(Join(StripBlocks(o, Split(t))), Unlines([INSERT_LINE] + rows));
    AppendIsBefore(Stripped(o, t), [INSERT_LINE] + rows + [""]);
  }

  lemma AppendIsBefore(S: seq<string>, B: seq<string>)
    ensures AppendLines(S, B) == Before(S) + B
  {
    hide Terminated, CommentOut;
    assert [] + B == B;
  }

  lemma {:induction false} BeforePlain(S: seq<string>)
    requires Readable(S)
    ensures Plain(Before(S)) && Entries(Before(S)) == Entries(S)
  {
    if AllBlank(S) {
      AllBlankContent(S);
      NoContentPlain(S);
    } else if OnlyPlaceholder(S) {
      PlaceholderFile(S);
      CommentOutContent(S);
      NoContentPlain(CommentOut(S));
      PlainTerminated(CommentOut(S));
    } else {
      PlainTerminated(S);
    }
  }

  lemma {:induction false} TerminatedNotBlank(X: seq<string>)
    requires !AllBlank(X)
    ensures !AllBlank(Terminated(X))
  {
    var k :| 0 <= k < |X| && !AllSpace(X[k]);
    assert Terminated(X)[k] == X[k];
  }

  lemma {:induction false} BeforeNotBlank(S: seq<string>)
    requires !AllBlank(S)
    ensures !AllBlank(Before(S))
  {
    if OnlyPlaceholder(S) {
      var k := CommentOutAt(S);
      assert CommentOut(S)[k] == "# []" && '#' in "# []";
      TerminatedNotBlank(CommentOut(S));
    } else {
      TerminatedNotBlank(S);
    }
  }

  predicate TwoBlankLinesAtEnd(L: seq<string>) {
    |L| >= 3 && L[|L| - 1] == "" && L[|L| - 2] == ""
  }

  lemma TerminatedTwice(X: seq<string>)
    ensures Terminated(Terminated(X)) == Terminated(X) <==> !TwoBlankLinesAtEnd(X)
  {
  }

  /** What a sync appends to is itself left alone by the next one, but for a trailing blank line. */
  lemma {:induction false} BeforeTwice(S: seq<string>)
    requires Readable(S) && S != []
    ensures Before(AtLeastOne(Before(S))) == Before(S) <==> AllBlank(S) || !TwoBlankLinesAtEnd(S)
  {
    var P := Before(S);
    if AllBlank(S) {
      assert AllBlank([""]);
    } else {
      BeforeNotBlank(S);
      assert !OnlyPlaceholder(P) by {
        BeforePlain(S);
        if OnlyPlaceholder(P) { PlaceholderFile(P); }
      }
      assert Before(P) == Terminated(P);
      TerminatedTwice(S);
      TerminatedTwice(CommentOut(S));
      if OnlyPlaceholder(S) {
        var k := CommentOutAt(S);
        assert S[k] != "" by { PlaceholderContent(S[k]); }
        SameEnd(S, k, "# []");
      }
    }
  }

  lemma SameEnd(L: seq<string>, k: nat, v: string)
    requires k < |L| && L[k] != "" && v != ""
    ensures TwoBlankLinesAtEnd(L[k := v]) == TwoBlankLinesAtEnd(L)
  {
  }

  /** Repeating a sync changes no byte exactly when it compiles nothing, or what remained without the
      launcher's block did not end in two blank lines: each repetition eats one. */
  lemma {:induction false} SyncTwiceIff(o: Owner, t: string, rows: seq<string>)
    requires ReadableText(t) && NewlineFree(rows) && Indented(rows) && (rows != [] ==> Owns(o, rows))
    ensures SyncText(o, SyncText(o, t, rows), rows) == SyncText(o, t, rows)
       <==> rows == [] || AllBlank(Stripped(o, t)) || !TwoBlankLinesAtEnd(Stripped(o, t))
  {
    if rows == [] { ClearTwice(o, t); } else { SyncRowsTwice(o, t, rows); }
  }

  /** With nothing enabled the second sync finds no block and a file that has its content. */
  lemma {:induction false} ClearTwice(o: Owner, t: string)
    requires ReadableText(t)
    ensures SyncText(o, SyncText(o, t, []), []) == SyncText(o, t, [])
  {
    hide Plain, IsOwned, StripBlocks, RestorePlaceholder;
    var u := SyncText(o, t, []);
    SyncRefines(o, t, []);
    if OnlyPlaceholder(Split(u)) {
      PlaceholderFile(Split(u));
    } else {
      DropOwnedIdempotent(o, EntriesOf(t));
      StripNothing(o, Split(u));
      if Content(Split(u)) == [] { NoContentPlain(Split(u)); }
    }
    JoinSplit(u);
    ContentStays(u);
  }

  lemma ContentStays(t: string)
    requires Content(Split(t)) != []
    ensures RestorePlaceholder(t) == t
  {
    PlaceholderText(t);
  }

  lemma {:induction false} SyncRowsTwice(o: Owner, t: string, rows: seq<string>)
    requires ReadableText(t) && rows != [] && NewlineFree(rows) && Indented(rows) && Owns(o, rows)
    ensures SyncText(o, SyncText(o, t, rows), rows) == SyncText(o, t, rows)
       <==> AllBlank(Stripped(o, t)) || !TwoBlankLinesAtEnd(Stripped(o, t))
  {
    var u := SyncText(o, t, rows);
    var S, B := Stripped(o, t), [INSERT_LINE] + rows + [""];
    var P := Before(S);
    SyncLines(o, t, rows);
    SyncLines(o, u, rows);
    SyncKeepsLines(o, t, rows);
    BeforeTwice(S);
    SameText(SyncText(o, u, rows), u);
    SameTail(Before(AtLeastOne(P)), P, B);
  }

  lemma SameTail<T>(a: seq<T>, b: seq<T>, c: seq<T>)
    ensures a + c == b + c <==> a == b
  {
    if a + c == b + c {
      assert |a| == |b|;
      assert a == (a + c)[..|a|] && b == (b + c)[..|b|];
    }
  }

  lemma {:induction false} SyncKeepsLines(o: Owner, t: string, rows: seq<string>)
    requires ReadableText(t) && rows != [] && NewlineFree(rows) && Indented(rows) && Owns(o, rows)
    ensures Readable(Stripped(o, t))
    ensures Stripped(o, SyncText(o, t, rows)) == AtLeastOne(Before(Stripped(o, t)))
  {
    var L, S := Split(t), Stripped(o, t);
    var P, B := Before(S), [INSERT_LINE] + rows + [""];
    if OnlyPlaceholder(L) {
      PlaceholderFile(L);
      assert Entries(S) == [];
    } else {
      StripBlocksRefines(o, L);
      AtLeastOneRefines(StripBlocks(o, L));
      DropOwnedIdempotent(o, Entries(L));
    }
    BeforePlain(S);
    SyncLines(o, t, rows);
    StripNothing(o, P);
    InsertLineFacts();
    EntryHeadFacts(INSERT_LINE);
    StripConcat(o, P, B);
    StripOwnBlock(o, rows);
  }

  /** A disabled row above two blank lines is such a file: the second sync takes one of them. */
  lemma {:induction false} BlankLineEaten(o: Owner, id: string, rows: seq<string>)
    requires ValidRowId(id) && rows != [] && NewlineFree(rows) && Indented(rows) && Owns(o, rows)
    ensures var t := RowBlock(id, true) + "\n" + "\n";
            ReadableText(t) && SyncText(o, SyncText(o, t, rows), rows) != SyncText(o, t, rows)
  {
    hide Plain, StripBlocks, SyncText, Owns, IsContent, IsInsertHead;
    var t := RowBlock(id, true) + "\n" + "\n";
    var c, L := RowEntry(id, true) + [""], RowEntry(id, true) + ["", "", ""];
    RowThenBlanks(id);
    RowLineHead(id);
    StripNothing(o, L);
    assert AtLeastOne(L) == L && L[0] == RowLine(id);
    SyncTwiceIff(o, t, rows);
  }

  lemma {:induction false} RowLineHead(id: string)
    ensures !IsInsertHead(RowLine(id)) && !AllSpace(RowLine(id))
  {
    TrimCrHead(RowLine(id));
    assert RowLine(id)[0] == '-' && RowLine(id)[2] == 'i' && RowLine(id)[3] == 'd';
    assert INSERT_HEAD[3] == 'n';
    assert RowLine(id)[0] in RowLine(id) && !IsSpace('-');
  }

  lemma {:induction false} RowThenBlanks(id: string)
    requires ValidRowId(id)
    ensures var t, L := RowBlock(id, true) + "\n" + "\n", RowEntry(id, true) + ["", "", ""];
            Split(t) == L && Plain(L) && Entries(L) == [RowEntry(id, true)]
  {
    hide Plain, Entries, Split, RowEntry, RowBlock;
    var c, b := RowEntry(id, true) + [""], RowBlock(id, true);
    RowBlockLines(id, true);
    RowBlockRefines(id, true);
    LineFeedMore(b);
    LineFeedMore(b + "\n");
    PlainPad(c);
    PlainPad(c + [""]);
    assert c + [""] + [""] == RowEntry(id, true) + ["", "", ""];
  }

  lemma {:induction false} LineFeedMore(t: string)
    ensures Split(t + "\n") == Split(t) + [""]
  {
    SplitConcat(t, "");
    assert t + "\n" == t + "\n" + "";
  }
}
