/** Where the toggle editors and the reader part ways: exact conditions on files
    of any shape, and the files that miss them. */
module PatchLimits {
  import opened Basics
  import opened TextLines
  import opened PatchLines
  import opened PatchText
  import opened PatchDoc
  import opened PatchBlocks
  import opened SkinRows
  import opened PatchOps
  import opened PatchBytes
  import opened PatchTheorems

  // ----- enabling a row, on any file -----

  /** The toggle the reader sees in two neighbouring lines. */
  function PairRead(head: string, next: string): Option<(string, bool)> {
    if ReadRow(head).Some? && Flag(BeforeHash(next)).Some?
    then Some((ReadRow(head).value, Flag(BeforeHash(next)).value))
    else None
  }

  predicate HasFlag(l: string) { RawFlag(l).Some? || ReadFlag(l).Some? }

  /** The toggles read off the pairs the removal does not recognise. */
  function Unrecognised(L: seq<string>, id: string, values: seq<string>): set<(string, bool)> {
    if |L| < 2 then {}
    else
      (if !IsPairOf(L, id, values) && PairRead(L[0], L[1]).Some? then {PairRead(L[0], L[1]).value} else {})
      + Unrecognised(L[1..], id, values)
  }

  lemma {:induction false} ReadPairsStep(L: seq<string>)
    requires |L| >= 2
    ensures ReadPairs(L)
         == (if PairRead(L[0], L[1]).Some? then {PairRead(L[0], L[1]).value} else {}) + ReadPairs(L[1..])
  {
  }

  lemma {:induction false} NotBoth(l: string)
    ensures HasFlag(l) ==> RawRow(l).None? && ReadRow(l).None?
  {
    FlagFacts(l);
    RowHead(l);
  }

  /** What stands behind the pairs removed at the front. */
  function BehindPairs(L: seq<string>, id: string, values: seq<string>): (r: seq<string>)
    ensures |r| <= |L|
  {
    if IsPairOf(L, id, values) then BehindPairs(L[2..], id, values) else L
  }

  /** The toggles that come about when the pairs between two kept lines go. */
  function FormedAcross(L: seq<string>, id: string, values: seq<string>): set<(string, bool)>
    decreases |L|
  {
    if L == [] then {}
    else if IsPairOf(L, id, values) then FormedAcross(L[2..], id, values)
    else
      (var next := BehindPairs(L[1..], id, values);
       if IsPairOf(L[1..], id, values) && next != [] && PairRead(L[0], next[0]).Some?
       then {PairRead(L[0], next[0]).value}
       else {})
      + FormedAcross(L[1..], id, values)
  }

  lemma {:induction false} FirstKept(L: seq<string>, id: string, values: seq<string>)
    ensures var R, next := RemoveBlocks(L, id, values), BehindPairs(L, id, values);
            (R == [] <==> next == []) && (R != [] ==> R[0] == next[0])
  {
    if IsPairOf(L, id, values) { FirstKept(L[2..], id, values); }
  }

  lemma {:induction false} UnrecognisedOfPair(L: seq<string>, id: string, values: seq<string>)
    requires IsPairOf(L, id, values)
    ensures Unrecognised(L, id, values) == Unrecognised(L[2..], id, values)
  {
    NotBoth(L[1]);
    assert L[1..][1..] == L[2..];
    assert |L| > 2 ==> L[1..][1] == L[2] && PairRead(L[1], L[2]).None?;
  }

  /** On any file, removing pairs leaves the toggles it does not recognise and those that come about where
      pairs are taken out, and no others. */
  lemma {:induction false} RemoveReads(L: seq<string>, id: string, values: seq<string>)
    ensures ReadPairs(RemoveBlocks(L, id, values)) == Unrecognised(L, id, values) + FormedAcross(L, id, values)
    decreases |L|
  {
    hide PairRead, RawRow, RawFlag;
    if L != [] {
      if IsPairOf(L, id, values) {
        RemoveReads(L[2..], id, values);
        UnrecognisedOfPair(L, id, values);
      } else {
        var R := RemoveBlocks(L[1..], id, values);
        RemoveReads(L[1..], id, values);
        FirstKept(L[1..], id, values);
        KeptHead(L, id, values);
        assert ([L[0]] + R)[1..] == R;
      }
    }
  }

  /** The toggle the first line heads once the pairs behind it are gone. */
  lemma {:induction false} KeptHead(L: seq<string>, id: string, values: seq<string>)
    requires L != [] && !IsPairOf(L, id, values)
    ensures var R := RemoveBlocks(L[1..], id, values);
            ReadPairs([L[0]] + R) + Unrecognised(L[1..], id, values) + FormedAcross(L[1..], id, values)
            == Unrecognised(L, id, values) + FormedAcross(L, id, values) + ReadPairs(R)
  {
    hide RawRow, RawFlag, ReadRow, BeforeHash;
    var M, R := L[1..], RemoveBlocks(L[1..], id, values);
    var all := [L[0]] + R;
    assert all[1..] == R;
    FirstKept(M, id, values);
    if R != [] { ReadPairsStep(all); }
    if IsPairOf(M, id, values) {
      NotBoth(M[0]);
      assert M[0] == L[1];
    } else if M != [] {
      assert M[0] == L[1] && R[0] == L[1];
    }
  }

  predicate Targets(id: string, both: bool, p: (string, bool)) { p.0 == id && (p.1 || both) }

  /** No line pair that reads as a targeted toggle of `id` carries an inline comment the removal trips over. */
  predicate AllRecognised(L: seq<string>, id: string, both: bool) {
    |L| < 2
    || ((PairRead(L[0], L[1]).Some? && Targets(id, both, PairRead(L[0], L[1]).value) ==> IsPairOf(L, id, Values(both)))
        && AllRecognised(L[1..], id, both))
  }

  lemma {:induction false} UnrecognisedIff(L: seq<string>, id: string, both: bool)
    ensures AllRecognised(L, id, both) <==> forall p :: p in Unrecognised(L, id, Values(both)) ==> !Targets(id, both, p)
  {
    if |L| >= 2 { UnrecognisedIff(L[1..], id, both); }
  }

  /** A recognised pair reads as a targeted toggle. */
  lemma {:induction false} RecognisedReads(L: seq<string>, id: string, both: bool)
    requires ValidRowId(id) && IsPairOf(L, id, Values(both))
    ensures PairRead(L[0], L[1]).Some? && Targets(id, both, PairRead(L[0], L[1]).value)
  {
    RawRowIsRead(L[0], id);
    RawFlagIsRead(L[1]);
  }

  lemma {:induction false} UnrecognisedIsRead(L: seq<string>, id: string, both: bool)
    requires ValidRowId(id)
    ensures Unrecognised(L, id, Values(both)) <= ReadPairs(L)
    ensures forall p :: p in ReadPairs(L) && !Targets(id, both, p) ==> p in Unrecognised(L, id, Values(both))
  {
    if |L| >= 2 {
      UnrecognisedIsRead(L[1..], id, both);
      ReadPairsStep(L);
      if IsPairOf(L, id, Values(both)) { RecognisedReads(L, id, both); }
    }
  }

  /** The facts that should be left once the targeted ones are gone. */
  function Untargeted(s: set<(string, bool)>, id: string, both: bool): set<(string, bool)> {
    set p | p in s && !Targets(id, both, p)
  }

  /** Removal takes away exactly the targeted toggles if and only if no remark hides one of them and every
      toggle that comes about where pairs are taken out was one of the others already. */
  lemma {:induction false} RemoveExactIff(L: seq<string>, id: string, both: bool)
    requires ValidRowId(id)
    ensures ReadPairs(RemoveBlocks(L, id, Values(both))) == Untargeted(ReadPairs(L), id, both)
       <==> AllRecognised(L, id, both) && FormedAcross(L, id, Values(both)) <= Untargeted(ReadPairs(L), id, both)
  {
    hide ReadPairs, Unrecognised, FormedAcross, AllRecognised, RemoveBlocks;
    RemoveReads(L, id, Values(both));
    UnrecognisedIff(L, id, both);
    UnrecognisedIsRead(L, id, both);
    var U, F := Unrecognised(L, id, Values(both)), FormedAcross(L, id, Values(both));
    assert F <= U + F && U <= U + F;
  }

  /** Removal creates no toggle if and only if those that come about were there before. */
  lemma {:induction false} CreatesNoneIff(L: seq<string>, id: string, both: bool)
    requires ValidRowId(id)
    ensures ReadPairs(RemoveBlocks(L, id, Values(both))) <= ReadPairs(L)
       <==> FormedAcross(L, id, Values(both)) <= ReadPairs(L)
  {
    hide ReadPairs, Unrecognised, FormedAcross, RemoveBlocks;
    RemoveReads(L, id, Values(both));
    UnrecognisedIsRead(L, id, both);
  }

  lemma {:induction false} NothingRemoved(L: seq<string>, id: string, both: bool)
    requires |RemoveBlocks(L, id, Values(both))| == |L|
    ensures Unrecognised(L, id, Values(both)) == ReadPairs(L) && FormedAcross(L, id, Values(both)) == {}
  {
    RemoveBlocksShorter(L, id, Values(both));
    if L != [] {
      RemoveBlocksShorter(L[1..], id, Values(both));
      NothingRemoved(L[1..], id, both);
      assert RemoveBlocks(L[1..], id, Values(both)) == L[1..];
      if |L| >= 2 { ReadPairsStep(L); }
    }
  }

  lemma {:induction false} NoContentNoPairs(L: seq<string>)
    requires Content(L) == []
    ensures ReadPairs(L) == {}
  {
    if |L| >= 2 {
      assert !IsContent(L[0]);
      assert Content(L) == [] + Content(L[1..]);
      NoFlagIn(L[0]);
      NoContentNoPairs(L[1..]);
    }
  }

  lemma {:induction false} PairsConcat(A: seq<string>, B: seq<string>)
    requires B != [] ==> !HasFlag(B[0])
    ensures ReadPairs(A + B) == ReadPairs(A) + ReadPairs(B)
  {
    if A == [] {
      assert A + B == B;
    } else {
      var L := A + B;
      assert L[1..] == A[1..] + B;
      PairsConcat(A[1..], B);
      if |L| >= 2 { ReadPairsStep(L); }
      if |A| >= 2 { ReadPairsStep(A); }
      assert |A| == 1 ==> A[1..] == [];
    }
  }

  lemma {:induction false} NoFlagIn(l: string)
    requires !IsContent(l) || IsPlaceholder(l)
    ensures !HasFlag(l) && ReadRow(l).None?
  {
    FlagFacts(l);
    RowHead(l);
    if IsEntryHead(l) { EntryHeadFacts(l); }
    FlagHead(l);
    FlagHead(BeforeHash(l));
    BeforeHashHead(l);
    TrimHead(l);
  }

  lemma {:induction false} RestoreReads(t: string)
    ensures ReadPairs(Split(RestorePlaceholder(t))) == ReadPairs(Split(t))
  {
    var L := Split(t);
    RestorePlaceholderLines(t);
    if Content(L) == [] {
      NoContentNoPairs(L);
      NoContentPlain(L);
      RestoredIsPlaceholder(L);
      PlaceholderFile(RestoreLines(L));
    }
  }

  lemma {:induction false} RestoredIsPlaceholder(L: seq<string>)
    requires L != [] && Content(L) == [] && Plain(L)
    ensures OnlyPlaceholder(RestoreLines(L))
  {
    hide RestoreLines, OnlyPlaceholder, Plain;
    NoContentPlain(L);
    RestoreLinesRefines(L);
  }

  lemma {:induction false} TerminatedReads(L: seq<string>)
    ensures ReadPairs(Terminated(L)) == ReadPairs(L)
  {
    if |L| >= 2 && L[|L| - 1] == "" {
      var a := L[..|L| - 1];
      assert L == a + [""];
      NoFlagIn("");
      PairsConcat(a, [""]);
    }
  }

  lemma {:induction false} AppendReads(t: string, block: string)
    requires !HasFlag(Split(block)[0])
    ensures ReadPairs(Split(AppendBlock(t, block))) == ReadPairs(Split(t)) + ReadPairs(Split(block))
  {
    var L, B := Split(t), Split(block);
    AppendBlockLines(t, block);
    if AllBlank(L) {
      AllBlankContent(L);
      NoContentNoPairs(L);
    } else {
      var C := if OnlyPlaceholder(L) then CommentOut(L) else L;
      PairsConcat(Terminated(C), B);
      TerminatedReads(C);
      if OnlyPlaceholder(L) {
        PlaceholderFile(L);
        CommentOutContent(L);
        NoContentNoPairs(C);
      }
    }
  }

  lemma {:induction false} ToggleBlockReads(id: string, disabled: bool)
    requires ValidRowId(id)
    ensures !HasFlag(Split(RowBlock(id, disabled))[0]) && ReadPairs(Split(RowBlock(id, disabled))) == {(id, disabled)}
  {
    hide RowLine, FlagLine, RawRow, RawFlag, ReadRow, ReadFlag, BeforeHash;
    RowBlockLines(id, disabled);
    RowLineReads(id);
    FlagLineReads(disabled);
    NotBoth(RowLine(id));
    var B := Split(RowBlock(id, disabled));
    assert B == [RowLine(id), FlagLine(disabled), ""];
    ReadPairsStep(B);
    NotBoth(FlagLine(disabled));
    NoFlagIn("");
    assert B[1..] == [FlagLine(disabled), ""];
    ReadPairsStep(B[1..]);
    assert B[1..][1..] == [""];
  }

  // ----- what the launcher reads after an operation, on any file -----

  /** Disabling adds the fact and changes no other. */
  lemma {:induction false} DisableReads(t: string, id: string)
    requires ValidRowId(id)
    ensures ReadPairs(Split(DisableText(t, id))) == ReadPairs(Split(t)) + {(id, true)}
  {
    hide ReadPairs;
    ToggleBlockReads(id, true);
    if (id, true) !in ReadPairs(Split(t)) { AppendReads(t, RowBlock(id, true)); }
  }

  lemma {:induction false} WithoutReads(t: string, id: string, both: bool)
    ensures ReadPairs(Split(Without(t, id, both)))
         == Unrecognised(Split(t), id, Values(both)) + FormedAcross(Split(t), id, Values(both))
  {
    var L := Split(t);
    RemoveBlocksNewlineFree(L, id, Values(both));
    SplitOfJoin(RemoveBlocks(L, id, Values(both)));
    RemoveReads(L, id, Values(both));
    assert RemoveBlocks(L, id, Values(both)) == [] ==> ReadPairs([""]) == {};
  }

  /** Enabling leaves what the removal does not recognise and what comes about; without a recognised pair
      it leaves every fact and adds the forcing one. */
  lemma {:induction false} EnableReads(t: string, id: string)
    requires ValidRowId(id)
    ensures ReadPairs(Split(EnableText(t, id)))
         == if PatchOps.Removes(t, id, false)
            then Unrecognised(Split(t), id, Values(false)) + FormedAcross(Split(t), id, Values(false))
            else ReadPairs(Split(t)) + {(id, false)}
  {
    hide ReadPairs, Unrecognised, FormedAcross;
    if PatchOps.Removes(t, id, false) {
      WithoutReads(t, id, false);
      RestoreReads(Without(t, id, false));
    } else if (id, false) !in ReadPairs(Split(t)) {
      ToggleBlockReads(id, false);
      AppendReads(t, RowBlock(id, false));
    }
  }

  /** On any file, enabling a row ends its disablement exactly when no remark hides one of its pairs from the
      removal and none comes about where the others are taken out. */
  lemma {:induction false} EnableWorksIff(t: string, id: string)
    requires ValidRowId(id)
    ensures (id, true) !in ReadPairs(Split(EnableText(t, id)))
       <==> AllRecognised(Split(t), id, false) && (id, true) !in FormedAcross(Split(t), id, Values(false))
  {
    hide ReadPairs, Unrecognised, FormedAcross, AllRecognised, RemoveBlocks;
    var L := Split(t);
    EnableReads(t, id);
    UnrecognisedIff(L, id, false);
    RemoveBlocksShorter(L, id, Values(false));
    if !PatchOps.Removes(t, id, false) { NothingRemoved(L, id, false); }
  }

  /** On any file, enabling a row leaves every other row as it was exactly when no toggle of another row
      comes about where its pairs are taken out. */
  lemma {:induction false} EnableSparesOthersIff(t: string, id: string)
    requires ValidRowId(id)
    ensures (forall p: (string, bool) :: p.0 != id ==>
               (p in ReadPairs(Split(EnableText(t, id))) <==> p in ReadPairs(Split(t))))
       <==> (forall p: (string, bool) :: p in FormedAcross(Split(t), id, Values(false)) && p.0 != id ==>
               p in ReadPairs(Split(t)))
  {
    hide ReadPairs, Unrecognised, FormedAcross, RemoveBlocks;
    var L := Split(t);
    EnableReads(t, id);
    UnrecognisedIsRead(L, id, false);
    RemoveBlocksShorter(L, id, Values(false));
    if !PatchOps.Removes(t, id, false) { NothingRemoved(L, id, false); }
  }

  // ----- files that miss the conditions -----

  lemma {:induction false} BeforeHashStops(a: string, b: string)
    requires '#' !in a && b != [] && b[0] == '#'
    ensures BeforeHash(a + b) == a
  {
    if a == [] {
      assert a + b == b;
    } else {
      assert (a + b)[1..] == a[1..] + b;
      BeforeHashStops(a[1..], b);
    }
  }

  /** A flag line with a remark behind it. */
  function RemarkedFlag(remark: string): string { FlagLine(true) + " " + ("#" + remark) }

  lemma {:induction false} PaddedFlag(f: string)
    ensures RawFlag(f + " ") == RawFlag(f)
  {
    TrimOfTrimCr(f + " ");
    TrimOfTrimCr(f);
    TrimEmpty(f);
    if AllSpace(f) {
      TrimStartOfSpaces(f, " ");
    } else {
      TrimStartAppend(f, " ");
      TrimEndOfSpaces(TrimStart(f), " ");
    }
  }

  /** The reader sees the flag, the removal does not. */
  lemma {:induction false} RemarkedFlagReads(remark: string)
    requires NoNewline(remark)
    ensures Flag(BeforeHash(RemarkedFlag(remark))) == Some(true) && RawFlag(RemarkedFlag(remark)) != Some("true")
  {
    hide RawFlag, BeforeHash;
    var f, l := FlagLine(true), RemarkedFlag(remark);
    FlagText(true);
    KeyValue("  ", FLAG_KEY, BoolText(true));
    BeforeHashStops(f + " ", "#" + remark);
    PaddedFlag(f);
    FlagLineReads(true);
    assert l[|f| + 1] == '#';
    HashIsNoTrue(l);
  }

  lemma {:induction false} HashIsNoTrue(l: string)
    requires '#' in l
    ensures RawFlag(l) != Some("true")
  {
    TrimOfTrimCr(l);
    TrimKeepsHash(l);
    FlagText(true);
    var t := Trim(TrimCr(l));
    if FLAG_KEY <= t {
      assert t == FLAG_KEY + t[|FLAG_KEY|..];
      TrimKeepsHash(t[|FLAG_KEY|..]);
    }
  }

  /** A remark behind `disabled: true` makes enabling the row a no-op that leaves it disabled. */
  lemma {:induction false} RemarkDefeatsEnable(id: string, remark: string)
    requires ValidRowId(id) && NoNewline(remark)
    ensures var t := RowLine(id) + "\n" + RemarkedFlag(remark);
            (id, true) in ReadPairs(Split(t)) && (id, true) in ReadPairs(Split(EnableText(t, id)))
  {
    hide RowLine, RemarkedFlag, Split, EnableText, ReadPairs, RawRow, ReadRow, RawFlag, BeforeHash;
    var t := RowLine(id) + "\n" + RemarkedFlag(remark);
    RemarkedFile(id, remark);
    RowLineReads(id);
    RemarkedFlagReads(remark);
    ReadPairsStep(Split(t));
    assert PairRead(Split(t)[0], Split(t)[1]) == Some((id, true));
    assert !AllRecognised(Split(t), id, false);
    EnableWorksIff(t, id);
  }

  lemma {:induction false} RemarkedFile(id: string, remark: string)
    requires ValidRowId(id) && NoNewline(remark)
    ensures Split(RowLine(id) + "\n" + RemarkedFlag(remark)) == [RowLine(id), RemarkedFlag(remark)]
  {
    hide Split;
    ValidRowIdIsWord(id);
    FlagText(true);
    KeyValue("  ", FLAG_KEY, BoolText(true));
    SplitLineThen(RowLine(id), RemarkedFlag(remark));
    SplitOfLine(RemarkedFlag(remark));
  }

  /** With the flag doubled, enabling one row disables the row above it. */
  lemma {:induction false} DoubledFlagMovesUp(a: string, b: string)
    requires ValidRowId(a) && ValidRowId(b) && a != b
    ensures var t := RowLine(a) + "\n" + (RowBlock(b, true) + FlagLine(true));
            && (a, true) !in ReadPairs(Split(t))
            && (a, true) in ReadPairs(Split(EnableText(t, b)))
  {
    hide RowLine, FlagLine, RawRow, RawFlag, ReadRow, BeforeHash, Split, RemoveBlocks, ReadPairs;
    var f := FlagLine(true);
    var L := [RowLine(a), RowLine(b), f, f];
    var t := RowLine(a) + "\n" + (RowBlock(b, true) + f);
    DoubledFlagLines(a, b);
    RowLineReads(a);
    RowLineReads(b);
    FlagLineReads(true);
    NotBoth(RowLine(b));
    NotBoth(f);
    assert RawFlag(f) == Some("true");
    assert L[1..] == [RowLine(b), f, f] && L[1..][2..] == [f] && L[1..][1..] == [f, f] && [f, f][1..] == [f];
    assert IsPairOf(L[1..], b, Values(false)) && !IsPairOf(L, b, Values(false));
    ReadPairsStep(L);
    ReadPairsStep(L[1..]);
    ReadPairsStep([f, f]);
    OneLineNoPair(f);
    assert BehindPairs(L[1..], b, Values(false)) == [f];
    assert (a, true) in FormedAcross(L, b, Values(false));
    if !PatchOps.Removes(t, b, false) {
      RemoveBlocksShorter(L, b, Values(false));
      NothingRemoved(L, b, false);
    }
    EnableReads(t, b);
  }

  lemma OneLineNoPair(l: string)
    ensures ReadPairs([l]) == {}
  {
  }

  lemma {:induction false} DoubledFlagLines(a: string, b: string)
    requires ValidRowId(a) && ValidRowId(b)
    ensures Split(RowLine(a) + "\n" + (RowBlock(b, true) + FlagLine(true)))
         == [RowLine(a), RowLine(b), FlagLine(true), FlagLine(true)]
  {
    hide FlagLine, Split;
    var r, f := RowLine(b), FlagLine(true);
    RowBlockLines(a, true);
    RowBlockLines(b, true);
    RowLineNoNewline(a);
    RowLineNoNewline(b);
    FlagLineNoNewline();
    assert RowBlock(b, true) + f == r + "\n" + (f + "\n" + f);
    SplitLineThen(RowLine(a), RowBlock(b, true) + f);
    SplitLineThen(r, f + "\n" + f);
    SplitLineThen(f, f);
    SplitOfLine(f);
  }

  lemma RowLineNoNewline(id: string)
    requires ValidRowId(id)
    ensures NoNewline(RowLine(id))
  {
    ValidRowIdIsWord(id);
    RowLineShape(id);
  }

  lemma FlagLineNoNewline()
    ensures NoNewline(FlagLine(true))
  {
    FlagText(true);
    KeyValue("  ", FLAG_KEY, BoolText(true));
  }
}
