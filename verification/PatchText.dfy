/** The text-level editors agree with their line-level counterparts. */
module PatchText {
  import opened TextLines
  import opened PatchLines

  lemma {:induction false} ContentConcat(a: seq<string>, b: seq<string>)
    ensures Content(a + b) == Content(a) + Content(b)
  {
    hide IsContent;
    if a == [] {
      assert a + b == b;
    } else {
      assert (a + b)[1..] == a[1..] + b;
      ContentConcat(a[1..], b);
      ConcatAssoc(if IsContent(a[0]) then [a[0]] else [], Content(a[1..]), Content(b));
    }
  }

  lemma {:induction false} ContentIndex(L: seq<string>, i: nat)
    requires i < |L| && IsContent(L[i])
    ensures L[i] in Content(L)
  {
    if i > 0 { ContentIndex(L[1..], i - 1); }
  }

  lemma {:induction false} ContentMember(L: seq<string>, l: string)
    requires l in Content(L)
    ensures l in L && IsContent(l)
  {
    if l in Content(L[1..]) { ContentMember(L[1..], l); }
  }

  lemma {:induction false} NewlineFreeParts(L: seq<string>)
    requires NewlineFree(L) && L != []
    ensures NoNewline(L[0]) && NewlineFree(L[1..])
  {
    forall i | 0 <= i < |L[1..]| ensures NoNewline(L[1..][i]) { assert NoNewline(L[1 + i]); }
    assert NoNewline(L[0]);
  }

  lemma {:induction false} RemoveBlocksNewlineFree(L: seq<string>, id: string, values: seq<string>)
    requires NewlineFree(L)
    ensures NewlineFree(RemoveBlocks(L, id, values))
  {
    if L != [] {
      NewlineFreeParts(L);
      if IsPairOf(L, id, values) {
        NewlineFreeParts(L[1..]);
        assert L[2..] == L[1..][1..];
        RemoveBlocksNewlineFree(L[2..], id, values);
      } else {
        RemoveBlocksNewlineFree(L[1..], id, values);
      }
    }
  }

  lemma {:induction false} StripBlocksNewlineFree(o: Owner, L: seq<string>)
    requires NewlineFree(L)
    ensures NewlineFree(StripBlocks(o, L))
    decreases |L|
  {
    if L != [] {
      NewlineFreeParts(L);
      if IsInsertHead(L[0]) && Owns(o, L[1..BlockEnd(L)]) {
        forall i | 0 <= i < |L[BlockEnd(L)..]| ensures NoNewline(L[BlockEnd(L)..][i]) {
          assert NoNewline(L[BlockEnd(L) + i]);
        }
        StripBlocksNewlineFree(o, L[BlockEnd(L)..]);
      } else {
        StripBlocksNewlineFree(o, L[1..]);
      }
    }
  }

  lemma {:induction false} CommentOutNewlineFree(L: seq<string>)
    requires NewlineFree(L)
    ensures NewlineFree(CommentOut(L)) && |CommentOut(L)| == |L|
  {
    if L != [] {
      NewlineFreeParts(L);
      CommentOutNewlineFree(L[1..]);
    }
  }

  lemma {:induction false} ReviveNewlineFree(L: seq<string>)
    requires NewlineFree(L)
    ensures NewlineFree(Revive(L)) && |Revive(L)| == |L|
  {
    if L != [] {
      NewlineFreeParts(L);
      ReviveNewlineFree(L[1..]);
    }
  }

  /** Splitting a joined result gives the lines back (one empty line for none). */
  lemma {:induction false} SplitOfJoin(L: seq<string>)
    requires NewlineFree(L)
    ensures Split(Join(L)) == AtLeastOne(L)
  {
    if L != [] { SplitJoin(L); } else { assert Split("") == [""]; }
  }

  /** The pieces of a text that are followed by a line feed, each with its `\r` cut. */
  function CutAll(L: seq<string>): seq<string> {
    if L == [] then []
    else [if L[0] != [] && L[0][|L[0]| - 1] == '\r' then L[0][..|L[0]| - 1] else L[0]] + CutAll(L[1..])
  }

  lemma {:induction false} RustLinesConcat(A: seq<string>, B: seq<string>)
    requires B != []
    ensures RustLines(A + B) == CutAll(A) + RustLines(B)
  {
    if A == [] {
      assert A + B == B;
    } else {
      assert (A + B)[1..] == A[1..] + B;
      RustLinesConcat(A[1..], B);
    }
  }

  // ----- what the comment-free text says about the content lines -----

  /** One line as it appears in the comment-free text, `\r` gone or not. */
  function Shown(l: string, cut: bool): string {
    var m := if cut && l != [] && l[|l| - 1] == '\r' then l[..|l| - 1] else l;
    if IsComment(m) then "" else m
  }

  lemma {:induction false} CutCr(l: string)
    requires l != [] && l[|l| - 1] == '\r'
    ensures Trim(l[..|l| - 1]) == Trim(l)
    ensures IsComment(l[..|l| - 1]) == IsComment(l)
    ensures IsContent(l[..|l| - 1]) == IsContent(l)
  {
    var m := l[..|l| - 1];
    assert l == [] + m + "\r";
    TrimAround([], m, "\r");
    TrimEmpty(m);
    TrimEmpty(l);
    if !AllSpace(m) {
      assert l == m + "\r";
      TrimStartAppend(m, "\r");
    } else {
      assert l == m + "\r";
      assert AllSpace(l);
    }
  }

  lemma {:induction false} ShownFacts(l: string, cut: bool)
    ensures IsContent(l) ==> Trim(Shown(l, cut)) == Trim(l) && !AllSpace(Shown(l, cut))
    ensures !IsContent(l) ==> AllSpace(Shown(l, cut))
  {
    if cut && l != [] && l[|l| - 1] == '\r' { CutCr(l); TrimEmpty(l[..|l| - 1]); }
    TrimEmpty(l);
    TrimEmpty(Shown(l, cut));
  }

  /** The comment-free text, piece by piece. */
  lemma {:induction false} VisibleStep(L: seq<string>)
    requires |L| >= 2
    ensures var rest := Blanked(RustLines(L[1..]));
            Join(Blanked(RustLines(L)))
            == if rest == [] then Shown(L[0], true) else Shown(L[0], true) + "\n" + Join(rest)
  {
    var m := if L[0] != [] && L[0][|L[0]| - 1] == '\r' then L[0][..|L[0]| - 1] else L[0];
    assert RustLines(L) == [m] + RustLines(L[1..]);
    assert ([m] + RustLines(L[1..]))[1..] == RustLines(L[1..]);
    var all := Blanked(RustLines(L));
    assert all == [Shown(L[0], true)] + Blanked(RustLines(L[1..]));
    assert all[1..] == Blanked(RustLines(L[1..]));
  }

  lemma {:induction false} TrimGlue(S: string, R: string)
    ensures var J := S + "\n" + R;
            && (AllSpace(S) ==> Trim(J) == Trim(R))
            && (AllSpace(R) ==> Trim(J) == Trim(S))
            && (!AllSpace(S) && !AllSpace(R) ==> '\n' in Trim(J))
  {
    var J := S + "\n" + R;
    if AllSpace(S) {
      assert J == (S + "\n") + R + [];
      TrimAround(S + "\n", R, []);
    }
    if AllSpace(R) {
      assert J == [] + S + ("\n" + R);
      TrimAround([], S, "\n" + R);
    }
    if !AllSpace(S) && !AllSpace(R) {
      TrimKeepsInnerNewline(S, R);
    }
  }

  /** The comment-free text is blank exactly when no line carries content; with one
      content line it trims to that line; with more it keeps a line feed. */
  lemma {:induction false} VisibleText(L: seq<string>)
    requires L != []
    ensures var J := Join(Blanked(RustLines(L)));
            && (AllSpace(J) <==> Content(L) == [])
            && (|Content(L)| == 1 ==> Trim(J) == Trim(Content(L)[0]))
            && (|Content(L)| >= 2 ==> '\n' in Trim(J))
  {
    if |L| == 1 {
      ShownFacts(L[0], false);
      assert L[1..] == [];
      assert Content(L) == if IsContent(L[0]) then [L[0]] else [];
      if L[0] != "" {
        assert RustLines(L) == L;
        assert Blanked(L) == [Shown(L[0], false)];
      }
    } else {
      var rest := Blanked(RustLines(L[1..]));
      var R := Join(rest);
      var J := Join(Blanked(RustLines(L)));
      var S := Shown(L[0], true);
      VisibleText(L[1..]);
      VisibleStep(L);
      ShownFacts(L[0], true);
      TrimEmpty(J);
      TrimEmpty(R);
      TrimEmpty(S);
      if rest != [] {
        TrimGlue(S, R);
      }
      assert Content(L) == (if IsContent(L[0]) then [L[0]] else []) + Content(L[1..]);
      assert IsContent(L[0]) && Content(L[1..]) == [] ==> Content(L) == [L[0]];
    }
  }

  lemma {:induction false} AllBlankText(L: seq<string>)
    ensures AllSpace(Join(L)) <==> AllBlank(L)
  {
    if |L| == 1 {
      assert AllBlank(L) <==> AllSpace(L[0]);
    } else if L != [] {
      AllBlankText(L[1..]);
      var J, R := Join(L), Join(L[1..]);
      assert J == L[0] + "\n" + R;
      if AllSpace(J) {
        forall c | c in L[0] ensures IsSpace(c) { assert c in J; }
        forall c | c in R ensures IsSpace(c) { assert c in J; }
        forall i | 0 <= i < |L| ensures AllSpace(L[i]) {
          if i > 0 { assert L[i] == L[1..][i - 1]; }
        }
      }
      if AllBlank(L) {
        forall i | 0 <= i < |L[1..]| ensures AllSpace(L[1..][i]) { assert L[1..][i] == L[1 + i]; }
        assert AllSpace(L[0]);
      }
    }
  }

  lemma {:induction false} PlaceholderText(text: string)
    ensures var s := Trim(WithoutCommentLines(text));
            && (s == "" <==> Content(Split(text)) == [])
            && ((s == "[]" || s == "[ ]") <==> OnlyPlaceholder(Split(text)))
  {
    var L := Split(text);
    VisibleText(L);
    TrimEmpty(WithoutCommentLines(text));
  }

  /** Taking the last line feed off is dropping the last empty piece. */
  lemma {:induction false} SplitTerminated(text: string, block: string)
    requires text != ""
    ensures Split((if EndsWithLf(text) then text else text + "\n") + block) == Terminated(Split(text)) + Split(block)
  {
    hide Split;
    EndsWithNewline(text);
    if EndsWithLf(text) {
      var t := text[..|text| - 1];
      assert text == t + "\n";
      assert t + "\n" == t + "\n" + "";
      SplitConcat(t, "");
      SplitOfLine("");
      assert Terminated(Split(text)) == Split(t);
      assert text + block == t + "\n" + block;
      SplitConcat(t, block);
    } else {
      SplitConcat(text, block);
    }
  }

  /** Appending a block to the text is appending its lines, placeholder handling included. */
  lemma {:induction false} AppendBlockLines(text: string, block: string)
    ensures Split(AppendBlock(text, block)) == AppendLines(Split(text), Split(block))
  {
    var L := Split(text);
    JoinSplit(text);
    AllBlankText(L);
    TrimEmpty(text);
    PlaceholderText(text);
    if Trim(text) != "" {
      if OnlyPlaceholder(L) {
        var t := Join(CommentOut(L));
        CommentOutNewlineFree(L);
        SplitOfJoin(CommentOut(L));
        if t == "" {
          CommentOutNotEmpty(L);
        }
        SplitTerminated(t, block);
      } else {
        SplitTerminated(text, block);
      }
    }
  }

  lemma {:induction false} CommentOutNotEmpty(L: seq<string>)
    requires L != [] && !AllBlank(L)
    ensures Join(CommentOut(L)) != ""
  {
    AllBlankText(CommentOut(L));
    var k :| 0 <= k < |L| && !AllSpace(L[k]);
    CommentOutNotBlank(L, k);
  }

  lemma {:induction false} CommentOutNotBlank(L: seq<string>, k: nat)
    requires k < |L| && !AllSpace(L[k])
    ensures !AllBlank(CommentOut(L))
  {
    if IsPlaceholder(L[0]) {
      assert '#' in "# []";
      assert CommentOut(L)[0] == "# []";
    } else if k == 0 {
      assert CommentOut(L)[0] == L[0];
    } else {
      CommentOutNotBlank(L[1..], k - 1);
      var j :| 0 <= j < |CommentOut(L[1..])| && !AllSpace(CommentOut(L[1..])[j]);
      assert CommentOut(L)[j + 1] == CommentOut(L[1..])[j];
    }
  }

  lemma {:induction false} SplitPlaceholder()
    ensures Split("[]\n") == ["[]", ""]
  {
    assert "[]\n" == "[]" + "\n" + "";
    SplitConcat("[]", "");
    SplitOfLine("[]");
    assert Split("") == [""];
  }

  lemma {:induction false} AddPlaceholderLines(text: string)
    ensures var L := Split(text);
            Split(if text == "" || EndsWithLf(text) then text + "[]\n" else text + "\n[]\n")
            == (if L[|L| - 1] == "" then L[..|L| - 1] else L) + ["[]", ""]
  {
    var L := Split(text);
    SplitPlaceholder();
    if text == "" {
      assert text + "[]\n" == "[]\n";
      assert L == [""];
    } else {
      SplitTerminated(text, "[]\n");
      EndsWithNewline(text);
      assert text + "\n[]\n" == text + "\n" + "[]\n";
      if |L| == 1 { JoinSplit(text); assert L[0] == text; }
    }
  }

  /** Restoring the placeholder in the text is restoring it in the lines. */
  lemma {:induction false} RestorePlaceholderLines(text: string)
    ensures Split(RestorePlaceholder(text)) == RestoreLines(Split(text))
  {
    var L := Split(text);
    PlaceholderText(text);
    if Content(L) == [] {
      if HasCommentedPlaceholder(L) {
        ReviveNewlineFree(L);
        SplitOfJoin(Revive(L));
      } else {
        AddPlaceholderLines(text);
      }
    }
  }
}
