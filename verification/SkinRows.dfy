/** The skin insert block: the ids it assigns, the rows it prints, and how the
    launcher reads the mounted packages back. */
module SkinRows {
  import opened Basics
  import opened TextLines
  import opened PatchLines
  import opened PatchText
  import opened PatchDoc
  import opened PatchBlocks
  import opened FreshNames

  /** A manifest skin; `hasBundle` is what its installed package declares. */
  datatype SkinPackage = SkinPackage(package: string, enabled: bool, hasBundle: bool)

  // ----- ids -----

  function AfterLastSlash(s: string): string {
    if '/' !in s then s else if s[0] == '/' && '/' !in s[1..] then s[1..] else AfterLastSlash(s[1..])
  }

  function StripDsh(s: string): string {
    if "dsh-client-" <= s then s[|"dsh-client-"|..]
    else if "dsh-" <= s then s[|"dsh-"|..]
    else s
  }

  predicate IdChar(c: char) { IsAlnum(c) || c == '-' || c == '_' || c == '.' }

  function TrimIdStart(s: string): string {
    if s != [] && !IdChar(s[0]) then TrimIdStart(s[1..]) else s
  }

  function TrimIdEnd(s: string): string {
    if s != [] && !IdChar(s[|s| - 1]) then TrimIdEnd(s[..|s| - 1]) else s
  }

  /** `skin_id_from_package` */
  function SkinId(package: string): string {
    var base := TrimIdEnd(TrimIdStart(StripDsh(AfterLastSlash(package))));
    if SKIN_PREFIX <= base || base == "skin" then base else SKIN_PREFIX + base
  }

  lemma {:induction false} AfterSlash(scope: string, x: string)
    requires '/' !in x
    ensures AfterLastSlash(scope + "/" + x) == x
  {
    var s := scope + "/" + x;
    assert s[|scope|] == '/';
    if scope == [] {
      assert s[1..] == x;
    } else {
      assert s[1..] == scope[1..] + "/" + x;
      assert s[1..][|scope| - 1] == '/';
      AfterSlash(scope[1..], x);
    }
  }

  /** A package called `dsh-skin`, under whatever scope, gets the bare id. */
  lemma {:induction false} BareSkinId(scope: string)
    ensures SkinId(scope + "/" + "dsh-skin") == "skin"
  {
    AfterSlash(scope, "dsh-skin");
    assert "dsh-skin"[|"dsh-"|..] == "skin";
    assert "dsh-skin"[4] != "dsh-client-"[4];
  }

  predicate NoIdChar(s: string) { forall c :: c in s ==> !IsAlnum(c) && c !in "-_." }

  predicate IdEnds(x: string) {
    x != "" ==> (IsAlnum(x[0]) || x[0] in "-_.") && (IsAlnum(x[|x| - 1]) || x[|x| - 1] in "-_.")
  }

  lemma {:induction false} TrimIdStartOf(a: string, y: string)
    requires NoIdChar(a) && (y == "" || IdChar(y[0]))
    ensures TrimIdStart(a + y) == y
  {
    if a == [] {
      assert a + y == y;
    } else {
      assert a[0] in a && (a + y)[1..] == a[1..] + y;
      TrimIdStartOf(a[1..], y);
    }
  }

  lemma {:induction false} TrimIdEndOf(y: string, b: string)
    requires NoIdChar(b) && (y == "" || IdChar(y[|y| - 1]))
    ensures TrimIdEnd(y + b) == y
  {
    if b == [] {
      assert y + b == y;
    } else {
      assert b[|b| - 1] in b && (y + b)[..|y + b| - 1] == y + b[..|b| - 1];
      TrimIdEndOf(y, b[..|b| - 1]);
    }
  }

  lemma {:induction false} TrimmedId(a: string, x: string, b: string)
    requires NoIdChar(a) && NoIdChar(b) && IdEnds(x)
    ensures TrimIdEnd(TrimIdStart(a + (x + b))) == x
  {
    if x == "" {
      assert a + (x + b) == (a + b) + "" && NoIdChar(a + b) && "" + "" == "";
      TrimIdStartOf(a + b, "");
      TrimIdEndOf("", "");
    } else {
      assert (x + b)[0] == x[0];
      TrimIdStartOf(a, x + b);
      TrimIdEndOf(x, b);
    }
  }

  /** The id of a package: scope and `dsh-` prefix dropped, then what is no id character at either end, and `skin-`
      put in front unless it is there or the name is just `skin`. */
  lemma {:induction false} SkinIdIs(scope: string, prefix: string, a: string, x: string, b: string)
    requires NoIdChar(a) && NoIdChar(b) && IdEnds(x)
    requires var rest := a + (x + b);
             && '/' !in prefix + rest
             && (prefix == "dsh-client-" || (prefix == "dsh-" && !("dsh-client-" <= prefix + rest))
                 || (prefix == "" && !("dsh-" <= rest)))
    ensures var id := if "skin-" <= x || x == "skin" then x else "skin-" + x; var name := prefix + (a + (x + b));
            SkinId(name) == id && SkinId(scope + "/" + name) == id
  {
    hide TrimIdStart, TrimIdEnd;
    var rest := a + (x + b);
    AfterSlash(scope, prefix + rest);
    PrefixGone(prefix, rest);
    TrimmedId(a, x, b);
  }

  lemma ClientIsDsh(s: string)
    requires "dsh-client-" <= s
    ensures "dsh-" <= s
  {
    assert "dsh-client-"[..4] == "dsh-";
  }

  lemma {:induction false} PrefixGone(prefix: string, rest: string)
    requires prefix == "dsh-client-" || (prefix == "dsh-" && !("dsh-client-" <= prefix + rest))
             || (prefix == "" && !("dsh-" <= rest))
    ensures StripDsh(prefix + rest) == rest
  {
    var s := prefix + rest;
    assert s[|prefix|..] == rest && prefix <= s;
    if prefix == "" {
      assert s == rest;
      if "dsh-client-" <= rest { ClientIsDsh(rest); }
    }
  }

  /** The skins that get a row: enabled, and not already mounted as a bundle. */
  function Mounted(skins: seq<SkinPackage>): seq<string> {
    if skins == [] then []
    else (if skins[0].enabled && !skins[0].hasBundle then [skins[0].package] else []) + Mounted(skins[1..])
  }

  /** The ids given to `packages` in order, each distinct from those before it. */
  ghost function SkinIds(packages: seq<string>, used: set<string>): (ids: seq<string>)
    ensures |ids| == |packages|
  {
    if packages == [] then []
    else
      var id := Fresh(SkinId(packages[0]), used);
      [id] + SkinIds(packages[1..], used + {id})
  }

  predicate Distinct(ids: seq<string>) {
    forall i, j :: 0 <= i < j < |ids| ==> ids[i] != ids[j]
  }

  /** No id is given twice in one sync. */
  lemma {:induction false} SkinIdsDistinct(packages: seq<string>, used: set<string>)
    ensures Distinct(SkinIds(packages, used))
    ensures forall id :: id in SkinIds(packages, used) ==> id !in used
  {
    if packages != [] {
      var id := Fresh(SkinId(packages[0]), used);
      FreshWithin(SkinId(packages[0]), used);
      SkinIdsDistinct(packages[1..], used + {id});
      var rest := SkinIds(packages[1..], used + {id});
      assert SkinIds(packages, used) == [id] + rest;
      assert forall k :: 0 <= k < |rest| ==> rest[k] in rest;
    }
  }

  // ----- rows -----

  /** A scoped package is written in quotes. */
  function SpelledName(package: string): string {
    if '/' in package then Quoted(package) else package
  }

  function SkinNameLine(package: string): string { "      " + (NAME_KEY + " " + SpelledName(package)) }

  function SkinIdLine(id: string): string { "    " + ("- " + (ID_KEY + " " + id)) }

  /** The lines of `skin_insert_row` for each package and its id. */
  function SkinRowLines(packages: seq<string>, ids: seq<string>): seq<string>
    requires |packages| == |ids|
  {
    if packages == [] then []
    else [SkinIdLine(ids[0]), SkinNameLine(packages[0])] + SkinRowLines(packages[1..], ids[1..])
  }

  /** An id the launcher assigns: `skin` or something in the `skin-` namespace. */
  predicate SkinNamed(id: string) { SKIN_PREFIX <= id || id == "skin" }

  lemma {:induction false} FreshSkinNamed(base: string, used: set<string>)
    requires SkinNamed(base)
    ensures SkinNamed(Fresh(base, used))
  {
    var n := FreeIndex(base, used, 1);
    if n > 1 && base == "skin" {
      assert Candidate(base, n) == SKIN_PREFIX + Decimal(n);
    }
  }

  lemma {:induction false} SkinIdsNamed(packages: seq<string>, used: set<string>)
    ensures forall i :: 0 <= i < |packages| ==> SkinNamed(SkinIds(packages, used)[i])
  {
    if packages != [] {
      var id := Fresh(SkinId(packages[0]), used);
      FreshSkinNamed(SkinId(packages[0]), used);
      SkinIdsNamed(packages[1..], used + {id});
    }
  }

  lemma {:induction false} TrimEndKeeps(a: string, y: string)
    requires a != [] && !IsSpace(a[|a| - 1])
    ensures a <= TrimEnd(a + y)
  {
    if y == [] {
      assert a + y == a;
    } else if IsSpace(y[|y| - 1]) {
      assert (a + y)[..|a + y| - 1] == a + y[..|y| - 1];
      TrimEndKeeps(a, y[..|y| - 1]);
    }
  }

  lemma {:induction false} TrimKeeps(a: string, y: string)
    requires a != [] && !IsSpace(a[0]) && !IsSpace(a[|a| - 1])
    ensures a <= Trim(a + y)
  {
    assert TrimStart(a + y) == a + y;
    TrimEndKeeps(a, y);
  }

  lemma {:induction false} BeforeHashAppend(a: string, x: string)
    requires Clean(a)
    ensures BeforeHash(a + x) == a + BeforeHash(x)
  {
    if a == [] {
      assert a + x == x;
    } else {
      assert a[0] in a;
      assert (a + x)[1..] == a[1..] + x;
      assert forall c :: c in a[1..] ==> c in a;
      BeforeHashAppend(a[1..], x);
      assert a == [a[0]] + a[1..];
    }
  }

  lemma {:induction false} TrimCrAppend(a: string, x: string)
    requires a != [] && a[|a| - 1] != '\r'
    ensures exists y :: TrimCr(a + x) == a + y
  {
    if x == [] || x[|x| - 1] != '\r' {
      if x == [] { assert a + x == a; }
      assert TrimCr(a + x) == a + x;
    } else {
      assert (a + x)[..|a + x| - 1] == a + x[..|x| - 1];
      TrimCrAppend(a, x[..|x| - 1]);
    }
  }

  lemma {:induction false} TrimStartChars(k: string)
    requires k != [] && k[0] != '-' && !IsSpace(k[0])
    ensures TrimStartChar("- " + k, '-') == " " + k
    ensures TrimStart(" " + k) == k
  {
    assert ("- " + k)[1..] == " " + k;
    assert (" " + k)[1..] == k;
  }

  /** The skeleton of an indented line `<pad><a><x>` once cut and trimmed. */
  lemma {:induction false} CutLine(pad: string, a: string, x: string) returns (z: string)
    requires AllSpace(pad) && Clean(pad) && Clean(a)
    requires a != [] && !IsSpace(a[0]) && !IsSpace(a[|a| - 1])
    ensures Trim(BeforeHash(TrimCr(pad + (a + x)))) == a + z
  {
    assert a[|a| - 1] in a;
    CleanConcat(pad, a);
    assert pad + (a + x) == (pad + a) + x;
    TrimCrAppend(pad + a, x);
    var y :| TrimCr((pad + a) + x) == (pad + a) + y;
    BeforeHashAppend(pad + a, y);
    var h := BeforeHash(y);
    assert (pad + a) + h == pad + (a + h);
    TrimStartOfSpaces(pad, a + h);
    assert TrimStart(a + h) == a + h;
    TrimEndKeeps(a, h);
    z := TrimEnd(a + h)[|a|..];
  }

  lemma {:induction false} SkinPrefixFacts()
    ensures Clean(SKIN_PREFIX) && Tight(SKIN_PREFIX) && !IsQuote(SKIN_PREFIX[0])
    ensures Clean(ID_KEY) && Tight(ID_KEY) && ID_KEY[0] == 'i' && Clean("    ") && AllSpace("    ")
    ensures Clean(NAME_KEY) && Tight(NAME_KEY) && NAME_KEY[0] == 'n' && Clean("      ") && AllSpace("      ")
  {
  }

  /** The value behind `id:`, once the line is trimmed, keeps its prefix. */
  lemma {:induction false} IdValue(pre: string, t: string)
    requires Tight(pre) && !IsQuote(pre[0]) && ID_KEY + " " + pre <= t
    ensures After(t, ID_KEY).Some? && pre <= TrimQuotes(Trim(After(t, ID_KEY).value))
  {
    hide IsSpace, IsQuote;
    var k := ID_KEY + " " + pre;
    var y := t[|k|..];
    var rest := " " + (pre + y);
    assert t == ID_KEY + rest;
    assert rest[1..] == pre + y;
    SpaceIsSpace();
    assert TrimStart(pre + y) == pre + y && TrimStart(rest) == pre + y;
    TrimKeeps(pre, y);
  }

  lemma SpaceIsSpace()
    ensures IsSpace(' ')
  {
  }

  /** A line `    - id: <pre><x>` still starts with `id: <pre>` once its comment, padding and dash are off. */
  lemma {:induction false} IdLineKey(pre: string, x: string)
    requires Tight(pre) && Clean(pre)
    ensures var line := "    " + ("- " + (ID_KEY + " " + pre) + x);
            ID_KEY + " " + pre <= Trim(TrimStartChar(Trim(BeforeHash(TrimCr(line))), '-'))
  {
    SkinPrefixFacts();
    var k := ID_KEY + " " + pre;
    var a := "- " + k;
    assert k[0] == 'i' && k[|k| - 1] == pre[|pre| - 1];
    CleanConcat(ID_KEY, " ");
    CleanConcat(ID_KEY + " ", pre);
    CleanConcat("- ", k);
    var z := CutLine("    ", a, x);
    assert a + z == "- " + (k + z);
    TrimStartChars(k + z);
    TrimEndKeeps(k, z);
  }

  /** An id line in the `skin-` namespace marks its block, whatever follows the prefix. */
  lemma {:induction false} SkinIdLineOwns(id: string)
    requires SKIN_PREFIX <= id
    ensures OwnsLine(Skin, SkinIdLine(id))
  {
    hide Trim, TrimStartChar, BeforeHash, TrimCr, TrimQuotes;
    SkinPrefixFacts();
    var x := id[|SKIN_PREFIX|..];
    assert id == SKIN_PREFIX + x;
    assert SkinIdLine(id) == "    " + ("- " + (ID_KEY + " " + SKIN_PREFIX) + x);
    IdLineKey(SKIN_PREFIX, x);
    IdValue(SKIN_PREFIX, Trim(TrimStartChar(Trim(BeforeHash(TrimCr(SkinIdLine(id)))), '-')));
  }

  /** The one id outside the namespace does not mark its block. */
  lemma {:induction false} PlainSkinLine()
    ensures !OwnsLine(Skin, SkinIdLine("skin"))
  {
    SkinPrefixFacts();
    var v := "skin";
    var k := ID_KEY + " " + v;
    KeyValue(" ", ID_KEY, v);
    CleanConcat("- ", k);
    CleanConcat("    ", "- " + k);
    CleanLine("    " + ("- " + k));
    TrimStartOfSpaces("    ", "- " + k);
    TrimTight("- " + k);
    TrimStartChars(k);
    assert Trim(" " + k) == k;
    assert SKIN_PREFIX[4] == '-';
  }

  lemma {:induction false} SkinNameLineOwns(package: string)
    ensures !OwnsLine(Skin, SkinNameLine(package))
  {
    SkinPrefixFacts();
    var v := SpelledName(package);
    assert SkinNameLine(package) == "      " + (NAME_KEY + (" " + v));
    var z := CutLine("      ", NAME_KEY, " " + v);
    assert (NAME_KEY + z)[0] == 'n';
    assert TrimStartChar(NAME_KEY + z, '-') == NAME_KEY + z;
    TrimKeeps(NAME_KEY, z);
    var t := Trim(NAME_KEY + z);
    assert t[0] == 'n';
  }

  /** The rows mark their block exactly when some id is in the namespace. */
  lemma {:induction false} SkinRowsOwn(packages: seq<string>, ids: seq<string>)
    requires |packages| == |ids| && forall i :: 0 <= i < |ids| ==> SkinNamed(ids[i])
    ensures Owns(Skin, SkinRowLines(packages, ids)) <==> exists i :: 0 <= i < |ids| && SKIN_PREFIX <= ids[i]
  {
    hide OwnsLine, SkinIdLine, SkinNameLine;
    if packages != [] {
      assert forall i :: 0 <= i < |ids[1..]| ==> ids[1..][i] == ids[i + 1];
      SkinRowsOwn(packages[1..], ids[1..]);
      OwnsConcat(Skin, [SkinIdLine(ids[0]), SkinNameLine(packages[0])], SkinRowLines(packages[1..], ids[1..]));
      SkinRowOwns(packages[0], ids[0]);
    }
  }

  lemma {:induction false} SkinRowOwns(package: string, id: string)
    requires SkinNamed(id)
    ensures Owns(Skin, [SkinIdLine(id), SkinNameLine(package)]) <==> SKIN_PREFIX <= id
  {
    hide OwnsLine, SkinIdLine, SkinNameLine;
    var a := [SkinIdLine(id), SkinNameLine(package)];
    assert a[0] == SkinIdLine(id) && a[1] == SkinNameLine(package);
    SkinNameLineOwns(package);
    if SKIN_PREFIX <= id { SkinIdLineOwns(id); } else { PlainSkinLine(); }
  }

  /** One sync's block is recognised by the next one unless its only id is `skin`. */
  lemma {:induction false} SkinBlockOwned(packages: seq<string>)
    requires packages != []
    ensures Owns(Skin, SkinRowLines(packages, SkinIds(packages, {})))
       <==> !(|packages| == 1 && SkinId(packages[0]) == "skin")
  {
    var ids := SkinIds(packages, {});
    SkinIdsNamed(packages, {});
    SkinIdsDistinct(packages, {});
    SkinRowsOwn(packages, ids);
    assert Fresh(SkinId(packages[0]), {}) == SkinId(packages[0]);
    if |packages| >= 2 {
      assert ids[0] != ids[1];
    }
  }

  // ----- plain text facts -----

  predicate SingleLines(packages: seq<string>) {
    forall i :: 0 <= i < |packages| ==> NoNewline(packages[i])
  }

  lemma {:induction false} SubstringsNoNewline(s: string)
    requires NoNewline(s)
    ensures NoNewline(AfterLastSlash(s)) && NoNewline(StripDsh(s))
    ensures NoNewline(TrimIdStart(s)) && NoNewline(TrimIdEnd(s))
    decreases |s|
  {
    if s != [] {
      SubstringsNoNewline(s[1..]);
      SubstringsNoNewline(s[..|s| - 1]);
    }
  }

  lemma {:induction false} DecimalNoNewline(n: nat)
    ensures NoNewline(Decimal(n))
  {
    if n >= 10 { DecimalNoNewline(n / 10); }
  }

  lemma {:induction false} SkinIdsNoNewline(packages: seq<string>, used: set<string>)
    requires SingleLines(packages)
    ensures SingleLines(SkinIds(packages, used))
  {
    if packages != [] {
      var p := packages[0];
      var base := SkinId(p);
      SubstringsNoNewline(p);
      SubstringsNoNewline(AfterLastSlash(p));
      SubstringsNoNewline(StripDsh(AfterLastSlash(p)));
      SubstringsNoNewline(TrimIdStart(StripDsh(AfterLastSlash(p))));
      var n := FreeIndex(base, used, 1);
      DecimalNoNewline(n);
      assert NoNewline(Fresh(base, used));
      assert forall i :: 0 <= i < |packages[1..]| ==> packages[1..][i] == packages[i + 1];
      SkinIdsNoNewline(packages[1..], used + {Fresh(base, used)});
    }
  }

  lemma {:induction false} SkinRowsFacts(packages: seq<string>, ids: seq<string>)
    requires |packages| == |ids| && SingleLines(packages) && SingleLines(ids)
    ensures NewlineFree(SkinRowLines(packages, ids)) && Indented(SkinRowLines(packages, ids))
  {
    if packages != [] {
      assert forall i :: 0 <= i < |packages[1..]| ==> packages[1..][i] == packages[i + 1];
      assert forall i :: 0 <= i < |ids[1..]| ==> ids[1..][i] == ids[i + 1];
      assert NoNewline(packages[0]) && NoNewline(ids[0]);
      SkinRowsFacts(packages[1..], ids[1..]);
    }
  }
}
