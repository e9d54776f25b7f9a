/** The line-wise reading and editing of `cordis.patch.yml`: what each editor
    loop computes, as a function of the file's lines. */
module PatchLines {
  import opened Basics
  import opened TextLines

  // ----- reading one line -----

  /** The rest of `t` after `key`, when `t` starts with it. */
  function After(t: string, key: string): Option<string> {
    if key <= t then Some(t[|key|..]) else None
  }

  function StripDash(t: string): string {
    if t != [] && t[0] == '-' then t[1..] else t
  }

  /** The leading run of `s` up to whitespace or a quote. */
  function Scalar(s: string): string {
    if s == [] || IsSpace(s[0]) || IsQuote(s[0]) then [] else [s[0]] + Scalar(s[1..])
  }

  /** `parse_id` (key `id:`) and `parse_name` (key `name:`). */
  function ParseField(line: string, key: string): Option<string> {
    match After(Trim(StripDash(line)), key)
    case None => None
    case Some(rest) =>
      var val := Scalar(TrimQuotes(Trim(rest)));
      if val == "" then None else Some(val)
  }

  const ID_KEY := "id:"
  const NAME_KEY := "name:"
  const ROW_HEAD := "- id:"
  const FLAG_KEY := "disabled:"
  const INSERT_HEAD := "- insert:"

  /** The id of a top-level `- id:` line, as `remove_blocks` sees it. */
  function RawRow(line: string): Option<string> {
    var l := TrimCr(line);
    if ROW_HEAD <= l then ParseField(l, ID_KEY) else None
  }

  /** The value of a `disabled:` line, as `remove_blocks` sees it. */
  function RawFlag(line: string): Option<string> {
    match After(Trim(TrimCr(line)), FLAG_KEY)
    case None => None
    case Some(rest) => Some(Trim(rest))
  }

  /** `read_patch_state` drops an inline comment first; `remove_blocks` does not. */
  function ReadRow(line: string): Option<string> { RawRow(BeforeHash(line)) }

  function ReadFlag(line: string): Option<string> { RawFlag(BeforeHash(line)) }

  predicate IsComment(line: string) {
    var t := TrimStart(line); t != [] && t[0] == '#'
  }

  /** A line that carries content: neither blank nor a full-line comment. */
  predicate IsContent(line: string) {
    var t := TrimStart(line); t != [] && t[0] != '#'
  }

  predicate IsPlaceholder(line: string) {
    Trim(line) == "[]" || Trim(line) == "[ ]"
  }

  /** A comment that once was the placeholder (the placeholder itself included). */
  predicate IsCommentedPlaceholder(line: string) {
    IsPlaceholder(TrimStartChar(Trim(line), '#'))
  }

  /** A line that ends an insert block: not empty and not indented. */
  predicate Breaks(line: string) {
    var l := TrimCr(line); l != [] && l[0] != ' ' && l[0] != '\t'
  }

  predicate IsInsertHead(line: string) { INSERT_HEAD <= TrimCr(line) }

  function Content(L: seq<string>): (r: seq<string>)
    ensures |r| <= |L|
  {
    if L == [] then [] else (if IsContent(L[0]) then [L[0]] else []) + Content(L[1..])
  }

  // ----- the state the launcher reads back -----

  /** The `(id, disabled)` facts of the file: every `- id:` line whose next line is `disabled: true|false`. */
  function ReadPairs(L: seq<string>): set<(string, bool)> {
    if |L| < 2 then {}
    else
      (match (ReadRow(L[0]), ReadFlag(L[1]))
       case (Some(id), Some(v)) => if v == "true" then {(id, true)} else if v == "false" then {(id, false)} else {}
       case _ => {})
      + ReadPairs(L[1..])
  }

  // ----- removing toggle rows -----

  /** Line 0 and line 1 are a toggle pair of `id` whose value is one of `values`. */
  predicate IsPairOf(L: seq<string>, id: string, values: seq<string>) {
    |L| >= 2 && RawRow(L[0]) == Some(id) && RawFlag(L[1]).Some? && RawFlag(L[1]).value in values
  }

  function RemoveBlocks(L: seq<string>, id: string, values: seq<string>): (r: seq<string>)
    ensures |r| <= |L|
  {
    if L == [] then []
    else if IsPairOf(L, id, values) then RemoveBlocks(L[2..], id, values)
    else [L[0]] + RemoveBlocks(L[1..], id, values)
  }

  // ----- removing launcher-owned insert blocks -----

  datatype Owner = Mcp | Skin

  const MCP_CLIENT := "@deepseek-ai/dsh-mcp-client"
  const SKIN_PREFIX := "skin-"

  /** A nested line that marks its insert block as the launcher's. */
  predicate OwnsLine(o: Owner, line: string) {
    var t := Trim(TrimStartChar(Trim(BeforeHash(TrimCr(line))), '-'));
    match o
    case Mcp =>
      (match After(t, NAME_KEY)
       case None => false
       case Some(rest) => TrimEndQuotes(TrimQuotes(Trim(rest))) == MCP_CLIENT)
    case Skin =>
      (match After(t, ID_KEY)
       case None => false
       case Some(rest) => SKIN_PREFIX <= TrimQuotes(Trim(rest)))
  }

  /** How many leading lines stay inside a block that started before them. */
  function BodyLen(L: seq<string>): (n: nat)
    ensures n <= |L|
    ensures forall i :: 0 <= i < n ==> !Breaks(L[i])
    ensures n < |L| ==> Breaks(L[n])
  {
    if L == [] || Breaks(L[0]) then 0
    else
      var n := 1 + BodyLen(L[1..]);
      assert forall i :: 1 <= i < n ==> L[i] == L[1..][i - 1];
      n
  }

  predicate Owns(o: Owner, body: seq<string>) {
    exists k :: 0 <= k < |body| && OwnsLine(o, body[k])
  }

  /** The lines of the block that starts at line 0. */
  function BlockEnd(L: seq<string>): (n: nat)
    requires L != []
    ensures 1 <= n <= |L|
  {
    1 + BodyLen(L[1..])
  }

  function StripBlocks(o: Owner, L: seq<string>): seq<string>
    decreases |L|
  {
    if L == [] then []
    else if IsInsertHead(L[0]) && Owns(o, L[1..BlockEnd(L)]) then StripBlocks(o, L[BlockEnd(L)..])
    else [L[0]] + StripBlocks(o, L[1..])
  }

  // ----- the empty-list placeholder -----

  function CommentOut(L: seq<string>): seq<string> {
    if L == [] then []
    else if IsPlaceholder(L[0]) then ["# []"] + L[1..]
    else [L[0]] + CommentOut(L[1..])
  }

  predicate HasCommentedPlaceholder(L: seq<string>) {
    exists i :: 0 <= i < |L| && IsCommentedPlaceholder(L[i])
  }

  function Revive(L: seq<string>): seq<string> {
    if L == [] then []
    else if IsCommentedPlaceholder(L[0]) then ["[]"] + L[1..]
    else [L[0]] + Revive(L[1..])
  }

  // ----- whole-text operations, as the source writes them -----

  /** `text.lines()` on the split pieces: no empty last piece, and no `\r` before a line feed. */
  function RustLines(L: seq<string>): seq<string>
    requires L != []
  {
    if |L| == 1 then (if L[0] == "" then [] else L)
    else [if L[0] != [] && L[0][|L[0]| - 1] == '\r' then L[0][..|L[0]| - 1] else L[0]] + RustLines(L[1..])
  }

  function Blanked(ls: seq<string>): seq<string> {
    if ls == [] then [] else [if IsComment(ls[0]) then "" else ls[0]] + Blanked(ls[1..])
  }

  function WithoutCommentLines(text: string): string {
    Join(Blanked(RustLines(Split(text))))
  }

  predicate EndsWithLf(text: string) { text != [] && text[|text| - 1] == '\n' }

  function AppendBlock(text: string, block: string): string {
    if Trim(text) == "" then block
    else
      var stripped := Trim(WithoutCommentLines(text));
      var next :=
        if stripped == "" then text
        else if stripped == "[]" || stripped == "[ ]" then Join(CommentOut(Split(text)))
        else text;
      (if EndsWithLf(next) then next else next + "\n") + block
  }

  function RestorePlaceholder(text: string): string {
    if Trim(WithoutCommentLines(text)) != "" then text
    else if HasCommentedPlaceholder(Split(text)) then Join(Revive(Split(text)))
    else if text == "" || EndsWithLf(text) then text + "[]\n"
    else text + "\n[]\n"
  }

  // ----- the same two operations on lines -----

  predicate AllBlank(L: seq<string>) {
    forall i :: 0 <= i < |L| ==> AllSpace(L[i])
  }

  /** The lines once a trailing line feed is taken off (or was missing). */
  function Terminated(L: seq<string>): seq<string> {
    if |L| >= 2 && L[|L| - 1] == "" then L[..|L| - 1] else L
  }

  predicate OnlyPlaceholder(L: seq<string>) {
    |Content(L)| == 1 && IsPlaceholder(Content(L)[0])
  }

  function AppendLines(L: seq<string>, B: seq<string>): seq<string> {
    if AllBlank(L) then B
    else Terminated(if OnlyPlaceholder(L) then CommentOut(L) else L) + B
  }

  function RestoreLines(L: seq<string>): seq<string>
    requires L != []
  {
    if Content(L) != [] then L
    else if HasCommentedPlaceholder(L) then Revive(L)
    else (if L[|L| - 1] == "" then L[..|L| - 1] else L) + ["[]", ""]
  }

  /** A file is never zero lines: joining nothing gives the empty text, one empty line. */
  function AtLeastOne(L: seq<string>): seq<string> {
    if L == [] then [""] else L
  }
}
