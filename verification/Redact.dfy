/** The secret scanner: which bytes of a line it masks, and what a second pass
    over its own output does. A byte is a `char` below 256. */
module Redact {
  import opened Basics
  import opened TextLines

  const MASK := "***"

  const SECRET_KEYS: seq<string> := [
    "launchtoken", "access_token", "access-token", "refresh_token", "refresh-token",
    "client_secret", "client-secret", "id_token", "api_key", "api-key", "apikey",
    "password", "authorization", "token", "secret"
  ]

  const WIDE_KEY := "authorization"

  // ----- bytes -----

  /** `is_ascii_whitespace`: no vertical tab. */
  predicate IsWs(c: char) { c == ' ' || c == '\t' || c == '\n' || c == '\U{0C}' || c == '\r' }

  predicate IsSep(c: char) { c == '=' || c == ':' }

  /** Ends every unquoted value. */
  predicate IsStop(c: char) { c == '&' || IsQuote(c) }

  /** Ends an unquoted value other than an `Authorization` header's. */
  predicate IsPunct(c: char) {
    c == ',' || c == '}' || c == ']' || c == '>' || c == ')' || c == ';' || c == '<'
  }

  predicate IsLetter(c: char) { 'a' <= Lower(c) <= 'z' }

  predicate StartsCi(t: string, key: string) {
    |key| <= |t| && forall i :: 0 <= i < |key| ==> Lower(t[i]) == key[i]
  }

  /** The first key of the list that `t` starts with. */
  function FirstKey(t: string, keys: seq<string>): Option<string> {
    if keys == [] then None
    else if StartsCi(t, keys[0]) then Some(keys[0])
    else FirstKey(t, keys[1..])
  }

  function SpacesLen(t: string): (n: nat)
    ensures n <= |t|
    ensures forall i :: 0 <= i < n ==> t[i] == ' '
    ensures n < |t| ==> t[n] != ' '
  {
    if t != [] && t[0] == ' ' then 1 + SpacesLen(t[1..]) else 0
  }

  function WsLen(t: string): (n: nat)
    ensures n <= |t|
    ensures forall i :: 0 <= i < n ==> IsWs(t[i])
    ensures n < |t| ==> !IsWs(t[n])
  {
    if t != [] && IsWs(t[0]) then 1 + WsLen(t[1..]) else 0
  }

  /** The extent of a quoted value: up to the closing quote, or the end. */
  function QuotedLen(t: string, q: char): (n: nat)
    ensures n <= |t|
    ensures n < |t| ==> t[n] == q
    ensures forall i :: 0 <= i < n ==> t[i] != q
  {
    if t != [] && t[0] != q then 1 + QuotedLen(t[1..], q) else 0
  }

  /** An unquoted value before its trailing full stops are dropped. */
  function Extent(t: string, spaces: nat, wide: bool): (n: nat)
    ensures n <= |t|
  {
    if t == [] || IsStop(t[0]) then 0
    else if IsWs(t[0]) then
      var m := WsLen(t);
      if spaces == 0 || m >= |t| || IsStop(t[m]) then 0
      else m + Extent(t[m..], spaces - 1, wide)
    else if !wide && IsPunct(t[0]) then 0
    else 1 + Extent(t[1..], spaces, wide)
  }

  /** The length of `s` without its trailing full stops. */
  function UndottedLen(s: string): (n: nat)
    ensures n <= |s|
    ensures n > 0 ==> s[n - 1] != '.'
    ensures forall i :: n <= i < |s| ==> s[i] == '.'
  {
    if s != [] && s[|s| - 1] == '.' then UndottedLen(s[..|s| - 1]) else |s|
  }

  function Allowance(wide: bool): nat { if wide then 1 else 0 }

  /** `unquoted_value`, as a length from the value's start. */
  function UnquotedLen(t: string, wide: bool): (n: nat)
    ensures n <= |t|
  {
    UndottedLen(t[..Extent(t, Allowance(wide), wide)])
  }

  predicate IsKeyRun(c: char) { IsAlnum(c) || c == '-' || c == '_' }

  function RunLen(t: string): (n: nat)
    ensures n <= |t|
    ensures forall i :: 0 <= i < n ==> IsKeyRun(t[i])
    ensures n < |t| ==> !IsKeyRun(t[n])
  {
    if t != [] && IsKeyRun(t[0]) then 1 + RunLen(t[1..]) else 0
  }

  // ----- hits -----

  datatype Kind = Quoted(q: char) | Unquoted(wide: bool) | Token

  /** Where a value starts and how it is delimited. */
  datatype Value = Value(start: nat, kind: Kind)

  datatype Hit = Hit(start: nat, end: nat, kind: Kind)

  /** The index after the separator of a key of length `j`. */
  function AfterKey(t: string, j: nat): (r: Option<nat>)
    ensures r.Some? ==> j < r.value <= |t| && IsSep(t[r.value - 1])
  {
    var k := if j < |t| && IsQuote(t[j]) then j + 1 else j;
    if k < |t| && IsSep(t[k]) then Some(k + 1) else None
  }

  function ValueAfter(t: string, j: nat, wide: bool): (v: Value)
    requires j <= |t|
    ensures v.start <= |t|
  {
    var k := j + SpacesLen(t[j..]);
    if k < |t| && IsQuote(t[k]) then Value(k + 1, Quoted(t[k])) else Value(k, Unquoted(wide))
  }

  function NamedValue(t: string): (v: Option<Value>)
    ensures v.Some? ==> v.value.start <= |t|
  {
    match FirstKey(t, SECRET_KEYS)
    case None => None
    case Some(key) =>
      match AfterKey(t, |key|)
      case None => None
      case Some(j) => Some(ValueAfter(t, j, key == WIDE_KEY))
  }

  const BEARER := "bearer"
  const SK := "sk-"

  function BearerValue(t: string): (v: Option<Value>)
    ensures v.Some? ==> v.value.start <= |t|
  {
    if !StartsCi(t, BEARER) then None
    else
      var m := WsLen(t[|BEARER|..]);
      if m == 0 || |BEARER| + m >= |t| then None else Some(Value(|BEARER| + m, Unquoted(false)))
  }

  function ValueLen(t: string, v: Value): (n: nat)
    requires v.start <= |t|
    ensures v.start + n <= |t|
  {
    match v.kind
    case Quoted(q) => QuotedLen(t[v.start..], q)
    case Unquoted(wide) => UnquotedLen(t[v.start..], wide)
    case Token => 0
  }

  function HitOf(t: string, v: Option<Value>): (h: Option<Hit>)
    requires v.Some? ==> v.value.start <= |t|
    ensures h.Some? ==> h.value.start < h.value.end <= |t|
  {
    if v.Some? && ValueLen(t, v.value) > 0
    then Some(Hit(v.value.start, v.value.start + ValueLen(t, v.value), v.value.kind))
    else None
  }

  const MIN_TOKEN: nat := 20

  /** What the scanner masks at the start of `t`; `pa` says the byte before is alphanumeric. */
  function HitAt(pa: bool, t: string): (h: Option<Hit>)
    ensures h.Some? ==> h.value.start < h.value.end <= |t|
  {
    if pa then None
    else
      var named := HitOf(t, NamedValue(t));
      if named.Some? then named
      else if StartsCi(t, BEARER) then HitOf(t, BearerValue(t))
      else if StartsCi(t, SK) && RunLen(t) >= MIN_TOKEN then Some(Hit(0, RunLen(t), Token))
      else None
  }

  /** The redacted text of the suffix `t`. */
  function Scan(pa: bool, t: string): string
    decreases |t|
  {
    if t == [] then []
    else
      match HitAt(pa, t)
      case None => [t[0]] + Scan(IsAlnum(t[0]), t[1..])
      case Some(h) => t[..h.start] + MASK + Scan(IsAlnum(t[h.end - 1]), t[h.end..])
  }

  /** `redact_secrets` */
  function Redacted(t: string): string { Scan(false, t) }

  // ----- the masked spans -----

  /** The spans masked in `t`, as offsets from `at`. */
  function Spans(pa: bool, t: string, at: nat): seq<(nat, nat)>
    decreases |t|
  {
    if t == [] then []
    else
      match HitAt(pa, t)
      case None => Spans(IsAlnum(t[0]), t[1..], at + 1)
      case Some(h) => [(at + h.start, at + h.end)] + Spans(IsAlnum(t[h.end - 1]), t[h.end..], at + h.end)
  }

  /** Non-empty spans in increasing order, each ending before the next begins. */
  predicate Disjoint(spans: seq<(nat, nat)>, at: nat, end: nat)
    decreases |spans|
  {
    if spans == [] then at <= end
    else at <= spans[0].0 < spans[0].1 <= end && Disjoint(spans[1..], spans[0].1, end)
  }

  /** `t` from `at` on, with the spans replaced by the mask and every other byte kept. */
  function Masked(t: string, at: nat, spans: seq<(nat, nat)>): string
    requires Disjoint(spans, at, |t|)
    decreases |spans|
  {
    if spans == [] then t[at..] else t[at..spans[0].0] + MASK + Masked(t, spans[0].1, spans[1..])
  }

  lemma SuffixOfSuffix(s: string, i: nat, j: nat)
    requires i + j <= |s|
    ensures s[i..][j..] == s[i + j..]
  {
  }

  lemma {:induction false} MaskedNothing(whole: string, at: nat)
    requires at <= |whole|
    ensures Disjoint([], at, |whole|) && Masked(whole, at, []) == whole[at..]
  {
  }

  lemma {:induction false} MaskedFirst(whole: string, at: nat, h: Hit, rest: seq<(nat, nat)>)
    requires at + h.end <= |whole| && h.start < h.end && Disjoint(rest, at + h.end, |whole|)
    ensures var spans := [(at + h.start, at + h.end)] + rest;
            && Disjoint(spans, at, |whole|)
            && Masked(whole, at, spans) == whole[at..][..h.start] + MASK + Masked(whole, at + h.end, rest)
  {
    var spans := [(at + h.start, at + h.end)] + rest;
    assert spans[1..] == rest;
    assert whole[at..at + h.start] == whole[at..][..h.start];
  }

  /** The output is the input with disjoint, increasing, non-empty spans masked and every other byte kept in order. */
  lemma {:induction false} ScanMasksSpans(pa: bool, whole: string, at: nat)
    requires at <= |whole|
    ensures Disjoint(Spans(pa, whole[at..], at), at, |whole|)
    ensures Scan(pa, whole[at..]) == Masked(whole, at, Spans(pa, whole[at..], at))
    decreases |whole| - at
  {
    hide HitAt, Disjoint, Masked;
    var t := whole[at..];
    if t == [] {
      MaskedNothing(whole, at);
    } else {
      var hit := HitAt(pa, t);
      if hit.None? {
        var u := whole[at + 1..];
        assert t[1..] == u;
        ScanMasksSpans(IsAlnum(t[0]), whole, at + 1);
        MaskedFromEarlier(whole, at, Spans(IsAlnum(t[0]), u, at + 1));
      } else {
        var h := hit.value;
        var q := IsAlnum(t[h.end - 1]);
        var u := whole[at + h.end..];
        SuffixOfSuffix(whole, at, h.end);
        ScanMasksSpans(q, whole, at + h.end);
        var rest := Spans(q, u, at + h.end);
        assert Disjoint(rest, at + h.end, |whole|);
        MaskedFirst(whole, at, h, rest);
        assert Spans(pa, t, at) == [(at + h.start, at + h.end)] + rest;
      }
    }
  }

  lemma {:induction false} MaskedFromEarlier(t: string, at: nat, spans: seq<(nat, nat)>)
    requires at < |t| && Disjoint(spans, at + 1, |t|)
    ensures Disjoint(spans, at, |t|)
    ensures Masked(t, at, spans) == [t[at]] + Masked(t, at + 1, spans)
  {
    if spans == [] {
      assert t[at..] == [t[at]] + t[at + 1..];
    } else {
      var s, rest := spans[0].0, MASK + Masked(t, spans[0].1, spans[1..]);
      assert t[at..s] == [t[at]] + t[at + 1..s];
      ConcatAssoc(t[at..s], MASK, Masked(t, spans[0].1, spans[1..]));
      ConcatAssoc(t[at + 1..s], MASK, Masked(t, spans[0].1, spans[1..]));
      ConcatAssoc([t[at]], t[at + 1..s], rest);
    }
  }

  // ----- the keys -----

  predicate IsKeyChar(c: char) { 'a' <= c <= 'z' || c == '_' || c == '-' }

  /** Keys are lower-case words; none holds the start of an `sk-` token. */
  predicate KeyOk(k: string) {
    && 0 < |k| <= |WIDE_KEY| && k[0] != 'b' && IsLetter(k[0])
    && (forall i :: 0 <= i < |k| ==> IsKeyChar(k[i]))
    && (forall i :: 0 <= i < |k| && k[i] == 's' ==> i + 1 < |k| && k[i + 1] != 'k')
  }

  lemma {:induction false} KeysOk()
    ensures forall i :: 0 <= i < |SECRET_KEYS| ==> KeyOk(SECRET_KEYS[i])
  {
    KeysOk1();
    KeysOk2();
    KeysOk3();
  }

  lemma {:induction false} KeysOk1()
    ensures forall i :: 0 <= i < 5 ==> KeyOk(SECRET_KEYS[i])
  {
    assert KeyOk("launchtoken");
    assert KeyOk("access_token");
    assert KeyOk("access-token");
    assert KeyOk("refresh_token");
    assert KeyOk("refresh-token");
  }

  lemma {:induction false} KeysOk2()
    ensures forall i :: 5 <= i < 10 ==> KeyOk(SECRET_KEYS[i])
  {
    assert KeyOk("client_secret");
    assert KeyOk("client-secret");
    assert KeyOk("id_token");
    assert KeyOk("api_key");
    assert KeyOk("api-key");
  }

  lemma {:induction false} KeysOk3()
    ensures forall i :: 10 <= i < 15 ==> KeyOk(SECRET_KEYS[i])
  {
    assert KeyOk("apikey");
    assert KeyOk("password");
    assert KeyOk("authorization");
    assert KeyOk("token");
    assert KeyOk("secret");
  }

  lemma {:induction false} KeyOkOf(key: string)
    requires key in SECRET_KEYS
    ensures KeyOk(key)
  {
    KeysOk();
    var i :| 0 <= i < |SECRET_KEYS| && SECRET_KEYS[i] == key;
  }

  lemma {:induction false} MarkersOk()
    ensures KeyOk(WIDE_KEY) && (forall i :: 0 <= i < |BEARER| ==> IsKeyChar(BEARER[i]))
    ensures |BEARER| == 6 && |SK| == 3 && SK[0] == 's' && SK[1] == 'k' && SK[2] == '-' && BEARER[0] == 'b'
    ensures forall i :: 0 <= i < |BEARER| ==> BEARER[i] != 's'
  {
    assert KeyOk("authorization");
  }

  /** The first key found is a key the text starts with, and no key before it is. */
  lemma {:induction false} FirstKeyFound(t: string, keys: seq<string>)
    ensures var k := FirstKey(t, keys); k.Some? ==> k.value in keys && StartsCi(t, k.value)
    ensures FirstKey(t, keys).None? ==> forall i :: 0 <= i < |keys| ==> !StartsCi(t, keys[i])
  {
    if keys != [] {
      FirstKeyFound(t, keys[1..]);
      assert forall i :: 0 < i < |keys| ==> keys[i] == keys[1..][i - 1];
    }
  }

  // ----- a text and its redaction up to the first mask -----

  /** `w` is `t` up to `s`, where a mask begins. */
  predicate Agrees(t: string, w: string, s: nat) {
    s < |t| && s < |w| && w[s] == '*' && forall i :: 0 <= i < s ==> t[i] == w[i]
  }

  lemma AgreesFrom(t: string, w: string, s: nat, k: nat)
    requires Agrees(t, w, s) && k <= s
    ensures Agrees(t[k..], w[k..], s - k)
  {
  }

  /** What a word matches in the redacted text it matches in the original. */
  lemma {:induction false} WordAgrees(t: string, w: string, s: nat, key: string)
    requires Agrees(t, w, s) && forall i :: 0 <= i < |key| ==> IsKeyChar(key[i])
    ensures StartsCi(w, key) <==> StartsCi(t, key) && |key| <= s
  {
    assert Lower(w[s]) == '*';
  }

  lemma {:induction false} FirstKeyAgrees(t: string, w: string, s: nat, keys: seq<string>)
    requires Agrees(t, w, s) && forall i :: 0 <= i < |keys| ==> KeyOk(keys[i])
    requires var k := FirstKey(t, keys); k.Some? ==> |k.value| <= s
    ensures FirstKey(w, keys) == FirstKey(t, keys)
  {
    if keys != [] {
      assert KeyOk(keys[0]);
      WordAgrees(t, w, s, keys[0]);
      assert forall i :: 0 <= i < |keys[1..]| ==> keys[1..][i] == keys[i + 1];
      if !StartsCi(t, keys[0]) { FirstKeyAgrees(t, w, s, keys[1..]); }
    }
  }

  lemma {:induction false} AfterKeyAgrees(t: string, w: string, s: nat, j: nat)
    requires Agrees(t, w, s) && j <= s
    ensures var a := AfterKey(t, j);
            AfterKey(w, j) == if a.Some? && a.value <= s then a else None
  {
  }

  // ----- unquoted values -----

  function DotLen(t: string): (n: nat)
    ensures n <= |t|
    ensures forall i :: 0 <= i < n ==> t[i] == '.'
    ensures n < |t| ==> t[n] != '.'
  {
    if t != [] && t[0] == '.' then 1 + DotLen(t[1..]) else 0
  }

  /** The scan of an unquoted value stops right here. */
  predicate Halts(t: string, spaces: nat, wide: bool) {
    || t == [] || IsStop(t[0])
    || (IsWs(t[0]) && (spaces == 0 || WsLen(t) >= |t| || IsStop(t[WsLen(t)])))
    || (!wide && !IsWs(t[0]) && IsPunct(t[0]))
  }

  lemma {:induction false} ExtentZero(t: string, spaces: nat, wide: bool)
    ensures Extent(t, spaces, wide) == 0 <==> Halts(t, spaces, wide)
    ensures t != [] && IsWs(t[0]) && !Halts(t, spaces, wide) ==> Extent(t, spaces, wide) >= WsLen(t)
  {
  }

  lemma {:induction false} ExtentOfDots(t: string, spaces: nat, wide: bool)
    ensures Extent(t, spaces, wide) == DotLen(t) + Extent(t[DotLen(t)..], spaces, wide)
  {
    if t != [] && t[0] == '.' {
      ExtentOfDots(t[1..], spaces, wide);
      assert t[1..][DotLen(t[1..])..] == t[DotLen(t)..];
    } else {
      assert t[0..] == t;
    }
  }

  /** A value is empty exactly when nothing but full stops precedes the point where the scan halts. */
  lemma {:induction false} UnquotedEmpty(t: string, wide: bool)
    ensures UnquotedLen(t, wide) == 0 <==> Halts(t[DotLen(t)..], Allowance(wide), wide)
  {
    var d, n := DotLen(t), Extent(t, Allowance(wide), wide);
    ExtentOfDots(t, Allowance(wide), wide);
    ExtentZero(t[d..], Allowance(wide), wide);
    var len := UndottedLen(t[..n]);
    if n > d { assert t[..n][d] == t[d]; }
    assert forall i :: 0 <= i < n ==> t[..n][i] == t[i];
  }

  /** Where the scan of a value stops, it halts, with what allowance of spaces is left. */
  lemma {:induction false} ExtentHalts(t: string, spaces: nat, wide: bool) returns (left: nat)
    requires spaces <= 1 && (spaces == 1 ==> wide)
    ensures left <= spaces && Halts(t[Extent(t, spaces, wide)..], left, wide)
  {
    var n := Extent(t, spaces, wide);
    if n == 0 {
      left := spaces;
      ExtentZero(t, spaces, wide);
      assert t[0..] == t;
    } else if IsWs(t[0]) {
      var m := WsLen(t);
      left := ExtentHalts(t[m..], spaces - 1, wide);
      assert t[m..][Extent(t[m..], spaces - 1, wide)..] == t[n..];
    } else {
      left := ExtentHalts(t[1..], spaces, wide);
      assert t[1..][Extent(t[1..], spaces, wide)..] == t[n..];
    }
  }

  /** A masked value followed by full stops and then `x`: the scan passes over both. */
  lemma {:induction false} ExtentOfMask(d: nat, x: string, spaces: nat, wide: bool)
    requires x == [] || x[0] != '.'
    ensures var y := MASK + seq(d, _ => '.') + x; Extent(y, spaces, wide) == 3 + d + Extent(x, spaces, wide)
  {
    var dots := seq(d, _ => '.');
    var y := MASK + dots + x;
    var z := dots + x;
    assert y == ['*', '*', '*'] + z;
    assert y[1..] == ['*', '*'] + z && y[1..][1..] == ['*'] + z && y[1..][1..][1..] == z;
    assert Extent(y, spaces, wide) == 1 + Extent(y[1..], spaces, wide);
    assert Extent(y[1..], spaces, wide) == 1 + Extent(y[1..][1..], spaces, wide);
    assert Extent(y[1..][1..], spaces, wide) == 1 + Extent(z, spaces, wide);
    DotLenOf(d, x);
    ExtentOfDots(z, spaces, wide);
    assert z[d..] == x;
  }

  lemma {:induction false} DotLenOf(d: nat, x: string)
    requires x == [] || x[0] != '.'
    ensures DotLen(seq(d, _ => '.') + x) == d
  {
    var z := seq(d, _ => '.') + x;
    var n := DotLen(z);
    assert forall i :: 0 <= i < d ==> z[i] == '.';
    assert x != [] ==> z[d] == x[0];
  }

  // ----- what a span starts with -----

  /** An `Authorization` value starting at `s` belongs to a key that stands at `p`. */
  predicate WideAt(t: string, p: nat, s: nat) {
    && p <= |t| && StartsCi(t[p..], WIDE_KEY)
    && var j := AfterKey(t[p..], |WIDE_KEY|);
       j.Some? && s == p + j.value + SpacesLen(t[p + j.value..])
  }

  /** The surroundings of a span's first byte. */
  ghost predicate StartsSpan(t: string, s: nat, kind: Kind) {
    s < |t| &&
    match kind
    case Token => StartsCi(t[s..], SK) && RunLen(t[s..]) >= MIN_TOKEN
    case Quoted(q) => s >= 1 && IsQuote(q) && t[s - 1] == q && t[s] != q
    case Unquoted(wide) =>
      && s >= 1 && !IsQuote(t[s]) && t[s] != ' '
      && (IsSep(t[s - 1]) || IsWs(t[s - 1]))
      && UnquotedLen(t[s..], wide) > 0
      && (wide ==> exists p :: 0 <= p < s && WideAt(t, p, s))
  }

  lemma {:induction false} TokenIsValue(t: string, wide: bool)
    requires StartsCi(t, SK)
    ensures UnquotedLen(t, wide) > 0 && IsLetter(t[0])
  {
    UnquotedEmpty(t, wide);
    MarkersOk();
    assert Lower(t[0]) == SK[0];
    assert t[0] != '.';
    assert DotLen(t) == 0 && t[0..] == t;
  }

  lemma {:induction false} ValueHead(t: string, wide: bool)
    requires UnquotedLen(t, wide) > 0
    ensures t != [] && !IsStop(t[0]) && (!wide ==> !IsWs(t[0]) && !IsPunct(t[0]))
  {
    UnquotedEmpty(t, wide);
    if t != [] && t[0] != '.' { assert t[DotLen(t)..] == t; }
  }

  lemma {:induction false} ValueAfterStarts(t: string, j: nat, wide: bool)
    requires 0 < j <= |t| && IsSep(t[j - 1])
    requires wide ==> StartsCi(t, WIDE_KEY) && AfterKey(t, |WIDE_KEY|) == Some(j)
    ensures var v := ValueAfter(t, j, wide);
            ValueLen(t, v) > 0 ==> v.start > 0 && StartsSpan(t, v.start, v.kind)
  {
    hide StartsCi, AfterKey;
    var v := ValueAfter(t, j, wide);
    var n := SpacesLen(t[j..]);
    var k := j + n;
    assert n > 0 ==> t[k - 1] == t[j..][n - 1];
    assert k < |t| ==> t[k] == t[j..][n];
    if ValueLen(t, v) > 0 {
      assert t[v.start..][0] == t[v.start];
      if wide {
        assert t[0..] == t;
        assert WideAt(t, 0, k);
      }
    }
  }

  lemma {:induction false} NamedStarts(t: string)
    ensures var h := HitOf(t, NamedValue(t));
            h.Some? ==> h.value.start > 0 && StartsSpan(t, h.value.start, h.value.kind)
  {
    hide ValueAfter, ValueLen, StartsSpan, AfterKey;
    var v := NamedValue(t);
    if v.Some? && ValueLen(t, v.value) > 0 {
      var key := FirstKey(t, SECRET_KEYS).value;
      FirstKeyFound(t, SECRET_KEYS);
      ValueAfterStarts(t, AfterKey(t, |key|).value, key == WIDE_KEY);
    }
  }

  lemma {:induction false} BearerStarts(t: string)
    ensures var h := HitOf(t, BearerValue(t));
            h.Some? ==> h.value.start > 0 && StartsSpan(t, h.value.start, h.value.kind)
  {
    var v := BearerValue(t);
    if v.Some? && ValueLen(t, v.value) > 0 {
      var m := WsLen(t[6..]);
      assert t[6 + m - 1] == t[6..][m - 1];
      ValueHead(t[6 + m..], false);
      assert t[6 + m..][0] == t[6 + m];
    }
  }

  lemma {:induction false} HitStarts(pa: bool, t: string)
    ensures var h := HitAt(pa, t); h.Some? ==> StartsSpan(t, h.value.start, h.value.kind)
    ensures var h := HitAt(pa, t); h.Some? && h.value.kind != Token ==> h.value.start > 0
  {
    NamedStarts(t);
    BearerStarts(t);
    assert t[0..] == t;
  }

  /** The first span of a text, if any. */
  function FirstSpan(pa: bool, t: string): (h: Option<Hit>)
    ensures h.Some? ==> h.value.start < h.value.end <= |t|
    decreases |t|
  {
    if t == [] then None
    else
      match HitAt(pa, t)
      case Some(h) => Some(h)
      case None =>
        match FirstSpan(IsAlnum(t[0]), t[1..])
        case None => None
        case Some(h) => Some(Hit(h.start + 1, h.end + 1, h.kind))
  }

  lemma {:induction false} StartsSpanShift(t: string, s: nat, kind: Kind)
    requires t != [] && StartsSpan(t[1..], s, kind)
    ensures StartsSpan(t, s + 1, kind)
  {
    assert t[1..][s..] == t[s + 1..];
    if kind.Unquoted? && kind.wide {
      var p :| 0 <= p < s && WideAt(t[1..], p, s);
      assert t[1..][p..] == t[p + 1..];
      var j := AfterKey(t[p + 1..], |WIDE_KEY|).value;
      assert t[1..][p + j..] == t[p + 1 + j..];
      assert WideAt(t, p + 1, s + 1);
    }
  }

  lemma ScanPlain(pa: bool, t: string)
    ensures t == [] ==> Scan(pa, t) == []
    ensures t != [] && HitAt(pa, t).None? ==> Scan(pa, t) == [t[0]] + Scan(IsAlnum(t[0]), t[1..])
  {
    hide HitAt;
  }

  lemma HitAgrees(pa: bool, t: string)
    requires t != [] && HitAt(pa, t).Some?
    ensures Agrees(t, Scan(pa, t), HitAt(pa, t).value.start)
  {
    hide HitAt;
  }

  lemma AgreesCons(c: char, t: string, w: string, s: nat)
    requires Agrees(t, w, s)
    ensures Agrees([c] + t, [c] + w, s + 1)
  {
  }

  /** The redacted text up to its first mask, and what the mask stands for. */
  lemma {:induction false} FirstSpanFacts(pa: bool, t: string)
    ensures FirstSpan(pa, t).None? ==> Scan(pa, t) == t
    ensures FirstSpan(pa, t).Some? ==>
              var h := FirstSpan(pa, t).value;
              && StartsSpan(t, h.start, h.kind)
              && Agrees(t, Scan(pa, t), h.start)
    decreases |t|
  {
    hide HitAt, StartsSpan, IsAlnum, Agrees, Scan;
    if t == [] {
      ScanPlain(pa, t);
    } else {
      var hit := HitAt(pa, t);
      if hit.Some? {
        HitStarts(pa, t);
        HitAgrees(pa, t);
      } else {
        FirstSpanFacts(IsAlnum(t[0]), t[1..]);
        var w := Scan(IsAlnum(t[0]), t[1..]);
        ScanPlain(pa, t);
        var f := FirstSpan(IsAlnum(t[0]), t[1..]);
        if f.Some? {
          StartsSpanShift(t, f.value.start, f.value.kind);
          AgreesCons(t[0], t[1..], w, f.value.start);
          assert t == [t[0]] + t[1..];
        }
      }
    }
  }

  // ----- a position without a hit stays without one -----

  /** No key reaches into a span that starts after it. */
  lemma {:induction false} WordBeforeSpan(t: string, s: nat, kind: Kind, key: string)
    requires StartsSpan(t, s, kind) && s >= 1 && StartsCi(t, key)
    requires forall i :: 0 <= i < |key| ==> IsKeyChar(key[i])
    requires forall i :: 0 <= i < |key| && key[i] == 's' ==> i + 1 < |key| && key[i + 1] != 'k'
    ensures |key| <= s
  {
    MarkersOk();
    assert t[s..][0] == t[s];
    assert forall i :: 0 <= i < |key| ==>
             IsKeyChar(Lower(t[i])) && (Lower(t[i]) == 's' ==> i + 1 < |key| && Lower(t[i + 1]) != 'k');
    if kind == Token {
      assert t[s..][1] == t[s + 1];
      assert Lower(t[s..][0]) == SK[0] && Lower(t[s..][1]) == SK[1];
    }
  }

  predicate NoSep(t: string, k: nat, s: nat)
    requires s <= |t|
  {
    forall i :: k <= i < s ==> !IsSep(t[i])
  }

  /** An `Authorization` value that starts at `s`, seen from a place after its separator:
      only spaces lie in between. */
  lemma {:induction false} OnlySpacesBefore(t: string, p: nat, s: nat, k: nat)
    requires WideAt(t, p, s) && p < s < |t| && 1 <= k <= s
    ensures NoSep(t, k, s) ==> (forall i :: k <= i < s ==> t[i] == ' ') && (IsSep(t[k - 1]) || t[k - 1] == ' ')
  {
    var u := t[p..];
    var j := AfterKey(u, |WIDE_KEY|).value;
    assert u[j - 1] == t[p + j - 1];
    var v := t[p + j..];
    assert forall i :: p + j <= i < s ==> t[i] == v[i - (p + j)];
  }

  /** The spaces after a separator end before the span does not yet begin. */
  lemma {:induction false} SpacesAgree(t: string, w: string, s: nat, kind: Kind, j: nat)
    requires Agrees(t, w, s) && StartsSpan(t, s, kind) && 0 < j <= s && IsSep(t[j - 1])
    ensures j + SpacesLen(t[j..]) <= s && SpacesLen(w[j..]) == SpacesLen(t[j..])
  {
    var n := SpacesLen(t[j..]);
    assert t[s..][0] == t[s];
    assert forall i :: j <= i < j + n ==> t[i] == t[j..][i - j];
    AgreesFrom(t, w, s, j);
    SpacesUpTo(t[j..], w[j..], s - j);
  }

  lemma {:induction false} SpacesUpTo(a: string, b: string, s: nat)
    requires Agrees(a, b, s) && SpacesLen(a) <= s
    ensures SpacesLen(b) == SpacesLen(a)
  {
    if s > 0 && a[0] == ' ' {
      AgreesFrom(a, b, s, 1);
      SpacesUpTo(a[1..], b[1..], s - 1);
    }
  }

  lemma {:induction false} WsUpTo(a: string, b: string, s: nat)
    requires Agrees(a, b, s) && WsLen(a) <= s
    ensures WsLen(b) == WsLen(a)
  {
    if s > 0 && IsWs(a[0]) {
      AgreesFrom(a, b, s, 1);
      WsUpTo(a[1..], b[1..], s - 1);
    }
  }

  lemma {:induction false} DotsUpTo(a: string, b: string, s: nat)
    requires Agrees(a, b, s) && DotLen(a) <= s
    ensures DotLen(b) == DotLen(a)
  {
    if s > 0 && a[0] == '.' {
      AgreesFrom(a, b, s, 1);
      DotsUpTo(a[1..], b[1..], s - 1);
    }
  }

  lemma {:induction false} HaltsAgrees(x: string, y: string, s: nat, spaces: nat, wide: bool)
    requires Agrees(x, y, s) && s > 0 && Halts(x, spaces, wide)
    requires IsWs(x[0]) && spaces > 0 ==> WsLen(x) < s
    ensures Halts(y, spaces, wide)
  {
    if IsWs(x[0]) && spaces > 0 { WsUpTo(x, y, s); }
  }

  /** An empty value whose first byte is kept is still empty when a later span is masked. */
  lemma {:induction false} EmptyStaysEmpty(t: string, w: string, s: nat, kind: Kind, k: nat, wide: bool)
    requires Agrees(t, w, s) && StartsSpan(t, s, kind) && 1 <= k < s && t[k] != ' '
    requires UnquotedLen(t[k..], wide) == 0
    ensures UnquotedLen(w[k..], wide) == 0
  {
    hide Halts, StartsSpan, UnquotedLen, DotLen, WsLen;
    var u, v := t[k..], w[k..];
    var d := DotLen(u);
    AgreesFrom(t, w, s, k);
    UnquotedEmpty(u, wide);
    UnquotedEmpty(v, wide);
    DotsBeforeSpan(t, s, kind, k, wide);
    DotsUpTo(u, v, s - k);
    AgreesFrom(u, v, s - k, d);
    DotsAt(t, k);
    WsBeforeSpan(t, s, kind, k, k + d, wide);
    HaltsAgrees(u[d..], v[d..], s - k - d, Allowance(wide), wide);
  }

  /** A span does not begin inside the full stops of an empty value, nor right where it halts. */
  lemma {:induction false} DotsBeforeSpan(t: string, s: nat, kind: Kind, k: nat, wide: bool)
    requires StartsSpan(t, s, kind) && 1 <= k < s
    requires Halts(t[k..][DotLen(t[k..])..], Allowance(wide), wide)
    ensures k + DotLen(t[k..]) < s
  {
    hide Halts, DotLen, UnquotedLen, RunLen, WideAt;
    DotsAt(t, k);
    assert t[s..][0] == t[s];
    if kind == Token {
      TokenIsValue(t[s..], wide);
      TokenDoesNotHalt(t[s..], wide);
    }
  }

  lemma {:induction false} TokenDoesNotHalt(t: string, wide: bool)
    requires StartsCi(t, SK)
    ensures !Halts(t, Allowance(wide), wide)
  {
    TokenIsValue(t, wide);
  }

  lemma {:induction false} DotsAt(t: string, k: nat)
    requires k <= |t|
    ensures var a := k + DotLen(t[k..]);
            t[k..][DotLen(t[k..])..] == t[a..] && forall i :: k <= i < a ==> t[i] == '.'
  {
    var u := t[k..];
    var d := DotLen(u);
    forall i | k <= i < k + d ensures t[i] == '.' { assert t[i] == u[i - k]; }
  }

  lemma {:induction false} WsAt(t: string, a: nat)
    requires a < |t| && Halts(t[a..], Allowance(true), true) && IsWs(t[a])
    ensures var b := a + WsLen(t[a..]);
            a < b <= |t| && (forall i :: a <= i < b ==> IsWs(t[i])) && (b < |t| ==> IsStop(t[b]))
  {
    var x := t[a..];
    assert x[0] == t[a];
    forall i | a <= i < a + WsLen(x) ensures IsWs(t[i]) { assert t[i] == x[i - a]; }
    assert a + WsLen(x) < |t| ==> t[a + WsLen(x)] == x[WsLen(x)];
  }

  /** The whitespace at which an empty `Authorization` value halts, and the byte after it, precede the span. */
  lemma {:induction false} WsBeforeSpan(t: string, s: nat, kind: Kind, k: nat, a: nat, wide: bool)
    requires StartsSpan(t, s, kind) && 1 <= k <= a < s < |t| && t[k] != ' ' && forall i :: k <= i < a ==> t[i] == '.'
    requires Halts(t[a..], Allowance(wide), wide)
    ensures IsWs(t[a]) && wide ==> a + WsLen(t[a..]) < s
  {
    hide StartsSpan, WsLen, IsWs, Halts;
    if IsWs(t[a]) && wide {
      WsAt(t, a);
      SpanPastRun(t, s, kind, k, a, a + WsLen(t[a..]));
    }
  }

  /** A span cannot start in or right after a run of full stops and whitespace that a stop ends. */
  lemma {:induction false} SpanPastRun(t: string, s: nat, kind: Kind, k: nat, a: nat, b: nat)
    requires StartsSpan(t, s, kind) && 1 <= k <= a < s && a < b <= |t| && t[k] != ' '
    requires forall i :: k <= i < a ==> t[i] == '.'
    requires forall i :: a <= i < b ==> IsWs(t[i])
    requires b < |t| ==> IsStop(t[b])
    ensures b < s
  {
    hide UnquotedLen, RunLen, AfterKey, SpacesLen;
    assert s <= b ==> IsWs(t[s - 1]);
    assert t[s..][0] == t[s];
    match kind
    case Token => TokenIsValue(t[s..], true);
    case Quoted(q) =>
    case Unquoted(wide) =>
      ValueHead(t[s..], wide);
      if wide {
        var p :| 0 <= p < s && WideAt(t, p, s);
        WidePastRun(t, s, p, k, a, b);
      }
  }

  lemma {:induction false} WidePastRun(t: string, s: nat, p: nat, k: nat, a: nat, b: nat)
    requires WideAt(t, p, s) && p < s < |t| && 1 <= k <= a < s && a < b <= |t| && t[k] != ' '
    requires forall i :: k <= i < a ==> t[i] == '.'
    requires forall i :: a <= i < b ==> IsWs(t[i])
    ensures b < s
  {
    hide WideAt;
    OnlySpacesBefore(t, p, s, k);
  }

  /** Dropping the comma-like terminators only lengthens a value. */
  lemma {:induction false} WiderIsLonger(t: string)
    requires UnquotedLen(t, false) > 0
    ensures UnquotedLen(t, true) > 0
  {
    UnquotedEmpty(t, false);
    UnquotedEmpty(t, true);
  }

  /** Two keys that share their separator and the spaces after it: the one at the front is the other. */
  lemma {:induction false} WideKeyOnly(t: string, key: string, j: nat, p: nat, s: nat)
    requires KeyOk(key) && StartsCi(t, key) && AfterKey(t, |key|) == Some(j)
    requires WideAt(t, p, s) && p < s < |t|
    ensures j + SpacesLen(t[j..]) == s ==> key == WIDE_KEY
  {
    hide StartsCi, AfterKey, SpacesLen, KeyOk;
    var u := t[p..];
    var j' := AfterKey(u, |WIDE_KEY|).value;
    assert u[j' - 1] == t[p + j' - 1];
    if j + SpacesLen(t[j..]) == s {
      SameSep(t, j, p + j', s);
      WideTail(t, key, j, p);
    }
  }

  /** The separator before a run of spaces is unique. */
  lemma {:induction false} SameSep(t: string, a: nat, b: nat, s: nat)
    requires 0 < a <= s && 0 < b <= s && s <= |t| && IsSep(t[a - 1]) && IsSep(t[b - 1])
    requires s == a + SpacesLen(t[a..]) && s == b + SpacesLen(t[b..])
    ensures a == b
  {
    assert forall i :: a <= i < s ==> t[i] == t[a..][i - a];
    assert forall i :: b <= i < s ==> t[i] == t[b..][i - b];
  }

  lemma {:induction false} WideTail(t: string, key: string, j: nat, p: nat)
    requires KeyOk(key) && StartsCi(t, key) && AfterKey(t, |key|) == Some(j)
    requires p <= |t| && StartsCi(t[p..], WIDE_KEY)
    requires AfterKey(t[p..], |WIDE_KEY|).Some? && p + AfterKey(t[p..], |WIDE_KEY|).value == j
    ensures key == WIDE_KEY
  {
    MarkersOk();
    var u := t[p..];
    assert forall i :: 0 <= i < |u| ==> u[i] == t[p + i];
    assert Lower(t[|key| - 1]) == key[|key| - 1];
    assert Lower(u[|WIDE_KEY| - 1]) == WIDE_KEY[|WIDE_KEY| - 1];
    assert |key| == p + |WIDE_KEY|;
    assert p == 0 && u == t;
    assert forall i :: 0 <= i < |key| ==> key[i] == Lower(t[i]) && WIDE_KEY[i] == Lower(t[i]);
  }

  /** The place an empty value would start at is not where a span begins. */
  lemma {:induction false} ValueBeforeSpan(t: string, s: nat, kind: Kind, key: string, j: nat)
    requires StartsSpan(t, s, kind) && KeyOk(key) && StartsCi(t, key)
    requires AfterKey(t, |key|) == Some(j) && j <= s && j + SpacesLen(t[j..]) <= s
    requires ValueLen(t, ValueAfter(t, j, key == WIDE_KEY)) == 0
    ensures j + SpacesLen(t[j..]) < s
  {
    hide UnquotedLen, RunLen, AfterKey;
    var n := SpacesLen(t[j..]);
    assert forall i :: j <= i < j + n ==> t[i] == t[j..][i - j];
    assert t[s..][0] == t[s];
    match kind
    case Token => TokenIsValue(t[s..], key == WIDE_KEY);
    case Quoted(q) =>
    case Unquoted(wide) =>
      if wide {
        var p :| 0 <= p < s && WideAt(t, p, s);
        WideKeyOnly(t, key, j, p, s);
      } else {
        WiderIsLonger(t[s..]);
      }
  }

  /** A key without a value to mask still has none when a later span is masked. */
  lemma {:induction false} ValueStaysEmpty(t: string, w: string, s: nat, kind: Kind, key: string, j: nat)
    requires Agrees(t, w, s) && StartsSpan(t, s, kind) && KeyOk(key) && StartsCi(t, key)
    requires AfterKey(t, |key|) == Some(j) && j <= s
    requires ValueLen(t, ValueAfter(t, j, key == WIDE_KEY)) == 0
    ensures ValueLen(w, ValueAfter(w, j, key == WIDE_KEY)) == 0
  {
    hide StartsSpan, StartsCi, AfterKey, UnquotedLen, QuotedLen, SpacesLen, KeyOk;
    SpacesAgree(t, w, s, kind, j);
    ValueBeforeSpan(t, s, kind, key, j);
    var k := j + SpacesLen(t[j..]);
    assert t[j..][k - j] == t[k] && w[k] == t[k];
    if IsQuote(t[k]) {
      QuoteStaysEmpty(t, w, s, kind, k + 1);
    } else {
      EmptyStaysEmpty(t, w, s, kind, k, key == WIDE_KEY);
    }
  }

  lemma {:induction false} QuoteStaysEmpty(t: string, w: string, s: nat, kind: Kind, k: nat)
    requires Agrees(t, w, s) && StartsSpan(t, s, kind) && 0 < k <= s && IsQuote(t[k - 1])
    requires QuotedLen(t[k..], t[k - 1]) == 0
    ensures w[k - 1] == t[k - 1] && QuotedLen(w[k..], t[k - 1]) == 0
  {
    hide UnquotedLen, RunLen;
    assert t[k..][0] == t[k];
    assert t[s..][0] == t[s];
    if kind == Token { TokenIsValue(t[s..], true); }
    assert w[k..][0] == w[k];
  }

  lemma {:induction false} NamedStaysNone(t: string, w: string, s: nat, kind: Kind)
    requires Agrees(t, w, s) && StartsSpan(t, s, kind) && s >= 1
    requires HitOf(t, NamedValue(t)).None?
    ensures HitOf(w, NamedValue(w)).None?
  {
    hide StartsSpan, Agrees, StartsCi, AfterKey, ValueAfter, ValueLen, FirstKey;
    var k := FirstKey(t, SECRET_KEYS);
    FirstKeyFound(t, SECRET_KEYS);
    KeysOk();
    if k.Some? {
      KeyOkOf(k.value);
      WordBeforeSpan(t, s, kind, k.value);
    }
    FirstKeyAgrees(t, w, s, SECRET_KEYS);
    if k.Some? {
      AfterKeyAgrees(t, w, s, |k.value|);
      var a := AfterKey(t, |k.value|);
      if a.Some? && a.value <= s {
        ValueStaysEmpty(t, w, s, kind, k.value, a.value);
      }
    }
  }

  /** Behind `bearer` and whitespace no `Authorization` value starts. */
  lemma {:induction false} NoWideBehindBearer(t: string, p: nat, s: nat)
    requires StartsCi(t, BEARER) && p < s < |t| && 6 <= s && forall i :: 6 <= i < s ==> IsWs(t[i])
    ensures !WideAt(t, p, s)
  {
    hide WideAt;
    MarkersOk();
    assert Lower(t[5]) == BEARER[5];
    assert IsKeyChar(BEARER[5]);
    if WideAt(t, p, s) { OnlySpacesBefore(t, p, s, 6); }
  }

  lemma {:induction false} WsRun(t: string, k: nat)
    requires k <= |t|
    ensures forall i :: k <= i < k + WsLen(t[k..]) ==> IsWs(t[i])
  {
    hide IsWs;
    forall i | k <= i < k + WsLen(t[k..]) ensures IsWs(t[i]) { assert t[i] == t[k..][i - k]; }
  }

  /** The whitespace after `Bearer` ends before a later span begins. */
  lemma {:induction false} BearerWsBeforeSpan(t: string, s: nat, kind: Kind)
    requires StartsSpan(t, s, kind) && StartsCi(t, BEARER) && |BEARER| <= s
    requires HitOf(t, BearerValue(t)).None?
    ensures WsLen(t[6..]) > 0 ==> 6 + WsLen(t[6..]) < s
  {
    hide UnquotedLen, RunLen, WideAt, IsStop, IsPunct;
    var m := WsLen(t[6..]);
    assert BearerValue(t) == if m == 0 || 6 + m >= |t| then None else Some(Value(6 + m, Unquoted(false)));
    if m > 0 && s <= 6 + m {
      WsRun(t, 6);
      MarkersOk();
      assert Lower(t[5]) == BEARER[5] && IsKeyChar(BEARER[5]);
      assert t[s..][0] == t[s];
      match kind
      case Token => TokenIsValue(t[s..], false);
      case Quoted(q) =>
      case Unquoted(wide) =>
        ValueHead(t[s..], wide);
        if wide {
          var p :| 0 <= p < s && WideAt(t, p, s);
          NoWideBehindBearer(t, p, s);
        }
    }
  }

  lemma {:induction false} BearerStaysNone(t: string, w: string, s: nat, kind: Kind)
    requires Agrees(t, w, s) && StartsSpan(t, s, kind) && |BEARER| <= s
    requires StartsCi(t, BEARER) && HitOf(t, BearerValue(t)).None?
    ensures HitOf(w, BearerValue(w)).None?
  {
    hide UnquotedLen, RunLen, AfterKey, StartsSpan;
    BearerWsBeforeSpan(t, s, kind);
    AgreesFrom(t, w, s, 6);
    var m := WsLen(t[6..]);
    if m == 0 {
      assert s > 6 ==> t[6..][0] == w[6..][0];
      assert w[6..][0] == w[6];
    } else {
      WsUpTo(t[6..], w[6..], s - 6);
      assert t[6..][m] == t[6 + m];
      EmptyStaysEmpty(t, w, s, kind, 6 + m, false);
    }
  }

  lemma {:induction false} RunUpTo(a: string, b: string, s: nat)
    requires Agrees(a, b, s)
    ensures RunLen(b) <= RunLen(a)
  {
    if s > 0 && IsKeyRun(a[0]) {
      AgreesFrom(a, b, s, 1);
      RunUpTo(a[1..], b[1..], s - 1);
    }
  }

  /** Where the scan finds nothing in the original it finds nothing in the redacted text. */
  lemma {:induction false} NoneStays(pa: bool, t: string)
    requires t != [] && HitAt(pa, t).None?
    ensures HitAt(pa, Scan(pa, t)).None?
  {
    hide StartsSpan, Agrees, StartsCi, NamedValue, BearerValue, HitOf, RunLen;
    var w := Scan(pa, t);
    var f := FirstSpan(pa, t);
    FirstSpanFacts(pa, t);
    if f.Some? && !pa {
      var s, kind := f.value.start, f.value.kind;
      assert s >= 1;
      MarkersOk();
      NamedStaysNone(t, w, s, kind);
      WordAgrees(t, w, s, BEARER);
      WordAgrees(t, w, s, SK);
      RunUpTo(t, w, s);
      if StartsCi(t, BEARER) {
        WordBeforeSpan(t, s, kind, BEARER);
        BearerStaysNone(t, w, s, kind);
      }
    }
  }

  // ----- bytes that start nothing -----

  /** No hit starts at a byte that is not a letter. */
  lemma {:induction false} PlainHead(pa: bool, t: string)
    requires t != [] && !IsLetter(t[0])
    ensures HitAt(pa, t).None?
    ensures Scan(pa, t) == [t[0]] + Scan(IsAlnum(t[0]), t[1..])
  {
    MarkersOk();
    FirstKeyFound(t, SECRET_KEYS);
    var k := FirstKey(t, SECRET_KEYS);
    if k.Some? { KeyOkOf(k.value); }
    assert IsLetter(BEARER[0]) && IsLetter(SK[0]);
  }

  predicate NoLetters(s: string) {
    forall i :: 0 <= i < |s| ==> !IsLetter(s[i])
  }

  function LastAlnum(pa: bool, s: string): bool {
    if s == [] then pa else IsAlnum(s[|s| - 1])
  }

  /** A run without letters is copied. */
  lemma {:induction false} CopiedRun(pa: bool, run: string, t: string)
    requires NoLetters(run)
    ensures Scan(pa, run + t) == run + Scan(LastAlnum(pa, run), t)
    decreases |run|
  {
    hide HitAt, IsAlnum, Scan;
    if run == [] {
      assert run + t == t;
    } else {
      var u := run + t;
      PlainHead(pa, u);
      assert u[1..] == run[1..] + t;
      CopiedRun(IsAlnum(run[0]), run[1..], t);
      assert run == [run[0]] + run[1..];
      ConcatAssoc([run[0]], run[1..], Scan(LastAlnum(pa, run), t));
    }
  }

  /** In front of a byte that is no letter the lookbehind does not matter. */
  lemma {:induction false} HeadIrrelevant(pa: bool, t: string)
    requires t == [] || !IsLetter(t[0])
    ensures Scan(pa, t) == Scan(false, t)
  {
    hide HitAt;
    if t != [] {
      PlainHead(pa, t);
      PlainHead(false, t);
    }
  }

  // ----- a hit found again -----

  /** The same key and delimiters are found in the redacted text; only the value's length may differ. */
  lemma {:induction false} NamedKept(t: string, w: string)
    requires HitOf(t, NamedValue(t)).Some?
    requires Agrees(t, w, HitOf(t, NamedValue(t)).value.start)
    ensures NamedValue(w) == NamedValue(t)
  {
    hide StartsCi, UnquotedLen, AfterKey;
    var a := NamedValue(t).value.start;
    var key := FirstKey(t, SECRET_KEYS).value;
    var j := AfterKey(t, |key|).value;
    KeysOk();
    FirstKeyAgrees(t, w, a, SECRET_KEYS);
    AfterKeyAgrees(t, w, a, |key|);
    AgreesFrom(t, w, a, j);
    SpacesUpTo(t[j..], w[j..], a - j);
  }

  lemma {:induction false} BearerIsNoKey(t: string)
    requires StartsCi(t, BEARER)
    ensures NamedValue(t).None?
  {
    MarkersOk();
    FirstKeyFound(t, SECRET_KEYS);
    var k := FirstKey(t, SECRET_KEYS);
    if k.Some? { KeyOkOf(k.value); }
    assert Lower(t[0]) == BEARER[0];
  }

  lemma {:induction false} BearerKept(t: string, w: string)
    requires StartsCi(t, BEARER) && HitOf(t, BearerValue(t)).Some?
    requires Agrees(t, w, HitOf(t, BearerValue(t)).value.start)
    ensures StartsCi(w, BEARER) && BearerValue(w) == BearerValue(t)
  {
    hide UnquotedLen;
    MarkersOk();
    var a := BearerValue(t).value.start;
    WordAgrees(t, w, a, BEARER);
    AgreesFrom(t, w, a, 6);
    WsUpTo(t[6..], w[6..], a - 6);
  }

  lemma {:induction false} HitKept(t: string, w: string)
    requires HitAt(false, t).Some? && HitAt(false, t).value.kind != Token
    requires Agrees(t, w, HitAt(false, t).value.start)
    ensures var h := HitAt(false, t).value;
            var n := ValueLen(w, Value(h.start, h.kind));
            n > 0 ==> HitAt(false, w) == Some(Hit(h.start, h.start + n, h.kind))
  {
    hide StartsCi, NamedValue, BearerValue, ValueLen, RunLen, Agrees;
    if HitOf(t, NamedValue(t)).Some? {
      NamedKept(t, w);
    } else {
      BearerKept(t, w);
      BearerIsNoKey(w);
    }
  }

  // ----- what follows a value -----

  /** The bytes at which an `Authorization` value can end. */
  predicate IsCut(c: char) { IsStop(c) || IsWs(c) || c == '.' }

  /** After an unquoted value come its full stops and then the place where its scan halts. */
  lemma {:induction false} UnquotedShape(y: string, wide: bool) returns (left: nat)
    ensures var u := y[UnquotedLen(y, wide)..];
            left <= Allowance(wide) && Halts(u[DotLen(u)..], left, wide)
    ensures var u := y[UnquotedLen(y, wide)..]; u != [] ==> !IsLetter(u[0])
    ensures var u := y[UnquotedLen(y, wide)..]; u != [] && wide ==> IsCut(u[0])
  {
    hide Halts;
    var n, len := Extent(y, Allowance(wide), wide), UnquotedLen(y, wide);
    left := ExtentHalts(y, Allowance(wide), wide);
    var u := y[len..];
    assert forall i :: len <= i < n ==> y[i] == y[..n][i];
    assert u[n - len..] == y[n..];
    if n < |y| { HaltsHead(y[n..], left, wide); }
    assert n < |y| ==> u[n - len] == y[n];
    DotLenIs(u, n - len);
  }

  lemma {:induction false} DotLenIs(u: string, n: nat)
    requires n <= |u| && (forall i :: 0 <= i < n ==> u[i] == '.') && (n < |u| ==> u[n] != '.')
    ensures DotLen(u) == n
  {
  }

  lemma {:induction false} HaltsHead(t: string, spaces: nat, wide: bool)
    requires Halts(t, spaces, wide) && t != []
    ensures !IsLetter(t[0]) && t[0] != '.' && (wide ==> IsCut(t[0]))
  {
  }

  /** What follows a hit starts with no letter. */
  lemma {:induction false} AfterHit(pa: bool, t: string)
    ensures var h := HitAt(pa, t);
            h.Some? && h.value.end < |t| ==>
              !IsLetter(t[h.value.end]) && (h.value.kind.Quoted? ==> t[h.value.end] == h.value.kind.q)
  {
    hide StartsCi, NamedValue, BearerValue, UnquotedLen, StartsSpan;
    HitStarts(pa, t);
    QuotedStarts(pa, t);
    var h := HitAt(pa, t);
    if h.Some? {
      var y := t[h.value.start..];
      assert y[h.value.end - h.value.start..] == t[h.value.end..];
      assert h.value.end < |t| ==> y[h.value.end - h.value.start] == t[h.value.end];
      match h.value.kind
      case Quoted(q) =>
      case Unquoted(wide) => var left := UnquotedShape(y, wide);
      case Token => assert y == t;
    }
  }

  lemma {:induction false} QuotedStarts(pa: bool, t: string)
    ensures var h := HitAt(pa, t); h.Some? && h.value.kind.Quoted? ==> IsQuote(h.value.kind.q)
  {
    hide StartsCi, FirstKey, AfterKey, ValueLen, RunLen;
  }

  /** An `Authorization` value followed, after any full stops, by whitespace and more text. */
  predicate Loose(v: string) {
    v != [] && IsWs(v[0]) && WsLen(v) < |v| && !IsStop(v[WsLen(v)])
  }

  predicate LooseAfter(u: string) { Loose(u[DotLen(u)..]) }

  lemma {:induction false} ScanHead(pa: bool, t: string)
    requires t != []
    ensures Scan(pa, t) != [] && (Scan(pa, t)[0] == t[0] || Scan(pa, t)[0] == '*')
  {
    hide HitAt;
  }

  lemma {:induction false} WsLenOf(run: string, x: string)
    requires forall i :: 0 <= i < |run| ==> IsWs(run[i])
    requires x == [] || !IsWs(x[0])
    ensures WsLen(run + x) == |run|
  {
    if run == [] {
      assert run + x == x;
    } else {
      assert (run + x)[1..] == run[1..] + x;
      WsLenOf(run[1..], x);
    }
  }

  /** What halted the scan of a value still halts it once the rest is redacted, unless the value is loose. */
  lemma {:induction false} RestHalts(pa: bool, v: string, left: nat, wide: bool)
    requires left <= Allowance(wide) && Halts(v, left, wide) && !(wide && Loose(v))
    ensures Halts(Scan(pa, v), Allowance(wide), wide)
    ensures Scan(pa, v) == [] || Scan(pa, v)[0] != '.'
  {
    hide HitAt;
    if v != [] {
      PlainHead(pa, v);
      if IsWs(v[0]) && wide { RestHaltsWs(pa, v, left); }
    }
  }

  lemma {:induction false} RestHaltsWs(pa: bool, v: string, left: nat)
    requires v != [] && IsWs(v[0]) && !Loose(v) && !IsLetter(v[0])
    ensures Halts(Scan(pa, v), Allowance(true), true)
  {
    hide HitAt, IsAlnum;
    var m := WsLen(v);
    assert v == v[..m] + v[m..];
    CopiedRun(pa, v[..m], v[m..]);
    var x := Scan(LastAlnum(pa, v[..m]), v[m..]);
    if m < |v| { PlainHead(LastAlnum(pa, v[..m]), v[m..]); }
    WsLenOf(v[..m], x);
  }

  /** After a loose value the scan of the redacted text runs on past the whitespace. */
  lemma {:induction false} RestRuns(pa: bool, v: string)
    requires Loose(v)
    ensures var x := Scan(pa, v);
            && x != [] && x[0] != '.'
            && 1 <= WsLen(v) <= |x| && IsWs(x[WsLen(v) - 1])
            && Extent(x, 1, true) >= WsLen(v)
  {
    hide HitAt, Scan, Extent, IsAlnum;
    var m := WsLen(v);
    assert v == v[..m] + v[m..];
    CopiedRun(pa, v[..m], v[m..]);
    var x' := Scan(LastAlnum(pa, v[..m]), v[m..]);
    ScanHead(LastAlnum(pa, v[..m]), v[m..]);
    WsLenOf(v[..m], x');
    var x := v[..m] + x';
    assert x[m] == x'[0] && x[0] == v[0] && x[m - 1] == v[m - 1];
    ExtentZero(x, 1, true);
  }

  /** The masked value is found again as it stands when nothing loose follows it. */
  lemma {:induction false} MaskedValueLen(d: nat, x: string, wide: bool)
    requires x == [] || x[0] != '.'
    requires Halts(x, Allowance(wide), wide)
    ensures UnquotedLen(MASK + seq(d, _ => '.') + x, wide) == 3
  {
    var dots := seq(d, _ => '.');
    var y := MASK + dots + x;
    ExtentOfMask(d, x, Allowance(wide), wide);
    ExtentZero(x, Allowance(wide), wide);
    assert y[..3 + d] == MASK + dots;
    assert forall i :: 3 <= i < 3 + d ==> (MASK + dots)[i] == '.';
    assert (MASK + dots)[2] == '*';
  }

  lemma {:induction false} LooseValueLen(d: nat, x: string, m: nat)
    requires x != [] && x[0] != '.' && 1 <= m <= |x| && IsWs(x[m - 1]) && Extent(x, 1, true) >= m
    ensures var y := MASK + seq(d, _ => '.') + x; UnquotedLen(y, true) >= 3 + d + m
  {
    var dots := seq(d, _ => '.');
    var y := MASK + dots + x;
    ExtentOfMask(d, x, 1, true);
    var n := Extent(y, 1, true);
    assert y[..n][3 + d + m - 1] == x[m - 1];
  }

  // ----- the second pass -----

  /** The redacted text behind an unquoted value: its full stops, then the redacted rest. */
  lemma {:induction false} DotsCopied(pa: bool, u: string) returns (pb: bool)
    ensures Scan(pa, u) == seq(DotLen(u), _ => '.') + Scan(pb, u[DotLen(u)..])
  {
    var d := DotLen(u);
    var dots := seq(d, _ => '.');
    assert u[..d] == dots && u == dots + u[d..];
    pb := LastAlnum(pa, dots);
    CopiedRun(pa, dots, u[d..]);
  }

  lemma {:induction false} RescannedQuoted(t: string, h: Hit, w: string)
    requires HitAt(false, t) == Some(h) && h.kind.Quoted?
    requires w == t[..h.start] + MASK + Scan(IsAlnum(t[h.end - 1]), t[h.end..])
    ensures HitAt(false, w) == Some(Hit(h.start, h.start + 3, h.kind))
  {
    hide HitAt, IsAlnum;
    var x := Scan(IsAlnum(t[h.end - 1]), t[h.end..]);
    var y := w[h.start..];
    AfterHit(false, t);
    if h.end < |t| { PlainHead(IsAlnum(t[h.end - 1]), t[h.end..]); }
    assert y == ['*', '*', '*'] + x;
    QuotedStarts(false, t);
    assert QuotedLen(x, h.kind.q) == 0;
    MaskUpToQuote(x, h.kind.q);
    HitKept(t, w);
  }

  lemma MaskUpToQuote(x: string, q: char)
    requires QuotedLen(x, q) == 0 && q != '*'
    ensures QuotedLen(['*', '*', '*'] + x, q) == 3
  {
    var y := ['*', '*', '*'] + x;
    assert y[1..] == ['*', '*'] + x;
    assert y[1..][1..] == ['*'] + x;
    assert y[1..][1..][1..] == x;
  }

  /** The redacted text from an unquoted value on: the mask, its full stops, the redacted rest. */
  lemma {:induction false} BehindValue(t: string, h: Hit, w: string) returns (pb: bool, left: nat)
    requires HitAt(false, t) == Some(h) && h.kind.Unquoted?
    requires w == t[..h.start] + MASK + Scan(IsAlnum(t[h.end - 1]), t[h.end..])
    ensures var u := t[h.end..];
            && w[h.start..] == MASK + seq(DotLen(u), _ => '.') + Scan(pb, u[DotLen(u)..])
            && left <= Allowance(h.kind.wide) && Halts(u[DotLen(u)..], left, h.kind.wide)
    ensures Agrees(t, w, h.start)
  {
    hide HitAt, Halts, Scan;
    var u := t[h.end..];
    left := UnquotedShapeOfHit(t, h);
    pb := DotsCopied(IsAlnum(t[h.end - 1]), u);
    var x := Scan(IsAlnum(t[h.end - 1]), u);
    assert w[h.start..] == MASK + x;
  }

  lemma {:induction false} RescannedSettled(t: string, h: Hit, w: string)
    requires HitAt(false, t) == Some(h) && h.kind.Unquoted? && !(h.kind.wide && LooseAfter(t[h.end..]))
    requires w == t[..h.start] + MASK + Scan(IsAlnum(t[h.end - 1]), t[h.end..])
    ensures HitAt(false, w) == Some(Hit(h.start, h.start + 3, h.kind))
  {
    hide HitAt, Halts, UnquotedLen, Loose, Scan, Agrees;
    var u := t[h.end..];
    var pb, left := BehindValue(t, h, w);
    var v := u[DotLen(u)..];
    RestHalts(pb, v, left, h.kind.wide);
    MaskedValueLen(DotLen(u), Scan(pb, v), h.kind.wide);
    HitKept(t, w);
  }

  lemma {:induction false} RescannedLoose(t: string, h: Hit, w: string)
    requires HitAt(false, t) == Some(h) && h.kind == Unquoted(true) && LooseAfter(t[h.end..])
    requires w == t[..h.start] + MASK + Scan(IsAlnum(t[h.end - 1]), t[h.end..])
    ensures HitAt(false, w).Some? && var h' := HitAt(false, w).value;
              && h'.start == h.start && h'.kind == h.kind && h'.end > h.start + 3
              && (h'.end < |w| ==> IsCut(w[h'.end]))
  {
    hide HitAt, Halts, UnquotedLen, Extent, Loose, Scan, Agrees, IsAlnum, IsCut, WsLen, DotLen;
    var u := t[h.end..];
    var pb, _ := BehindValue(t, h, w);
    var v := u[DotLen(u)..];
    RestRuns(pb, v);
    LooseValueLen(DotLen(u), Scan(pb, v), WsLen(v));
    HitKept(t, w);
    ValueEndIsCut(w, h.start);
  }

  /** The byte behind an unquoted `Authorization` value cuts the text. */
  lemma {:induction false} ValueEndIsCut(w: string, s: nat)
    requires s <= |w|
    ensures var e := s + UnquotedLen(w[s..], true); e < |w| ==> IsCut(w[e])
  {
    hide UnquotedLen, IsCut;
    var y := w[s..];
    var left := UnquotedShape(y, true);
    var n := UnquotedLen(y, true);
    assert n < |y| ==> y[n..][0] == w[s + n];
  }

  lemma UnquotedHitEnd(t: string, h: Hit)
    requires HitAt(false, t) == Some(h) && h.kind.Unquoted?
    ensures h.end == h.start + UnquotedLen(t[h.start..], h.kind.wide)
  {
    hide StartsCi, NamedValue, BearerValue, UnquotedLen;
  }

  lemma {:induction false} UnquotedShapeOfHit(t: string, h: Hit) returns (left: nat)
    requires HitAt(false, t) == Some(h) && h.kind.Unquoted?
    ensures left <= Allowance(h.kind.wide) && Halts(t[h.end..][DotLen(t[h.end..])..], left, h.kind.wide)
  {
    hide HitAt, UnquotedLen, Halts, DotLen, Allowance;
    UnquotedHitEnd(t, h);
    var y := t[h.start..];
    assert y[h.end - h.start..] == t[h.end..];
    left := UnquotedShape(y, h.kind.wide);
  }

  /** No `Authorization` value the scan masks is loose: none is followed by whitespace and a further word. */
  predicate Settled(pa: bool, t: string)
    decreases |t|
  {
    t == [] ||
    match HitAt(pa, t)
    case None => Settled(IsAlnum(t[0]), t[1..])
    case Some(h) =>
      && (h.kind == Unquoted(true) ==> !LooseAfter(t[h.end..]))
      && Settled(IsAlnum(t[h.end - 1]), t[h.end..])
  }

  lemma {:induction false} SettledHead(pa: bool, t: string)
    requires t == [] || !IsLetter(t[0])
    ensures Settled(pa, t) == Settled(false, t)
  {
    hide HitAt;
    if t != [] {
      PlainHead(pa, t);
      PlainHead(false, t);
    }
  }

  lemma {:induction false} MaskHeads(x: string)
    ensures Scan(false, MASK + x) == MASK + Scan(false, x)
  {
    CopiedRun(false, MASK, x);
  }

  /** A second pass changes nothing when every `Authorization` value is settled, and shortens the text otherwise. */
  lemma {:induction false} Repass(pa: bool, t: string)
    ensures var w := Scan(pa, t);
            if Settled(pa, t) then Scan(pa, w) == w else |Scan(pa, w)| < |w|
    decreases |t|, 2
  {
    hide HitAt, LooseAfter;
    if t != [] {
      var hit := HitAt(pa, t);
      if hit.None? {
        Repass(IsAlnum(t[0]), t[1..]);
        NoneStays(pa, t);
        var w' := Scan(IsAlnum(t[0]), t[1..]);
        assert ([t[0]] + w')[1..] == w';
      } else {
        RepassHit(pa, t, hit.value);
      }
    }
  }

  lemma {:induction false} HitMeansFree(pa: bool, t: string)
    ensures HitAt(pa, t).Some? ==> !pa
    ensures var h := HitAt(pa, t); h.Some? && h.value.kind == Token ==> h.value.start == 0
  {
    hide StartsCi, FirstKey, AfterKey, ValueLen;
  }

  lemma {:induction false} RepassHit(pa: bool, t: string, h: Hit)
    requires t != [] && HitAt(pa, t) == Some(h)
    ensures var w := Scan(pa, t);
            if Settled(pa, t) then Scan(pa, w) == w else |Scan(pa, w)| < |w|
    decreases |t|, 1
  {
    hide HitAt, LooseAfter, Scan, Settled, IsAlnum;
    HitMeansFree(pa, t);
    ScanOfHit(pa, t, h);
    if h.kind == Unquoted(true) && LooseAfter(t[h.end..]) {
      RepassLoose(t, h);
    } else {
      RepassMasked(t, h);
    }
  }

  /** Any other value is masked again and nothing besides it. */
  lemma {:induction false} RepassMasked(t: string, h: Hit)
    requires t != [] && HitAt(false, t) == Some(h) && !(h.kind == Unquoted(true) && LooseAfter(t[h.end..]))
    ensures var w := Scan(false, t);
            if Settled(false, t) then Scan(false, w) == w else |Scan(false, w)| < |w|
    decreases |t|, 0
  {
    hide HitAt, LooseAfter, Scan, Settled, IsLetter, IsAlnum;
    var q, u := IsAlnum(t[h.end - 1]), t[h.end..];
    var x := Scan(q, u);
    AfterHit(false, t);
    assert h.end < |t| ==> u[0] == t[h.end];
    HeadIrrelevant(q, u);
    SettledHead(q, u);
    Repass(false, u);
    ScanOfHit(false, t, h);
    assert Scan(false, t[..h.start] + MASK + x) == t[..h.start] + MASK + Scan(false, x) by {
      MaskedAgain(t, h, x);
    }
  }

  lemma {:induction false} MaskedAgain(t: string, h: Hit, x: string)
    requires t != [] && HitAt(false, t) == Some(h) && !(h.kind == Unquoted(true) && LooseAfter(t[h.end..]))
    requires x == Scan(IsAlnum(t[h.end - 1]), t[h.end..])
    ensures Scan(false, t[..h.start] + MASK + x) == t[..h.start] + MASK + Scan(false, x)
  {
    assert !IsAlnum('*');
    hide HitAt, LooseAfter, Scan, Settled, IsAlnum;
    var w := t[..h.start] + MASK + x;
    HitMeansFree(false, t);
    if h.kind == Token {
      assert w == MASK + x;
      assert t[..0] + MASK + Scan(false, x) == MASK + Scan(false, x);
      MaskHeads(x);
    } else {
      if h.kind.Quoted? { RescannedQuoted(t, h, w); } else { RescannedSettled(t, h, w); }
      RestOfMasked(t[..h.start], x, h.start + 3);
      ScanOfHit(false, w, Hit(h.start, h.start + 3, h.kind));
    }
  }

  /** A loose value takes more with it on the second pass. */
  lemma {:induction false} RepassLoose(t: string, h: Hit)
    requires t != [] && HitAt(false, t) == Some(h) && h.kind == Unquoted(true) && LooseAfter(t[h.end..])
    ensures |Scan(false, Scan(false, t))| < |Scan(false, t)|
    decreases |t|, 0
  {
    hide HitAt, LooseAfter, Scan, Settled, IsAlnum;
    var q, u := IsAlnum(t[h.end - 1]), t[h.end..];
    var x := Scan(q, u);
    ScanOfHit(false, t, h);
    var w := t[..h.start] + MASK + x;
    RescannedLoose(t, h, w);
    var h' := HitAt(false, w).value;
    RestOfMasked(t[..h.start], x, h'.end);
    Cut(q, u, h'.end - h.start - 3, IsAlnum(w[h'.end - 1]));
    ScanOfHit(false, w, h');
  }

  lemma {:induction false} ScanOfHit(pa: bool, t: string, h: Hit)
    requires HitAt(pa, t) == Some(h)
    ensures Scan(pa, t) == t[..h.start] + MASK + Scan(IsAlnum(t[h.end - 1]), t[h.end..])
    ensures Settled(pa, t) <==> (h.kind == Unquoted(true) ==> !LooseAfter(t[h.end..]))
                                && Settled(IsAlnum(t[h.end - 1]), t[h.end..])
  {
    hide HitAt, LooseAfter;
  }

  lemma RestOfMasked(a: string, x: string, e: nat)
    requires |a| + 3 <= e <= |a| + 3 + |x|
    ensures var w := a + MASK + x;
            && w[..|a|] == a && w[e..] == x[e - |a| - 3..]
            && (e < |w| ==> w[e] == x[e - |a| - 3])
            && (e == |a| + 3 ==> w[e - 1] == '*' && w[e..] == x)
  {
  }

  lemma MaskRun(s: string, i: nat)
    requires i < 3
    ensures NoLetters(s) ==> NoLetters(s + MASK)
    ensures NoLetters(MASK[i..]) && !IsAlnum('*')
    ensures (s + MASK)[|s + MASK| - 1] == '*' && MASK[i..][2 - i] == '*'
  {
    assert MASK == "***";
  }

  /** A hit cut at `c` leaves no letters in front of a mask, so only what is behind it is scanned afresh. */
  lemma {:induction false} CutInHit(t: string, h: Hit, x: string, c: nat, p: bool)
    requires h.start < |t| && c < h.start + 3
    requires c < h.start ==> NoLetters(t[c..h.start])
    ensures |t[..h.start] + MASK + x| == h.start + 3 + |x|
    ensures |Scan(p, (t[..h.start] + MASK + x)[c..])| == h.start + 3 - c + |Scan(false, x)|
  {
    hide Scan, NoLetters, IsAlnum;
    var w := t[..h.start] + MASK + x;
    if c < h.start {
      MaskRun(t[c..h.start], 0);
      CopiedRun(p, t[c..h.start] + MASK, x);
      assert w[c..] == (t[c..h.start] + MASK) + x;
    } else {
      MaskRun([], c - h.start);
      CopiedRun(p, MASK[c - h.start..], x);
      assert w[c..] == MASK[c - h.start..] + x;
    }
  }

  /** A redacted text cut at the end of a value does not grow when it is redacted again. */
  lemma {:induction false} Cut(pa: bool, t: string, c: nat, p: bool)
    requires c <= |Scan(pa, t)| && (c < |Scan(pa, t)| ==> IsCut(Scan(pa, t)[c]))
    ensures |Scan(p, Scan(pa, t)[c..])| <= |Scan(pa, t)| - c
    decreases |t|, 2
  {
    hide HitAt;
    var w := Scan(pa, t);
    if c < |w| {
      var hit := HitAt(pa, t);
      if hit.None? {
        var w' := Scan(IsAlnum(t[0]), t[1..]);
        assert w == [t[0]] + w';
        if c == 0 {
          assert w[0..] == w && w[1..] == w';
          PlainHead(p, w);
          Repass(IsAlnum(t[0]), t[1..]);
        } else {
          assert w[c..] == w'[c - 1..];
          Cut(IsAlnum(t[0]), t[1..], c - 1, p);
        }
      } else {
        CutAtHit(pa, t, hit.value, c, p);
      }
    }
  }

  lemma {:induction false} CutAtHit(pa: bool, t: string, h: Hit, c: nat, p: bool)
    requires t != [] && HitAt(pa, t) == Some(h)
    requires c < |Scan(pa, t)| && IsCut(Scan(pa, t)[c])
    ensures |Scan(p, Scan(pa, t)[c..])| <= |Scan(pa, t)| - c
    decreases |t|, 0
  {
    hide HitAt, Scan, IsCut, IsAlnum;
    var q, u := IsAlnum(t[h.end - 1]), t[h.end..];
    var x := Scan(q, u);
    HitMeansFree(pa, t);
    ScanOfHit(pa, t, h);
    var w := t[..h.start] + MASK + x;
    if c >= h.start + 3 {
      assert w[c..] == x[c - h.start - 3..];
      assert c < |w| ==> w[c] == x[c - h.start - 3];
      Cut(q, u, c - h.start - 3, p);
    } else {
      assert c < h.start ==> w[c] == t[c];
      NoLettersToValue(t, h, c);
      CutInHit(t, h, x, c, p);
      AfterHit(pa, t);
      assert h.end < |t| ==> u[0] == t[h.end];
      HeadIrrelevant(q, u);
      Repass(false, u);
    }
  }

  /** Behind its key a value's lead-in holds no letter. */
  lemma {:induction false} NoLettersToValue(t: string, h: Hit, c: nat)
    requires HitAt(false, t) == Some(h) && c < h.start + 3
    requires c < h.start ==> IsCut(t[c])
    ensures c < h.start ==> NoLetters(t[c..h.start])
  {
    hide StartsCi, UnquotedLen, QuotedLen, RunLen;
    if c < h.start {
      if HitOf(t, NamedValue(t)).Some? {
        NoLettersBehindKey(t, c);
      } else {
        MarkersOk();
        KeyCharsAt(t, BEARER);
        var m := WsLen(t[6..]);
        assert forall i :: 6 <= i < 6 + m ==> t[i] == t[6..][i - 6];
      }
    }
  }

  lemma {:induction false} NoLettersBehindKey(t: string, c: nat)
    requires HitOf(t, NamedValue(t)).Some? && c < HitOf(t, NamedValue(t)).value.start && IsCut(t[c])
    ensures NoLetters(t[c..HitOf(t, NamedValue(t)).value.start])
  {
    hide StartsCi, UnquotedLen, QuotedLen, RunLen, FirstKey;
    var key := FirstKey(t, SECRET_KEYS).value;
    FirstKeyFound(t, SECRET_KEYS);
    KeyOkOf(key);
    KeyCharsAt(t, key);
    LeadIn(t, |key|);
  }

  lemma {:induction false} KeyCharsAt(t: string, key: string)
    requires StartsCi(t, key) && forall i :: 0 <= i < |key| ==> IsKeyChar(key[i])
    ensures |key| <= |t| && forall i :: 0 <= i < |key| ==> !IsCut(t[i])
  {
    assert forall i :: 0 <= i < |key| ==> IsKeyChar(Lower(t[i]));
  }

  lemma {:induction false} LeadIn(t: string, k: nat)
    requires k <= |t| && AfterKey(t, k).Some?
    ensures var v := ValueAfter(t, AfterKey(t, k).value, false);
            forall i :: k <= i < v.start ==> !IsLetter(t[i])
  {
    var j := AfterKey(t, k).value;
    var n := SpacesLen(t[j..]);
    assert forall i :: j <= i < j + n ==> t[i] == t[j..][i - j];
  }

  /** Redaction is idempotent exactly when no masked, unquoted `Authorization` value is followed by
      whitespace and a further word: such a value takes in one more word on every pass. */
  lemma {:induction false} RedactIdempotentIff(t: string)
    ensures Redacted(Redacted(t)) == Redacted(t) <==> Settled(false, t)
  {
    Repass(false, t);
  }

  /** The text names no `authorization` key. */
  predicate NoWideKey(t: string) {
    forall i :: 0 <= i < |t| ==> !StartsCi(t[i..], WIDE_KEY)
  }

  lemma {:induction false} WideNeedsKey(pa: bool, t: string)
    requires HitAt(pa, t).Some? && HitAt(pa, t).value.kind == Unquoted(true)
    ensures StartsCi(t, WIDE_KEY)
  {
    hide StartsCi, UnquotedLen, QuotedLen, RunLen, AfterKey;
    FirstKeyFound(t, SECRET_KEYS);
  }

  /** Without that key every text is settled. */
  lemma {:induction false} NoWideKeySettles(pa: bool, t: string)
    requires NoWideKey(t)
    ensures Settled(pa, t)
    decreases |t|
  {
    hide HitAt, StartsCi, LooseAfter;
    if t != [] {
      var hit := HitAt(pa, t);
      var n := if hit.None? then 1 else hit.value.end;
      forall i | 0 <= i < |t[n..]| ensures !StartsCi(t[n..][i..], WIDE_KEY) {
        assert t[n..][i..] == t[n + i..];
      }
      if hit.None? {
        NoWideKeySettles(IsAlnum(t[0]), t[1..]);
      } else {
        if hit.value.kind == Unquoted(true) {
          assert t[0..] == t;
          WideNeedsKey(pa, t);
        }
        NoWideKeySettles(IsAlnum(t[n - 1]), t[n..]);
      }
    }
  }

  /** On text without an `authorization` key a second pass changes nothing. */
  lemma {:induction false} RedactIdempotent(t: string)
    requires NoWideKey(t)
    ensures Redacted(Redacted(t)) == Redacted(t)
  {
    NoWideKeySettles(false, t);
    RedactIdempotentIff(t);
  }

  // ----- the header that is never settled -----

  /** A run of ordinary bytes: no whitespace, quote, ampersand or full stop. */
  predicate IsWord(s: string) {
    s != [] && forall i :: 0 <= i < |s| ==> !IsStop(s[i]) && !IsWs(s[i]) && s[i] != '.'
  }

  lemma {:induction false} ExtentOfWord(a: string, rest: string, spaces: nat)
    requires forall i :: 0 <= i < |a| ==> !IsStop(a[i]) && !IsWs(a[i])
    ensures Extent(a + rest, spaces, true) == |a| + Extent(rest, spaces, true)
    decreases |a|
  {
    if a == [] {
      assert a + rest == rest;
    } else {
      assert (a + rest)[1..] == a[1..] + rest;
      ExtentOfWord(a[1..], rest, spaces);
    }
  }

  lemma {:induction false} OnlyWideKey(t: string)
    requires StartsCi(t, WIDE_KEY)
    ensures FirstKey(t, SECRET_KEYS) == Some(WIDE_KEY)
  {
    assert SECRET_KEYS[12] == WIDE_KEY;
    SecondLetters();
    OneKeyOf(t, SECRET_KEYS, 12);
  }

  lemma {:induction false} OneKeyOf(t: string, keys: seq<string>, i: nat)
    requires StartsCi(t, WIDE_KEY) && i < |keys| && keys[i] == WIDE_KEY
    requires forall k :: k in keys && k != WIDE_KEY ==> |k| > 1 && (k[0] != 'a' || k[1] != 'u')
    ensures FirstKey(t, keys) == Some(WIDE_KEY)
  {
    hide FirstKey, StartsCi;
    FirstKeyFound(t, keys);
    var k := FirstKey(t, keys);
    if k.Some? { TwoKeys(t, k.value); }
  }

  lemma TwoKeys(t: string, k: string)
    requires StartsCi(t, WIDE_KEY) && StartsCi(t, k)
    requires k != WIDE_KEY ==> |k| > 1 && (k[0] != 'a' || k[1] != 'u')
    ensures k == WIDE_KEY
  {
    assert WIDE_KEY[0] == 'a' && WIDE_KEY[1] == 'u';
    assert Lower(t[0]) == 'a' && Lower(t[1]) == 'u';
  }

  lemma {:induction false} SecondLetters()
    ensures forall k :: k in SECRET_KEYS && k != WIDE_KEY ==> |k| > 1 && (k[0] != 'a' || k[1] != 'u')
  {
  }

  /** `authorization:a b c`: the first pass masks `a b`, the second takes `c` in as well. */
  lemma {:induction false} HeaderAbsorbsWord(a: string, b: string, c: string)
    requires IsWord(a) && IsWord(b) && IsWord(c)
    ensures var t := WIDE_KEY + (":" + (a + (" " + (b + (" " + c)))));
            Redacted(Redacted(t)) != Redacted(t)
  {
    hide Redacted, HitAt, LooseAfter, Settled, IsWord;
    var t := WIDE_KEY + (":" + (a + (" " + (b + (" " + c)))));
    var h := HeaderHit(a, b, c);
    LooseTail(c);
    ScanOfHit(false, t, h);
    RedactIdempotentIff(t);
  }

  /** The masked value is the header's first two words. */
  lemma {:induction false} HeaderHit(a: string, b: string, c: string) returns (h: Hit)
    requires IsWord(a) && IsWord(b) && IsWord(c)
    ensures var t := WIDE_KEY + (":" + (a + (" " + (b + (" " + c)))));
            HitAt(false, t) == Some(h) && h.kind == Unquoted(true) && t[h.end..] == " " + c
  {
    hide StartsCi, IsWord, UnquotedLen, SpacesLen;
    var tail := " " + c;
    var v := a + (" " + (b + tail));
    var t := WIDE_KEY + (":" + v);
    StartsWithKey(WIDE_KEY, ":" + v);
    OnlyWideKey(t);
    assert t[13] == ':' && t[14..] == v;
    HeaderValue(a, b, c);
    assert AfterKey(t, 13) == Some(14);
    assert ValueAfter(t, 14, true) == Value(14, Unquoted(true));
    var n := |a| + 1 + |b|;
    h := Hit(14, 14 + n, Unquoted(true));
    assert t[14 + n..] == v[n..] == tail;
  }

  lemma {:induction false} StartsWithKey(key: string, rest: string)
    requires KeyOk(key)
    ensures StartsCi(key + rest, key)
  {
  }

  lemma {:induction false} LooseTail(c: string)
    requires IsWord(c)
    ensures LooseAfter(" " + c)
  {
    var u := " " + c;
    assert u[1..] == c;
    assert WsLen(u) == 1;
    assert u[0..] == u;
  }

  lemma {:induction false} HeaderValue(a: string, b: string, c: string)
    requires IsWord(a) && IsWord(b) && IsWord(c)
    ensures var v := a + (" " + (b + (" " + c)));
            UnquotedLen(v, true) == |a| + 1 + |b| && SpacesLen(v) == 0 && !IsQuote(v[0])
  {
    var tail := " " + c;
    var r := " " + (b + tail);
    var v := a + r;
    ExtentOfWord(a, r, 1);
    assert r[1..] == b + tail && (b + tail)[0] == b[0];
    assert WsLen(r) == 1;
    ExtentOfWord(b, tail, 0);
    assert Extent(tail, 0, true) == 0;
    var n := |a| + 1 + |b|;
    assert v[..n][n - 1] == b[|b| - 1];
  }

  // ----- where the scanner cannot slice -----

  predicate IsAscii(c: char) { c < '\U{80}' }

  /** A UTF-8 continuation byte: slicing the text in front of it fails. */
  predicate IsContinuation(c: char) { '\U{80}' <= c < '\U{C0}' }

  /** The scan never slices the text inside a character. A byte after an alphanumeric one is not sliced at. */
  predicate Sliceable(pa: bool, t: string)
    decreases |t|
  {
    t == [] ||
    ((pa || !IsContinuation(t[0])) &&
     match HitAt(pa, t)
     case None => Sliceable(IsAlnum(t[0]), t[1..])
     case Some(h) => Sliceable(IsAlnum(t[h.end - 1]), t[h.end..]))
  }

  /** What UTF-8 guarantees of the bytes: continuation bytes follow non-ASCII ones, and a lead byte has one. */
  predicate Utf8(t: string) {
    && (forall i :: 0 < i < |t| && IsContinuation(t[i]) ==> !IsAscii(t[i - 1]))
    && (forall i :: 0 <= i < |t| && !IsAscii(t[i]) && !IsContinuation(t[i]) ==> i + 1 < |t| && IsContinuation(t[i + 1]))
  }

  predicate AllAscii(s: string) {
    forall i :: 0 <= i < |s| ==> IsAscii(s[i])
  }

  lemma Utf8From(t: string, n: nat)
    requires Utf8(t) && n <= |t|
    ensures Utf8(t[n..])
  {
  }

  lemma {:induction false} KeyBytesAscii(t: string, key: string)
    requires StartsCi(t, key) && forall i :: 0 <= i < |key| ==> IsKeyChar(key[i])
    ensures |key| <= |t| && AllAscii(t[..|key|])
  {
    assert forall i :: 0 <= i < |key| ==> IsKeyChar(Lower(t[i]));
  }

  lemma {:induction false} NamedLeadInAscii(t: string)
    requires HitOf(t, NamedValue(t)).Some?
    ensures AllAscii(t[..HitOf(t, NamedValue(t)).value.start])
  {
    hide StartsCi, ValueLen;
    var key := FirstKey(t, SECRET_KEYS).value;
    FirstKeyFound(t, SECRET_KEYS);
    KeyOkOf(key);
    KeyBytesAscii(t, key);
    SeparatorAscii(t, |key|, key == WIDE_KEY);
    assert forall i :: 0 <= i < |key| ==> t[..|key|][i] == t[i];
  }

  lemma {:induction false} SeparatorAscii(t: string, k: nat, wide: bool)
    requires k <= |t| && AfterKey(t, k).Some?
    ensures var v := ValueAfter(t, AfterKey(t, k).value, wide);
            forall i :: k <= i < v.start ==> IsAscii(t[i])
  {
    var j := AfterKey(t, k).value;
    var n := SpacesLen(t[j..]);
    assert forall i :: j <= i < j + n ==> t[i] == t[j..][i - j];
  }

  lemma {:induction false} BearerLeadInAscii(t: string)
    requires StartsCi(t, BEARER) && HitOf(t, BearerValue(t)).Some?
    ensures AllAscii(t[..HitOf(t, BearerValue(t)).value.start])
  {
    hide StartsCi, ValueLen;
    MarkersOk();
    KeyBytesAscii(t, BEARER);
    var m := WsLen(t[6..]);
    assert forall i :: 6 <= i < 6 + m ==> t[i] == t[6..][i - 6];
    assert forall i :: 0 <= i < 6 ==> t[..6][i] == t[i];
  }

  /** Everything in front of a masked value is ASCII: the key, its separator, spaces and quotes. */
  lemma {:induction false} LeadInAscii(t: string)
    requires HitAt(false, t).Some?
    ensures AllAscii(t[..HitAt(false, t).value.start])
  {
    hide StartsCi, NamedValue, BearerValue, ValueLen, RunLen;
    if HitOf(t, NamedValue(t)).Some? {
      NamedLeadInAscii(t);
    } else if StartsCi(t, BEARER) {
      BearerLeadInAscii(t);
    }
  }

  /** The byte behind a masked value is ASCII, or follows one. */
  lemma {:induction false} BehindHitAscii(t: string)
    requires HitAt(false, t).Some? && HitAt(false, t).value.end < |t|
    ensures var e := HitAt(false, t).value.end; IsAscii(t[e]) || IsAscii(t[e - 1])
  {
    hide StartsCi, NamedValue, BearerValue, UnquotedLen, StartsSpan, Halts, UnquotedLen, Allowance;
    HitStarts(false, t);
    QuotedStarts(false, t);
    AfterHit(false, t);
    var h := HitAt(false, t).value;
    match h.kind
    case Quoted(q) =>
    case Unquoted(wide) =>
      var left := UnquotedShapeOfHit(t, h);
      HaltsAscii(t[h.end..], left, wide);
    case Token =>
  }

  lemma {:induction false} HaltsAscii(u: string, left: nat, wide: bool)
    requires u != [] && Halts(u[DotLen(u)..], left, wide)
    ensures IsAscii(u[0])
  {
    if DotLen(u) == 0 { assert u[0..] == u; }
  }

  lemma {:induction false} SliceableSuffix(pa: bool, t: string)
    requires Utf8(t) && (t != [] && IsContinuation(t[0]) ==> !pa)
    ensures Sliceable(pa, t) <==> AllAscii(Scan(pa, t))
    decreases |t|, 1
  {
    hide HitAt;
    if t != [] {
      var hit := HitAt(pa, t);
      if hit.None? {
        var w := Scan(IsAlnum(t[0]), t[1..]);
        assert Scan(pa, t) == [t[0]] + w;
        Utf8From(t, 1);
        assert |t| > 1 ==> t[1..][0] == t[1];
        SliceableSuffix(IsAlnum(t[0]), t[1..]);
        assert AllAscii([t[0]] + w) <==> IsAscii(t[0]) && AllAscii(w) by {
          assert ([t[0]] + w)[0] == t[0];
          assert forall i :: 0 <= i < |w| ==> w[i] == ([t[0]] + w)[i + 1];
        }
      } else {
        SliceableHit(pa, t, hit.value);
      }
    }
  }

  lemma {:induction false} SliceableHit(pa: bool, t: string, h: Hit)
    requires Utf8(t) && t != [] && HitAt(pa, t) == Some(h)
    ensures Sliceable(pa, t) <==> AllAscii(Scan(pa, t))
    decreases |t|, 0
  {
    hide HitAt, AllAscii;
    var q, u := IsAlnum(t[h.end - 1]), t[h.end..];
    HitMeansFree(pa, t);
    HitHeadAscii(t);
    LeadInAscii(t);
    if h.end < |t| { BehindHitAscii(t); }
    Utf8From(t, h.end);
    SliceableSuffix(q, u);
    AsciiParts(t[..h.start], Scan(q, u));
  }

  lemma {:induction false} HitHeadAscii(t: string)
    requires HitAt(false, t).Some?
    ensures t != [] && IsAscii(t[0])
  {
    hide HitAt;
    if t != [] && !IsLetter(t[0]) { PlainHead(false, t); }
  }

  lemma AsciiParts(a: string, x: string)
    requires AllAscii(a)
    ensures AllAscii(a + MASK + x) <==> AllAscii(x)
  {
    var w := a + MASK + x;
    assert forall i :: 0 <= i < |x| ==> x[i] == w[|a| + 3 + i];
  }

  predicate InSpan(spans: seq<(nat, nat)>, i: nat) {
    spans != [] && (spans[0].0 <= i < spans[0].1 || InSpan(spans[1..], i))
  }

  /** From `at` on, every non-ASCII byte lies inside one of the spans. */
  predicate NonAsciiInside(t: string, at: nat, spans: seq<(nat, nat)>) {
    forall i :: at <= i < |t| && !IsAscii(t[i]) ==> InSpan(spans, i)
  }

  lemma {:induction false} SpansStartLater(spans: seq<(nat, nat)>, at: nat, end: nat, i: nat)
    requires Disjoint(spans, at, end) && i < at
    ensures !InSpan(spans, i)
  {
    if spans != [] { SpansStartLater(spans[1..], spans[0].1, end, i); }
  }

  /** What masking keeps is ASCII exactly when the spans take in every other byte. */
  lemma {:induction false} MaskedAsciiIff(t: string, at: nat, spans: seq<(nat, nat)>)
    requires Disjoint(spans, at, |t|)
    ensures AllAscii(Masked(t, at, spans)) <==> NonAsciiInside(t, at, spans)
    decreases |spans|
  {
    if spans == [] {
      assert forall i :: at <= i < |t| ==> t[i] == t[at..][i - at];
    } else {
      var (s, e) := spans[0];
      MaskedAsciiIff(t, e, spans[1..]);
      KeptAscii(t[at..s], Masked(t, e, spans[1..]));
      FrontInside(t, at, spans);
    }
  }

  lemma {:induction false} FrontInside(t: string, at: nat, spans: seq<(nat, nat)>)
    requires spans != [] && Disjoint(spans, at, |t|)
    ensures var (s, e) := spans[0];
            NonAsciiInside(t, at, spans) <==> AllAscii(t[at..s]) && NonAsciiInside(t, e, spans[1..])
  {
    var (s, e) := spans[0];
    forall i | 0 <= i < e ensures !InSpan(spans[1..], i) { SpansStartLater(spans[1..], e, |t|, i); }
    assert forall i :: at <= i < s ==> t[i] == t[at..s][i - at];
    if NonAsciiInside(t, at, spans) {
      forall k | 0 <= k < s - at ensures IsAscii(t[at..s][k]) {
        assert t[at + k] == t[at..s][k];
        assert !InSpan(spans, at + k);
      }
    }
  }

  lemma KeptAscii(a: string, x: string)
    ensures AllAscii(a + MASK + x) <==> AllAscii(a) && AllAscii(x)
  {
    var w := a + MASK + x;
    assert forall i :: 0 <= i < |a| ==> a[i] == w[i];
    if AllAscii(a) { AsciiParts(a, x); }
  }

  /** The scanner gets through a UTF-8 text exactly when every non-ASCII byte lies inside a masked span: such
      a character anywhere else makes it slice inside that character. */
  lemma {:induction false} SliceableIff(t: string)
    requires Utf8(t) && (t != [] ==> !IsContinuation(t[0]))
    ensures Sliceable(false, t) <==> NonAsciiInside(t, 0, Spans(false, t, 0))
  {
    SliceableSuffix(false, t);
    assert t[0..] == t;
    ScanMasksSpans(false, t, 0);
    MaskedAsciiIff(t, 0, Spans(false, t, 0));
  }

  /** ASCII text is always scanned to its end. */
  lemma AsciiCompletes(t: string)
    requires AllAscii(t)
    ensures Sliceable(false, t)
  {
    SliceableIff(t);
  }

  /** UTF-8 text without a letter has nothing to mask, so its first non-ASCII character stops the scan. */
  lemma {:induction false} NonAsciiStops(t: string)
    requires Utf8(t) && (t != [] ==> !IsContinuation(t[0])) && NoLetters(t) && !AllAscii(t)
    ensures !Sliceable(false, t)
  {
    SliceableSuffix(false, t);
    CopiedRun(false, t, []);
    assert t + [] == t;
  }

  /** One accented letter, two bytes, is enough. */
  lemma AccentStops()
    ensures Utf8(['\U{C3}', '\U{A9}']) && !Sliceable(false, ['\U{C3}', '\U{A9}'])
  {
    var t := ['\U{C3}', '\U{A9}'];
    assert !IsAscii(t[0]) && IsContinuation(t[1]);
    NonAsciiStops(t);
  }

  // ----- the loops -----

  function Behind(b: string, i: nat): bool
    requires i <= |b|
  {
    i > 0 && IsAlnum(b[i - 1])
  }

  method SkipSpaces(t: string, j0: nat) returns (j: nat)
    requires j0 <= |t|
    ensures j == j0 + SpacesLen(t[j0..])
  {
    j := j0;
    while j < |t| && t[j] == ' '
      invariant j0 <= j <= |t|
      invariant SpacesLen(t[j0..]) == j - j0 + SpacesLen(t[j..])
    {
      assert t[j..][1..] == t[j + 1..];
      j := j + 1;
    }
  }

  method SkipWs(t: string, j0: nat) returns (j: nat)
    requires j0 <= |t|
    ensures j == j0 + WsLen(t[j0..])
  {
    j := j0;
    while j < |t| && IsWs(t[j])
      invariant j0 <= j <= |t|
      invariant WsLen(t[j0..]) == j - j0 + WsLen(t[j..])
    {
      assert t[j..][1..] == t[j + 1..];
      j := j + 1;
    }
  }

  method SkipQuoted(t: string, j0: nat, q: char) returns (k: nat)
    requires j0 <= |t|
    ensures k == j0 + QuotedLen(t[j0..], q)
  {
    k := j0;
    while k < |t| && t[k] != q
      invariant j0 <= k <= |t|
      invariant QuotedLen(t[j0..], q) == k - j0 + QuotedLen(t[k..], q)
    {
      assert t[k..][1..] == t[k + 1..];
      k := k + 1;
    }
  }

  method SkipRun(t: string) returns (k: nat)
    ensures k == RunLen(t)
  {
    k := 0;
    assert t[0..] == t;
    while k < |t| && IsKeyRun(t[k])
      invariant 0 <= k <= |t|
      invariant RunLen(t) == k + RunLen(t[k..])
    {
      assert t[k..][1..] == t[k + 1..];
      k := k + 1;
    }
  }

  /** One turn of the first loop of `unquoted_value`. */
  lemma {:induction false} ExtentStep(b: string, k: nat, spaces: nat, wide: bool)
    requires k < |b|
    ensures var m, n := k + WsLen(b[k..]), Extent(b[k..], spaces, wide);
            if IsStop(b[k]) then n == 0
            else if IsWs(b[k]) then
              if spaces == 0 || m >= |b| || IsStop(b[m]) then n == 0
              else n == m - k + Extent(b[m..], spaces - 1, wide)
            else if !wide && IsPunct(b[k]) then n == 0
            else n == 1 + Extent(b[k + 1..], spaces, wide)
  {
    var u := b[k..];
    var m := WsLen(u);
    assert u[0] == b[k] && u[1..] == b[k + 1..] && u[m..] == b[k + m..];
    assert k + m < |b| ==> u[m] == b[k + m];
  }

  /** The first loop of `unquoted_value`. */
  method ValueEnd(b: string, start: nat, wide: bool) returns (k: nat)
    requires start <= |b|
    ensures k == start + Extent(b[start..], Allowance(wide), wide)
  {
    hide Extent, WsLen;
    var spaces: nat := Allowance(wide);
    k := start;
    ghost var n := Extent(b[start..], spaces, wide);
    while k < |b|
      invariant start <= k <= |b|
      invariant n == k - start + Extent(b[k..], spaces, wide)
    {
      ExtentStep(b, k, spaces, wide);
      if IsStop(b[k]) { break; }
      if IsWs(b[k]) {
        if spaces == 0 { break; }
        var m := SkipWs(b, k);
        if m >= |b| || IsStop(b[m]) { break; }
        assert m > k by { WsHead(b, k); }
        spaces := spaces - 1;
        k := m;
        continue;
      }
      if !wide && IsPunct(b[k]) { break; }
      k := k + 1;
    }
  }

  lemma WsHead(b: string, k: nat)
    requires k < |b| && IsWs(b[k])
    ensures WsLen(b[k..]) > 0
  {
    assert b[k..][0] == b[k];
  }

  /** The second: a full stop at the end is punctuation. */
  method DropDots(b: string, start: nat, end: nat) returns (k: nat)
    requires start <= end <= |b|
    ensures k == start + UndottedLen(b[start..end])
  {
    k := end;
    while k > start && b[k - 1] == '.'
      invariant start <= k <= end
      invariant UndottedLen(b[start..k]) == UndottedLen(b[start..end])
    {
      assert b[start..k][..k - start - 1] == b[start..k - 1];
      k := k - 1;
    }
  }

  /** `unquoted_value` */
  method UnquotedValue(b: string, start: nat, wide: bool) returns (k: nat)
    requires start <= |b|
    ensures k == start + UnquotedLen(b[start..], wide)
  {
    var end := ValueEnd(b, start, wide);
    assert b[start..][..end - start] == b[start..end];
    k := DropDots(b, start, end);
  }

  /** The value behind a separator, quoted or not. */
  method ValueSpan(t: string, j: nat, wide: bool) returns (start: nat, end: nat)
    requires j <= |t|
    ensures var v := ValueAfter(t, j, wide); start == v.start && end == start + ValueLen(t, v)
  {
    hide UnquotedLen, QuotedLen, SpacesLen;
    var k := SkipSpaces(t, j);
    if k < |t| && IsQuote(t[k]) {
      start := k + 1;
      end := SkipQuoted(t, start, t[k]);
    } else {
      start := k;
      end := UnquotedValue(t, start, wide);
    }
  }

  /** `named_secret`, on a text it can slice at `i`. */
  method NamedSecret(b: string, i: nat) returns (span: Option<(nat, nat)>)
    requires i <= |b|
    ensures var h := HitOf(b[i..], NamedValue(b[i..]));
            span == if Behind(b, i) || h.None? then None else Some((i + h.value.start, i + h.value.end))
  {
    hide StartsCi, ValueAfter, ValueLen, FirstKey;
    if Behind(b, i) { return None; }
    var t := b[i..];
    var key := FirstKey(t, SECRET_KEYS);
    if key.None? { return None; }
    var j := |key.value|;
    if j < |t| && IsQuote(t[j]) { j := j + 1; }
    if !(j < |t| && IsSep(t[j])) { return None; }
    var start, end := ValueSpan(t, j + 1, key.value == WIDE_KEY);
    span := if end > start then Some((i + start, i + end)) else None;
  }

  /** `prefixed_secret` */
  method PrefixedSecret(b: string, i: nat) returns (span: Option<(nat, nat)>)
    requires i <= |b|
    requires HitOf(b[i..], NamedValue(b[i..])).None?
    ensures var h := HitAt(Behind(b, i), b[i..]);
            span == if h.None? then None else Some((i + h.value.start, i + h.value.end))
  {
    hide NamedValue, UnquotedLen, RunLen, WsLen;
    if Behind(b, i) { return None; }
    var t := b[i..];
    if StartsCi(t, BEARER) {
      var j := SkipWs(t, |BEARER|);
      if j == |BEARER| || j >= |t| { return None; }
      var end := UnquotedValue(t, j, false);
      return if end > j then Some((i + j, i + end)) else None;
    }
    if StartsCi(t, SK) {
      var k := SkipRun(t);
      if k >= MIN_TOKEN { return Some((i, i + k)); }
    }
    span := None;
  }

  /** The span masked at `i`, if any. */
  method SecretAt(b: string, i: nat) returns (span: Option<(nat, nat)>)
    requires i <= |b|
    ensures var h := HitAt(Behind(b, i), b[i..]);
            span == if h.None? then None else Some((i + h.value.start, i + h.value.end))
  {
    hide NamedValue, HitOf, BearerValue, StartsCi, RunLen;
    span := NamedSecret(b, i);
    if span.None? && !Behind(b, i) { span := PrefixedSecret(b, i); }
  }

  /** What the copying loop keeps: what is written, what is still to be copied and the scan of the rest make up
      the result. */
  ghost predicate Underway(out: string, input: string, copied: nat, i: nat) {
    && copied <= i <= |input|
    && out + input[copied..i] + Scan(Behind(input, i), input[i..]) == Redacted(input)
    && (Sliceable(false, input) <==> Sliceable(Behind(input, i), input[i..]))
  }

  lemma {:induction false} UnderwayAtStart(input: string)
    ensures Underway("", input, 0, 0)
  {
    hide Scan, Sliceable;
    assert input[0..] == input;
    assert "" + input[0..0] + Scan(false, input) == Scan(false, input);
  }

  lemma {:induction false} UnderwayAtHit(out: string, input: string, copied: nat, i: nat, h: Hit)
    requires Underway(out, input, copied, i) && i < |input| && HitAt(Behind(input, i), input[i..]) == Some(h)
    requires Behind(input, i) || !IsContinuation(input[i])
    ensures Underway(out + input[copied..i + h.start] + MASK, input, i + h.end, i + h.end)
  {
    hide HitAt, Scan, Sliceable, Behind, Redacted, IsContinuation;
    ScanStep(input, i);
    CopyHit(out, input, copied, i, i + h.start, Scan(Behind(input, i + h.end), input[i + h.end..]));
  }

  lemma {:induction false} UnderwayAtByte(out: string, input: string, copied: nat, i: nat)
    requires Underway(out, input, copied, i) && i < |input| && HitAt(Behind(input, i), input[i..]) == None
    requires Behind(input, i) || !IsContinuation(input[i])
    ensures Underway(out, input, copied, i + 1)
  {
    hide HitAt, Scan, Sliceable, Behind, Redacted, IsContinuation;
    ScanStep(input, i);
    CopyByte(out, input, copied, i, Scan(Behind(input, i + 1), input[i + 1..]));
  }

  lemma {:induction false} UnderwayEnds(out: string, input: string, copied: nat, i: nat)
    requires Underway(out, input, copied, i)
    ensures i < |input| && !Behind(input, i) && IsContinuation(input[i]) ==> !Sliceable(false, input)
    ensures i == |input| ==> Sliceable(false, input) && out + input[copied..] == Redacted(input)
  {
    hide HitAt, Scan, Sliceable, Behind, Redacted, IsContinuation;
    if i < |input| {
      ScanStep(input, i);
    } else {
      NothingLeft(Behind(input, i));
      assert input[i..] == [] && out + input[copied..i] + [] == out + input[copied..];
    }
  }

  /** `redact_secrets`; nothing is returned where slicing the text fails. */
  method RedactSecrets(input: string) returns (r: Option<string>)
    ensures r == if Sliceable(false, input) then Some(Redacted(input)) else None
  {
    hide Underway, HitAt, Sliceable, Redacted;
    var out := "";
    var copied := 0;
    var i := 0;
    UnderwayAtStart(input);
    while i < |input|
      invariant 0 <= copied <= i <= |input| && Underway(out, input, copied, i)
    {
      UnderwayEnds(out, input, copied, i);
      if !Behind(input, i) && IsContinuation(input[i]) { return None; }
      var span := SecretAt(input, i);
      if span.Some? {
        var (start, end) := span.value;
        UnderwayAtHit(out, input, copied, i, HitAt(Behind(input, i), input[i..]).value);
        out := out + input[copied..start] + MASK;
        copied := end;
        i := end;
      } else {
        UnderwayAtByte(out, input, copied, i);
        i := i + 1;
      }
    }
    UnderwayEnds(out, input, copied, i);
    r := Some(out + input[copied..]);
  }

  lemma {:induction false} NothingLeft(pa: bool)
    ensures Scan(pa, []) == [] && Sliceable(pa, [])
  {
  }

  /** One turn of the scan, in offsets of the whole text. */
  lemma {:induction false} ScanStep(b: string, i: nat)
    requires i < |b|
    ensures var pa, t, h := Behind(b, i), b[i..], HitAt(Behind(b, i), b[i..]);
            if h.None? then
              && Scan(pa, t) == [b[i]] + Scan(Behind(b, i + 1), b[i + 1..])
              && (Sliceable(pa, t) <==> (pa || !IsContinuation(b[i])) && Sliceable(Behind(b, i + 1), b[i + 1..]))
            else
              var e := i + h.value.end;
              && Scan(pa, t) == t[..h.value.start] + MASK + Scan(Behind(b, e), b[e..])
              && (Sliceable(pa, t) <==> (pa || !IsContinuation(b[i])) && Sliceable(Behind(b, e), b[e..]))
  {
    hide HitAt;
    var t := b[i..];
    assert t[0] == b[i] && t[1..] == b[i + 1..];
    var h := HitAt(Behind(b, i), t);
    if h.Some? {
      assert t[h.value.end..] == b[i + h.value.end..] && t[h.value.end - 1] == b[i + h.value.end - 1];
    }
  }

  lemma CopyHit(out: string, input: string, copied: nat, i: nat, start: nat, x: string)
    requires copied <= i <= start <= |input|
    ensures out + input[copied..i] + (input[i..][..start - i] + MASK + x)
         == out + input[copied..start] + MASK + [] + x
  {
    assert input[copied..i] + input[i..][..start - i] == input[copied..start];
  }

  lemma CopyByte(out: string, input: string, copied: nat, i: nat, x: string)
    requires copied <= i < |input|
    ensures out + input[copied..i] + ([input[i]] + x) == out + input[copied..i + 1] + x
  {
    assert input[copied..i] + [input[i]] == input[copied..i + 1];
  }
}
