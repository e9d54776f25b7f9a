/** What a secret looks like in a text, spelled out piece by piece, and the theorem that
    the scanner masks the leftmost secret's value, that value only, and goes on behind it. */
module RedactShapes {
  import opened Basics
  import opened TextLines
  import opened Redact

  // ----- the shapes -----

  /** A key in any letter case, the closing quote it may have, a separator and spaces. */
  datatype Label = Label(name: string, close: string, sep: char, pad: nat) {
    function Text(): string { name + (close + ([sep] + seq(pad, _ => ' '))) }

    ghost predicate Valid() {
      && (exists k :: k in SECRET_KEYS && Spells(name, k))
      && (close == "" || (|close| == 1 && IsQuote(close[0])))
      && IsSep(sep)
    }
  }

  /** A label with a quoted or a bare value, a value behind `bearer`, or a long `sk-` token. */
  datatype Secret =
    | InQuotes(front: Label, quote: char)
    | Bare(front: Label)
    | AfterBearer(word: string, gap: string)
    | LongToken
  {
    /** What stands in front of the value. */
    function Lead(): string {
      match this
      case InQuotes(l, q) => l.Text() + [q]
      case Bare(l) => l.Text()
      case AfterBearer(w, g) => w + g
      case LongToken => ""
    }

    /** `v`, followed by `rest`, is the value of such a secret. */
    ghost predicate Holds(v: string, rest: string) {
      && v != []
      && match this
         case InQuotes(l, q) => l.Valid() && IsQuote(q) && q !in v && (rest == [] || rest[0] == q)
         case Bare(l) => l.Valid() && v[0] != ' ' && Delimited(v, rest, Spells(l.name, WIDE_KEY))
         case AfterBearer(w, g) => Spells(w, BEARER) && g != [] && AllWs(g) && Delimited(v, rest, false)
         case LongToken =>
           && |v| >= MIN_TOKEN && StartsCi(v, SK) && (forall c :: c in v ==> IsKeyRun(c))
           && (rest == [] || !IsKeyRun(rest[0]))
    }
  }

  predicate Spells(w: string, key: string) { |w| == |key| && StartsCi(w, key) }

  predicate AllWs(s: string) { forall c :: c in s ==> IsWs(c) }

  /** Ends a value that is no header's. */
  predicate IsEnd(c: char) { IsStop(c) || IsWs(c) || IsPunct(c) }

  predicate IsPlain(s: string) { forall c :: c in s ==> !IsStop(c) && !IsWs(c) }

  /** `v` and the full stops behind it are a whole run, and `v` does not end in one. */
  ghost predicate Delimited(v: string, rest: string, wide: bool)
    requires v != []
  {
    && v[|v| - 1] != '.'
    && exists d | 0 <= d <= |rest| :: AllDots(rest[..d]) && IsRun(v + rest[..d], rest[d..], wide)
  }

  predicate AllDots(s: string) { forall c :: c in s ==> c == '.' }

  /** The run `u` in front of `x`: a header's is one word or two, any other's ends at the first end byte. */
  ghost predicate IsRun(u: string, x: string, wide: bool) {
    if !wide then (forall c :: c in u ==> !IsEnd(c)) && (x == [] || IsEnd(x[0]))
    else
      || (IsPlain(u) && (x == [] || IsStop(x[0]) || EndsInWs(x)))
      || (TwoWords(u) && (x == [] || IsStop(x[0]) || IsWs(x[0])))
  }

  /** Whitespace with no more text behind it. */
  ghost predicate EndsInWs(x: string) {
    exists m | 0 < m <= |x| :: AllWs(x[..m]) && (m == |x| || IsStop(x[m]))
  }

  /** Two words with whitespace between them; the first may be empty. */
  ghost predicate TwoWords(u: string) {
    exists w, g, z :: AreWords(u, w, g, z)
  }

  predicate AreWords(u: string, w: string, g: string, z: string) {
    u == w + (g + z) && IsPlain(w) && g != [] && AllWs(g) && z != [] && IsPlain(z)
  }

  /** A secret stands at the start of `t`. */
  ghost predicate StartsSecret(t: string) {
    exists s: Secret, v, rest :: s.Holds(v, rest) && t == s.Lead() + (v + rest)
  }

  /** No secret starts in the first `n` bytes, save inside a longer word. */
  ghost predicate Clear(t: string, n: nat)
    requires n <= |t|
  {
    forall i :: 0 <= i < n && !Behind(t, i) ==> !StartsSecret(t[i..])
  }

  /** The same of the bytes from `i` on. */
  ghost predicate ClearFrom(t: string, i: nat) {
    forall k :: i <= k < |t| && !Behind(t, k) ==> !StartsSecret(t[k..])
  }

  // ----- a run and its length -----

  lemma {:induction false} ExtentOfRun(u: string, x: string)
    requires IsRun(u, x, false)
    ensures Extent(u + x, 0, false) == |u|
    decreases |u|
  {
    if u == [] {
      assert u + x == x;
    } else {
      assert (u + x)[1..] == u[1..] + x;
      assert u[0] in u;
      ExtentOfRun(u[1..], x);
    }
  }

  lemma {:induction false} WsLenIs(g: string, x: string)
    requires AllWs(g) && (x == [] || !IsWs(x[0]))
    ensures WsLen(g + x) == |g|
  {
    forall i | 0 <= i < |g| ensures IsWs(g[i]) { assert g[i] in g; }
    WsLenOf(g, x);
  }

  lemma {:induction false} ExtentOfHeader(u: string, x: string)
    requires IsRun(u, x, true)
    ensures Extent(u + x, 1, true) == |u|
  {
    if IsPlain(u) && (x == [] || IsStop(x[0]) || EndsInWs(x)) {
      PlainExtent(u, x, 1);
      if x != [] && !IsStop(x[0]) {
        var m :| 0 < m <= |x| && AllWs(x[..m]) && (m == |x| || IsStop(x[m]));
        WsLenIs(x[..m], x[m..]);
        assert x == x[..m] + x[m..] && x[0] == x[..m][0];
      }
    } else {
      WordsExtent(u, x);
    }
  }

  lemma {:induction false} WordsExtent(u: string, x: string)
    requires TwoWords(u) && (x == [] || IsStop(x[0]) || IsWs(x[0]))
    ensures Extent(u + x, 1, true) == |u|
  {
    var w, g, z :| AreWords(u, w, g, z);
    hide IsPlain, AllWs;
    var gzx := g + (z + x);
    assert u + x == w + gzx;
    PlainExtent(w, gzx, 1);
    PlainIsHead(z);
    assert (z + x)[0] == z[0];
    WsIsHead(g);
    WsLenIs(g, z + x);
    assert gzx[|g|..] == z + x && gzx[|g|] == z[0] && gzx[0] == g[0];
    PlainExtent(z, x, 0);
  }

  lemma PlainIsHead(z: string)
    requires z != [] && IsPlain(z)
    ensures !IsStop(z[0]) && !IsWs(z[0])
  {
    assert z[0] in z;
  }

  lemma WsIsHead(g: string)
    requires g != [] && AllWs(g)
    ensures IsWs(g[0])
  {
    assert g[0] in g;
  }

  lemma {:induction false} PlainExtent(a: string, rest: string, spaces: nat)
    requires IsPlain(a)
    ensures Extent(a + rest, spaces, true) == |a| + Extent(rest, spaces, true)
  {
    forall i | 0 <= i < |a| ensures !IsStop(a[i]) && !IsWs(a[i]) { assert a[i] in a; }
    ExtentOfWord(a, rest, spaces);
  }

  lemma {:induction false} UndottedIs(v: string, dots: string)
    requires v != [] && v[|v| - 1] != '.' && AllDots(dots)
    ensures UndottedLen(v + dots) == |v|
  {
    var s := v + dots;
    forall i | |v| <= i < |s| ensures s[i] == '.' { assert s[i] in dots; }
    assert s[|v| - 1] == v[|v| - 1];
  }

  /** A delimited value is what the scan of an unquoted value finds. */
  lemma {:induction false} DelimitedLen(v: string, rest: string, wide: bool)
    requires v != [] && Delimited(v, rest, wide)
    ensures UnquotedLen(v + rest, wide) == |v|
  {
    hide IsRun, AllDots, UndottedLen;
    var d :| 0 <= d <= |rest| && AllDots(rest[..d]) && IsRun(v + rest[..d], rest[d..], wide);
    var u := v + rest[..d];
    assert v + rest == u + rest[d..];
    if wide { ExtentOfHeader(u, rest[d..]); } else { ExtentOfRun(u, rest[d..]); }
    assert (v + rest)[..|u|] == u;
    UndottedIs(v, rest[..d]);
  }

  lemma {:induction false} RunOfExtent(t: string)
    ensures var n := Extent(t, 0, false); IsRun(t[..n], t[n..], false)
  {
    var n := Extent(t, 0, false);
    if n > 0 {
      RunOfExtent(t[1..]);
      var m := Extent(t[1..], 0, false);
      assert t[..n] == [t[0]] + t[1..][..m] && t[n..] == t[1..][m..];
    } else {
      assert t[..0] == [] && t[0..] == t;
    }
  }

  lemma {:induction false} LastWord(t: string)
    ensures var n := Extent(t, 0, true);
            IsPlain(t[..n]) && (n == |t| || IsStop(t[n]) || IsWs(t[n]))
  {
    var n := Extent(t, 0, true);
    if n > 0 {
      LastWord(t[1..]);
      var m := Extent(t[1..], 0, true);
      assert t[..n] == [t[0]] + t[1..][..m];
      assert n < |t| ==> t[n] == t[1..][m];
    }
  }

  lemma {:induction false} WsIsAll(t: string, m: nat)
    requires m <= WsLen(t)
    ensures AllWs(t[..m])
  {
  }

  lemma {:induction false} HeaderOfExtent(t: string)
    ensures var n := Extent(t, 1, true); IsRun(t[..n], t[n..], true)
  {
    var n := Extent(t, 1, true);
    if t == [] || IsStop(t[0]) {
      assert t[n..] == t;
    } else if IsWs(t[0]) {
      var m := WsLen(t);
      WsIsAll(t, m);
      if n == 0 {
        assert t[n..] == t;
        assert EndsInWs(t);
      } else {
        LastWord(t[m..]);
        var k := Extent(t[m..], 0, true);
        ExtentZero(t[m..], 0, true);
        assert n < |t| ==> t[n..][0] == t[m..][k];
        assert AreWords(t[..n], "", t[..m], t[m..][..k]);
      }
    } else {
      HeaderOfExtent(t[1..]);
      HeaderStep(t);
    }
  }

  lemma PlainCons(c: char, u: string)
    requires !IsStop(c) && !IsWs(c)
    ensures IsPlain([c] + u) <==> IsPlain(u)
  {
    assert forall d :: d in u ==> d in [c] + u;
  }

  lemma {:induction false} HeaderStep(t: string)
    requires t != [] && !IsStop(t[0]) && !IsWs(t[0])
    requires var n := Extent(t[1..], 1, true); IsRun(t[1..][..n], t[1..][n..], true)
    ensures var n := Extent(t, 1, true); IsRun(t[..n], t[n..], true)
  {
    hide EndsInWs, IsPlain, AllWs;
    var n := Extent(t[1..], 1, true);
    var u := t[1..][..n];
    assert t[..n + 1] == [t[0]] + u && t[n + 1..] == t[1..][n..];
    PlainCons(t[0], u);
    if TwoWords(u) {
      var w, g, z :| AreWords(u, w, g, z);
      PlainCons(t[0], w);
      ConcatAssoc([t[0]], w, g + z);
      assert AreWords([t[0]] + u, [t[0]] + w, g, z);
    }
  }

  /** What the scan of an unquoted value finds is a delimited value. */
  lemma {:induction false} LenDelimited(t: string, wide: bool)
    requires UnquotedLen(t, wide) > 0
    ensures var n := UnquotedLen(t, wide); Delimited(t[..n], t[n..], wide)
  {
    hide IsRun, Delimited, AllDots, UndottedLen, Extent;
    var e, n := Extent(t, Allowance(wide), wide), UnquotedLen(t, wide);
    if wide { HeaderOfExtent(t); } else { RunOfExtent(t); }
    var u := t[..e];
    var v, rest, d := t[..n], t[n..], e - n;
    assert v == u[..n] && v[n - 1] == u[n - 1] && rest[..d] == u[n..];
    assert v + rest[..d] == u && rest[d..] == t[e..];
    DotsBehind(u);
    ShownDelimited(v, rest, d, wide);
  }

  lemma DotsBehind(u: string)
    ensures AllDots(u[UndottedLen(u)..])
  {
  }

  lemma ShownDelimited(v: string, rest: string, d: nat, wide: bool)
    requires v != [] && v[|v| - 1] != '.' && d <= |rest|
    requires AllDots(rest[..d]) && IsRun(v + rest[..d], rest[d..], wide)
    ensures Delimited(v, rest, wide)
  {
  }

  // ----- a secret and a hit -----

  lemma {:induction false} ScanOfPad(pad: nat, x: string)
    requires x == [] || x[0] != ' '
    ensures SpacesLen(seq(pad, _ => ' ') + x) == pad
  {
    var s := seq(pad, _ => ' ');
    assert forall i :: 0 <= i < pad ==> (s + x)[i] == ' ';
    assert x != [] ==> (s + x)[pad] == x[0];
  }

  /** Which key a text that starts with one starts with. */
  function KeyFor(t: string): string {
    if |t| < 5 then ""
    else
      match Lower(t[0])
      case 'l' => "launchtoken"
      case 'r' => if |t| > 7 && t[7] == '_' then "refresh_token" else "refresh-token"
      case 'c' => if |t| > 6 && t[6] == '_' then "client_secret" else "client-secret"
      case 'i' => "id_token"
      case 'p' => "password"
      case 't' => "token"
      case 's' => "secret"
      case _ =>
        match Lower(t[1])
        case 'u' => "authorization"
        case 'c' => if |t| > 6 && t[6] == '_' then "access_token" else "access-token"
        case _ => if t[3] == '_' then "api_key" else if t[3] == '-' then "api-key" else "apikey"
  }

  /** The bytes of a text that `KeyFor` looks at are those of `k`. */
  predicate SameMarks(t: string, k: string) {
    && 5 <= |k| <= |t|
    && Lower(t[0]) == k[0] && Lower(t[1]) == k[1] && Lower(t[3]) == k[3]
    && (|k| > 7 ==> Lower(t[6]) == k[6] && Lower(t[7]) == k[7])
  }

  lemma {:induction false} OneKey1(t: string, i: nat)
    requires i < 5 && SameMarks(t, SECRET_KEYS[i])
    ensures KeyFor(t) == SECRET_KEYS[i]
  {
  }

  lemma {:induction false} OneKey2(t: string, i: nat)
    requires 5 <= i < 10 && SameMarks(t, SECRET_KEYS[i])
    ensures KeyFor(t) == SECRET_KEYS[i]
  {
  }

  lemma {:induction false} OneKey3(t: string, i: nat)
    requires 10 <= i < 15 && SameMarks(t, SECRET_KEYS[i])
    ensures KeyFor(t) == SECRET_KEYS[i]
  {
  }

  lemma {:induction false} KeyIs(t: string, k: string)
    requires k in SECRET_KEYS && StartsCi(t, k)
    ensures KeyFor(t) == k
  {
    hide KeyFor;
    var i :| 0 <= i < |SECRET_KEYS| && SECRET_KEYS[i] == k;
    assert SameMarks(t, k);
    if i < 5 { OneKey1(t, i); } else if i < 10 { OneKey2(t, i); } else { OneKey3(t, i); }
  }

  lemma {:induction false} LabelParts(l: Label, x: string)
    requires l.Valid()
    ensures var t := l.Text() + x; var j := |l.Text()| - l.pad;
            && FirstKey(t, SECRET_KEYS).Some? && FirstKey(t, SECRET_KEYS).value == KeyFor(t)
            && KeyFor(t) in SECRET_KEYS && Spells(l.name, KeyFor(t)) && AfterKey(t, |l.name|) == Some(j)
            && j <= |t| && t[j..] == seq(l.pad, _ => ' ') + x
  {
    hide FirstKey, KeyFor, AfterKey;
    var t := l.Text() + x;
    var pad := seq(l.pad, _ => ' ');
    var k :| k in SECRET_KEYS && Spells(l.name, k);
    assert t == l.name + (l.close + ([l.sep] + (pad + x)));
    assert StartsCi(t, k);
    FirstKeyFound(t, SECRET_KEYS);
    KeyIs(t, k);
    KeyIs(t, FirstKey(t, SECRET_KEYS).value);
    AfterName(l.name, l.close, l.sep, pad + x);
  }

  lemma AfterName(name: string, close: string, sep: char, x: string)
    requires (close == "" || (|close| == 1 && IsQuote(close[0]))) && IsSep(sep)
    ensures var t := name + (close + ([sep] + x)); var j := |name| + |close| + 1;
            AfterKey(t, |name|) == Some(j) && j <= |t| && t[j..] == x
  {
    var t := name + (close + ([sep] + x));
    assert t[|name| + |close|] == sep;
    assert close != "" ==> t[|name|] == close[0];
  }

  lemma {:induction false} LabelHit(l: Label, x: string, v: Value)
    requires l.Valid() && (x == [] || x[0] != ' ')
    requires v == if x != [] && IsQuote(x[0]) then Value(|l.Text()| + 1, Kind.Quoted(x[0]))
                  else Value(|l.Text()|, Unquoted(Spells(l.name, WIDE_KEY)))
    ensures NamedValue(l.Text() + x) == Some(v)
  {
    hide FirstKey, KeyFor, AfterKey, SpacesLen, StartsCi;
    var t := l.Text() + x;
    LabelParts(l, x);
    ScanOfPad(l.pad, x);
    assert x != [] ==> t[|l.Text()|] == x[0];
    WideName(l.name, KeyFor(t));
  }

  lemma {:induction false} WideName(w: string, k: string)
    requires Spells(w, k) && k in SECRET_KEYS
    ensures Spells(w, WIDE_KEY) <==> k == WIDE_KEY
  {
    if Spells(w, WIDE_KEY) { OnlyWideKey(w); KeyIs(w, k); KeyIs(w, WIDE_KEY); }
  }

  lemma {:induction false} QuotedHit(l: Label, q: char, v: string, rest: string)
    requires InQuotes(l, q).Holds(v, rest)
    ensures var h := HitAt(false, l.Text() + [q] + (v + rest));
            h.Some? && h.value.start == |l.Text()| + 1 && h.value.end == |l.Text()| + 1 + |v|
  {
    hide NamedValue, BearerValue, StartsCi, UnquotedLen, QuotedLen, RunLen, Label.Valid;
    var x := v + rest;
    var t := l.Text() + [q] + x;
    LabelHit(l, [q] + x, Value(|l.Text()| + 1, Kind.Quoted(q)));
    assert t == l.Text() + ([q] + x) && t[|l.Text()| + 1..] == x;
    QuotedIs(v, rest, q);
  }

  lemma {:induction false} BareHit(l: Label, v: string, rest: string)
    requires Bare(l).Holds(v, rest)
    ensures var h := HitAt(false, l.Text() + (v + rest));
            h.Some? && h.value.start == |l.Text()| && h.value.end == |l.Text()| + |v|
  {
    hide NamedValue, BearerValue, StartsCi, UnquotedLen, QuotedLen, RunLen, Delimited, Label.Valid;
    var x := v + rest;
    var wide := Spells(l.name, WIDE_KEY);
    DelimitedLen(v, rest, wide);
    ValueHead(x, wide);
    LabelHit(l, x, Value(|l.Text()|, Unquoted(wide)));
    assert (l.Text() + x)[|l.Text()|..] == x;
  }

  lemma {:induction false} QuotedIs(v: string, rest: string, q: char)
    requires q !in v && (rest == [] || rest[0] == q)
    ensures QuotedLen(v + rest, q) == |v|
  {
    var n := QuotedLen(v + rest, q);
    assert rest != [] ==> (v + rest)[|v|] == q;
    assert forall i :: 0 <= i < |v| ==> (v + rest)[i] in v;
  }

  lemma {:induction false} NoKeyAt(t: string, marker: string)
    requires t != [] && marker != [] && StartsCi(t, marker) && (marker == BEARER || marker == SK)
    ensures NamedValue(t).None?
    ensures marker == SK ==> !StartsCi(t, BEARER)
  {
    hide AfterKey, ValueAfter;
    MarkersOk();
    FirstKeyFound(t, SECRET_KEYS);
    KeysOk();
    assert Lower(t[0]) == marker[0] && (marker == SK ==> Lower(t[1]) == 'k');
    forall k | k in SECRET_KEYS ensures !StartsCi(t, k) {
      KeyOkOf(k);
      assert k[0] == marker[0] ==> k[1] != 'k';
    }
  }

  lemma {:induction false} BearerHit(w: string, g: string, v: string, rest: string)
    requires Spells(w, BEARER) && g != [] && AllWs(g) && v != [] && Delimited(v, rest, false)
    ensures var h := HitAt(false, w + g + (v + rest));
            h.Some? && h.value.start == |w + g| && h.value.end == |w + g| + |v|
  {
    hide NamedValue, UnquotedLen, Delimited;
    var x := v + rest;
    var t := w + g + x;
    MarkersOk();
    assert t[6..] == g + x && t[|w + g|..] == x;
    NoKeyAt(t, BEARER);
    DelimitedLen(v, rest, false);
    ValueHead(x, false);
    WsLenIs(g, x);
  }

  lemma {:induction false} TokenHit(v: string, rest: string)
    requires LongToken.Holds(v, rest)
    ensures var h := HitAt(false, v + rest); h.Some? && h.value.start == 0 && h.value.end == |v|
  {
    hide NamedValue;
    var t := v + rest;
    NoKeyAt(t, SK);
    forall i | 0 <= i < |v| ensures IsKeyRun(t[i]) { assert t[i] in v; }
    assert rest != [] ==> t[|v|] == rest[0];
  }

  /** A secret at the start of a text is what the scanner finds there. */
  lemma {:induction false} SecretIsHit(s: Secret, v: string, rest: string)
    requires s.Holds(v, rest)
    ensures var h := HitAt(false, s.Lead() + (v + rest));
            h.Some? && h.value.start == |s.Lead()| && h.value.end == |s.Lead()| + |v|
  {
    hide HitAt, Label.Valid, Label.Text, Delimited, StartsCi;
    match s
    case InQuotes(l, q) => QuotedHit(l, q, v, rest);
    case Bare(l) => BareHit(l, v, rest);
    case AfterBearer(w, g) => BearerHit(w, g, v, rest);
    case LongToken =>
      TokenHit(v, rest);
      assert s.Lead() + (v + rest) == v + rest;
  }

  lemma {:induction false} SecretHit(t: string)
    requires StartsSecret(t)
    ensures t != [] && HitAt(false, t).Some?
  {
    hide HitAt, Secret.Holds, Secret.Lead;
    var s: Secret, v, rest :| s.Holds(v, rest) && t == s.Lead() + (v + rest);
    SecretIsHit(s, v, rest);
  }

  /** Whatever the scanner finds is a secret of one of the shapes. */
  lemma {:induction false} HitIsSecret(pa: bool, t: string)
    requires HitAt(pa, t).Some?
    ensures StartsSecret(t)
  {
    hide NamedValue, BearerValue, StartsCi, ValueLen, RunLen;
    if HitOf(t, NamedValue(t)).Some? {
      NamedIsSecret(t);
    } else if StartsCi(t, BEARER) {
      BearerIsSecret(t);
    } else {
      TokenIsSecret(t);
    }
  }

  lemma Shown(s: Secret, v: string, rest: string)
    requires s.Holds(v, rest)
    ensures StartsSecret(s.Lead() + (v + rest))
  {
  }

  lemma HeadStarts(t: string, n: nat)
    requires StartsCi(t, SK) && 3 <= n <= |t|
    ensures StartsCi(t[..n], SK)
  {
  }

  lemma {:induction false} TokenIsSecret(t: string)
    requires StartsCi(t, SK) && RunLen(t) >= MIN_TOKEN
    ensures StartsSecret(t)
  {
    hide StartsSecret, StartsCi;
    var n := RunLen(t);
    var v, rest := t[..n], t[n..];
    HeadStarts(t, n);
    Shown(LongToken, v, rest);
    assert t == LongToken.Lead() + (v + rest);
  }

  lemma {:induction false} BearerIsSecret(t: string)
    requires HitOf(t, BearerValue(t)).Some?
    ensures StartsSecret(t)
  {
    hide UnquotedLen, Delimited, StartsSecret, AllWs, WsLen;
    var m := WsLen(t[6..]);
    var w, g, x := t[..6], t[6..6 + m], t[6 + m..];
    WsIsAll(t[6..], m);
    assert g == t[6..][..m];
    LenDelimited(x, false);
    var n := UnquotedLen(x, false);
    var s := AfterBearer(w, g);
    assert x[..n] + x[n..] == x && t == s.Lead() + x;
    Shown(s, x[..n], x[n..]);
  }

  lemma {:induction false} NamedIsSecret(t: string)
    requires HitOf(t, NamedValue(t)).Some?
    ensures StartsSecret(t)
  {
    hide UnquotedLen, QuotedLen, FirstKey, StartsCi, AfterKey, SpacesLen, Label.Valid, Label.Text, StartsSecret;
    var val := NamedValue(t).value;
    var key := FirstKey(t, SECRET_KEYS).value;
    FirstKeyFound(t, SECRET_KEYS);
    var j := AfterKey(t, |key|).value;
    var k := j + SpacesLen(t[j..]);
    var l := LabelOf(t, key);
    var x := t[k..];
    assert t == l.Text() + x;
    if val.kind.Unquoted? {
      WideName(l.name, key);
      BareIsSecret(l, x);
    } else {
      assert t[k + 1..] == x[1..];
      QuotedIsSecret(l, x);
    }
  }

  lemma {:induction false} BareIsSecret(l: Label, x: string)
    requires l.Valid() && (x == [] || x[0] != ' ')
    requires UnquotedLen(x, Spells(l.name, WIDE_KEY)) > 0
    ensures StartsSecret(l.Text() + x)
  {
    hide UnquotedLen, Delimited, StartsCi, Label.Valid, Label.Text, StartsSecret;
    var wide := Spells(l.name, WIDE_KEY);
    LenDelimited(x, wide);
    var n := UnquotedLen(x, wide);
    var s := Bare(l);
    var v, rest := x[..n], x[n..];
    assert x == v + rest;
    Shown(s, v, rest);
  }

  lemma {:induction false} QuotedIsSecret(l: Label, x: string)
    requires l.Valid() && x != [] && IsQuote(x[0]) && QuotedLen(x[1..], x[0]) > 0
    ensures StartsSecret(l.Text() + x)
  {
    hide Label.Valid, Label.Text, StartsSecret;
    var n := QuotedLen(x[1..], x[0]);
    var s := InQuotes(l, x[0]);
    var v, rest := x[1..][..n], x[1..][n..];
    assert x == [x[0]] + (v + rest);
    ConcatAssoc(l.Text(), [x[0]], v + rest);
    Shown(s, v, rest);
  }

  lemma {:induction false} LabelOf(t: string, key: string) returns (l: Label)
    requires key in SECRET_KEYS && StartsCi(t, key) && AfterKey(t, |key|).Some?
    ensures var j := AfterKey(t, |key|).value; var k := j + SpacesLen(t[j..]);
            k <= |t| && l.Valid() && l.Text() == t[..k] && Spells(l.name, key)
  {
    hide StartsCi, SpacesLen, Label.Text, IsQuote;
    var j := AfterKey(t, |key|).value;
    var pad := SpacesLen(t[j..]);
    var close := t[|key|..j - 1];
    l := Label(t[..|key|], close, t[j - 1], pad);
    NameSpells(t, key);
    LabelText(t, |key|, j, pad);
  }

  lemma NameSpells(t: string, key: string)
    requires StartsCi(t, key)
    ensures Spells(t[..|key|], key)
  {
  }

  lemma LabelText(t: string, k: nat, j: nat, pad: nat)
    requires k < j && j + pad <= |t| && forall i :: 0 <= i < pad ==> t[j..][i] == ' '
    ensures Label(t[..k], t[k..j - 1], t[j - 1], pad).Text() == t[..j + pad]
  {
    var spaces := seq(pad, _ => ' ');
    assert t[j..][..pad] == spaces;
    assert [t[j - 1]] + spaces == t[j - 1..j + pad];
    assert t[k..j - 1] + t[j - 1..j + pad] == t[k..j + pad];
    assert t[..k] + t[k..j + pad] == t[..j + pad];
  }

  // ----- what is masked -----

  /** Text without a secret is copied. */
  lemma {:induction false} ClearCopied(t: string, i: nat, n: nat)
    requires i <= n <= |t| && Clear(t, n)
    ensures Scan(Behind(t, i), t[i..]) == t[i..n] + Scan(Behind(t, n), t[n..])
    decreases n - i
  {
    hide HitAt, IsAlnum, StartsSecret, Scan, Clear;
    if i < n {
      ClearHere(t, i, n);
      ScanPlain(Behind(t, i), t[i..]);
      ClearCopied(t, i + 1, n);
      assert t[i..][1..] == t[i + 1..] && t[i..n] == [t[i]] + t[i + 1..n];
    }
  }

  lemma ClearHere(t: string, i: nat, n: nat)
    requires i < n <= |t| && Clear(t, n)
    ensures HitAt(Behind(t, i), t[i..]).None?
  {
    hide HitAt, IsAlnum, StartsSecret;
    if HitAt(Behind(t, i), t[i..]).Some? { HitIsSecret(Behind(t, i), t[i..]); }
    if Behind(t, i) { NothingBehindAlnum(t[i..]); }
  }

  lemma NothingBehindAlnum(t: string)
    ensures HitAt(true, t).None?
  {
  }

  /** A text that holds no secret is left as it is. */
  lemma {:induction false} NothingMasked(t: string)
    requires Clear(t, |t|)
    ensures Redacted(t) == t
  {
    ClearCopied(t, 0, |t|);
    assert t[0..] == t && t[0..|t|] == t;
  }

  /** The leftmost secret: everything up to its value is kept, the value gives way to the mask,
      and the scan goes on right behind it. */
  lemma {:induction false} SecretMasked(a: string, s: Secret, v: string, rest: string)
    requires s.Holds(v, rest) && (a == [] || !IsAlnum(a[|a| - 1]))
    requires Clear(a + (s.Lead() + (v + rest)), |a|)
    ensures Redacted(a + (s.Lead() + (v + rest))) == a + (s.Lead() + (MASK + Redacted(rest)))
  {
    hide HitAt, IsAlnum, Clear, Secret.Holds, Secret.Lead, Scan;
    var lead := s.Lead();
    var u := lead + (v + rest);
    var t := a + u;
    ClearCopied(t, 0, |a|);
    assert t[0..] == t && t[0..|a|] == a && t[|a|..] == u;
    assert a != [] ==> t[|a| - 1] == a[|a| - 1];
    SecretScanned(s, v, rest);
  }

  lemma {:induction false} SecretScanned(s: Secret, v: string, rest: string)
    requires s.Holds(v, rest)
    ensures Scan(false, s.Lead() + (v + rest)) == s.Lead() + (MASK + Redacted(rest))
  {
    hide HitAt, IsAlnum, Secret.Holds, Secret.Lead, Scan;
    var lead := s.Lead();
    var u := lead + (v + rest);
    SecretIsHit(s, v, rest);
    var h := HitAt(false, u).value;
    SplitAt(lead, v, rest);
    AfterHit(false, u);
    ScanOfHit(false, u, h);
    HeadIrrelevant(IsAlnum(u[h.end - 1]), rest);
    ConcatAssoc(lead, MASK, Redacted(rest));
  }

  lemma SplitAt(a: string, b: string, c: string)
    ensures var u := a + (b + c); var e := |a| + |b|;
            u[..|a|] == a && u[e..] == c && (c != [] ==> u[e] == c[0])
  {
  }

  /** Some span is masked exactly when a secret stands in the text. */
  lemma {:induction false} MaskedIff(t: string)
    ensures Spans(false, t, 0) != [] <==> !Clear(t, |t|)
  {
    hide Clear, ClearFrom, Spans;
    SpansFrom(t, 0);
    ClearFromStart(t);
    assert t[0..] == t;
  }

  lemma ClearFromStart(t: string)
    ensures ClearFrom(t, 0) <==> Clear(t, |t|)
  {
    hide StartsSecret;
  }

  lemma {:induction false} SpansFrom(t: string, i: nat)
    requires i <= |t|
    ensures Spans(Behind(t, i), t[i..], i) == [] <==> ClearFrom(t, i)
    decreases |t| - i
  {
    hide HitAt, StartsSecret, IsAlnum;
    if i < |t| {
      var u := t[i..];
      assert u[1..] == t[i + 1..];
      SpansFrom(t, i + 1);
      if HitAt(Behind(t, i), u).Some? { HitIsSecret(Behind(t, i), u); }
      if Behind(t, i) { NothingBehindAlnum(u); } else if StartsSecret(u) { SecretHit(u); }
    }
  }

  /** Behind a text without letters no secret starts too early. */
  lemma {:induction false} MaskedBehindSigns(a: string, s: Secret, v: string, rest: string)
    requires s.Holds(v, rest) && NoLetters(a) && (a == [] || !IsAlnum(a[|a| - 1]))
    ensures Redacted(a + (s.Lead() + (v + rest))) == a + (s.Lead() + (MASK + Redacted(rest)))
  {
    hide HitAt, StartsSecret, IsLetter;
    var t := a + (s.Lead() + (v + rest));
    forall i | 0 <= i < |a| ensures !StartsSecret(t[i..]) {
      if StartsSecret(t[i..]) {
        assert t[i..][0] == a[i];
        SecretHit(t[i..]);
        PlainHead(false, t[i..]);
      }
    }
    SecretMasked(a, s, v, rest);
  }
}
