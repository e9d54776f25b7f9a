/** Landing a skill directory: files written one by one, `SKILL.md` last, then
    what the new version no longer carries pruned. */
module Skills {
  import opened Basics
  import opened TextLines

  datatype File = File(path: string, bytes: Bytes)

  /** The files below the skill's directory, by `/`-separated path. */
  type Disk = map<string, Bytes>

  const SKILL_MD := "SKILL.md"

  // ----- paths -----

  function Parts(path: string): (ps: seq<string>)
    ensures ps != []
  {
    if path == [] then [""]
    else if path[0] == '/' then [""] + Parts(path[1..])
    else
      var rest := Parts(path[1..]);
      [[path[0]] + rest[0]] + rest[1..]
  }

  /** `safe_join` accepts the path. */
  predicate Safe(path: string) {
    forall p :: p in Parts(path) ==> p != "" && p != "." && p != ".." && '\\' !in p
  }

  predicate IsNoiseDir(name: string) {
    name == ".git" || name == ".github" || name == "node_modules" || name == "__pycache__"
  }

  /** `walk_files` reaches the file: no directory above it is skipped. */
  predicate Visible(path: string) {
    var ps := Parts(path);
    forall i :: 0 <= i < |ps| - 1 ==> !IsNoiseDir(ps[i])
  }

  // ----- what the path predicates say of the text -----

  ghost predicate Occurs(t: string, w: string) { exists i :: 0 <= i <= |t| && w <= t[i..] }

  /** `n` is the name of a directory above the file. */
  predicate IsDirAbove(path: string, n: string) { n in Parts(path)[..|Parts(path)| - 1] }

  /** The first part ends at the first slash. */
  lemma {:induction false} FirstPart(path: string)
    ensures var ps := Parts(path); var k := |ps[0]|;
            && k <= |path| && ps[0] == path[..k] && '/' !in ps[0]
            && (|ps| == 1 ==> k == |path|)
            && (|ps| > 1 ==> k < |path| && path[k] == '/' && ps[1..] == Parts(path[k + 1..]))
  {
    if path != [] && path[0] != '/' {
      FirstPart(path[1..]);
      var rest := Parts(path[1..]);
      assert path[1..][..|rest[0]|] == path[1..|rest[0]| + 1];
      assert |rest| > 1 ==> path[1..][|rest[0]| + 1..] == path[|rest[0]| + 2..];
    }
  }

  lemma {:induction false} OccursLater(path: string, k: nat, n: string)
    requires k < |path| && path[k] == '/' && '/' !in path[..k] && '/' !in n
    ensures var w := "/" + n + "/";
            Occurs("/" + path, w) <==> n == path[..k] || Occurs("/" + path[k + 1..], w)
  {
    hide Occurs;
    var w, t := "/" + n + "/", "/" + path;
    assert t[k + 1..] == "/" + path[k + 1..];
    OccursSplit(path, k, w);
    if w <= t { HeadIsPart(path, k, n); }
    if n == path[..k] { assert t == w + path[k + 1..]; }
  }

  lemma {:induction false} OccursSplit(path: string, k: nat, w: string)
    requires k < |path| && '/' !in path[..k] && w != [] && w[0] == '/'
    ensures var t := "/" + path; Occurs(t, w) <==> w <= t || Occurs(t[k + 1..], w)
  {
    var t := "/" + path;
    assert t[0..] == t;
    if Occurs(t, w) {
      var i :| 0 <= i <= |t| && w <= t[i..];
      OccursAtSlash(path, k, t, w, i);
      if i > 0 { OccursBehind(t, w, k + 1, i); }
    }
    if Occurs(t[k + 1..], w) { OccursBefore(t, w, k + 1); }
  }

  lemma OccursBehind(t: string, w: string, k: nat, i: nat)
    requires k <= i <= |t| && w <= t[i..]
    ensures Occurs(t[k..], w)
  {
    assert t[k..][i - k..] == t[i..];
  }

  lemma OccursBefore(t: string, w: string, k: nat)
    requires k <= |t| && Occurs(t[k..], w)
    ensures Occurs(t, w)
  {
    var i :| 0 <= i <= |t[k..]| && w <= t[k..][i..];
    assert t[k..][i..] == t[k + i..];
  }

  lemma OccursAtSlash(path: string, k: nat, t: string, w: string, i: nat)
    requires k < |path| && '/' !in path[..k] && t == "/" + path && i <= |t|
    requires w != [] && w[0] == '/' && w <= t[i..]
    ensures i == 0 || i > k
  {
    NoSlashIn(path[..k]);
    assert forall j :: 0 < j <= k ==> t[j] == path[..k][j - 1];
    assert t[i..][0] == w[0];
  }

  lemma HeadIsPart(path: string, k: nat, n: string)
    requires k < |path| && path[k] == '/' && '/' !in path[..k] && '/' !in n && "/" + n + "/" <= "/" + path
    ensures n == path[..k]
  {
    var w, t := "/" + n + "/", "/" + path;
    assert forall j :: 0 <= j < |w| ==> w[j] == t[j];
    assert forall j :: 0 <= j < |n| ==> n[j] == w[j + 1] && path[j] == t[j + 1];
    assert w[|n| + 1] == '/' && path[|n|] == t[|n| + 1];
    NoSlashIn(n);
    NoSlashIn(path[..k]);
    assert forall j :: 0 <= j < k ==> path[j] == path[..k][j];
  }

  lemma {:induction false} NoSlashNoDir(path: string, n: string)
    requires '/' !in path
    ensures !Occurs("/" + path, "/" + n + "/")
  {
    var t, w := "/" + path, "/" + n + "/";
    NoSlashIn(path);
    assert forall i :: 0 < i < |t| ==> t[i] == path[i - 1];
    assert w[|n| + 1] == '/';
  }

  lemma NoSlashIn(s: string)
    requires '/' !in s
    ensures forall i :: 0 <= i < |s| ==> s[i] != '/'
  {
  }

  /** A directory above the file is what stands between two slashes, the path taken to begin with one. */
  lemma {:induction false} DirAboveIff(path: string, n: string)
    requires '/' !in n
    ensures IsDirAbove(path, n) <==> Occurs("/" + path, "/" + n + "/")
    decreases |path|
  {
    hide Occurs, Parts;
    FirstPart(path);
    var ps := Parts(path);
    var k := |ps[0]|;
    if |ps| == 1 {
      NoSlashNoDir(path, n);
    } else {
      DirAboveIff(path[k + 1..], n);
      OccursLater(path, k, n);
      assert ps[..|ps| - 1] == [ps[0]] + ps[1..][..|ps[1..]| - 1];
    }
  }

  /** The walk reaches a file exactly when none of the four names stands above it. */
  lemma {:induction false} VisibleIff(path: string)
    ensures Visible(path) <==>
              && !Occurs("/" + path, "/.git/") && !Occurs("/" + path, "/.github/")
              && !Occurs("/" + path, "/node_modules/") && !Occurs("/" + path, "/__pycache__/")
  {
    hide Occurs, Parts;
    DirAboveIff(path, ".git");
    DirAboveIff(path, ".github");
    DirAboveIff(path, "node_modules");
    DirAboveIff(path, "__pycache__");
    NoiseMarks();
    var dirs := Parts(path)[..|Parts(path)| - 1];
    assert Visible(path) <==> forall d :: d in dirs ==> !IsNoiseDir(d);
  }

  lemma NoiseMarks()
    ensures "/" + ".git" + "/" == "/.git/" && "/" + ".github" + "/" == "/.github/"
    ensures "/" + "node_modules" + "/" == "/node_modules/" && "/" + "__pycache__" + "/" == "/__pycache__/"
  {
  }

  lemma {:induction false} PartsSlash(path: string)
    ensures Parts(path + "/") == Parts(path) + [""]
  {
    if path == [] {
      assert path + "/" == "/" && "/"[1..] == [];
    } else {
      assert (path + "/")[1..] == path[1..] + "/";
      PartsSlash(path[1..]);
    }
  }

  lemma {:induction false} PartIff(path: string, n: string)
    requires '/' !in n
    ensures n in Parts(path) <==> Occurs("/" + (path + "/"), "/" + n + "/")
  {
    hide Occurs, Parts;
    PartsSlash(path);
    assert (Parts(path) + [""])[..|Parts(path)|] == Parts(path);
    DirAboveIff(path + "/", n);
  }

  lemma {:induction false} BackslashIff(path: string)
    ensures '\\' in path <==> exists p :: p in Parts(path) && '\\' in p
    decreases |path|
  {
    hide Parts;
    FirstPart(path);
    var ps := Parts(path);
    var k := |ps[0]|;
    if |ps| == 1 {
      assert path[..k] == path && ps == [path];
    } else {
      BackslashIff(path[k + 1..]);
      assert path == path[..k] + ("/" + path[k + 1..]) && ps == [ps[0]] + ps[1..];
      assert '\\' in path <==> '\\' in path[..k] || '\\' in path[k + 1..];
    }
  }

  /** A path is accepted exactly when it holds no backslash, no empty part, and no part that is one or two dots. */
  lemma {:induction false} SafeIff(path: string)
    ensures var t := "/" + (path + "/");
            Safe(path) <==> '\\' !in path && !Occurs(t, "//") && !Occurs(t, "/./") && !Occurs(t, "/../")
  {
    hide Occurs, Parts;
    BackslashIff(path);
    PartIff(path, "");
    PartIff(path, ".");
    PartIff(path, "..");
    assert "/" + "" + "/" == "//" && "/" + "." + "/" == "/./" && "/" + ".." + "/" == "/../";
  }

  // ----- the bundle -----

  predicate HasSkillMd(bundle: seq<File>) {
    exists i :: 0 <= i < |bundle| && bundle[i].path == SKILL_MD
  }

  function SkillMd(bundle: seq<File>): Bytes
    requires HasSkillMd(bundle)
  {
    if bundle[0].path == SKILL_MD then bundle[0].bytes else SkillMd(bundle[1..])
  }

  function Others(bundle: seq<File>): seq<File> {
    if bundle == [] then []
    else (if bundle[0].path == SKILL_MD then [] else [bundle[0]]) + Others(bundle[1..])
  }

  /** The order in which a bundle is written. */
  function Order(bundle: seq<File>): seq<File>
    requires HasSkillMd(bundle)
  {
    Others(bundle) + [File(SKILL_MD, SkillMd(bundle))]
  }

  predicate Distinct(bundle: seq<File>) {
    forall i, j :: 0 <= i < j < |bundle| ==> bundle[i].path != bundle[j].path
  }

  predicate Carries(bundle: seq<File>, path: string) {
    exists i :: 0 <= i < |bundle| && bundle[i].path == path
  }

  /** The disk holds every one of the files. */
  predicate Holds(d: Disk, files: seq<File>) {
    forall i :: 0 <= i < |files| ==> files[i].path in d && d[files[i].path] == files[i].bytes
  }

  // ----- writing -----

  /** The temporary sibling a file is written to first. */
  function Tmp(path: string, stamp: string): string { path + ".tmp-" + stamp }

  /** The states of `write_atomic`: the temporary file grows, the old file goes, the rename lands. */
  function Write(d: Disk, f: File, tmp: string): seq<Disk> {
    seq(|f.bytes| + 1, (i: nat) requires i <= |f.bytes| => d[tmp := f.bytes[..i]])
    + (if f.path in d then [d[tmp := f.bytes] - {f.path}] else [])
    + [(d - {f.path, tmp})[f.path := f.bytes]]
  }

  function Landed(d: Disk, f: File, tmp: string): Disk { (d - {f.path, tmp})[f.path := f.bytes] }

  /** The states while files are written one after the other; `stamp` names the n-th temporary file. */
  function Writes(d: Disk, files: seq<File>, stamp: nat -> string, n: nat): seq<Disk>
    decreases |files|
  {
    if files == [] then []
    else
      var tmp := Tmp(files[0].path, stamp(n));
      Write(d, files[0], tmp) + Writes(Landed(d, files[0], tmp), files[1..], stamp, n + 1)
  }

  function AfterWrites(d: Disk, files: seq<File>, stamp: nat -> string, n: nat): Disk
    decreases |files|
  {
    if files == [] then d
    else AfterWrites(Landed(d, files[0], Tmp(files[0].path, stamp(n))), files[1..], stamp, n + 1)
  }

  /** The files up to the first one whose path is refused. */
  function SafePrefix(files: seq<File>): seq<File> {
    if files == [] || !Safe(files[0].path) then [] else [files[0]] + SafePrefix(files[1..])
  }

  predicate AllSafe(files: seq<File>) { |SafePrefix(files)| == |files| }

  // ----- pruning -----

  /** The states of `prune_stale` when the walk lists `walk`. */
  function Prune(d: Disk, walk: seq<string>, keep: seq<File>): seq<Disk>
    decreases |walk|
  {
    if walk == [] then []
    else if Carries(keep, walk[0]) then Prune(d, walk[1..], keep)
    else [d - {walk[0]}] + Prune(d - {walk[0]}, walk[1..], keep)
  }

  function Pruned(d: Disk, walk: seq<string>, keep: seq<File>): Disk
    decreases |walk|
  {
    if walk == [] then d
    else Pruned(if Carries(keep, walk[0]) then d else d - {walk[0]}, walk[1..], keep)
  }

  /** The walk lists exactly the visible files, in whatever order. */
  ghost predicate Walks(d: Disk, walk: seq<string>) {
    forall p :: p in walk <==> p in d && Visible(p)
  }

  /** Every state of `land_bundle`; it stops at the first refused path. */
  function Land(d: Disk, bundle: seq<File>, stamp: nat -> string, walk: seq<string>): seq<Disk>
    requires HasSkillMd(bundle)
  {
    var files := SafePrefix(Order(bundle));
    Writes(d, files, stamp, 0)
    + (if AllSafe(Order(bundle)) then Prune(AfterWrites(d, files, stamp, 0), walk, bundle) else [])
  }

  function LandedAll(d: Disk, bundle: seq<File>, stamp: nat -> string, walk: seq<string>): Disk
    requires HasSkillMd(bundle)
  {
    var files := SafePrefix(Order(bundle));
    var after := AfterWrites(d, files, stamp, 0);
    if AllSafe(Order(bundle)) then Pruned(after, walk, bundle) else after
  }

  /** No temporary name is the name of a bundle file. */
  predicate Fresh(files: seq<File>, stamp: nat -> string, n: nat, all: seq<File>) {
    forall i, j :: 0 <= i < |files| && 0 <= j < |all| ==> Tmp(files[i].path, stamp(n + i)) != all[j].path
  }

  // ----- what writing leaves alone -----

  predicate SameAt(a: Disk, b: Disk, p: string) {
    (p in a <==> p in b) && (p in a && p in b ==> a[p] == b[p])
  }

  lemma WriteFrame(d: Disk, f: File, tmp: string, k: nat, p: string)
    requires k < |Write(d, f, tmp)| && p != f.path && p != tmp
    ensures SameAt(Write(d, f, tmp)[k], d, p)
  {
  }

  predicate Untouched(files: seq<File>, stamp: nat -> string, n: nat, p: string) {
    forall i :: 0 <= i < |files| ==> p != files[i].path && p != Tmp(files[i].path, stamp(n + i))
  }

  lemma UntouchedTail(files: seq<File>, stamp: nat -> string, n: nat, p: string)
    requires files != [] && Untouched(files, stamp, n, p)
    ensures Untouched(files[1..], stamp, n + 1, p)
    ensures p != files[0].path && p != Tmp(files[0].path, stamp(n))
  {
    forall i | 0 <= i < |files[1..]| ensures p != files[1..][i].path && p != Tmp(files[1..][i].path, stamp(n + 1 + i)) {
      assert files[1..][i] == files[i + 1];
      assert n + 1 + i == n + (i + 1);
    }
    assert n + 0 == n;
  }

  lemma {:induction false} WritesFrame(d: Disk, files: seq<File>, stamp: nat -> string, n: nat, k: nat, p: string)
    requires k < |Writes(d, files, stamp, n)| && Untouched(files, stamp, n, p)
    ensures SameAt(Writes(d, files, stamp, n)[k], d, p)
    decreases |files|
  {
    var tmp := Tmp(files[0].path, stamp(n));
    UntouchedTail(files, stamp, n, p);
    var first := Write(d, files[0], tmp);
    if k < |first| {
      WriteFrame(d, files[0], tmp, k, p);
    } else {
      WritesFrame(Landed(d, files[0], tmp), files[1..], stamp, n + 1, k - |first|, p);
    }
  }

  lemma {:induction false} AfterWritesFrame(d: Disk, files: seq<File>, stamp: nat -> string, n: nat, p: string)
    requires Untouched(files, stamp, n, p)
    ensures SameAt(AfterWrites(d, files, stamp, n), d, p)
    decreases |files|
  {
    if files != [] {
      UntouchedTail(files, stamp, n, p);
      AfterWritesFrame(Landed(d, files[0], Tmp(files[0].path, stamp(n))), files[1..], stamp, n + 1, p);
    }
  }

  /** Once written, the files are all there. */
  lemma {:induction false} AllWritten(d: Disk, files: seq<File>, stamp: nat -> string, n: nat)
    requires Distinct(files) && Fresh(files, stamp, n, files)
    ensures Holds(AfterWrites(d, files, stamp, n), files)
    decreases |files|
  {
    if files != [] {
      var next := Landed(d, files[0], Tmp(files[0].path, stamp(n)));
      var rest := files[1..];
      forall i, j | 0 <= i < |rest| && 0 <= j < |rest| ensures Tmp(rest[i].path, stamp(n + 1 + i)) != rest[j].path {
        assert rest[i] == files[i + 1] && rest[j] == files[j + 1];
        assert n + 1 + i == n + (i + 1);
      }
      AllWritten(next, rest, stamp, n + 1);
      forall i | 0 <= i < |rest|
        ensures files[0].path != rest[i].path && files[0].path != Tmp(rest[i].path, stamp(n + 1 + i))
      {
        assert rest[i] == files[i + 1];
        assert n + 1 + i == n + (i + 1);
      }
      AfterWritesFrame(next, rest, stamp, n + 1, files[0].path);
      var after := AfterWrites(next, rest, stamp, n + 1);
      forall i | 0 <= i < |files| ensures files[i].path in after && after[files[i].path] == files[i].bytes {
        if i > 0 { assert files[i] == rest[i - 1]; }
      }
    }
  }

  /** What is there afterwards and not written was there before. */
  lemma {:induction false} NothingElse(d: Disk, files: seq<File>, stamp: nat -> string, n: nat, p: string)
    requires !Carries(files, p) && p in AfterWrites(d, files, stamp, n)
    ensures p in d && AfterWrites(d, files, stamp, n)[p] == d[p]
    decreases |files|
  {
    if files != [] {
      assert files[0].path != p;
      assert forall i :: 0 <= i < |files[1..]| ==> files[1..][i] == files[i + 1];
      NothingElse(Landed(d, files[0], Tmp(files[0].path, stamp(n))), files[1..], stamp, n + 1, p);
    }
  }

  // ----- what pruning leaves -----

  lemma {:induction false} PruneFrame(d: Disk, walk: seq<string>, keep: seq<File>, k: nat, p: string)
    requires k < |Prune(d, walk, keep)| && Carries(keep, p)
    ensures SameAt(Prune(d, walk, keep)[k], d, p)
    decreases |walk|
  {
    if Carries(keep, walk[0]) {
      PruneFrame(d, walk[1..], keep, k, p);
    } else if k > 0 {
      PruneFrame(d - {walk[0]}, walk[1..], keep, k - 1, p);
    }
  }

  lemma {:induction false} PrunedFacts(d: Disk, walk: seq<string>, keep: seq<File>, p: string)
    ensures p in Pruned(d, walk, keep) <==> p in d && (p !in walk || Carries(keep, p))
    ensures p in Pruned(d, walk, keep) ==> Pruned(d, walk, keep)[p] == d[p]
    decreases |walk|
  {
    if walk != [] {
      PrunedFacts(if Carries(keep, walk[0]) then d else d - {walk[0]}, walk[1..], keep, p);
      assert p in walk <==> p == walk[0] || p in walk[1..];
    }
  }

  // ----- the order of writing -----

  lemma {:induction false} OthersFacts(bundle: seq<File>)
    requires Distinct(bundle)
    ensures Distinct(Others(bundle))
    ensures forall f :: f in Others(bundle) <==> f in bundle && f.path != SKILL_MD
  {
    if bundle != [] {
      var rest := bundle[1..];
      assert bundle == [bundle[0]] + rest;
      OthersFacts(rest);
      var more := Others(rest);
      forall j | 0 <= j < |more| ensures more[j].path != bundle[0].path {
        assert more[j] in rest;
        var k :| 0 <= k < |rest| && rest[k] == more[j];
        assert bundle[k + 1] == rest[k];
      }
    }
  }

  lemma {:induction false} SkillMdFacts(bundle: seq<File>)
    requires HasSkillMd(bundle)
    ensures File(SKILL_MD, SkillMd(bundle)) in bundle
  {
    if bundle[0].path != SKILL_MD {
      var i :| 0 <= i < |bundle| && bundle[i].path == SKILL_MD;
      assert bundle[1..][i - 1] == bundle[i];
      SkillMdFacts(bundle[1..]);
    }
  }

  /** The files of the bundle in another order, `SKILL.md` last. */
  lemma {:induction false} OrderFacts(bundle: seq<File>)
    requires HasSkillMd(bundle) && Distinct(bundle)
    ensures Distinct(Order(bundle))
    ensures forall f :: f in Order(bundle) <==> f in bundle
    ensures forall p :: Carries(Order(bundle), p) <==> Carries(bundle, p)
  {
    OthersFacts(bundle);
    SkillMdFacts(bundle);
    var order, others, md := Order(bundle), Others(bundle), File(SKILL_MD, SkillMd(bundle));
    assert forall i :: 0 <= i < |others| ==> others[i] in others;
    forall f | f in bundle && f.path == SKILL_MD ensures f == md {
      var i :| 0 <= i < |bundle| && bundle[i] == f;
      var j :| 0 <= j < |bundle| && bundle[j] == md;
      assert i == j;
    }
    forall p ensures Carries(order, p) <==> Carries(bundle, p) {
      if Carries(order, p) {
        var i :| 0 <= i < |order| && order[i].path == p;
        assert order[i] in bundle;
      }
      if Carries(bundle, p) {
        var i :| 0 <= i < |bundle| && bundle[i].path == p;
        assert bundle[i] in order;
      }
    }
  }

  lemma {:induction false} SafePrefixFacts(a: seq<File>, f: File)
    requires Safe(f.path)
    ensures SafePrefix(a + [f]) == if AllSafe(a) then a + [f] else SafePrefix(a)
    ensures |SafePrefix(a)| <= |a| && (AllSafe(a) ==> SafePrefix(a) == a)
    ensures SafePrefix(a) <= a
  {
    if a == [] {
      assert a + [f] == [f] && [f][1..] == [];
    } else {
      assert (a + [f])[1..] == a[1..] + [f];
      SafePrefixFacts(a[1..], f);
    }
  }

  lemma SkillMdIsSafe()
    ensures Safe(SKILL_MD) && Visible(SKILL_MD)
  {
    var p := SKILL_MD;
    OnePart(p);
  }

  lemma {:induction false} OnePart(p: string)
    requires '/' !in p
    ensures Parts(p) == [p]
  {
    if p != [] {
      OnePart(p[1..]);
      assert [p[0]] + p[1..] == p && [p[1..]][1..] == [];
    }
  }

  lemma {:induction false} WritesConcat(d: Disk, a: seq<File>, b: seq<File>, stamp: nat -> string, n: nat)
    ensures Writes(d, a + b, stamp, n)
         == Writes(d, a, stamp, n) + Writes(AfterWrites(d, a, stamp, n), b, stamp, n + |a|)
    ensures AfterWrites(d, a + b, stamp, n) == AfterWrites(AfterWrites(d, a, stamp, n), b, stamp, n + |a|)
    decreases |a|
  {
    hide Write, Landed;
    if a == [] {
      assert a + b == b;
    } else {
      var tmp := Tmp(a[0].path, stamp(n));
      var next := Landed(d, a[0], tmp);
      assert (a + b)[0] == a[0] && (a + b)[1..] == a[1..] + b;
      WritesConcat(next, a[1..], b, stamp, n + 1);
      assert n + 1 + |a[1..]| == n + |a|;
      ConcatAssoc(Write(d, a[0], tmp), Writes(next, a[1..], stamp, n + 1),
                  Writes(AfterWrites(d, a, stamp, n), b, stamp, n + |a|));
    }
  }

  // ----- an interrupted installation reads as not installed -----

  /** Where `SKILL.md` is, every other file of the bundle is. */
  predicate Complete(d: Disk, bundle: seq<File>) {
    SKILL_MD in d ==> Holds(d, Others(bundle))
  }

  /** The names of temporary files are fresh, and the bundle names no file twice. */
  predicate Sound(bundle: seq<File>, stamp: nat -> string) {
    HasSkillMd(bundle) && Distinct(bundle) && Fresh(Order(bundle), stamp, 0, Order(bundle))
  }

  lemma OthersLeaveSkillMd(bundle: seq<File>, files: seq<File>, stamp: nat -> string)
    requires Sound(bundle, stamp) && files <= Others(bundle)
    ensures Untouched(files, stamp, 0, SKILL_MD)
  {
    OthersFacts(bundle);
    var order := Order(bundle);
    assert order[|order| - 1].path == SKILL_MD;
    forall i | 0 <= i < |files| ensures SKILL_MD != files[i].path && SKILL_MD != Tmp(files[i].path, stamp(0 + i)) {
      assert files[i] == Others(bundle)[i] && Others(bundle)[i] in Others(bundle);
      assert files[i] == order[i];
    }
  }

  lemma OthersHeld(d: Disk, bundle: seq<File>, stamp: nat -> string)
    requires Sound(bundle, stamp)
    ensures Holds(AfterWrites(d, Others(bundle), stamp, 0), Others(bundle))
  {
    OthersFacts(bundle);
    var order, others := Order(bundle), Others(bundle);
    forall i, j | 0 <= i < |others| && 0 <= j < |others| ensures Tmp(others[i].path, stamp(0 + i)) != others[j].path {
      assert others[i] == order[i] && others[j] == order[j];
    }
    AllWritten(d, others, stamp, 0);
  }

  /** While `SKILL.md` itself is written the other files stay. */
  lemma LastWriteHolds(d: Disk, bundle: seq<File>, stamp: nat -> string, k: nat)
    requires Sound(bundle, stamp) && Holds(d, Others(bundle))
    requires var f := File(SKILL_MD, SkillMd(bundle)); k < |Write(d, f, Tmp(f.path, stamp(|Others(bundle)|)))|
    ensures var f := File(SKILL_MD, SkillMd(bundle));
            Holds(Write(d, f, Tmp(f.path, stamp(|Others(bundle)|)))[k], Others(bundle))
    ensures var f := File(SKILL_MD, SkillMd(bundle));
            Holds(Landed(d, f, Tmp(f.path, stamp(|Others(bundle)|))), Others(bundle))
  {
    OthersFacts(bundle);
    var order, others, f := Order(bundle), Others(bundle), File(SKILL_MD, SkillMd(bundle));
    var tmp := Tmp(f.path, stamp(|others|));
    forall i | 0 <= i < |others|
      ensures others[i].path in Write(d, f, tmp)[k] && Write(d, f, tmp)[k][others[i].path] == others[i].bytes
      ensures others[i].path != tmp && others[i].path != f.path
    {
      assert others[i] in others && others[i] == order[i] && order[|others|] == f;
      assert Tmp(order[|others|].path, stamp(0 + |others|)) != order[i].path;
      WriteFrame(d, f, tmp, k, others[i].path);
    }
  }

  lemma PruneHolds(d: Disk, walk: seq<string>, bundle: seq<File>, k: nat)
    requires Distinct(bundle) && Holds(d, Others(bundle)) && k < |Prune(d, walk, bundle)|
    ensures Holds(Prune(d, walk, bundle)[k], Others(bundle))
  {
    OthersFacts(bundle);
    var others := Others(bundle);
    forall i | 0 <= i < |others|
      ensures others[i].path in Prune(d, walk, bundle)[k]
           && Prune(d, walk, bundle)[k][others[i].path] == others[i].bytes
    {
      assert others[i] in others && others[i] in bundle;
      PruneFrame(d, walk, bundle, k, others[i].path);
    }
  }

  /** How landing splits: the other files, `SKILL.md`, the pruning. */
  lemma LandParts(d: Disk, bundle: seq<File>, stamp: nat -> string, walk: seq<string>)
    requires Sound(bundle, stamp)
    ensures var others, f := Others(bundle), File(SKILL_MD, SkillMd(bundle));
            var mid, tmp := AfterWrites(d, others, stamp, 0), Tmp(SKILL_MD, stamp(|others|));
            if AllSafe(Order(bundle)) then
              && Land(d, bundle, stamp, walk)
                 == Writes(d, others, stamp, 0) + Write(mid, f, tmp) + Prune(Landed(mid, f, tmp), walk, bundle)
              && AfterWrites(d, Order(bundle), stamp, 0) == Landed(mid, f, tmp)
              && SafePrefix(Order(bundle)) == Order(bundle)
            else
              && SafePrefix(Order(bundle)) <= others
              && Land(d, bundle, stamp, walk) == Writes(d, SafePrefix(Order(bundle)), stamp, 0)
  {
    var others, f := Others(bundle), File(SKILL_MD, SkillMd(bundle));
    var mid, tmp := AfterWrites(d, others, stamp, 0), Tmp(SKILL_MD, stamp(|others|));
    SkillMdIsSafe();
    SafePrefixFacts(others, f);
    WritesConcat(d, others, [f], stamp, 0);
    assert 0 + |others| == |others| && [f][1..] == [];
    assert Writes(mid, [f], stamp, |others|) == Write(mid, f, tmp) + [];
    assert Write(mid, f, tmp) + [] == Write(mid, f, tmp);
    assert AfterWrites(mid, [f], stamp, |others|) == Landed(mid, f, tmp);
  }

  /** Installing into a directory without `SKILL.md`: whenever the process stops, the presence of `SKILL.md`
      means that every other file of the bundle is there with its bytes. */
  lemma {:induction false} LandSafe(d: Disk, bundle: seq<File>, stamp: nat -> string, walk: seq<string>, k: nat)
    requires Sound(bundle, stamp) && SKILL_MD !in d
    requires k < |Land(d, bundle, stamp, walk)|
    ensures Complete(Land(d, bundle, stamp, walk)[k], bundle)
  {
    hide Writes, Write, Prune, Land, Others, Order, AllSafe, Holds, Fresh;
    var others, f := Others(bundle), File(SKILL_MD, SkillMd(bundle));
    var mid, tmp := AfterWrites(d, others, stamp, 0), Tmp(SKILL_MD, stamp(|others|));
    LandParts(d, bundle, stamp, walk);
    if AllSafe(Order(bundle)) {
      var a, b, c := Writes(d, others, stamp, 0), Write(mid, f, tmp), Prune(Landed(mid, f, tmp), walk, bundle);
      OthersHeld(d, bundle, stamp);
      if k < |a| {
        OthersLeaveSkillMd(bundle, others, stamp);
        WritesFrame(d, others, stamp, 0, k, SKILL_MD);
      } else if k < |a| + |b| {
        LastWriteHolds(mid, bundle, stamp, k - |a|);
      } else {
        WriteIsSome(mid, f, tmp);
        LastWriteHolds(mid, bundle, stamp, 0);
        PruneHolds(Landed(mid, f, tmp), walk, bundle, k - |a| - |b|);
      }
    } else {
      OthersLeaveSkillMd(bundle, SafePrefix(Order(bundle)), stamp);
      WritesFrame(d, SafePrefix(Order(bundle)), stamp, 0, k, SKILL_MD);
    }
  }

  lemma WriteIsSome(d: Disk, f: File, tmp: string)
    ensures |Write(d, f, tmp)| > 0
  {
  }

  /** Over an installed skill this only holds when `SKILL.md` is all there is to the bundle: otherwise some
      state has `SKILL.md` and lacks another file. */
  lemma {:induction false} LandSafeIff(d: Disk, bundle: seq<File>, stamp: nat -> string, walk: seq<string>)
    requires Sound(bundle, stamp) && AllSafe(Order(bundle))
    ensures (forall k :: 0 <= k < |Land(d, bundle, stamp, walk)| ==> Complete(Land(d, bundle, stamp, walk)[k], bundle))
       <==> SKILL_MD !in d || Others(bundle) == []
  {
    var trail := Land(d, bundle, stamp, walk);
    if SKILL_MD !in d {
      forall k | 0 <= k < |trail| ensures Complete(trail[k], bundle) { LandSafe(d, bundle, stamp, walk, k); }
    } else if Others(bundle) == [] {
      forall k | 0 <= k < |trail| ensures Complete(trail[k], bundle) { }
    } else {
      var k := FirstGap(d, bundle, stamp, walk);
      assert !Complete(trail[k], bundle);
    }
  }

  lemma {:induction false} FirstGap(d: Disk, bundle: seq<File>, stamp: nat -> string, walk: seq<string>)
    returns (k: nat)
    requires Sound(bundle, stamp) && AllSafe(Order(bundle)) && SKILL_MD in d && Others(bundle) != []
    ensures k < |Land(d, bundle, stamp, walk)| && !Complete(Land(d, bundle, stamp, walk)[k], bundle)
  {
    hide Land, Order, AllSafe, Others;
    LandParts(d, bundle, stamp, walk);
    OthersLeaveSkillMd(bundle, Others(bundle), stamp);
    var f := Others(bundle)[0];
    var tmp := Tmp(f.path, stamp(0));
    var first := Write(d, f, tmp);
    FirstIsFresh(bundle, stamp);
    k := if f.path in d then |f.bytes| + 1 else 0;
    assert stamp(0) == stamp(0 + 0);
    assert SKILL_MD in first[k] && f.path !in first[k];
    assert Writes(d, Others(bundle), stamp, 0)[k] == first[k];
  }

  lemma FirstIsFresh(bundle: seq<File>, stamp: nat -> string)
    requires Sound(bundle, stamp) && Others(bundle) != []
    ensures Tmp(Others(bundle)[0].path, stamp(0)) != Others(bundle)[0].path
  {
    assert Order(bundle)[0] == Others(bundle)[0];
    assert stamp(0) == stamp(0 + 0);
  }

  const NOTES_MD := "notes.md"

  /** Landing any two-file bundle over an installed skill passes such a state, whatever the bytes, the names of
      the temporary files and the directory's other files. */
  lemma {:induction false} UpdateExposesGap(d: Disk, md: Bytes, notes: Bytes, stamp: nat -> string, walk: seq<string>)
    returns (k: nat)
    requires SKILL_MD in d
    ensures var bundle := [File(SKILL_MD, md), File(NOTES_MD, notes)];
            && Sound(bundle, stamp) && k < |Land(d, bundle, stamp, walk)|
            && var state := Land(d, bundle, stamp, walk)[k];
               SKILL_MD in state && !Holds(state, [File(NOTES_MD, notes)])
  {
    hide Land, Holds;
    var bundle := [File(SKILL_MD, md), File(NOTES_MD, notes)];
    TwoFiles(md, notes, stamp);
    k := FirstGap(d, bundle, stamp, walk);
  }

  lemma {:induction false} TwoFiles(md: Bytes, notes: Bytes, stamp: nat -> string)
    ensures var bundle := [File(SKILL_MD, md), File(NOTES_MD, notes)];
            Sound(bundle, stamp) && AllSafe(Order(bundle)) && Others(bundle) == [File(NOTES_MD, notes)]
  {
    hide Safe;
    var bundle := [File(SKILL_MD, md), File(NOTES_MD, notes)];
    SkillMdIsSafe();
    NotesIsSafe();
    assert SKILL_MD[0] == 'S' && NOTES_MD[0] == 'n';
    assert bundle[0].path == SKILL_MD && bundle[1..] == [File(NOTES_MD, notes)] && bundle[1..][1..] == [];
    var order := [File(NOTES_MD, notes), File(SKILL_MD, md)];
    assert Others(bundle[1..]) == [File(NOTES_MD, notes)];
    assert Others(bundle) == [File(NOTES_MD, notes)] && SkillMd(bundle) == md;
    assert Order(bundle) == order && order[1..] == [File(SKILL_MD, md)] && order[1..][1..] == [];
    assert AllSafe(order) by { SafePrefixFacts([File(NOTES_MD, notes)], File(SKILL_MD, md)); }
    forall i, j | 0 <= i < 2 && 0 <= j < 2 ensures Tmp(order[i].path, stamp(0 + i)) != order[j].path {
      assert |Tmp(order[i].path, stamp(0 + i))| > |order[j].path|;
    }
  }

  lemma NotesIsSafe()
    ensures Safe(NOTES_MD)
  {
    OnePart(NOTES_MD);
  }

  // ----- the landed directory -----

  /** `str::cmp`: `a` comes before `b` or is the same. */
  predicate PathLe(a: string, b: string) {
    a == [] || (b != [] && (a[0] < b[0] || (a[0] == b[0] && PathLe(a[1..], b[1..]))))
  }

  /** Inserted in front of the first file it does not come behind. */
  function InsertByPath(f: File, fs: seq<File>): seq<File> {
    if fs == [] || PathLe(f.path, fs[0].path) then [f] + fs else [fs[0]] + InsertByPath(f, fs[1..])
  }

  /** `sort_by` on the paths */
  function SortByPath(fs: seq<File>): seq<File> {
    if fs == [] then [] else InsertByPath(fs[0], SortByPath(fs[1..]))
  }

  /** `read_bundle`: the files a walk of the fetched directory lists, with their bytes. */
  function ReadBundle(tree: Disk, listed: seq<string>): (bundle: seq<File>)
    requires forall i :: 0 <= i < |listed| ==> listed[i] in tree
    ensures |bundle| == |listed|
    ensures forall i :: 0 <= i < |listed| ==> bundle[i].path == listed[i] && bundle[i].bytes == tree[listed[i]]
  {
    seq(|listed|, (i: nat) requires i < |listed| && listed[i] in tree => File(listed[i], tree[listed[i]]))
  }

  /** `bundle_matches_disk`: sorted by path, the bundle and the files the walk lists pair up. */
  predicate BundleMatchesDisk(d: Disk, bundle: seq<File>, listed: seq<string>)
    requires forall i :: 0 <= i < |listed| ==> listed[i] in d
  {
    var expected, onDisk := SortByPath(bundle), SortByPath(ReadBundle(d, listed));
    && |expected| == |onDisk|
    && forall i :: 0 <= i < |expected| ==>
         expected[i].path == onDisk[i].path && expected[i].bytes == onDisk[i].bytes
  }

  /** The directory holds exactly the bundle: every file of it, where the walk sees it, and no other the walk sees. */
  ghost predicate Matches(d: Disk, bundle: seq<File>) {
    && Distinct(bundle) && Holds(d, bundle)
    && (forall i :: 0 <= i < |bundle| ==> Visible(bundle[i].path))
    && (forall p :: p in d && Visible(p) ==> Carries(bundle, p))
  }

  lemma {:induction false} PathOrder(a: string, b: string)
    ensures PathLe(a, b) || PathLe(b, a)
    ensures PathLe(a, b) && PathLe(b, a) ==> a == b
  {
    if a != [] && b != [] {
      PathOrder(a[1..], b[1..]);
      assert a == [a[0]] + a[1..] && b == [b[0]] + b[1..];
    }
  }

  lemma {:induction false} PathTrans(a: string, b: string, c: string)
    requires PathLe(a, b) && PathLe(b, c)
    ensures PathLe(a, c)
  {
    if a != [] && a[0] == b[0] && b[0] == c[0] { PathTrans(a[1..], b[1..], c[1..]); }
  }

  lemma {:induction false} InsertMembers(f: File, fs: seq<File>)
    ensures multiset(InsertByPath(f, fs)) == multiset([f]) + multiset(fs)
  {
    hide PathLe;
    if fs != [] && !PathLe(f.path, fs[0].path) {
      InsertMembers(f, fs[1..]);
      assert fs == [fs[0]] + fs[1..];
    }
  }

  /** Sorting permutes. */
  lemma {:induction false} SortMembers(fs: seq<File>)
    ensures multiset(SortByPath(fs)) == multiset(fs)
  {
    if fs != [] {
      SortMembers(fs[1..]);
      InsertMembers(fs[0], SortByPath(fs[1..]));
      assert fs == [fs[0]] + fs[1..];
    }
  }

  predicate InFront(f: File, fs: seq<File>) {
    forall g :: g in fs ==> PathLe(f.path, g.path) && f.path != g.path
  }

  /** In the order of the paths, none twice. */
  predicate Strict(fs: seq<File>) {
    fs == [] || (InFront(fs[0], fs[1..]) && Strict(fs[1..]))
  }

  lemma {:induction false} InsertStrict(f: File, fs: seq<File>)
    requires Strict(fs) && forall g :: g in fs ==> g.path != f.path
    ensures Strict(InsertByPath(f, fs))
  {
    hide PathLe;
    if fs != [] {
      var h, rest := fs[0], fs[1..];
      assert fs == [h] + rest;
      if PathLe(f.path, h.path) {
        forall g | g in fs ensures PathLe(f.path, g.path) {
          if g != h { PathTrans(f.path, h.path, g.path); }
        }
        assert ([f] + fs)[1..] == fs;
      } else {
        PathOrder(f.path, h.path);
        InsertStrict(f, rest);
        InsertMembers(f, rest);
        var more := InsertByPath(f, rest);
        forall g | g in more ensures g == f || g in rest { assert g in multiset(more); }
        assert ([h] + more)[1..] == more;
      }
    }
  }

  lemma {:induction false} SortStrict(fs: seq<File>)
    requires Distinct(fs)
    ensures Strict(SortByPath(fs))
  {
    hide PathLe;
    if fs != [] {
      var rest := fs[1..];
      assert forall i :: 0 <= i < |rest| ==> rest[i] == fs[i + 1];
      SortStrict(rest);
      SortMembers(rest);
      forall g | g in SortByPath(rest) ensures g.path != fs[0].path { assert g in multiset(SortByPath(rest)); }
      InsertStrict(fs[0], SortByPath(rest));
    }
  }

  lemma SomeMember(fs: seq<File>)
    ensures fs != [] ==> exists f :: f in fs
  {
    if fs != [] { assert fs[0] in fs; }
  }

  /** There is one such order of the same files. */
  lemma {:induction false} StrictUnique(a: seq<File>, b: seq<File>)
    requires Strict(a) && Strict(b) && forall f :: f in a <==> f in b
    ensures a == b
  {
    hide PathLe;
    if a == [] {
      SomeMember(b);
    } else {
      assert a[0] in a && a[0] in b;
      assert a == [a[0]] + a[1..] && b == [b[0]] + b[1..];
      if a[0] != b[0] {
        assert b[0] in a;
        PathOrder(a[0].path, b[0].path);
      }
      forall f ensures f in a[1..] <==> f in b[1..] {
        if f in a[1..] { assert f in b && f != b[0]; }
        if f in b[1..] { assert f in a && f != a[0]; }
      }
      StrictUnique(a[1..], b[1..]);
    }
  }

  lemma {:induction false} OnceIn(fs: seq<File>, g: File)
    requires Distinct(fs)
    ensures multiset(fs)[g] <= 1
  {
    if fs != [] {
      var rest := fs[1..];
      assert fs == [fs[0]] + rest && forall i :: 0 <= i < |rest| ==> rest[i] == fs[i + 1];
      OnceIn(rest, g);
      assert g in multiset(rest) <==> g in rest;
    }
  }

  lemma {:induction false} TwiceIn(fs: seq<File>, i: nat, j: nat)
    requires i < j < |fs| && fs[i] == fs[j]
    ensures multiset(fs)[fs[i]] >= 2
  {
    assert fs == fs[..j] + fs[j..];
    assert fs[..j][i] in fs[..j] && fs[j..][0] in fs[j..];
    assert fs[..j][i] in multiset(fs[..j]) && fs[j..][0] in multiset(fs[j..]);
  }

  predicate DistinctNames(listed: seq<string>) {
    forall i, j :: 0 <= i < j < |listed| ==> listed[i] != listed[j]
  }

  lemma {:induction false} SameFilesMatch(d: Disk, bundle: seq<File>, listed: seq<string>)
    requires Walks(d, listed) && DistinctNames(listed) && Matches(d, bundle)
    ensures (forall i :: 0 <= i < |listed| ==> listed[i] in listed) && BundleMatchesDisk(d, bundle, listed)
  {
    hide PathLe, Visible, SortByPath;
    assert forall i :: 0 <= i < |listed| ==> listed[i] in listed;
    var onDisk := ReadBundle(d, listed);
    SortMembers(bundle);
    SortMembers(onDisk);
    SortStrict(bundle);
    SortStrict(onDisk);
    forall f ensures f in SortByPath(bundle) <==> f in SortByPath(onDisk) {
      assert f in SortByPath(bundle) <==> f in multiset(SortByPath(bundle));
      assert f in SortByPath(onDisk) <==> f in multiset(SortByPath(onDisk));
      if f in bundle {
        var i :| 0 <= i < |bundle| && bundle[i] == f;
        var k :| 0 <= k < |listed| && listed[k] == f.path;
        assert onDisk[k] == f;
      }
      if f in onDisk {
        var k :| 0 <= k < |onDisk| && onDisk[k] == f;
        assert listed[k] in listed;
        var i :| 0 <= i < |bundle| && bundle[i].path == f.path;
        assert bundle[i] == f;
      }
    }
    StrictUnique(SortByPath(bundle), SortByPath(onDisk));
  }

  lemma {:induction false} MatchingHolds(d: Disk, bundle: seq<File>, listed: seq<string>)
    requires Walks(d, listed) && DistinctNames(listed) && forall i :: 0 <= i < |listed| ==> listed[i] in d
    requires BundleMatchesDisk(d, bundle, listed)
    ensures Matches(d, bundle)
  {
    hide PathLe, Visible, SortByPath;
    var onDisk := ReadBundle(d, listed);
    SortMembers(bundle);
    SortMembers(onDisk);
    assert SortByPath(bundle) == SortByPath(onDisk);
    assert multiset(bundle) == multiset(onDisk);
    forall i | 0 <= i < |bundle|
      ensures bundle[i].path in d && d[bundle[i].path] == bundle[i].bytes && Visible(bundle[i].path)
    {
      assert bundle[i] in multiset(bundle) && bundle[i] in onDisk;
      var k :| 0 <= k < |onDisk| && onDisk[k] == bundle[i];
      assert listed[k] in listed;
    }
    forall p | p in d && Visible(p) ensures Carries(bundle, p) {
      var k :| 0 <= k < |listed| && listed[k] == p;
      assert onDisk[k] in onDisk && onDisk[k] in multiset(bundle);
      var i :| 0 <= i < |bundle| && bundle[i] == onDisk[k];
    }
    forall i, j | 0 <= i < j < |bundle| ensures bundle[i].path != bundle[j].path {
      if bundle[i].path == bundle[j].path {
        assert bundle[i] == bundle[j];
        TwiceIn(bundle, i, j);
        OnceIn(onDisk, bundle[i]);
      }
    }
  }

  /** Comparing the sorted lists tells whether the directory holds exactly the bundle, in whatever order the walk
      lists its files. */
  lemma MatchesIff(d: Disk, bundle: seq<File>, listed: seq<string>)
    requires Walks(d, listed) && DistinctNames(listed)
    ensures forall i :: 0 <= i < |listed| ==> listed[i] in d
    ensures BundleMatchesDisk(d, bundle, listed) <==> Matches(d, bundle)
  {
    hide Matches, Visible, SortByPath, ReadBundle;
    assert forall i :: 0 <= i < |listed| ==> listed[i] in listed;
    if BundleMatchesDisk(d, bundle, listed) { MatchingHolds(d, bundle, listed); }
    if Matches(d, bundle) { SameFilesMatch(d, bundle, listed); }
  }

  /** The landed directory holds the bundle, and of what was there before only what the walk never reaches. */
  lemma {:induction false} LandedFacts(d: Disk, bundle: seq<File>, stamp: nat -> string, walk: seq<string>)
    requires Sound(bundle, stamp) && AllSafe(Order(bundle))
    requires Walks(AfterWrites(d, Order(bundle), stamp, 0), walk)
    ensures Holds(LandedAll(d, bundle, stamp, walk), bundle)
    ensures forall p :: p in LandedAll(d, bundle, stamp, walk) ==>
              Carries(bundle, p) || (!Visible(p) && p in d && LandedAll(d, bundle, stamp, walk)[p] == d[p])
  {
    var order := Order(bundle);
    var after, final := AfterWrites(d, order, stamp, 0), LandedAll(d, bundle, stamp, walk);
    LandParts(d, bundle, stamp, walk);
    OrderFacts(bundle);
    AllWritten(d, order, stamp, 0);
    assert final == Pruned(after, walk, bundle);
    forall i | 0 <= i < |bundle| ensures bundle[i].path in final && final[bundle[i].path] == bundle[i].bytes {
      assert bundle[i] in order;
      PrunedFacts(after, walk, bundle, bundle[i].path);
    }
    forall p | p in final ensures Carries(bundle, p) || (!Visible(p) && p in d && final[p] == d[p]) {
      PrunedFacts(after, walk, bundle, p);
      if !Carries(bundle, p) { NothingElse(d, order, stamp, 0, p); }
    }
  }

  predicate AllVisible(bundle: seq<File>) {
    forall i :: 0 <= i < |bundle| ==> Visible(bundle[i].path)
  }

  /** After landing, the comparison finds the directory equal to the bundle exactly when no file of the bundle sits
      in a directory the walk skips. */
  lemma LandedMatchesIff(d: Disk, bundle: seq<File>, stamp: nat -> string, walk: seq<string>, again: seq<string>)
    requires Sound(bundle, stamp) && AllSafe(Order(bundle))
    requires Walks(AfterWrites(d, Order(bundle), stamp, 0), walk)
    requires Walks(LandedAll(d, bundle, stamp, walk), again) && DistinctNames(again)
    ensures forall i :: 0 <= i < |again| ==> again[i] in LandedAll(d, bundle, stamp, walk)
    ensures BundleMatchesDisk(LandedAll(d, bundle, stamp, walk), bundle, again) <==> AllVisible(bundle)
  {
    hide LandedAll, BundleMatchesDisk, Visible;
    LandedFacts(d, bundle, stamp, walk);
    MatchesIff(LandedAll(d, bundle, stamp, walk), bundle, again);
  }

  /** The test of `update_skill`: the hash is the recorded one, and the directory compares equal. */
  predicate UpToDate(d: Disk, bundle: seq<File>, listed: seq<string>, hash: Bytes -> string, current: string)
    requires HasSkillMd(bundle) && forall i :: 0 <= i < |listed| ==> listed[i] in d
  {
    current != "" && hash(SkillMd(bundle)) == current && BundleMatchesDisk(d, bundle, listed)
  }

  /** Right after landing, an update against the same upstream is a no-op, unless the bundle has a file the
      walk skips. */
  lemma UpdateNoopIff(d: Disk, bundle: seq<File>, stamp: nat -> string, walk: seq<string>, again: seq<string>,
                      hash: Bytes -> string)
    requires Sound(bundle, stamp) && AllSafe(Order(bundle)) && hash(SkillMd(bundle)) != ""
    requires Walks(AfterWrites(d, Order(bundle), stamp, 0), walk)
    requires Walks(LandedAll(d, bundle, stamp, walk), again) && DistinctNames(again)
    ensures forall i :: 0 <= i < |again| ==> again[i] in LandedAll(d, bundle, stamp, walk)
    ensures UpToDate(LandedAll(d, bundle, stamp, walk), bundle, again, hash, hash(SkillMd(bundle)))
       <==> AllVisible(bundle)
  {
    hide LandedAll, BundleMatchesDisk, Visible;
    LandedMatchesIff(d, bundle, stamp, walk, again);
  }

  // ----- the bundles the launcher fetches -----

  /** What is read from a repository is visible, because the same walk lists it, and so is a lone `SKILL.md`:
      no file the walk skips ever enters a bundle. */
  lemma FetchedIsVisible(tree: Disk, listed: seq<string>, text: Bytes)
    requires Walks(tree, listed)
    ensures (forall i :: 0 <= i < |listed| ==> listed[i] in tree) && AllVisible(ReadBundle(tree, listed))
    ensures AllVisible([File(SKILL_MD, text)])
  {
    hide Visible;
    assert forall i :: 0 <= i < |listed| ==> listed[i] in listed;
    SkillMdIsSafe();
  }

  /** So a skill read from a repository and landed is up to date: the next update changes nothing. */
  lemma FetchedUpdateNoop(tree: Disk, listed: seq<string>, d: Disk, stamp: nat -> string, walk: seq<string>,
                          again: seq<string>, hash: Bytes -> string)
    requires Walks(tree, listed) && forall i :: 0 <= i < |listed| ==> listed[i] in tree
    requires var bundle := ReadBundle(tree, listed);
             && Sound(bundle, stamp) && AllSafe(Order(bundle)) && hash(SkillMd(bundle)) != ""
             && Walks(AfterWrites(d, Order(bundle), stamp, 0), walk)
             && Walks(LandedAll(d, bundle, stamp, walk), again) && DistinctNames(again)
    ensures forall i :: 0 <= i < |again| ==> again[i] in LandedAll(d, ReadBundle(tree, listed), stamp, walk)
    ensures var bundle := ReadBundle(tree, listed);
            UpToDate(LandedAll(d, bundle, stamp, walk), bundle, again, hash, hash(SkillMd(bundle)))
  {
    hide LandedAll, UpToDate, Visible;
    var bundle := ReadBundle(tree, listed);
    FetchedIsVisible(tree, listed, []);
    UpdateNoopIff(d, bundle, stamp, walk, again, hash);
  }

  // ----- landing as the launcher runs it -----

  lemma PruneStep(d: Disk, walk: seq<string>, keep: seq<File>, n: nat)
    requires n < |walk|
    ensures var next := if Carries(keep, walk[n]) then d else d - {walk[n]};
            && Prune(d, walk[n..], keep)
               == (if Carries(keep, walk[n]) then [] else [next]) + Prune(next, walk[n + 1..], keep)
            && Pruned(d, walk[n..], keep) == Pruned(next, walk[n + 1..], keep)
  {
    hide Carries;
    assert walk[n..][0] == walk[n] && walk[n..][1..] == walk[n + 1..];
    assert [] + Prune(d, walk[n + 1..], keep) == Prune(d, walk[n + 1..], keep);
  }

  lemma SafeStep(files: seq<File>, n: nat)
    requires n < |files|
    ensures AllSafe(files[n..]) <==> Safe(files[n].path) && AllSafe(files[n + 1..])
    ensures !Safe(files[n].path) ==> SafePrefix(files[n..]) == []
  {
    assert files[n..][0] == files[n] && files[n..][1..] == files[n + 1..];
  }

  lemma WritesStep(d: Disk, files: seq<File>, stamp: nat -> string, n: nat)
    requires n < |files|
    ensures Safe(files[n].path) ==>
              var tmp := Tmp(files[n].path, stamp(n));
              var next := Landed(d, files[n], tmp);
              && Writes(d, SafePrefix(files[n..]), stamp, n)
                 == Write(d, files[n], tmp) + Writes(next, SafePrefix(files[n + 1..]), stamp, n + 1)
              && AfterWrites(d, SafePrefix(files[n..]), stamp, n)
                 == AfterWrites(next, SafePrefix(files[n + 1..]), stamp, n + 1)
  {
    hide Write, Landed, Safe;
    assert files[n..][0] == files[n] && files[n..][1..] == files[n + 1..];
    if Safe(files[n].path) {
      assert SafePrefix(files[n..])[0] == files[n] && SafePrefix(files[n..])[1..] == SafePrefix(files[n + 1..]);
    }
  }

  lemma StopHere(d: Disk, stamp: nat -> string, n: nat)
    ensures Writes(d, [], stamp, n) == [] && AfterWrites(d, [], stamp, n) == d
  {
  }

  lemma NothingLeft(files: seq<File>)
    ensures files[|files|..] == [] && SafePrefix([]) == [] && AllSafe([])
  {
  }

  /** The skill's directory and the states it went through. */
  class SkillDir {
    var disk: Disk
    ghost var trail: seq<Disk>

    constructor (d: Disk)
      ensures disk == d && trail == []
    {
      disk, trail := d, [];
    }

    /** `write_atomic` */
    method WriteAtomic(f: File, stamp: string) returns (ok: bool)
      modifies this
      ensures ok == Safe(f.path)
      ensures ok ==> trail == old(trail) + Write(old(disk), f, Tmp(f.path, stamp))
      ensures ok ==> disk == Landed(old(disk), f, Tmp(f.path, stamp))
      ensures !ok ==> trail == old(trail) && disk == old(disk)
    {
      if !Safe(f.path) { return false; }
      var tmp := Tmp(f.path, stamp);
      var before := disk;
      trail := trail + seq(|f.bytes| + 1, (i: nat) requires i <= |f.bytes| => before[tmp := f.bytes[..i]]);
      disk := disk[tmp := f.bytes];
      if f.path in before {
        disk := disk - {f.path};
        trail := trail + [disk];
      }
      disk := (disk - {tmp})[f.path := f.bytes];
      trail := trail + [disk];
      assert disk == Landed(before, f, tmp);
      ok := true;
    }

    /** `prune_stale` over the files its walk listed. */
    method PruneStale(walk: seq<string>, bundle: seq<File>)
      modifies this
      ensures trail == old(trail) + Prune(old(disk), walk, bundle) && disk == Pruned(old(disk), walk, bundle)
    {
      var n := 0;
      ghost var done: seq<Disk> := [];
      while n < |walk|
        invariant 0 <= n <= |walk| && trail == old(trail) + done
        invariant Prune(old(disk), walk, bundle) == done + Prune(disk, walk[n..], bundle)
        invariant Pruned(old(disk), walk, bundle) == Pruned(disk, walk[n..], bundle)
      {
        hide Prune, Pruned, Carries;
        PruneStep(disk, walk, bundle, n);
        if !Carries(bundle, walk[n]) {
          disk := disk - {walk[n]};
          trail := trail + [disk];
          ConcatAssoc(done, [disk], Prune(disk, walk[n + 1..], bundle));
          done := done + [disk];
        }
        n := n + 1;
      }
      assert walk[n..] == [];
    }

    /** `land_bundle`; `walk` is what the walk lists once the files are written. */
    method LandBundle(bundle: seq<File>, stamp: nat -> string, walk: seq<string>) returns (ok: bool)
      requires HasSkillMd(bundle)
      modifies this
      ensures ok == AllSafe(Order(bundle))
      ensures trail == old(trail) + Land(old(disk), bundle, stamp, walk)
      ensures disk == LandedAll(old(disk), bundle, stamp, walk)
    {
      hide Write, Writes, AfterWrites, Landed, Prune, Pruned, Order, SafePrefix, HasSkillMd, Safe, AllSafe;
      var files := Order(bundle);
      var n := 0;
      ghost var done: seq<Disk> := [];
      assert files[0..] == files;
      while n < |files|
        invariant 0 <= n <= |files| && trail == old(trail) + done
        invariant Writes(old(disk), SafePrefix(files), stamp, 0)
               == done + Writes(disk, SafePrefix(files[n..]), stamp, n)
        invariant AfterWrites(old(disk), SafePrefix(files), stamp, 0)
               == AfterWrites(disk, SafePrefix(files[n..]), stamp, n)
        invariant AllSafe(files) == AllSafe(files[n..])
      {
        SafeStep(files, n);
        WritesStep(disk, files, stamp, n);
        ghost var before := disk;
        ok := WriteAtomic(files[n], stamp(n));
        if !ok {
          StopHere(disk, stamp, n);
          return false;
        }
        ghost var more := Write(before, files[n], Tmp(files[n].path, stamp(n)));
        ConcatAssoc(done, more, Writes(disk, SafePrefix(files[n + 1..]), stamp, n + 1));
        ConcatAssoc(old(trail), done, more);
        done := done + more;
        n := n + 1;
      }
      StopHere(disk, stamp, n);
      NothingLeft(files);
      ghost var pruned := Prune(disk, walk, bundle);
      ConcatAssoc(old(trail), done, pruned);
      PruneStale(walk, bundle);
      ok := true;
    }

    /** `update_skill` once upstream is fetched: whether the bundle was landed again. `listed` is what the walk
        lists now, `walk` what it lists once the files are written. */
    method Update(bundle: seq<File>, hash: Bytes -> string, current: string, listed: seq<string>,
                  stamp: nat -> string, walk: seq<string>)
      returns (landed: Option<bool>)
      requires HasSkillMd(bundle) && Walks(disk, listed) && DistinctNames(listed)
      modifies this
      ensures landed == None <==>
                current != "" && hash(SkillMd(bundle)) == current && Matches(old(disk), bundle)
      ensures landed == None ==> disk == old(disk) && trail == old(trail)
      ensures landed.Some? ==> disk == LandedAll(old(disk), bundle, stamp, walk)
      ensures landed.Some? ==> landed.value == AllSafe(Order(bundle))
    {
      hide BundleMatchesDisk, Matches, LandedAll, Visible;
      MatchesIff(disk, bundle, listed);
      if UpToDate(disk, bundle, listed, hash, current) { return None; }
      var ok := LandBundle(bundle, stamp, walk);
      landed := Some(ok);
    }
  }
}
