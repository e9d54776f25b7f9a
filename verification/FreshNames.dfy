/** The `base`, `base-2`, `base-3`, … search for a name not yet taken. */
module FreshNames {
  import opened Basics

  function Digit(d: nat): char
    requires d < 10
  {
    ('0' as int + d) as char
  }

  function Decimal(n: nat): (s: string)
    ensures |s| >= 1 && (n >= 10 ==> |s| >= 2)
  {
    if n < 10 then [Digit(n)] else Decimal(n / 10) + [Digit(n % 10)]
  }

  lemma {:induction false} LastDigit(n: nat)
    ensures var s := Decimal(n);
            s[|s| - 1] == Digit(n % 10) && (n >= 10 ==> s[..|s| - 1] == Decimal(n / 10))
  {
  }

  lemma DigitInjective(a: nat, b: nat)
    requires a < 10 && b < 10 && Digit(a) == Digit(b)
    ensures a == b
  {
  }

  lemma {:induction false} DecimalInjective(m: nat, n: nat)
    requires Decimal(m) == Decimal(n)
    ensures m == n
  {
    hide Digit;
    LastDigit(m);
    LastDigit(n);
    DigitInjective(m % 10, n % 10);
    if m >= 10 && n >= 10 { DecimalInjective(m / 10, n / 10); }
  }

  /** The `k`-th name tried, counting from 1: `base` itself, then `base-k`. */
  function Candidate(base: string, k: nat): string {
    if k <= 1 then base else base + "-" + Decimal(k)
  }

  lemma {:induction false} CandidateInjective(base: string, j: nat, k: nat)
    requires 1 <= j && 1 <= k && Candidate(base, j) == Candidate(base, k)
    ensures j == k
  {
    var a, b := Candidate(base, j), Candidate(base, k);
    if j > 1 && k > 1 {
      assert a[|base| + 1..] == Decimal(j) && b[|base| + 1..] == Decimal(k);
      DecimalInjective(j, k);
    }
  }

  /** The taken names a search from `k` on can still meet. */
  ghost function Ahead(base: string, used: set<string>, k: nat): set<string> {
    set c | c in used && exists m: nat :: m >= k && c == Candidate(base, m)
  }

  lemma {:induction false} AheadShrinks(base: string, used: set<string>, k: nat)
    requires k >= 1 && Candidate(base, k) in used
    ensures |Ahead(base, used, k + 1)| < |Ahead(base, used, k)|
  {
    var c := Candidate(base, k);
    assert c in Ahead(base, used, k);
    if c in Ahead(base, used, k + 1) {
      var m: nat :| m >= k + 1 && c == Candidate(base, m);
      CandidateInjective(base, k, m);
    }
    var rest := Ahead(base, used, k) - {c};
    assert Ahead(base, used, k + 1) <= rest;
    SubsetSize(Ahead(base, used, k + 1), rest);
  }

  /** The index of the first free name at or after the `k`-th. */
  ghost function FreeIndex(base: string, used: set<string>, k: nat): (n: nat)
    requires k >= 1
    ensures n >= k && Candidate(base, n) !in used
    ensures forall j :: k <= j < n ==> Candidate(base, j) in used
    decreases |Ahead(base, used, k)|
  {
    if Candidate(base, k) !in used then k
    else AheadShrinks(base, used, k); FreeIndex(base, used, k + 1)
  }

  /** The name the search settles on. */
  ghost function Fresh(base: string, used: set<string>): string {
    Candidate(base, FreeIndex(base, used, 1))
  }

  ghost function FirstCandidates(base: string, n: nat): set<string> {
    set k | 1 <= k < n :: Candidate(base, k)
  }

  lemma {:induction false} FirstCandidatesSize(base: string, n: nat)
    requires n >= 1
    ensures |FirstCandidates(base, n)| == n - 1
  {
    if n == 1 {
      assert FirstCandidates(base, 1) == {};
    } else {
      FirstCandidatesSize(base, n - 1);
      var c := Candidate(base, n - 1);
      if c in FirstCandidates(base, n - 1) {
        var k :| 1 <= k < n - 1 && c == Candidate(base, k);
        CandidateInjective(base, k, n - 1);
      }
      assert FirstCandidates(base, n) == FirstCandidates(base, n - 1) + {c};
    }
  }

  /** The search ends within one more try than there are names taken. */
  lemma {:induction false} FreshWithin(base: string, used: set<string>)
    ensures Fresh(base, used) !in used
    ensures FreeIndex(base, used, 1) <= |used| + 1
  {
    var n := FreeIndex(base, used, 1);
    assert FirstCandidates(base, n) <= used;
    FirstCandidatesSize(base, n);
    SubsetSize(FirstCandidates(base, n), used);
  }

  /** The search loop of `sync_skin_patch` (and of `unique_id`, whose list of names is a set here). */
  method FreshName(base: string, used: set<string>) returns (id: string, ghost tries: nat)
    ensures id == Fresh(base, used)
    ensures id !in used && 1 <= tries <= |used| + 1 && id == Candidate(base, tries)
  {
    FreshWithin(base, used);
    id := base;
    var n := 2;
    tries := 1;
    while id in used
      invariant n == tries + 1 && 1 <= tries <= FreeIndex(base, used, 1)
      invariant id == Candidate(base, tries)
      invariant FreeIndex(base, used, 1) == FreeIndex(base, used, tries)
      decreases FreeIndex(base, used, 1) - tries
    {
      id := base + "-" + Decimal(n);
      tries := n;
      n := n + 1;
    }
  }

  function Elements(names: seq<string>): set<string> {
    set i | 0 <= i < |names| :: names[i]
  }

  /** `unique_id`: the id list is searched name by name. */
  method UniqueId(base: string, existing: seq<string>) returns (id: string)
    ensures id !in existing
    ensures id == Fresh(base, Elements(existing))
  {
    ghost var tries;
    id, tries := FreshName(base, Elements(existing));
    forall i | 0 <= i < |existing| ensures existing[i] != id {
      assert existing[i] in Elements(existing);
    }
  }
}
