/** The resumable download: what it leaves in the partial file and in the
    destination after every write, whatever the server, the disk or a crash does. */
module Download {
  import opened Basics
  import opened TextLines

  const MAX_ATTEMPTS: nat := 5

  /** How a response body ends: complete, dropped by the connection, or with a write to the
      partial file failing after `torn` more bytes reached it. */
  datatype End = Eof | Dropped | WriteFault(torn: Bytes)

  datatype Answer = Refused | Response(status: nat, openFails: bool, chunks: seq<Bytes>, end: End)

  /** What can go wrong on disk while a complete partial is promoted. */
  datatype Disk = AllWell | HashFails | DropFails | ReplaceFails | RenameFails

  datatype Error =
    | Connect | Http(status: nat) | Open | Write | Interrupted | Exhausted | Hash | Mismatch | Replace | Rename

  datatype Result = Ok(bytes: nat, resumed: bool, sha256: string) | Err(error: Error)

  /** The `.part` file and the destination. */
  datatype Files = Files(part: Option<Bytes>, dest: Option<Bytes>)

  /** Everything outside the downloader: the server's answer to each attempt at each offset, the
      disk, the hash, and the checksum asked for (trimmed and lower-cased, `None` when blank). */
  datatype World = World(serve: (nat, nat) -> Answer, disk: Disk, hash: Bytes -> string, want: Option<string>)

  /** The states a call passes through, one per write, and how it ends. */
  datatype Outcome = Outcome(trail: seq<Files>, result: Result)

  function Then(trail: seq<Files>, o: Outcome): Outcome { o.(trail := trail + o.trail) }

  function Final(f: Files, trail: seq<Files>): Files {
    if trail == [] then f else trail[|trail| - 1]
  }

  /** `file_len`: a missing file counts as empty. */
  function Len(part: Option<Bytes>): nat {
    match part case None => 0 case Some(p) => |p|
  }

  function Concat(chunks: seq<Bytes>): Bytes {
    if chunks == [] then [] else chunks[0] + Concat(chunks[1..])
  }

  /** The bytes a response writes. */
  function Data(a: Answer): Bytes
    requires a.Response?
  {
    Concat(a.chunks) + (match a.end case WriteFault(torn) => torn case _ => [])
  }

  /** The states while `data` is appended, byte by byte: a write may be torn anywhere. */
  function Grow(f: Files, start: Bytes, data: Bytes): seq<Files> {
    seq(|data|, (i: nat) requires i < |data| => f.(part := Some(start + data[..i + 1])))
  }

  // ----- promotion -----

  predicate Verified(w: World, x: Bytes) {
    w.want.Some? ==> w.hash(x) == w.want.value
  }

  /** `finalize` */
  function Finalize(w: World, f: Files, resumed: bool): Outcome {
    match f.part
    case None => Outcome([], Err(Hash))
    case Some(x) =>
      if w.disk == HashFails then Outcome([], Err(Hash))
      else if !Verified(w, x) then
        Outcome(if w.disk == DropFails then [] else [f.(part := None)], Err(Mismatch))
      else if f.dest.Some? && w.disk == ReplaceFails then Outcome([], Err(Replace))
      else
        var removed := if f.dest.Some? then [f.(dest := None)] else [];
        if w.disk == RenameFails then Outcome(removed, Err(Rename))
        else Outcome(removed + [Files(None, Some(x))], Ok(|x|, resumed, w.hash(x)))
  }

  // ----- attempts -----

  /** The part's bytes a response is appended to: none when it restarts from byte 0. */
  function Start(f: Files, status: nat): Bytes {
    if status == 200 || Len(f.part) == 0 then [] else f.part.value
  }

  /** The states while a body is streamed into the partial. */
  function Streamed(f: Files, a: Answer): seq<Files>
    requires a.Response?
  {
    [f.(part := Some(Start(f, a.status)))] + Grow(f, Start(f, a.status), Data(a))
  }

  function AfterStream(f: Files, a: Answer): Files
    requires a.Response?
  {
    f.(part := Some(Start(f, a.status) + Data(a)))
  }

  /** The answer carries a body that can be written to the partial. */
  predicate IsBody(a: Answer) { a.Response? && (a.status == 200 || a.status == 206) && !a.openFails }

  /** What follows a body once it is in the partial. */
  function AfterBody(w: World, f: Files, attempt: nat, resumed: bool, a: Answer): Outcome
    requires 1 <= attempt <= MAX_ATTEMPTS && IsBody(a)
    decreases MAX_ATTEMPTS + 1 - attempt, 0
  {
    match a.end
    case WriteFault(_) => Outcome([], Err(Write))
    case Eof => Finalize(w, f, resumed)
    case Dropped =>
      if attempt == MAX_ATTEMPTS then Outcome([], Err(Interrupted))
      else Attempts(w, f, attempt + 1, resumed)
  }

  /** `download_file` from a given attempt on; the offset it asks for is the partial's length. */
  function Attempts(w: World, f: Files, attempt: nat, resumed: bool): Outcome
    requires 1 <= attempt
    decreases MAX_ATTEMPTS + 1 - attempt, 1
  {
    if attempt > MAX_ATTEMPTS then Outcome([], Err(Exhausted))
    else
      var a := w.serve(attempt, Len(f.part));
      if a.Refused? then
        if Len(f.part) == 0 then Outcome([], Err(Connect)) else Attempts(w, f, attempt + 1, resumed)
      else if a.status == 416 then Finalize(w, f, true)
      else if a.status == 200 || a.status == 206 then
        if a.openFails then Outcome([], Err(Open))
        else
          Then(Streamed(f, a), AfterBody(w, AfterStream(f, a), attempt, resumed || a.status == 206, a))
      else if 400 <= a.status < 500 then Outcome([], Err(Http(a.status)))
      else Attempts(w, f, attempt + 1, resumed)
  }

  function Call(w: World, f: Files): Outcome { Attempts(w, f, 1, false) }

  // ----- integrity: any server at all -----

  /** The only moves of the destination: it stays, it is removed while the partial stays as it is, or the whole
      partial becomes it. */
  predicate Moves(prev: Files, s: Files) {
    || s.dest == prev.dest
    || (s.dest.None? && s.part.Some? && s.part == prev.part)
    || (s.dest.Some? && s.dest == prev.part && s.part.None?)
  }

  predicate AllMoves(f: Files, trail: seq<Files>) {
    forall i :: 0 <= i < |trail| ==> Moves(Final(f, trail[..i]), trail[i])
  }

  /** New bytes stand in the destination at no state but the last one of a successful call. */
  predicate NewOnlyLast(old_: Option<Bytes>, o: Outcome) {
    forall i :: 0 <= i < |o.trail| ==>
      o.trail[i].dest == old_ || o.trail[i].dest.None? || (i == |o.trail| - 1 && o.result.Ok?)
  }

  /** A destination is removed only in favour of verified bytes, and only verified bytes replace it. */
  predicate DestSafe(w: World, old_: Files, s: Files) {
    || s.dest == old_.dest
    || (s.dest.None? && s.part.Some? && Verified(w, s.part.value))
    || (s.dest.Some? && Verified(w, s.dest.value))
  }

  predicate AllDestSafe(w: World, f: Files, trail: seq<Files>) {
    forall i :: 0 <= i < |trail| ==> DestSafe(w, f, trail[i])
  }

  /** What a successful call leaves behind. */
  predicate OkLeaves(w: World, s: Files, r: Result) {
    r.Ok? ==> s.part.None? && s.dest.Some? && Verified(w, s.dest.value)
              && r.bytes == |s.dest.value| && r.sha256 == w.hash(s.dest.value)
  }

  lemma {:induction false} StreamKeepsDest(f: Files, a: Answer)
    requires a.Response?
    ensures forall i :: 0 <= i < |Streamed(f, a)| ==> Streamed(f, a)[i].dest == f.dest && Streamed(f, a)[i].part.Some?
    ensures Final(f, Streamed(f, a)) == AfterStream(f, a) && AfterStream(f, a).dest == f.dest
    ensures Streamed(f, a) != []
  {
    var d := Data(a);
    if |d| > 0 { assert d[..|d|] == d; } else { assert Start(f, a.status) + d == Start(f, a.status); }
  }

  lemma FinalThen(f: Files, s: seq<Files>, g: Files, rest: seq<Files>)
    requires s != [] && Final(f, s) == g
    ensures Final(f, s + rest) == Final(g, rest)
  {
  }

  lemma {:induction false} FinalizeIntegrity(w: World, f: Files, resumed: bool)
    ensures var o := Finalize(w, f, resumed);
            && AllDestSafe(w, f, o.trail) && OkLeaves(w, Final(f, o.trail), o.result)
            && (o.result.Err? && o.result.error != Rename ==> Final(f, o.trail).dest == f.dest)
  {
  }

  lemma SafeParts(w: World, f: Files, a: seq<Files>, b: seq<Files>)
    requires AllDestSafe(w, f, a) && AllDestSafe(w, f, b)
    ensures AllDestSafe(w, f, a + b)
  {
    hide DestSafe;
  }

  lemma {:induction false} StreamSafe(w: World, f: Files, a: Answer)
    requires a.Response?
    ensures AllDestSafe(w, f, Streamed(f, a))
  {
    hide Streamed;
    StreamKeepsDest(f, a);
  }

  /** Safety looks at the destination alone. */
  lemma SameDestSafe(w: World, f: Files, g: Files, trail: seq<Files>)
    requires f.dest == g.dest
    ensures AllDestSafe(w, f, trail) == AllDestSafe(w, g, trail)
  {
  }

  /** What the checksum adds, when one is asked for. */
  lemma {:induction false} DestVerified(w: World, f: Files, attempt: nat, resumed: bool)
    requires 1 <= attempt
    ensures var o := Attempts(w, f, attempt, resumed);
            && AllDestSafe(w, f, o.trail) && OkLeaves(w, Final(f, o.trail), o.result)
            && (o.result.Err? && o.result.error != Rename ==> Final(f, o.trail).dest == f.dest)
    decreases MAX_ATTEMPTS + 1 - attempt
  {
    hide Streamed, AfterStream, Finalize, DestSafe;
    if attempt <= MAX_ATTEMPTS {
      var a := w.serve(attempt, Len(f.part));
      if IsBody(a) {
        var f', r := AfterStream(f, a), resumed || a.status == 206;
        StreamKeepsDest(f, a);
        StreamSafe(w, f, a);
        FinalizeIntegrity(w, f', r);
        DestVerified(w, f', attempt + 1, r);
        var rest := AfterBody(w, f', attempt, r, a).trail;
        assert AllDestSafe(w, f', rest);
        SameDestSafe(w, f', f, rest);
        SafeParts(w, f, Streamed(f, a), rest);
        FinalThen(f, Streamed(f, a), f', rest);
      } else if a.Response? && a.status == 416 {
        FinalizeIntegrity(w, f, true);
      } else {
        DestVerified(w, f, attempt + 1, resumed);
      }
    }
  }

  lemma {:induction false} MovesConcat(f: Files, a: seq<Files>, b: seq<Files>)
    requires AllMoves(f, a) && AllMoves(Final(f, a), b)
    ensures AllMoves(f, a + b)
  {
    hide Moves, Final;
    var t := a + b;
    forall i | 0 <= i < |t| ensures Moves(Final(f, t[..i]), t[i]) {
      if i < |a| {
        assert t[..i] == a[..i];
      } else {
        assert t[..i] == a + b[..i - |a|];
        FinalConcat(f, a, b[..i - |a|]);
      }
    }
  }

  lemma {:induction false} StreamMoves(f: Files, a: Answer)
    requires a.Response?
    ensures AllMoves(f, Streamed(f, a))
  {
    hide Streamed;
    StreamKeepsDest(f, a);
  }

  lemma {:induction false} FinalizeMoves(w: World, f: Files, resumed: bool)
    ensures AllMoves(f, Finalize(w, f, resumed).trail) && NewOnlyLast(f.dest, Finalize(w, f, resumed))
  {
    var trail := Finalize(w, f, resumed).trail;
    assert |trail| <= 2 && (|trail| == 2 ==> trail[..1] == [trail[0]]);
  }

  lemma NewStaysLast(d: Option<Bytes>, s: seq<Files>, o: Outcome)
    requires NewOnlyLast(d, o) && forall i :: 0 <= i < |s| ==> s[i].dest == d
    ensures NewOnlyLast(d, Then(s, o))
  {
  }

  lemma {:induction false} DestMoves(w: World, f: Files, attempt: nat, resumed: bool)
    requires 1 <= attempt
    ensures var o := Attempts(w, f, attempt, resumed);
            AllMoves(f, o.trail) && NewOnlyLast(f.dest, o)
    decreases MAX_ATTEMPTS + 1 - attempt
  {
    hide Streamed, AfterStream, Finalize, Moves;
    if attempt <= MAX_ATTEMPTS {
      var a := w.serve(attempt, Len(f.part));
      if IsBody(a) {
        var f', r := AfterStream(f, a), resumed || a.status == 206;
        StreamKeepsDest(f, a);
        StreamMoves(f, a);
        FinalizeMoves(w, f', r);
        DestMoves(w, f', attempt + 1, r);
        var rest := AfterBody(w, f', attempt, r, a);
        assert AllMoves(f', rest.trail) && NewOnlyLast(f'.dest, rest);
        MovesConcat(f, Streamed(f, a), rest.trail);
        NewStaysLast(f.dest, Streamed(f, a), rest);
      } else if a.Response? && a.status == 416 {
        FinalizeMoves(w, f, true);
      } else {
        DestMoves(w, f, attempt + 1, resumed);
      }
    }
  }

  // ----- the requests of a call, and the one it ends with -----

  /** A request: its number, and the offset it asked to go on from. */
  datatype Request = Request(attempt: nat, offset: nat)

  function Asked(w: World, q: Request): Answer { w.serve(q.attempt, q.offset) }

  /** The requests a call makes, from a given attempt on. */
  function Requests(w: World, f: Files, attempt: nat): seq<Request>
    requires 1 <= attempt
    decreases MAX_ATTEMPTS + 1 - attempt
  {
    if attempt > MAX_ATTEMPTS then []
    else
      var q := Request(attempt, Len(f.part));
      var a := Asked(w, q);
      [q] +
      if a.Refused? then (if q.offset == 0 then [] else Requests(w, f, attempt + 1))
      else if IsBody(a) && a.end == Dropped && attempt < MAX_ATTEMPTS then
        Requests(w, AfterStream(f, a), attempt + 1)
      else if a.status == 416 || a.status == 200 || a.status == 206 || 400 <= a.status < 500 then []
      else Requests(w, f, attempt + 1)
  }

  lemma FinalizeKeepsFlag(w: World, f: Files, resumed: bool)
    ensures var o := Finalize(w, f, resumed);
            o.result.Ok? ==> o.result.resumed == resumed && f.part.Some? && Final(f, o.trail).dest == f.part
  {
  }

  datatype Turn = Skips | Breaks | Ends | Holds

  /** What an answer makes of an attempt in a call that ends well. */
  function TurnOf(a: Answer): Turn {
    if a.Refused? then Skips
    else if a.status == 416 then Holds
    else if a.status == 200 || a.status == 206 then (if a.end == Dropped then Breaks else Ends)
    else Skips
  }

  lemma {:induction false} TurnStep(w: World, f: Files, attempt: nat, resumed: bool)
    requires 1 <= attempt && Attempts(w, f, attempt, resumed).result.Ok?
    ensures attempt <= MAX_ATTEMPTS
    ensures var q := Request(attempt, Len(f.part));
            var a := Asked(w, q);
            var o, qs := Attempts(w, f, attempt, resumed), Requests(w, f, attempt);
            match TurnOf(a)
            case Skips =>
              && o == Attempts(w, f, attempt + 1, resumed) && qs == [q] + Requests(w, f, attempt + 1)
              && (a.Response? ==> a.status !in {200, 206, 416})
            case Breaks =>
              && IsBody(a) && attempt < MAX_ATTEMPTS
              && o == Then(Streamed(f, a), Attempts(w, AfterStream(f, a), attempt + 1, resumed || a.status == 206))
              && qs == [q] + Requests(w, AfterStream(f, a), attempt + 1)
            case Ends =>
              && IsBody(a) && a.end == Eof
              && o == Then(Streamed(f, a), Finalize(w, AfterStream(f, a), resumed || a.status == 206)) && qs == [q]
            case Holds => o == Finalize(w, f, true) && qs == [q]
  {
    hide Streamed, AfterStream, Finalize;
  }

  /** The answer to `q` completes the file `x`: a whole body, appended from the byte `q` asked for on unless it is
      a 200, or the word that nothing lies past that byte. */
  predicate Completes(w: World, q: Request, x: Bytes) {
    var a := Asked(w, q);
    match TurnOf(a)
    case Ends =>
      var base := if a.status == 200 then 0 else q.offset;
      a.end == Eof && base <= |x| && x[base..] == Data(a)
    case Holds => |x| == q.offset
    case _ => false
  }

  lemma {:induction false} BodyCompletes(w: World, f: Files, q: Request)
    requires q.offset == Len(f.part) && IsBody(Asked(w, q)) && Asked(w, q).end == Eof
    ensures Completes(w, q, AfterStream(f, Asked(w, q)).part.value)
  {
    var a := Asked(w, q);
    var start := Start(f, a.status);
    assert (start + Data(a))[|start|..] == Data(a);
    assert a.status == 206 ==> |start| == q.offset;
  }

  /** Whatever the server, a file is promoted only when the last request of the call was answered with a complete
      body or a 416, and it is what that answer completes. */
  lemma {:induction false} LastRequestCompletes(w: World, f: Files, attempt: nat, resumed: bool)
    requires 1 <= attempt && Attempts(w, f, attempt, resumed).result.Ok?
    ensures var qs, g := Requests(w, f, attempt), Final(f, Attempts(w, f, attempt, resumed).trail);
            qs != [] && g.dest.Some? && Completes(w, qs[|qs| - 1], g.dest.value)
    decreases MAX_ATTEMPTS + 1 - attempt
  {
    hide Attempts, Requests, Streamed, Finalize, AfterStream, Completes;
    TurnStep(w, f, attempt, resumed);
    var q := Request(attempt, Len(f.part));
    var a := Asked(w, q);
    match TurnOf(a)
    case Skips => LastRequestCompletes(w, f, attempt + 1, resumed);
    case Breaks =>
      var f', r := AfterStream(f, a), resumed || a.status == 206;
      StreamKeepsDest(f, a);
      FinalThen(f, Streamed(f, a), f', Attempts(w, f', attempt + 1, r).trail);
      LastRequestCompletes(w, f', attempt + 1, r);
    case Ends =>
      var f', r := AfterStream(f, a), resumed || a.status == 206;
      StreamKeepsDest(f, a);
      FinalThen(f, Streamed(f, a), f', Finalize(w, f', r).trail);
      FinalizeKeepsFlag(w, f', r);
      BodyCompletes(w, f, q);
    case Holds =>
      FinalizeKeepsFlag(w, f, true);
      assert f.part.Some? ==> Completes(w, q, f.part.value) by { HeldCompletes(w, f, q); }
  }

  lemma HeldCompletes(w: World, f: Files, q: Request)
    requires q.offset == Len(f.part) && TurnOf(Asked(w, q)) == Holds
    ensures f.part.Some? ==> Completes(w, q, f.part.value)
  {
  }

  /** With or without a checksum, against any server and disk: the destination is at every write kept, removed in
      favour of the partial beside it, or replaced by the whole partial, the last of these only at the end of a
      successful call, whose last request completed the file. Any other end leaves no new bytes, and a checksum
      asked for holds of whatever replaces or displaces the destination. */
  lemma {:induction false} DestIntegrity(w: World, f: Files)
    ensures var o := Call(w, f);
            var g := Final(f, o.trail);
            && AllMoves(f, o.trail) && NewOnlyLast(f.dest, o) && AllDestSafe(w, f, o.trail) && OkLeaves(w, g, o.result)
            && (o.result.Ok? ==> Requests(w, f, 1) != [] && g.dest.Some?
                                 && Completes(w, Requests(w, f, 1)[|Requests(w, f, 1)| - 1], g.dest.value))
            && (o.result.Err? && o.result.error != Rename ==> g.dest == f.dest)
  {
    hide Attempts, Requests, AllMoves, AllDestSafe, Completes;
    DestMoves(w, f, 1, false);
    DestVerified(w, f, 1, false);
    if Call(w, f).result.Ok? { LastRequestCompletes(w, f, 1, false); }
  }

  // ----- when a call succeeds, and what a mismatch leaves -----

  /** The answer sends the call on: the body broke off, the server had none, or it could not be reached while there
      is a partial to go on from. */
  predicate GoesOn(a: Answer, offset: nat) {
    if a.Refused? then offset > 0
    else if a.status == 200 || a.status == 206 then !a.openFails && a.end == Dropped
    else a.status != 416 && !(400 <= a.status < 500)
  }

  /** The files an answer leaves to the next attempt. */
  function Onward(f: Files, a: Answer): Files {
    if IsBody(a) then AfterStream(f, a) else f
  }

  /** The files attempt `n` starts from, when attempt `first` starts from `f`. */
  function FilesAt(w: World, f: Files, first: nat, n: nat): Files
    requires first <= n
    decreases n - first
  {
    if first == n then f else FilesAt(w, Onward(f, w.serve(first, Len(f.part))), first + 1, n)
  }

  function AnswerAt(w: World, f: Files, first: nat, n: nat): Answer
    requires first <= n
  {
    w.serve(n, Len(FilesAt(w, f, first, n).part))
  }

  predicate GoesOnAt(w: World, f: Files, first: nat, k: nat)
    requires first <= k
  {
    GoesOn(AnswerAt(w, f, first, k), Len(FilesAt(w, f, first, k).part))
  }

  /** The file an answer completes: the partial a 416 finds whole, or a body received to its end. */
  function Completed(f: Files, a: Answer): Option<Bytes> {
    if a.Refused? then None
    else if a.status == 416 then f.part
    else if IsBody(a) && a.end == Eof then AfterStream(f, a).part
    else None
  }

  /** The disk and the checksum let `x` take the place of `dest`. */
  predicate Promotable(w: World, dest: Option<Bytes>, x: Bytes) {
    && (w.want.Some? ==> w.hash(x) == w.want.value)
    && w.disk != HashFails && w.disk != RenameFails && (dest.Some? ==> w.disk != ReplaceFails)
  }

  /** Every attempt before `n` goes on. */
  predicate Reached(w: World, f: Files, first: nat, n: nat)
    requires first <= n
  {
    forall k :: first <= k < n ==> GoesOnAt(w, f, first, k)
  }

  /** Attempt `n` is answered by a complete file that can be promoted, and every one before it goes on. */
  predicate SucceedsAt(w: World, f: Files, first: nat, n: nat)
    requires first <= n
  {
    && Reached(w, f, first, n)
    && var x := Completed(FilesAt(w, f, first, n), AnswerAt(w, f, first, n));
       x.Some? && Promotable(w, f.dest, x.value)
  }

  lemma {:induction false} ReachedLater(w: World, f: Files, first: nat, n: nat)
    requires first < n
    ensures var a := w.serve(first, Len(f.part)); var g := Onward(f, a);
            && (Reached(w, f, first, n) <==> GoesOn(a, Len(f.part)) && Reached(w, g, first + 1, n))
            && FilesAt(w, f, first, n) == FilesAt(w, g, first + 1, n)
            && AnswerAt(w, f, first, n) == AnswerAt(w, g, first + 1, n) && g.dest == f.dest
  {
    hide GoesOn;
    var a := w.serve(first, Len(f.part));
    var g := Onward(f, a);
    var next := first + 1;
    assert FilesAt(w, f, first, first) == f && AnswerAt(w, f, first, first) == a;
    forall k | first < k <= n
      ensures FilesAt(w, f, first, k) == FilesAt(w, g, first + 1, k)
      ensures AnswerAt(w, f, first, k) == AnswerAt(w, g, first + 1, k)
    {
    }
    if GoesOn(a, Len(f.part)) && Reached(w, g, first + 1, n) {
      forall k | first <= k < n ensures GoesOnAt(w, f, first, k) {
        if k > first { assert GoesOnAt(w, g, first + 1, k); }
      }
    }
    if Reached(w, f, first, n) {
      assert GoesOnAt(w, f, first, first);
      forall k | next <= k < n ensures GoesOnAt(w, g, next, k) { assert GoesOnAt(w, f, first, k); }
    }
  }

  lemma {:induction false} SucceedsLater(w: World, f: Files, first: nat, n: nat)
    requires first < n
    ensures var a := w.serve(first, Len(f.part));
            SucceedsAt(w, f, first, n) <==> GoesOn(a, Len(f.part)) && SucceedsAt(w, Onward(f, a), first + 1, n)
  {
    hide GoesOn, Completed, Promotable, Reached, FilesAt, AnswerAt;
    ReachedLater(w, f, first, n);
  }

  /** A call asks once for every attempt it reaches, from the length its partial then has. */
  lemma {:induction false} RequestsIff(w: World, f: Files, first: nat, q: Request)
    requires 1 <= first
    ensures q in Requests(w, f, first) <==>
              && first <= q.attempt <= MAX_ATTEMPTS && Reached(w, f, first, q.attempt)
              && q.offset == Len(FilesAt(w, f, first, q.attempt).part)
    decreases MAX_ATTEMPTS + 1 - first
  {
    hide GoesOn, FilesAt, Reached, Onward, Requests, Len;
    if first > MAX_ATTEMPTS {
      NoRequestLeft(w, f, first);
    } else {
      var a := w.serve(first, Len(f.part));
      NothingBefore(w, f, first);
      RequestsStep(w, f, first);
      RequestsIff(w, Onward(f, a), first + 1, q);
      if first < q.attempt { ReachedLater(w, f, first, q.attempt); }
    }
  }

  lemma NoRequestLeft(w: World, f: Files, first: nat)
    requires first > MAX_ATTEMPTS
    ensures Requests(w, f, first) == []
  {
  }

  lemma NothingBefore(w: World, f: Files, first: nat)
    ensures Reached(w, f, first, first) && FilesAt(w, f, first, first) == f
  {
  }

  lemma RequestsStep(w: World, f: Files, first: nat)
    requires 1 <= first <= MAX_ATTEMPTS
    ensures var a := w.serve(first, Len(f.part));
            Requests(w, f, first) == [Request(first, Len(f.part))]
              + if GoesOn(a, Len(f.part)) then Requests(w, Onward(f, a), first + 1) else []
  {
    hide AfterStream;
    assert Asked(w, Request(first, Len(f.part))) == w.serve(first, Len(f.part));
    assert Requests(w, Onward(f, w.serve(first, Len(f.part))), MAX_ATTEMPTS + 1) == [];
  }

  lemma FinalizeSucceedsIff(w: World, f: Files, resumed: bool)
    ensures Finalize(w, f, resumed).result.Ok? <==> f.part.Some? && Promotable(w, f.dest, f.part.value)
  {
  }

  /** What one turn makes of the call's success. */
  lemma {:induction false} TurnDecides(w: World, f: Files, first: nat, resumed: bool)
    requires 1 <= first <= MAX_ATTEMPTS
    ensures var a := w.serve(first, Len(f.part));
            if GoesOn(a, Len(f.part)) then
              && Completed(f, a).None?
              && if first == MAX_ATTEMPTS then !Attempts(w, f, first, resumed).result.Ok?
                 else Attempts(w, f, first, resumed).result
                      == Attempts(w, Onward(f, a), first + 1, resumed || (a.Response? && a.status == 206)).result
            else Attempts(w, f, first, resumed).result.Ok?
                 <==> Completed(f, a).Some? && Promotable(w, f.dest, Completed(f, a).value)
  {
    hide Finalize, Streamed, AfterStream, Promotable;
    var a := w.serve(first, Len(f.part));
    var r := resumed || (a.Response? && a.status == 206);
    FinalizeSucceedsIff(w, f, true);
    if IsBody(a) {
      StreamKeepsDest(f, a);
      FinalizeSucceedsIff(w, AfterStream(f, a), r);
      BodyStays(f, a);
    }
  }

  lemma BodyStays(f: Files, a: Answer)
    requires a.Response?
    ensures AfterStream(f, a).part.Some?
  {
  }

  lemma {:induction false} AttemptsSucceedIff(w: World, f: Files, first: nat, resumed: bool)
    requires 1 <= first <= MAX_ATTEMPTS
    ensures Attempts(w, f, first, resumed).result.Ok?
       <==> exists n :: first <= n <= MAX_ATTEMPTS && SucceedsAt(w, f, first, n)
    decreases MAX_ATTEMPTS - first
  {
    hide GoesOn, Completed, Promotable, Attempts, Onward, SucceedsAt;
    var a := w.serve(first, Len(f.part));
    var g := Onward(f, a);
    TurnDecides(w, f, first, resumed);
    SucceedsNow(w, f, first);
    forall n | first < n <= MAX_ATTEMPTS
      ensures SucceedsAt(w, f, first, n) <==> GoesOn(a, Len(f.part)) && SucceedsAt(w, g, first + 1, n)
    {
      SucceedsLater(w, f, first, n);
    }
    if GoesOn(a, Len(f.part)) && first < MAX_ATTEMPTS {
      AttemptsSucceedIff(w, g, first + 1, resumed || (a.Response? && a.status == 206));
      var next := first + 1;
      if exists n :: next <= n <= MAX_ATTEMPTS && SucceedsAt(w, g, next, n) {
        var n :| next <= n <= MAX_ATTEMPTS && SucceedsAt(w, g, next, n);
        assert SucceedsAt(w, f, first, n);
      }
    }
  }

  lemma SucceedsNow(w: World, f: Files, first: nat)
    ensures var x := Completed(f, w.serve(first, Len(f.part)));
            SucceedsAt(w, f, first, first) <==> x.Some? && Promotable(w, f.dest, x.value)
  {
  }

  /** A call succeeds exactly when one of its five attempts is answered by a complete file that can be promoted and
      every attempt before that one goes on. */
  lemma SucceedsIff(w: World, f: Files)
    ensures Call(w, f).result.Ok? <==> exists n :: 1 <= n <= MAX_ATTEMPTS && SucceedsAt(w, f, 1, n)
  {
    hide Attempts, SucceedsAt;
    AttemptsSucceedIff(w, f, 1, false);
  }

  /** Why an attempt that ends a call ends it with this error: `f` and `a` are its files and its answer. */
  predicate Explains(w: World, f: Files, a: Answer, n: nat, e: Error) {
    match e
    case Connect => a.Refused? && Len(f.part) == 0
    case Http(s) => a.Response? && a.status == s && 400 <= s < 500 && s != 416
    case Open => a.Response? && (a.status == 200 || a.status == 206) && a.openFails
    case Write => IsBody(a) && a.end.WriteFault?
    case Interrupted => n == 5 && IsBody(a) && a.end == Dropped
    case Exhausted => n == 5 && GoesOn(a, Len(f.part)) && !IsBody(a)
    case Hash =>
      || (a.Response? && a.status == 416 && f.part.None?)
      || (Completed(f, a).Some? && w.disk == HashFails)
    case Mismatch =>
      Completed(f, a).Some? && w.disk != HashFails && w.want.Some? && w.hash(Completed(f, a).value) != w.want.value
    case Replace =>
      Completed(f, a).Some? && Verified(w, Completed(f, a).value) && f.dest.Some? && w.disk == ReplaceFails
    case Rename => Completed(f, a).Some? && Verified(w, Completed(f, a).value) && w.disk == RenameFails
  }

  predicate FailsAt(w: World, f: Files, first: nat, n: nat, e: Error)
    requires first <= n
  {
    Reached(w, f, first, n) && Explains(w, FilesAt(w, f, first, n), AnswerAt(w, f, first, n), n, e)
  }

  lemma FinalizeExplained(w: World, f: Files, resumed: bool, e: Error)
    ensures Finalize(w, f, resumed).result == Err(e) <==>
              match f.part
              case None => e == Hash
              case Some(x) =>
                || (e == Hash && w.disk == HashFails)
                || (e == Mismatch && w.disk != HashFails && !Verified(w, x))
                || (e == Replace && Verified(w, x) && f.dest.Some? && w.disk == ReplaceFails)
                || (e == Rename && Verified(w, x) && w.disk == RenameFails)
  {
  }

  /** What one turn makes of the call's error. */
  lemma {:induction false} TurnExplains(w: World, f: Files, first: nat, resumed: bool, e: Error)
    requires 1 <= first <= MAX_ATTEMPTS
    ensures var a := w.serve(first, Len(f.part));
            if GoesOn(a, Len(f.part)) && first < MAX_ATTEMPTS
            then !Explains(w, f, a, first, e)
            else Attempts(w, f, first, resumed).result == Err(e) <==> Explains(w, f, a, first, e)
  {
    hide Finalize, Streamed, AfterStream, AfterBody;
    var a := w.serve(first, Len(f.part));
    if IsBody(a) { BodyExplains(w, f, first, resumed, a, e); }
    FinalizeExplained(w, f, true, e);
  }

  lemma {:induction false} BodyExplains(w: World, f: Files, first: nat, resumed: bool, a: Answer, e: Error)
    requires 1 <= first <= MAX_ATTEMPTS && IsBody(a)
    ensures var g, r := AfterStream(f, a), resumed || a.status == 206;
            if a.end == Dropped && first < MAX_ATTEMPTS then !Explains(w, f, a, first, e)
            else AfterBody(w, g, first, r, a).result == Err(e) <==> Explains(w, f, a, first, e)
  {
    hide Finalize, AfterStream, Attempts;
    StreamKeepsDest(f, a);
    FinalizeExplained(w, AfterStream(f, a), resumed || a.status == 206, e);
    BodyStays(f, a);
  }

  lemma {:induction false} AttemptsFailIff(w: World, f: Files, first: nat, resumed: bool, e: Error)
    requires 1 <= first <= MAX_ATTEMPTS
    ensures Attempts(w, f, first, resumed).result == Err(e)
       <==> exists n :: first <= n <= MAX_ATTEMPTS && FailsAt(w, f, first, n, e)
    decreases MAX_ATTEMPTS - first
  {
    hide GoesOn, Explains, Completed, Promotable, Attempts, Onward, FailsAt;
    var a := w.serve(first, Len(f.part));
    var g := Onward(f, a);
    TurnDecides(w, f, first, resumed);
    TurnExplains(w, f, first, resumed, e);
    FailsNow(w, f, first, e);
    forall n | first < n <= MAX_ATTEMPTS
      ensures FailsAt(w, f, first, n, e) <==> GoesOn(a, Len(f.part)) && FailsAt(w, g, first + 1, n, e)
    {
      FailsLater(w, f, first, n, e);
    }
    if GoesOn(a, Len(f.part)) && first < MAX_ATTEMPTS {
      AttemptsFailIff(w, g, first + 1, resumed || (a.Response? && a.status == 206), e);
      var next := first + 1;
      if exists n :: next <= n <= MAX_ATTEMPTS && FailsAt(w, g, next, n, e) {
        var n :| next <= n <= MAX_ATTEMPTS && FailsAt(w, g, next, n, e);
        assert FailsAt(w, f, first, n, e);
      }
    }
  }

  lemma FailsNow(w: World, f: Files, first: nat, e: Error)
    ensures FailsAt(w, f, first, first, e) <==> Explains(w, f, w.serve(first, Len(f.part)), first, e)
  {
  }

  lemma FailsLater(w: World, f: Files, first: nat, n: nat, e: Error)
    requires first < n
    ensures var a := w.serve(first, Len(f.part));
            FailsAt(w, f, first, n, e) <==> GoesOn(a, Len(f.part)) && FailsAt(w, Onward(f, a), first + 1, n, e)
  {
    hide GoesOn, Explains, Reached, FilesAt, AnswerAt;
    ReachedLater(w, f, first, n);
  }

  /** A call fails with an error exactly when the attempts go on up to one whose answer, files or disk explain it. */
  lemma FailsIff(w: World, f: Files, e: Error)
    ensures Call(w, f).result == Err(e) <==> exists n :: 1 <= n <= MAX_ATTEMPTS && FailsAt(w, f, 1, n, e)
  {
    hide Attempts, FailsAt;
    AttemptsFailIff(w, f, 1, false, e);
  }

  /** The last writes of a promotion of `x`: an old destination is removed first. */
  function Swapped(dest: Option<Bytes>, x: Bytes, renamed: bool): seq<Files> {
    (if dest.Some? then [Files(Some(x), None)] else []) + (if renamed then [Files(None, Some(x))] else [])
  }

  /** The trail is some writes that leave `x` complete and the destination alone, and then the swap. */
  ghost predicate EndsInSwap(f: Files, trail: seq<Files>, renamed: bool) {
    exists s, x :: Final(f, s) == Files(Some(x), f.dest) && trail == s + Swapped(f.dest, x, renamed)
  }

  lemma FinalizeSwaps(w: World, f: Files, resumed: bool)
    ensures var o := Finalize(w, f, resumed);
            o.result.Ok? || o.result == Err(Rename) ==> EndsInSwap(f, o.trail, o.result.Ok?)
  {
    var o := Finalize(w, f, resumed);
    if o.result.Ok? || o.result == Err(Rename) {
      var none: seq<Files> := [];
      var x := f.part.value;
      assert Final(f, none) == Files(Some(x), f.dest) && o.trail == none + Swapped(f.dest, x, o.result.Ok?);
    }
  }

  lemma SwapLater(f: Files, s: seq<Files>, g: Files, rest: seq<Files>, renamed: bool)
    requires s != [] && Final(f, s) == g && g.dest == f.dest && EndsInSwap(g, rest, renamed)
    ensures EndsInSwap(f, s + rest, renamed)
  {
    var t, x :| Final(g, t) == Files(Some(x), g.dest) && rest == t + Swapped(g.dest, x, renamed);
    FinalThen(f, s, g, t);
    ConcatAssoc(s, t, Swapped(g.dest, x, renamed));
  }

  /** A call that succeeds, or fails only to rename, passes through a state without a destination if there was one;
      in the second case it stays so. */
  lemma {:induction false} LastWrites(w: World, f: Files, attempt: nat, resumed: bool)
    requires 1 <= attempt
    ensures var o := Attempts(w, f, attempt, resumed);
            o.result.Ok? || o.result == Err(Rename) ==> EndsInSwap(f, o.trail, o.result.Ok?)
    decreases MAX_ATTEMPTS + 1 - attempt
  {
    hide Streamed, AfterStream, Finalize, EndsInSwap;
    if attempt <= MAX_ATTEMPTS {
      var a := w.serve(attempt, Len(f.part));
      if IsBody(a) {
        var f', r := AfterStream(f, a), resumed || a.status == 206;
        StreamKeepsDest(f, a);
        FinalizeSwaps(w, f', r);
        LastWrites(w, f', attempt + 1, r);
        var o := AfterBody(w, f', attempt, r, a);
        if o.result.Ok? || o.result == Err(Rename) { SwapLater(f, Streamed(f, a), f', o.trail, o.result.Ok?); }
      } else if a.Response? && a.status == 416 {
        FinalizeSwaps(w, f, true);
      } else {
        LastWrites(w, f, attempt + 1, resumed);
      }
    }
  }

  lemma FinalizeDrops(w: World, f: Files, resumed: bool)
    ensures var o := Finalize(w, f, resumed);
            o.result == Err(Mismatch) && w.disk != DropFails ==> Final(f, o.trail) == Files(None, f.dest)
  {
  }

  lemma {:induction false} MismatchLeaves(w: World, f: Files, attempt: nat, resumed: bool)
    requires 1 <= attempt
    ensures var o := Attempts(w, f, attempt, resumed);
            o.result == Err(Mismatch) && w.disk != DropFails ==> Final(f, o.trail) == Files(None, f.dest)
    decreases MAX_ATTEMPTS + 1 - attempt
  {
    hide Streamed, AfterStream, Finalize;
    if attempt <= MAX_ATTEMPTS {
      var a := w.serve(attempt, Len(f.part));
      if IsBody(a) {
        var f', r := AfterStream(f, a), resumed || a.status == 206;
        StreamKeepsDest(f, a);
        FinalizeDrops(w, f', r);
        MismatchLeaves(w, f', attempt + 1, r);
        FinalThen(f, Streamed(f, a), f', AfterBody(w, f', attempt, r, a).trail);
      } else if a.Response? && a.status == 416 {
        FinalizeDrops(w, f, true);
      } else {
        MismatchLeaves(w, f, attempt + 1, resumed);
      }
    }
  }

  /** After a checksum mismatch no byte of the rejected file is left to resume from: the destination is the old one,
      and the next call, in whatever world, begins with a request from byte 0. */
  lemma MismatchStartsOver(w: World, f: Files, next: World)
    ensures var o := Call(w, f);
            o.result == Err(Mismatch) && w.disk != DropFails ==>
              && Final(f, o.trail) == Files(None, f.dest)
              && Requests(next, Final(f, o.trail), 1) != []
              && Requests(next, Final(f, o.trail), 1)[0] == Request(1, 0)
  {
    hide Attempts;
    MismatchLeaves(w, f, 1, false);
  }

  // ----- correctness: a server of fixed content -----

  /** The server holds content `c` and answers as RFC 9110 prescribes: a 200 carries the whole of it
      (section 15.3.1), a 206 the rest from the requested offset and only on request (sections 14.2
      and 15.3.7), a 416 means nothing lies past the offset (section 15.5.17). A dropped or unwritten
      body is a prefix of that. */
  predicate Conforms(c: Bytes, offset: nat, a: Answer) {
    a.Response? ==>
      && (a.status == 200 ==> Data(a) <= c && (a.end == Eof ==> Data(a) == c))
      && (a.status == 206 ==> 0 < offset <= |c| && Data(a) <= c[offset..] && (a.end == Eof ==> Data(a) == c[offset..]))
      && (a.status == 416 ==> 0 < offset && |c| <= offset)
  }

  ghost predicate Serves(w: World, c: Bytes) {
    forall attempt: nat, offset: nat :: Conforms(c, offset, w.serve(attempt, offset))
  }

  predicate PrefixPart(c: Bytes, f: Files) {
    f.part.Some? ==> f.part.value <= c
  }

  predicate AllPrefix(c: Bytes, trail: seq<Files>) {
    forall i :: 0 <= i < |trail| ==> PrefixPart(c, trail[i])
  }

  predicate AllDest(c: Bytes, d: Option<Bytes>, trail: seq<Files>) {
    forall i :: 0 <= i < |trail| ==> trail[i].dest == d || trail[i].dest.None? || trail[i].dest == Some(c)
  }

  lemma {:induction false} StreamIsPrefix(c: Bytes, f: Files, a: Answer)
    requires IsBody(a) && Conforms(c, Len(f.part), a) && PrefixPart(c, f)
    ensures AllPrefix(c, Streamed(f, a)) && PrefixPart(c, AfterStream(f, a))
    ensures a.end == Eof ==> AfterStream(f, a).part == Some(c)
  {
    hide Data;
    var start, d := Start(f, a.status), Data(a);
    if a.status == 206 { assert c == start + c[|start|..]; } else { assert start + d == d; }
    assert start + d <= c;
    TakeIsPrefix(c, start, d, 0);
    assert AfterStream(f, a).part == Some(start + d) && (a.end == Eof ==> start + d == c);
    hide Conforms, IsBody;
    var s := Streamed(f, a);
    forall i | 0 <= i < |s| ensures PrefixPart(c, s[i]) {
      if i > 0 {
        assert s[i].part == Some(start + d[..i]);
        TakeIsPrefix(c, start, d, i);
      }
    }
  }

  lemma TakeIsPrefix(c: Bytes, start: Bytes, d: Bytes, i: nat)
    requires start + d <= c && i <= |d|
    ensures start + d[..i] <= c && start <= c
  {
    assert start + d == (start + d[..i]) + d[i..];
  }

  lemma {:induction false} FinalizeDelivers(w: World, c: Bytes, f: Files, resumed: bool)
    requires f.part == Some(c)
    ensures var o := Finalize(w, f, resumed);
            && AllPrefix(c, o.trail) && AllDest(c, f.dest, o.trail)
            && (o.result.Ok? ==> Final(f, o.trail) == Files(None, Some(c)) && o.result.bytes == |c|)
  {
  }

  /** With a conforming server the partial is a prefix of the content at every byte written, the
      destination only ever the old bytes, absent, or the content, and success delivers the content. */
  lemma {:induction false} Delivers(w: World, c: Bytes, f: Files, attempt: nat, resumed: bool)
    requires 1 <= attempt && Serves(w, c) && PrefixPart(c, f)
    ensures var o := Attempts(w, f, attempt, resumed);
            && AllPrefix(c, o.trail) && AllDest(c, f.dest, o.trail)
            && (o.result.Ok? ==> Final(f, o.trail) == Files(None, Some(c)) && o.result.bytes == |c|)
    decreases MAX_ATTEMPTS + 1 - attempt
  {
    hide Streamed, AfterStream, Finalize;
    if attempt <= MAX_ATTEMPTS {
      var a := w.serve(attempt, Len(f.part));
      assert Conforms(c, Len(f.part), a);
      if IsBody(a) {
        var f', r := AfterStream(f, a), resumed || a.status == 206;
        StreamIsPrefix(c, f, a);
        StreamKeepsDest(f, a);
        if a.end == Eof { FinalizeDelivers(w, c, f', r); }
        Delivers(w, c, f', attempt + 1, r);
        FinalThen(f, Streamed(f, a), f', AfterBody(w, f', attempt, r, a).trail);
      } else if a.Response? && a.status == 416 {
        assert f.part.Some? && f.part.value == c;
        FinalizeDelivers(w, c, f, true);
      } else {
        Delivers(w, c, f, attempt + 1, resumed);
      }
    }
  }

  // ----- runs of calls, each cut short anywhere -----

  /** A call that runs to its end, or dies after some of its writes. */
  datatype Visit = Visit(world: World, diesAfter: Option<nat>)

  function AfterVisit(f: Files, v: Visit): Files {
    var trail := Call(v.world, f).trail;
    match v.diesAfter
    case Some(n) => if n <= |trail| then Final(f, trail[..n]) else Final(f, trail)
    case None => Final(f, trail)
  }

  function AfterVisits(f: Files, vs: seq<Visit>): Files
    decreases |vs|
  {
    if vs == [] then f else AfterVisits(AfterVisit(f, vs[0]), vs[1..])
  }

  /** One of the calls ran to its successful end and left `x` in the destination. */
  predicate Promoted(f: Files, vs: seq<Visit>, x: Bytes)
    decreases |vs|
  {
    && vs != []
    && var o := Call(vs[0].world, f);
       || (o.result.Ok? && AfterVisit(f, vs[0]) == Final(f, o.trail) && Final(f, o.trail).dest == Some(x))
       || Promoted(AfterVisit(f, vs[0]), vs[1..], x)
  }

  /** Over any number of calls, each against any server and cut short anywhere, the destination is never seen
      half-written: it holds its first bytes, nothing, or what one of the successful calls completed. */
  lemma {:induction false} WholeOverVisits(f: Files, vs: seq<Visit>)
    ensures var g := AfterVisits(f, vs);
            g.dest == f.dest || g.dest.None? || Promoted(f, vs, g.dest.value)
    decreases |vs|
  {
    hide Call;
    if vs != [] {
      var v := vs[0];
      var o := Call(v.world, f);
      DestIntegrity(v.world, f);
      var g := AfterVisit(f, v);
      WholeOverVisits(g, vs[1..]);
      assert g.dest == f.dest || g.dest.None? || (o.result.Ok? && g == Final(f, o.trail)) by {
        match v.diesAfter
        case Some(n) => if n == |o.trail| { assert o.trail[..n] == o.trail; }
        case None =>
      }
    }
  }

  /** Over any number of calls, crashes and faults against servers of one content, the partial stays a
      prefix of it and the destination is the original bytes, absent, or the content. */
  lemma {:induction false} SafeOverVisits(c: Bytes, f: Files, vs: seq<Visit>)
    requires PrefixPart(c, f) && forall i :: 0 <= i < |vs| ==> Serves(vs[i].world, c)
    ensures var g := AfterVisits(f, vs);
            PrefixPart(c, g) && (g.dest == f.dest || g.dest.None? || g.dest == Some(c))
    decreases |vs|
  {
    if vs != [] {
      var v := vs[0];
      Delivers(v.world, c, f, 1, false);
      var g := AfterVisit(f, v);
      assert PrefixPart(c, g) && (g.dest == f.dest || g.dest.None? || g.dest == Some(c));
      assert forall i :: 0 <= i < |vs[1..]| ==> vs[1..][i] == vs[i + 1];
      SafeOverVisits(c, g, vs[1..]);
    }
  }

  // ----- what `resumed` reports -----

  /** The statuses a sequence of requests is answered with; a refused connection has none. */
  function Answered(w: World, qs: seq<Request>): seq<nat> {
    if qs == [] then []
    else (if Asked(w, qs[0]).Refused? then [] else [Asked(w, qs[0]).status]) + Answered(w, qs[1..])
  }

  /** The statuses answered, attempt by attempt. */
  function Statuses(w: World, f: Files, attempt: nat): seq<nat>
    requires 1 <= attempt
  {
    Answered(w, Requests(w, f, attempt))
  }

  lemma AnsweredFirst(w: World, q: Request, qs: seq<Request>)
    ensures Answered(w, [q] + qs) == (if Asked(w, q).Refused? then [] else [Asked(w, q).status]) + Answered(w, qs)
    ensures Asked(w, q).Refused? ==> Answered(w, [q] + qs) == Answered(w, qs)
  {
    assert ([q] + qs)[1..] == qs;
    assert [] + Answered(w, qs) == Answered(w, qs);
  }

  lemma AnsweredOne(w: World, q: Request)
    requires Asked(w, q).Response?
    ensures Answered(w, [q]) == [Asked(w, q).status]
  {
    AnsweredFirst(w, q, []);
    assert [q] + [] == [q];
  }

  lemma {:induction false} AnsweredLast(w: World, qs: seq<Request>)
    requires qs != [] && Asked(w, qs[|qs| - 1]).Response?
    ensures Answered(w, qs) != [] && Answered(w, qs)[|Answered(w, qs)| - 1] == Asked(w, qs[|qs| - 1]).status
  {
    assert qs == [qs[0]] + qs[1..];
    AnsweredFirst(w, qs[0], qs[1..]);
    if |qs| == 1 { AnsweredOne(w, qs[0]); } else { AnsweredLast(w, qs[1..]); }
  }

  /** A successful call reports `resumed` exactly when some attempt was answered 206 or 416, even if a
      later 200 replaced what those attempts had written. */
  lemma {:induction false} ResumedIff(w: World, f: Files, attempt: nat, resumed: bool)
    requires 1 <= attempt
    ensures var o := Attempts(w, f, attempt, resumed);
            o.result.Ok? ==>
              (o.result.resumed <==> resumed || 206 in Statuses(w, f, attempt) || 416 in Statuses(w, f, attempt))
    decreases MAX_ATTEMPTS + 1 - attempt
  {
    hide Attempts, Requests, Answered, Streamed, AfterStream, Finalize;
    if Attempts(w, f, attempt, resumed).result.Ok? {
      TurnStep(w, f, attempt, resumed);
      var q := Request(attempt, Len(f.part));
      var a := Asked(w, q);
      match TurnOf(a)
      case Skips =>
        AnsweredFirst(w, q, Requests(w, f, attempt + 1));
        ResumedIff(w, f, attempt + 1, resumed);
      case Breaks =>
        AnsweredFirst(w, q, Requests(w, AfterStream(f, a), attempt + 1));
        ResumedIff(w, AfterStream(f, a), attempt + 1, resumed || a.status == 206);
      case Ends =>
        AnsweredOne(w, q);
        FinalizeKeepsFlag(w, AfterStream(f, a), resumed || a.status == 206);
      case Holds =>
        AnsweredOne(w, q);
        FinalizeKeepsFlag(w, f, true);
    }
  }

  /** The answer to the request is a complete 200 with these bytes. */
  predicate WholeBody(w: World, q: Request, x: Bytes) {
    var a := Asked(w, q);
    a.Response? && a.status == 200 && a.end == Eof && Data(a) == x
  }

  /** The statuses of a successful call end in the answer the file was finished with; a 416 ends the call. */
  lemma {:induction false} LastStatus(w: World, f: Files, attempt: nat, resumed: bool)
    requires 1 <= attempt && Attempts(w, f, attempt, resumed).result.Ok?
    ensures var ss := Statuses(w, f, attempt);
            ss != [] && ss[|ss| - 1] in {200, 206, 416} && (416 in ss ==> ss[|ss| - 1] == 416)
    decreases MAX_ATTEMPTS + 1 - attempt
  {
    hide Attempts, Requests, Answered, Streamed, AfterStream, Finalize;
    TurnStep(w, f, attempt, resumed);
    var q := Request(attempt, Len(f.part));
    var a := Asked(w, q);
    match TurnOf(a)
    case Skips =>
      AnsweredFirst(w, q, Requests(w, f, attempt + 1));
      LastStatus(w, f, attempt + 1, resumed);
    case Breaks =>
      AnsweredFirst(w, q, Requests(w, AfterStream(f, a), attempt + 1));
      LastStatus(w, AfterStream(f, a), attempt + 1, resumed || a.status == 206);
    case _ => AnsweredOne(w, q);
  }

  /** When the last answer is a 200, the file is the one body the last request got, whatever was received before. */
  lemma {:induction false} Last200IsWhole(w: World, f: Files, attempt: nat, resumed: bool)
    requires 1 <= attempt && Attempts(w, f, attempt, resumed).result.Ok?
    ensures var ss, qs := Statuses(w, f, attempt), Requests(w, f, attempt);
            var g := Final(f, Attempts(w, f, attempt, resumed).trail);
            ss != [] && ss[|ss| - 1] == 200 ==> qs != [] && g.dest.Some? && WholeBody(w, qs[|qs| - 1], g.dest.value)
  {
    hide Attempts, Requests, Answered;
    var qs := Requests(w, f, attempt);
    LastRequestCompletes(w, f, attempt, resumed);
    AnsweredLast(w, qs);
    var x := Final(f, Attempts(w, f, attempt, resumed).trail).dest.value;
    assert x[0..] == x;
  }

  /** When nothing was resumed the file is the whole 200 body the last request got, whatever the server. */
  lemma NotResumedIsWhole(w: World, f: Files, attempt: nat)
    requires 1 <= attempt
    ensures var o, qs := Attempts(w, f, attempt, false), Requests(w, f, attempt);
            o.result.Ok? && !o.result.resumed ==>
              qs != [] && Final(f, o.trail).dest.Some? && WholeBody(w, qs[|qs| - 1], Final(f, o.trail).dest.value)
  {
    hide Attempts, Requests, Answered, WholeBody;
    if Attempts(w, f, attempt, false).result.Ok? {
      ResumedIff(w, f, attempt, false);
      LastStatus(w, f, attempt, false);
      Last200IsWhole(w, f, attempt, false);
    }
  }

  /** `resumed` says whether part of the file came from the partial, that is, whether the last answer was not a
      whole 200, exactly when no 206 came before such a 200. */
  lemma ResumedAccurateIff(w: World, f: Files)
    requires Call(w, f).result.Ok?
    ensures var ss := Statuses(w, f, 1);
            && ss != []
            && ((Call(w, f).result.resumed <==> ss[|ss| - 1] != 200)
                <==> !(ss[|ss| - 1] == 200 && 206 in ss))
  {
    hide Attempts, Requests, Answered;
    ResumedIff(w, f, 1, false);
    LastStatus(w, f, 1, false);
  }

  /** A server of `c` that drops the continuation of a partial at once and then ignores the range. */
  function DropThenWhole(c: Bytes, p: Bytes, hash: Bytes -> string): World {
    World((attempt: nat, offset: nat) =>
            if attempt == 1 && offset == |p| then Response(206, false, [], Dropped)
            else if attempt == 2 then Response(200, false, [c], Eof)
            else Refused,
          AllWell, hash, None)
  }

  /** Such a call reports `resumed` although the whole file came in one 200 response, from a server that keeps
      to the standard. */
  lemma {:induction false} ResumedAfterWhole(c: Bytes, p: Bytes, hash: Bytes -> string)
    requires p != [] && p <= c
    ensures var w, f := DropThenWhole(c, p, hash), Files(Some(p), None);
            && Serves(w, c) && Statuses(w, f, 1) == [206, 200]
            && Call(w, f).result == Ok(|c|, true, hash(c)) && Final(f, Call(w, f).trail) == Files(None, Some(c))
  {
    var w, f := DropThenWhole(c, p, hash), Files(Some(p), None);
    OneChunk(c);
    var a, b := w.serve(1, |p|), w.serve(2, |p|);
    assert Data(a) == [] && Data(b) == c;
    assert p + [] == p;
    var f1 := AfterStream(f, a);
    assert f1 == f;
    var f2 := AfterStream(f1, b);
    assert [] + c == c && f2 == Files(Some(c), None);
    DropThenWholeRuns(w, c, f, f2);
  }

  lemma {:induction false} DropThenWholeRuns(w: World, c: Bytes, f: Files, f2: Files)
    requires w.disk == AllWell && w.want == None && f2 == Files(Some(c), None) && f.part.Some? && f.part.value != []
    requires var a := w.serve(1, Len(f.part)); a == Response(206, false, [], Dropped) && AfterStream(f, a) == f
    requires var b := w.serve(2, Len(f.part)); b == Response(200, false, [c], Eof) && AfterStream(f, b) == f2
    ensures Statuses(w, f, 1) == [206, 200]
    ensures Call(w, f).result == Ok(|c|, true, w.hash(c)) && Final(f, Call(w, f).trail) == Files(None, Some(c))
  {
    hide AfterStream, Streamed;
    var a, b := w.serve(1, Len(f.part)), w.serve(2, Len(f.part));
    StreamKeepsDest(f, a);
    StreamKeepsDest(f, b);
    var last := Finalize(w, f2, true);
    assert Attempts(w, f, 2, true) == Then(Streamed(f, b), AfterBody(w, f2, 2, true, b));
    assert AfterBody(w, f2, 2, true, b) == last;
    FinalThen(f, Streamed(f, b), f2, last.trail);
    var second := Attempts(w, f, 2, true);
    assert Call(w, f) == Then(Streamed(f, a), AfterBody(w, f, 1, true, a));
    assert AfterBody(w, f, 1, true, a) == second;
    FinalThen(f, Streamed(f, a), f, second.trail);
    assert Requests(w, f, 2) == [Request(2, Len(f.part))];
    AnsweredOne(w, Request(2, Len(f.part)));
    AnsweredFirst(w, Request(1, Len(f.part)), Requests(w, f, 2));
  }

  lemma OneChunk(c: Bytes)
    ensures Concat([c]) == c && Concat([]) == []
  {
    assert [c][1..] == [];
    assert c + [] == c;
  }

  // ----- nothing received is lost -----

  /** No attempt is answered from byte 0. */
  ghost predicate NeverRestarts(w: World) {
    forall attempt: nat, offset: nat :: w.serve(attempt, offset).Response? ==> w.serve(attempt, offset).status != 200
  }

  predicate Extends(f: Files, s: Files) {
    s.part.Some? && f.part.Some? && f.part.value <= s.part.value
  }

  /** Unless the server restarts, every failed call short of a checksum mismatch keeps all the bytes the
      partial held, and each state on the way extends the one before it. */
  lemma {:induction false} KeepsBytes(w: World, f: Files, attempt: nat, resumed: bool)
    requires 1 <= attempt && NeverRestarts(w) && f.part.Some? && f.part.value != []
    ensures var o := Attempts(w, f, attempt, resumed);
            o.result.Err? && o.result.error != Mismatch ==> Chain(f, o.trail) && Extends(f, Final(f, o.trail))
    decreases MAX_ATTEMPTS + 1 - attempt
  {
    hide Streamed, AfterStream;
    if attempt <= MAX_ATTEMPTS {
      var a := w.serve(attempt, Len(f.part));
      if IsBody(a) {
        var f' := AfterStream(f, a);
        StreamKeepsDest(f, a);
        StreamExtends(f, a);
        KeepsBytes(w, f', attempt + 1, true);
        FinalizeKeeps(w, f', true);
        var rest := AfterBody(w, f', attempt, true, a);
        if rest.result.Err? && rest.result.error != Mismatch {
          ChainExtends(f, Streamed(f, a), f', rest.trail);
        }
      } else if a.Response? && a.status == 416 {
        FinalizeKeeps(w, f, true);
      } else {
        KeepsBytes(w, f, attempt + 1, resumed);
      }
    }
  }

  lemma {:induction false} FinalizeKeeps(w: World, f: Files, resumed: bool)
    requires f.part.Some?
    ensures var o := Finalize(w, f, resumed);
            o.result.Err? && o.result.error != Mismatch ==> Chain(f, o.trail) && Extends(f, Final(f, o.trail))
  {
  }

  predicate Chain(f: Files, trail: seq<Files>) {
    forall i :: 0 <= i < |trail| ==> Extends(Final(f, trail[..i]), trail[i])
  }

  lemma {:induction false} StreamExtends(f: Files, a: Answer)
    requires a.Response? && a.status == 206 && f.part.Some? && f.part.value != []
    ensures Chain(f, Streamed(f, a)) && Extends(f, AfterStream(f, a))
  {
    var s, d, p := Streamed(f, a), Data(a), f.part.value;
    forall i | 0 <= i < |s| ensures Extends(Final(f, s[..i]), s[i]) {
      if i == 1 {
        assert s[..1][0] == s[0];
      } else if i > 1 {
        assert s[..i][i - 1] == s[i - 1];
        assert d[..i] == d[..i - 1] + [d[i - 1]];
        assert p + d[..i] == (p + d[..i - 1]) + [d[i - 1]];
      }
    }
  }

  lemma {:induction false} ChainExtends(f: Files, s: seq<Files>, g: Files, rest: seq<Files>)
    requires Chain(f, s) && s != [] && Final(f, s) == g && Chain(g, rest) && Extends(f, g)
    requires Extends(g, Final(g, rest))
    ensures Chain(f, s + rest) && Extends(f, Final(f, s + rest))
  {
    var t := s + rest;
    forall i | 0 <= i < |t| ensures Extends(Final(f, t[..i]), t[i]) {
      if i < |s| {
        assert t[..i] == s[..i];
      } else {
        assert t[..i] == s + rest[..i - |s|];
        assert Final(f, t[..i]) == Final(g, rest[..i - |s|]);
      }
    }
  }

  // ----- the downloader -----

  lemma ThenAssoc(a: seq<Files>, b: seq<Files>, o: Outcome)
    ensures Then(a, Then(b, o)) == Then(a + b, o)
    ensures Then([], o) == o
  {
    assert (a + b) + o.trail == a + (b + o.trail);
    assert [] + o.trail == o.trail;
  }

  lemma {:induction false} FinalConcat(f: Files, a: seq<Files>, b: seq<Files>)
    ensures Final(f, a + b) == Final(Final(f, a), b)
  {
    if b == [] { assert a + b == a; }
  }

  lemma {:induction false} GrowConcat(f: Files, start: Bytes, a: Bytes, b: Bytes)
    ensures Grow(f, start, a + b) == Grow(f, start, a) + Grow(f.(part := Some(start + a)), start + a, b)
  {
    var g, h := Grow(f, start, a + b), Grow(f.(part := Some(start + a)), start + a, b);
    forall i | 0 <= i < |a + b| ensures g[i] == (Grow(f, start, a) + h)[i] {
      if i < |a| {
        assert (a + b)[..i + 1] == a[..i + 1];
      } else {
        assert (a + b)[..i + 1] == a + b[..i + 1 - |a|];
        assert start + (a + b[..i + 1 - |a|]) == (start + a) + b[..i + 1 - |a|];
      }
    }
  }

  class Downloader {
    var part: Option<Bytes>
    var dest: Option<Bytes>
    /** Every state the two files have been in since the downloader was made, write by write. */
    ghost var trail: seq<Files>
    ghost const initial: Files

    constructor (part0: Option<Bytes>, dest0: Option<Bytes>)
      ensures initial == Files(part0, dest0) && Now() == initial && trail == []
    {
      part, dest, trail, initial := part0, dest0, [], Files(part0, dest0);
    }

    ghost function Now(): Files
      reads this
    {
      Files(part, dest)
    }

    /** The streaming loop: chunks are appended as they arrive, and the offset follows. */
    method Stream(a: Answer, offset0: nat) returns (offset: nat)
      requires IsBody(a) && offset0 == |Start(Now(), a.status)|
      modifies this
      ensures trail == old(trail) + Streamed(old(Now()), a)
      ensures Now() == AfterStream(old(Now()), a) && offset == Len(part)
    {
      ghost var f, start := Now(), Start(Now(), a.status);
      offset := offset0;
      if offset == 0 { part := Some([]); }
      trail := trail + [Now()];
      var i := 0;
      while i < |a.chunks|
        invariant 0 <= i <= |a.chunks|
        invariant part.Some? && dest == f.dest && offset == |part.value|
        invariant part.value + (Concat(a.chunks[i..]) + TornBytes(a)) == start + Data(a)
        invariant trail + Grow(Now(), part.value, Concat(a.chunks[i..]) + TornBytes(a)) == old(trail) + Streamed(f, a)
      {
        var chunk := a.chunks[i];
        ghost var rest := Concat(a.chunks[i + 1..]) + TornBytes(a);
        assert a.chunks[i..][0] == chunk && a.chunks[i..][1..] == a.chunks[i + 1..];
        assert Concat(a.chunks[i..]) + TornBytes(a) == chunk + rest;
        GrowConcat(Now(), part.value, chunk, rest);
        WriteStep(trail, part.value, chunk, rest, Grow(Now(), part.value, chunk),
                  Grow(Now().(part := Some(part.value + chunk)), part.value + chunk, rest));
        trail := trail + Grow(Now(), part.value, chunk);
        part := Some(part.value + chunk);
        offset := offset + |chunk|;
        i := i + 1;
      }
      var torn := TornBytes(a);
      assert Concat(a.chunks[i..]) + torn == torn;
      trail := trail + Grow(Now(), part.value, torn);
      part := Some(part.value + torn);
      offset := offset + |torn|;
    }

    /** `finalize` */
    method Promote(w: World, resumed: bool) returns (r: Result)
      modifies this
      ensures var o := Finalize(w, old(Now()), resumed);
              r == o.result && trail == old(trail) + o.trail && Now() == Final(old(Now()), o.trail)
      ensures r == Err(Mismatch) && w.disk != DropFails ==> part.None? && dest == old(dest)
    {
      if part.None? || w.disk == HashFails { return Err(Hash); }
      var sha256 := w.hash(part.value);
      if w.want.Some? && sha256 != w.want.value {
        if w.disk != DropFails {
          part := None;
          trail := trail + [Now()];
        }
        return Err(Mismatch);
      }
      var bytes := |part.value|;
      if dest.Some? {
        if w.disk == ReplaceFails { return Err(Replace); }
        dest := None;
        trail := trail + [Now()];
      }
      if w.disk == RenameFails { return Err(Rename); }
      part, dest := None, part;
      trail := trail + [Now()];
      r := Ok(bytes, resumed, sha256);
    }

    /** One turn of the attempt loop: either the call is over, or the next attempt takes up from here.
        The offset stays the partial's length. */
    method Attempt(w: World, attempt: nat, offset0: nat, resumed0: bool)
      returns (over: Option<Result>, offset: nat, resumed: bool, ghost done: seq<Files>)
      requires 1 <= attempt <= MAX_ATTEMPTS && offset0 == Len(part)
      modifies this
      ensures over.None? ==> offset == Len(part)
      ensures trail == old(trail) + done && Now() == Final(old(Now()), done)
      ensures Attempts(w, old(Now()), attempt, resumed0)
           == Then(done, if over.Some? then Outcome([], over.value) else Attempts(w, Now(), attempt + 1, resumed))
    {
      hide Streamed, AfterStream, Finalize;
      ghost var f := Now();
      offset, resumed, done := offset0, resumed0, [];
      ThenAssoc([], [], Attempts(w, f, attempt, resumed0));
      ThenAssoc([], [], Attempts(w, f, attempt + 1, resumed0));
      var a := w.serve(attempt, offset);
      if a.Refused? {
        over := if offset == 0 then Some(Err(Connect)) else None;
        return;
      }
      if a.status == 416 {
        var r := Promote(w, true);
        done := Finalize(w, f, true).trail;
        return Some(r), offset, resumed, done;
      }
      if a.status != 200 && a.status != 206 {
        over := if 400 <= a.status < 500 then Some(Err(Http(a.status))) else None;
        return;
      }
      if a.status == 200 { offset := 0; } else { resumed := true; }
      if a.openFails { return Some(Err(Open)), offset, resumed, done; }
      over, offset, done := Receive(w, a, attempt, offset, resumed);
    }

    /** The body of an answer streamed into the partial, and what follows it. */
    method Receive(w: World, a: Answer, attempt: nat, offset0: nat, resumed: bool)
      returns (over: Option<Result>, offset: nat, ghost done: seq<Files>)
      requires 1 <= attempt <= MAX_ATTEMPTS && IsBody(a) && offset0 == |Start(Now(), a.status)|
      modifies this
      ensures over.None? ==> offset == Len(part)
      ensures trail == old(trail) + done && Now() == Final(old(Now()), done)
      ensures Then(Streamed(old(Now()), a), AfterBody(w, AfterStream(old(Now()), a), attempt, resumed, a))
           == Then(done, if over.Some? then Outcome([], over.value) else Attempts(w, Now(), attempt + 1, resumed))
    {
      hide Streamed, AfterStream, Finalize, Attempts;
      ghost var f := Now();
      offset := Stream(a, offset0);
      StreamKeepsDest(f, a);
      done := Streamed(f, a);
      match a.end {
        case WriteFault(_) => over := Some(Err(Write));
        case Eof =>
          ghost var g := Now();
          var r := Promote(w, resumed);
          FinalConcat(f, done, Finalize(w, g, resumed).trail);
          done := done + Finalize(w, g, resumed).trail;
          over := Some(r);
        case Dropped =>
          over := if attempt == MAX_ATTEMPTS then Some(Err(Interrupted)) else None;
      }
    }

    /** `download_file` */
    method DownloadFile(w: World) returns (r: Result)
      modifies this
      ensures var o := Call(w, old(Now()));
              r == o.result && trail == old(trail) + o.trail && Now() == Final(old(Now()), o.trail)
      ensures r == Err(Mismatch) && w.disk != DropFails ==> part.None? && dest == old(dest)
      ensures r.Ok? <==> exists n :: 1 <= n <= MAX_ATTEMPTS && SucceedsAt(w, old(Now()), 1, n)
    {
      hide Attempts, Len, Then, SucceedsAt;
      SucceedsIff(w, Now());
      MismatchLeaves(w, Now(), 1, false);
      ghost var f, o := Now(), Call(w, Now());
      ghost var done: seq<Files> := [];
      var offset := Len(part);
      var resumed := false;
      var attempt := 1;
      ThenAssoc([], [], o);
      while attempt <= MAX_ATTEMPTS
        invariant 1 <= attempt <= MAX_ATTEMPTS + 1
        invariant attempt <= MAX_ATTEMPTS ==> offset == Len(part)
        invariant trail == old(trail) + done && Now() == Final(f, done)
        invariant o == Then(done, Attempts(w, Now(), attempt, resumed))
      {
        var over;
        ghost var more;
        over, offset, resumed, more := Attempt(w, attempt, offset, resumed);
        FinalConcat(f, done, more);
        ThenAssoc(done, more, if over.Some? then Outcome([], over.value) else Attempts(w, Now(), attempt + 1, resumed));
        done := done + more;
        if over.Some? {
          ThenDone(done, over.value);
          return over.value;
        }
        attempt := attempt + 1;
      }
      NoAttemptLeft(w, Now(), resumed);
      ThenDone(done, Err(Exhausted));
      r := Err(Exhausted);
    }
  }

  lemma ThenDone(trail: seq<Files>, r: Result)
    ensures Then(trail, Outcome([], r)) == Outcome(trail, r)
  {
    assert trail + [] == trail;
  }

  lemma NoAttemptLeft(w: World, f: Files, resumed: bool)
    ensures Attempts(w, f, MAX_ATTEMPTS + 1, resumed) == Outcome([], Err(Exhausted))
  {
  }

  function TornBytes(a: Answer): Bytes
    requires a.Response?
  {
    match a.end case WriteFault(torn) => torn case _ => []
  }

  lemma WriteStep(trail: seq<Files>, p: Bytes, chunk: Bytes, rest: Bytes, now: seq<Files>, later: seq<Files>)
    ensures trail + (now + later) == (trail + now) + later
    ensures p + (chunk + rest) == (p + chunk) + rest
  {
  }
}
