/** The reader's search for line ends in C's int: seekNewline sees the unread bytes only as
    far as their number survives a conversion. Here the machine of RespMachine runs with
    that search, and its runs are compared with the ones it was meant to have. */
module RespWindow {
  import opened Bytes
  import opened Decimal
  import opened RespGrammar
  import opened RespMachine

  /** int _len = len - 1, where len counts the unread bytes in size_t. */
  function Window(x: bytes): int32 { ToInt(|x| + 0xFFFF_FFFF) }

  /** What seekNewline finds. */
  function Found(x: bytes): (r: Option<nat>)
    ensures r.Some? ==> r.value + 1 < |x|
  {
    if Window(x) <= 0 then None else Newline(x[..Window(x) + 1])
  }

  lemma WindowFits(x: bytes)
    ensures Window(x) < |x| && (|x| <= INT_MAX + 1 ==> Window(x) == |x| - 1)
  {
  }

  lemma NewlinePrefix(x: bytes, k: nat)
    requires k <= |x|
    ensures Newline(x[..k]) == if Newline(x).Some? && Newline(x).value + 1 < k then Newline(x) else None
  {
    hide Newline;
    forall j | 0 <= j < k - 1 ensures NewlineAt(x[..k], j) <==> NewlineAt(x, j) {}
    var a, b := Newline(x), Newline(x[..k]);
    if a.Some? && a.value + 1 < k { assert NewlineAt(x[..k], a.value); }
    if b.Some? { assert NewlineAt(x, b.value); }
  }

  /** The search finds the first line end, if and only if there is none or it lies before
      the window's end; up to 2^31 bytes it always does. */
  lemma FoundIff(x: bytes)
    ensures Found(x) == Newline(x) <==> Newline(x) == None || Newline(x).value < Window(x)
    ensures Found(x).Some? ==> Found(x) == Newline(x)
    ensures |x| <= INT_MAX + 1 ==> Found(x) == Newline(x)
  {
    WindowFits(x);
    if Window(x) > 0 { NewlinePrefix(x, Window(x) + 1); }
    hide Window;
  }

  /** A step of the machine that searches in the window. */
  function StepFound(dbl: bytes -> bool, m: Machine, x: bytes): Step {
    if m.ty.Some? && Found(x) == None then Blocked else StepOn(dbl, m, x)
  }

  function RunFound(dbl: bytes -> bool, m: Machine, x: bytes): Outcome
    decreases |x|
  {
    StepConsumes(dbl, m, x);
    match StepFound(dbl, m, x)
    case Blocked => Outcome([], Waiting(m, x))
    case Stopped(f) => Outcome([], Dead(f))
    case Moved(m', rest) => RunFound(dbl, m', rest)
    case Emitted(r, rest) => Then(r, RunFound(dbl, FRESH, rest))
  }

  function ContinueFound(dbl: bytes -> bool, o: Outcome, y: bytes): Outcome {
    match o.end
    case Dead(_) => o
    case Waiting(m, rest) =>
      var later := RunFound(dbl, m, rest + y);
      Outcome(o.replies + later.replies, later.end)
  }

  const START: Outcome := Outcome([], Waiting(FRESH, []))

  /** A fresh machine, fed the pieces one by one and run after each. */
  function PiecesFound(dbl: bytes -> bool, pieces: seq<bytes>): Outcome {
    if |pieces| == 0 then START
    else ContinueFound(dbl, PiecesFound(dbl, pieces[..|pieces| - 1]), pieces[|pieces| - 1])
  }

  /** Where a run goes once an item has been read in front of it. */
  function AfterFound(dbl: bytes -> bool, stack: seq<Frame>, p: Parsed): Outcome
    requires p.Got?
  {
    match Complete(stack, p.reply)
    case Root(r) => Then(r, RunFound(dbl, FRESH, p.rest))
    case Within(s) => RunFound(dbl, Machine(s, None), p.rest)
    case Overflow => Outcome([], Dead(IndexOverflow))
  }

  /** What a run does with the item in hand. */
  lemma RunItemFound(dbl: bytes -> bool, m: Machine, x: bytes)
    requires m.ty.Some?
    ensures Found(x) == None ==> StepFound(dbl, m, x).Blocked?
    ensures Found(x).Some? ==> Newline(x) == Found(x)
    ensures Found(x).Some? ==>
      match ReadItem(dbl, m.ty.value, x, InPush(m.stack))
      case Incomplete => StepFound(dbl, m, x).Blocked?
      case Refused(f) => RunFound(dbl, m, x) == Outcome([], Dead(f))
      case Leaf(r, rest) => RunFound(dbl, m, x) == AfterFound(dbl, m.stack, Got(r, rest))
      case Opened(agg, n, rest) =>
        RunFound(dbl, m, x) == RunFound(dbl, Machine(m.stack + [Frame(agg, n, [])], None), rest)
  {
    hide ReadItem, Complete, Found, Newline;
    FoundIff(x);
  }

  // ----- what the window costs -----

  lemma NothingRun(dbl: bytes -> bool)
    ensures Run(dbl, FRESH, []) == START
  {
  }

  /** What has not been found is not lost: running on without the window makes up for it. */
  lemma {:induction false} FoundOwes(dbl: bytes -> bool, m: Machine, x: bytes)
    ensures Continue(dbl, RunFound(dbl, m, x), []) == Run(dbl, m, x)
    decreases |x|
  {
    hide StepOn, Found;
    StepConsumes(dbl, m, x);
    match StepFound(dbl, m, x)
    case Blocked =>
      assert x + [] == x && [] + Run(dbl, m, x).replies == Run(dbl, m, x).replies;
    case Stopped(f) =>
    case Moved(m', rest) => FoundOwes(dbl, m', rest);
    case Emitted(r, rest) =>
      FoundOwes(dbl, FRESH, rest);
      ContinueThen(dbl, r, RunFound(dbl, FRESH, rest), []);
  }

  lemma ContinueOwes(dbl: bytes -> bool, o: Outcome, y: bytes)
    ensures Continue(dbl, ContinueFound(dbl, o, y), []) == Continue(dbl, o, y)
  {
    hide Run, RunFound;
    if o.end.Waiting? {
      FoundOwes(dbl, o.end.m, o.end.rest + y);
      var later := RunFound(dbl, o.end.m, o.end.rest + y);
      if later.end.Waiting? {
        var more := Run(dbl, later.end.m, later.end.rest + []);
        Regroup(o.replies, later.replies, more.replies);
      }
    }
  }

  /** Continuing what a fresh run gave is running on the longer stream. */
  lemma ContinueRun(dbl: bytes -> bool, x: bytes, y: bytes)
    ensures Continue(dbl, Run(dbl, FRESH, x), y) == Run(dbl, FRESH, x + y)
  {
    hide Run;
    RunSplit(dbl, FRESH, x, y);
  }

  lemma RestedStays(dbl: bytes -> bool, o: Outcome)
    requires Rested(dbl, o)
    ensures Continue(dbl, o, []) == o
  {
    hide StepOn;
    if o.end.Waiting? { assert o.end.rest + [] == o.end.rest && o.replies + [] == o.replies; }
  }

  lemma {:induction false} PiecesOwe(dbl: bytes -> bool, pieces: seq<bytes>)
    ensures Continue(dbl, PiecesFound(dbl, pieces), []) == Run(dbl, FRESH, Flatten(pieces))
  {
    hide Run, RunFound, ContinueFound;
    if |pieces| == 0 {
      NothingRun(dbl);
      RestedStays(dbl, START);
    } else {
      var init, y := pieces[..|pieces| - 1], pieces[|pieces| - 1];
      var o := PiecesFound(dbl, init);
      assert pieces == init + [y];
      PiecesOwe(dbl, init);
      ContinueOwes(dbl, o, y);
      ContinueTwice(dbl, o, [], y);
      assert [] + y == y;
      ContinueRun(dbl, Flatten(init), y);
      FlattenSnoc(init, y);
    }
  }

  /** Fed piece by piece, the reader gives the replies and the end of the whole stream, if
      and only if it has not stopped before a line end that it does not see. Otherwise it
      gives the first of them, and the missing ones are in the bytes it still holds. */
  lemma PiecesFoundIff(dbl: bytes -> bool, pieces: seq<bytes>)
    ensures var found, whole := PiecesFound(dbl, pieces), Run(dbl, FRESH, Flatten(pieces));
      && (found == whole <==> Rested(dbl, found))
      && found.replies <= whole.replies
      && Continue(dbl, found, []) == whole
  {
    hide Run, PiecesFound, StepOn;
    PiecesOwe(dbl, pieces);
    RunRests(dbl, FRESH, Flatten(pieces));
    if Rested(dbl, PiecesFound(dbl, pieces)) { RestedStays(dbl, PiecesFound(dbl, pieces)); }
  }

  predicate Seen(m: Machine, x: bytes) {
    m.ty.Some? && Newline(x).Some? ==> Newline(x).value < Window(x)
  }

  /** On the way a run takes, every line end lies in the window of the bytes then unread. */
  predicate AllSeen(dbl: bytes -> bool, m: Machine, x: bytes)
    decreases |x|
  {
    StepConsumes(dbl, m, x);
    match StepOn(dbl, m, x)
    case Blocked => true
    case Stopped(_) => Seen(m, x)
    case Moved(m', rest) => Seen(m, x) && AllSeen(dbl, m', rest)
    case Emitted(_, rest) => Seen(m, x) && AllSeen(dbl, FRESH, rest)
  }

  /** A step that can be taken is taken if and only if its line end is seen. */
  lemma StepFoundIff(dbl: bytes -> bool, m: Machine, x: bytes)
    ensures StepOn(dbl, m, x).Blocked? ==> StepFound(dbl, m, x).Blocked?
    ensures !StepOn(dbl, m, x).Blocked? ==>
      StepFound(dbl, m, x) == if Seen(m, x) then StepOn(dbl, m, x) else Blocked
  {
    FoundIff(x);
    hide Found, Newline, Window;
  }

  lemma ThenIff(r: Reply, a: Outcome, b: Outcome)
    ensures Then(r, a) == Then(r, b) <==> a == b
  {
    assert ([r] + a.replies)[1..] == a.replies && ([r] + b.replies)[1..] == b.replies;
  }

  /** What can be read of the bytes in hand is read, if and only if the protocol's run over
      them passes no line end outside the window. */
  lemma {:induction false} RunFoundIff(dbl: bytes -> bool, m: Machine, x: bytes)
    ensures RunFound(dbl, m, x) == Run(dbl, m, x) <==> AllSeen(dbl, m, x)
    decreases |x|
  {
    hide StepOn, StepFound, Seen;
    StepConsumes(dbl, m, x);
    StepFoundIff(dbl, m, x);
    RunRests(dbl, m, x);
    match StepOn(dbl, m, x)
    case Moved(m', rest) => RunFoundIff(dbl, m', rest);
    case Emitted(r, rest) =>
      RunFoundIff(dbl, FRESH, rest);
      ThenIff(r, RunFound(dbl, FRESH, rest), Run(dbl, FRESH, rest));
    case _ =>
  }

  /** No piece moves a line end out of the window. */
  predicate PiecesSeen(dbl: bytes -> bool, pieces: seq<bytes>) {
    |pieces| == 0 || (
      var init, y := pieces[..|pieces| - 1], pieces[|pieces| - 1];
      PiecesSeen(dbl, init) &&
        match Run(dbl, FRESH, Flatten(init)).end
        case Dead(_) => true
        case Waiting(m, rest) => AllSeen(dbl, m, rest + y))
  }

  ghost predicate NeverBehind(dbl: bytes -> bool, pieces: seq<bytes>) {
    forall k :: 0 <= k <= |pieces| ==> PiecesFound(dbl, pieces[..k]) == Run(dbl, FRESH, Flatten(pieces[..k]))
  }

  lemma NeverBehindNext(dbl: bytes -> bool, init: seq<bytes>, y: bytes)
    ensures NeverBehind(dbl, init + [y]) <==>
      NeverBehind(dbl, init) && PiecesFound(dbl, init + [y]) == Run(dbl, FRESH, Flatten(init + [y]))
  {
    hide PiecesFound, Run, Flatten;
    var pieces := init + [y];
    assert pieces[..|pieces|] == pieces;
    forall k | 0 <= k <= |init| ensures pieces[..k] == init[..k] {}
    if NeverBehind(dbl, pieces) {
      forall k | 0 <= k <= |init|
        ensures PiecesFound(dbl, init[..k]) == Run(dbl, FRESH, Flatten(init[..k]))
      {
        assert pieces[..k] == init[..k];
      }
    }
  }

  lemma ContinueIff(dbl: bytes -> bool, o: Outcome, y: bytes)
    ensures ContinueFound(dbl, o, y) == Continue(dbl, o, y) <==>
      o.end.Dead? || AllSeen(dbl, o.end.m, o.end.rest + y)
  {
    hide RunFound, Run, AllSeen;
    if o.end.Waiting? {
      RunFoundIff(dbl, o.end.m, o.end.rest + y);
      var a, b := RunFound(dbl, o.end.m, o.end.rest + y), Run(dbl, o.end.m, o.end.rest + y);
      assert (o.replies + a.replies)[|o.replies|..] == a.replies && (o.replies + b.replies)[|o.replies|..] == b.replies;
    }
  }

  lemma AtStart(dbl: bytes -> bool, pieces: seq<bytes>)
    requires pieces == []
    ensures NeverBehind(dbl, pieces)
  {
    NothingRun(dbl);
    hide Run;
  }

  lemma CaughtUp(dbl: bytes -> bool, pieces: seq<bytes>)
    requires NeverBehind(dbl, pieces)
    ensures PiecesFound(dbl, pieces) == Run(dbl, FRESH, Flatten(pieces))
  {
    hide Run, PiecesFound, Flatten;
    assert pieces[..|pieces|] == pieces;
  }

  /** After every piece the reader has given all that the bytes so far determine, if and
      only if no piece moves a line end out of the window. */
  lemma {:induction false} NeverBehindIff(dbl: bytes -> bool, pieces: seq<bytes>)
    ensures NeverBehind(dbl, pieces) <==> PiecesSeen(dbl, pieces)
  {
    hide Run, RunFound, ContinueFound, Continue, AllSeen, NeverBehind;
    if |pieces| == 0 {
      AtStart(dbl, pieces);
    } else {
      var init, y := pieces[..|pieces| - 1], pieces[|pieces| - 1];
      assert pieces == init + [y];
      NeverBehindIff(dbl, init);
      NeverBehindNext(dbl, init, y);
      if NeverBehind(dbl, init) { CaughtUp(dbl, init); }
      FlattenSnoc(init, y);
      ContinueRun(dbl, Flatten(init), y);
      ContinueIff(dbl, Run(dbl, FRESH, Flatten(init)), y);
    }
  }

  /** How many bytes the protocol leaves unread at the end of a stream. */
  function Unread(dbl: bytes -> bool, x: bytes): nat {
    match Run(dbl, FRESH, x).end case Dead(_) => 0 case Waiting(_, rest) => |rest|
  }

  /** No piece makes the unread bytes more than 2^31. */
  predicate FitsWindow(dbl: bytes -> bool, pieces: seq<bytes>) {
    |pieces| == 0 || (
      var init := pieces[..|pieces| - 1];
      FitsWindow(dbl, init) && Unread(dbl, Flatten(init)) + |pieces[|pieces| - 1]| <= INT_MAX + 1)
  }

  lemma {:induction false} ShortAllSeen(dbl: bytes -> bool, m: Machine, x: bytes)
    requires |x| <= INT_MAX + 1
    ensures AllSeen(dbl, m, x)
    decreases |x|
  {
    StepConsumes(dbl, m, x);
    FoundIff(x);
    hide StepOn;
    match StepOn(dbl, m, x)
    case Moved(m', rest) => ShortAllSeen(dbl, m', rest);
    case Emitted(r, rest) => ShortAllSeen(dbl, FRESH, rest);
    case _ =>
  }

  lemma {:induction false} FittingPiecesSeen(dbl: bytes -> bool, pieces: seq<bytes>)
    requires FitsWindow(dbl, pieces)
    ensures PiecesSeen(dbl, pieces)
  {
    hide Run, AllSeen;
    if |pieces| > 0 {
      var init, y := pieces[..|pieces| - 1], pieces[|pieces| - 1];
      FittingPiecesSeen(dbl, init);
      var o := Run(dbl, FRESH, Flatten(init));
      if o.end.Waiting? { ShortAllSeen(dbl, o.end.m, o.end.rest + y); }
    }
  }

  /** Then nothing is overlooked. */
  lemma FittingPiecesFound(dbl: bytes -> bool, pieces: seq<bytes>)
    requires FitsWindow(dbl, pieces)
    ensures PiecesFound(dbl, pieces) == Run(dbl, FRESH, Flatten(pieces))
  {
    hide Run, PiecesFound, PiecesSeen, FitsWindow, NeverBehind;
    FittingPiecesSeen(dbl, pieces);
    NeverBehindIff(dbl, pieces);
    CaughtUp(dbl, pieces);
  }

  // ----- printed replies -----

  lemma {:induction false} PrintedDies(dbl: bytes -> bool, rs: seq<Reply>)
    requires PrintableMany(dbl, rs) && !(PushSafeMany(rs, false) && IndexedMany(rs))
    ensures Run(dbl, FRESH, EncodeManyOnto(rs, [])).end.Dead?
  {
    hide ParseReply, EncodeOnto, Refusal, Run;
    RoundTrip(dbl, rs[0], EncodeManyOnto(rs[1..], []), false);
    MachineRefinesGrammar(dbl, EncodeManyOnto(rs, []));
    if PushSafe(rs[0], false) && Indexed(rs[0]) { PrintedDies(dbl, rs[1..]); }
  }

  /** However the printed text of some replies is cut, the reader gives back those replies
      and is left as new, if and only if none of them holds what it refuses and it has not
      stopped before a line end that it does not see. */
  lemma PrintedFoundIff(dbl: bytes -> bool, rs: seq<Reply>, pieces: seq<bytes>)
    requires PrintableMany(dbl, rs) && Flatten(pieces) == EncodeManyOnto(rs, [])
    ensures var found, read := PiecesFound(dbl, pieces), Outcome(rs, Waiting(FRESH, []));
      found == read <==> PushSafeMany(rs, false) && IndexedMany(rs) && Rested(dbl, found)
  {
    hide Run, PiecesFound, PrintableMany, PushSafeMany, IndexedMany, EncodeManyOnto;
    PiecesFoundIff(dbl, pieces);
    if PushSafeMany(rs, false) && IndexedMany(rs) { ReadsBackAll(dbl, rs); } else { PrintedDies(dbl, rs); }
  }

  lemma {:induction false} RestIsShort(dbl: bytes -> bool, m: Machine, x: bytes)
    ensures var o := Run(dbl, m, x); o.end.Waiting? ==> |o.end.rest| <= |x|
    decreases |x|
  {
    hide StepOn;
    StepConsumes(dbl, m, x);
    match StepOn(dbl, m, x)
    case Moved(m', rest) => RestIsShort(dbl, m', rest);
    case Emitted(r, rest) => RestIsShort(dbl, FRESH, rest);
    case _ =>
  }

  /** No more is ever unread of printed replies than the longest of them. */
  lemma {:induction false} PrintedUnread(dbl: bytes -> bool, rs: seq<Reply>, x: bytes, longest: nat)
    requires PrintableMany(dbl, rs) && PushSafeMany(rs, false) && IndexedMany(rs) && x <= EncodeManyOnto(rs, [])
    requires forall r :: r in rs ==> |Encode(r)| <= longest
    ensures Unread(dbl, x) <= longest
  {
    hide EncodeOnto, Run, ParseReply;
    RestIsShort(dbl, FRESH, x);
    if |rs| == 0 {
      assert x == [];
    } else if |x| > longest {
      var t, tail := Encode(rs[0]), EncodeManyOnto(rs[1..], []);
      var more := x[|t|..];
      EncodeAppend(rs[0], [], tail);
      EncodeAppend(rs[0], [], more);
      assert [] + tail == tail && [] + more == more;
      assert x[..|t|] == (t + tail)[..|x|][..|t|] == t;
      assert x == t + more && more == (t + tail)[..|x|][|t|..] == tail[..|more|];
      RoundTrip(dbl, rs[0], more, false);
      MachineRefinesGrammar(dbl, x);
      PrintedUnread(dbl, rs[1..], more, longest);
    }
  }

  lemma NothingToFlatten(pieces: seq<bytes>)
    requires |pieces| > 0 && Flatten(pieces) <= EncodeManyOnto([], [])
    ensures pieces[|pieces| - 1] == []
  {
    assert pieces == pieces[..|pieces| - 1] + [pieces[|pieces| - 1]];
    FlattenSnoc(pieces[..|pieces| - 1], pieces[|pieces| - 1]);
  }

  /** So where every piece has room for every reply in 2^31 bytes, all is read. */
  lemma {:induction false} PrintedFits(dbl: bytes -> bool, rs: seq<Reply>, pieces: seq<bytes>)
    requires PrintableMany(dbl, rs) && PushSafeMany(rs, false) && IndexedMany(rs)
    requires Flatten(pieces) <= EncodeManyOnto(rs, [])
    requires forall r, y :: r in rs && y in pieces ==> |Encode(r)| + |y| <= INT_MAX + 1
    ensures FitsWindow(dbl, pieces)
  {
    hide PrintableMany, PushSafeMany, IndexedMany, EncodeManyOnto, Encode, Unread;
    if |pieces| > 0 {
      var init, y := pieces[..|pieces| - 1], pieces[|pieces| - 1];
      assert pieces == init + [y];
      FlattenSnoc(init, y);
      assert Flatten(init) <= Flatten(pieces);
      PrintedFits(dbl, rs, init);
      if |rs| > 0 { assert rs[0] in rs && y in pieces; } else { NothingToFlatten(pieces); }
      PrintedUnread(dbl, rs, Flatten(init), INT_MAX + 1 - |y|);
    }
  }

  // ----- one bulk string -----

  const BULK: Machine := Machine([], Some(Bulk(false)))

  /** The text of a bulk string behind its type byte. */
  function BulkText(t: bytes): bytes { Line(Dec(|t|), Line(t, [])) }

  /** Of a part of that text nothing can be made. */
  lemma PartOfBulk(dbl: bytes -> bool, t: bytes, p: bytes)
    requires |t| <= LLONG_MAX && p <= BulkText(t) && |p| < |BulkText(t)|
    ensures ReadItem(dbl, Bulk(false), p, false) == Incomplete
  {
    hide ReadItem, Dec, Line;
    BulkRoundTrip(dbl, false, t, [], false);
    var y := BulkText(t)[|p|..];
    assert BulkText(t) == p + y;
    if ReadItem(dbl, Bulk(false), p, false) != Incomplete { ItemStable(dbl, Bulk(false), p, y, false); }
  }

  lemma PartRun(dbl: bytes -> bool, t: bytes, p: bytes)
    requires |t| <= LLONG_MAX && p <= BulkText(t) && |p| < |BulkText(t)|
    ensures RunFound(dbl, BULK, p) == Outcome([], Waiting(BULK, p))
  {
    hide BulkText, ReadItem, Found;
    PartOfBulk(dbl, t, p);
  }

  lemma BulkHeader(t: bytes)
    requires |t| <= LLONG_MAX
    ensures Newline(BulkText(t)) == Some(|Dec(|t|)|)
  {
    hide Dec, Newline, Line;
    HeaderLine(|t|);
    NewlineAfter(Dec(|t|), Line(t, []));
  }

  lemma BulkIsRead(dbl: bytes -> bool, t: bytes)
    requires |t| <= LLONG_MAX
    ensures StepOn(dbl, BULK, BulkText(t)) == Emitted(Text(String, t), [])
  {
    hide Dec, ReadItem, Line;
    BulkRoundTrip(dbl, false, t, [], false);
  }

  lemma EmptyRun(dbl: bytes -> bool)
    ensures RunFound(dbl, FRESH, []) == START
  {
  }

  /** With all its bytes there, the string is handed over if and only if the end of its
      length line is in the window. */
  lemma BulkRun(dbl: bytes -> bool, t: bytes)
    requires |t| <= LLONG_MAX
    ensures RunFound(dbl, BULK, BulkText(t)) ==
      if |Dec(|t|)| < Window(BulkText(t)) then Outcome([Text(String, t)], Waiting(FRESH, []))
      else Outcome([], Waiting(BULK, BulkText(t)))
  {
    hide Dec, Newline, Line, ReadItem, BulkText, Found, Window;
    var x := BulkText(t);
    BulkHeader(t);
    FoundIff(x);
    BulkIsRead(dbl, t);
    EmptyRun(dbl);
  }

  lemma DollarStep(dbl: bytes -> bool, q: bytes)
    requires |q| > 0 && q[0] == DOLLAR
    ensures StepFound(dbl, FRESH, q) == Moved(BULK, q[1..])
  {
  }

  lemma DollarRun(dbl: bytes -> bool, q: bytes)
    requires |q| > 0 && q[0] == DOLLAR
    ensures RunFound(dbl, FRESH, q) == RunFound(dbl, BULK, q[1..])
  {
    hide StepFound;
    DollarStep(dbl, q);
  }

  /** What the reader makes of the first bytes p of a bulk string. */
  function BulkAfter(dbl: bytes -> bool, t: bytes, p: bytes): Outcome {
    if p == [] then START
    else if |p| <= |BulkText(t)| then Outcome([], Waiting(BULK, p[1..]))
    else RunFound(dbl, BULK, BulkText(t))
  }

  lemma BulkContinues(dbl: bytes -> bool, t: bytes, p: bytes, y: bytes)
    requires |t| <= LLONG_MAX && p + y <= [DOLLAR] + BulkText(t)
    ensures ContinueFound(dbl, BulkAfter(dbl, t, p), y) == BulkAfter(dbl, t, p + y)
  {
    hide BulkText, Found, RunFound, Window;
    var x, q := BulkText(t), p + y;
    EmptyRun(dbl);
    BulkRun(dbl, t);
    if q == [] {
      assert [] + y == [];
    } else if |p| > |x| {
      assert y == [] && q == p && x + y == x && [] + y == [];
    } else {
      assert q == ([DOLLAR] + x)[..|q|];
      assert q[1..] == x[..|q| - 1];
      if p == [] { assert [] + y == q; DollarRun(dbl, q); } else { assert p[1..] + y == q[1..]; }
      if |q| <= |x| { PartRun(dbl, t, q[1..]); } else { assert q[1..] == x; }
    }
  }

  lemma {:induction false} BulkPieces(dbl: bytes -> bool, t: bytes, pieces: seq<bytes>)
    requires |t| <= LLONG_MAX && Flatten(pieces) <= [DOLLAR] + BulkText(t)
    ensures PiecesFound(dbl, pieces) == BulkAfter(dbl, t, Flatten(pieces))
  {
    hide RunFound, BulkText, ContinueFound;
    if |pieces| > 0 {
      var init, y := pieces[..|pieces| - 1], pieces[|pieces| - 1];
      assert pieces == init + [y];
      FlattenSnoc(init, y);
      assert Flatten(init) <= Flatten(pieces);
      BulkPieces(dbl, t, init);
      BulkContinues(dbl, t, Flatten(init), y);
    }
  }

  lemma EncodeBulk(t: bytes)
    ensures Encode(Text(String, t)) == [DOLLAR] + BulkText(t)
  {
    hide Dec, Line;
  }

  /** A bulk string of any length, in any pieces: it is handed over if and only if the end
      of its length line is in the window once all its bytes are there. */
  lemma BulkFoundIff(dbl: bytes -> bool, t: bytes, pieces: seq<bytes>)
    requires |t| <= LLONG_MAX && Flatten(pieces) == Encode(Text(String, t))
    ensures PiecesFound(dbl, pieces).replies ==
      if |Dec(|t|)| < Window(BulkText(t)) then [Text(String, t)] else []
  {
    hide RunFound, BulkText, Window, Dec, PiecesFound;
    EncodeBulk(t);
    BulkPieces(dbl, t, pieces);
    BulkRun(dbl, t);
  }

  lemma LongWindow(t: bytes)
    requires |t| == 0x8000_0000
    ensures Window(BulkText(t)) < 0
  {
    DecFits64(|t|);
    hide Dec;
  }

  /** A string of 2^31 bytes is printable and holds nothing that is refused, and is never
      handed over, however its text is cut. */
  lemma LongBulkIsOverlooked(dbl: bytes -> bool, t: bytes, pieces: seq<bytes>)
    requires |t| == 0x8000_0000 && Flatten(pieces) == Encode(Text(String, t))
    ensures Printable(dbl, Text(String, t)) && Refusal(Text(String, t), false) == None
    ensures PiecesFound(dbl, pieces).replies == []
  {
    hide PiecesFound, Encode;
    BulkFoundIff(dbl, t, pieces);
    LongWindow(t);
  }

  lemma OneIsFound(dbl: bytes -> bool)
    ensures RunFound(dbl, FRESH, [COLON, 49, CR, LF]) == Outcome([Integer(1)], Waiting(FRESH, []))
  {
    var one: bytes := [COLON, 49, CR, LF];
    ShortAllSeen(dbl, FRESH, one);
    RunFoundIff(dbl, FRESH, one);
    assert Dec(1) == [49];
    assert Line([49], []) == [49, CR, LF];
    assert one == EncodeOnto(Integer(1), []);
    RoundTrip(dbl, Integer(1), [], false);
    MachineRefinesGrammar(dbl, one);
    NothingRun(dbl);
    hide Run, ParseReply;
  }

  lemma OneIsOverlooked(dbl: bytes -> bool, y: bytes)
    requires |y| == 0x8000_0000
    ensures RunFound(dbl, FRESH, [COLON, 49, CR, LF] + y).replies == []
  {
    var x := [COLON, 49, CR, LF] + y;
    assert Window(x[1..]) <= 0;
    hide Newline;
  }

  /** Cutting matters there: an integer is handed over when it comes alone, and not when 2^31
      more bytes come with it. */
  lemma CuttingMatters(dbl: bytes -> bool, y: bytes)
    requires |y| == 0x8000_0000
    ensures var one := [COLON, 49, CR, LF];
      PiecesFound(dbl, [one + y]).replies == [] && [Integer(1)] <= PiecesFound(dbl, [one, y]).replies
  {
    var one: bytes := [COLON, 49, CR, LF];
    OneIsFound(dbl);
    OneIsOverlooked(dbl, y);
    assert [one, y][..1] == [one] && [one][..0] == [] && [one + y][..0] == [];
    assert [] + one == one && [] + (one + y) == one + y;
    hide RunFound;
  }
}
