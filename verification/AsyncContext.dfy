/** async.c for regular commands and spontaneous pushes: the callback queue, the flags
    that guard it against re-entry, and the loop that hands replies to callbacks. What a
    callback does is an arbitrary list of calls back into the context. */
module AsyncContext {
  import opened Bytes

  /** privdata, and whether the function pointer is not NULL */
  datatype Callback = Callback(privdata: nat, fn: bool)

  datatype Kind = InBand | Failure | OutOfBand

  datatype Reply = Reply(kind: Kind, body: nat)

  /** What a callback may call on its context. */
  datatype Action = Command(cb: Callback) | Free | Disconnect

  datatype Cell = Cell(cb: Callback, next: Option<nat>)

  function CallbacksOf(cells: seq<Cell>, chain: seq<nat>): (cbs: seq<Callback>)
    requires forall i :: 0 <= i < |chain| ==> chain[i] < |cells|
    ensures |cbs| == |chain| && forall i :: 0 <= i < |cbs| ==> cbs[i] == cells[chain[i]].cb
  {
    seq(|chain|, i requires 0 <= i < |chain| => cells[chain[i]].cb)
  }

  /** From head to tail, the next pointers visit exactly the cells of the chain. */
  ghost predicate Linked(cells: seq<Cell>, head: Option<nat>, tail: Option<nat>, chain: seq<nat>) {
    && head == Link(chain, 0)
    && tail == (if |chain| == 0 then None else Some(chain[|chain| - 1]))
    && (forall i :: 0 <= i < |chain| ==> chain[i] < |cells| && cells[chain[i]].next == Link(chain, i + 1))
    && (forall i, j :: 0 <= i < j < |chain| ==> chain[i] != chain[j])
  }

  /** Linking a new cell behind the last one. */
  lemma LinkBehind(cells: seq<Cell>, cells': seq<Cell>, head: Option<nat>, tail: Option<nat>, chain: seq<nat>,
                   cb: Callback)
    requires Linked(cells, head, tail, chain) && |cells'| == |cells| + 1 && cells'[|cells|] == Cell(cb, None)
    requires forall i :: 0 <= i < |cells| ==>
      cells'[i] == if tail == Some(i) then cells[i].(next := Some(|cells|)) else cells[i]
    ensures var id := |cells|; Linked(cells', if head == None then Some(id) else head, Some(id), chain + [id])
    ensures CallbacksOf(cells', chain + [|cells|]) == CallbacksOf(cells, chain) + [cb]
  {
    var id, longer := |cells|, chain + [|cells|];
    forall i | 0 <= i < |chain|
      ensures cells'[chain[i]].next == Link(longer, i + 1) && cells'[chain[i]].cb == cells[chain[i]].cb
    {
      if i < |chain| - 1 { assert chain[i] != chain[|chain| - 1]; }
    }
    hide Linked;
    assert CallbacksOf(cells', longer) == CallbacksOf(cells, chain) + [cb];
  }

  /** The singly linked list with head and tail pointers; pointers index the cells. */
  class CallbackList {
    var cells: seq<Cell>
    var head: Option<nat>
    var tail: Option<nat>
    ghost var chain: seq<nat>

    ghost predicate Valid()
      reads this
    {
      Linked(cells, head, tail, chain)
    }

    ghost function Contents(): seq<Callback>
      reads this
      requires Valid()
    {
      CallbacksOf(cells, chain)
    }

    constructor ()
      ensures Valid() && Contents() == []
    {
      cells, head, tail, chain := [], None, None, [];
    }

    lemma HeadOf()
      requires Valid()
      ensures head == None <==> Contents() == []
    {
    }

    /** __redisPushCallback */
    method Push(cb: Callback)
      requires Valid()
      modifies this
      ensures Valid() && Contents() == old(Contents()) + [cb]
    {
      ghost var was, first, last := cells, head, tail;
      cells := cells + [Cell(cb, None)];
      var id := |cells| - 1;
      if head.None? { head := Some(id); }
      if tail.Some? { cells := cells[tail.value := cells[tail.value].(next := Some(id))]; }
      tail := Some(id);
      LinkBehind(was, cells, first, last, chain, cb);
      hide Linked;
      chain := chain + [id];
    }

    /** __redisShiftCallback: the oldest callback, or none. */
    method Shift() returns (cb: Option<Callback>)
      requires Valid()
      modifies this
      ensures Valid()
      ensures old(Contents()) == if cb.Some? then [cb.value] + Contents() else []
      ensures cb.None? ==> Contents() == []
    {
      cb := None;
      if head.Some? {
        var c := head.value;
        cb := Some(cells[c].cb);
        head := cells[c].next;
        if tail == Some(c) { tail := None; }
        chain := chain[1..];
      }
    }
  }

  /** What has happened to a context so far. */
  datatype History = History(
    accepted: seq<Callback>,                   // commands taken, in order
    served: seq<Option<Reply>>,                // what the i-th of them was shifted for
    answers: seq<Reply>,                       // in-band replies matched to a command
    stray: seq<Reply>,                         // in-band replies no command was waiting for
    consumed: seq<Reply>,                      // all replies taken from the reader
    log: seq<(Callback, Option<Reply>)>,       // callbacks called, with their argument
    pushed: seq<Reply>)                        // calls of the push callback

  function Select(rs: seq<Reply>, pushes: bool): (r: seq<Reply>) {
    if |rs| == 0 then []
    else
      var last := rs[|rs| - 1];
      Select(rs[..|rs| - 1], pushes) + (if last.kind.OutOfBand? == pushes then [last] else [])
  }

  lemma SelectSnoc(rs: seq<Reply>, r: Reply, pushes: bool)
    ensures Select(rs + [r], pushes) == Select(rs, pushes) + (if r.kind.OutOfBand? == pushes then [r] else [])
  {
    assert (rs + [r])[..|rs|] == rs;
  }

  lemma NextOf(done: seq<Reply>, rest: seq<Reply>)
    requires |rest| > 0
    ensures done + rest == (done + [rest[0]]) + rest[1..]
  {
  }

  /** The calls that serving these commands makes: one for each that has a function. */
  function Runs(cbs: seq<Callback>, served: seq<Option<Reply>>): (r: seq<(Callback, Option<Reply>)>)
    requires |served| <= |cbs|
  {
    if |served| == 0 then []
    else
      var n := |served| - 1;
      Runs(cbs, served[..n]) + (if cbs[n].fn then [(cbs[n], served[n])] else [])
  }

  lemma {:induction false} RunsAccepting(cbs: seq<Callback>, more: seq<Callback>, served: seq<Option<Reply>>)
    requires |served| <= |cbs| && cbs <= more
    ensures Runs(cbs, served) == Runs(more, served)
  {
    if |served| > 0 { RunsAccepting(cbs, more, served[..|served| - 1]); }
  }

  lemma RunsSnoc(cbs: seq<Callback>, served: seq<Option<Reply>>, out: Option<Reply>)
    requires |served| < |cbs|
    ensures Runs(cbs, served + [out]) == Runs(cbs, served) + (if cbs[|served|].fn then [(cbs[|served|], out)] else [])
  {
    assert (served + [out])[..|served|] == served;
  }

  /** First in, first out: the i-th command taken is served the i-th in-band reply, or,
      once the context is closing, NULL; those not served are the queue. */
  ghost predicate Coherent(h: History, pending: seq<Callback>, closing: bool, halted: bool, pushCb: bool) {
    && |h.served| <= |h.accepted| && h.accepted[|h.served|..] == pending
    && |h.answers| <= |h.served|
    && (forall i :: 0 <= i < |h.served| ==> h.served[i] == if i < |h.answers| then Some(h.answers[i]) else None)
    && (|h.answers| < |h.served| ==> closing)
    && Select(h.consumed, false) == h.answers + h.stray
    && h.pushed == (if pushCb then Select(h.consumed, true) else [])
    && (h.stray != [] ==> (closing || halted) && |h.answers| == |h.accepted|)
  }

  lemma QueueLength(h: History, pending: seq<Callback>, closing: bool, halted: bool, pushCb: bool)
    requires Coherent(h, pending, closing, halted, pushCb)
    ensures |h.served| + |pending| == |h.accepted|
  {
  }

  lemma Closes(h: History, pending: seq<Callback>, closing: bool, halted: bool, pushCb: bool)
    requires Coherent(h, pending, closing, halted, pushCb)
    ensures Coherent(h, pending, true, halted, pushCb) && Coherent(h, pending, closing, true, pushCb)
  {
  }

  lemma LogAside(h: History, pending: seq<Callback>, closing: bool, halted: bool, pushCb: bool,
                 log: seq<(Callback, Option<Reply>)>)
    requires Coherent(h, pending, closing, halted, pushCb)
    ensures Coherent(h.(log := log), pending, closing, halted, pushCb)
  {
  }

  lemma Accepts(h: History, pending: seq<Callback>, pushCb: bool, cb: Callback)
    requires Coherent(h, pending, false, false, pushCb)
    ensures Coherent(h.(accepted := h.accepted + [cb]), pending + [cb], false, false, pushCb)
  {
  }

  lemma Answers(h: History, pending: seq<Callback>, closing: bool, pushCb: bool, cb: Callback, r: Reply)
    requires Coherent(h, [cb] + pending, closing, false, pushCb) && |h.answers| == |h.served| && h.stray == []
      && !r.kind.OutOfBand?
    ensures h.accepted[|h.served|] == cb
    ensures Coherent(h.(served := h.served + [Some(r)], answers := h.answers + [r], consumed := h.consumed + [r]),
        pending, closing, false, pushCb)
  {
    hide Select, Runs;
    SelectSnoc(h.consumed, r, false);
    SelectSnoc(h.consumed, r, true);
    assert h.accepted[|h.served|..][0] == cb && h.accepted[|h.served|..][1..] == h.accepted[|h.served| + 1..];
  }

  lemma Drains(h: History, pending: seq<Callback>, halted: bool, pushCb: bool, cb: Callback)
    requires Coherent(h, [cb] + pending, true, halted, pushCb)
    ensures h.accepted[|h.served|] == cb
    ensures Coherent(h.(served := h.served + [None]), pending, true, halted, pushCb)
  {
    assert h.accepted[|h.served|..][0] == cb && h.accepted[|h.served|..][1..] == h.accepted[|h.served| + 1..];
  }

  lemma Strays(h: History, closing: bool, halted: bool, pushCb: bool, r: Reply)
    requires Coherent(h, [], closing, halted, pushCb) && |h.answers| == |h.served| && h.stray == []
    requires !r.kind.OutOfBand?
    ensures var h' := h.(stray := [r], consumed := h.consumed + [r]);
      Coherent(h', [], true, halted, pushCb) && Coherent(h', [], closing, true, pushCb)
  {
    SelectSnoc(h.consumed, r, false);
    SelectSnoc(h.consumed, r, true);
  }

  lemma Pushes(h: History, pending: seq<Callback>, closing: bool, halted: bool, pushCb: bool, r: Reply)
    requires Coherent(h, pending, closing, halted, pushCb) && r.kind.OutOfBand?
    ensures Coherent(h.(consumed := h.consumed + [r], pushed := if pushCb then h.pushed + [r] else h.pushed),
        pending, closing, halted, pushCb)
  {
    SelectSnoc(h.consumed, r, false);
    SelectSnoc(h.consumed, r, true);
  }

  datatype Event = Call(action: Action) | Readable(data: Option<(seq<Reply>, bool)>) | Writable(done: Option<bool>)

  predicate OnlyPushes(rs: seq<Reply>) { forall i :: 0 <= i < |rs| ==> rs[i].kind.OutOfBand? }

  // ----- what a read leaves -----

  /** What decides how a run goes on: the commands taken and those of them still waiting,
      the replies consumed, the flags, and the number of callbacks so far. */
  datatype Standing = Standing(accepted: seq<Callback>, waiting: seq<Callback>, consumed: seq<Reply>, freeing: bool,
                               disconnecting: bool, noAutoFree: bool, obufEmpty: bool, calls: nat)

  /** How a context comes out of a read or a run: still open, with an error but not freed,
      with a failed assertion, or freed, after which only the commands taken and the replies
      consumed matter. */
  datatype Fate = Open(now: Standing) | Errored(now: Standing) | Aborted(now: Standing) | Freed(now: Standing)

  /** A call that a callback makes. */
  function Asked(s: Standing, a: Action): Standing {
    match a
    case Command(cb) =>
      if s.disconnecting || s.freeing then s
      else s.(accepted := s.accepted + [cb], waiting := s.waiting + [cb], obufEmpty := false)
    case Free => s.(freeing := true)
    case Disconnect => s.(disconnecting := true, noAutoFree := false)
  }

  function AskedAll(s: Standing, actions: seq<Action>): Standing {
    if |actions| == 0 then s else Asked(AskedAll(s, actions[..|actions| - 1]), actions[|actions| - 1])
  }

  /** One callback has run. */
  function Called(behave: nat -> seq<Action>, s: Standing): Standing {
    AskedAll(s.(calls := s.calls + 1), behave(s.calls))
  }

  /** The connection has failed. */
  function Failed(s: Standing): Fate {
    if s.noAutoFree then Errored(s.(disconnecting := true)) else Freed(s)
  }

  /** One reply: a request to free is looked at only behind an in-band reply that had a
      callback function to call. */
  function Taken(behave: nat -> seq<Action>, pushCb: bool, before: Standing, r: Reply): Fate {
    var s := before.(consumed := before.consumed + [r]);
    if r.kind.OutOfBand? then Open(if pushCb then Called(behave, s) else s)
    else if |s.waiting| == 0 then
      if r.kind.InBand? then Aborted(s) else Failed(s)
    else
      var left := s.(waiting := s.waiting[1..]);
      if !s.waiting[0].fn then Open(left)
      else
        var now := Called(behave, left);
        if now.freeing then Freed(now) else Open(now)
  }

  /** A whole read: the replies, and whether a protocol error follows them. */
  function ReadFate(behave: nat -> seq<Action>, pushCb: bool, s: Standing, rs: seq<Reply>, broken: bool): Fate
    decreases |rs|
  {
    if |rs| == 0 then
      if broken then Failed(s)
      else if s.disconnecting && s.obufEmpty && s.waiting == [] then Freed(s)
      else Open(s)
    else
      match Taken(behave, pushCb, s, rs[0])
      case Open(now) => ReadFate(behave, pushCb, now, rs[1..], broken)
      case end => end
  }

  /** One event of a run. A context with an error takes no command and reads nothing. */
  function After(behave: nat -> seq<Action>, pushCb: bool, f: Fate, e: Event): Fate {
    match f
    case Freed(_) => f
    case Aborted(_) => f
    case Errored(s) =>
      (match e
       case Call(Command(_)) => f
       case Call(Free) => Freed(s)
       case Call(Disconnect) => if s.waiting == [] then Freed(s) else Errored(Asked(s, Disconnect))
       case _ => Failed(s))
    case Open(s) =>
      (match e
       case Call(Command(cb)) => Open(Asked(s, Command(cb)))
       case Call(Free) => Freed(s)
       case Call(Disconnect) => if s.waiting == [] then Freed(s) else Open(Asked(s, Disconnect))
       case Readable(None) => Failed(s)
       case Readable(Some(data)) => ReadFate(behave, pushCb, s, data.0, data.1)
       case Writable(None) => Failed(s)
       case Writable(Some(done)) => Open(s.(obufEmpty := s.obufEmpty || done)))
  }

  /** A whole run. */
  function Course(behave: nat -> seq<Action>, pushCb: bool, f: Fate, events: seq<Event>): Fate {
    if |events| == 0 then f
    else After(behave, pushCb, Course(behave, pushCb, f, events[..|events| - 1]), events[|events| - 1])
  }

  lemma AskedNext(s: Standing, actions: seq<Action>, i: nat)
    requires i < |actions|
    ensures AskedAll(s, actions[..i + 1]) == Asked(AskedAll(s, actions[..i]), actions[i])
  {
    assert actions[..i + 1][..i] == actions[..i];
  }

  /** Requests are kept. */
  lemma {:induction false} AskedKeeps(s: Standing, actions: seq<Action>)
    ensures var t := AskedAll(s, actions);
      && t.freeing == (s.freeing || Free in actions)
      && t.disconnecting == (s.disconnecting || Disconnect in actions)
  {
    if |actions| > 0 {
      var n := |actions| - 1;
      assert actions == actions[..n] + [actions[n]];
      AskedKeeps(s, actions[..n]);
    }
  }

  lemma {:induction false} AskedCalls(s: Standing, actions: seq<Action>)
    ensures AskedAll(s, actions).calls == s.calls && AskedAll(s, actions).consumed == s.consumed
  {
    if |actions| > 0 { AskedCalls(s, actions[..|actions| - 1]); }
  }

  lemma CalledKeepsConsumed(behave: nat -> seq<Action>, s: Standing)
    ensures Called(behave, s).consumed == s.consumed
  {
    AskedCalls(s.(calls := s.calls + 1), behave(s.calls));
  }

  /** The standing after pushes, each with a callback. */
  function Pushed(behave: nat -> seq<Action>, s: Standing, rs: seq<Reply>): Standing
    decreases |rs|
  {
    if |rs| == 0 then s else Pushed(behave, Called(behave, s.(consumed := s.consumed + [rs[0]])), rs[1..])
  }

  lemma {:induction false} PushedKeeps(behave: nat -> seq<Action>, s: Standing, rs: seq<Reply>)
    ensures var t, n := Pushed(behave, s, rs), |rs|;
      && (t.freeing <==> s.freeing || exists k :: s.calls <= k < s.calls + n && Free in behave(k))
      && (t.disconnecting <==> s.disconnecting || exists k :: s.calls <= k < s.calls + n && Disconnect in behave(k))
      && t.calls == s.calls + n && t.consumed == s.consumed + rs
    decreases |rs|
  {
    hide AskedAll;
    if |rs| > 0 {
      var first := s.(consumed := s.consumed + [rs[0]], calls := s.calls + 1);
      AskedKeeps(first, behave(s.calls));
      AskedCalls(first, behave(s.calls));
      PushedKeeps(behave, Called(behave, s.(consumed := s.consumed + [rs[0]])), rs[1..]);
    }
  }

  /** A read of pushes alone frees the context if and only if it is left disconnecting with
      nothing to send and nothing waiting; that a push callback asked to free it makes no
      difference. */
  lemma {:induction false} PushesFreeIff(behave: nat -> seq<Action>, s: Standing, rs: seq<Reply>)
    requires OnlyPushes(rs)
    ensures var t := Pushed(behave, s, rs);
      var free := t.disconnecting && t.obufEmpty && t.waiting == [];
      ReadFate(behave, true, s, rs, false) == if free then Freed(t) else Open(t)
    decreases |rs|
  {
    hide Called;
    if |rs| > 0 { PushesFreeIff(behave, Called(behave, s.(consumed := s.consumed + [rs[0]])), rs[1..]); }
  }

  function Gained(e: Event): seq<Reply> { if e.Readable? && e.data.Some? then e.data.value.0 else [] }

  /** All replies the server sent in these events. */
  function Arrived(events: seq<Event>): seq<Reply> {
    if |events| == 0 then []
    else
      var last := events[|events| - 1];
      Arrived(events[..|events| - 1]) + Gained(last)
  }

  lemma ArrivedStep(events: seq<Event>, i: nat)
    requires i < |events|
    ensures Arrived(events[..i + 1]) == Arrived(events[..i]) + Gained(events[i])
  {
    assert events[..i + 1][..i] == events[..i];
  }

  lemma {:induction false} ArrivedPrefix(events: seq<Event>, i: nat)
    requires i <= |events|
    ensures Arrived(events[..i]) <= Arrived(events) && Arrived(events[..0]) == []
    decreases |events| - i
  {
    if i < |events| {
      ArrivedStep(events, i);
      ArrivedPrefix(events, i + 1);
    } else {
      assert events[..i] == events;
    }
  }

  lemma CourseStep(behave: nat -> seq<Action>, pushCb: bool, f: Fate, events: seq<Event>, i: nat)
    requires i < |events|
    ensures Course(behave, pushCb, f, events[..i + 1])
      == After(behave, pushCb, Course(behave, pushCb, f, events[..i]), events[i])
  {
    hide After;
    assert events[..i + 1][..i] == events[..i];
  }

  /** A freed context, or one whose assertion has failed, has come to its end. */
  lemma {:induction false} CourseEnds(behave: nat -> seq<Action>, pushCb: bool, f: Fate, events: seq<Event>, i: nat)
    requires i <= |events|
    requires var g := Course(behave, pushCb, f, events[..i]); g.Freed? || g.Aborted?
    ensures Course(behave, pushCb, f, events) == Course(behave, pushCb, f, events[..i])
    decreases |events| - i
  {
    if i < |events| {
      CourseStep(behave, pushCb, f, events, i);
      CourseEnds(behave, pushCb, f, events, i + 1);
    } else {
      assert events[..i] == events;
    }
  }

  // ----- which commands a run takes -----

  /** The commands among a callback's calls. */
  function Commands(actions: seq<Action>): seq<Callback> {
    if |actions| == 0 then []
    else
      var last := actions[|actions| - 1];
      Commands(actions[..|actions| - 1]) + (if last.Command? then [last.cb] else [])
  }

  /** The commands that the callbacks from the i-th up to the n-th make. */
  function Made(behave: nat -> seq<Action>, i: nat, n: nat): seq<Callback> {
    if n <= i then [] else Made(behave, i, n - 1) + Commands(behave(n - 1))
  }

  /** The commands that come from outside any callback. */
  function Outside(events: seq<Event>): seq<Callback> {
    if |events| == 0 then []
    else
      var last := events[|events| - 1];
      Outside(events[..|events| - 1]) + (if last.Call? && last.action.Command? then [last.action.cb] else [])
  }

  /** The list is made up of two others, each of which keeps its order. */
  ghost predicate Merges(all: seq<Callback>, a: seq<Callback>, b: seq<Callback>) {
    if |all| == 0 then a == [] && b == []
    else
      var n, last := |all| - 1, all[|all| - 1];
      || (|a| > 0 && a[|a| - 1] == last && Merges(all[..n], a[..|a| - 1], b))
      || (|b| > 0 && b[|b| - 1] == last && Merges(all[..n], a, b[..|b| - 1]))
  }

  lemma MergesLeft(all: seq<Callback>, a: seq<Callback>, b: seq<Callback>, cb: Callback)
    requires Merges(all, a, b)
    ensures Merges(all + [cb], a + [cb], b)
  {
    assert (all + [cb])[..|all|] == all && (a + [cb])[..|a|] == a;
  }

  lemma {:induction false} MergesRight(all: seq<Callback>, a: seq<Callback>, b: seq<Callback>, more: seq<Callback>)
    requires Merges(all, a, b)
    ensures Merges(all + more, a, b + more)
  {
    if |more| == 0 {
      assert all + more == all && b + more == b;
    } else {
      var n := |more| - 1;
      MergesRight(all, a, b, more[..n]);
      assert (all + more)[..|all| + n] == all + more[..n] && (b + more)[..|b| + n] == b + more[..n];
    }
  }

  predicate Closed(s: Standing) { s.freeing || s.disconnecting }

  lemma {:induction false} AskedTakes(s: Standing, actions: seq<Action>)
    ensures var t := AskedAll(s, actions);
      && s.accepted <= t.accepted
      && (!Closed(t) ==> !Closed(s) && t.accepted == s.accepted + Commands(actions))
  {
    if |actions| > 0 { AskedTakes(s, actions[..|actions| - 1]); }
  }

  lemma CalledTakes(behave: nat -> seq<Action>, s: Standing)
    ensures var t := Called(behave, s);
      && s.accepted <= t.accepted && t.calls == s.calls + 1
      && (!Closed(t) ==> !Closed(s) && t.accepted == s.accepted + Made(behave, s.calls, t.calls))
  {
    AskedTakes(s.(calls := s.calls + 1), behave(s.calls));
    AskedCalls(s.(calls := s.calls + 1), behave(s.calls));
    hide AskedAll, Commands;
    assert Made(behave, s.calls, s.calls + 1) == [] + Commands(behave(s.calls));
  }

  lemma {:induction false} MadeInTwo(behave: nat -> seq<Action>, i: nat, j: nat, k: nat)
    requires i <= j <= k
    ensures Made(behave, i, j) + Made(behave, j, k) == Made(behave, i, k)
  {
    hide Commands;
    if j < k { MadeInTwo(behave, i, j, k - 1); }
  }

  lemma TakenTakes(behave: nat -> seq<Action>, pushCb: bool, s: Standing, r: Reply)
    ensures var f := Taken(behave, pushCb, s, r);
      && s.accepted <= f.now.accepted && s.calls <= f.now.calls
      && (f.Open? && !Closed(f.now) ==>
            !Closed(s) && f.now.accepted == s.accepted + Made(behave, s.calls, f.now.calls))
  {
    hide Called;
    var kept := s.(consumed := s.consumed + [r]);
    CalledTakes(behave, kept);
    if |s.waiting| > 0 { CalledTakes(behave, kept.(waiting := s.waiting[1..])); }
    assert s.accepted + [] == s.accepted;
  }

  lemma NothingMerges(behave: nat -> seq<Action>)
    ensures Merges([], [], Made(behave, 0, 0))
  {
  }

  /** A read only adds commands, and while the context is not closing all that its
      callbacks make. */
  lemma {:induction false} ReadTakes(behave: nat -> seq<Action>, pushCb: bool, s: Standing, rs: seq<Reply>,
                                     broken: bool)
    ensures var f := ReadFate(behave, pushCb, s, rs, broken);
      && s.accepted <= f.now.accepted && s.calls <= f.now.calls
      && (f.Open? && !Closed(f.now) ==>
            !Closed(s) && f.now.accepted == s.accepted + Made(behave, s.calls, f.now.calls))
    decreases |rs|
  {
    hide Called, Taken, Made;
    if |rs| == 0 {
      assert s.accepted + [] == s.accepted;
      NothingMerges(behave);
      MadeInTwo(behave, s.calls, s.calls, s.calls);
    } else {
      TakenTakes(behave, pushCb, s, rs[0]);
      var f := Taken(behave, pushCb, s, rs[0]);
      if f.Open? {
        ReadTakes(behave, pushCb, f.now, rs[1..], broken);
        var last := ReadFate(behave, pushCb, f.now, rs[1..], broken);
        MadeInTwo(behave, s.calls, f.now.calls, last.now.calls);
        if last.Open? && !Closed(last.now) {
          assert last.now.accepted
            == s.accepted + (Made(behave, s.calls, f.now.calls) + Made(behave, f.now.calls, last.now.calls));
        }
      }
    }
  }

  lemma AfterTakes(behave: nat -> seq<Action>, pushCb: bool, f: Fate, e: Event)
    ensures f.now.accepted <= After(behave, pushCb, f, e).now.accepted
  {
    hide ReadFate;
    if f.Open? && e.Readable? && e.data.Some? {
      ReadTakes(behave, pushCb, f.now, e.data.value.0, e.data.value.1);
    }
  }

  lemma {:induction false} TakenForGood(behave: nat -> seq<Action>, pushCb: bool, f: Fate, events: seq<Event>, i: nat)
    requires i <= |events|
    ensures Course(behave, pushCb, f, events[..i]).now.accepted <= Course(behave, pushCb, f, events).now.accepted
    decreases |events| - i
  {
    if i < |events| {
      CourseStep(behave, pushCb, f, events, i);
      AfterTakes(behave, pushCb, Course(behave, pushCb, f, events[..i]), events[i]);
      hide After;
      TakenForGood(behave, pushCb, f, events, i + 1);
    } else {
      assert events[..i] == events;
    }
  }

  /** A command from outside that comes while the context is open and not closing is taken
      for good, behind all those taken before it. */
  lemma CommandIsTaken(behave: nat -> seq<Action>, pushCb: bool, f: Fate, events: seq<Event>, i: nat)
    requires i < |events| && events[i].Call? && events[i].action.Command?
    requires var before := Course(behave, pushCb, f, events[..i]); before.Open? && !Closed(before.now)
    ensures var before := Course(behave, pushCb, f, events[..i]);
      before.now.accepted + [events[i].action.cb] <= Course(behave, pushCb, f, events).now.accepted
  {
    hide Course;
    CourseStep(behave, pushCb, f, events, i);
    TakenForGood(behave, pushCb, f, events, i + 1);
  }

  /** A new context. */
  function Fresh(noAutoFree: bool): Standing { Standing([], [], [], false, false, noAutoFree, true, 0) }

  lemma StaysOpen(behave: nat -> seq<Action>, pushCb: bool, f: Fate, e: Event)
    requires var g := After(behave, pushCb, f, e); g.Open? && !Closed(g.now)
    ensures f.Open? && !Closed(f.now)
    ensures var s, t := f.now, After(behave, pushCb, f, e).now;
      if e.Readable? then s.calls <= t.calls && t.accepted == s.accepted + Made(behave, s.calls, t.calls)
      else t.calls == s.calls && t.accepted == s.accepted + if e.Call? && e.action.Command? then [e.action.cb] else []
  {
    hide ReadFate, Made;
    if e.Readable? && e.data.Some? && f.Open? { ReadTakes(behave, pushCb, f.now, e.data.value.0, e.data.value.1); }
  }

  /** While a run is open and nothing has asked to close it, the commands taken are those
      from outside and those its callbacks made, all of them, each in their order. */
  lemma {:induction false} CommandsTaken(behave: nat -> seq<Action>, pushCb: bool, noAutoFree: bool, events: seq<Event>)
    requires var f := Course(behave, pushCb, Open(Fresh(noAutoFree)), events); f.Open? && !Closed(f.now)
    ensures var s := Course(behave, pushCb, Open(Fresh(noAutoFree)), events).now;
      Merges(s.accepted, Outside(events), Made(behave, 0, s.calls))
  {
    hide Merges, Made, After;
    if |events| == 0 {
      NothingMerges(behave);
    } else {
      var n := |events| - 1;
      var f, e := Course(behave, pushCb, Open(Fresh(noAutoFree)), events[..n]), events[n];
      StaysOpen(behave, pushCb, f, e);
      CommandsTaken(behave, pushCb, noAutoFree, events[..n]);
      var s, t := f.now, After(behave, pushCb, f, e).now;
      assert Outside(events[..n]) + [] == Outside(events[..n]) && s.accepted + [] == s.accepted;
      if e.Readable? {
        MadeInTwo(behave, 0, s.calls, t.calls);
        MergesRight(s.accepted, Outside(events[..n]), Made(behave, 0, s.calls), Made(behave, s.calls, t.calls));
      } else if e.Call? && e.action.Command? {
        MergesLeft(s.accepted, Outside(events[..n]), Made(behave, 0, s.calls), e.action.cb);
      }
    }
  }

  /** From outside a callback a request to free is met at once, and one to disconnect if
      nothing waits; else no more commands are taken. A failure of the socket closes the
      connection, which is freed unless told not to; then nothing is taken or read any more. */
  lemma OutsideRequests(behave: nat -> seq<Action>, pushCb: bool, s: Standing, cb: Callback,
                        data: Option<(seq<Reply>, bool)>)
    ensures After(behave, pushCb, Open(s), Call(Free)) == Freed(s)
    ensures s.waiting == [] ==> After(behave, pushCb, Open(s), Call(Disconnect)) == Freed(s)
    ensures s.waiting != [] ==>
      var t := s.(disconnecting := true, noAutoFree := false);
      && After(behave, pushCb, Open(s), Call(Disconnect)) == Open(t)
      && After(behave, pushCb, Open(t), Call(Command(cb))) == Open(t)
    ensures forall e :: e in [Readable(None), Writable(None)] ==>
      After(behave, pushCb, Open(s), e) ==
        if s.noAutoFree then Errored(s.(disconnecting := true)) else Freed(s)
    ensures s.noAutoFree && s.disconnecting ==>
      forall e :: e in [Call(Command(cb)), Readable(data), Writable(None)] ==>
        After(behave, pushCb, Errored(s), e) == Errored(s)
  {
    hide ReadFate;
  }

  /** While callbacks ask for nothing: every in-band reply is taken off the queue in order, and
      a disconnecting context is freed once nothing waits and nothing is left to send. */
  lemma {:induction false} DisconnectDrains(behave: nat -> seq<Action>, pushCb: bool, s: Standing, rs: seq<Reply>)
    requires (forall n :: behave(n) == []) && !s.freeing && |rs| <= |s.waiting|
    requires forall i :: 0 <= i < |rs| ==> !rs[i].kind.OutOfBand?
    ensures var f := ReadFate(behave, pushCb, s, rs, false);
      && f.now == s.(waiting := s.waiting[|rs|..], consumed := s.consumed + rs, calls := f.now.calls)
      && (if |rs| == |s.waiting| && s.disconnecting && s.obufEmpty then f.Freed? else f.Open?)
    decreases |rs|
  {
    if |rs| == 0 {
      assert s.waiting[0..] == s.waiting && s.consumed + [] == s.consumed;
    } else {
      var left := s.(consumed := s.consumed + [rs[0]], waiting := s.waiting[1..]);
      assert Called(behave, left) == left.(calls := left.calls + 1);
      var t := if s.waiting[0].fn then left.(calls := left.calls + 1) else left;
      assert Taken(behave, pushCb, s, rs[0]) == Open(t);
      hide Taken, Called;
      DisconnectDrains(behave, pushCb, t, rs[1..]);
      assert s.waiting[1..][|rs| - 1..] == s.waiting[|rs|..];
      assert s.consumed + [rs[0]] + rs[1..] == s.consumed + rs;
    }
  }

  /** An in-band reply that nothing waits for: an error closes the connection, anything else
      fails the assertion. */
  lemma StrayReplies(behave: nat -> seq<Action>, pushCb: bool, noAutoFree: bool, body: nat)
    ensures var run := (kind: Kind) =>
        Course(behave, pushCb, Open(Fresh(noAutoFree)), [Readable(Some(([Reply(kind, body)], false)))]);
      && run(InBand).Aborted?
      && (if noAutoFree then run(Failure).Errored? else run(Failure).Freed?)
  {
    var start := Open(Fresh(noAutoFree));
    forall kind: Kind | !kind.OutOfBand?
      ensures var e := Readable(Some(([Reply(kind, body)], false)));
        Course(behave, pushCb, start, [e]) == Taken(behave, pushCb, start.now, Reply(kind, body))
    {
      var e := Readable(Some(([Reply(kind, body)], false)));
      assert [e][..0] == [];
      assert Course(behave, pushCb, start, [e]) == After(behave, pushCb, start, e);
    }
  }

  lemma PrefixOfSum(a: seq<Reply>, b: seq<Reply>, c: seq<Reply>)
    requires a + b <= c
    ensures a <= c
  {
    assert a <= a + b;
  }

  lemma {:induction false} SelectPrefix(a: seq<Reply>, b: seq<Reply>)
    requires a <= b
    ensures Select(a, false) <= Select(b, false)
    decreases |b| - |a|
  {
    if |a| < |b| {
      SelectSnoc(a, b[|a|], false);
      SelectPrefix(a + [b[|a|]], b);
    } else {
      assert a == b;
    }
  }

  function Callers(log: seq<(Callback, Option<Reply>)>): (r: seq<Callback>)
    ensures |r| == |log| && forall i :: 0 <= i < |log| ==> r[i] == log[i].0
  {
    seq(|log|, i requires 0 <= i < |log| => log[i].0)
  }

  function WithFn(cbs: seq<Callback>): seq<Callback> {
    if |cbs| == 0 then []
    else WithFn(cbs[..|cbs| - 1]) + (if cbs[|cbs| - 1].fn then [cbs[|cbs| - 1]] else [])
  }

  /** The calls made while serving are exactly those of the served commands that have a
      function, once each and in order. */
  lemma {:induction false} CalledInOrder(cbs: seq<Callback>, served: seq<Option<Reply>>)
    requires |served| <= |cbs|
    ensures Callers(Runs(cbs, served)) == WithFn(cbs[..|served|])
  {
    if |served| > 0 {
      var n := |served| - 1;
      CalledInOrder(cbs, served[..n]);
      assert cbs[..n + 1][..n] == cbs[..n];
    }
  }

  /** The i-th command served got the i-th of these replies, or, once there are none left for
      it, NULL. */
  ghost predicate InOrder(h: History, sent: seq<Reply>) {
    forall i :: 0 <= i < |h.served| ==>
      if i < |h.answers| then i < |sent| && h.served[i] == Some(sent[i]) else h.served[i] == None
  }

  /** What a coherent history says about the replies the server sent. */
  lemma Concludes(h: History, pending: seq<Callback>, closing: bool, halted: bool, pushCb: bool, sent: seq<Reply>)
    requires Coherent(h, pending, closing, halted, pushCb) && h.log == Runs(h.accepted, h.served) && h.consumed <= sent
    ensures Callers(h.log) == WithFn(h.accepted[..|h.served|])
    ensures |h.served| == |h.accepted| ==> Callers(h.log) == WithFn(h.accepted)
    ensures InOrder(h, Select(sent, false))
    ensures h.accepted[|h.served|..] == pending && h.pushed == if pushCb then Select(h.consumed, true) else []
  {
    hide Select, Runs, WithFn, Callers;
    SelectPrefix(h.consumed, sent);
    CalledInOrder(h.accepted, h.served);
    if |h.served| == |h.accepted| { assert h.accepted[..|h.served|] == h.accepted; }
  }

  lemma AllAnswered(h: History, pending: seq<Callback>, closing: bool, halted: bool, pushCb: bool)
    requires Coherent(h, pending, closing, halted, pushCb) && h.stray == []
    ensures Select(h.consumed, false) == h.answers
  {
    hide Select;
  }

  /** redisAsyncContext. The n-th callback invocation performs behave(n). */
  class Context {
    const behave: nat -> seq<Action>
    const replies: CallbackList
    const pushCb: bool
    var inCallback: bool
    var freeing: bool
    var disconnecting: bool
    var noAutoFree: bool
    var err: bool
    var obufEmpty: bool
    /** redisFree has run; nothing may touch the context any more. */
    var freed: bool
    /** The assert in redisProcessCallbacks has failed. */
    var aborted: bool
    var calls: nat
    /** Replies the reader can still produce, and whether a protocol error follows them. */
    var inbox: seq<Reply>
    var broken: bool
    ghost var H: History

    ghost predicate Closing()
      reads this
    {
      disconnecting || freeing
    }

    ghost predicate Halted()
      reads this
    {
      aborted || err
    }

    ghost predicate Core()
      reads this, replies
    {
      replies.Valid() && Coherent(H, replies.Contents(), Closing(), Halted(), pushCb)
    }

    ghost predicate Steady()
      reads this
    {
      (err ==> disconnecting) && (disconnecting && !err ==> !noAutoFree)
    }

    /** Between calls. Until the context is freed nothing was served without a reply. */
    ghost predicate Valid()
      reads this, replies
    {
      && Core() && Steady() && Logged() && !inCallback
      && (freed ==> |H.served| == |H.accepted|)
      && (!freed ==> |H.answers| == |H.served|)
      && (!err && !aborted ==> H.stray == [])
    }

    ghost function Now(): Standing
      reads this, replies
      requires replies.Valid()
    {
      Standing(H.accepted, replies.Contents(), H.consumed, freeing, disconnecting, noAutoFree, obufEmpty, calls)
    }

    ghost predicate Logged()
      reads this, replies
      requires Core()
    {
      H.log == Runs(H.accepted, H.served)
    }

    constructor (behave: nat -> seq<Action>, pushCb: bool, noAutoFree: bool)
      ensures Valid() && !freed && !aborted && !err && !Closing() && fresh(replies)
      ensures H == History([], [], [], [], [], [], []) && inbox == [] && !broken
      ensures this.behave == behave && this.pushCb == pushCb && Now() == Fresh(noAutoFree)
    {
      this.behave, this.pushCb, this.noAutoFree := behave, pushCb, noAutoFree;
      replies := new CallbackList();
      inCallback, freeing, disconnecting, err := false, false, false, false;
      obufEmpty, freed, aborted := true, false, false;
      calls, inbox, broken := 0, [], false;
      H := History([], [], [], [], [], [], []);
    }

    /** From inside a callback the context only takes requests: it serves nothing, and a
        closing context does not even take commands. */
    twostate predicate OnlyRequests()
      reads this, replies
      requires Core() && old(Core())
    {
      && inCallback && old(inCallback) && freed == old(freed) && aborted == old(aborted) && err == old(err)
      && inbox == old(inbox) && broken == old(broken) && calls == old(calls)
      && H == old(H).(accepted := H.accepted) && old(H.accepted) <= H.accepted
      && (old(Closing()) ==> Closing() && H == old(H) && replies.Contents() == old(replies.Contents()))
      && (old(disconnecting) ==> disconnecting) && (old(freeing) ==> freeing)
    }

    /** __redisAsyncCommand for a regular command. */
    method AsyncCommand(cb: Callback) returns (ok: bool)
      requires Core() && Steady() && !freed && !aborted
      modifies this`H, this`obufEmpty, replies
      ensures Core()
      ensures ok == !Closing()
      ensures H == if ok then old(H).(accepted := old(H).accepted + [cb]) else old(H)
      ensures replies.Contents() == if ok then old(replies.Contents()) + [cb] else old(replies.Contents())
      ensures Now() == Asked(old(Now()), Command(cb))
      decreases 0
    {
      hide Coherent, CallbackList.Valid, Runs;
      if disconnecting || freeing { return false; }
      Accepts(H, replies.Contents(), pushCb, cb);
      replies.Push(cb);
      H := H.(accepted := H.accepted + [cb]);
      obufEmpty := false;
      return true;
    }

    /** Every command still waiting was served NULL and nothing else was. */
    twostate predicate Drained()
      reads this, replies
      requires Core() && old(Core())
    {
      && freed && !inCallback && aborted == old(aborted) && err == old(err)
      && inbox == old(inbox) && broken == old(broken)
      && H == old(H).(served := H.served, log := H.log)
      && old(H.served) <= H.served && |H.served| == |H.accepted| && replies.Contents() == []
    }

    /** redisAsyncFree */
    method AsyncFree()
      requires Core() && Steady() && !freed && !aborted && (inCallback || Logged())
      modifies this, replies
      ensures Core() && Steady() && freeing
      ensures old(inCallback) ==> OnlyRequests() && Now() == Asked(old(Now()), Free)
      ensures !old(inCallback) ==> Logged() && Drained()
      decreases if inCallback then 0 else 4
    {
      hide Coherent, CallbackList.Valid, Runs;
      freeing := true;
      Closes(H, replies.Contents(), old(Closing()), Halted(), pushCb);
      if !inCallback { FreeNow(); }
    }

    /** Nothing was served, and nothing about the connection changed. */
    twostate predicate Undisturbed()
      reads this
    {
      && H == old(H) && !inCallback && inbox == old(inbox)
      && broken == old(broken) && err == old(err) && aborted == old(aborted)
    }

    /** __redisAsyncFree: callbacks run here cannot add to the queue. */
    method FreeNow()
      requires Core() && Steady() && Logged() && !freed && !aborted && !inCallback && Closing()
      modifies this, replies
      ensures Core() && Steady() && Logged() && Drained()
      ensures (old(freeing) ==> freeing) && (old(disconnecting) ==> disconnecting)
      decreases 3
    {
      hide Coherent, CallbackList.Valid, Runs;
      ghost var h0 := H;
      QueueLength(H, replies.Contents(), Closing(), Halted(), pushCb);
      var cb := replies.Shift();
      while cb.Some?
        invariant replies.Valid()
        invariant Coherent(H, if cb.Some? then [cb.value] + replies.Contents() else [], true, Halted(), pushCb)
        invariant cb.None? ==> replies.Contents() == []
        invariant Steady() && !freed && !aborted && !inCallback && Closing() && err == old(err)
          && inbox == old(inbox) && broken == old(broken)
        invariant H == h0.(served := H.served, log := H.log)
        invariant h0.served <= H.served && |H.served| <= |H.accepted| && H.log == Runs(H.accepted, H.served)
        invariant (old(freeing) ==> freeing) && (old(disconnecting) ==> disconnecting)
        decreases |H.accepted| - |H.served|
      {
        ServeNull(cb.value);
        cb := replies.Shift();
      }
      QueueLength(H, replies.Contents(), true, Halted(), pushCb);
      freed := true;
    }

    /** One pending callback of a closing context, just shifted. */
    method ServeNull(cb: Callback)
      requires replies.Valid() && Coherent(H, [cb] + replies.Contents(), true, Halted(), pushCb) && Closing()
      requires Steady() && !inCallback && !freed && !aborted
      requires |H.served| <= |H.accepted| && H.log == Runs(H.accepted, H.served)
      modifies this, replies
      ensures Core() && Steady() && Logged() && !inCallback && !freed && !aborted && Closing()
      ensures err == old(err) && inbox == old(inbox) && broken == old(broken)
        && replies.Contents() == old(replies.Contents())
      ensures H == old(H).(served := old(H.served) + [None], log := H.log)
      ensures (old(freeing) ==> freeing) && (old(disconnecting) ==> disconnecting)
      ensures |H.served| <= |H.accepted|
      decreases 2, 1
    {
      hide Coherent, CallbackList.Valid, Runs;
      QueueLength(H, [cb] + replies.Contents(), true, Halted(), pushCb);
      assert (H.served + [None])[..|H.served|] == H.served;
      Drains(H, replies.Contents(), Halted(), pushCb, cb);
      H := H.(served := H.served + [None]);
      RunCallback(cb, None);
    }

    /** A callback ran, or there was none to run. */
    twostate predicate Ran()
      reads this, replies
      requires Core() && old(Core())
    {
      && freed == old(freed) && aborted == old(aborted) && err == old(err)
      && inbox == old(inbox) && broken == old(broken)
      && H == old(H).(accepted := H.accepted, log := H.log) && old(H.accepted) <= H.accepted
      && (old(Closing()) ==>
            Closing() && H.accepted == old(H.accepted) && replies.Contents() == old(replies.Contents()))
      && (old(disconnecting) ==> disconnecting) && (old(freeing) ==> freeing)
    }

    /** __redisRunCallback for the command just shifted. */
    method RunCallback(cb: Callback, reply: Option<Reply>)
      requires Core() && Steady() && !inCallback && !freed && !aborted
      requires var n := |H.served| - 1;
        n >= 0 && H.accepted[n] == cb && H.served[n] == reply && H.log == Runs(H.accepted, H.served[..n])
      modifies this, replies
      ensures Core() && Steady() && Logged() && !inCallback && Ran()
      ensures Now() == if cb.fn then Called(behave, old(Now())) else old(Now())
      decreases 2, 0
    {
      hide Coherent, CallbackList.Valid, Runs;
      QueueLength(H, replies.Contents(), Closing(), Halted(), pushCb);
      RunsSnoc(H.accepted, H.served[..|H.served| - 1], reply);
      assert H.served[..|H.served| - 1] + [reply] == H.served;
      if cb.fn {
        LogAside(H, replies.Contents(), Closing(), Halted(), pushCb, H.log + [(cb, reply)]);
        H := H.(log := H.log + [(cb, reply)]);
        Invoke();
      }
    }

    /** A callback function runs with the in-callback flag set around it. */
    method Invoke()
      requires Core() && Steady() && !inCallback && !freed && !aborted && Logged()
      modifies this, replies
      ensures Core() && Steady() && !inCallback && Ran() && Logged() && H.log == old(H.log)
      ensures Now() == Called(behave, old(Now()))
      decreases 1, 1
    {
      hide Coherent, CallbackList.Valid, Runs;
      QueueLength(H, replies.Contents(), Closing(), Halted(), pushCb);
      ghost var before := H.accepted;
      inCallback := true;
      calls := calls + 1;
      Perform(behave(calls - 1));
      RunsAccepting(before, H.accepted, H.served);
      inCallback := false;
    }

    /** A callback's calls into the context, one after another. */
    method Perform(actions: seq<Action>)
      requires Core() && Steady() && inCallback && !freed && !aborted
      modifies this, replies
      ensures Core() && Steady() && OnlyRequests()
      ensures Now() == AskedAll(old(Now()), actions)
      decreases 1, 0
    {
      hide Coherent, CallbackList.Valid, Runs;
      var i := 0;
      while i < |actions|
        invariant Core() && Steady() && OnlyRequests() && i <= |actions|
        invariant Now() == AskedAll(old(Now()), actions[..i])
      {
        AskedNext(old(Now()), actions, i);
        match actions[i] {
          case Command(cb) => var _ := AsyncCommand(cb);
          case Free => AsyncFree();
          case Disconnect => AsyncDisconnect();
        }
        i := i + 1;
      }
      assert actions[..i] == actions;
    }

    /** redisAsyncDisconnect: deferred while a callback runs or commands wait. */
    method AsyncDisconnect()
      requires Core() && Steady() && !freed && !aborted && (inCallback || Logged())
      modifies this, replies
      ensures Core() && Steady() && disconnecting && (freed || !noAutoFree)
      ensures old(inCallback) ==> OnlyRequests() && Now() == Asked(old(Now()), Disconnect)
      ensures !old(inCallback) ==> Logged() && freed == (old(replies.Contents()) == [])
      ensures !old(inCallback) ==> if freed then Drained() else Undisturbed() && Now() == Asked(old(Now()), Disconnect)
      decreases if inCallback then 0 else 5
    {
      hide Coherent, CallbackList.Valid, Runs;
      replies.HeadOf();
      disconnecting := true;
      Closes(H, replies.Contents(), old(Closing()), Halted(), pushCb);
      noAutoFree := false;
      if !inCallback && replies.head == None {
        DisconnectNow();
      }
    }

    /** __redisRunPushCallback */
    method RunPushCallback(reply: Reply)
      requires Valid() && !freed && !aborted && !err && reply.kind.OutOfBand?
      modifies this, replies
      ensures Valid() && !freed && !aborted && !err && inbox == old(inbox) && broken == old(broken)
      ensures H == old(H).(accepted := H.accepted, consumed := old(H).consumed + [reply], pushed := H.pushed)
      ensures pushCb ==> H.pushed == old(H).pushed + [reply]
      ensures var s := old(Now()).(consumed := old(H.consumed) + [reply]);
        Now() == if pushCb then Called(behave, s) else s
    {
      hide Coherent, CallbackList.Valid, Runs;
      Pushes(H, replies.Contents(), Closing(), Halted(), pushCb, reply);
      H := H.(consumed := H.consumed + [reply], pushed := if pushCb then H.pushed + [reply] else H.pushed);
      if pushCb {
        Invoke();
      }
    }

    /** __redisAsyncDisconnect */
    method DisconnectNow()
      requires Core() && Logged() && !freed && !aborted && !inCallback
      requires err || (disconnecting && !noAutoFree && replies.Contents() == [])
      modifies this, replies
      ensures Core() && Steady() && Logged() && disconnecting
      ensures freed == !old(noAutoFree)
      ensures if freed then Drained() else Undisturbed() && Now() == old(Now()).(disconnecting := true)
      decreases 4
    {
      hide Coherent, CallbackList.Valid, Runs;
      if !err {
        var ret := replies.Shift();
        assert ret == None;
      } else {
        disconnecting := true;
        Closes(H, replies.Contents(), old(Closing()), Halted(), pushCb);
      }
      if !noAutoFree { FreeNow(); }
    }

    /** An error on the connection. */
    method Fail()
      requires Valid() && !freed && !aborted
      modifies this, replies
      ensures Valid() && err && disconnecting && H.consumed == old(H.consumed)
      ensures inbox == old(inbox) && broken == old(broken)
      ensures freed == !old(noAutoFree) && aborted == old(aborted) && H.accepted == old(H.accepted)
      ensures !freed ==> Now() == old(Now()).(disconnecting := true)
    {
      hide Coherent, CallbackList.Valid, Runs;
      Closes(H, replies.Contents(), Closing(), Halted(), pushCb);
      err := true;
      DisconnectNow();
    }

    /** An in-band reply with a command waiting for it. */
    method Answer(cb: Callback, reply: Reply)
      requires replies.Valid() && Coherent(H, [cb] + replies.Contents(), Closing(), Halted(), pushCb)
        && !reply.kind.OutOfBand?
      requires Steady() && !inCallback && !freed && !aborted && !err && H.stray == [] && |H.answers| == |H.served|
      requires |H.served| <= |H.accepted| && H.log == Runs(H.accepted, H.served)
      modifies this, replies
      ensures Valid() && !aborted && !err
      ensures var left := old(Now()).(consumed := old(H.consumed) + [reply]);
        var now := if cb.fn then Called(behave, left) else left;
        && freed == (cb.fn && now.freeing) && H.accepted == now.accepted && H.consumed == now.consumed
        && (!freed ==> Now() == now)
      ensures inbox == old(inbox) && broken == old(broken) && H.consumed == old(H.consumed) + [reply]
    {
      hide Coherent, CallbackList.Valid, Runs;
      CalledKeepsConsumed(behave, Now().(consumed := H.consumed + [reply]));
      QueueLength(H, [cb] + replies.Contents(), Closing(), Halted(), pushCb);
      Answers(H, replies.Contents(), Closing(), pushCb, cb, reply);
      RunsSnoc(H.accepted, H.served, Some(reply));
      assert (H.served + [Some(reply)])[..|H.served|] == H.served;
      H := H.(served := H.served + [Some(reply)], answers := H.answers + [reply], consumed := H.consumed + [reply]);
      if cb.fn {
        RunCallback(cb, Some(reply));
        if freeing { FreeNow(); }
      }
    }

    /** An in-band reply no command waits for: a failure closes the connection, anything
        else fails the assert. */
    method Unexpected(reply: Reply)
      requires Valid() && !freed && !aborted && !err && replies.Contents() == [] && !reply.kind.OutOfBand?
      modifies this, replies
      ensures Valid() && aborted == reply.kind.InBand? && err == reply.kind.Failure?
      ensures freed == (reply.kind.Failure? && !old(noAutoFree)) && H.accepted == old(H.accepted)
      ensures var s := old(Now()).(consumed := H.consumed);
        !freed ==> Now() == if err then s.(disconnecting := true) else s
      ensures inbox == old(inbox) && broken == old(broken) && H.consumed == old(H.consumed) + [reply]
    {
      hide Coherent, CallbackList.Valid, Runs;
      Strays(H, Closing(), Halted(), pushCb, reply);
      H := H.(stray := [reply], consumed := H.consumed + [reply]);
      if reply.kind.Failure? {
        err := true;
        DisconnectNow();
      } else {
        aborted := true;
      }
    }

    /** The context came out of a read, or of one reply, in this way. */
    ghost predicate Met(f: Fate)
      reads this, replies
      requires replies.Valid()
    {
      && freed == f.Freed? && aborted == f.Aborted? && (!freed ==> err == f.Errored?)
      && H.accepted == f.now.accepted && H.consumed == f.now.consumed
      && (!freed ==> Now() == f.now)
    }

    /** The part for a reply that answers a command, or should. */
    method TakeInBand(reply: Reply)
      requires Valid() && !freed && !aborted && !err && !reply.kind.OutOfBand?
      modifies this, replies
      ensures Valid() && Met(Taken(behave, pushCb, old(Now()), reply))
      ensures err ==> old(replies.Contents()) == [] && reply.kind.Failure?
      ensures inbox == old(inbox) && broken == old(broken) && H.consumed == old(H.consumed) + [reply]
    {
      hide Coherent, CallbackList.Valid, Runs, Steady, Called;
      QueueLength(H, replies.Contents(), Closing(), Halted(), pushCb);
      ghost var was := replies.Contents();
      var cb := replies.Shift();
      assert cb.Some? ==> replies.Contents() == was[1..] && was[0] == cb.value;
      if cb.Some? { Answer(cb.value, reply); } else { Unexpected(reply); }
    }

    /** The body of redisProcessCallbacks' loop for one reply. */
    method TakeReply(reply: Reply) returns (stop: bool)
      requires Valid() && !freed && !aborted && !err
      modifies this, replies
      ensures Valid() && Met(Taken(behave, pushCb, old(Now()), reply)) && stop == (freed || aborted || err)
      ensures err ==> old(replies.Contents()) == [] && reply.kind.Failure?
      ensures inbox == old(inbox) && broken == old(broken) && H.consumed == old(H.consumed) + [reply]
    {
      hide Coherent, CallbackList.Valid, Runs, Steady, Called;
      if reply.kind.OutOfBand? { RunPushCallback(reply); } else { TakeInBand(reply); }
      return freed || aborted || err;
    }

    /** redisProcessCallbacks */
    method ProcessCallbacks()
      requires Valid() && !freed && !aborted && !err
      modifies this, replies
      ensures Valid() && Met(ReadFate(behave, pushCb, old(Now()), old(inbox), old(broken)))
      ensures H.consumed + inbox == old(H.consumed + inbox)
      ensures freed || aborted || err || (inbox == [] && !broken)
    {
      hide Coherent, CallbackList.Valid, Runs, Taken;
      ghost var whole := inbox;
      while true
        invariant Valid() && !freed && !aborted && !err && broken == old(broken)
        invariant ReadFate(behave, pushCb, Now(), inbox, broken)
          == ReadFate(behave, pushCb, old(Now()), whole, broken)
        invariant H.consumed + inbox == old(H.consumed + inbox)
        decreases |inbox|
      {
        if |inbox| == 0 {
          if broken {
            Fail();
          } else {
            replies.HeadOf();
            if disconnecting && obufEmpty && replies.head == None { DisconnectNow(); }
          }
          return;
        }
        var reply := inbox[0];
        NextOf(H.consumed, inbox);
        inbox := inbox[1..];
        var stop := TakeReply(reply);
        if stop { return; }
      }
    }

    /** redisAsyncRead: nothing when the socket fails, else what the reader can make of the
        bytes read. Replies are taken in the order they arrive; after an error none are. */
    method AsyncRead(data: Option<(seq<Reply>, bool)>)
      requires Valid() && !freed && !aborted
      modifies this, replies
      ensures Valid() && (old(err) ==> err)
      ensures var taken := data.Some? && !old(err) && !old(broken);
        H.consumed + inbox == old(H.consumed + inbox) + if taken then data.value.0 else []
      ensures data.None? || old(err) || old(broken) ==> err && Met(Failed(old(Now())))
      ensures freed || aborted || err || (inbox == [] && !broken)
      ensures data.Some? && !old(err) && !old(broken) ==>
        Met(ReadFate(behave, pushCb, old(Now()), old(inbox) + data.value.0, data.value.1))
    {
      hide Coherent, CallbackList.Valid, Runs;
      assert H.consumed + inbox + [] == H.consumed + inbox;
      if err {
        DisconnectNow();
      } else if data.None? || broken {
        Fail();
      } else {
        assert H.consumed + (inbox + data.value.0) == (H.consumed + inbox) + data.value.0;
        inbox, broken := inbox + data.value.0, data.value.1;
        ProcessCallbacks();
      }
    }

    /** redisAsyncWrite: the socket fails, or takes all or part of the output. */
    method AsyncWrite(done: Option<bool>)
      requires Valid() && !freed && !aborted
      modifies this, replies
      ensures Valid() && !aborted && (old(err) ==> err) && inbox == old(inbox) && broken == old(broken)
      ensures done.None? || old(err) ==> err && Met(Failed(old(Now())))
      ensures done.Some? && !old(err) ==>
        H == old(H) && Met(Open(old(Now()).(obufEmpty := old(obufEmpty) || done.value)))
    {
      hide Coherent, CallbackList.Valid, Runs;
      if err {
        DisconnectNow();
      } else if done.None? {
        Fail();
      } else {
        obufEmpty := obufEmpty || done.value;
      }
    }

    /** A command from outside any callback. */
    method TopCommand(cb: Callback)
      requires Valid() && !freed && !aborted
      modifies this, replies
      ensures Valid() && freed == old(freed) && aborted == old(aborted) && err == old(err)
      ensures Now() == Asked(old(Now()), Command(cb)) && inbox == old(inbox) && broken == old(broken)
    {
      hide Coherent, CallbackList.Valid, Runs;
      QueueLength(H, replies.Contents(), Closing(), Halted(), pushCb);
      ghost var before := H.accepted;
      var _ := AsyncCommand(cb);
      RunsAccepting(before, H.accepted, H.served);
    }

    /** How things stand between events. */
    ghost function Stands(): Fate
      reads this, replies
      requires replies.Valid()
    {
      if freed then Freed(Now()) else if aborted then Aborted(Now()) else if err then Errored(Now()) else Open(Now())
    }

    /** One event of a run. */
    method OnEvent(e: Event)
      requires Valid() && !freed && !aborted && (err || (inbox == [] && !broken))
      modifies this, replies
      ensures Valid() && Met(After(behave, pushCb, old(Stands()), e))
      ensures (freed || aborted || err || (inbox == [] && !broken)) && (old(err) ==> err)
      ensures H.consumed + inbox == old(H.consumed + inbox) + if old(err) then [] else Gained(e)
    {
      hide Coherent, CallbackList.Valid, Runs, Taken;
      assert H.consumed + inbox + [] == H.consumed + inbox;
      match e {
        case Call(Command(cb)) => TopCommand(cb);
        case Call(Free) => AsyncFree();
        case Call(Disconnect) => AsyncDisconnect();
        case Readable(data) =>
          if data.Some? { assert [] + data.value.0 == data.value.0; }
          AsyncRead(data);
        case Writable(done) => AsyncWrite(done);
      }
    }

    /** The events one after another, until the context is gone. */
    method OnEvents(events: seq<Event>)
      requires Valid() && !freed && !aborted && !err && !broken && H.consumed == [] && inbox == []
      modifies this, replies
      ensures Valid() && Met(Course(behave, pushCb, Open(old(Now())), events))
      ensures H.consumed + inbox <= Arrived(events)
      ensures !freed && !aborted && !err ==> inbox == [] && H.consumed == Arrived(events)
    {
      hide Coherent, CallbackList.Valid, Runs, Select, Gained, Arrived, After;
      var i := 0;
      ArrivedPrefix(events, 0);
      assert events[..0] == [] && H.consumed + [] == H.consumed;
      while i < |events| && !freed && !aborted
        invariant i <= |events| && Valid() && (freed || aborted || err || (inbox == [] && !broken))
        invariant Met(Course(behave, pushCb, Open(old(Now())), events[..i]))
        invariant H.consumed + inbox <= Arrived(events[..i])
        invariant !err ==> H.consumed + inbox == Arrived(events[..i])
      {
        hide Valid;
        ArrivedStep(events, i);
        CourseStep(behave, pushCb, Open(old(Now())), events, i);
        OnEvent(events[i]);
        i := i + 1;
      }
      if i < |events| { CourseEnds(behave, pushCb, Open(old(Now())), events, i); }
      ArrivedPrefix(events, i);
      assert events[..|events|] == events && (inbox == [] ==> H.consumed + inbox == H.consumed);
    }

    /** What the kept invariant says of the replies sent. */
    lemma Sums(events: seq<Event>)
      requires Valid() && H.consumed + inbox <= Arrived(events)
      requires !freed && !aborted && !err ==> H.consumed == Arrived(events)
      ensures H.log == Runs(H.accepted, H.served)
      ensures Callers(H.log) == WithFn(H.accepted[..|H.served|])
      ensures freed ==> Callers(H.log) == WithFn(H.accepted)
      ensures InOrder(H, Select(Arrived(events), false))
      ensures !freed && !aborted && !err ==> |H.served| == |Select(Arrived(events), false)|
      ensures !freed ==> H.accepted[|H.served|..] == replies.Contents() && |H.answers| == |H.served|
      ensures H.pushed == if pushCb then Select(H.consumed, true) else []
    {
      hide Coherent, CallbackList.Valid, Runs, Select, Arrived, WithFn, Callers, InOrder;
      PrefixOfSum(H.consumed, inbox, Arrived(events));
      Concludes(H, replies.Contents(), Closing(), Halted(), pushCb, Arrived(events));
      if H.stray == [] { AllAnswered(H, replies.Contents(), Closing(), Halted(), pushCb); }
    }

    /** Any run of the program around a new context. Which commands it takes and which
        replies it consumes is the course of the events; while it is open these are all
        replies. Commands that have a function are called back in the order they were taken,
        the i-th with the i-th in-band reply the server sent; once the context is freed all
        of them have been called exactly once, those without a reply with NULL. The push
        callback is called with every push consumed. */
    method Serve(events: seq<Event>)
      requires Valid() && !freed && !aborted && !err && !broken && H.consumed == [] && inbox == []
      modifies this, replies
      ensures Valid() && Met(Course(behave, pushCb, Open(old(Now())), events))
      ensures H.log == Runs(H.accepted, H.served)
      ensures Callers(H.log) == WithFn(H.accepted[..|H.served|])
      ensures freed ==> Callers(H.log) == WithFn(H.accepted)
      ensures InOrder(H, Select(Arrived(events), false))
      ensures !freed && !aborted && !err ==>
        H.consumed == Arrived(events) && |H.served| == |Select(Arrived(events), false)|
      ensures !freed ==> H.accepted[|H.served|..] == replies.Contents() && |H.answers| == |H.served|
      ensures H.pushed == if pushCb then Select(H.consumed, true) else []
    {
      hide Course, Coherent, CallbackList.Valid, Runs, Select, Arrived, WithFn, Callers, InOrder;
      OnEvents(events);
      Sums(events);
    }
  }

  lemma OneCommand(behave: nat -> seq<Action>, cb: Callback, reply: Reply)
    requires cb.fn && !reply.kind.OutOfBand? && behave(0) == []
    ensures Course(behave, true, Open(Fresh(false)), [Call(Command(cb)), Readable(Some(([reply], false)))])
      == Open(Standing([cb], [], [reply], false, false, false, false, 1))
    ensures Arrived([Call(Command(cb)), Readable(Some(([reply], false)))]) == [reply]
    ensures Select([reply], false) == [reply]
  {
    var e, f := Call(Command(cb)), Readable(Some(([reply], false)));
    assert [e, f][..1] == [e] && [e][..0] == [];
    var s := Standing([cb], [cb], [], false, false, false, false, 0);
    assert Course(behave, true, Open(Fresh(false)), []) == Open(Fresh(false));
    assert After(behave, true, Open(Fresh(false)), e) == Open(s);
    assert Course(behave, true, Open(Fresh(false)), [e]) == Open(s);
    var t := Standing([cb], [], [reply], false, false, false, false, 1);
    assert s.(consumed := [reply], waiting := []) == t.(calls := 0);
    assert Called(behave, t.(calls := 0)) == t;
    assert Taken(behave, true, s, reply) == Open(t);
    assert ReadFate(behave, true, t, [], false) == Open(t);
    assert [reply][1..] == [] && [e, f][..|[e, f]| - 1] == [e];
    assert After(behave, true, Open(s), f) == Open(t);
    assert Arrived([e]) == [] && Select([], false) == [];
  }

  /** A push callback that frees the context does not get it freed, although the read
      that called it has come to its end. */
  method FreeFromPushWaits() returns (ac: Context)
    ensures ac.Valid() && ac.freeing && !ac.freed && !ac.aborted && !ac.err
  {
    hide Coherent, CallbackList.Valid, Runs, ReadFate, Pushed, Called;
    ac := new Context(n => [Free], true, false);
    var push := Reply(OutOfBand, 0);
    PushesFreeIff(ac.behave, ac.Now(), [push]);
    PushedKeeps(ac.behave, ac.Now(), [push]);
    assert [] + [push] == [push];
    assert Free in ac.behave(0);
    ac.AsyncRead(Some(([push], false)));
  }

  /** One command and its answer: the callback is called with the reply, once. */
  method CommandIsCalled(cb: Callback, reply: Reply) returns (ac: Context)
    requires cb.fn && !reply.kind.OutOfBand?
    ensures ac.Valid() && !ac.freed && !ac.aborted && !ac.err
    ensures ac.H.accepted == [cb] && ac.H.log == [(cb, Some(reply))]
  {
    hide Coherent, CallbackList.Valid, Course, Select, Arrived, Callers, WithFn;
    ac := new Context(n => [], true, false);
    assert ac.Now() == Fresh(false);
    OneCommand(ac.behave, cb, reply);
    ac.Serve([Call(Command(cb)), Readable(Some(([reply], false)))]);
    assert ac.H.served == [Some(reply)];
    assert [Some(reply)][..0] == [];
  }
}
