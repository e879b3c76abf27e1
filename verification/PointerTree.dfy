/** pointer.h: resolving a pointer's tokens in a value tree, creating what is missing, and
    setting (section 4 of RFC 6901). A pointer to a node is the path of child places that
    leads to it. */
module PointerTree {
  import opened Bytes
  import opened JsonValue
  import PT = PointerText

  type Node<N> = Value<N, bytes>
  type Token = PT.Token

  predicate ValidToken(t: Token) { 0 <= t.index <= PT.INVALID_INDEX }

  predicate AllValid(ts: seq<Token>) { forall i :: 0 <= i < |ts| ==> ValidToken(ts[i]) }

  // ---- nodes and paths ----

  function Count<N>(v: Node<N>): nat {
    match v case Array(es) => |es| case Object(ms) => |ms| case _ => 0
  }

  function Child<N>(v: Node<N>, i: nat): Node<N>
    requires i < Count(v)
  {
    if v.Array? then v.elements[i] else v.members[i].value
  }

  function WithChild<N>(v: Node<N>, i: nat, c: Node<N>): (r: Node<N>)
    requires i < Count(v)
    ensures Count(r) == Count(v) && Child(r, i) == c
  {
    if v.Array? then Array(v.elements[i := c]) else Object(v.members[i := Member(v.members[i].name, c)])
  }

  predicate Leads<N>(v: Node<N>, path: seq<nat>)
    decreases path
  {
    |path| == 0 || (path[0] < Count(v) && Leads(Child(v, path[0]), path[1..]))
  }

  function NodeAt<N>(v: Node<N>, path: seq<nat>): Node<N>
    requires Leads(v, path)
    decreases path
  {
    if |path| == 0 then v else NodeAt(Child(v, path[0]), path[1..])
  }

  /** The tree with the node at path replaced. */
  function Put<N>(v: Node<N>, path: seq<nat>, x: Node<N>): Node<N>
    requires Leads(v, path)
    decreases path
  {
    if |path| == 0 then x else WithChild(v, path[0], Put(Child(v, path[0]), path[1..], x))
  }

  lemma WithChildTwice<N>(v: Node<N>, i: nat, a: Node<N>, b: Node<N>)
    requires i < Count(v)
    ensures WithChild(WithChild(v, i, a), i, b) == WithChild(v, i, b)
  {
  }

  /** Writing a node and then one of its children, or the child within the node. */
  lemma {:induction false} PutDeeper<N>(v: Node<N>, path: seq<nat>, x: Node<N>, i: nat, c: Node<N>)
    requires Leads(v, path) && i < Count(x)
    ensures var w := Put(v, path, x);
      && Leads(w, path) && NodeAt(w, path) == x
      && Leads(w, path + [i]) && NodeAt(w, path + [i]) == Child(x, i)
      && Put(w, path + [i], c) == Put(v, path, WithChild(x, i, c))
    decreases path
  {
    if |path| == 0 {
      assert path + [i] == [i] && [i][1..] == [];
    } else {
      PutDeeper(Child(v, path[0]), path[1..], x, i, c);
      assert (path + [i])[0] == path[0] && (path + [i])[1..] == path[1..] + [i];
      WithChildTwice(v, path[0], Put(Child(v, path[0]), path[1..], x),
        Put(Child(v, path[0]), path[1..], WithChild(x, i, c)));
    }
  }

  lemma {:induction false} PutBack<N>(v: Node<N>, path: seq<nat>, x: Node<N>)
    requires Leads(v, path)
    ensures Leads(Put(v, path, x), path) && NodeAt(Put(v, path, x), path) == x
    ensures Put(v, path, NodeAt(v, path)) == v
    decreases path
  {
    if |path| > 0 {
      PutBack(Child(v, path[0]), path[1..], x);
      if v.Object? { assert Member(v.members[path[0]].name, v.members[path[0]].value) == v.members[path[0]]; }
    }
  }

  // ---- one token ----

  /** FindMember: the first member of that name, or the number of members. */
  function Place<N>(ms: seq<Member<N, bytes>>, name: bytes): (i: nat)
    ensures i <= |ms|
    ensures i < |ms| ==> ms[i].name == name
    ensures forall j :: 0 <= j < i ==> ms[j].name != name
  {
    if |ms| == 0 || ms[0].name == name then 0 else 1 + Place(ms[1..], name)
  }

  lemma {:induction false} PlaceIs<N>(ms: seq<Member<N, bytes>>, name: bytes, i: nat)
    requires i <= |ms| && (i < |ms| ==> ms[i].name == name) && forall j :: 0 <= j < i ==> ms[j].name != name
    ensures Place(ms, name) == i
  {
    if i > 0 {
      assert ms[0].name != name;
      PlaceIs(ms[1..], name, i - 1);
    }
  }

  function Filled<N>(es: seq<Node<N>>, n: nat): (r: seq<Node<N>>)
    requires |es| <= n
    ensures |r| == n && r[..|es|] == es && forall i :: |es| <= i < n ==> r[i] == Null
    decreases n - |es|
  {
    if |es| == n then es else Filled(es + [Null], n)
  }

  /** A node in which a token has a child, where that is, and whether it was there. */
  datatype Entered<N> = Entered(node: Node<N>, place: nat, existed: bool)

  predicate Dash<N>(v: Node<N>, t: Token) { v.Array? && t.name == [MINUS] }

  /** The type change before a token that is not "-" on an array. */
  function Shaped<N>(v: Node<N>, t: Token): Node<N> {
    if t.index == PT.INVALID_INDEX then (if v.Object? then v else Object([]))
    else if v.Array? || v.Object? then v
    else Array([])
  }

  function Enter<N>(v: Node<N>, t: Token): (e: Entered<N>)
    requires ValidToken(t)
    ensures e.place < Count(e.node)
  {
    if Dash(v, t) then Entered(Array(v.elements + [Null]), |v.elements|, false)
    else
      var u := Shaped(v, t);
      if u.Array? then
        if t.index >= |u.elements| then Entered(Array(Filled(u.elements, t.index + 1)), t.index, false)
        else Entered(u, t.index, true)
      else
        var i := Place(u.members, t.name);
        if i == |u.members| then Entered(Object(u.members + [Member(t.name, Null)]), i, false) else Entered(u, i, true)
  }

  /** The child a token names, if any. */
  function Step<N>(v: Node<N>, t: Token): (i: Option<nat>)
    ensures i.Some? && ValidToken(t) ==> i.value < Count(v)
  {
    match v
    case Object(ms) => var i := Place(ms, t.name); if i == |ms| then None else Some(i)
    case Array(es) => if t.index == PT.INVALID_INDEX || t.index >= |es| || t.index < 0 then None else Some(t.index)
    case _ => None
  }

  /** A token is there before exactly when Create has nothing to add for it, and is there
      afterwards at the place Create went to, except for "-" on an array. */
  lemma EnterStep<N>(v: Node<N>, t: Token)
    requires ValidToken(t) && (t.name == [MINUS] ==> t.index == PT.INVALID_INDEX)
    ensures var e := Enter(v, t);
      && (e.existed <==> Step(v, t).Some?)
      && (e.existed ==> e.node == v && Step(v, t) == Some(e.place))
      && Step(e.node, t) == (if Dash(v, t) then None else Some(e.place))
      && forall c :: Step(WithChild(e.node, e.place, c), t) == Step(e.node, t)
  {
    var e := Enter(v, t);
    if e.node.Object? {
      PlaceIs(e.node.members, t.name, e.place);
      forall c ensures Step(WithChild(e.node, e.place, c), t) == Step(e.node, t) {
        PlaceIs(WithChild(e.node, e.place, c).members, t.name, e.place);
      }
    }
  }

  // ---- whole pointers ----

  /** "-" is only a name. Parsed tokens satisfy this. */
  predicate Proper(ts: seq<Token>) {
    AllValid(ts) && forall i :: 0 <= i < |ts| && ts[i].name == [MINUS] ==> ts[i].index == PT.INVALID_INDEX
  }

  lemma {:induction false} IndexRange(n: int, digits: bytes)
    requires 0 <= n < PT.TWO32
    ensures PT.Accumulate(n, digits).Some? ==> 0 <= PT.Accumulate(n, digits).value < PT.TWO32
    decreases |digits|
  {
    if |digits| > 0 { IndexRange((n * 10 + digits[0] - 48) % PT.TWO32, digits[1..]); }
  }

  lemma TokenIsProper(name: bytes)
    ensures var t := PT.MakeToken(name); ValidToken(t) && (name == [MINUS] ==> t.index == PT.INVALID_INDEX)
  {
    IndexRange(0, name);
    hide PT.Accumulate;
    if name == [MINUS] { assert !IsDigit(name[0]); }
  }

  lemma ParsedIsProper(source: bytes)
    requires PT.ParseText(source).Parsed?
    ensures Proper(PT.ParseText(source).tokens)
  {
    var ts := PT.ParseText(source).tokens;
    PT.CanonicalSource(source);
    hide PT.MakeToken, PT.ParseText;
    forall i | 0 <= i < |ts| ensures ValidToken(ts[i]) && (ts[i].name == [MINUS] ==> ts[i].index == PT.INVALID_INDEX) {
      TokenIsProper(ts[i].name);
    }
  }

  datatype Made<N> = Made(root: Node<N>, path: seq<nat>, existed: bool)

  /** Create, from a node down. */
  function Create<N>(v: Node<N>, ts: seq<Token>): (m: Made<N>)
    requires AllValid(ts)
    ensures Leads(m.root, m.path) && |m.path| == |ts|
    decreases ts
  {
    if |ts| == 0 then Made(v, [], true)
    else
      var e := Enter(v, ts[0]);
      var below := Create(Child(e.node, e.place), ts[1..]);
      Made(WithChild(e.node, e.place, below.root), [e.place] + below.path, e.existed && below.existed)
  }

  /** Get: the path the tokens lead along, or the number of the first that leads nowhere. */
  datatype Found = At(path: seq<nat>) | Missing(token: nat)

  function Get<N>(v: Node<N>, ts: seq<Token>): (f: Found)
    requires AllValid(ts)
    ensures f.At? ==> Leads(v, f.path)
    decreases ts
  {
    if |ts| == 0 then At([])
    else
      var i := Step(v, ts[0]);
      if i.None? then Missing(0)
      else
        match Get(Child(v, i.value), ts[1..])
        case At(path) => At([i.value] + path)
        case Missing(k) => Missing(k + 1)
  }

  /** A token "-" meets an array on Create's way. */
  predicate MeetsArray<N>(v: Node<N>, ts: seq<Token>)
    requires AllValid(ts)
    decreases ts
  {
    |ts| > 0 && (Dash(v, ts[0]) || var e := Enter(v, ts[0]); MeetsArray(Child(e.node, e.place), ts[1..]))
  }

  lemma WithOwnChild<N>(v: Node<N>, i: nat)
    requires i < Count(v)
    ensures WithChild(v, i, Child(v, i)) == v
  {
    if v.Object? { assert Member(v.members[i].name, v.members[i].value) == v.members[i]; }
  }

  /** Create says alreadyExist exactly when Get would have found the node, and then it
      changes nothing and returns that node. */
  lemma {:induction false} ExistsIffGet<N>(v: Node<N>, ts: seq<Token>)
    requires Proper(ts)
    ensures var m := Create(v, ts);
      && (m.existed <==> Get(v, ts).At?)
      && (m.existed ==> m.root == v && Get(v, ts) == At(m.path))
    decreases ts
  {
    if |ts| > 0 {
      var e := Enter(v, ts[0]);
      EnterStep(v, ts[0]);
      hide Enter, Step;
      ExistsIffGet(Child(e.node, e.place), ts[1..]);
      WithOwnChild(e.node, e.place);
    }
  }

  lemma Descends<N>(v: Node<N>, ts: seq<Token>, i: nat, path: seq<nat>)
    requires |ts| > 0 && AllValid(ts) && i < Count(v)
    ensures Get(v, ts) == At([i] + path) <==> Step(v, ts[0]) == Some(i) && Get(Child(v, i), ts[1..]) == At(path)
  {
    hide Step;
    if Step(v, ts[0]).Some? {
      var r := Get(Child(v, Step(v, ts[0]).value), ts[1..]);
      if r.At? && [Step(v, ts[0]).value] + r.path == [i] + path {
        assert ([Step(v, ts[0]).value] + r.path)[0] == i && ([Step(v, ts[0]).value] + r.path)[1..] == ([i] + path)[1..];
      }
    }
  }

  /** After Create, Get reaches the node Create returned exactly when no token "-" met an
      array; whatever is put at that node does not matter. */
  lemma {:induction false} GetAfterCreate<N>(v: Node<N>, ts: seq<Token>, x: Node<N>)
    requires Proper(ts)
    ensures var m := Create(v, ts);
      && (Get(m.root, ts) == At(m.path) <==> !MeetsArray(v, ts))
      && (Get(Put(m.root, m.path, x), ts) == At(m.path) <==> !MeetsArray(v, ts))
    decreases ts
  {
    if |ts| > 0 {
      var e := Enter(v, ts[0]);
      var below := Create(Child(e.node, e.place), ts[1..]);
      var m := Create(v, ts);
      EnterStep(v, ts[0]);
      hide Enter, Step;
      GetAfterCreate(Child(e.node, e.place), ts[1..], x);
      assert m.path[0] == e.place && m.path[1..] == below.path;
      WithChildTwice(e.node, e.place, below.root, Put(below.root, below.path, x));
      Descends(m.root, ts, e.place, below.path);
      Descends(Put(m.root, m.path, x), ts, e.place, below.path);
    }
  }

  /** Set, then Get: the value set is found, exactly when no "-" met an array. */
  lemma SetThenGet<N>(v: Node<N>, ts: seq<Token>, x: Node<N>)
    requires Proper(ts)
    ensures var m := Create(v, ts);
      var after := Put(m.root, m.path, x);
      && Leads(after, m.path) && NodeAt(after, m.path) == x
      && (Get(after, ts) == At(m.path) <==> !MeetsArray(v, ts))
  {
    var m := Create(v, ts);
    PutBack(m.root, m.path, x);
    GetAfterCreate(v, ts, x);
  }

  // ---- what stays ----

  /** What one token adds: members and elements that were there stay in front, in their
      order; behind them there are only a member of the token's name or Null elements; an
      array that a name meets, and any scalar, makes way for a new object or array. */
  lemma EnterAdds<N>(v: Node<N>, t: Token)
    requires ValidToken(t)
    ensures var e := Enter(v, t);
      && (v.Object? ==>
            && e.node.Object? && v.members <= e.node.members && e.place < |e.node.members|
            && (e.existed <==> exists i :: 0 <= i < |v.members| && v.members[i].name == t.name)
            && e.node.members == (if e.existed then v.members else v.members + [Member(t.name, Null)])
            && e.node.members[e.place].name == t.name
            && forall j :: 0 <= j < e.place ==> e.node.members[j].name != t.name)
      && (v.Array? && (t.name == Ascii("-") || t.index != PT.INVALID_INDEX) ==>
            var want := if t.name == Ascii("-") then |v.elements| else t.index;
            && e.node.Array? && v.elements <= e.node.elements && e.place == want
            && (e.existed <==> want < |v.elements|)
            && |e.node.elements| == (if want < |v.elements| then |v.elements| else want + 1)
            && forall j :: |v.elements| <= j < |e.node.elements| ==> e.node.elements[j] == Null)
      && (!v.Object? && t.index == PT.INVALID_INDEX && !(v.Array? && t.name == Ascii("-")) ==>
            !e.existed && e.place == 0 && e.node == Object([Member(t.name, Null)]))
      && (!v.Object? && !v.Array? && t.index != PT.INVALID_INDEX ==>
            && !e.existed && e.place == t.index && e.node.Array? && |e.node.elements| == t.index + 1
            && forall j :: 0 <= j <= t.index ==> e.node.elements[j] == Null)
  {
    assert Ascii("-") == [MINUS];
  }

  /** On the way of the first pointer a name meets an array, and the second goes below it. */
  predicate Lost<N>(v: Node<N>, ts: seq<Token>, us: seq<Token>)
    requires AllValid(ts)
    decreases ts
  {
    |ts| > 0 && |us| > 0 && !Dash(v, ts[0]) &&
      if v.Array? && ts[0].index == PT.INVALID_INDEX then true
      else
        var e := Enter(v, ts[0]);
        e.existed && Step(v, us[0]) == Some(e.place) && Lost(Child(e.node, e.place), ts[1..], us[1..])
  }

  lemma StepWithChild<N>(v: Node<N>, t: Token, i: nat, c: Node<N>)
    requires i < Count(v)
    ensures Step(WithChild(v, i, c), t) == Step(v, t)
    ensures forall j :: 0 <= j < Count(v) && j != i ==> Child(WithChild(v, i, c), j) == Child(v, j)
  {
    if v.Object? { PlaceIs(WithChild(v, i, c).members, t.name, Place(v.members, t.name)); }
  }

  /** A child that was there is still there once another token has been entered. */
  lemma StepKept<N>(v: Node<N>, t: Token, u: Token)
    requires ValidToken(t) && ValidToken(u) && Step(v, u).Some?
    requires Dash(v, t) || !(v.Array? && t.index == PT.INVALID_INDEX)
    ensures var e, i := Enter(v, t), Step(v, u).value;
      && Step(e.node, u) == Some(i) && i < Count(v) <= Count(e.node) && Child(e.node, i) == Child(v, i)
      && (e.place == i ==> e.existed)
  {
    if v.Object? { PlaceIs(Enter(v, t).node.members, u.name, Step(v, u).value); }
  }

  lemma PutBelow<N>(node: Node<N>, i: nat, c: Node<N>, path: seq<nat>, x: Node<N>)
    requires i < Count(node) && Leads(c, path)
    ensures var w := WithChild(node, i, c);
      Leads(w, [i] + path) && Put(w, [i] + path, x) == WithChild(node, i, Put(c, path, x))
  {
    assert ([i] + path)[0] == i && ([i] + path)[1..] == path;
    WithChildTwice(node, i, c, Put(c, path, x));
  }

  /** A node that a pointer reaches over another child than the one replaced. */
  lemma Beside<N>(v: Node<N>, node: Node<N>, us: seq<Token>, place: nat, c: Node<N>)
    requires AllValid(us) && |us| > 0 && place < Count(node) && Get(v, us).At?
    requires var i := Step(v, us[0]);
      && i.Some? && i.value < Count(v) && i.value < Count(node)
      && Step(node, us[0]) == i && i.value != place && Child(node, i.value) == Child(v, i.value)
    ensures var q, w := Get(v, us).path, WithChild(node, place, c);
      Get(w, us) == At(q) && Leads(w, q) && NodeAt(w, q) == NodeAt(v, q)
  {
    hide Step;
    StepWithChild(node, us[0], place, c);
    var i := Step(v, us[0]).value;
    var below := Get(Child(v, i), us[1..]).path;
    assert Get(v, us).path == [i] + below && ([i] + below)[0] == i && ([i] + below)[1..] == below;
  }

  /** Whatever a pointer found before Create it finds after it, at the same place and, unless
      it is on the created path, the same node, if it is not lost; and so after Set, if
      neither pointer is on the other's path. */
  lemma {:induction false} Frame<N>(v: Node<N>, ts: seq<Token>, us: seq<Token>, x: Node<N>)
    requires Proper(ts) && AllValid(us) && Get(v, us).At? && !Lost(v, ts, us)
    ensures var m, q := Create(v, ts), Get(v, us).path;
      && Get(m.root, us) == At(q) && Leads(m.root, q) && Leads(v, q)
      && (!(q <= m.path) ==> NodeAt(m.root, q) == NodeAt(v, q))
      && (!(q <= m.path) && !(m.path <= q) ==>
            var after := Put(m.root, m.path, x);
            Get(after, us) == At(q) && Leads(after, q) && NodeAt(after, q) == NodeAt(v, q))
    decreases ts
  {
    if |us| > 0 && |ts| > 0 {
      var e, i := Enter(v, ts[0]), Step(v, us[0]).value;
      var below := Create(Child(e.node, e.place), ts[1..]);
      StepKept(v, ts[0], us[0]);
      EnterStep(v, ts[0]);
      PutBelow(e.node, e.place, below.root, below.path, x);
      hide Enter, Step, Put;
      if i != e.place {
        Beside(v, e.node, us, e.place, below.root);
        Beside(v, e.node, us, e.place, Put(below.root, below.path, x));
      } else {
        FrameBelow(v, ts, us, x, i, below);
      }
    }
  }

  lemma PathsBelow(i: nat, q: seq<nat>, p: seq<nat>)
    ensures [i] + q <= [i] + p <==> q <= p
    ensures [i] + p <= [i] + q <==> p <= q
  {
    if [i] + q <= [i] + p { assert ([i] + p)[1..][..|q|] == ([i] + q)[1..]; }
    if [i] + p <= [i] + q { assert ([i] + q)[1..][..|p|] == ([i] + p)[1..]; }
  }

  lemma FrameBelow<N>(v: Node<N>, ts: seq<Token>, us: seq<Token>, x: Node<N>, i: nat, below: Made<N>)
    requires Proper(ts) && AllValid(us) && Get(v, us).At? && !Lost(v, ts, us) && |us| > 0 && |ts| > 0
    requires i < Count(v) && Step(v, us[0]) == Some(i) && Enter(v, ts[0]) == Entered(v, i, true)
    requires below == Create(Child(v, i), ts[1..])
    ensures var m, q := Made(WithChild(v, i, below.root), [i] + below.path, below.existed), Get(v, us).path;
      && Get(m.root, us) == At(q) && Leads(m.root, q) && Leads(v, q) && Leads(m.root, m.path)
      && (!(q <= m.path) ==> NodeAt(m.root, q) == NodeAt(v, q))
      && (!(q <= m.path) && !(m.path <= q) ==>
            var after := Put(m.root, m.path, x);
            Get(after, us) == At(q) && Leads(after, q) && NodeAt(after, q) == NodeAt(v, q))
    decreases ts, 0
  {
    Frame(Child(v, i), ts[1..], us[1..], x);
    PutBelow(v, i, below.root, below.path, x);
    StepWithChild(v, us[0], i, below.root);
    StepWithChild(v, us[0], i, Put(below.root, below.path, x));
    hide Enter, Step, Put, Lost;
    var rest := Get(Child(v, i), us[1..]).path;
    var q := [i] + rest;
    assert Get(v, us).path == q && q[0] == i && q[1..] == rest;
    PathsBelow(i, rest, below.path);
  }

  /** An index is determined by the name, as it is in parsed pointers. */
  predicate SameNames(ts: seq<Token>, us: seq<Token>) {
    forall i, j :: 0 <= i < |ts| && 0 <= j < |us| && ts[i].name == us[j].name ==> ts[i].index == us[j].index
  }

  lemma MadeAreSame(ts: seq<Token>, us: seq<Token>)
    requires PT.AllMade(ts) && PT.AllMade(us)
    ensures SameNames(ts, us)
  {
    hide PT.TokenIndex;
  }

  lemma LostChild<N>(v: Node<N>, t: Token, u: Token, c: Node<N>)
    requires ValidToken(t) && ValidToken(u) && Step(v, u).Some? && (t.name == u.name ==> t.index == u.index)
    requires !Dash(v, t) && v.Array? && t.index == PT.INVALID_INDEX
    ensures var e := Enter(v, t); Step(WithChild(e.node, e.place, c), u) == None
  {
    var e := Enter(v, t);
    assert e.node == Object([Member(t.name, Null)]) && e.place == 0;
    var w := WithChild(e.node, 0, c);
    assert w.members[0].name == t.name;
    PlaceIs(w.members, u.name, 1);
  }

  /** For parsed pointers: one that led somewhere leads somewhere after Create, if and only
      if it is not lost. */
  lemma {:induction false} LostIff<N>(v: Node<N>, ts: seq<Token>, us: seq<Token>)
    requires Proper(ts) && AllValid(us) && SameNames(ts, us) && Get(v, us).At?
    ensures Get(Create(v, ts).root, us).At? <==> !Lost(v, ts, us)
    decreases ts
  {
    if !Lost(v, ts, us) {
      Frame(v, ts, us, v);
    } else {
      var e, i := Enter(v, ts[0]), Step(v, us[0]).value;
      var below := Create(Child(e.node, e.place), ts[1..]);
      if v.Array? && ts[0].index == PT.INVALID_INDEX {
        LostChild(v, ts[0], us[0], below.root);
      } else {
        EnterStep(v, ts[0]);
        hide Enter, Step;
        LostIff(Child(v, i), ts[1..], us[1..]);
        StepWithChild(v, us[0], i, below.root);
      }
    }
  }

  /** Setting the member b to 2 in an object that has a member a of value 1. */
  lemma SetBesides<N>(one: Node<N>, two: Node<N>)
    ensures var before := Object([Member(Ascii("a"), one)]);
      var m := Create(before, [PT.Token(Ascii("b"), PT.INVALID_INDEX)]);
      && !m.existed
      && Put(m.root, m.path, two) == Object([Member(Ascii("a"), one), Member(Ascii("b"), two)])
  {
    var a, b := Ascii("a"), Ascii("b");
    var ts := [PT.Token(b, PT.INVALID_INDEX)];
    var before := Object([Member(a, one)]);
    assert a[0] != b[0];
    PlaceIs(before.members, b, 1);
    var e := Enter(before, ts[0]);
    assert e == Entered(Object([Member(a, one), Member(b, Null)]), 1, false);
    var m := Create(before, ts);
    assert ts[1..] == [] && Create(Child(e.node, 1), ts[1..]) == Made(Child(e.node, 1), [], true);
    assert m == Made(WithChild(e.node, 1, Child(e.node, 1)), [1] + [], false);
    assert ([1] + [])[1..] == [] && Put(Child(m.root, 1), [], two) == two;
  }

  /** What Create makes of the whole tree when it still has ts to go below path. */
  function Within<N>(root: Node<N>, path: seq<nat>, ts: seq<Token>, exist: bool): Made<N>
    requires Leads(root, path) && AllValid(ts)
  {
    var m := Create(NodeAt(root, path), ts);
    Made(Put(root, path, m.root), path + m.path, exist && m.existed)
  }

  lemma AtRoot<N>(root: Node<N>, ts: seq<Token>)
    requires AllValid(ts)
    ensures Leads(root, []) && Within(root, [], ts[0..], true) == Create(root, ts)
  {
    assert ts[0..] == ts;
    assert [] + Create(root, ts).path == Create(root, ts).path;
  }

  lemma PathMoves(path: seq<nat>, i: nat, below: seq<nat>)
    ensures path + ([i] + below) == (path + [i]) + below
  {
  }

  lemma CreateUnfolds<N>(v: Node<N>, ts: seq<Token>, k: nat)
    requires AllValid(ts) && k < |ts|
    ensures var e := Enter(v, ts[k]);
      var below := Create(Child(e.node, e.place), ts[k + 1..]);
      Create(v, ts[k..]) ==
        Made(WithChild(e.node, e.place, below.root), [e.place] + below.path, e.existed && below.existed)
  {
    assert ts[k..][0] == ts[k] && ts[k..][1..] == ts[k + 1..];
  }

  lemma CreateStep<N>(root: Node<N>, path: seq<nat>, ts: seq<Token>, k: nat, exist: bool)
    requires Leads(root, path) && AllValid(ts) && k < |ts|
    ensures var e := Enter(NodeAt(root, path), ts[k]);
      var w := Put(root, path, e.node);
      && Leads(w, path + [e.place])
      && Within(w, path + [e.place], ts[k + 1..], exist && e.existed) == Within(root, path, ts[k..], exist)
  {
    hide Enter, Put, NodeAt, Leads, WithChild, Create, Child, Count;
    var e := Enter(NodeAt(root, path), ts[k]);
    var below := Create(Child(e.node, e.place), ts[k + 1..]);
    var w := Put(root, path, e.node);
    CreateUnfolds(NodeAt(root, path), ts, k);
    PutDeeper(root, path, e.node, e.place, below.root);
    PathMoves(path, e.place, below.path);
    assert Create(NodeAt(w, path + [e.place]), ts[k + 1..]) == below;
  }

  lemma CreateEnds<N>(root: Node<N>, path: seq<nat>, exist: bool)
    requires Leads(root, path)
    ensures Within(root, path, [], exist) == Made(root, path, exist)
  {
    PutBack(root, path, NodeAt(root, path));
    assert path + [] == path;
  }

  /** A result of Get below path, as a result from the root. */
  function Onward(path: seq<nat>, f: Found): Found {
    match f case At(p) => At(path + p) case Missing(j) => Missing(|path| + j)
  }

  lemma GetStarts<N>(root: Node<N>, ts: seq<Token>)
    requires AllValid(ts)
    ensures Onward([], Get(root, ts[0..])) == Get(root, ts)
  {
    assert ts[0..] == ts;
    var f := Get(root, ts);
    if f.At? { assert [] + f.path == f.path; }
  }

  lemma GetStep<N>(v: Node<N>, path: seq<nat>, ts: seq<Token>, k: nat)
    requires AllValid(ts) && k < |ts|
    ensures var i := Step(v, ts[k]);
      Onward(path, Get(v, ts[k..])) ==
        if i.None? then Missing(|path|) else Onward(path + [i.value], Get(Child(v, i.value), ts[k + 1..]))
  {
    assert ts[k..][0] == ts[k] && ts[k..][1..] == ts[k + 1..];
    hide Step;
    var i := Step(v, ts[k]);
    if i.Some? {
      var below := Get(Child(v, i.value), ts[k + 1..]);
      if below.At? { assert path + ([i.value] + below.path) == (path + [i.value]) + below.path; }
    }
  }

  lemma GetEnds<N>(v: Node<N>, path: seq<nat>)
    ensures Onward(path, Get(v, [])) == At(path)
  {
    assert path + [] == path;
  }

  class Tree<N> {
    var root: Node<N>

    constructor (root: Node<N>)
      ensures this.root == root
    {
      this.root := root;
    }

    /** FindMember */
    method FindMember(ms: seq<Member<N, bytes>>, name: bytes) returns (i: nat)
      ensures i == Place(ms, name)
    {
      i := 0;
      while i < |ms| && ms[i].name != name
        invariant i <= |ms| && forall j :: 0 <= j < i ==> ms[j].name != name
      {
        i := i + 1;
      }
      PlaceIs(ms, name, i);
    }

    /** The node at a path with one token's child in it: one turn of Create's loop. */
    method EnterAt(path: seq<nat>, t: Token) returns (place: nat, existed: bool)
      requires Leads(root, path) && ValidToken(t)
      modifies this
      ensures var e := Enter(NodeAt(old(root), path), t);
        root == Put(old(root), path, e.node) && place == e.place && existed == e.existed
    {
      var v := NodeAt(root, path);
      existed := true;
      if v.Array? && t.name == [MINUS] {
        v := Array(v.elements + [Null]);
        place, existed := |v.elements| - 1, false;
      } else {
        if t.index == PT.INVALID_INDEX {
          if !v.Object? { v := Object([]); }
        } else if !v.Array? && !v.Object? {
          v := Array([]);
        }
        if v.Array? {
          if t.index >= |v.elements| {
            ghost var es := v.elements;
            while t.index >= |v.elements|
              invariant v.Array? && |v.elements| <= t.index + 1
              invariant Filled(v.elements, t.index + 1) == Filled(es, t.index + 1)
              decreases t.index + 1 - |v.elements|
            {
              v := Array(v.elements + [Null]);
            }
            existed := false;
          }
          place := t.index;
        } else {
          place := FindMember(v.members, t.name);
          if place == |v.members| {
            v := Object(v.members + [Member(t.name, Null)]);
            existed := false;
          }
        }
      }
      root := Put(root, path, v);
    }

    /** Create */
    method RunCreate(ts: seq<Token>) returns (path: seq<nat>, exist: bool)
      requires AllValid(ts)
      modifies this
      ensures var m := Create(old(root), ts); root == m.root && path == m.path && exist == m.existed
    {
      hide Enter, Put, NodeAt, Leads, Create;
      path, exist := [], true;
      ghost var goal := Create(root, ts);
      var k := 0;
      AtRoot(root, ts);
      while k < |ts|
        invariant k <= |ts| && |path| == k && Leads(root, path)
        invariant Within(root, path, ts[k..], exist) == goal
      {
        CreateStep(root, path, ts, k, exist);
        var place, existed := EnterAt(path, ts[k]);
        path := path + [place];
        if !existed { exist := false; }
        k := k + 1;
      }
      CreateEnds(root, path, exist);
      assert ts[k..] == [];
    }

    /** The choice of a child inside Get. */
    method FindChild(v: Node<N>, t: Token) returns (i: Option<nat>)
      requires ValidToken(t)
      ensures i == Step(v, t)
    {
      match v {
        case Object(ms) =>
          var m := FindMember(ms, t.name);
          return if m == |ms| then None else Some(m);
        case Array(es) =>
          return if t.index == PT.INVALID_INDEX || t.index >= |es| then None else Some(t.index);
        case _ => return None;
      }
    }

    /** Get */
    method RunGet(ts: seq<Token>) returns (f: Found)
      requires AllValid(ts)
      ensures f == Get(root, ts)
    {
      hide Step, Get, Onward;
      var path: seq<nat> := [];
      var v := root;
      var k := 0;
      GetStarts(root, ts);
      while k < |ts|
        invariant k <= |ts| && |path| == k
        invariant Get(root, ts) == Onward(path, Get(v, ts[k..]))
      {
        GetStep(v, path, ts, k);
        var i := FindChild(v, ts[k]);
        if i.None? { return Missing(k); }
        v := Child(v, i.value);
        path := path + [i.value];
        k := k + 1;
      }
      assert ts[k..] == [];
      GetEnds(v, path);
      return At(path);
    }

    /** Set */
    method RunSet(ts: seq<Token>, x: Node<N>) returns (path: seq<nat>)
      requires AllValid(ts)
      modifies this
      ensures var m := Create(old(root), ts); path == m.path && root == Put(m.root, m.path, x)
    {
      var exist;
      path, exist := RunCreate(ts);
      root := Put(root, path, x);
    }
  }
}
