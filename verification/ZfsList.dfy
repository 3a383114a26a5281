/** The dataset walk of zfs_list.c. libzfs appears as a contract: an iterator opens a handle
    for each child in order, hands it to the callback, stops at the first nonzero return, and
    may itself fail part of the way through. */
module ZfsList {
  import opened Wrappers

  /** What one dataset adds to the returned array. */
  datatype Info = Info(name: string, typ: nat)

  /** What iterating over a handle delivers: children, possibly a NULL handle, and at the end
      the iterator's return value. */
  datatype Node = Node(info: Info, children: Children)

  datatype Children =
    | End(status: int)
    | Null(rest: Children)
    | Child(node: Node, rest: Children)

  /** zfs_handle_t: an identity and the dataset behind it. */
  datatype Handle = Handle(id: nat, node: Node)

  datatype Kind = Opened | Listed | Closed

  /** What happened to a handle, and the dataset it was opened on. */
  datatype Event = Event(kind: Kind, h: nat, info: Info)

  // ---------- what the walk should do ----------

  function Size(c: Children): nat {
    match c
    case End(_) => 0
    case Null(rest) => Size(rest)
    case Child(node, rest) => NodeSize(node) + Size(rest)
  }

  function NodeSize(n: Node): nat { 1 + Size(n.children) }

  /** Every dataset before its descendants, siblings in order. */
  function Preorder(c: Children): seq<Info> {
    match c
    case End(_) => []
    case Null(rest) => Preorder(rest)
    case Child(node, rest) => NodePreorder(node) + Preorder(rest)
  }

  function NodePreorder(n: Node): seq<Info> { [n.info] + Preorder(n.children) }

  function Status(c: Children): int {
    match c
    case End(status) => status
    case Null(rest) => Status(rest)
    case Child(_, rest) => Status(rest)
  }

  /** Handle events of iterating over c when the next handle is h. */
  function Trace(c: Children, h: nat): seq<Event> {
    match c
    case End(_) => []
    case Null(rest) => Trace(rest, h)
    case Child(node, rest) =>
      [Event(Opened, h, node.info)] + NodeTrace(node, h) + Trace(rest, h + NodeSize(node))
  }

  /** Handle events of the callback on handle h. */
  function NodeTrace(n: Node, h: nat): seq<Event> {
    [Event(Listed, h, n.info)] + Trace(n.children, h + 1) + [Event(Closed, h, n.info)]
  }

  function Weight(c: Children): nat {
    match c
    case End(_) => 1
    case Null(rest) => 1 + Weight(rest)
    case Child(node, rest) => 1 + NodeWeight(node) + Weight(rest)
  }

  function NodeWeight(n: Node): nat { 1 + Weight(n.children) }

  // ---------- the library and the callback ----------

  class Walk {
    var output: seq<Info>
    var error: int
    var open: set<nat>
    var nextHandle: nat
    ghost var log: seq<Event>

    /** Handles not yet handed out are not open. */
    ghost predicate Valid()
      reads this
    {
      forall k :: k in open ==> k < nextHandle
    }

    constructor ()
      ensures Valid() && output == [] && error == 0 && open == {} && nextHandle == 0 && log == []
    {
      output, error, open, nextHandle, log := [], 0, {}, 0, [];
    }

    method Open(info: Info) returns (h: nat)
      requires Valid()
      modifies this
      ensures Valid() && h == old(nextHandle) && nextHandle == h + 1
      ensures open == old(open) + {h} && h !in old(open) && log == old(log) + [Event(Opened, h, info)]
      ensures output == old(output) && error == old(error)
    {
      h := nextHandle;
      open := open + {h};
      nextHandle := nextHandle + 1;
      log := log + [Event(Opened, h, info)];
    }

    /** zfs_close: only an open handle may be closed. */
    method Close(h: nat, ghost info: Info)
      requires Valid() && h in open
      modifies this
      ensures Valid() && nextHandle == old(nextHandle)
      ensures open == old(open) - {h} && log == old(log) + [Event(Closed, h, info)]
      ensures output == old(output) && error == old(error)
    {
      open := open - {h};
      log := log + [Event(Closed, h, info)];
    }

    /** zfs_iter_children and zfs_iter_root. */
    method Iterate(c: Children) returns (ret: int)
      requires Valid()
      modifies this
      ensures Valid() && open == old(open) && nextHandle == old(nextHandle) + Size(c)
      ensures output == old(output) + Preorder(c)
      ensures log == old(log) + Trace(c, old(nextHandle))
      ensures error == old(error) && ret == Status(c)
      decreases Weight(c)
    {
      match c
      case End(status) =>
        ret := status;
      case Null(rest) =>
        ret := Callback(None);
        if ret != 0 { return; }
        ret := Iterate(rest);
      case Child(node, rest) =>
        var h := Open(node.info);
        ret := Callback(Some(Handle(h, node)));
        if ret != 0 { return; }
        ret := Iterate(rest);
    }

    /** zfs_list_callback. The return value of the nested iteration is not looked at. */
    method Callback(zhp: Option<Handle>) returns (ret: int)
      requires Valid() && (zhp.Some? ==> zhp.value.id in open)
      modifies this
      ensures Valid() && ret == 0 && error == old(error)
      ensures zhp.None? ==> open == old(open) && nextHandle == old(nextHandle)
      ensures zhp.None? ==> output == old(output) && log == old(log)
      ensures zhp.Some? ==>
        var Handle(h, n) := zhp.value;
        open == old(open) - {h} && nextHandle == old(nextHandle) + Size(n.children) &&
        output == old(output) + NodePreorder(n) &&
        log == old(log) + [Event(Listed, h, n.info)] + Trace(n.children, old(nextHandle)) + [Event(Closed, h, n.info)]
      decreases if zhp.None? then 0 else NodeWeight(zhp.value.node)
    {
      if zhp.None? {
        return 0;
      }
      var Handle(h, n) := zhp.value;
      output := output + [n.info];
      log := log + [Event(Listed, h, n.info)];
      var ignored := Iterate(n.children);
      Close(h, n.info);
      ret := 0;
    }

    /** zfs_list_datasets; roots is what zfs_iter_root delivers, None a NULL library handle. */
    method ListDatasets(roots: Option<Children>) returns (ret: int)
      requires Valid()
      modifies this
      ensures Valid() && open == old(open)
      ensures ret == 0 <==> roots.Some? && Status(roots.value) == 0
      ensures ret == 0 || ret == -1
      ensures roots.Some? && !Failed(roots.value) ==> ret == 0
      ensures roots.Some? ==> output == old(output) + Preorder(roots.value)
      ensures roots.Some? ==> log == old(log) + Trace(roots.value, old(nextHandle))
      ensures roots.None? ==> output == old(output) && log == old(log)
      ensures ret == 0 && !NestedFailed(roots.value) ==>
        forall f: Forest :: Delivers(roots.value, f) ==> output == old(output) + FullPreorder(f)
    {
      if roots.None? {
        return -1;
      }
      FailedSplits(roots.value);
      if Status(roots.value) == 0 && !NestedFailed(roots.value) {
        forall f: Forest | Delivers(roots.value, f) ensures Preorder(roots.value) == FullPreorder(f) {
          NoFailureMeansComplete(roots.value, f);
        }
      }
      error := 0;
      ret := Iterate(roots.value);
      if ret != 0 {
        return -1;
      }
      if error != 0 {
        return -1;
      }
      ret := 0;
    }
  }

  // ---------- handle discipline ----------

  /** Runs the events against the stack of open handles, innermost last. A listing must be of
      the innermost handle and its dataset, and a close of the innermost handle: everything
      opened below it is closed. */
  function Replay(log: seq<Event>, stack: seq<(nat, Info)>): Option<seq<(nat, Info)>>
    decreases |log|
  {
    if log == [] then Some(stack)
    else
      var e := log[0];
      match e.kind
      case Opened => Replay(log[1..], stack + [(e.h, e.info)])
      case Listed => if Top(stack, e) then Replay(log[1..], stack) else None
      case Closed => if Top(stack, e) then Replay(log[1..], stack[..|stack| - 1]) else None
  }

  predicate Top(stack: seq<(nat, Info)>, e: Event) {
    |stack| > 0 && stack[|stack| - 1] == (e.h, e.info)
  }

  lemma {:induction false} ReplayAppend(a: seq<Event>, b: seq<Event>, stack: seq<(nat, Info)>)
    requires Replay(a, stack).Some?
    ensures Replay(a + b, stack) == Replay(b, Replay(a, stack).value)
    decreases |a|
  {
    if a == [] {
      assert a + b == b;
    } else {
      assert (a + b)[0] == a[0] && (a + b)[1..] == a[1..] + b;
      match a[0].kind
      case Opened => ReplayAppend(a[1..], b, stack + [(a[0].h, a[0].info)]);
      case Listed => ReplayAppend(a[1..], b, stack);
      case Closed => ReplayAppend(a[1..], b, stack[..|stack| - 1]);
    }
  }

  /** An opening pushes; a listing or a close of anything but the innermost handle and its
      dataset is refused. */
  lemma ReplayOne(e: Event, stack: seq<(nat, Info)>)
    ensures e.kind == Opened ==> Replay([e], stack) == Some(stack + [(e.h, e.info)])
    ensures e.kind == Listed && Top(stack, e) ==> Replay([e], stack) == Some(stack)
    ensures e.kind == Closed && Top(stack, e) ==> Replay([e], stack) == Some(stack[..|stack| - 1])
    ensures e.kind != Opened && (stack == [] || stack[|stack| - 1].0 != e.h || stack[|stack| - 1].1 != e.info) ==>
      Replay([e], stack) == None
  {
    assert [e][1..] == [];
  }

  /** Every dataset is listed while its handle is the innermost open one, and every handle is
      closed only after all its descendants' handles: the walk ends with the handles it began with. */
  lemma {:induction false} TraceIsNested(c: Children, h: nat, stack: seq<(nat, Info)>)
    ensures Replay(Trace(c, h), stack) == Some(stack)
  {
    match c
    case End(_) =>
    case Null(rest) => TraceIsNested(rest, h, stack);
    case Child(node, rest) =>
      var start, listed, closed :=
        Event(Opened, h, node.info), Event(Listed, h, node.info), Event(Closed, h, node.info);
      var inner := stack + [(h, node.info)];
      var kids, tail := Trace(node.children, h + 1), Trace(rest, h + NodeSize(node));
      TraceIsNested(node.children, h + 1, inner);
      TraceIsNested(rest, h + NodeSize(node), stack);
      ReplayOne(start, stack);
      ReplayOne(listed, inner);
      ReplayOne(closed, inner);
      assert inner[..|inner| - 1] == stack;
      hide Replay;
      ReplayAppend([listed], kids, inner);
      ReplayAppend([listed] + kids, [closed], inner);
      ReplayAppend([start], NodeTrace(node, h), stack);
      ReplayAppend([start] + NodeTrace(node, h), tail, stack);
  }

  function Occurrences(log: seq<Event>, kind: Kind, h: nat): nat {
    if log == [] then 0
    else Occurrences(log[1..], kind, h) + if log[0].kind == kind && log[0].h == h then 1 else 0
  }

  lemma {:induction false} OccurrencesAppend(a: seq<Event>, b: seq<Event>, kind: Kind, k: nat)
    ensures Occurrences(a + b, kind, k) == Occurrences(a, kind, k) + Occurrences(b, kind, k)
  {
    if a == [] {
      assert a + b == b;
    } else {
      assert (a + b)[0] == a[0] && (a + b)[1..] == a[1..] + b;
      OccurrencesAppend(a[1..], b, kind, k);
    }
  }

  lemma OccurrencesOne(e: Event, kind: Kind, k: nat)
    ensures Occurrences([], kind, k) == 0
    ensures Occurrences([e], kind, k) == if e.kind == kind && e.h == k then 1 else 0
  {
    assert [e][1..] == [];
  }

  /** Each of the handles h, h+1, ... given out is opened, listed and closed exactly once,
      and no other handle appears. */
  lemma {:induction false} EachHandleOnce(c: Children, h: nat, kind: Kind, k: nat)
    ensures Occurrences(Trace(c, h), kind, k) == if h <= k < h + Size(c) then 1 else 0
  {
    hide Occurrences;
    match c
    case End(_) => OccurrencesOne(Event(Opened, h, Info("", 0)), kind, k);
    case Null(rest) => EachHandleOnce(rest, h, kind, k);
    case Child(node, rest) =>
      var start, listed, closed :=
        Event(Opened, h, node.info), Event(Listed, h, node.info), Event(Closed, h, node.info);
      var kids, tail := Trace(node.children, h + 1), Trace(rest, h + NodeSize(node));
      EachHandleOnce(node.children, h + 1, kind, k);
      EachHandleOnce(rest, h + NodeSize(node), kind, k);
      OccurrencesOne(start, kind, k);
      OccurrencesOne(listed, kind, k);
      OccurrencesOne(closed, kind, k);
      OccurrencesAppend([listed], kids, kind, k);
      OccurrencesAppend([listed] + kids, [closed], kind, k);
      OccurrencesAppend([start], NodeTrace(node, h), kind, k);
      OccurrencesAppend([start] + NodeTrace(node, h), tail, kind, k);
  }

  // ---------- which listing is which dataset ----------

  /** The listings of a log in order: handle and dataset. */
  function Listings(log: seq<Event>): seq<(nat, Info)> {
    if log == [] then []
    else (if log[0].kind == Listed then [(log[0].h, log[0].info)] else []) + Listings(log[1..])
  }

  /** Consecutive handles from h on, paired with infos. */
  function Numbered(infos: seq<Info>, h: nat): (r: seq<(nat, Info)>)
    ensures |r| == |infos|
  {
    seq(|infos|, k requires 0 <= k < |infos| => (h + k, infos[k]))
  }

  lemma NumberedJoin(info: Info, a: seq<Info>, b: seq<Info>, h: nat)
    ensures Numbered([info] + a + b, h) == [(h, info)] + Numbered(a, h + 1) + Numbered(b, h + 1 + |a|)
  {
  }

  lemma ConcatAssociates<T>(a: seq<T>, b: seq<T>, c: seq<T>)
    ensures a + b + c == a + (b + c)
  {
  }

  lemma {:induction false} ListingsAppend(a: seq<Event>, b: seq<Event>)
    ensures Listings(a + b) == Listings(a) + Listings(b)
  {
    if a == [] {
      assert a + b == b;
    } else {
      var head := if a[0].kind == Listed then [(a[0].h, a[0].info)] else [];
      assert (a + b)[0] == a[0] && (a + b)[1..] == a[1..] + b;
      ListingsAppend(a[1..], b);
      ConcatAssociates(head, Listings(a[1..]), Listings(b));
    }
  }

  lemma ListingsOne(e: Event)
    ensures Listings([e]) == if e.kind == Listed then [(e.h, e.info)] else []
  {
    assert [e][1..] == [];
  }

  lemma ChildListings(node: Node, h: nat, tail: seq<Event>)
    ensures Listings([Event(Opened, h, node.info)] + NodeTrace(node, h) + tail) ==
      [(h, node.info)] + Listings(Trace(node.children, h + 1)) + Listings(tail)
  {
    var start, listed, closed :=
      Event(Opened, h, node.info), Event(Listed, h, node.info), Event(Closed, h, node.info);
    var kids := Trace(node.children, h + 1);
    ListingsOne(start);
    ListingsOne(listed);
    ListingsOne(closed);
    hide Listings;
    ListingsAppend([listed], kids);
    ListingsAppend([listed] + kids, [closed]);
    ListingsAppend([start], NodeTrace(node, h));
    ListingsAppend([start] + NodeTrace(node, h), tail);
  }

  /** The k-th listing is of the k-th handle given out, and the k-th element of the output is
      the dataset that handle was opened on: each delivered dataset is listed once, in place. */
  lemma {:induction false} ListingOrder(c: Children, h: nat)
    ensures |Preorder(c)| == Size(c)
    ensures Listings(Trace(c, h)) == Numbered(Preorder(c), h)
  {
    match c
    case End(_) =>
    case Null(rest) => ListingOrder(rest, h);
    case Child(node, rest) =>
      ListingOrder(node.children, h + 1);
      ListingOrder(rest, h + NodeSize(node));
      hide Listings, Numbered;
      ChildListings(node, h, Trace(rest, h + NodeSize(node)));
      NumberedJoin(node.info, Preorder(node.children), Preorder(rest), h);
  }

  // ---------- what a zero return promises ----------

  /** The datasets that exist, whatever the iterators deliver of them. */
  datatype Forest = Nil | Tree(info: Info, kids: Forest, rest: Forest)

  function FullPreorder(f: Forest): seq<Info> {
    match f
    case Nil => []
    case Tree(info, kids, rest) => [info] + FullPreorder(kids) + FullPreorder(rest)
  }

  /** The contract of an iterator: at every level it delivers the children that exist, in
      order, up to some point, and all of them if it returns zero. */
  predicate Delivers(c: Children, f: Forest) {
    match c
    case End(status) => status == 0 ==> f.Nil?
    case Null(rest) => Delivers(rest, f)
    case Child(node, rest) =>
      f.Tree? && node.info == f.info && Delivers(node.children, f.kids) && Delivers(rest, f.rest)
  }

  /** Some iteration, at this level or below, returned nonzero. */
  predicate Failed(c: Children) {
    match c
    case End(status) => status != 0
    case Null(rest) => Failed(rest)
    case Child(node, rest) => Failed(node.children) || Failed(rest)
  }

  /** Some iteration started by the callback returned nonzero. */
  predicate NestedFailed(c: Children) {
    match c
    case End(_) => false
    case Null(rest) => NestedFailed(rest)
    case Child(node, rest) => Failed(node.children) || NestedFailed(rest)
  }

  /** An iterator that returns nonzero has left at least one child undelivered. */
  predicate FailuresLose(c: Children, f: Forest)
    requires Delivers(c, f)
  {
    match c
    case End(status) => status != 0 ==> f.Tree?
    case Null(rest) => FailuresLose(rest, f)
    case Child(node, rest) => FailuresLose(node.children, f.kids) && FailuresLose(rest, f.rest)
  }

  lemma {:induction false} FailedSplits(c: Children)
    ensures Failed(c) <==> Status(c) != 0 || NestedFailed(c)
  {
    match c
    case End(_) =>
    case Null(rest) => FailedSplits(rest);
    case Child(node, rest) => FailedSplits(rest);
  }

  lemma {:induction false} NoFailureDeliversAll(c: Children, f: Forest)
    requires Delivers(c, f) && !Failed(c)
    ensures Preorder(c) == FullPreorder(f)
  {
    match c
    case End(_) =>
    case Null(rest) => NoFailureDeliversAll(rest, f);
    case Child(node, rest) =>
      NoFailureDeliversAll(node.children, f.kids);
      NoFailureDeliversAll(rest, f.rest);
  }

  /** If every iteration returned zero, the output is the whole forest. */
  lemma NoFailureMeansComplete(roots: Children, f: Forest)
    requires Delivers(roots, f) && Status(roots) == 0 && !NestedFailed(roots)
    ensures Preorder(roots) == FullPreorder(f)
  {
    FailedSplits(roots);
    NoFailureDeliversAll(roots, f);
  }

  lemma {:induction false} FailureListsLess(c: Children, f: Forest)
    requires Delivers(c, f) && FailuresLose(c, f)
    ensures |Preorder(c)| <= |FullPreorder(f)|
    ensures Failed(c) ==> |Preorder(c)| < |FullPreorder(f)|
  {
    match c
    case End(_) =>
    case Null(rest) => FailureListsLess(rest, f);
    case Child(node, rest) =>
      FailureListsLess(node.children, f.kids);
      FailureListsLess(rest, f.rest);
  }

  /** Where failing iterators lose children, a zero return comes with the whole forest if and
      only if every nested iteration returned zero: the callback drops their status. */
  lemma ZeroMeansComplete(roots: Children, f: Forest)
    requires Delivers(roots, f) && FailuresLose(roots, f) && Status(roots) == 0
    ensures Preorder(roots) == FullPreorder(f) <==> !NestedFailed(roots)
  {
    FailedSplits(roots);
    FailureListsLess(roots, f);
    if !NestedFailed(roots) { NoFailureMeansComplete(roots, f); }
  }

  /** A pool whose second level cannot be read: reported as success, with one dataset listed
      of three. */
  lemma SilentTruncation()
    ensures exists roots: Children, f: Forest ::
      Delivers(roots, f) && FailuresLose(roots, f) && Status(roots) == 0 && NestedFailed(roots) &&
      |Preorder(roots)| == 1 && |FullPreorder(f)| == 3
  {
    var tank := Info("tank", 0);
    var roots := Child(Node(tank, End(-1)), End(0));
    var kids := Tree(Info("tank/a", 0), Nil, Tree(Info("tank/b", 0), Nil, Nil));
    var f := Tree(tank, kids, Nil);
    assert Delivers(roots, f) && FailuresLose(roots, f) && Status(roots) == 0 && NestedFailed(roots);
    assert |Preorder(roots)| == 1;
    assert |FullPreorder(kids.rest)| == 1;
    assert |FullPreorder(kids)| == 2;
  }

  /** The assumption of ZeroMeansComplete is needed: an iterator that fails after its last
      child has still delivered everything. */
  lemma FailureAfterLastChild()
    ensures exists roots: Children, f: Forest ::
      Delivers(roots, f) && Status(roots) == 0 && NestedFailed(roots) &&
      Preorder(roots) == FullPreorder(f)
  {
    var tank := Info("tank", 0);
    var roots, f := Child(Node(tank, End(-1)), End(0)), Tree(tank, Nil, Nil);
    assert Delivers(roots, f) && Status(roots) == 0 && NestedFailed(roots);
    assert Preorder(roots) == FullPreorder(f);
  }
}
