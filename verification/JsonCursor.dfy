/** The bound on JSON cursors (packages/rpc/src/schemas.ts:794-866): one counter shared
    by the whole traversal of a value graph, a depth limit, a set of the containers being
    visited, and a limit on the length of the serialised text. */
module JsonCursor {

  const MAX_VALUES := 2048
  const MAX_DEPTH := 8
  const MAX_CHILDREN := 256
  const MAX_BYTES := 16384

  /** A property of a container: `sound` says that its key and its descriptor are as
      required, `prefix` is the length of the serialised key with its colon, 0 in an
      array, and `target` is the value. */
  datatype Child = Child(sound: bool, prefix: nat, target: nat)

  /** A value: a primitive that is acceptable or not, with the length of its text, or an
      object with its own properties, `plain` when its prototype and its keys are as
      required. */
  datatype Value = Primitive(acceptable: bool, text: nat) | Container(plain: bool, children: seq<Child>)

  /** The objects and primitives reachable from a value; objects may be shared and may
      contain themselves. */
  type Graph = map<nat, Value>

  predicate Closed(g: Graph)
  {
    forall id :: id in g && g[id].Container? ==>
      forall i :: 0 <= i < |g[id].children| ==> g[id].children[i].target in g
  }

  datatype Verdict = Verdict(valid: bool, count: nat)

  // ---- The traversal -----------------------------------------------------------------------

  function VisitAll(g: Graph, children: seq<Child>, depth: nat, active: set<nat>, count: nat, guarded: bool): Verdict
    requires Closed(g) && depth <= MAX_DEPTH + 1 && forall i :: 0 <= i < |children| ==> children[i].target in g
    decreases MAX_DEPTH + 1 - depth, |children| + 1
  {
    if children == [] then Verdict(true, count)
    else if !children[0].sound then Verdict(false, count)
    else
      var first := Visit(g, children[0].target, depth, active, count, guarded);
      if !first.valid then first else VisitAll(g, children[1..], depth, active, first.count, guarded)
  }

  /** `guarded` says whether containers being visited are refused, as in the original. */
  function Visit(g: Graph, id: nat, depth: nat, active: set<nat>, count: nat, guarded: bool): Verdict
    requires Closed(g) && id in g && depth <= MAX_DEPTH + 1
    decreases MAX_DEPTH + 1 - depth, 0
  {
    if count + 1 > MAX_VALUES || depth > MAX_DEPTH then Verdict(false, count + 1)
    else
      match g[id]
      case Primitive(acceptable, _) => Verdict(acceptable, count + 1)
      case Container(plain, children) =>
        if guarded && id in active then Verdict(false, count + 1)
        else if !plain || |children| > MAX_CHILDREN then Verdict(false, count + 1)
        else VisitAll(g, children, depth + 1, active + {id}, count + 1, guarded)
  }

  /** Properties are separated by commas. */
  function SerializedLengths(g: Graph, children: seq<Child>, levels: nat): nat
    requires Closed(g) && forall i :: 0 <= i < |children| ==> children[i].target in g
    decreases levels, |children| + 1
  {
    if children == [] then 0
    else
      children[0].prefix + SerializedLength(g, children[0].target, levels)
      + (if |children| > 1 then 1 else 0) + SerializedLengths(g, children[1..], levels)
  }

  /** The length of `JSON.stringify`, down to this many levels. */
  function SerializedLength(g: Graph, id: nat, levels: nat): nat
    requires Closed(g) && id in g
    decreases levels, 0
  {
    if levels == 0 then 0
    else
      match g[id]
      case Primitive(_, text) => text
      case Container(_, children) => 2 + SerializedLengths(g, children, levels - 1)
  }

  /** An accepted value nests at most 8 levels below its root. */
  predicate IsBounded(g: Graph, root: nat, guarded: bool)
    requires Closed(g) && root in g
  {
    Visit(g, root, 0, {}, 0, guarded).valid && SerializedLength(g, root, MAX_DEPTH + 1) <= MAX_BYTES
  }

  method IsBoundedJsonCursor(g: Graph, root: nat) returns (bounded: bool)
    requires Closed(g) && root in g
    ensures bounded == IsBounded(g, root, true)
  {
    var valid, _ := VisitLoop(g, root, 0, {}, 0);
    bounded := valid && SerializedLength(g, root, MAX_DEPTH + 1) <= MAX_BYTES;
  }

  /** The traversal as it is written, with its loop over the properties. */
  method VisitLoop(g: Graph, id: nat, depth: nat, active: set<nat>, count: nat) returns (valid: bool, total: nat)
    requires Closed(g) && id in g && depth <= MAX_DEPTH + 1
    ensures Verdict(valid, total) == Visit(g, id, depth, active, count, true)
    decreases MAX_DEPTH + 1 - depth
  {
    total := count + 1;
    if total > MAX_VALUES || depth > MAX_DEPTH {
      return false, total;
    }
    if g[id].Primitive? {
      return g[id].acceptable, total;
    }
    if id in active {
      return false, total;
    }
    var children := g[id].children;
    valid := g[id].plain && |children| <= MAX_CHILDREN;
    if !valid {
      return;
    }
    var index := 0;
    assert children[0..] == children;
    while valid && index < |children|
      invariant 0 <= index <= |children|
      invariant if valid
                then VisitAll(g, children[index..], depth + 1, active + {id}, total, true) ==
                     VisitAll(g, children, depth + 1, active + {id}, count + 1, true)
                else Verdict(false, total) == VisitAll(g, children, depth + 1, active + {id}, count + 1, true)
      decreases |children| - index, valid
    {
      assert children[index..][1..] == children[index + 1..];
      valid := children[index].sound;
      if valid {
        valid, total := VisitLoop(g, children[index].target, depth + 1, active + {id}, total);
        index := index + 1;
      }
    }
    assert index == |children| ==> children[index..] == [];
  }

  // ---- The tree a value unfolds to --------------------------------------------------------------

  datatype Tree = Tree(children: seq<Tree>)

  /** How many values the tree has. */
  function Size(t: Tree): (n: nat)
    ensures n > 0
  {
    1 + Sizes(t.children)
  }

  function Sizes(ts: seq<Tree>): nat
  {
    if ts == [] then 0 else Size(ts[0]) + Sizes(ts[1..])
  }

  /** The length of its longest path. */
  function Height(t: Tree): nat
  {
    Heights(t.children)
  }

  function Heights(ts: seq<Tree>): nat
  {
    if ts == [] then 0
    else
      var first, rest := 1 + Height(ts[0]), Heights(ts[1..]);
      if first > rest then first else rest
  }

  ghost function TextLengths(g: Graph, children: seq<Child>, ts: seq<Tree>): nat
    decreases ts
  {
    if ts == [] || children == [] then 0
    else
      children[0].prefix + TextLength(g, children[0].target, ts[0])
      + (if |children| > 1 then 1 else 0) + TextLengths(g, children[1..], ts[1..])
  }

  /** The length of the text of the value that unfolds to this tree. */
  ghost function TextLength(g: Graph, id: nat, t: Tree): nat
    decreases t
  {
    if id !in g then 0
    else
      match g[id]
      case Primitive(_, text) => text
      case Container(_, children) => 2 + TextLengths(g, children, t.children)
  }

  ghost predicate AllUnfold(g: Graph, children: seq<Child>, ts: seq<Tree>)
    decreases ts
  {
    if ts == [] then children == []
    else
      && children != [] && children[0].sound && Unfolds(g, children[0].target, ts[0])
      && AllUnfold(g, children[1..], ts[1..])
  }

  /** The value is sound throughout and unfolds to this finite tree; what is shared is
      repeated. */
  ghost predicate Unfolds(g: Graph, id: nat, t: Tree)
    decreases t
  {
    && id in g
    && match g[id]
       case Primitive(acceptable, _) => acceptable && t.children == []
       case Container(plain, children) =>
         plain && |children| <= MAX_CHILDREN && AllUnfold(g, children, t.children)
  }

  lemma {:induction false} VisitAllUnfolds(
    g: Graph, children: seq<Child>, depth: nat, active: set<nat>, count: nat, guarded: bool)
      returns (ts: seq<Tree>)
    requires Closed(g) && 0 < depth <= MAX_DEPTH + 1 && forall i :: 0 <= i < |children| ==> children[i].target in g
    requires count <= MAX_VALUES && VisitAll(g, children, depth, active, count, guarded).valid
    ensures AllUnfold(g, children, ts)
    ensures VisitAll(g, children, depth, active, count, guarded).count == count + Sizes(ts) <= MAX_VALUES
    ensures depth - 1 + Heights(ts) <= MAX_DEPTH
    decreases MAX_DEPTH + 1 - depth, |children| + 1
  {
    if children == [] {
      ts := [];
    } else {
      var first := Visit(g, children[0].target, depth, active, count, guarded);
      var t := VisitUnfolds(g, children[0].target, depth, active, count, guarded);
      var rest := VisitAllUnfolds(g, children[1..], depth, active, first.count, guarded);
      ts := [t] + rest;
      assert ts[1..] == rest;
    }
  }

  /** An accepted value unfolds to a tree within the bounds; the counter is its size. */
  lemma {:induction false} VisitUnfolds(g: Graph, id: nat, depth: nat, active: set<nat>, count: nat, guarded: bool)
      returns (t: Tree)
    requires Closed(g) && id in g && depth <= MAX_DEPTH + 1
    requires Visit(g, id, depth, active, count, guarded).valid
    ensures Unfolds(g, id, t) && Visit(g, id, depth, active, count, guarded).count == count + Size(t) <= MAX_VALUES
    ensures depth + Height(t) <= MAX_DEPTH
    decreases MAX_DEPTH + 1 - depth, 0
  {
    match g[id]
    case Primitive(acceptable, _) => t := Tree([]);
    case Container(plain, children) =>
      var ts := VisitAllUnfolds(g, children, depth + 1, active + {id}, count + 1, guarded);
      t := Tree(ts);
  }

  lemma {:induction false} AllUnfoldOnce(g: Graph, children: seq<Child>, ts: seq<Tree>, us: seq<Tree>)
    requires AllUnfold(g, children, ts) && AllUnfold(g, children, us)
    ensures ts == us
    decreases ts
  {
    if ts != [] && us != [] {
      UnfoldsOnce(g, children[0].target, ts[0], us[0]);
      AllUnfoldOnce(g, children[1..], ts[1..], us[1..]);
      assert ts == [ts[0]] + ts[1..] && us == [us[0]] + us[1..];
    }
  }

  lemma {:induction false} UnfoldsOnce(g: Graph, id: nat, t: Tree, u: Tree)
    requires Unfolds(g, id, t) && Unfolds(g, id, u)
    ensures t == u
    decreases t
  {
    if g[id].Container? {
      AllUnfoldOnce(g, g[id].children, t.children, u.children);
    }
  }

  /** The containers being visited unfold to more than what is still to be visited. */
  ghost predicate Enclosing(g: Graph, active: set<nat>, size: nat)
  {
    forall a :: a in active ==> exists t :: Unfolds(g, a, t) && Size(t) > size
  }

  lemma {:induction false} UnfoldedAllAccepted(
    g: Graph, children: seq<Child>, ts: seq<Tree>, depth: nat, active: set<nat>, count: nat, guarded: bool)
    requires Closed(g) && AllUnfold(g, children, ts) && 0 < depth <= MAX_DEPTH + 1
    requires forall i :: 0 <= i < |children| ==> children[i].target in g
    requires depth - 1 + Heights(ts) <= MAX_DEPTH && count + Sizes(ts) <= MAX_VALUES
    requires Enclosing(g, active, Sizes(ts))
    ensures VisitAll(g, children, depth, active, count, guarded) == Verdict(true, count + Sizes(ts))
    decreases ts
  {
    if ts != [] {
      UnfoldedIsAccepted(g, children[0].target, ts[0], depth, active, count, guarded);
      UnfoldedAllAccepted(g, children[1..], ts[1..], depth, active, count + Size(ts[0]), guarded);
    }
  }

  /** A value that unfolds within the bounds is accepted: no container is met inside
      itself, so the set of active containers refuses nothing. */
  lemma {:induction false} UnfoldedIsAccepted(
    g: Graph, id: nat, t: Tree, depth: nat, active: set<nat>, count: nat, guarded: bool)
    requires Closed(g) && Unfolds(g, id, t) && depth + Height(t) <= MAX_DEPTH && count + Size(t) <= MAX_VALUES
    requires Enclosing(g, active, Size(t))
    ensures Visit(g, id, depth, active, count, guarded) == Verdict(true, count + Size(t))
    decreases t
  {
    if g[id].Container? {
      if id in active {
        var u :| Unfolds(g, id, u) && Size(u) > Size(t);
        UnfoldsOnce(g, id, t, u);
        assert false;
      }
      assert Enclosing(g, active + {id}, Sizes(t.children));
      UnfoldedAllAccepted(g, g[id].children, t.children, depth + 1, active + {id}, count + 1, guarded);
    }
  }

  lemma {:induction false} AllSerializedAreText(g: Graph, children: seq<Child>, ts: seq<Tree>, levels: nat)
    requires Closed(g) && AllUnfold(g, children, ts) && Heights(ts) <= levels
    requires forall i :: 0 <= i < |children| ==> children[i].target in g
    ensures SerializedLengths(g, children, levels) == TextLengths(g, children, ts)
    decreases ts
  {
    if ts != [] {
      SerializedIsText(g, children[0].target, ts[0], levels);
      AllSerializedAreText(g, children[1..], ts[1..], levels);
    }
  }

  /** Serialising a value of limited height is serialising its tree. */
  lemma {:induction false} SerializedIsText(g: Graph, id: nat, t: Tree, levels: nat)
    requires Closed(g) && Unfolds(g, id, t) && Height(t) < levels
    ensures SerializedLength(g, id, levels) == TextLength(g, id, t)
    decreases t
  {
    if g[id].Container? {
      AllSerializedAreText(g, g[id].children, t.children, levels - 1);
    }
  }

  /** A value is accepted exactly when it is sound throughout and unfolds to a finite
      tree of at most 2048 values, at most 8 levels below the root and at most 16384
      bytes of text: what is shared counts each time, and what contains itself is
      refused. */
  lemma BoundedExactly(g: Graph, root: nat)
    requires Closed(g) && root in g
    ensures IsBounded(g, root, true) <==>
            exists t :: Unfolds(g, root, t) && Size(t) <= MAX_VALUES && Height(t) <= MAX_DEPTH
                        && TextLength(g, root, t) <= MAX_BYTES
  {
    if IsBounded(g, root, true) {
      var t := VisitUnfolds(g, root, 0, {}, 0, true);
      SerializedIsText(g, root, t, MAX_DEPTH + 1);
    }
    forall t | Unfolds(g, root, t) && Size(t) <= MAX_VALUES && Height(t) <= MAX_DEPTH
               && TextLength(g, root, t) <= MAX_BYTES
      ensures IsBounded(g, root, true)
    {
      UnfoldedIsAccepted(g, root, t, 0, {}, 0, true);
      SerializedIsText(g, root, t, MAX_DEPTH + 1);
    }
  }

  /** The depth limit alone refuses cyclic values: without the set of active containers
      the answer would be the same for every value. */
  lemma ActiveSetIsRedundant(g: Graph, root: nat)
    requires Closed(g) && root in g
    ensures IsBounded(g, root, true) <==> IsBounded(g, root, false)
  {
    if IsBounded(g, root, true) {
      var t := VisitUnfolds(g, root, 0, {}, 0, true);
      UnfoldedIsAccepted(g, root, t, 0, {}, 0, false);
    }
    if IsBounded(g, root, false) {
      var t := VisitUnfolds(g, root, 0, {}, 0, false);
      UnfoldedIsAccepted(g, root, t, 0, {}, 0, true);
    }
  }

  // ---- Thread results ------------------------------------------------------------------------------

  const MAX_NODES := 1024

  lemma {:induction false} SizesConcat(a: seq<Tree>, b: seq<Tree>)
    ensures Sizes(a + b) == Sizes(a) + Sizes(b)
    decreases |a|
  {
    if a == [] {
      assert a + b == b;
    } else {
      assert (a + b)[1..] == a[1..] + b;
      SizesConcat(a[1..], b);
    }
  }

  /** The worklist that counts the nodes of a thread result
      (packages/rpc/src/schemas.ts:1706-1720): it refuses exactly the forests with more
      nodes than allowed, without visiting more than one node too many. */
  method CountThreadNodes(messages: seq<Tree>) returns (accepted: bool, visited: nat)
    ensures accepted <==> Sizes(messages) <= MAX_NODES
    ensures visited <= MAX_NODES + 1
  {
    var pending := messages;
    visited, accepted := 0, true;
    while pending != []
      invariant visited + Sizes(pending) == Sizes(messages) && visited <= MAX_NODES
      decreases Sizes(pending)
    {
      var n := |pending| - 1;
      var node := pending[n];
      assert pending == pending[..n] + [node] && [node][1..] == [];
      SizesConcat(pending[..n], [node]);
      visited := visited + 1;
      if visited > MAX_NODES {
        return false, visited;
      }
      SizesConcat(pending[..n], node.children);
      pending := pending[..n] + node.children;
    }
  }
}
