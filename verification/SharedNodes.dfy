/**
 Resolution of shared node references (pkg/recipe/visitor.go). The resolver walks a node depth first
 and keeps the names being resolved on a stack. The main results: it terminates and leaves its stack
 as it was; it yields the full unfolding of the node; and it succeeds exactly when every reachable
 reference is defined and none lies on a cycle.
 */
module SharedNodes {
  import opened Text

  /** Everything that is not a reference or a container is a leaf. */
  datatype Node =
    | Leaf(content: string)
    | Shared(name: string)
    | Sequence(meta: string, children: seq<Node>)
    | Machine(meta: string, states: map<string, State>)

  datatype State = State(node: Node, transitions: string)

  type Definitions = map<string, Node>

  datatype Problem = Circular(name: string) | NotFound(name: string)

  // ---------------------------------------------------------------- specification

  /** The node with its references replaced, unless one is undefined or already among the names `on` the stack. */
  function Resolved(defs: Definitions, on: set<string>, node: Node): Option<Node>
    decreases defs.Keys - on, node
  {
    match node
    case Leaf(_) => Some(node)
    case Shared(name) =>
      if name in on || name !in defs then None
      else
        assert name in defs.Keys - on && name !in defs.Keys - (on + {name});
        Resolved(defs, on + {name}, defs[name])
    case Sequence(meta, children) =>
      if forall i :: 0 <= i < |children| ==> Resolved(defs, on, children[i]).Some?
      then Some(Sequence(meta, seq(|children|, i requires 0 <= i < |children| => Resolved(defs, on, children[i]).value)))
      else None
    case Machine(meta, states) =>
      if forall k :: k in states ==> Resolved(defs, on, states[k].node).Some?
      then Some(Machine(meta, map k | k in states :: State(Resolved(defs, on, states[k].node).value, states[k].transitions)))
      else None
  }

  // ---------------------------------------------------------------- the resolver

  function Names(stack: seq<string>): set<string> {
    set i | 0 <= i < |stack| :: stack[i]
  }

  /** The reported name is reachable from the node resolved, and really is undefined or on a cycle. */
  ghost predicate Justified(defs: Definitions, root: Node, problem: Problem) {
    Reaches(defs, root, problem.name) && match problem
                                         case Circular(name) => OnCycle(defs, name)
                                         case NotFound(name) => name !in defs
  }

  /** The stack is a chain of references from `root`, and every reference inside `node` continues it. */
  ghost predicate Continues(defs: Definitions, root: Node, stack: seq<string>, node: Node) {
    forall name :: Mentions(node, name) ==> Chain(defs, root, stack + [name])
  }

  class SharedNodeResolver {
    const defs: Definitions
    var stack: seq<string>

    constructor (defs: Definitions)
      ensures this.defs == defs && stack == []
    {
      this.defs := defs;
      stack := [];
    }

    /** VisitNodeShared: the stack is the same on every return, and an error names a real culprit below `root`. */
    method VisitNodeShared(node: Node, ghost root: Node) returns (result: Result<Node, Problem>)
      requires node.Shared? && Names(stack) <= defs.Keys && Continues(defs, root, stack, node)
      modifies this`stack
      ensures stack == old(stack)
      ensures result.Ok? ==> Resolved(defs, Names(stack), node) == Some(result.value)
      ensures result.Err? ==> Resolved(defs, Names(stack), node) == None && Justified(defs, root, result.error)
      decreases defs.Keys - Names(stack), node, 0
    {
      hide Resolved, Chain;
      ghost var on := Names(stack);
      for i := 0 to |stack|
        invariant node.name !in stack[..i]
      {
        if stack[i] == node.name {
          UnfoldShared(defs, on, node.name);
          CulpritFound(defs, root, stack, node.name);
          RepeatIsCycle(defs, root, stack + [node.name], i, |stack|);
          return Err(Circular(node.name));
        }
      }
      UnfoldShared(defs, on, node.name);
      CulpritFound(defs, root, stack, node.name);
      if node.name !in defs {
        return Err(NotFound(node.name));
      }
      var def := defs[node.name];
      PushName(stack, node.name);
      assert node.name in defs.Keys - on && node.name !in defs.Keys - (on + {node.name});
      DefinitionContinues(defs, root, stack, node.name);
      stack := stack + [node.name];
      if def.Shared? {
        result := VisitNodeShared(def, root);
      } else {
        result := WalkAndResolveNode(def, root);
      }
      if |stack| > 0 {
        stack := stack[..|stack| - 1];
      }
    }

    /**
     walkAndResolveNode, and the container traversal of BaseVisitor, which treats children alike.
     The states of a machine are visited in any order.
     */
    method WalkAndResolveNode(node: Node, ghost root: Node) returns (result: Result<Node, Problem>)
      requires Names(stack) <= defs.Keys && Continues(defs, root, stack, node)
      modifies this`stack
      ensures stack == old(stack)
      ensures result.Ok? ==> Resolved(defs, Names(stack), node) == Some(result.value)
      ensures result.Err? ==> Resolved(defs, Names(stack), node) == None && Justified(defs, root, result.error)
      decreases defs.Keys - Names(stack), node, 1
    {
      hide Resolved, Chain;
      ghost var on := Names(stack);
      match node
      case Leaf(_) =>
        UnfoldLeaf(defs, on, node);
        result := Ok(node);
      case Shared(_) =>
        result := VisitNodeShared(node, root);
      case Sequence(meta, children) =>
        var out: seq<Node> := [];
        for i := 0 to |children|
          invariant stack == old(stack) && |out| == i
          invariant forall j :: 0 <= j < i ==> Resolved(defs, on, children[j]) == Some(out[j])
        {
          var child := WalkAndResolveNode(children[i], root);
          if child.Err? {
            UnfoldSequence(defs, on, node);
            return child;
          }
          out := out + [child.value];
        }
        UnfoldSequence(defs, on, node);
        result := Ok(Sequence(meta, out));
        assert out == Resolved(defs, on, node).value.children;
      case Machine(meta, states) =>
        var out: map<string, State> := map[];
        var todo := states.Keys;
        while todo != {}
          invariant stack == old(stack) && todo <= states.Keys
          invariant out.Keys == states.Keys - todo
          invariant forall k :: k in out ==> out[k].transitions == states[k].transitions
                                             && Resolved(defs, on, states[k].node) == Some(out[k].node)
          decreases todo
        {
          var k :| k in todo;
          var child := WalkAndResolveNode(states[k].node, root);
          if child.Err? {
            UnfoldMachine(defs, on, node);
            return child;
          }
          out := out[k := State(child.value, states[k].transitions)];
          todo := todo - {k};
        }
        UnfoldMachine(defs, on, node);
        result := Ok(Machine(meta, out));
        assert out == Resolved(defs, on, node).value.states;
    }
  }

  lemma CulpritFound(defs: Definitions, root: Node, stack: seq<string>, name: string)
    requires Continues(defs, root, stack, Shared(name))
    ensures Chain(defs, root, stack + [name]) && Reaches(defs, root, name)
  {
    assert Mentions(Shared(name), name);
    var names := stack + [name];
    assert names[|names| - 1] == name;
  }

  lemma DefinitionContinues(defs: Definitions, root: Node, stack: seq<string>, name: string)
    requires Continues(defs, root, stack, Shared(name)) && name in defs
    ensures Continues(defs, root, stack + [name], defs[name])
  {
    CulpritFound(defs, root, stack, name);
    forall next | Mentions(defs[name], next)
      ensures Chain(defs, root, stack + [name] + [next])
    {
      ChainJoin(defs, root, stack + [name], [next]);
    }
  }

  /** At the start, with nothing on the stack, the node itself is the root. */
  lemma StartContinues(defs: Definitions, node: Node)
    ensures Continues(defs, node, [], node)
  {
    forall name | Mentions(node, name)
      ensures Chain(defs, node, [] + [name])
    {
      assert [] + [name] == [name];
    }
  }

  lemma PushName(stack: seq<string>, name: string)
    ensures Names(stack + [name]) == Names(stack) + {name}
  {
    var pushed := stack + [name];
    assert pushed[|stack|] == name;
    forall i | 0 <= i < |stack|
      ensures stack[i] in Names(pushed)
    {
      assert pushed[i] == stack[i];
    }
  }

  lemma UnfoldLeaf(defs: Definitions, on: set<string>, node: Node)
    requires node.Leaf?
    ensures Resolved(defs, on, node) == Some(node)
  {
  }

  lemma UnfoldShared(defs: Definitions, on: set<string>, name: string)
    ensures Resolved(defs, on, Shared(name)) ==
            if name in on || name !in defs then None else Resolved(defs, on + {name}, defs[name])
  {
  }

  lemma UnfoldSequence(defs: Definitions, on: set<string>, node: Node)
    requires node.Sequence?
    ensures var r := Resolved(defs, on, node);
            && (r.Some? <==> forall i :: 0 <= i < |node.children| ==> Resolved(defs, on, node.children[i]).Some?)
            && (r.Some? ==>
                  && r.value == Sequence(node.meta, r.value.children)
                  && |r.value.children| == |node.children|
                  && forall i :: 0 <= i < |node.children| ==>
                       Resolved(defs, on, node.children[i]) == Some(r.value.children[i]))
  {
  }

  lemma UnfoldMachine(defs: Definitions, on: set<string>, node: Node)
    requires node.Machine?
    ensures var r := Resolved(defs, on, node);
            && (r.Some? <==> forall k :: k in node.states ==> Resolved(defs, on, node.states[k].node).Some?)
            && (r.Some? ==>
                  && r.value == Machine(node.meta, r.value.states)
                  && r.value.states.Keys == node.states.Keys
                  && forall k :: k in node.states ==>
                       && r.value.states[k].transitions == node.states[k].transitions
                       && Resolved(defs, on, node.states[k].node) == Some(r.value.states[k].node))
  {
  }

  // ---------------------------------------------------------------- the result holds no reference

  predicate NoReference(node: Node) {
    match node
    case Leaf(_) => true
    case Shared(_) => false
    case Sequence(_, children) => forall i :: 0 <= i < |children| ==> NoReference(children[i])
    case Machine(_, states) => forall k :: k in states ==> NoReference(states[k].node)
  }

  lemma {:induction false} ResultHoldsNoReference(defs: Definitions, on: set<string>, node: Node)
    requires Resolved(defs, on, node).Some?
    ensures NoReference(Resolved(defs, on, node).value)
    decreases defs.Keys - on, node
  {
    match node
    case Leaf(_) =>
    case Shared(name) =>
      assert name in defs.Keys - on && name !in defs.Keys - (on + {name});
      ResultHoldsNoReference(defs, on + {name}, defs[name]);
    case Sequence(_, children) =>
      forall i | 0 <= i < |children|
        ensures NoReference(Resolved(defs, on, children[i]).value)
      {
        ResultHoldsNoReference(defs, on, children[i]);
      }
    case Machine(_, states) =>
      forall k | k in states
        ensures NoReference(Resolved(defs, on, states[k].node).value)
      {
        ResultHoldsNoReference(defs, on, states[k].node);
      }
  }

  lemma {:induction false} NothingToResolve(defs: Definitions, on: set<string>, node: Node)
    requires NoReference(node)
    ensures Resolved(defs, on, node) == Some(node)
    decreases node
  {
    match node
    case Leaf(_) =>
    case Sequence(meta, children) =>
      forall i | 0 <= i < |children|
        ensures Resolved(defs, on, children[i]) == Some(children[i])
      {
        NothingToResolve(defs, on, children[i]);
      }
      assert Resolved(defs, on, node).value.children == children;
    case Machine(meta, states) =>
      forall k | k in states
        ensures Resolved(defs, on, states[k].node) == Some(states[k].node)
      {
        NothingToResolve(defs, on, states[k].node);
      }
      assert Resolved(defs, on, node).value.states == states;
  }

  /** Resolution is idempotent, even under other definitions. */
  lemma ResolutionIdempotent(defs: Definitions, node: Node, later: Definitions)
    requires Resolved(defs, {}, node).Some?
    ensures Resolved(later, {}, Resolved(defs, {}, node).value) == Resolved(defs, {}, node)
  {
    ResultHoldsNoReference(defs, {}, node);
    NothingToResolve(later, {}, Resolved(defs, {}, node).value);
  }

  // ---------------------------------------------------------------- reference semantics: unfolding

  /** Replaces references to the given depth without looking for cycles. */
  function Unfold(defs: Definitions, depth: nat, node: Node): Option<Node>
    decreases depth, node
  {
    match node
    case Leaf(_) => Some(node)
    case Shared(name) => if name in defs && depth > 0 then Unfold(defs, depth - 1, defs[name]) else None
    case Sequence(meta, children) =>
      if forall i :: 0 <= i < |children| ==> Unfold(defs, depth, children[i]).Some?
      then Some(Sequence(meta, seq(|children|, i requires 0 <= i < |children| => Unfold(defs, depth, children[i]).value)))
      else None
    case Machine(meta, states) =>
      if forall k :: k in states ==> Unfold(defs, depth, states[k].node).Some?
      then Some(Machine(meta, map k | k in states :: State(Unfold(defs, depth, states[k].node).value, states[k].transitions)))
      else None
  }

  lemma FewerNames(defs: Definitions, on: set<string>, name: string)
    requires name in defs && name !in on
    ensures defs.Keys - (on + {name}) < defs.Keys - on
    ensures |defs.Keys - (on + {name})| == |defs.Keys - on| - 1
  {
    var fewer := defs.Keys - (on + {name});
    assert defs.Keys - on == fewer + {name} && name !in fewer;
  }

  lemma PartsUnfoldAlike(defs: Definitions, on: set<string>, node: Node, depth: nat)
    requires Resolved(defs, on, node).Some?
    requires node.Sequence? || node.Machine?
    requires node.Sequence? ==> forall i :: 0 <= i < |node.children| ==>
                                  Unfold(defs, depth, node.children[i]) == Resolved(defs, on, node.children[i])
    requires node.Machine? ==> forall k :: k in node.states ==>
                                 Unfold(defs, depth, node.states[k].node) == Resolved(defs, on, node.states[k].node)
    ensures Unfold(defs, depth, node) == Resolved(defs, on, node)
  {
    if node.Sequence? {
      assert Unfold(defs, depth, node).value.children == Resolved(defs, on, node).value.children;
    } else {
      assert Unfold(defs, depth, node).value.states == Resolved(defs, on, node).value.states;
    }
  }

  lemma {:induction false} ResolvedIsUnfolded(defs: Definitions, on: set<string>, node: Node, depth: nat)
    requires Resolved(defs, on, node).Some? && depth >= |defs.Keys - on|
    ensures Unfold(defs, depth, node) == Resolved(defs, on, node)
    decreases defs.Keys - on, node
  {
    hide Resolved;
    match node
    case Leaf(_) => UnfoldLeaf(defs, on, node);
    case Shared(name) =>
      UnfoldShared(defs, on, name);
      FewerNames(defs, on, name);
      ResolvedIsUnfolded(defs, on + {name}, defs[name], depth - 1);
    case Sequence(_, children) =>
      UnfoldSequence(defs, on, node);
      hide Unfold;
      forall i | 0 <= i < |children|
        ensures Unfold(defs, depth, children[i]) == Resolved(defs, on, children[i])
      {
        ResolvedIsUnfolded(defs, on, children[i], depth);
      }
      PartsUnfoldAlike(defs, on, node, depth);
    case Machine(_, states) =>
      UnfoldMachine(defs, on, node);
      hide Unfold;
      forall k | k in states
        ensures Unfold(defs, depth, states[k].node) == Resolved(defs, on, states[k].node)
      {
        ResolvedIsUnfolded(defs, on, states[k].node, depth);
      }
      PartsUnfoldAlike(defs, on, node, depth);
  }

  lemma {:induction false} DeeperUnfoldsAlike(defs: Definitions, depth: nat, more: nat, node: Node)
    requires Unfold(defs, depth, node).Some? && depth <= more
    ensures Unfold(defs, more, node) == Unfold(defs, depth, node)
    decreases depth, node
  {
    match node
    case Leaf(_) =>
    case Shared(name) => DeeperUnfoldsAlike(defs, depth - 1, more - 1, defs[name]);
    case Sequence(_, children) =>
      forall i | 0 <= i < |children|
        ensures Unfold(defs, more, children[i]) == Unfold(defs, depth, children[i])
      {
        DeeperUnfoldsAlike(defs, depth, more, children[i]);
      }
      assert Unfold(defs, more, node).value.children == Unfold(defs, depth, node).value.children;
    case Machine(_, states) =>
      forall k | k in states
        ensures Unfold(defs, more, states[k].node) == Unfold(defs, depth, states[k].node)
      {
        DeeperUnfoldsAlike(defs, depth, more, states[k].node);
      }
      assert Unfold(defs, more, node).value.states == Unfold(defs, depth, node).value.states;
  }

  // ---------------------------------------------------------------- the reference graph

  /** `name` is referenced somewhere inside `node`, not counting definitions. */
  ghost predicate Mentions(node: Node, name: string) {
    match node
    case Leaf(_) => false
    case Shared(n) => n == name
    case Sequence(_, children) => exists i :: 0 <= i < |children| && Mentions(children[i], name)
    case Machine(_, states) => exists k :: k in states && Mentions(states[k].node, name)
  }

  /** A chain of references: the node mentions the first name, and each definition mentions the next. */
  ghost predicate Chain(defs: Definitions, node: Node, names: seq<string>)
    decreases |names|
  {
    names != [] ==>
      && Mentions(node, names[0])
      && (|names| > 1 ==> names[0] in defs && Chain(defs, defs[names[0]], names[1..]))
  }

  ghost predicate Reaches(defs: Definitions, node: Node, name: string) {
    exists names: seq<string> :: names != [] && Chain(defs, node, names) && names[|names| - 1] == name
  }

  ghost predicate OnCycle(defs: Definitions, name: string) {
    name in defs && Reaches(defs, defs[name], name)
  }

  /** What the stack discipline demands of a chain. */
  ghost predicate Fine(defs: Definitions, on: set<string>, names: seq<string>) {
    && (forall i :: 0 <= i < |names| ==> names[i] in defs && names[i] !in on)
    && (forall i, j :: 0 <= i < j < |names| ==> names[i] != names[j])
  }

  ghost predicate AllFine(defs: Definitions, on: set<string>, node: Node) {
    forall names: seq<string> :: Chain(defs, node, names) ==> Fine(defs, on, names)
  }

  lemma FineCons(defs: Definitions, on: set<string>, names: seq<string>)
    requires names != []
    ensures Fine(defs, on, names) <==>
              names[0] in defs && names[0] !in on && Fine(defs, on + {names[0]}, names[1..])
  {
    var rest := names[1..];
    assert forall i :: 0 <= i < |rest| ==> rest[i] == names[i + 1];
    if names[0] in defs && names[0] !in on && Fine(defs, on + {names[0]}, rest) {
      forall i | 1 <= i < |names|
        ensures names[i] in defs && names[i] !in on && names[i] != names[0]
      {
        assert names[i] == rest[i - 1];
      }
      forall i, j | 1 <= i < j < |names|
        ensures names[i] != names[j]
      {
        assert names[i] == rest[i - 1] && names[j] == rest[j - 1];
      }
    }
  }

  lemma SharedAllFine(defs: Definitions, on: set<string>, name: string)
    ensures AllFine(defs, on, Shared(name)) <==>
              name in defs && name !in on && AllFine(defs, on + {name}, defs[name])
  {
    if AllFine(defs, on, Shared(name)) {
      assert Chain(defs, Shared(name), [name]);
      assert [name][0] in defs && [name][0] !in on;
      forall names: seq<string> | Chain(defs, defs[name], names)
        ensures Fine(defs, on + {name}, names)
      {
        var longer := [name] + names;
        assert longer[1..] == names;
        assert Chain(defs, Shared(name), longer);
        FineCons(defs, on, longer);
      }
    }
    if name in defs && name !in on && AllFine(defs, on + {name}, defs[name]) {
      forall names: seq<string> | Chain(defs, Shared(name), names)
        ensures Fine(defs, on, names)
      {
        if names != [] {
          assert Chain(defs, defs[name], names[1..]);
          FineCons(defs, on, names);
        }
      }
    }
  }

  /** Chains start anew from whatever part of a container mentions their first name. */
  lemma ChainElsewhere(defs: Definitions, a: Node, b: Node, names: seq<string>)
    requires names != [] ==> (Mentions(a, names[0]) <==> Mentions(b, names[0]))
    ensures Chain(defs, a, names) <==> Chain(defs, b, names)
  {
  }

  lemma {:induction false} ResolvesExactlyUnder(defs: Definitions, on: set<string>, node: Node)
    ensures Resolved(defs, on, node).Some? <==> AllFine(defs, on, node)
    decreases defs.Keys - on, node
  {
    match node
    case Leaf(_) =>
    case Shared(name) =>
      SharedAllFine(defs, on, name);
      if name in defs && name !in on {
        assert name in defs.Keys - on && name !in defs.Keys - (on + {name});
        ResolvesExactlyUnder(defs, on + {name}, defs[name]);
      }
    case Sequence(_, children) =>
      forall i | 0 <= i < |children|
        ensures Resolved(defs, on, children[i]).Some? <==> AllFine(defs, on, children[i])
      {
        ResolvesExactlyUnder(defs, on, children[i]);
      }
      UnfoldSequence(defs, on, node);
      var parts := set i | 0 <= i < |children| :: children[i];
      forall name
        ensures Mentions(node, name) <==> exists part :: part in parts && Mentions(part, name)
      {
        if Mentions(node, name) {
          var i :| 0 <= i < |children| && Mentions(children[i], name);
          assert children[i] in parts;
        }
      }
      PartsAllFine(defs, on, node, parts);
    case Machine(_, states) =>
      forall k | k in states
        ensures Resolved(defs, on, states[k].node).Some? <==> AllFine(defs, on, states[k].node)
      {
        ResolvesExactlyUnder(defs, on, states[k].node);
      }
      UnfoldMachine(defs, on, node);
      var parts := set k | k in states :: states[k].node;
      forall name
        ensures Mentions(node, name) <==> exists part :: part in parts && Mentions(part, name)
      {
        if Mentions(node, name) {
          var k :| k in states && Mentions(states[k].node, name);
          assert states[k].node in parts;
        }
      }
      PartsAllFine(defs, on, node, parts);
  }

  lemma PartsAllFine(defs: Definitions, on: set<string>, node: Node, parts: set<Node>)
    requires forall name :: Mentions(node, name) <==> exists part :: part in parts && Mentions(part, name)
    ensures AllFine(defs, on, node) <==> forall part :: part in parts ==> AllFine(defs, on, part)
  {
    forall part, names: seq<string> | part in parts && Chain(defs, part, names)
      ensures Chain(defs, node, names)
    {
    }
    forall names: seq<string> | names != [] && Chain(defs, node, names)
      ensures exists part :: part in parts && Chain(defs, part, names)
    {
      var part :| part in parts && Mentions(part, names[0]);
      ChainElsewhere(defs, node, part, names);
    }
  }

  lemma {:induction false} ChainSplit(defs: Definitions, node: Node, names: seq<string>, i: nat)
    requires Chain(defs, node, names) && 0 < i <= |names|
    ensures Chain(defs, node, names[..i])
    ensures i < |names| ==> names[i - 1] in defs && Chain(defs, defs[names[i - 1]], names[i..])
    decreases i
  {
    if i == 1 {
      assert names[..1] == [names[0]];
    } else {
      ChainSplit(defs, defs[names[0]], names[1..], i - 1);
      assert names[..i][1..] == names[1..][..i - 1];
      assert names[1..][i - 1..] == names[i..];
    }
  }

  lemma {:induction false} ChainJoin(defs: Definitions, node: Node, a: seq<string>, b: seq<string>)
    requires a != [] && Chain(defs, node, a)
    requires b != [] ==> a[|a| - 1] in defs && Chain(defs, defs[a[|a| - 1]], b)
    ensures Chain(defs, node, a + b)
    decreases |a|
  {
    if b == [] {
      assert a + b == a;
    } else if |a| == 1 {
      assert (a + b)[1..] == b;
    } else {
      ChainJoin(defs, defs[a[0]], a[1..], b);
      assert (a + b)[1..] == a[1..] + b;
    }
  }

  lemma OffCyclesWhenAllFine(defs: Definitions, node: Node, name: string)
    requires AllFine(defs, {}, node) && Reaches(defs, node, name)
    ensures name in defs && !OnCycle(defs, name)
  {
    hide Chain;
    var a: seq<string> :| a != [] && Chain(defs, node, a) && a[|a| - 1] == name;
    if OnCycle(defs, name) {
      var b: seq<string> :| b != [] && Chain(defs, defs[name], b) && b[|b| - 1] == name;
      assert (a + b)[|a| - 1] == (a + b)[|a + b| - 1];
      ChainJoin(defs, node, a, b);
    }
  }

  lemma ChainReaches(defs: Definitions, node: Node, names: seq<string>, i: nat)
    requires Chain(defs, node, names) && i < |names|
    ensures Reaches(defs, node, names[i])
  {
    ChainSplit(defs, node, names, i + 1);
    assert names[..i + 1][i] == names[i];
  }

  lemma RepeatIsCycle(defs: Definitions, node: Node, names: seq<string>, i: nat, j: nat)
    requires Chain(defs, node, names) && i < j < |names| && names[i] == names[j]
    ensures OnCycle(defs, names[i])
  {
    ChainSplit(defs, node, names, i + 1);
    ChainReaches(defs, defs[names[i]], names[i + 1..], j - i - 1);
    assert names[i + 1..][j - i - 1] == names[j];
  }

  /** No chain misbehaves exactly when everything reachable is defined and off every cycle. */
  lemma AllFineMeans(defs: Definitions, node: Node)
    ensures AllFine(defs, {}, node) <==>
              forall name :: Reaches(defs, node, name) ==> name in defs && !OnCycle(defs, name)
  {
    hide Chain, Reaches, OnCycle;
    if AllFine(defs, {}, node) {
      forall name | Reaches(defs, node, name)
        ensures name in defs && !OnCycle(defs, name)
      {
        OffCyclesWhenAllFine(defs, node, name);
      }
    }
    if forall name :: Reaches(defs, node, name) ==> name in defs && !OnCycle(defs, name) {
      forall names: seq<string> | Chain(defs, node, names)
        ensures Fine(defs, {}, names)
      {
        forall i | 0 <= i < |names|
          ensures names[i] in defs && !OnCycle(defs, names[i])
        {
          ChainReaches(defs, node, names, i);
        }
        forall i, j | 0 <= i < j < |names|
          ensures names[i] != names[j]
        {
          if names[i] == names[j] {
            RepeatIsCycle(defs, node, names, i, j);
          }
        }
      }
    }
  }

  /** Resolution succeeds exactly when every reachable reference is defined and lies on no cycle. */
  lemma ResolvesExactly(defs: Definitions, node: Node)
    ensures Resolved(defs, {}, node).Some? <==>
              forall name :: Reaches(defs, node, name) ==> name in defs && !OnCycle(defs, name)
  {
    ResolvesExactlyUnder(defs, {}, node);
    AllFineMeans(defs, node);
  }

  // ---------------------------------------------------------------- resolution is the full unfolding

  lemma {:induction false} UnfoldBoundsChains(defs: Definitions, depth: nat, node: Node, names: seq<string>)
    requires Unfold(defs, depth, node).Some? && Chain(defs, node, names)
    ensures |names| <= depth && forall i :: 0 <= i < |names| ==> names[i] in defs
    decreases depth, node
  {
    if names != [] {
      match node
      case Leaf(_) =>
      case Shared(name) =>
        assert Chain(defs, defs[name], names[1..]);
        UnfoldBoundsChains(defs, depth - 1, defs[name], names[1..]);
        assert forall i :: 1 <= i < |names| ==> names[i] == names[1..][i - 1];
      case Sequence(_, children) =>
        var i :| 0 <= i < |children| && Mentions(children[i], names[0]);
        UnfoldBoundsChains(defs, depth, children[i], names);
      case Machine(_, states) =>
        var k :| k in states && Mentions(states[k].node, names[0]);
        UnfoldBoundsChains(defs, depth, states[k].node, names);
    }
  }

  /** A cycle gives chains of every length. */
  lemma {:induction false} CyclePumps(defs: Definitions, name: string, length: nat) returns (names: seq<string>)
    requires OnCycle(defs, name)
    ensures Chain(defs, defs[name], names) && |names| >= length
    ensures names != [] ==> names[|names| - 1] == name
  {
    if length == 0 {
      names := [];
    } else {
      var loop: seq<string> :| loop != [] && Chain(defs, defs[name], loop) && loop[|loop| - 1] == name;
      var rest := CyclePumps(defs, name, length - 1);
      ChainJoin(defs, defs[name], loop, rest);
      names := loop + rest;
    }
  }

  /** The resolver's stack changes nothing: its result is the unfolding of the node, and exists whenever that does. */
  lemma ResolutionIsFullUnfolding(defs: Definitions, node: Node, tree: Node)
    ensures Resolved(defs, {}, node) == Some(tree) <==> exists depth: nat :: Unfold(defs, depth, node) == Some(tree)
  {
    if Resolved(defs, {}, node) == Some(tree) {
      ResolvedIsUnfolded(defs, {}, node, |defs.Keys|);
      assert Unfold(defs, |defs.Keys|, node) == Some(tree);
    }
    forall depth: nat | Unfold(defs, depth, node) == Some(tree)
      ensures Resolved(defs, {}, node) == Some(tree)
    {
      UnfoldingResolves(defs, node, depth);
      var enough := if depth > |defs.Keys| then depth else |defs.Keys|;
      assert defs.Keys - {} == defs.Keys;
      ResolvedIsUnfolded(defs, {}, node, enough);
      DeeperUnfoldsAlike(defs, depth, enough, node);
    }
  }

  lemma UnfoldingResolves(defs: Definitions, node: Node, depth: nat)
    requires Unfold(defs, depth, node).Some?
    ensures Resolved(defs, {}, node).Some?
  {
    forall name | Reaches(defs, node, name)
      ensures name in defs && !OnCycle(defs, name)
    {
      var names: seq<string> :| names != [] && Chain(defs, node, names) && names[|names| - 1] == name;
      UnfoldBoundsChains(defs, depth, node, names);
      if OnCycle(defs, name) {
        var more := CyclePumps(defs, name, depth);
        ChainJoin(defs, node, names, more);
        UnfoldBoundsChains(defs, depth, node, names + more);
      }
    }
    ResolvesExactly(defs, node);
  }
}
