/** Which bind occurrences of a query belong to lambdas (lambdaLocalBindPositions in internal/analyzer/lambda.go). */
module ScopeMarking {
  import opened Wrappers
  import opened Sorting
  import opened Parameters

  /** The parse tree as the walk sees it. */
  datatype Node =
    | Occurrence(bind: Bind)
    | LambdaNode(parameters: seq<Bind>, body: Option<Node>)
    | Assignment(value: Option<Node>, binders: seq<Bind>) // a local of a lambda body
    | Other(children: seq<Node>)

  // ---------------------------------------------------------------- lexical scope

  function NamesOf(binds: seq<Bind>): set<string> {
    set b | b in binds :: b.name
  }

  function PositionsOf(binds: seq<Bind>): set<int> {
    set b | b in binds :: b.position
  }

  /** The locals that a node declares for what follows it in the same lambda. */
  function Declares(node: Node): set<string> {
    match node
    case Occurrence(_) => {}
    case LambdaNode(_, _) => {}
    case Assignment(value, binders) => (if value.Some? then Declares(value.value) else {}) + NamesOf(binders)
    case Other(children) => DeclaresAll(children)
  }

  function DeclaresAll(nodes: seq<Node>): set<string> {
    if nodes == [] then {} else Declares(nodes[0]) + DeclaresAll(nodes[1..])
  }

  /**
   * A path leads from a node to one of its parts: 0 to the body of a lambda or the value of an assignment, i to child i.
   * `At` says which node stands there.
   */
  function At(node: Node, path: seq<nat>): Option<Node> {
    if path == [] then Some(node)
    else
      match node
      case Occurrence(_) => None
      case LambdaNode(_, body) => if path[0] == 0 && body.Some? then At(body.value, path[1..]) else None
      case Assignment(value, _) => if path[0] == 0 && value.Some? then At(value.value, path[1..]) else None
      case Other(children) => if path[0] < |children| then At(children[path[0]], path[1..]) else None
  }

  /** A name is bound on a path by a lambda around it or by an assignment before it in the same lambda. */
  predicate BoundOn(node: Node, path: seq<nat>, name: string)
    requires At(node, path).Some?
  {
    path != [] &&
    match node
    case Occurrence(_) => false
    case LambdaNode(parameters, body) => name in NamesOf(parameters) || BoundOn(body.value, path[1..], name)
    case Assignment(value, _) => BoundOn(value.value, path[1..], name)
    case Other(children) => name in DeclaresAll(children[..path[0]]) || BoundOn(children[path[0]], path[1..], name)
  }

  // ---------------------------------------------------------------- lexical scope by paths

  /** No lambda stands on the path, its end included. */
  predicate OutsideLambdas(node: Node, path: seq<nat>) {
    match node
    case Occurrence(_) => true
    case LambdaNode(_, _) => false
    case Assignment(value, _) => path == [] || value.None? || OutsideLambdas(value.value, path[1..])
    case Other(children) => path == [] || path[0] >= |children| || OutsideLambdas(children[path[0]], path[1..])
  }

  /** An assignment to the name stands at the end of the path, in no lambda below the node. */
  predicate AssignsAt(node: Node, path: seq<nat>, name: string) {
    && At(node, path).Some? && At(node, path).value.Assignment? && OutsideLambdas(node, path)
    && exists b <- At(node, path).value.binders :: b.name == name
  }

  /** A lambda with such a parameter stands on the path, above its end. */
  predicate IsParameterAbove(node: Node, path: seq<nat>, m: nat, name: string) {
    && m < |path| && At(node, path[..m]).Some? && At(node, path[..m]).value.LambdaNode?
    && exists b <- At(node, path[..m]).value.parameters :: b.name == name
  }

  /** At step m of the path, an earlier child than the one the path goes through has such an assignment. */
  predicate IsAssignedBefore(node: Node, path: seq<nat>, m: nat, i: nat, q: seq<nat>, name: string) {
    && m < |path| && i < path[m] && At(node, path[..m]).Some? && At(node, path[..m]).value.Other?
    && i < |At(node, path[..m]).value.children| && AssignsAt(At(node, path[..m]).value.children[i], q, name)
  }

  /** Bound in the lexical sense: a parameter of a lambda around it, or a local assigned before it in the same lambda. */
  ghost predicate LexicallyBound(node: Node, path: seq<nat>, name: string) {
    || (exists m :: IsParameterAbove(node, path, m, name))
    || (exists m, i, q :: IsAssignedBefore(node, path, m, i, q, name))
  }

  /** A node declares exactly the names assigned in it outside lambdas. */
  lemma {:induction false} DeclaresIsAssigned(node: Node, name: string)
    ensures name in Declares(node) <==> exists path :: AssignsAt(node, path, name)
    decreases node, 1
  {
    match node {
      case Occurrence(_) =>
      case LambdaNode(_, _) =>
      case Assignment(value, binders) =>
        assert AssignsAt(node, [], name) <==> name in NamesOf(binders);
        if value.Some? {
          DeclaresIsAssigned(value.value, name);
          if path :| AssignsAt(value.value, path, name) {
            assert ([0] + path)[1..] == path;
            assert AssignsAt(node, [0] + path, name);
          }
        }
        if path :| AssignsAt(node, path, name) {
          assert path != [] ==> value.Some? && AssignsAt(value.value, path[1..], name);
        }
      case Other(children) =>
        ChildrenDeclare(children, name);
        if i: nat, path :| i < |children| && AssignsAt(children[i], path, name) {
          assert ([i] + path)[1..] == path;
          assert AssignsAt(node, [i] + path, name);
        }
        if path :| AssignsAt(node, path, name) {
          assert path != [] && AssignsAt(children[path[0]], path[1..], name);
        }
    }
  }

  lemma {:induction false} ChildrenDeclare(nodes: seq<Node>, name: string)
    ensures name in DeclaresAll(nodes) <==> exists i: nat, path :: i < |nodes| && AssignsAt(nodes[i], path, name)
    decreases nodes, 0
  {
    hide AssignsAt;
    if nodes != [] {
      DeclaresIsAssigned(nodes[0], name);
      ChildrenDeclare(nodes[1..], name);
      if i: nat, path :| i < |nodes[1..]| && AssignsAt(nodes[1..][i], path, name) {
        assert nodes[i + 1] == nodes[1..][i];
      }
      if i: nat, path :| i < |nodes| && AssignsAt(nodes[i], path, name) {
        assert i > 0 ==> nodes[1..][i - 1] == nodes[i];
      }
    }
  }

  /** The names bound on a path, computed step by step, are those of lexical scope. */
  lemma {:induction false} BoundIsLexical(node: Node, path: seq<nat>, name: string)
    requires At(node, path).Some?
    ensures BoundOn(node, path, name) <==> LexicallyBound(node, path, name)
    decreases node
  {
    hide AssignsAt, LexicallyBound, IsAssignedBefore;
    if path != [] {
      var part := if node.LambdaNode? then node.body.value
                  else if node.Assignment? then node.value.value
                  else node.children[path[0]];
      BoundIsLexical(part, path[1..], name);
      LexicalStep(node, part, path, name);
      assert path[..0] == [];
      if node.Other? {
        ChildrenDeclare(node.children[..path[0]], name);
        EarlierChildren(node, path, name);
      } else {
        NoEarlierChildren(node, path, name);
      }
    } else {
      NothingBound(node, name);
    }
  }

  lemma NothingBound(node: Node, name: string)
    ensures !LexicallyBound(node, [], name)
  {
  }

  lemma NoEarlierChildren(node: Node, path: seq<nat>, name: string)
    requires !node.Other? && path != []
    ensures forall i, q :: !IsAssignedBefore(node, path, 0, i, q, name)
  {
    assert path[..0] == [];
  }

  lemma LexicalStep(node: Node, part: Node, path: seq<nat>, name: string)
    requires At(node, path).Some? && path != []
    requires part == if node.LambdaNode? then node.body.value
                     else if node.Assignment? then node.value.value
                     else node.children[path[0]]
    ensures LexicallyBound(node, path, name) <==>
            || IsParameterAbove(node, path, 0, name)
            || (exists i, q :: IsAssignedBefore(node, path, 0, i, q, name))
            || LexicallyBound(part, path[1..], name)
  {
    StepIsLexical(node, part, path, name);
    hide IsParameterAbove, IsAssignedBefore;
    if m: nat :| IsParameterAbove(part, path[1..], m, name) {
      assert IsParameterAbove(node, path, m + 1, name);
    }
    if m: nat, i, q :| IsAssignedBefore(part, path[1..], m, i, q, name) {
      assert IsAssignedBefore(node, path, m + 1, i, q, name);
    }
    if m: nat :| IsParameterAbove(node, path, m, name) {
      assert m > 0 ==> IsParameterAbove(part, path[1..], m - 1, name);
    }
    if m: nat, i, q :| IsAssignedBefore(node, path, m, i, q, name) {
      assert m > 0 ==> IsAssignedBefore(part, path[1..], m - 1, i, q, name);
    }
  }

  lemma EarlierChildren(node: Node, path: seq<nat>, name: string)
    requires node.Other? && path != [] && path[0] < |node.children|
    ensures (exists i: nat, q :: i < path[0] && AssignsAt(node.children[..path[0]][i], q, name)) <==>
            exists i, q :: IsAssignedBefore(node, path, 0, i, q, name)
  {
    hide AssignsAt;
    assert path[..0] == [];
    if i: nat, q :| i < path[0] && AssignsAt(node.children[..path[0]][i], q, name) {
      assert IsAssignedBefore(node, path, 0, i, q, name);
    }
    if i: nat, q :| IsAssignedBefore(node, path, 0, i, q, name) {
      assert node.children[..path[0]][i] == node.children[i];
    }
  }

  /** Below its first step, a path is bound by the same places as seen from the part. */
  lemma StepIsLexical(node: Node, part: Node, path: seq<nat>, name: string)
    requires At(node, path).Some? && path != []
    requires part == if node.LambdaNode? then node.body.value
                     else if node.Assignment? then node.value.value
                     else node.children[path[0]]
    ensures forall m: nat | m > 0 ::
              IsParameterAbove(node, path, m, name) <==> IsParameterAbove(part, path[1..], m - 1, name)
    ensures forall m: nat, i, q | m > 0 ::
              IsAssignedBefore(node, path, m, i, q, name) <==> IsAssignedBefore(part, path[1..], m - 1, i, q, name)
  {
    hide AssignsAt;
    forall m: nat | 0 < m < |path| ensures At(node, path[..m]) == At(part, path[1..][..m - 1]) {
      assert path[..m][1..] == path[1..][..m - 1];
    }
  }

  /** A binder stands at a position: a lambda parameter or the left side of an assignment. */
  predicate BindsAt(node: Node, position: int) {
    match node
    case Occurrence(_) => false
    case LambdaNode(parameters, _) => position in PositionsOf(parameters)
    case Assignment(_, binders) => position in PositionsOf(binders)
    case Other(_) => false
  }

  /** The occurrence at the end of a path belongs to a lambda; `outer` names are bound around the whole node. */
  predicate BelongsAt(node: Node, outer: set<string>, path: seq<nat>, position: int) {
    match At(node, path)
    case None => false
    case Some(Occurrence(b)) => b.position == position && (b.name in outer || BoundOn(node, path, b.name))
    case Some(part) => BindsAt(part, position)
  }

  ghost predicate Belongs(node: Node, outer: set<string>, position: int) {
    exists path :: BelongsAt(node, outer, path, position)
  }

  // ---------------------------------------------------------------- the walk

  /** A map of names that several steps of the walk share. */
  class Names {
    var names: set<string>

    constructor (names: set<string>)
      ensures this.names == names
    {
      this.names := names;
    }
  }

  class Positions {
    var marked: set<int>

    constructor ()
      ensures marked == {}
    {
      marked := {};
    }
  }

  /** What the walk marks in a node when `locals` are known before it. */
  function Marked(node: Node, locals: set<string>): set<int>
    decreases node, 0
  {
    match node
    case Occurrence(b) => if b.name in locals then {b.position} else {}
    case LambdaNode(parameters, body) =>
      PositionsOf(parameters) + if body.Some? then Marked(body.value, locals + NamesOf(parameters)) else {}
    case Assignment(value, binders) => PositionsOf(binders) + if value.Some? then Marked(value.value, locals) else {}
    case Other(children) => MarkedAll(children, locals)
  }

  function MarkedAll(nodes: seq<Node>, locals: set<string>): set<int>
    decreases nodes, 0
  {
    if nodes == [] then {} else Marked(nodes[0], locals) + MarkedAll(nodes[1..], locals + Declares(nodes[0]))
  }

  /**
   * One step of the walk.  A lambda works on a clone of the locals, so that nothing it declares is seen outside; every
   * other node works on the map it was given, so that what it declares is seen by all that follows.
   */
  method Walk(node: Node, locals: Names, positions: Positions)
    modifies locals, positions
    ensures positions.marked == old(positions.marked) + Marked(node, old(locals.names))
    ensures locals.names == old(locals.names) + Declares(node)
    decreases node, 0
  {
    match node {
      case LambdaNode(parameters, body) =>
        var inner := new Names(locals.names);
        Bind(parameters, inner, positions);
        if body.Some? {
          Walk(body.value, inner, positions);
        }
      case Assignment(value, binders) =>
        if value.Some? {
          Walk(value.value, locals, positions);
        }
        Bind(binders, locals, positions);
      case Occurrence(b) =>
        if b.name in locals.names {
          positions.marked := positions.marked + {b.position};
        }
      case Other(children) =>
        WalkAll(children, locals, positions);
    }
  }

  method WalkAll(nodes: seq<Node>, locals: Names, positions: Positions)
    modifies locals, positions
    ensures positions.marked == old(positions.marked) + MarkedAll(nodes, old(locals.names))
    ensures locals.names == old(locals.names) + DeclaresAll(nodes)
    decreases nodes, 0
  {
    for i := 0 to |nodes|
      invariant positions.marked + MarkedAll(nodes[i..], locals.names) ==
                old(positions.marked) + MarkedAll(nodes, old(locals.names))
      invariant locals.names + DeclaresAll(nodes[i..]) == old(locals.names) + DeclaresAll(nodes)
    {
      assert nodes[i..][1..] == nodes[i + 1..];
      Walk(nodes[i], locals, positions);
    }
  }

  method Bind(binds: seq<Bind>, locals: Names, positions: Positions)
    modifies locals, positions
    ensures positions.marked == old(positions.marked) + PositionsOf(binds)
    ensures locals.names == old(locals.names) + NamesOf(binds)
  {
    for i := 0 to |binds|
      invariant positions.marked == old(positions.marked) + PositionsOf(binds[..i])
      invariant locals.names == old(locals.names) + NamesOf(binds[..i])
    {
      assert binds[..i + 1] == binds[..i] + [binds[i]];
      locals.names := locals.names + {binds[i].name};
      positions.marked := positions.marked + {binds[i].position};
    }
    assert binds[..|binds|] == binds;
  }

  // ---------------------------------------------------------------- the walk marks what belongs to lambdas

  lemma {:induction false} MarkedIsBelongs(node: Node, outer: set<string>, position: int)
    ensures position in Marked(node, outer) <==> Belongs(node, outer, position)
    decreases node, 1
  {
    match node {
      case Occurrence(b) =>
        assert BelongsAt(node, outer, [], position) <==> position in Marked(node, outer);
      case LambdaNode(parameters, body) =>
        LambdaMarks(node, outer, position);
      case Assignment(value, binders) =>
        AssignmentMarks(node, outer, position);
      case Other(children) =>
        ChildrenMarks(children, outer, position);
        if position in MarkedAll(children, outer) {
          var i, path :| ChildBelongs(children, outer, i, path, position);
          OtherStep(children, outer, i, path, position);
        }
        if Belongs(node, outer, position) {
          var path :| BelongsAt(node, outer, path, position);
          assert [path[0]] + path[1..] == path;
          OtherStep(children, outer, path[0], path[1..], position);
          assert ChildBelongs(children, outer, path[0], path[1..], position);
        }
    }
  }

  lemma {:induction false} LambdaMarks(node: Node, outer: set<string>, position: int)
    requires node.LambdaNode?
    ensures position in Marked(node, outer) <==> Belongs(node, outer, position)
    decreases node, 0
  {
    var inner := outer + NamesOf(node.parameters);
    if position in PositionsOf(node.parameters) {
      assert BelongsAt(node, outer, [], position);
    }
    if node.body.Some? {
      MarkedIsBelongs(node.body.value, inner, position);
      if Belongs(node.body.value, inner, position) {
        var path :| BelongsAt(node.body.value, inner, path, position);
        assert ([0] + path)[1..] == path;
        assert BelongsAt(node, outer, [0] + path, position);
      }
    }
    if Belongs(node, outer, position) && position !in PositionsOf(node.parameters) {
      var path :| BelongsAt(node, outer, path, position);
      assert BelongsAt(node.body.value, inner, path[1..], position);
    }
  }

  lemma {:induction false} AssignmentMarks(node: Node, outer: set<string>, position: int)
    requires node.Assignment?
    ensures position in Marked(node, outer) <==> Belongs(node, outer, position)
    decreases node, 0
  {
    if position in PositionsOf(node.binders) {
      assert BelongsAt(node, outer, [], position);
    }
    if node.value.Some? {
      MarkedIsBelongs(node.value.value, outer, position);
      if Belongs(node.value.value, outer, position) {
        var path :| BelongsAt(node.value.value, outer, path, position);
        assert ([0] + path)[1..] == path;
        assert BelongsAt(node, outer, [0] + path, position);
      }
    }
    if Belongs(node, outer, position) && position !in PositionsOf(node.binders) {
      var path :| BelongsAt(node, outer, path, position);
      assert BelongsAt(node.value.value, outer, path[1..], position);
    }
  }

  lemma OtherStep(children: seq<Node>, outer: set<string>, i: nat, path: seq<nat>, position: int)
    requires i < |children| || BelongsAt(Other(children), outer, [i] + path, position)
    ensures i < |children|
    ensures BelongsAt(Other(children), outer, [i] + path, position) <==>
            BelongsAt(children[i], outer + DeclaresAll(children[..i]), path, position)
  {
    assert ([i] + path)[1..] == path;
  }

  lemma {:induction false} DeclaresPrefix(nodes: seq<Node>, i: nat)
    requires 0 < i <= |nodes|
    ensures DeclaresAll(nodes[..i]) == Declares(nodes[0]) + DeclaresAll(nodes[1..][..i - 1])
  {
    assert nodes[..i][1..] == nodes[1..][..i - 1];
  }

  /** The occurrence belongs to a lambda, seen from child i of a node. */
  predicate ChildBelongs(nodes: seq<Node>, outer: set<string>, i: nat, path: seq<nat>, position: int) {
    i < |nodes| && BelongsAt(nodes[i], outer + DeclaresAll(nodes[..i]), path, position)
  }

  lemma {:induction false} ShiftedChild(nodes: seq<Node>, outer: set<string>, i: nat, path: seq<nat>, position: int)
    requires nodes != []
    ensures ChildBelongs(nodes[1..], outer + Declares(nodes[0]), i, path, position) <==>
            ChildBelongs(nodes, outer, i + 1, path, position)
  {
    if i + 1 < |nodes| {
      DeclaresPrefix(nodes, i + 1);
      assert outer + Declares(nodes[0]) + DeclaresAll(nodes[1..][..i]) == outer + DeclaresAll(nodes[..i + 1]);
    }
  }

  lemma {:induction false} ChildrenMarks(nodes: seq<Node>, outer: set<string>, position: int)
    ensures position in MarkedAll(nodes, outer) <==> exists i, path :: ChildBelongs(nodes, outer, i, path, position)
    decreases nodes, 0
  {
    if nodes != [] {
      var inner := outer + Declares(nodes[0]);
      MarkedIsBelongs(nodes[0], outer, position);
      ChildrenMarks(nodes[1..], inner, position);
      assert outer + DeclaresAll(nodes[..0]) == outer;
      if Belongs(nodes[0], outer, position) {
        var path :| BelongsAt(nodes[0], outer, path, position);
        assert ChildBelongs(nodes, outer, 0, path, position);
      }
      if position in MarkedAll(nodes[1..], inner) {
        var i, path :| ChildBelongs(nodes[1..], inner, i, path, position);
        ShiftedChild(nodes, outer, i, path, position);
      }
      forall i: nat, path | ChildBelongs(nodes, outer, i, path, position) ensures position in MarkedAll(nodes, outer) {
        if i > 0 {
          ShiftedChild(nodes, outer, i - 1, path, position);
        }
      }
    }
  }

  /** An occurrence that lexical scope binds, or a binder of a lambda. */
  ghost predicate LocalAt(root: Node, path: seq<nat>, position: int) {
    match At(root, path)
    case None => false
    case Some(Occurrence(b)) => b.position == position && LexicallyBound(root, path, b.name)
    case Some(part) => BindsAt(part, position)
  }

  lemma BelongsIsLexical(root: Node, position: int)
    ensures Belongs(root, {}, position) <==> exists path :: LocalAt(root, path, position)
  {
    hide At, BoundOn, BindsAt, LexicallyBound;
    forall path ensures BelongsAt(root, {}, path, position) <==> LocalAt(root, path, position) {
      if At(root, path).Some? && At(root, path).value.Occurrence? {
        BoundIsLexical(root, path, At(root, path).value.bind.name);
      }
    }
  }

  /** lambdaLocalBindPositions: exactly what lexical scope binds in lambdas is marked. */
  method LambdaLocalBindPositions(root: Node) returns (marked: set<int>)
    ensures forall position :: position in marked <==> exists path :: LocalAt(root, path, position)
    ensures forall position :: position in marked <==> Belongs(root, {}, position)
  {
    var locals := new Names({});
    var positions := new Positions();
    Walk(root, locals, positions);
    marked := positions.marked;
    forall position
      ensures position in Marked(root, {}) <==> Belongs(root, {}, position)
      ensures Belongs(root, {}, position) <==> exists path :: LocalAt(root, path, position)
    {
      MarkedIsBelongs(root, {}, position);
      BelongsIsLexical(root, position);
    }
  }

  // ---------------------------------------------------------------- the parameters are the free names

  /** All binds of the tree (collectQueryTree); their order does not matter, as the caller sorts them. */
  function Binds(node: Node): seq<Bind>
    decreases node, 0
  {
    match node
    case Occurrence(b) => [b]
    case LambdaNode(parameters, body) => parameters + if body.Some? then Binds(body.value) else []
    case Assignment(value, binders) => binders + if value.Some? then Binds(value.value) else []
    case Other(children) => BindsOfAll(children)
  }

  function BindsOfAll(nodes: seq<Node>): seq<Bind>
    decreases nodes, 0
  {
    if nodes == [] then [] else Binds(nodes[0]) + BindsOfAll(nodes[1..])
  }

  /** The bind is written at the end of a path: as an occurrence, or as one that the node there binds. */
  predicate HoldsAt(node: Node, path: seq<nat>, b: Bind) {
    match At(node, path)
    case Some(Occurrence(c)) => b == c
    case Some(LambdaNode(parameters, _)) => b in parameters
    case Some(Assignment(_, binders)) => b in binders
    case _ => false
  }

  lemma {:induction false} BindsAreHeld(node: Node, b: Bind)
    ensures b in Binds(node) <==> exists path :: HoldsAt(node, path, b)
    decreases node, 1
  {
    match node {
      case Occurrence(c) =>
        assert HoldsAt(node, [], c);
      case LambdaNode(parameters, body) =>
        assert HoldsAt(node, [], b) <==> b in parameters;
        if body.Some? {
          PartIsHeld(node, body.value, b);
        }
      case Assignment(value, binders) =>
        assert HoldsAt(node, [], b) <==> b in binders;
        if value.Some? {
          PartIsHeld(node, value.value, b);
        }
      case Other(children) =>
        ChildrenAreHeld(children, b);
        if b in Binds(node) {
          var i, path :| ChildHolds(children, i, path, b);
          assert ([i] + path)[1..] == path;
          assert HoldsAt(node, [i] + path, b);
        }
        if path :| HoldsAt(node, path, b) {
          assert ChildHolds(children, path[0], path[1..], b);
        }
    }
  }

  /** The body of a lambda and the value of an assignment stand at path 0. */
  lemma {:induction false} PartIsHeld(node: Node, part: Node, b: Bind)
    requires (node.LambdaNode? && node.body == Some(part)) || (node.Assignment? && node.value == Some(part))
    ensures b in Binds(part) <==> exists path :: path != [] && HoldsAt(node, path, b)
    decreases node, 0
  {
    BindsAreHeld(part, b);
    if path :| HoldsAt(part, path, b) {
      assert ([0] + path)[1..] == path;
      assert HoldsAt(node, [0] + path, b);
    }
    if path :| path != [] && HoldsAt(node, path, b) {
      assert HoldsAt(part, path[1..], b);
    }
  }

  predicate ChildHolds(nodes: seq<Node>, i: nat, path: seq<nat>, b: Bind) {
    i < |nodes| && HoldsAt(nodes[i], path, b)
  }

  lemma {:induction false} ChildrenAreHeld(nodes: seq<Node>, b: Bind)
    ensures b in BindsOfAll(nodes) <==> exists i, path :: ChildHolds(nodes, i, path, b)
    decreases nodes, 0
  {
    hide HoldsAt, Binds;
    if nodes != [] {
      BindsAreHeld(nodes[0], b);
      ChildrenAreHeld(nodes[1..], b);
      if path :| HoldsAt(nodes[0], path, b) {
        assert ChildHolds(nodes, 0, path, b);
      }
      if i: nat, path :| ChildHolds(nodes[1..], i, path, b) {
        assert ChildHolds(nodes, i + 1, path, b);
      }
      if i: nat, path :| ChildHolds(nodes, i, path, b) {
        assert i > 0 ==> ChildHolds(nodes[1..], i - 1, path, b);
      }
    }
  }

  /** Every place of the text holds one bind, and every bind has one place in the tree. */
  ghost predicate OnePlaceEach(root: Node) {
    forall p, q, b, c :: HoldsAt(root, p, b) && HoldsAt(root, q, c) && b.position == c.position ==> p == q && b == c
  }

  /** Free in the lexical sense: an occurrence that no lambda around it and no local before it binds. */
  ghost predicate FreeAt(root: Node, path: seq<nat>, b: Bind) {
    At(root, path) == Some(Occurrence(b)) && !LexicallyBound(root, path, b.name)
  }

  lemma BinderIsHeld(root: Node, path: seq<nat>, position: int) returns (b: Bind)
    requires At(root, path).Some? && BindsAt(At(root, path).value, position)
    ensures HoldsAt(root, path, b) && b.position == position && !At(root, path).value.Occurrence?
  {
    var binds := if At(root, path).value.LambdaNode? then At(root, path).value.parameters else At(root, path).value.binders;
    b :| b in binds && b.position == position;
  }

  lemma NothingFreeBelongs(root: Node, path: seq<nat>, b: Bind)
    requires OnePlaceEach(root) && FreeAt(root, path, b)
    ensures !Belongs(root, {}, b.position)
  {
    hide At, BoundOn, BindsAt, LexicallyBound;
    assert HoldsAt(root, path, b);
    BoundIsLexical(root, path, b.name);
    forall other ensures !BelongsAt(root, {}, other, b.position) {
      if At(root, other).Some? {
        if At(root, other).value.Occurrence? {
          assert HoldsAt(root, other, At(root, other).value.bind);
        } else if BindsAt(At(root, other).value, b.position) {
          var c := BinderIsHeld(root, other, b.position);
        }
      }
    }
  }

  /** With one place for each bind, what belongs to no lambda is exactly what is free. */
  lemma FreeBelongsNowhere(root: Node, b: Bind)
    requires OnePlaceEach(root) && b in Binds(root)
    ensures !Belongs(root, {}, b.position) <==> exists path :: FreeAt(root, path, b)
  {
    hide At, BoundOn, Binds, LexicallyBound;
    if path :| FreeAt(root, path, b) {
      NothingFreeBelongs(root, path, b);
    }
    if !Belongs(root, {}, b.position) {
      BindsAreHeld(root, b);
      var path :| HoldsAt(root, path, b);
      assert !BelongsAt(root, {}, path, b.position);
      BoundIsLexical(root, path, b.name);
      assert FreeAt(root, path, b);
    }
  }

  /** A free occurrence that no local of the script takes: its name is not that of a local, or it stands in a DECLARE. */
  ghost predicate IsFree(root: Node, path: seq<nat>, b: Bind, ownLocals: set<int>, k: Knowledge) {
    && FreeAt(root, path, b) && b.position !in ownLocals
    && (b.name !in k.localNames || b.position in k.declarationPositions)
  }

  lemma ExternalIsFree(root: Node, ownLocals: set<int>, k: Knowledge, b: Bind)
    requires OnePlaceEach(root) && b in Binds(root)
    requires forall position :: position in k.localPositions <==> position in ownLocals || Belongs(root, {}, position)
    ensures IsExternal(b, k) <==> exists path :: IsFree(root, path, b, ownLocals, k)
  {
    hide Belongs, FreeAt, Binds;
    FreeBelongsNowhere(root, b);
    if IsExternal(b, k) {
      var path :| FreeAt(root, path, b);
      assert IsFree(root, path, b, ownLocals, k);
    }
  }

  /** The parameters of a query are its free names. */
  lemma ParametersAreTheFreeNames(root: Node, ownLocals: set<int>, k: Knowledge)
    requires OnePlaceEach(root)
    requires forall position :: position in k.localPositions <==> position in ownLocals || Belongs(root, {}, position)
    ensures forall name ::
              name in FirstNames(Sort(AtMost, Binds(root)), k) <==>
              exists path, b :: IsFree(root, path, b, ownLocals, k) && b.name == name
  {
    hide Belongs, FirstNames, Binds, InFirstOrder, ListedTypes, FreeAt, IsExternal, IsFree;
    ParametersAreTheExternalNames(Binds(root), k);
    forall b | b in Binds(root) ensures IsExternal(b, k) <==> exists path :: IsFree(root, path, b, ownLocals, k) {
      ExternalIsFree(root, ownLocals, k, b);
    }
    forall path, b | IsFree(root, path, b, ownLocals, k) ensures b in Binds(root) {
      FreeIsHeld(root, path, b, ownLocals, k);
    }
    var names := FirstNames(Sort(AtMost, Binds(root)), k);
    forall name | name in names ensures exists path, b :: IsFree(root, path, b, ownLocals, k) && b.name == name {
      var b :| b in Binds(root) && IsExternal(b, k) && b.name == name;
      var path :| IsFree(root, path, b, ownLocals, k);
    }
  }

  lemma FreeIsHeld(root: Node, path: seq<nat>, b: Bind, ownLocals: set<int>, k: Knowledge)
    requires IsFree(root, path, b, ownLocals, k)
    ensures b in Binds(root)
  {
    hide LexicallyBound, Binds, At;
    assert HoldsAt(root, path, b);
    BindsAreHeld(root, b);
  }
}
