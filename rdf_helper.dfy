/**
 * `traverseDownAndAggregate` (helpers/RdfHelper.js): follow a path of
 * property names down a parsed xml2js tree, keeping every node reached and
 * splicing in the elements of arrays one level deep.
 */
module RdfHelper {
  import opened Wrappers
  import opened JsValue

  /** The TypeError of `step in node` when `node` is not an object. */
  datatype TraverseError = InOnPrimitive(step: string, node: Node)

  /**
   * What one working node adds to the next working list: nothing when it
   * lacks `step`, the elements of the child when the child is an array, and
   * the child itself otherwise.
   */
  function Contribution(node: Node, step: string): Result<seq<Node>, TraverseError> {
    if IsPrimitive(node) then Err(InOnPrimitive(step, node))
    else
      match OwnProperty(node, step)
      case None => Ok([])
      case Some(Arr(items)) => Ok(items)
      case Some(child) => Ok([child])
  }

  /**
   * One step over the whole working list, in order: the contributions of
   * the nodes concatenated, or the error of the first primitive node.
   */
  function Step(stack: seq<Node>, step: string): (r: Result<seq<Node>, TraverseError>)
    ensures r.Err? <==> exists k :: 0 <= k < |stack| && IsPrimitive(stack[k])
    ensures r.Err? ==> exists k :: 0 <= k < |stack| && IsPrimitive(stack[k]) && r.error == InOnPrimitive(step, stack[k])
                                   && forall j :: 0 <= j < k ==> !IsPrimitive(stack[j])
  {
    if stack == [] then Ok([])
    else
      var init := stack[..|stack| - 1];
      var last := stack[|stack| - 1];
      assert forall k :: 0 <= k < |init| ==> init[k] == stack[k];
      match Step(init, step)
      case Err(e) => Err(e)
      case Ok(front) =>
        match Contribution(last, step)
        case Err(e) => Err(e)
        case Ok(more) => Ok(front + more)
  }

  /**
   * The remaining steps from a working list: stop with `[]` as soon as a
   * step leaves nothing.
   */
  function Walk(stack: seq<Node>, path: seq<string>): Result<seq<Node>, TraverseError>
    decreases |path|
  {
    if path == [] then Ok(stack)
    else
      match Step(stack, path[0])
      case Err(e) => Err(e)
      case Ok(next) => if next == [] then Ok([]) else Walk(next, path[1..])
  }

  /** `traverseDownAndAggregate(root, path)` */
  function Traverse(root: Node, path: seq<string>): (r: Result<seq<Node>, TraverseError>)
    ensures !Truthy(root) ==> r == Ok([])
    ensures Truthy(root) && path == [] ==> r == Ok([root])
  {
    if !Truthy(root) then Ok([]) else Walk([root], path)
  }

  /** Sequential composition of two results of a step, the first error winning. */
  function Combine(a: Result<seq<Node>, TraverseError>, b: Result<seq<Node>, TraverseError>): Result<seq<Node>, TraverseError> {
    match a
    case Err(e) => Err(e)
    case Ok(x) => match b
      case Err(e) => Err(e)
      case Ok(y) => Ok(x + y)
  }

  /** A step over two working lists in a row is the two steps concatenated. */
  lemma {:induction false} StepConcat(a: seq<Node>, b: seq<Node>, step: string)
    ensures Step(a + b, step) == Combine(Step(a, step), Step(b, step))
  {
    if b == [] {
      assert a + b == a;
      match Step(a, step) {
        case Ok(x) => assert x + [] == x;
        case Err(_) =>
      }
    } else {
      var b' := b[..|b| - 1];
      var last := b[|b| - 1];
      StepConcat(a, b', step);
      assert (a + b)[..|a + b| - 1] == a + b';
      assert (a + b)[|a + b| - 1] == last;
      StepUnfold(a + b, step);
      StepUnfold(b, step);
      match (Step(a, step), Step(b', step), Contribution(last, step)) {
        case (Ok(x), Ok(y), Ok(z)) => assert (x + y) + z == x + (y + z);
        case _ =>
      }
    }
  }

  /** A non-empty working list: the step over all but the last node, then the last node. */
  lemma StepUnfold(s: seq<Node>, step: string)
    requires s != []
    ensures Step(s, step) == Combine(Step(s[..|s| - 1], step), Contribution(s[|s| - 1], step))
  {
  }

  lemma StepSingleton(n: Node, step: string)
    ensures Step([n], step) == Contribution(n, step)
  {
    assert [n][..0] == [];
    match Contribution(n, step) {
      case Ok(y) => assert [] + y == y;
      case Err(_) =>
    }
  }

  /** The number of nodes `node` adds for `step`, read off the tree directly. */
  function ChildCount(node: Node, step: string): nat {
    match OwnProperty(node, step)
    case None => 0
    case Some(child) => if child.Arr? then |child.items| else 1
  }

  function ChildCountSum(stack: seq<Node>, step: string): nat {
    if stack == [] then 0 else ChildCountSum(stack[..|stack| - 1], step) + ChildCount(stack[|stack| - 1], step)
  }

  /** The length of a step's output is the sum of the children counts. */
  lemma {:induction false} StepLength(stack: seq<Node>, step: string)
    requires Step(stack, step).Ok?
    ensures |Step(stack, step).value| == ChildCountSum(stack, step)
  {
    if stack != [] {
      StepLength(stack[..|stack| - 1], step);
    }
  }

  /** Nothing can be reached from an empty working list, and nothing throws. */
  lemma {:induction false} WalkEmpty(path: seq<string>)
    ensures Walk([], path) == Ok([])
  {
    if path != [] {
      assert Step([], path[0]) == Ok([]);
    }
  }

  /** Walking `p + q` is walking `p`, then walking `q` from what `p` reached. */
  lemma {:induction false} WalkConcat(stack: seq<Node>, p: seq<string>, q: seq<string>)
    ensures Walk(stack, p + q) == match Walk(stack, p) case Err(e) => Err(e) case Ok(mid) => Walk(mid, q)
    decreases |p|
  {
    if p == [] {
      assert p + q == q;
    } else {
      assert (p + q)[0] == p[0];
      assert (p + q)[1..] == p[1..] + q;
      match Step(stack, p[0])
      case Err(_) =>
      case Ok(next) =>
        if next == [] {
          WalkEmpty(q);
        } else {
          WalkConcat(next, p[1..], q);
        }
    }
  }

  /**
   * Prefix composition: traversing `p + [s]` is one more step `s` over the
   * non-empty result of traversing `p`, its error included.
   */
  lemma TraverseSnoc(root: Node, p: seq<string>, s: string)
    requires Traverse(root, p).Ok? && Traverse(root, p).value != []
    ensures Traverse(root, p + [s]) == Step(Traverse(root, p).value, s)
  {
    WalkConcat([root], p, [s]);
  }

  /** Once a prefix of the path reaches nothing, the rest of the path is never looked at. */
  lemma TraverseEarlyExit(root: Node, p: seq<string>, q: seq<string>)
    requires Traverse(root, p) == Ok([])
    ensures Traverse(root, p + q) == Ok([])
  {
    if Truthy(root) {
      WalkConcat([root], p, q);
      WalkEmpty(q);
    }
  }

  /** A path whose first key the object does not have reaches nothing. */
  lemma TraverseMissingKey(root: Node, path: seq<string>)
    requires root.Obj? && path != [] && path[0] !in root.props
    ensures Traverse(root, path) == Ok([])
  {
    StepSingleton(root, path[0]);
  }

  /** The imperative original: a working list rebuilt step by step, with an early break. */
  method TraverseDownAndAggregate(root: Node, path: seq<string>) returns (r: Result<seq<Node>, TraverseError>)
    ensures r == Traverse(root, path)
  {
    if !Truthy(root) {
      return Ok([]);
    }
    var stack := [root];
    var i := 0;
    while i < |path|
      invariant 0 <= i <= |path|
      invariant Walk(stack, path[i..]) == Traverse(root, path)
    {
      var step := path[i];
      var newStack := [];
      var j := 0;
      while j < |stack|
        invariant 0 <= j <= |stack|
        invariant Step(stack[..j], step) == Ok(newStack)
      {
        var node := stack[j];
        assert stack[..j + 1] == stack[..j] + [node];
        StepConcat(stack[..j], [node], step);
        StepSingleton(node, step);
        if IsPrimitive(node) {
          StepConcat(stack[..j + 1], stack[j + 1..], step);
          assert stack[..j + 1] + stack[j + 1..] == stack;
          return Err(InOnPrimitive(step, node));
        }
        match OwnProperty(node, step) {
          case None =>
            assert Contribution(node, step) == Ok([]);
            assert newStack + [] == newStack;
          case Some(child) =>
            if child.Arr? {
              assert Contribution(node, step) == Ok(child.items);
              newStack := newStack + child.items;
            } else {
              assert Contribution(node, step) == Ok([child]);
              newStack := newStack + [child];
            }
        }
        j := j + 1;
      }
      assert stack[..j] == stack;
      assert path[i..][0] == step && path[i..][1..] == path[i + 1..];
      stack := newStack;
      if |stack| == 0 {
        break;
      }
      i := i + 1;
    }
    return Ok(stack);
  }
}
