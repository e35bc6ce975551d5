/** The nested generator of include/util/generator.hpp. A generator body yields values, and may
    hand over to another generator with co_yield elements_of(...); the library runs such a tree
    of coroutines through links between their promises. Here the links are the real thing and a
    body is data: what the coroutine still has to do. */
module Generator {

  import opened Wrappers

  type Error = int

  /** What is left of a coroutine body. Moved is elements_of on a moved-from generator. Guarded is
      elements_of inside a try block: an error that comes out of the inner generator continues
      with the handler. */
  datatype Body<T> =
    | End
    | Throw(error: Error)
    | Yield(value: T, rest: Body<T>)
    | Moved(rest: Body<T>)
    | Elements(inner: Body<T>, rest: Body<T>)
    | Guarded(inner: Body<T>, handler: Body<T>, rest: Body<T>)
  {
    predicate Nests() { Elements? || Guarded? }
  }

  datatype Result<T> = Result(values: seq<T>, thrown: Option<Error>)

  /** The in-order flattening of a tree of bodies, up to an error nobody catches. */
  function Flatten<T>(b: Body<T>): Result<T> {
    match b
    case End => Result([], None)
    case Throw(error) => Result([], Some(error))
    case Yield(value, rest) => Prepend([value], Flatten(rest))
    case Moved(rest) => Flatten(rest)
    case Elements(inner, rest) =>
      var r := Flatten(inner);
      if r.thrown.Some? then r else Prepend(r.values, Flatten(rest))
    case Guarded(inner, handler, rest) =>
      var r := Flatten(inner);
      Prepend(r.values, if r.thrown.Some? then Flatten(handler) else Flatten(rest))
  }

  function Prepend<T>(values: seq<T>, r: Result<T>): Result<T> {
    r.(values := values + r.values)
  }

  /** An error in an inner generator ends the outer one, behind the values so far; inside a try block it
      continues with the handler, and without an error with the rest. */
  lemma ErrorsEndOrAreHandled(handled: Body<int>)
    ensures var inner, rest: Body<int> := Yield(2, Throw(7)), Yield(4, End);
      && Flatten(Yield(1, Elements(inner, rest))) == Result([1, 2], Some(7))
      && Flatten(Yield(1, Guarded(inner, Yield(3, End), rest))) == Result([1, 2, 3], None)
      && Flatten(Yield(1, Guarded(Yield(2, End), handled, rest))) == Result([1, 2, 4], None)
      && Flatten(Elements(Moved(Yield(2, End)), rest)) == Result([2, 4], None)
  {
    var inner: Body<int>, rest: Body<int> := Yield(2, End), Yield(4, End);
    assert Flatten(inner) == Result([2], None) && Flatten(rest) == Result([4], None);
    assert Flatten(Guarded(inner, handled, rest)) == Result([2, 4], None);
  }

  function Size<T>(b: Body<T>): nat {
    match b
    case End => 1
    case Throw(_) => 1
    case Yield(_, rest) => 1 + Size(rest)
    case Moved(rest) => 1 + Size(rest)
    case Elements(inner, rest) => 1 + Size(inner) + Size(rest)
    case Guarded(inner, handler, rest) => 1 + Size(inner) + Size(handler) + Size(rest)
  }

  // ---------------------------------------------------------------- a stack of bodies as one body

  function WithInner<T>(b: Body<T>, inner: Body<T>): Body<T>
    requires b.Nests()
  {
    match b
    case Elements(_, rest) => Elements(inner, rest)
    case Guarded(_, handler, rest) => Guarded(inner, handler, rest)
  }

  /** A body suspended at elements_of, once the inner generator is over. */
  function Continue<T>(b: Body<T>, thrown: Option<Error>): Body<T>
    requires b.Nests()
  {
    match b
    case Elements(_, rest) => if thrown.Some? then Throw(thrown.value) else rest
    case Guarded(_, handler, rest) => if thrown.Some? then handler else rest
  }

  ghost predicate AllNestButLast<T>(bodies: seq<Body<T>>) {
    bodies != [] && forall k :: 0 <= k < |bodies| - 1 ==> bodies[k].Nests()
  }

  /** The root body with what is left of the inner generators in place. */
  ghost function Whole<T>(bodies: seq<Body<T>>): Body<T>
    requires AllNestButLast(bodies)
  {
    if |bodies| == 1 then bodies[0] else WithInner(bodies[0], Whole(bodies[1..]))
  }

  ghost function Replaced<T>(bodies: seq<Body<T>>, b: Body<T>): seq<Body<T>>
    requires bodies != []
  {
    bodies[..|bodies| - 1] + [b]
  }

  /** Replacing the innermost body by one that yields the same after some first values. */
  lemma {:induction false} ReplaceTop<T>(bodies: seq<Body<T>>, b: Body<T>, first: seq<T>)
    requires AllNestButLast(bodies)
    requires Flatten(bodies[|bodies| - 1]) == Prepend(first, Flatten(b))
    ensures AllNestButLast(Replaced(bodies, b))
    ensures Flatten(Whole(bodies)) == Prepend(first, Flatten(Whole(Replaced(bodies, b))))
    ensures Size(Whole(bodies)) - Size(bodies[|bodies| - 1]) == Size(Whole(Replaced(bodies, b))) - Size(b)
    decreases |bodies|
  {
    hide Flatten, Size;
    ReplacedNests(bodies, b);
    if |bodies| > 1 {
      ReplacedRest(bodies, b);
      ReplaceTop(bodies[1..], b, first);
      InnerAdvances(bodies[0], Whole(bodies[1..]), Whole(Replaced(bodies[1..], b)), first);
    }
  }

  lemma ReplacedRest<T>(bodies: seq<Body<T>>, b: Body<T>)
    requires AllNestButLast(bodies) && |bodies| > 1
    ensures AllNestButLast(bodies[1..]) && bodies[1..][|bodies| - 2] == bodies[|bodies| - 1]
    ensures Replaced(bodies, b)[1..] == Replaced(bodies[1..], b) && Replaced(bodies, b)[0] == bodies[0]
  {
  }

  lemma ReplacedNests<T>(bodies: seq<Body<T>>, b: Body<T>)
    requires AllNestButLast(bodies)
    ensures AllNestButLast(Replaced(bodies, b))
  {
  }

  /** What an inner body yields first, the body around it yields first. */
  lemma InnerAdvances<T>(outer: Body<T>, was: Body<T>, now: Body<T>, first: seq<T>)
    requires outer.Nests() && Flatten(was) == Prepend(first, Flatten(now))
    ensures Flatten(WithInner(outer, was)) == Prepend(first, Flatten(WithInner(outer, now)))
    ensures Size(WithInner(outer, was)) - Size(was) == Size(WithInner(outer, now)) - Size(now)
  {
    var r := Flatten(now);
    PrependTwice(first, r.values, Flatten(Continue(outer, r.thrown)));
  }

  lemma PrependTwice<T>(a: seq<T>, b: seq<T>, r: Result<T>)
    ensures Prepend(a, Prepend(b, r)) == Prepend(a + b, r)
  {
    assert a + (b + r.values) == a + b + r.values;
  }

  /** Entering the inner generator changes nothing. */
  lemma {:induction false} PushInner<T>(bodies: seq<Body<T>>)
    requires AllNestButLast(bodies) && bodies[|bodies| - 1].Nests()
    ensures AllNestButLast(bodies + [bodies[|bodies| - 1].inner])
    ensures Whole(bodies + [bodies[|bodies| - 1].inner]) == Whole(bodies)
    decreases |bodies|
  {
    var more := bodies + [bodies[|bodies| - 1].inner];
    if |bodies| > 1 {
      PushInner(bodies[1..]);
      assert more[1..] == bodies[1..] + [bodies[|bodies| - 1].inner];
    } else {
      assert more[1..] == [bodies[0].inner];
    }
  }

  /** Leaving an inner generator that is over, with or without an error. */
  lemma {:induction false} PopInner<T>(bodies: seq<Body<T>>, thrown: Option<Error>)
    requires AllNestButLast(bodies) && |bodies| > 1
    requires bodies[|bodies| - 1] == match thrown case None => End case Some(error) => Throw(error)
    ensures var outer := bodies[..|bodies| - 1];
      var after := Replaced(outer, Continue(outer[|outer| - 1], thrown));
      && AllNestButLast(after)
      && Flatten(Whole(after)) == Flatten(Whole(bodies))
      && Size(Whole(after)) < Size(Whole(bodies))
    decreases |bodies|
  {
    var outer := bodies[..|bodies| - 1];
    var after := Replaced(outer, Continue(outer[|outer| - 1], thrown));
    if |bodies| > 2 {
      PopInner(bodies[1..], thrown);
      assert bodies[1..][..|bodies| - 2] == outer[1..];
      assert after[1..] == Replaced(outer[1..], Continue(outer[|outer| - 1], thrown));
    } else {
      assert bodies[1..] == [bodies[1]];
      var r := Flatten(Continue(bodies[0], thrown));
      assert [] + r.values == r.values;
    }
  }

  /** A root that is over. */
  lemma OnlyBody<T>(b: Body<T>, thrown: Option<Error>)
    requires b == match thrown case None => End case Some(error) => Throw(error)
    ensures AllNestButLast([b]) && Flatten(Whole([b])) == Result([], thrown)
  {
  }

  lemma OuterNests<T>(bodies: seq<Body<T>>)
    requires AllNestButLast(bodies) && |bodies| > 1
    ensures AllNestButLast(bodies[..|bodies| - 1]) && bodies[|bodies| - 2].Nests()
  {
  }

  // ---------------------------------------------------------------- promises and their links

  /** Lives in the frame of a coroutine suspended at elements_of. */
  class NestInfo<T> {
    var except: Option<Error>
    var parent: Promise<T>
    var root: Promise<T>
    ghost const level: nat

    constructor (parent: Promise<T>, root: Promise<T>, ghost level: nat)
      ensures this.parent == parent && this.root == root && except == None && this.level == level
    {
      this.parent, this.root, except, this.level := parent, root, None, level;
    }
  }

  /** The promise of a coroutine, with what is left of its body and the NestInfo in its frame. */
  class Promise<T> {
    var top: Promise<T>
    var ptr: Option<T>
    var info: NestInfo?<T>
    var awaiting: NestInfo?<T>
    var body: Body<T>
    var done: bool
    ghost const level: nat

    constructor (body: Body<T>, ghost level: nat)
      ensures this.body == body && top == this && info == null && awaiting == null && !done && this.level == level
    {
      this.body, top, ptr, info, awaiting, done, this.level := body, this, None, null, null, false, level;
    }
  }

  /** `outer` waits at elements_of for `inner`, which knows the way back. */
  ghost predicate Linked<T>(root: Promise<T>, outer: Promise<T>, inner: Promise<T>, link: NestInfo<T>)
    reads outer`awaiting, outer`done, inner`info, inner`done, link`parent, link`root
  {
    && inner.info == link
    && link.parent == outer && link.root == root
    && outer.awaiting == link
    && !outer.done && !inner.done
  }

  lemma NewLink<T>(root: Promise<T>, outer: Promise<T>, inner: Promise<T>, link: NestInfo<T>)
    requires inner.info == link && link.parent == outer && link.root == root
    requires outer.awaiting == link && !outer.done && !inner.done
    ensures Linked(root, outer, inner, link)
  {
  }

  lemma LinkedIsUnderWay<T>(root: Promise<T>, outer: Promise<T>, inner: Promise<T>, link: NestInfo<T>)
    requires Linked(root, outer, inner, link)
    ensures !outer.done && !inner.done
  {
  }

  datatype Stop = Suspended | Returned | Threw(error: Error)

  /** A generator object. `stack` lists the coroutines under way, root first; `infos[k]` is the
      link from `stack[k + 1]` back to `stack[k]`. */
  class Generator<T> {
    var coro: Promise<T>
    ghost var stack: seq<Promise<T>>
    ghost var infos: seq<NestInfo<T>>
    ghost var repr: set<object>

    /** The stack of coroutines and its links: from the top of the root, parent by parent, back to
        the root, which every link names. */
    ghost predicate Chained()
      reads this, repr
    {
      && |stack| == |infos| + 1
      && (forall k :: 0 <= k < |stack| ==> stack[k] in repr)
      && (forall k :: 0 <= k < |infos| ==> infos[k] in repr)
      && (forall k :: 0 <= k < |stack| ==> stack[k].level == k)
      && (forall k :: 0 <= k < |infos| ==> infos[k].level == k)
      && stack[0] == coro && coro.info == null
      && coro.top == stack[|stack| - 1]
      && AllNestButLast(Bodies())
      && (forall k :: 0 <= k < |infos| - 1 ==> infos[k].except == None)
      && (forall k :: 0 <= k < |infos| ==> Linked(coro, stack[k], stack[k + 1], infos[k]))
    }

    ghost predicate Valid()
      reads this, repr
    {
      && Chained()
      && coro.top.awaiting == null
      && (infos != [] ==> infos[|infos| - 1].except == None)
      && (coro.done ==> |stack| == 1 && coro.body == End)
    }

    ghost function Bodies(): (bodies: seq<Body<T>>)
      requires forall k :: 0 <= k < |stack| ==> stack[k] in repr
      reads this, repr
      ensures |bodies| == |stack|
      ensures forall k :: 0 <= k < |stack| ==> bodies[k] == stack[k].body
    {
      seq(|stack|, k requires 0 <= k < |stack| && stack[k] in repr reads this, repr => stack[k].body)
    }

    ghost function Remaining(): Body<T>
      requires Valid()
      reads this, repr
    {
      Whole(Bodies())
    }

    constructor (body: Body<T>)
      ensures Valid() && Remaining() == body && !coro.done
      ensures fresh(repr)
    {
      coro := new Promise(body, 0);
      stack := [];
      infos := [];
      repr := {};
      new;
      stack := [coro];
      repr := {coro};
    }

    /** _Nested_awaitable::await_suspend: the inner generator becomes the top of the root. */
    method AwaitSuspend(current: Promise<T>) returns (target: Promise<T>)
      requires Valid() && current == coro.top && !coro.done && current.body.Nests()
      modifies this, repr
      ensures Valid() && coro == old(coro) && !coro.done && coro.top == target
      ensures stack == old(stack) + [target] && fresh(repr - old(repr))
      ensures Bodies() == old(Bodies()) + [old(current.body.inner)]
    {
      hide AllNestButLast, Linked, Bodies, Flatten, Size, Whole;
      var root := RootOf(current);
      var nested;
      target, nested := NestUnder(current, root, current.body.inner, |stack|);
      KeepInFrame(current, nested);
      PushInner(Bodies());
      Enter(current, target, nested, Bodies() + [target.body]);
    }

    /** The inner coroutine and the awaitable that links it. */
    static method NestUnder(parent: Promise<T>, root: Promise<T>, body: Body<T>, ghost level: nat)
      returns (target: Promise<T>, nested: NestInfo<T>)
      requires level > 0
      ensures fresh(target) && fresh(nested)
      ensures target.level == level && target.body == body && target.info == nested
      ensures target.awaiting == null && !target.done
      ensures nested.level == level - 1
      ensures nested.parent == parent && nested.root == root && nested.except == None
    {
      target := new Promise(body, level);
      nested := new NestInfo(parent, root, level - 1);
      target.info := nested;
    }

    /** The root that the links of the running coroutine name. */
    method RootOf(current: Promise<T>) returns (root: Promise<T>)
      requires Valid() && current == coro.top
      ensures root == coro
    {
      ghost var n := |infos|;
      assert current == stack[n];
      if n > 0 { assert Linked(coro, stack[n - 1], current, infos[n - 1]); }
      root := if current.info != null then current.info.root else current;
    }

    /** The awaitable lives in the frame of the coroutine that waits. */
    method KeepInFrame(current: Promise<T>, nested: NestInfo<T>)
      requires Valid() && current == coro.top
      modifies current`awaiting
      ensures Chained() && current.awaiting == nested
      ensures infos != [] ==> infos[|infos| - 1].except == None
      ensures Bodies() == old(Bodies())
    {
      hide AllNestButLast;
      current.awaiting := nested;
      assert Bodies() == old(Bodies());
    }

    method Enter(current: Promise<T>, target: Promise<T>, nested: NestInfo<T>, ghost bodies: seq<Body<T>>)
      requires Chained() && current == coro.top && !coro.done
      requires bodies == Bodies() + [target.body] && AllNestButLast(bodies)
      requires current.awaiting == nested && (infos != [] ==> infos[|infos| - 1].except == None)
      requires target !in repr && target.level == |stack|
      requires target.info == nested && target.awaiting == null && !target.done
      requires nested !in repr && nested.level == |infos|
      requires nested.parent == current && nested.root == coro && nested.except == None
      modifies this, coro
      ensures Valid() && coro == old(coro) && !coro.done && coro.top == target
      ensures stack == old(stack) + [target] && repr == old(repr) + {target, nested}
      ensures Bodies() == bodies
    {
      hide AllNestButLast, Whole, Flatten, Size, Bodies, Linked;
      ghost var n := |infos|;
      if n > 0 { LinkedIsUnderWay(coro, stack[n - 1], current, infos[n - 1]); }
      NewLink(coro, current, target, nested);
      nested.root.top := target;
      stack, infos, repr := stack + [target], infos + [nested], repr + {target, nested};
      assert Bodies() == bodies;
    }

    /** unhandled_exception in an inner coroutine: the error is kept for the parent. */
    method UnhandledException(current: Promise<T>, error: Error)
      requires Valid() && current == coro.top && |stack| > 1 && current.info != null
      modifies infos[|infos| - 1]
      ensures Chained() && infos[|infos| - 1].except == Some(error)
      ensures Bodies() == old(Bodies())
    {
      hide AllNestButLast;
      assert Linked(coro, stack[|infos| - 1], current, infos[|infos| - 1]);
      current.info.except := Some(error);
      assert Bodies() == old(Bodies());
      forall k | 0 <= k < |infos| - 1 ensures infos[k].except == None {
        assert infos[k].level == k;
      }
      forall k | 0 <= k < |infos| ensures Linked(coro, stack[k], stack[k + 1], infos[k]) {
        assert old(Linked(coro, stack[k], stack[k + 1], infos[k]));
      }
    }

    /** _Final_awaiter at the end of an inner coroutine: the parent becomes the top of the root. */
    method FinalSuspend(current: Promise<T>) returns (cont: Promise<T>)
      requires Chained() && current == coro.top && !coro.done && |stack| > 1
      modifies this, current, coro
      ensures Chained() && coro == old(coro) && !coro.done && repr == old(repr)
      ensures cont == coro.top && cont.awaiting == old(infos[|infos| - 1]) && cont.body.Nests()
      ensures infos != [] ==> infos[|infos| - 1].except == None
      ensures stack == old(stack)[..|old(stack)| - 1]
      ensures Bodies() == old(Bodies())[..|old(stack)| - 1]
    {
      hide AllNestButLast, Bodies;
      ghost var n := |infos|;
      assert Linked(coro, stack[n - 1], current, infos[n - 1]);
      assert n > 1 ==> Linked(coro, stack[n - 2], stack[n - 1], infos[n - 2]);
      OuterNests(Bodies());
      cont := current.info.parent;
      current.info.root.top := cont;
      current.info := null;
      current.done := true;
      stack, infos := stack[..n], infos[..n - 1];
      assert Bodies() == old(Bodies())[..n];
      forall k | 0 <= k < n - 1 ensures Linked(coro, stack[k], stack[k + 1], infos[k]) {
        assert old(Linked(coro, stack[k], stack[k + 1], infos[k]));
      }
    }

    /** await_resume in the parent: rethrows a stored error, or goes on after the elements_of. */
    method AwaitResume(current: Promise<T>)
      requires Chained() && current == coro.top && !coro.done
      requires current.awaiting != null && current.body.Nests()
      requires infos != [] ==> infos[|infos| - 1].except == None
      modifies current
      ensures Valid() && !coro.done
      ensures Bodies() == Replaced(old(Bodies()), Continue(old(current.body), old(current.awaiting.except)))
    {
      hide AllNestButLast;
      ghost var n, bodies := |infos|, Bodies();
      assert n > 0 ==> Linked(coro, stack[n - 1], current, infos[n - 1]);
      ReplacedNests(bodies, Continue(current.body, current.awaiting.except));
      var thrown := current.awaiting.except;
      current.awaiting := null;
      current.body := Continue(current.body, thrown);
      assert Bodies() == Replaced(bodies, current.body);
      forall k | 0 <= k < n ensures Linked(coro, stack[k], stack[k + 1], infos[k]) {
        assert old(Linked(coro, stack[k], stack[k + 1], infos[k]));
      }
    }

    /** The running coroutine goes on to what is left of its body. */
    method StepTop(current: Promise<T>, rest: Body<T>, ghost first: seq<T>)
      requires Valid() && current == coro.top && !coro.done
      requires Flatten(current.body) == Prepend(first, Flatten(rest)) && Size(rest) < Size(current.body)
      modifies current`body
      ensures Valid() && current.body == rest
      ensures old(Flatten(Remaining())) == Prepend(first, Flatten(Remaining()))
      ensures Size(Remaining()) < old(Size(Remaining()))
    {
      hide Flatten, Size, Whole;
      ReplaceTop(Bodies(), rest, first);
      ghost var bodies := Bodies();
      current.body := rest;
      assert Bodies() == Replaced(bodies, rest);
    }

    /** yield_value: the address of the value is left in the promise. */
    method SetPtr(current: Promise<T>, value: T)
      requires Valid() && current == coro.top
      modifies current`ptr
      ensures Valid() && current.ptr == Some(value)
      ensures Bodies() == old(Bodies())
    {
      current.ptr := Some(value);
    }

    /** The end of the running coroutine: the root reports it, any other returns to its parent. */
    method Finish(current: Promise<T>, thrown: Option<Error>) returns (outcome: Option<Stop>)
      requires Valid() && current == coro.top && !coro.done
      requires current.body == match thrown case None => End case Some(error) => Throw(error)
      modifies this, repr
      ensures Valid() && coro == old(coro) && repr == old(repr)
      ensures outcome.None? ==>
        && !coro.done
        && old(Flatten(Remaining())) == Flatten(Remaining()) && Size(Remaining()) < old(Size(Remaining()))
      ensures outcome.Some? ==>
        && coro.done && old(Flatten(Remaining())) == Result([], thrown)
        && outcome.value == match thrown case None => Returned case Some(error) => Threw(error)
    {
      hide Flatten, Size, Whole, AllNestButLast, Bodies;
      ghost var n := |infos|;
      assert current == stack[n];
      if n > 0 { assert Linked(coro, stack[n - 1], current, infos[n - 1]); }
      if current.info == null {
        assert Bodies() == [current.body];
        OnlyBody(current.body, thrown);
        current.done := true;
        current.body := End;
        assert Bodies() == [End];
        OnlyBody<T>(End, None);
        outcome := Some(match thrown case None => Returned case Some(error) => Threw(error));
      } else {
        PopInner(Bodies(), thrown);
        if thrown.Some? {
          UnhandledException(current, thrown.value);
        }
        var cont := FinalSuspend(current);
        AwaitResume(cont);
        outcome := None;
      }
    }

    /** What one uninterrupted piece of a coroutine does: a yield, an entry into an inner generator,
        or its end. */
    method Step() returns (outcome: Option<Stop>)
      requires Valid() && !coro.done
      modifies this, repr
      ensures Valid() && coro == old(coro) && fresh(repr - old(repr))
      ensures var was := old(Flatten(Remaining()));
        match outcome
        case Some(Suspended) =>
          && !coro.done && coro.top.ptr.Some?
          && was == Prepend([coro.top.ptr.value], Flatten(Remaining()))
        case Some(Returned) => coro.done && was == Result([], None)
        case Some(Threw(error)) => coro.done && was == Result([], Some(error))
        case None =>
          && !coro.done && was == Flatten(Remaining())
          && (Size(Remaining()) < old(Size(Remaining())) ||
              (Size(Remaining()) == old(Size(Remaining())) && Size(coro.top.body) < old(Size(coro.top.body))))
    {
      hide Flatten, Size, Whole, AllNestButLast, Linked;
      var current := coro.top;
      var body := current.body;
      assert current == stack[|stack| - 1];
      outcome := None;
      FlattenOne(body);
      match body {
        case Yield(value, rest) =>
          StepTop(current, rest, [value]);
          SetPtr(current, value);
          outcome := Some(Suspended);
        case Moved(rest) =>
          StepTop(current, rest, []);
          NothingFirst(Flatten(Remaining()));
        case Elements(inner, _) =>
          PushInner(Bodies());
          current := AwaitSuspend(current);
        case Guarded(inner, _, _) =>
          PushInner(Bodies());
          current := AwaitSuspend(current);
        case End =>
          outcome := Finish(current, None);
        case Throw(error) =>
          outcome := Finish(current, Some(error));
      }
    }

    /** coroutine_handle::resume on the top of the root: runs until some coroutine yields or the
        root is over. What is left then yields exactly the remaining values. */
    method Resume() returns (outcome: Stop)
      requires Valid() && !coro.done
      modifies this, repr
      ensures Valid() && coro == old(coro) && fresh(repr - old(repr))
      ensures match outcome
        case Suspended =>
          && !coro.done && coro.top.ptr.Some?
          && old(Flatten(Remaining())) == Prepend([coro.top.ptr.value], Flatten(Remaining()))
        case Returned => coro.done && old(Flatten(Remaining())) == Result([], None)
        case Threw(error) => coro.done && old(Flatten(Remaining())) == Result([], Some(error))
    {
      hide Flatten, Size, Whole, Linked;
      var reached: Option<Stop> := None;
      ghost var whole := Flatten(Remaining());
      while reached.None?
        invariant Valid() && coro == old(coro) && fresh(repr - old(repr))
        invariant match reached
          case None => !coro.done && Flatten(Remaining()) == whole
          case Some(Suspended) =>
            && !coro.done && coro.top.ptr.Some?
            && whole == Prepend([coro.top.ptr.value], Flatten(Remaining()))
          case Some(Returned) => coro.done && whole == Result([], None)
          case Some(Threw(error)) => coro.done && whole == Result([], Some(error))
        decreases reached.None?, Size(Remaining()), Size(coro.top.body)
      {
        reached := Step();
      }
      outcome := reached.value;
    }
  }

  lemma NothingFirst<T>(r: Result<T>)
    ensures Prepend([], r) == r
  {
    assert [] + r.values == r.values;
  }

  /** One layer of the flattening and of the size of a body that is not over. */
  lemma FlattenOne<T>(b: Body<T>)
    ensures b.Yield? ==> Flatten(b) == Prepend([b.value], Flatten(b.rest)) && Size(b.rest) < Size(b)
    ensures b.Moved? ==> Flatten(b) == Prepend([], Flatten(b.rest)) && Size(b.rest) < Size(b)
    ensures b.Nests() ==> Size(b.inner) < Size(b)
  {
    if b.Moved? {
      NothingFirst(Flatten(b.rest));
    }
  }

  /** A loop over a generator, from begin() with * and ++ to the end: the values seen, and the error
      that ended the loop if one did. */
  method Collect<T>(g: Generator<T>) returns (values: seq<T>, thrown: Option<Error>)
    requires g.Valid() && !g.coro.done
    modifies g, g.repr
    ensures g.Valid() && g.coro.done
    ensures Result(values, thrown) == old(Flatten(g.Remaining()))
  {
    hide Flatten, Whole, AllNestButLast, Linked;
    ghost var all := Flatten(g.Remaining());
    values := [];
    var outcome := g.Resume();
    while outcome.Suspended?
      invariant g.Valid() && fresh(g.repr - old(g.repr))
      invariant match outcome
        case Suspended =>
          && !g.coro.done && g.coro.top.ptr.Some?
          && all == Prepend(values, Prepend([g.coro.top.ptr.value], Flatten(g.Remaining())))
        case Returned => g.coro.done && all == Result(values, None)
        case Threw(error) => g.coro.done && all == Result(values, Some(error))
      decreases outcome.Suspended?, |Flatten(g.Remaining()).values|
    {
      ghost var rest := Flatten(g.Remaining());
      PrependTwice(values, [g.coro.top.ptr.value], rest);
      values := values + [g.coro.top.ptr.value];
      outcome := g.Resume();
    }
    thrown := if outcome.Threw? then Some(outcome.error) else None;
  }

  /** For every finite tree of bodies, running it sees exactly its flattening. */
  method Run<T>(body: Body<T>) returns (values: seq<T>, thrown: Option<Error>)
    ensures Result(values, thrown) == Flatten(body)
  {
    var g := new Generator(body);
    values, thrown := Collect(g);
  }
}
