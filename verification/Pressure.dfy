/** The pressure analysis as a class over its two fields, and as liveness over the trace of an evaluation. */
module Pressure {
  import opened Words
  import opened Core

  const MAX_TRACKED_DEPTH: nat := 16

  function Max(a: nat, b: nat): nat {
    if a < b then b else a
  }

  /** True when evaluating e emits a call; a system call counts. */
  predicate Calls(e: Expr) {
    match e
    case Literal(_) => false
    case TextLiteral(_) => false
    case Parameter(_) => false
    case Call(_, _, _) => true
    case Syscall(_) => true
    case Concat(_, _) => true
    case Negate(left) => Calls(left)
    case Binary(_, left, right) => Calls(left) || Calls(right)
  }

  /** Whether some argument written at or after position w calls. */
  predicate CallsFrom(e: Expr, w: nat)
    decreases WrittenCount(e) - w
  {
    w < WrittenCount(e) && HasWritten(e, w) && (Calls(Written(e, w)) || CallsFrom(e, w + 1))
  }

  /** How many evaluation depths e uses, counted from its own. */
  function Need(e: Expr): (need: nat)
    ensures need >= 1
    decreases e, 1, 0
  {
    match e
    case Literal(_) => 1
    case TextLiteral(_) => 1
    case Parameter(_) => 1
    case Call(_, _, _) => Max(1, NeedFrom(e, 0))
    case Syscall(_) => Max(1, NeedFrom(e, 0))
    case Negate(left) => Need(left)
    case Concat(left, right) => Max(Need(left), 1 + Need(right))
    case Binary(_, left, right) => Max(Need(left), 1 + Need(right))
  }

  function NeedFrom(e: Expr, w: nat): nat
    decreases e, 0, WrittenCount(e) - w
  {
    if w < WrittenCount(e) && HasWritten(e, w) then Max(w + Need(Written(e, w)), NeedFrom(e, w + 1)) else 0
  }

  /** Depth k holds a value across a call while e is evaluated at depth d. */
  predicate Crosses(e: Expr, d: nat, k: nat)
    decreases e, 1, 0
  {
    match e
    case Literal(_) => false
    case TextLiteral(_) => false
    case Parameter(_) => false
    case Call(_, _, _) => CrossesFrom(e, 0, d, k)
    case Syscall(_) => CrossesFrom(e, 0, d, k)
    case Negate(left) => Crosses(left, d, k)
    case Concat(left, right) => Crosses(left, d, k) || (Calls(right) && k == d) || Crosses(right, d + 1, k)
    case Binary(_, left, right) => Crosses(left, d, k) || (Calls(right) && k == d) || Crosses(right, d + 1, k)
  }

  predicate CrossesFrom(e: Expr, w: nat, d: nat, k: nat)
    decreases e, 0, WrittenCount(e) - w
  {
    w < WrittenCount(e) && HasWritten(e, w)
    && ((Calls(Written(e, w)) && d <= k < d + w)
        || Crosses(Written(e, w), d + w, k)
        || CrossesFrom(e, w + 1, d, k))
  }

  /** A later argument that calls makes every earlier depth cross it. */
  lemma {:induction false} EarlierDepthsCross(e: Expr, w: nat, d: nat, k: nat)
    requires CallsFrom(e, w) && d <= k < d + w
    ensures CrossesFrom(e, w, d, k)
    decreases WrittenCount(e) - w
  {
    if !Calls(Written(e, w)) {
      EarlierDepthsCross(e, w + 1, d, k);
    }
  }

  // ----- what the emitted code does with depths -----

  datatype DepthEvent = Reads(depth: nat) | Writes(depth: nat) | CallHappens

  /** Reads and writes of depth locations, and calls, in the order the code of e performs them. */
  function Trace(e: Expr, d: nat): seq<DepthEvent>
    decreases e, 1, 0
  {
    match e
    case Literal(_) => [Writes(d)]
    case TextLiteral(_) => [Writes(d)]
    case Parameter(_) => [Writes(d)]
    case Call(_, _, _) => TraceFrom(e, 0, d) + (Boundary(WrittenCount(e), d) + [CallHappens, Writes(d)])
    case Syscall(_) => TraceFrom(e, 0, d) + (Boundary(WrittenCount(e), d) + [CallHappens, Writes(d)])
    case Negate(left) => Trace(left, d) + [Reads(d), Writes(d)]
    case Concat(left, right) => Trace(left, d) + (Trace(right, d + 1) + [Reads(d), Reads(d + 1), CallHappens, Writes(d)])
    case Binary(_, left, right) => Trace(left, d) + (Trace(right, d + 1) + [Reads(d), Reads(d + 1), Writes(d)])
  }

  function TraceFrom(e: Expr, w: nat, d: nat): seq<DepthEvent>
    decreases e, 0, WrittenCount(e) - w
  {
    if w < WrittenCount(e) && HasWritten(e, w) then Trace(Written(e, w), d + w) + TraceFrom(e, w + 1, d) else []
  }

  /** Filling the boundary reads every argument's depth. */
  function Boundary(count: nat, d: nat): seq<DepthEvent> {
    if count == 0 then [] else Boundary(count - 1, d) + [Reads(d + count - 1)]
  }

  /** Whether depth k is live before ev, given whether it is live after it. */
  predicate Live(ev: seq<DepthEvent>, k: nat, after: bool) {
    if ev == [] then after
    else
      match ev[0]
      case Reads(j) => j == k || Live(ev[1..], k, after)
      case Writes(j) => j != k && Live(ev[1..], k, after)
      case CallHappens => Live(ev[1..], k, after)
  }

  /** Some call in ev happens while depth k is live. */
  predicate LiveAtCall(ev: seq<DepthEvent>, k: nat, after: bool) {
    if ev == [] then false
    else (ev[0].CallHappens? && Live(ev[1..], k, after)) || LiveAtCall(ev[1..], k, after)
  }

  lemma {:induction false} LiveAppend(a: seq<DepthEvent>, b: seq<DepthEvent>, k: nat, after: bool)
    ensures Live(a + b, k, after) == Live(a, k, Live(b, k, after))
    ensures LiveAtCall(a + b, k, after) == (LiveAtCall(a, k, Live(b, k, after)) || LiveAtCall(b, k, after))
  {
    if a == [] {
      assert a + b == b;
    } else {
      assert (a + b)[1..] == a[1..] + b;
      LiveAppend(a[1..], b, k, after);
    }
  }

  predicate HasCall(ev: seq<DepthEvent>) {
    exists i :: 0 <= i < |ev| && ev[i].CallHappens?
  }

  lemma HasCallAppend(a: seq<DepthEvent>, b: seq<DepthEvent>)
    ensures HasCall(a + b) == (HasCall(a) || HasCall(b))
  {
    if HasCall(a) {
      var i :| 0 <= i < |a| && a[i].CallHappens?;
      assert (a + b)[i].CallHappens?;
    }
    if HasCall(b) {
      var i :| 0 <= i < |b| && b[i].CallHappens?;
      assert (a + b)[|a| + i].CallHappens?;
    }
  }

  lemma {:induction false} BoundaryLive(count: nat, d: nat, k: nat, after: bool)
    ensures Live(Boundary(count, d), k, after) == (d <= k < d + count || after)
    ensures !LiveAtCall(Boundary(count, d), k, after)
    ensures !HasCall(Boundary(count, d))
  {
    if count > 0 {
      BoundaryLive(count - 1, d, k, after || k == d + count - 1);
      BoundaryLive(count - 1, d, k, after);
      LiveAppend(Boundary(count - 1, d), [Reads(d + count - 1)], k, after);
      HasCallAppend(Boundary(count - 1, d), [Reads(d + count - 1)]);
    }
  }

  /** Every argument position names an argument. */
  predicate FullyWritten(e: Expr) {
    forall w :: 0 <= w < WrittenCount(e) ==> HasWritten(e, w)
  }

  lemma WellFormedWritten(functions: seq<Function>, frameSlots: nat, e: Expr)
    requires WellFormedExpr(functions, frameSlots, e)
    ensures FullyWritten(e)
    ensures forall w :: 0 <= w < WrittenCount(e) ==> WellFormedExpr(functions, frameSlots, Written(e, w))
  {}

  /** Only depths at or above the expression's own are marked. */
  lemma {:induction false} CrossesAbove(e: Expr, d: nat, k: nat)
    ensures Crosses(e, d, k) ==> d <= k
    decreases e, 1, 0
  {
    match e
    case Literal(_) =>
    case TextLiteral(_) =>
    case Parameter(_) =>
    case Call(_, _, _) => CrossesFromAbove(e, 0, d, k);
    case Syscall(_) => CrossesFromAbove(e, 0, d, k);
    case Negate(left) => CrossesAbove(left, d, k);
    case Concat(left, right) => CrossesAbove(left, d, k); CrossesAbove(right, d + 1, k);
    case Binary(_, left, right) => CrossesAbove(left, d, k); CrossesAbove(right, d + 1, k);
  }

  lemma {:induction false} CrossesFromAbove(e: Expr, w: nat, d: nat, k: nat)
    ensures CrossesFrom(e, w, d, k) ==> d <= k
    decreases e, 0, WrittenCount(e) - w
  {
    if w < WrittenCount(e) && HasWritten(e, w) {
      CrossesAbove(Written(e, w), d + w, k);
      CrossesFromAbove(e, w + 1, d, k);
    }
  }

  /** The trace of one expression calls exactly when Calls says so. */
  lemma {:induction false} TraceCalls(e: Expr, d: nat)
    ensures HasCall(Trace(e, d)) == Calls(e)
    decreases e
  {
    match e
    case Literal(_) =>
    case TextLiteral(_) =>
    case Parameter(_) =>
    case Call(_, _, _) =>
      var tail := Boundary(WrittenCount(e), d);
      assert [CallHappens, Writes(d)][0].CallHappens?;
      HasCallAppend(tail, [CallHappens, Writes(d)]);
      HasCallAppend(TraceFrom(e, 0, d), tail + [CallHappens, Writes(d)]);
    case Syscall(_) =>
      var tail := Boundary(WrittenCount(e), d);
      assert [CallHappens, Writes(d)][0].CallHappens?;
      HasCallAppend(tail, [CallHappens, Writes(d)]);
      HasCallAppend(TraceFrom(e, 0, d), tail + [CallHappens, Writes(d)]);
    case Negate(left) =>
      TraceCalls(left, d);
      HasCallAppend(Trace(left, d), [Reads(d), Writes(d)]);
    case Concat(left, right) =>
      var tail := [Reads(d), Reads(d + 1), CallHappens, Writes(d)];
      assert tail[2].CallHappens?;
      HasCallAppend(Trace(right, d + 1), tail);
      HasCallAppend(Trace(left, d), Trace(right, d + 1) + tail);
    case Binary(_, left, right) =>
      TraceCalls(left, d);
      TraceCalls(right, d + 1);
      HasCallAppend(Trace(right, d + 1), [Reads(d), Reads(d + 1), Writes(d)]);
      HasCallAppend(Trace(left, d), Trace(right, d + 1) + [Reads(d), Reads(d + 1), Writes(d)]);
  }

  /** The events at the end of one expression, after its operands. */
  function Closing(e: Expr, d: nat): seq<DepthEvent> {
    match e
    case Literal(_) => [Writes(d)]
    case TextLiteral(_) => [Writes(d)]
    case Parameter(_) => [Writes(d)]
    case Call(_, _, _) => Boundary(WrittenCount(e), d) + [CallHappens, Writes(d)]
    case Syscall(_) => Boundary(WrittenCount(e), d) + [CallHappens, Writes(d)]
    case Negate(_) => [Reads(d), Writes(d)]
    case Concat(_, _) => [Reads(d), Reads(d + 1), CallHappens, Writes(d)]
    case Binary(_, _, _) => [Reads(d), Reads(d + 1), Writes(d)]
  }

  lemma ClosingLive(e: Expr, d: nat, k: nat, after: bool)
    requires k <= d || !after
    ensures var own := k == d && !e.Literal? && !e.TextLiteral? && !e.Parameter? && !e.Call? && !e.Syscall?;
      var second := k == d + 1 && (e.Concat? || e.Binary?);
      var argument := d <= k < d + WrittenCount(e);
      Live(Closing(e, d), k, after) == (own || second || argument || (k < d && after))
    ensures LiveAtCall(Closing(e, d), k, after) == ((e.Call? || e.Syscall? || e.Concat?) && k < d && after)
  {
    match e
    case Call(_, _, _) =>
      BoundaryLive(WrittenCount(e), d, k, k < d && after);
      CallTail(d, k, after);
      LiveAppend(Boundary(WrittenCount(e), d), [CallHappens, Writes(d)], k, after);
    case Syscall(_) =>
      BoundaryLive(WrittenCount(e), d, k, k < d && after);
      CallTail(d, k, after);
      LiveAppend(Boundary(WrittenCount(e), d), [CallHappens, Writes(d)], k, after);
    case Concat(_, _) =>
      CallTail(d, k, after);
      var tail := [Reads(d), Reads(d + 1), CallHappens, Writes(d)];
      assert tail[1..] == [Reads(d + 1), CallHappens, Writes(d)];
      assert tail[1..][1..] == [CallHappens, Writes(d)];
    case Binary(_, _, _) =>
      var tail := [Reads(d), Reads(d + 1), Writes(d)];
      assert tail[1..] == [Reads(d + 1), Writes(d)];
      assert tail[1..][1..] == [Writes(d)];
      OneWrite(d, k, after);
    case Negate(_) =>
      assert [Reads(d), Writes(d)][1..] == [Writes(d)];
      OneWrite(d, k, after);
    case _ => OneWrite(d, k, after);
  }

  lemma OneWrite(d: nat, k: nat, after: bool)
    ensures Live([Writes(d)], k, after) == (k != d && after) && !LiveAtCall([Writes(d)], k, after)
  {}

  lemma CallTail(d: nat, k: nat, after: bool)
    ensures Live([CallHappens, Writes(d)], k, after) == (k != d && after)
    ensures LiveAtCall([CallHappens, Writes(d)], k, after) == (k != d && after)
  {
    assert [CallHappens, Writes(d)][1..] == [Writes(d)];
    OneWrite(d, k, after);
  }

  /**
   The analysis is exact. In the code of an expression evaluated at depth d, a
   depth is live at some call exactly when it is marked, or it was live after
   the whole expression already and the expression calls.
   */
  lemma {:induction false} CrossesIsLiveness(functions: seq<Function>, slots: nat, e: Expr, d: nat, k: nat, after: bool)
    requires WellFormedExpr(functions, slots, e) && (k <= d || !after)
    ensures Live(Trace(e, d), k, after) == (k < d && after)
    ensures LiveAtCall(Trace(e, d), k, after) == ((k < d && after && Calls(e)) || Crosses(e, d, k))
    decreases e, 1, 0
  {
    ClosingLive(e, d, k, after);
    var tail := Live(Closing(e, d), k, after);
    match e
    case Literal(_) =>
    case TextLiteral(_) =>
    case Parameter(_) =>
    case Call(_, _, _) =>
      CrossesFromIsLiveness(functions, slots, e, 0, d, k, tail);
      LiveAppend(TraceFrom(e, 0, d), Closing(e, d), k, after);
    case Syscall(_) =>
      CrossesFromIsLiveness(functions, slots, e, 0, d, k, tail);
      LiveAppend(TraceFrom(e, 0, d), Closing(e, d), k, after);
    case Negate(left) =>
      LiveAppend(Trace(left, d), Closing(e, d), k, after);
      CrossesIsLiveness(functions, slots, left, d, k, tail);
    case Concat(left, right) =>
      PairIsLiveness(functions, slots, e, left, right, d, k, after);
    case Binary(_, left, right) =>
      PairIsLiveness(functions, slots, e, left, right, d, k, after);
  }

  lemma {:induction false} PairIsLiveness(
      functions: seq<Function>, slots: nat, e: Expr, left: Expr, right: Expr, d: nat, k: nat, after: bool)
    requires (e.Concat? && e.left == left && e.right == right) || (e.Binary? && e.left == left && e.right == right)
    requires WellFormedExpr(functions, slots, e) && (k <= d || !after)
    ensures Live(Trace(e, d), k, after) == (k < d && after)
    ensures LiveAtCall(Trace(e, d), k, after) == ((k < d && after && Calls(e)) || Crosses(e, d, k))
    decreases e, 0, 0
  {
    ClosingLive(e, d, k, after);
    var tail := Live(Closing(e, d), k, after);
    LiveAppend(Trace(right, d + 1), Closing(e, d), k, after);
    LiveAppend(Trace(left, d), Trace(right, d + 1) + Closing(e, d), k, after);
    CrossesIsLiveness(functions, slots, right, d + 1, k, tail);
    CrossesIsLiveness(functions, slots, left, d, k, k < d + 1 && tail);
    CrossesAbove(left, d, k);
    CrossesAbove(right, d + 1, k);
  }

  lemma {:induction false} CrossesFromIsLiveness(
      functions: seq<Function>, slots: nat, e: Expr, w: nat, d: nat, k: nat, after: bool)
    requires WellFormedExpr(functions, slots, e) && w <= WrittenCount(e)
    requires k >= d ==> after == (k < d + WrittenCount(e))
    ensures Live(TraceFrom(e, w, d), k, after) == (after && k < d + w)
    ensures LiveAtCall(TraceFrom(e, w, d), k, after) ==
            ((k < d && after && CallsFrom(e, w)) || CrossesFrom(e, w, d, k))
    decreases e, 0, WrittenCount(e) - w
  {
    if w < WrittenCount(e) {
      WellFormedWritten(functions, slots, e);
      var argument := Written(e, w);
      CrossesFromIsLiveness(functions, slots, e, w + 1, d, k, after);
      LiveAppend(Trace(argument, d + w), TraceFrom(e, w + 1, d), k, after);
      CrossesIsLiveness(functions, slots, argument, d + w, k, after && k < d + w + 1);
    }
  }

  /** Depth j is read or written somewhere in ev. */
  predicate Touches(ev: seq<DepthEvent>, j: nat) {
    exists i :: 0 <= i < |ev| && (ev[i] == Reads(j) || ev[i] == Writes(j))
  }

  lemma TouchesAppend(a: seq<DepthEvent>, b: seq<DepthEvent>, j: nat)
    ensures Touches(a + b, j) == (Touches(a, j) || Touches(b, j))
  {
    if Touches(a, j) {
      var i :| 0 <= i < |a| && (a[i] == Reads(j) || a[i] == Writes(j));
      assert (a + b)[i] == a[i];
    }
    if Touches(b, j) {
      var i :| 0 <= i < |b| && (b[i] == Reads(j) || b[i] == Writes(j));
      assert (a + b)[|a| + i] == b[i];
    }
  }

  lemma {:induction false} BoundaryTouches(count: nat, d: nat, j: nat)
    ensures Touches(Boundary(count, d), j) == (d <= j < d + count)
  {
    if count > 0 {
      BoundaryTouches(count - 1, d, j);
      TouchesAppend(Boundary(count - 1, d), [Reads(d + count - 1)], j);
      assert [Reads(d + count - 1)][0] == Reads(d + count - 1);
    }
  }

  /**
   The depth analysis is exact: an expression evaluated at depth d touches
   nothing outside d .. d + Need(e), and does touch the deepest of those.
   */
  lemma {:induction false} NeedIsExact(functions: seq<Function>, slots: nat, e: Expr, d: nat, j: nat)
    requires WellFormedExpr(functions, slots, e)
    ensures Touches(Trace(e, d), j) ==> d <= j < d + Need(e)
    ensures j == d + Need(e) - 1 ==> Touches(Trace(e, d), j)
    decreases e, 1, 0
  {
    ClosingTouches(e, d, j);
    match e
    case Literal(_) =>
    case TextLiteral(_) =>
    case Parameter(_) =>
    case Call(_, _, _) =>
      NeedFromIsExact(functions, slots, e, 0, d, j);
      TouchesAppend(TraceFrom(e, 0, d), Closing(e, d), j);
    case Syscall(_) =>
      NeedFromIsExact(functions, slots, e, 0, d, j);
      TouchesAppend(TraceFrom(e, 0, d), Closing(e, d), j);
    case Negate(left) =>
      NeedIsExact(functions, slots, left, d, j);
      TouchesAppend(Trace(left, d), Closing(e, d), j);
    case Concat(left, right) =>
      NeedIsExact(functions, slots, left, d, j);
      NeedIsExact(functions, slots, right, d + 1, j);
      TouchesAppend(Trace(right, d + 1), Closing(e, d), j);
      TouchesAppend(Trace(left, d), Trace(right, d + 1) + Closing(e, d), j);
    case Binary(_, left, right) =>
      NeedIsExact(functions, slots, left, d, j);
      NeedIsExact(functions, slots, right, d + 1, j);
      TouchesAppend(Trace(right, d + 1), Closing(e, d), j);
      TouchesAppend(Trace(left, d), Trace(right, d + 1) + Closing(e, d), j);
  }

  lemma ClosingTouches(e: Expr, d: nat, j: nat)
    ensures Touches(Closing(e, d), j) ==
      (j == d || d <= j < d + WrittenCount(e) || (j == d + 1 && (e.Concat? || e.Binary?)))
  {
    var last := |Closing(e, d)| - 1;
    assert Closing(e, d)[last] == Writes(d);
    match e
    case Call(_, _, _) =>
      BoundaryTouches(WrittenCount(e), d, j);
      TouchesAppend(Boundary(WrittenCount(e), d), [CallHappens, Writes(d)], j);
    case Syscall(_) =>
      BoundaryTouches(WrittenCount(e), d, j);
      TouchesAppend(Boundary(WrittenCount(e), d), [CallHappens, Writes(d)], j);
    case Concat(_, _) => assert Closing(e, d)[1] == Reads(d + 1);
    case Binary(_, _, _) => assert Closing(e, d)[1] == Reads(d + 1);
    case _ =>
  }

  lemma {:induction false} NeedFromIsExact(functions: seq<Function>, slots: nat, e: Expr, w: nat, d: nat, j: nat)
    requires WellFormedExpr(functions, slots, e) && w <= WrittenCount(e)
    ensures Touches(TraceFrom(e, w, d), j) ==> d + w <= j < d + NeedFrom(e, w)
    ensures w < WrittenCount(e) ==> NeedFrom(e, w) >= WrittenCount(e)
    ensures w < WrittenCount(e) && j == d + NeedFrom(e, w) - 1 ==> Touches(TraceFrom(e, w, d), j)
    decreases e, 0, WrittenCount(e) - w
  {
    if w < WrittenCount(e) {
      WellFormedWritten(functions, slots, e);
      NeedIsExact(functions, slots, Written(e, w), d + w, j);
      NeedFromIsExact(functions, slots, e, w + 1, d, j);
      TouchesAppend(Trace(Written(e, w), d + w), TraceFrom(e, w + 1, d), j);
    }
  }

  // ----- whole bodies -----

  function StmtNeed(s: Stmt): nat {
    if s.IfReturn? then Max(Need(s.condition), Need(s.value)) else Need(s.value)
  }

  predicate StmtCrosses(s: Stmt, k: nat) {
    (s.IfReturn? && Crosses(s.condition, 0, k)) || Crosses(s.value, 0, k)
  }

  predicate StmtCalls(s: Stmt) {
    s.PrintStmt? || (s.IfReturn? && Calls(s.condition)) || Calls(s.value)
  }

  function BodyNeed(body: seq<Stmt>, i: nat): nat
    decreases |body| - i
  {
    if i >= |body| then 0 else Max(StmtNeed(body[i]), BodyNeed(body, i + 1))
  }

  predicate BodyCrosses(body: seq<Stmt>, i: nat, k: nat)
    decreases |body| - i
  {
    i < |body| && (StmtCrosses(body[i], k) || BodyCrosses(body, i + 1, k))
  }

  predicate BodyCalls(body: seq<Stmt>, i: nat)
    decreases |body| - i
  {
    i < |body| && (StmtCalls(body[i]) || BodyCalls(body, i + 1))
  }

  /** What the code of a returned value does: a tail call fills the boundary but does not come back. */
  function ReturnTrace(value: Expr): seq<DepthEvent> {
    if value.Call? then TraceFrom(value, 0, 0) + Boundary(WrittenCount(value), 0) else Trace(value, 0) + [Reads(0)]
  }

  function GuardTrace(condition: Expr): seq<DepthEvent> {
    if condition.Binary? && IsComparison(condition.op) then
      Trace(condition.left, 0) + (Trace(condition.right, 1) + [Reads(0), Reads(1)])
    else Trace(condition, 0) + [Reads(0)]
  }

  function StmtTrace(s: Stmt): seq<DepthEvent> {
    match s
    case IfReturn(condition, value) => GuardTrace(condition) + ReturnTrace(value)
    case ReturnStmt(value) => ReturnTrace(value)
    case PrintStmt(value) => Trace(value, 0) + [Reads(0), CallHappens]
    case Let(_, value) => Trace(value, 0) + [Reads(0)]
    case Evaluate(value) => Trace(value, 0)
  }

  function BodyTrace(body: seq<Stmt>, i: nat): seq<DepthEvent>
    decreases |body| - i
  {
    if i >= |body| then [] else StmtTrace(body[i]) + BodyTrace(body, i + 1)
  }

  lemma OneEvent(event: DepthEvent, k: nat)
    ensures Live([event], k, false) == (event == Reads(k)) && !LiveAtCall([event], k, false)
  {
    assert [event][1..] == [];
  }

  lemma TwoEvents(first: DepthEvent, second: DepthEvent, k: nat)
    ensures Live([first, second], k, false) == (first == Reads(k) || (first != Writes(k) && second == Reads(k)))
    ensures LiveAtCall([first, second], k, false) == (first.CallHappens? && second == Reads(k))
  {
    OneEvent(second, k);
    assert [first, second][1..] == [second];
  }

  lemma ReturnIsLiveness(functions: seq<Function>, slots: nat, value: Expr, k: nat)
    requires WellFormedExpr(functions, slots, value)
    ensures !Live(ReturnTrace(value), k, false)
    ensures LiveAtCall(ReturnTrace(value), k, false) == Crosses(value, 0, k)
  {
    if value.Call? {
      var count := WrittenCount(value);
      BoundaryLive(count, 0, k, false);
      LiveAppend(TraceFrom(value, 0, 0), Boundary(count, 0), k, false);
      CrossesFromIsLiveness(functions, slots, value, 0, 0, k, k < count);
    } else {
      LiveAppend(Trace(value, 0), [Reads(0)], k, false);
      CrossesIsLiveness(functions, slots, value, 0, k, k == 0);
    }
  }

  lemma GuardIsLiveness(functions: seq<Function>, slots: nat, condition: Expr, k: nat)
    requires WellFormedExpr(functions, slots, condition)
    ensures !Live(GuardTrace(condition), k, false)
    ensures LiveAtCall(GuardTrace(condition), k, false) == Crosses(condition, 0, k)
  {
    if condition.Binary? && IsComparison(condition.op) {
      var tail := [Reads(0), Reads(1)];
      TwoEvents(Reads(0), Reads(1), k);
      LiveAppend(Trace(condition.right, 1), tail, k, false);
      LiveAppend(Trace(condition.left, 0), Trace(condition.right, 1) + tail, k, false);
      CrossesIsLiveness(functions, slots, condition.right, 1, k, k <= 1);
      CrossesIsLiveness(functions, slots, condition.left, 0, k, k == 0);
    } else {
      LiveAppend(Trace(condition, 0), [Reads(0)], k, false);
      CrossesIsLiveness(functions, slots, condition, 0, k, k == 0);
    }
  }

  lemma StmtIsLiveness(functions: seq<Function>, slots: nat, s: Stmt, k: nat)
    requires WellFormedStmt(functions, slots, s)
    ensures !Live(StmtTrace(s), k, false)
    ensures LiveAtCall(StmtTrace(s), k, false) == StmtCrosses(s, k)
  {
    match s
    case IfReturn(condition, value) =>
      GuardIsLiveness(functions, slots, condition, k);
      ReturnIsLiveness(functions, slots, value, k);
      LiveAppend(GuardTrace(condition), ReturnTrace(value), k, false);
    case ReturnStmt(value) => ReturnIsLiveness(functions, slots, value, k);
    case PrintStmt(value) =>
      TwoEvents(Reads(0), CallHappens, k);
      LiveAppend(Trace(value, 0), [Reads(0), CallHappens], k, false);
      CrossesIsLiveness(functions, slots, value, 0, k, k == 0);
    case Let(_, value) =>
      LiveAppend(Trace(value, 0), [Reads(0)], k, false);
      CrossesIsLiveness(functions, slots, value, 0, k, k == 0);
    case Evaluate(value) => CrossesIsLiveness(functions, slots, value, 0, k, false);
  }

  /**
   Over a whole body: a depth is marked exactly when the emitted code has a
   call at which that depth holds a value still to be read.
   */
  lemma {:induction false} BodyCrossesIsLiveness(functions: seq<Function>, slots: nat, body: seq<Stmt>, i: nat, k: nat)
    requires forall j :: i <= j < |body| ==> WellFormedStmt(functions, slots, body[j])
    ensures !Live(BodyTrace(body, i), k, false)
    ensures LiveAtCall(BodyTrace(body, i), k, false) == BodyCrosses(body, i, k)
    decreases |body| - i
  {
    if i < |body| {
      StmtIsLiveness(functions, slots, body[i], k);
      BodyCrossesIsLiveness(functions, slots, body, i + 1, k);
      LiveAppend(StmtTrace(body[i]), BodyTrace(body, i + 1), k, false);
    }
  }

  // ----- the analysis as the compiler runs it -----

  class FunctionPressure {
    var depth: nat
    const acrossCall: array<bool>

    ghost predicate Valid()
      reads this
    {
      acrossCall.Length == MAX_TRACKED_DEPTH
    }

    constructor ()
      ensures Valid() && fresh(acrossCall) && depth == 0
      ensures forall k :: 0 <= k < MAX_TRACKED_DEPTH ==> !acrossCall[k]
    {
      depth := 0;
      acrossCall := new bool[MAX_TRACKED_DEPTH](_ => false);
    }

    /** Marks the tracked depths of from .. to. */
    method Mark(from: nat, to: nat)
      requires Valid()
      modifies acrossCall
      ensures forall k :: 0 <= k < MAX_TRACKED_DEPTH ==> acrossCall[k] == (old(acrossCall[k]) || from <= k < to)
    {
      var d := from;
      while d < to && d < MAX_TRACKED_DEPTH
        invariant from <= d
        invariant forall k :: 0 <= k < MAX_TRACKED_DEPTH ==> acrossCall[k] == (old(acrossCall[k]) || from <= k < d)
        invariant d <= to || d == from
      {
        acrossCall[d] := true;
        d := d + 1;
      }
    }

    /** Adds one expression evaluated at depth d. */
    method Expression(e: Expr, d: nat, ghost functions: seq<Function>, ghost slots: nat)
      requires Valid() && WellFormedExpr(functions, slots, e)
      modifies this`depth, acrossCall
      ensures depth == Max(old(depth), d + Need(e))
      ensures forall k :: 0 <= k < MAX_TRACKED_DEPTH ==> acrossCall[k] == (old(acrossCall[k]) || Crosses(e, d, k))
      decreases e, 1
    {
      if d + 1 > depth {
        depth := d + 1;
      }
      match e
      case Literal(_) =>
      case TextLiteral(_) =>
      case Parameter(_) =>
      case Negate(left) =>
        Expression(left, d, functions, slots);
      case Call(_, _, _) => Arguments(e, d, functions, slots);
      case Syscall(_) => Arguments(e, d, functions, slots);
      case Concat(left, right) => Pair(e, left, right, d, functions, slots);
      case Binary(_, left, right) => Pair(e, left, right, d, functions, slots);
    }

    method Pair(ghost e: Expr, left: Expr, right: Expr, d: nat, ghost functions: seq<Function>, ghost slots: nat)
      requires left < e && right < e
      requires Valid() && WellFormedExpr(functions, slots, left) && WellFormedExpr(functions, slots, right)
      modifies this`depth, acrossCall
      ensures depth == Max(old(depth), d + Max(Need(left), 1 + Need(right)))
      ensures forall k :: 0 <= k < MAX_TRACKED_DEPTH ==>
        acrossCall[k] == (old(acrossCall[k]) || Crosses(left, d, k) || (Calls(right) && k == d) || Crosses(right, d + 1, k))
      decreases e, 0
    {
      Expression(left, d, functions, slots);
      if Calls(right) {
        Mark(d, d + 1);
      }
      Expression(right, d + 1, functions, slots);
    }

    /** The arguments of a call, in the order they are evaluated. */
    method Arguments(e: Expr, d: nat, ghost functions: seq<Function>, ghost slots: nat)
      requires Valid() && WellFormedExpr(functions, slots, e) && depth >= d + 1
      modifies this`depth, acrossCall
      ensures depth == Max(old(depth), d + NeedFrom(e, 0))
      ensures forall k :: 0 <= k < MAX_TRACKED_DEPTH ==> acrossCall[k] == (old(acrossCall[k]) || CrossesFrom(e, 0, d, k))
      decreases e, 0
    {
      WellFormedWritten(functions, slots, e);
      var w := 0;
      while w < WrittenCount(e)
        invariant w <= WrittenCount(e) && depth >= d + 1
        invariant Max(depth, d + NeedFrom(e, w)) == Max(old(depth), d + NeedFrom(e, 0))
        invariant forall k :: 0 <= k < MAX_TRACKED_DEPTH ==>
          (acrossCall[k] || CrossesFrom(e, w, d, k)) == (old(acrossCall[k]) || CrossesFrom(e, 0, d, k))
      {
        var argument := Written(e, w);
        if w > 0 && Calls(argument) {
          Mark(d, d + w);
        }
        Expression(argument, d + w, functions, slots);
        w := w + 1;
      }
    }
  }
}
