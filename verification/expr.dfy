/** The expression compiler of `src/expr.c`: the operator priority
    comparison, the shunting-yard reordering of a token window into Reverse
    Polish order, the operator-to-opcode map, and the emission loop that
    turns the reordered tokens into instructions.

    The token-code header that `expr.c` was compiled against is not part of
    this model, so the codes it tests are a parameter (`Layout`): operands
    are the codes above `TcEnd`, operators are the codes in
    `[TcEEq, TcEqu]` that are not operands, and every other code is dropped
    by the reordering. */
module Expr {
  import opened Outcomes
  import Opcodes

  datatype Layout = Layout(
    end: int, eeq: int, equ: int, semi: int,
    plus: int, minus: int, aster: int, slash: int, wslash: int, perce: int)

  /** What the reordering relies on: the `TcEnd` sentinel it seeds the
      operator stack with is neither an operator nor multiplicative, so it
      ranks below every operator. */
  predicate SentinelApart(L: Layout) {
    !(L.eeq <= L.end <= L.equ) && !IsMultiplicative(L, L.end)
  }

  /** What the whole of `expr.c` relies on: besides the sentinel's place,
      the six arithmetic codes are operators and the `switch` of `tc2op`
      has distinct labels. */
  predicate ValidLayout(L: Layout) {
    && SentinelApart(L)
    && L.eeq <= L.plus <= L.equ && L.eeq <= L.minus <= L.equ
    && L.eeq <= L.aster <= L.equ && L.eeq <= L.slash <= L.equ
    && L.eeq <= L.wslash <= L.equ && L.eeq <= L.perce <= L.equ
    && L.plus != L.minus && L.plus != L.aster && L.plus != L.slash && L.plus != L.wslash && L.plus != L.perce
    && L.minus != L.aster && L.minus != L.slash && L.minus != L.wslash && L.minus != L.perce
    && L.aster != L.slash && L.aster != L.wslash && L.aster != L.perce
    && L.slash != L.wslash && L.slash != L.perce
    && L.wslash != L.perce
  }

  /** Both branches of the reordering loop, in the order it tests them. */
  predicate IsOperand(L: Layout, tc: int) {
    tc > L.end
  }

  predicate IsOperator(L: Layout, tc: int) {
    !IsOperand(L, tc) && L.eeq <= tc <= L.equ
  }

  predicate IsMultiplicative(L: Layout, tc: int) {
    tc == L.aster || tc == L.slash || tc == L.wslash || tc == L.perce
  }

  /** The priority `priorityCmp` gives a code: `TcEnd` is -99, the
      multiplicative operators 2, everything else 1. */
  function Priority(L: Layout, tc: int): (p: int)
    ensures p == -99 || p == 1 || p == 2
  {
    if IsMultiplicative(L, tc) then 2 else if tc == L.end then -99 else 1
  }

  /** `tc2op`: the four arithmetic operators map to their opcodes and every
      other code to `Nop`. */
  function Tc2Op(L: Layout, tc: int): (op: Opcodes.Opcode)
    requires ValidLayout(L)
    ensures op == Opcodes.Add <==> tc == L.plus
    ensures op == Opcodes.Sub <==> tc == L.minus
    ensures op == Opcodes.Mul <==> tc == L.aster
    ensures op == Opcodes.Div <==> tc == L.slash
    ensures op == Opcodes.Nop <==> !(tc in {L.plus, L.minus, L.aster, L.slash})
  {
    if tc == L.plus then Opcodes.Add
    else if tc == L.minus then Opcodes.Sub
    else if tc == L.aster then Opcodes.Mul
    else if tc == L.slash then Opcodes.Div
    else Opcodes.Nop
  }

  /** `priorityCmp`: positive when `a` binds tighter than `b`, zero when
      they bind alike, negative otherwise. */
  function PriorityCmp(L: Layout, a: int, b: int): int {
    Priority(L, a) - Priority(L, b)
  }

  /** The comparison is antisymmetric, ranks the multiplicative operators
      above the additive ones, and ranks every operator above `TcEnd`. */
  lemma PriorityClasses(L: Layout, a: int, b: int)
    requires ValidLayout(L)
    ensures PriorityCmp(L, a, b) == -PriorityCmp(L, b, a)
    ensures IsMultiplicative(L, a) == IsMultiplicative(L, b) && a != L.end && b != L.end ==> PriorityCmp(L, a, b) == 0
    ensures IsMultiplicative(L, a) && !IsMultiplicative(L, b) && b != L.end ==> PriorityCmp(L, a, b) == 1
    ensures IsOperator(L, a) && b == L.end ==> PriorityCmp(L, a, b) > 0
    ensures a == L.end && IsOperator(L, b) ==> PriorityCmp(L, a, b) < 0
  {
  }

  // ---------------------------------------------------------------------
  // Reordering (`rpn`).

  /** The operator stack (bottom first, seeded with `TcEnd`) and the tokens
      written so far. */
  datatype RpnState = RpnState(stack: seq<int>, out: seq<int>)

  /** The inner loop of the operator branch: pop onto the output while the
      top binds at least as tightly as `tc`. */
  function PopWhile(L: Layout, s: RpnState, tc: int): (r: RpnState)
    decreases |s.stack|
    ensures |r.stack| <= |s.stack| && r.stack == s.stack[..|r.stack|]
  {
    if |s.stack| > 0 && PriorityCmp(L, tc, s.stack[|s.stack| - 1]) <= 0 then
      PopWhile(L, RpnState(s.stack[..|s.stack| - 1], s.out + [s.stack[|s.stack| - 1]]), tc)
    else s
  }

  /** One pass of the scanning loop over token `tc`. */
  function Step(L: Layout, s: RpnState, tc: int): RpnState
  {
    if IsOperand(L, tc) then RpnState(s.stack, s.out + [tc])
    else if L.eeq <= tc <= L.equ then
      if |s.stack| > 0 && PriorityCmp(L, tc, s.stack[|s.stack| - 1]) > 0 then
        RpnState(s.stack + [tc], s.out)
      else
        var p := PopWhile(L, s, tc);
        RpnState(p.stack + [tc], p.out)
    else s
  }

  /** The state after scanning the window `w`. */
  function Scan(L: Layout, w: seq<int>): RpnState
  {
    if |w| == 0 then RpnState([L.end], [])
    else Step(L, Scan(L, w[..|w| - 1]), w[|w| - 1])
  }

  /** The final loop: pop everything above the `TcEnd` sentinel. */
  function Flush(s: RpnState): (r: RpnState)
    decreases |s.stack|
    ensures |r.stack| <= 1 || |r.stack| == |s.stack|
  {
    if |s.stack| > 1 then Flush(RpnState(s.stack[..|s.stack| - 1], s.out + [s.stack[|s.stack| - 1]]))
    else s
  }

  /** `rpn`: the tokens written for the window `w`, in Reverse Polish
      order. */
  function Rpn(L: Layout, w: seq<int>): seq<int>
  {
    Flush(Scan(L, w)).out
  }

  // Reference definitions the reordering is judged against.

  /** The operands of a token sequence, in order. */
  function Operands(L: Layout, s: seq<int>): seq<int> {
    if |s| == 0 then []
    else Operands(L, s[..|s| - 1]) + (if IsOperand(L, s[|s| - 1]) then [s[|s| - 1]] else [])
  }

  /** The tokens the reordering keeps: operands and operators. */
  function Kept(L: Layout, s: seq<int>): seq<int> {
    if |s| == 0 then []
    else Kept(L, s[..|s| - 1]) + (if IsOperand(L, s[|s| - 1]) || IsOperator(L, s[|s| - 1]) then [s[|s| - 1]] else [])
  }

  /** The shapes the operator stack takes: `TcEnd` alone, `TcEnd` under
      one operator, or `TcEnd` under an additive operator under a
      multiplicative one. */
  ghost predicate StackOk(L: Layout, st: seq<int>) {
    || st == [L.end]
    || (|st| == 2 && st[0] == L.end && IsOperator(L, st[1]))
    || (&& |st| == 3 && st[0] == L.end && IsOperator(L, st[1]) && IsOperator(L, st[2])
        && !IsMultiplicative(L, st[1]) && IsMultiplicative(L, st[2]))
  }

  /** What the scan keeps of the tokens seen so far: the written tokens and
      the stack together are the kept tokens plus the sentinel, and the
      written operands are the operands seen, in order. */
  ghost predicate Accounts(L: Layout, s: RpnState, seen: seq<int>) {
    && multiset(s.out) + multiset(s.stack) == multiset(Kept(L, seen)) + multiset{L.end}
    && Operands(L, s.out) == Operands(L, seen)
    && |s.out| + |s.stack| == |Kept(L, seen)| + 1
  }

  lemma OperandsAppend(L: Layout, s: seq<int>, x: int)
    ensures Operands(L, s + [x]) == Operands(L, s) + (if IsOperand(L, x) then [x] else [])
  {
    assert (s + [x])[..|s + [x]| - 1] == s;
  }

  lemma KeptAppend(L: Layout, s: seq<int>, x: int)
    ensures Kept(L, s + [x]) == Kept(L, s) + (if IsOperand(L, x) || IsOperator(L, x) then [x] else [])
  {
    assert (s + [x])[..|s + [x]| - 1] == s;
  }

  /** Popping while the top binds at least as tightly as operator `tc`
      removes a run of operators from the top, never the sentinel, and
      leaves a top that binds less tightly than `tc`. */
  lemma {:induction false} PopWhileShape(L: Layout, s: RpnState, tc: int)
    requires SentinelApart(L) && StackOk(L, s.stack) && IsOperator(L, tc)
    decreases |s.stack|
    ensures StackOk(L, PopWhile(L, s, tc).stack)
    ensures Priority(L, PopWhile(L, s, tc).stack[|PopWhile(L, s, tc).stack| - 1]) < Priority(L, tc)
  {
    var n := |s.stack|;
    if PriorityCmp(L, tc, s.stack[n - 1]) <= 0 {
      var s' := RpnState(s.stack[..n - 1], s.out + [s.stack[n - 1]]);
      assert s'.stack == [L.end] || s'.stack == [L.end, s.stack[1]];
      PopWhileShape(L, s', tc);
    }
  }

  /** Popping moves entries from the stack to the output and loses none. */
  lemma {:induction false} PopWhileMoves(L: Layout, s: RpnState, tc: int)
    decreases |s.stack|
    ensures multiset(PopWhile(L, s, tc).out) + multiset(PopWhile(L, s, tc).stack) == multiset(s.out) + multiset(s.stack)
    ensures |PopWhile(L, s, tc).out| + |PopWhile(L, s, tc).stack| == |s.out| + |s.stack|
  {
    var n := |s.stack|;
    if n > 0 && PriorityCmp(L, tc, s.stack[n - 1]) <= 0 {
      var s' := RpnState(s.stack[..n - 1], s.out + [s.stack[n - 1]]);
      assert s.stack == s'.stack + [s.stack[n - 1]];
      PopWhileMoves(L, s', tc);
    }
  }

  /** What popping moves from a well-shaped stack holds no operand. */
  lemma {:induction false} PopWhileOperands(L: Layout, s: RpnState, tc: int)
    requires StackOk(L, s.stack)
    decreases |s.stack|
    ensures Operands(L, PopWhile(L, s, tc).out) == Operands(L, s.out)
  {
    var n := |s.stack|;
    if PriorityCmp(L, tc, s.stack[n - 1]) <= 0 {
      var s' := RpnState(s.stack[..n - 1], s.out + [s.stack[n - 1]]);
      OperandsAppend(L, s.out, s.stack[n - 1]);
      if n > 1 {
        assert s'.stack == [L.end] || s'.stack == [L.end, s.stack[1]];
        PopWhileOperands(L, s', tc);
      } else {
        assert PopWhile(L, s', tc) == s';
      }
    }
  }

  /** An operator pushed onto what the popping leaves keeps the shape. */
  lemma PushKeeps(L: Layout, st: seq<int>, tc: int)
    requires SentinelApart(L) && StackOk(L, st) && IsOperator(L, tc)
    requires Priority(L, st[|st| - 1]) < Priority(L, tc)
    ensures StackOk(L, st + [tc])
  {
    if |st| == 2 {
      assert st + [tc] == [L.end, st[1], tc];
    }
  }

  /** One scanning step keeps the stack's shape. */
  lemma StepShape(L: Layout, s: RpnState, tc: int)
    requires SentinelApart(L) && StackOk(L, s.stack)
    ensures StackOk(L, Step(L, s, tc).stack)
  {
    if IsOperator(L, tc) {
      var p := if PriorityCmp(L, tc, s.stack[|s.stack| - 1]) > 0 then s else PopWhile(L, s, tc);
      if PriorityCmp(L, tc, s.stack[|s.stack| - 1]) <= 0 {
        PopWhileShape(L, s, tc);
      }
      assert Step(L, s, tc) == RpnState(p.stack + [tc], p.out);
      PushKeeps(L, p.stack, tc);
    }
  }

  /** One scanning step moves entries between the stack and the output
      and adds the new token when it is kept. */
  lemma StepMoves(L: Layout, s: RpnState, tc: int)
    ensures var r := Step(L, s, tc);
      multiset(r.out) + multiset(r.stack)
      == multiset(s.out) + multiset(s.stack) + (if IsOperand(L, tc) || IsOperator(L, tc) then multiset{tc} else multiset{})
    ensures var r := Step(L, s, tc);
      |r.out| + |r.stack| == |s.out| + |s.stack| + (if IsOperand(L, tc) || IsOperator(L, tc) then 1 else 0)
  {
    if IsOperator(L, tc) && !(|s.stack| > 0 && PriorityCmp(L, tc, s.stack[|s.stack| - 1]) > 0) {
      PopWhileMoves(L, s, tc);
    }
  }

  /** One scanning step writes the new token when it is an operand and no
      other operand. */
  lemma StepOperands(L: Layout, s: RpnState, tc: int)
    requires StackOk(L, s.stack)
    ensures Operands(L, Step(L, s, tc).out) == Operands(L, s.out) + (if IsOperand(L, tc) then [tc] else [])
  {
    if IsOperand(L, tc) {
      OperandsAppend(L, s.out, tc);
    } else if IsOperator(L, tc) && PriorityCmp(L, tc, s.stack[|s.stack| - 1]) <= 0 {
      PopWhileOperands(L, s, tc);
    }
  }

  /** One scanning step accounts for the new token. */
  lemma StepAccounts(L: Layout, s: RpnState, seen: seq<int>, tc: int)
    requires StackOk(L, s.stack) && Accounts(L, s, seen)
    ensures Accounts(L, Step(L, s, tc), seen + [tc])
  {
    OperandsAppend(L, seen, tc);
    KeptAppend(L, seen, tc);
    StepMoves(L, s, tc);
    StepOperands(L, s, tc);
  }

  lemma {:induction false} ScanKeeps(L: Layout, w: seq<int>)
    requires SentinelApart(L)
    ensures StackOk(L, Scan(L, w).stack) && Accounts(L, Scan(L, w), w)
  {
    if |w| > 0 {
      var p := w[..|w| - 1];
      ScanKeeps(L, p);
      StepShape(L, Scan(L, p), w[|w| - 1]);
      StepAccounts(L, Scan(L, p), p, w[|w| - 1]);
      assert p + [w[|w| - 1]] == w;
    }
  }

  /** The final popping empties the stack down to the sentinel, moving
      every operator to the output. */
  lemma {:induction false} FlushKeeps(L: Layout, s: RpnState)
    requires StackOk(L, s.stack)
    decreases |s.stack|
    ensures Flush(s).stack == [L.end]
    ensures multiset(Flush(s).out) + multiset{L.end} == multiset(s.out) + multiset(s.stack)
    ensures |Flush(s).out| + 1 == |s.out| + |s.stack|
    ensures Operands(L, Flush(s).out) == Operands(L, s.out)
  {
    var n := |s.stack|;
    if n > 1 {
      var top := s.stack[n - 1];
      var s' := RpnState(s.stack[..n - 1], s.out + [top]);
      assert s'.stack == [L.end] || s'.stack == [L.end, s.stack[1]];
      OperandsAppend(L, s.out, top);
      assert s.stack == s'.stack + [top];
      FlushKeeps(L, s');
    }
  }

  lemma {:induction false} KeptShorter(L: Layout, s: seq<int>)
    ensures |Kept(L, s)| <= |s|
    ensures forall x :: x in Kept(L, s) ==> IsOperand(L, x) || IsOperator(L, x)
  {
    if |s| > 0 {
      KeptShorter(L, s[..|s| - 1]);
    }
  }

  /** The reordering writes exactly the window's operands and operators,
      each as often as it occurs, and drops every other token; the
      operands keep their relative order. */
  lemma RpnPermutesKept(L: Layout, w: seq<int>)
    requires SentinelApart(L)
    ensures multiset(Rpn(L, w)) == multiset(Kept(L, w))
    ensures Operands(L, Rpn(L, w)) == Operands(L, w)
    ensures |Rpn(L, w)| <= |w|
  {
    var sc := Scan(L, w);
    ScanKeeps(L, w);
    FlushKeeps(L, sc);
    var out := Flush(sc).out;
    assert out == Rpn(L, w);
    var m := multiset(sc.out) + multiset(sc.stack);
    assert multiset(out) + multiset{L.end} == m;
    assert multiset(Kept(L, w)) + multiset{L.end} == m;
    MultisetCancel(multiset(out), multiset(Kept(L, w)), L.end);
    KeptShorter(L, w);
  }

  lemma MultisetCancel(a: multiset<int>, b: multiset<int>, x: int)
    requires a + multiset{x} == b + multiset{x}
    ensures a == b
  {
    forall y ensures a[y] == b[y] {
      assert (a + multiset{x})[y] == (b + multiset{x})[y];
    }
  }

  /** The `TcEnd` sentinel is never written. */
  lemma RpnNeverWritesEnd(L: Layout, w: seq<int>)
    requires SentinelApart(L)
    ensures L.end !in Rpn(L, w)
  {
    RpnPermutesKept(L, w);
    KeptShorter(L, w);
    assert L.end !in Kept(L, w);
    assert multiset(Rpn(L, w))[L.end] == 0;
  }

  /** Priorities strictly increase up the operator stack, so besides the
      sentinel at most one additive and one multiplicative operator are
      pending at any time. */
  lemma PendingOperatorsBounded(L: Layout, w: seq<int>)
    requires SentinelApart(L)
    ensures var st := Scan(L, w).stack;
      && 1 <= |st| <= 3 && st[0] == L.end
      && (forall k :: 1 <= k < |st| ==> IsOperator(L, st[k]))
      && (forall k :: 0 <= k < |st| - 1 ==> Priority(L, st[k]) < Priority(L, st[k + 1]))
  {
    ScanKeeps(L, w);
    StackOkIncreasing(L, Scan(L, w).stack);
  }

  lemma StackOkIncreasing(L: Layout, st: seq<int>)
    requires SentinelApart(L) && StackOk(L, st)
    ensures 1 <= |st| <= 3 && st[0] == L.end
    ensures forall k :: 1 <= k < |st| ==> IsOperator(L, st[k])
    ensures forall k :: 0 <= k < |st| - 1 ==> Priority(L, st[k]) < Priority(L, st[k + 1])
  {
    assert Priority(L, L.end) == -99;
    if |st| == 3 {
      assert Priority(L, st[1]) == 1 && Priority(L, st[2]) == 2;
    }
  }

  lemma ScanSnoc(L: Layout, p: seq<int>, x: int, w: seq<int>)
    requires w == p + [x]
    ensures Scan(L, w) == Step(L, Scan(L, p), x)
  {
    assert w[..|w| - 1] == p;
  }

  /** Operators of equal priority associate to the left:
      `a - b - c` becomes `a b - c -`. */
  lemma RpnLeftAssociative(L: Layout, a: int, b: int, c: int)
    requires ValidLayout(L) && L.equ < L.end
    requires IsOperand(L, a) && IsOperand(L, b) && IsOperand(L, c)
    ensures Rpn(L, [a, L.minus, b, L.minus, c]) == [a, b, L.minus, c, L.minus]
  {
    var e, m := L.end, L.minus;
    assert Priority(L, m) == 1 && Priority(L, e) == -99;
    ScanSnoc(L, [], a, [a]);
    assert Scan(L, [a]) == RpnState([e], [a]);
    ScanSnoc(L, [a], m, [a, m]);
    assert Scan(L, [a, m]) == RpnState([e, m], [a]);
    ScanSnoc(L, [a, m], b, [a, m, b]);
    assert [a] + [b] == [a, b];
    assert Scan(L, [a, m, b]) == RpnState([e, m], [a, b]);
    ScanSnoc(L, [a, m, b], m, [a, m, b, m]);
    assert [e, m][..1] == [e] && [a, b] + [m] == [a, b, m];
    assert PopWhile(L, RpnState([e], [a, b, m]), m) == RpnState([e], [a, b, m]);
    assert PopWhile(L, RpnState([e, m], [a, b]), m) == RpnState([e], [a, b, m]);
    assert Scan(L, [a, m, b, m]) == RpnState([e, m], [a, b, m]);
    ScanSnoc(L, [a, m, b, m], c, [a, m, b, m, c]);
    assert [a, b, m] + [c] == [a, b, m, c];
    assert Scan(L, [a, m, b, m, c]) == RpnState([e, m], [a, b, m, c]);
    assert [a, b, m, c] + [m] == [a, b, m, c, m];
    assert Flush(RpnState([e, m], [a, b, m, c])) == RpnState([e], [a, b, m, c, m]);
  }

  /** A multiplicative operator after an additive one binds first:
      `a + b * c` becomes `a b c * +`. */
  lemma RpnProductBindsFirst(L: Layout, a: int, b: int, c: int)
    requires ValidLayout(L) && L.equ < L.end
    requires IsOperand(L, a) && IsOperand(L, b) && IsOperand(L, c)
    ensures Rpn(L, [a, L.plus, b, L.aster, c]) == [a, b, c, L.aster, L.plus]
  {
    var e, p, t := L.end, L.plus, L.aster;
    assert Priority(L, p) == 1 && Priority(L, t) == 2 && Priority(L, e) == -99;
    ScanSnoc(L, [], a, [a]);
    assert Scan(L, [a]) == RpnState([e], [a]);
    ScanSnoc(L, [a], p, [a, p]);
    assert Scan(L, [a, p]) == RpnState([e, p], [a]);
    ScanSnoc(L, [a, p], b, [a, p, b]);
    assert [a] + [b] == [a, b];
    assert Scan(L, [a, p, b]) == RpnState([e, p], [a, b]);
    ScanSnoc(L, [a, p, b], t, [a, p, b, t]);
    assert [e, p] + [t] == [e, p, t];
    assert Scan(L, [a, p, b, t]) == RpnState([e, p, t], [a, b]);
    ScanSnoc(L, [a, p, b, t], c, [a, p, b, t, c]);
    assert [a, b] + [c] == [a, b, c];
    assert Scan(L, [a, p, b, t, c]) == RpnState([e, p, t], [a, b, c]);
    assert [e, p, t][..2] == [e, p] && [a, b, c] + [t] == [a, b, c, t];
    assert [e, p][..1] == [e] && [a, b, c, t] + [p] == [a, b, c, t, p];
    assert Flush(RpnState([e, p], [a, b, c, t])) == RpnState([e], [a, b, c, t, p]);
    assert Flush(RpnState([e, p, t], [a, b, c])) == RpnState([e], [a, b, c, t, p]);
  }

  /** An additive operator after a multiplicative one waits for it:
      `a * b + c` becomes `a b * c +`. */
  lemma RpnProductBindsBefore(L: Layout, a: int, b: int, c: int)
    requires ValidLayout(L) && L.equ < L.end
    requires IsOperand(L, a) && IsOperand(L, b) && IsOperand(L, c)
    ensures Rpn(L, [a, L.aster, b, L.plus, c]) == [a, b, L.aster, c, L.plus]
  {
    var e, p, t := L.end, L.plus, L.aster;
    assert Priority(L, p) == 1 && Priority(L, t) == 2 && Priority(L, e) == -99;
    ScanSnoc(L, [], a, [a]);
    assert Scan(L, [a]) == RpnState([e], [a]);
    ScanSnoc(L, [a], t, [a, t]);
    assert Scan(L, [a, t]) == RpnState([e, t], [a]);
    ScanSnoc(L, [a, t], b, [a, t, b]);
    assert [a] + [b] == [a, b];
    assert Scan(L, [a, t, b]) == RpnState([e, t], [a, b]);
    ScanSnoc(L, [a, t, b], p, [a, t, b, p]);
    assert [e, t][..1] == [e] && [a, b] + [t] == [a, b, t];
    assert PopWhile(L, RpnState([e], [a, b, t]), p) == RpnState([e], [a, b, t]);
    assert PopWhile(L, RpnState([e, t], [a, b]), p) == RpnState([e], [a, b, t]);
    assert Scan(L, [a, t, b, p]) == RpnState([e, p], [a, b, t]);
    ScanSnoc(L, [a, t, b, p], c, [a, t, b, p, c]);
    assert [a, b, t] + [c] == [a, b, t, c];
    assert Scan(L, [a, t, b, p, c]) == RpnState([e, p], [a, b, t, c]);
    assert [a, b, t, c] + [p] == [a, b, t, c, p];
    assert Flush(RpnState([e, p], [a, b, t, c])) == RpnState([e], [a, b, t, c, p]);
  }

  /** `rpn` as the loops of the C code run it over `tcBuf[start..end)`. */
  method RpnLoop(L: Layout, tcBuf: seq<int>, start: nat, end: nat) returns (rpnTc: seq<int>)
    requires start <= end <= |tcBuf|
    ensures rpnTc == Rpn(L, tcBuf[start..end])
  {
    var stack := [L.end];
    rpnTc := [];
    var pc := start;
    while pc < end
      invariant start <= pc <= end
      invariant RpnState(stack, rpnTc) == Scan(L, tcBuf[start..pc])
    {
      ScanSnoc(L, tcBuf[start..pc], tcBuf[pc], tcBuf[start..pc + 1]);
      stack, rpnTc := ScanToken(L, stack, rpnTc, tcBuf[pc]);
      pc := pc + 1;
    }
    while |stack| > 1
      invariant Flush(RpnState(stack, rpnTc)) == Flush(Scan(L, tcBuf[start..end]))
      decreases |stack|
    {
      rpnTc := rpnTc + [stack[|stack| - 1]];
      stack := stack[..|stack| - 1];
    }
  }

  /** The body of the scanning loop for one token: an operand goes
      straight out; an operator either goes on the stack, or first pops
      every pending operator that binds at least as tightly. */
  method ScanToken(L: Layout, stack: seq<int>, out: seq<int>, tc: int)
    returns (stack': seq<int>, out': seq<int>)
    ensures RpnState(stack', out') == Step(L, RpnState(stack, out), tc)
  {
    stack', out' := stack, out;
    if tc > L.end {
      out' := out' + [tc];
    } else if L.eeq <= tc <= L.equ {
      if |stack'| > 0 && PriorityCmp(L, tc, stack'[|stack'| - 1]) > 0 {
        stack' := stack' + [tc];
      } else {
        while |stack'| > 0 && PriorityCmp(L, tc, stack'[|stack'| - 1]) <= 0
          invariant PopWhile(L, RpnState(stack', out'), tc) == PopWhile(L, RpnState(stack, out), tc)
          decreases |stack'|
        {
          out' := out' + [stack'[|stack'| - 1]];
          stack' := stack'[..|stack'| - 1];
        }
        stack' := stack' + [tc];
      }
    }
  }

  // ---------------------------------------------------------------------
  // Emission (`expr`).

  /** An instruction the emission loop writes with `putIc`: a push of the
      operand's variable slot, or an operator's opcode with no operands. */
  datatype Emitted = PushVar(tc: int) | Operate(op: Opcodes.Opcode)

  /** The emission loop's operator test, which comes first there. */
  predicate IsOperatorCode(L: Layout, tc: int) {
    L.eeq <= tc <= L.equ
  }

  // The tracking stack of the emission loop: an operator pops two entries
  // and, as the source stands, pushes nothing back; an operand pushes one.

  /** How many entries the tokens of `p` push onto the tracking stack. */
  function Pushes(L: Layout, p: seq<int>): nat {
    if |p| == 0 then 0
    else Pushes(L, p[..|p| - 1]) + (if !IsOperatorCode(L, p[|p| - 1]) && IsOperand(L, p[|p| - 1]) then 1 else 0)
  }

  /** How many operators among the tokens of `p` pop two entries each. */
  function Pops(L: Layout, p: seq<int>): nat {
    if |p| == 0 then 0
    else Pops(L, p[..|p| - 1]) + (if IsOperatorCode(L, p[|p| - 1]) then 1 else 0)
  }

  /** The change of the tracking stack's depth over `p`. */
  function Net(L: Layout, p: seq<int>): int {
    Pushes(L, p) - 2 * Pops(L, p)
  }

  /** Every operator of `rpn` finds two entries: started at `depth`, the
      stack it reaches holds `depth` plus the change over the tokens before
      it. */
  predicate NeverShort(L: Layout, rpn: seq<int>, depth: int) {
    forall i :: 0 <= i < |rpn| && IsOperatorCode(L, rpn[i]) ==> depth + Net(L, rpn[..i]) >= 2
  }

  lemma {:induction false} TallyConcat(L: Layout, s: seq<int>, t: seq<int>)
    decreases |t|
    ensures Pushes(L, s + t) == Pushes(L, s) + Pushes(L, t)
    ensures Pops(L, s + t) == Pops(L, s) + Pops(L, t)
  {
    if |t| == 0 {
      assert s + t == s;
    } else {
      TallyConcat(L, s, t[..|t| - 1]);
      assert (s + t)[..|s + t| - 1] == s + t[..|t| - 1];
    }
  }

  /** The change one token makes. */
  lemma NetOne(L: Layout, x: int)
    ensures Net(L, [x]) == if IsOperatorCode(L, x) then -2 else if IsOperand(L, x) then 1 else 0
  {
    assert [x][..|[x]| - 1] == [];
    assert Pushes(L, [x]) == if !IsOperatorCode(L, x) && IsOperand(L, x) then 1 else 0;
    assert Pops(L, [x]) == if IsOperatorCode(L, x) then 1 else 0;
  }

  /** Peeling off the first token: it must find two entries if it is an
      operator, and the rest starts from the depth it leaves. */
  lemma NeverShortStep(L: Layout, rpn: seq<int>, depth: int)
    requires |rpn| > 0
    ensures NeverShort(L, rpn, depth) ==>
      && (IsOperatorCode(L, rpn[0]) ==> depth >= 2)
      && NeverShort(L, rpn[1..], depth + Net(L, [rpn[0]]))
    ensures (IsOperatorCode(L, rpn[0]) ==> depth >= 2) && NeverShort(L, rpn[1..], depth + Net(L, [rpn[0]])) ==>
      NeverShort(L, rpn, depth)
  {
    var x, rest := rpn[0], rpn[1..];
    var d := depth + Net(L, [x]);
    forall i | 1 <= i <= |rpn| ensures Net(L, rpn[..i]) == Net(L, [x]) + Net(L, rest[..i - 1]) {
      assert rpn[..i] == [x] + rest[..i - 1];
      TallyConcat(L, [x], rest[..i - 1]);
    }
    if NeverShort(L, rpn, depth) {
      assert rpn[..0] == [];
      assert IsOperatorCode(L, x) ==> depth + Net(L, rpn[..0]) >= 2;
      forall j | 0 <= j < |rest| && IsOperatorCode(L, rest[j]) ensures d + Net(L, rest[..j]) >= 2 {
        assert rpn[j + 1] == rest[j];
        assert depth + Net(L, rpn[..j + 1]) >= 2;
      }
    }
    if (IsOperatorCode(L, x) ==> depth >= 2) && NeverShort(L, rest, d) {
      forall i | 0 <= i < |rpn| && IsOperatorCode(L, rpn[i]) ensures depth + Net(L, rpn[..i]) >= 2 {
        if i == 0 {
          assert rpn[..0] == [];
        } else {
          assert rest[i - 1] == rpn[i];
          assert d + Net(L, rest[..i - 1]) >= 2;
        }
      }
    }
  }

  /** The emission loop over `rpn`: an operator emits its opcode, an
      operand emits a push of its variable slot, and any other code emits
      nothing. The popped tracking entries are never used, so what is
      emitted does not depend on the tracking stack. */
  function Emit(L: Layout, rpn: seq<int>): (r: seq<Emitted>)
    requires ValidLayout(L)
    ensures |r| <= |rpn|
  {
    if |rpn| == 0 then []
    else if IsOperatorCode(L, rpn[0]) then [Operate(Tc2Op(L, rpn[0]))] + Emit(L, rpn[1..])
    else if IsOperand(L, rpn[0]) then [PushVar(rpn[0])] + Emit(L, rpn[1..])
    else Emit(L, rpn[1..])
  }

  /** The instruction the emission writes for a token it keeps. */
  function EmittedFor(L: Layout, tc: int): Emitted
    requires ValidLayout(L)
  {
    if IsOperatorCode(L, tc) then Operate(Tc2Op(L, tc)) else PushVar(tc)
  }

  /** The emission loop with its tracking stack of `depth` entries. A pop
      from fewer than two entries is a stack-discipline violation. */
  function EmitTracked(L: Layout, rpn: seq<int>, depth: nat): (r: Result<seq<Emitted>>)
    requires ValidLayout(L)
    ensures r.Ok? <==> NeverShort(L, rpn, depth)
    ensures r.Error? ==> r.kind == InternalError
    ensures r.Ok? ==> r.value == Emit(L, rpn)
  {
    if |rpn| == 0 then Ok([])
    else
      NeverShortStep(L, rpn, depth);
      NetOne(L, rpn[0]);
      if IsOperatorCode(L, rpn[0]) then
        if depth < 2 then Error(InternalError)
        else
          var rest :- EmitTracked(L, rpn[1..], depth - 2);
          Ok([Operate(Tc2Op(L, rpn[0]))] + rest)
      else if IsOperand(L, rpn[0]) then
        var rest :- EmitTracked(L, rpn[1..], depth + 1);
        Ok([PushVar(rpn[0])] + rest)
      else EmitTracked(L, rpn[1..], depth)
  }

  /** Over tokens that are all operands or operators, the emission writes
      one instruction per token, in order: the opcode `tc2op` gives for an
      operator, a push of the variable slot for an operand. */
  lemma {:induction false} EmitMatchesTokens(L: Layout, rpn: seq<int>)
    requires ValidLayout(L)
    requires forall x :: x in rpn ==> IsOperand(L, x) || IsOperator(L, x)
    ensures var r := Emit(L, rpn);
      && |r| == |rpn|
      && forall i :: 0 <= i < |rpn| ==> r[i] == EmittedFor(L, rpn[i])
  {
    if |rpn| > 0 {
      assert forall x :: x in rpn[1..] ==> x in rpn;
      EmitMatchesTokens(L, rpn[1..]);
      var r := Emit(L, rpn);
      var rest := Emit(L, rpn[1..]);
      assert r == [EmittedFor(L, rpn[0])] + rest;
      forall i | 1 <= i < |rpn| ensures r[i] == EmittedFor(L, rpn[i]) {
        assert r[i] == rest[i - 1] && rpn[1..][i - 1] == rpn[i];
      }
    }
  }

  /** The emission of two token runs is the emission of each, in order. */
  lemma {:induction false} EmitAppend(L: Layout, a: seq<int>, b: seq<int>)
    requires ValidLayout(L)
    ensures Emit(L, a + b) == Emit(L, a) + Emit(L, b)
  {
    if |a| == 0 {
      assert a + b == b;
    } else {
      assert (a + b)[1..] == a[1..] + b;
      EmitAppend(L, a[1..], b);
    }
  }

  /** The position of the last operator of `rpn`. */
  function LastOperator(L: Layout, rpn: seq<int>): (i: nat)
    requires Pops(L, rpn) >= 1
    ensures i < |rpn| && IsOperatorCode(L, rpn[i])
    ensures forall j :: i < j < |rpn| ==> !IsOperatorCode(L, rpn[j])
    ensures Pops(L, rpn[..i]) == Pops(L, rpn) - 1
  {
    var n := |rpn| - 1;
    if IsOperatorCode(L, rpn[n]) then n
    else
      var i := LastOperator(L, rpn[..n]);
      assert rpn[..n][..i] == rpn[..i] && rpn[..n][i] == rpn[i];
      i
  }

  /** The depth at which the last operator finds the tracking stack: what
      the tokens before it pushed, less two for each earlier operator. For
      `k` operators and `k + 1` operands ending in the last operator, as a
      well-formed expression in Reverse Polish order does, that is `3 - k`. */
  lemma DepthAtLastOperator(L: Layout, rpn: seq<int>)
    requires Pops(L, rpn) >= 1
    ensures Net(L, rpn[..LastOperator(L, rpn)]) <= Pushes(L, rpn) - 2 * (Pops(L, rpn) - 1)
    ensures LastOperator(L, rpn) == |rpn| - 1 && Pushes(L, rpn) == Pops(L, rpn) + 1 ==>
      Net(L, rpn[..LastOperator(L, rpn)]) == 3 - Pops(L, rpn)
  {
    var i := LastOperator(L, rpn);
    assert rpn == rpn[..i] + rpn[i..];
    TallyConcat(L, rpn[..i], rpn[i..]);
  }

  /** As the source stands, no expression with two or more operators and
      at most one operand more than operators is emitted without a
      stack-discipline violation: the last operator finds at most one
      entry. */
  lemma ChainsUnderflow(L: Layout, rpn: seq<int>)
    requires ValidLayout(L)
    requires Pops(L, rpn) >= 2 && Pushes(L, rpn) <= Pops(L, rpn) + 1
    ensures EmitTracked(L, rpn, 0) == Error(InternalError)
  {
    DepthAtLastOperator(L, rpn);
    var i := LastOperator(L, rpn);
    assert 0 + Net(L, rpn[..i]) < 2;
  }

  /** One binary operation, `a op b`, is compiled safely: two pushes and
      the operator's opcode. */
  lemma SingleOperatorIsSafe(L: Layout, a: int, op: int, b: int)
    requires ValidLayout(L) && L.equ < L.end
    requires IsOperand(L, a) && IsOperand(L, b) && op in {L.plus, L.minus, L.aster, L.slash}
    ensures Rpn(L, [a, op, b]) == [a, b, op]
    ensures EmitTracked(L, [a, b, op], 0) == Ok([PushVar(a), PushVar(b), Operate(Tc2Op(L, op))])
  {
    var e := L.end;
    assert Priority(L, op) >= 1 && Priority(L, e) == -99;
    ScanSnoc(L, [], a, [a]);
    assert Scan(L, [a]) == RpnState([e], [a]);
    ScanSnoc(L, [a], op, [a, op]);
    assert Scan(L, [a, op]) == RpnState([e, op], [a]);
    ScanSnoc(L, [a, op], b, [a, op, b]);
    assert [a] + [b] == [a, b];
    assert Scan(L, [a, op, b]) == RpnState([e, op], [a, b]);
    assert [a, b] + [op] == [a, b, op];
    assert Flush(RpnState([e, op], [a, b])) == RpnState([e], [a, b, op]);
    EmitPair(L, a, op, b);
  }

  lemma EmitPair(L: Layout, a: int, op: int, b: int)
    requires ValidLayout(L) && L.equ < L.end
    requires IsOperand(L, a) && IsOperand(L, b) && IsOperatorCode(L, op)
    ensures EmitTracked(L, [a, b, op], 0) == Ok([PushVar(a), PushVar(b), Operate(Tc2Op(L, op))])
  {
    assert [a, b, op][1..] == [b, op] && [b, op][1..] == [op] && [op][1..] == [];
    NetOne(L, a);
    NetOne(L, b);
    NeverShortStep(L, [op], 2);
    NeverShortStep(L, [b, op], 1);
    NeverShortStep(L, [a, b, op], 0);
    assert NeverShort(L, [op], 2) && NeverShort(L, [b, op], 1) && NeverShort(L, [a, b, op], 0);
    assert Emit(L, [op]) == [Operate(Tc2Op(L, op))];
    assert Emit(L, [b, op]) == [PushVar(b), Operate(Tc2Op(L, op))];
    assert Emit(L, [a, b, op]) == [PushVar(a), PushVar(b), Operate(Tc2Op(L, op))];
  }

  /** Two chained operations, `a - b - c`, are not: nothing is pushed back
      after the first operator, so the second finds only one entry on the
      tracking stack. */
  lemma ChainedOperatorsUnderflow(L: Layout, a: int, b: int, c: int)
    requires ValidLayout(L) && L.equ < L.end
    requires IsOperand(L, a) && IsOperand(L, b) && IsOperand(L, c)
    ensures Rpn(L, [a, L.minus, b, L.minus, c]) == [a, b, L.minus, c, L.minus]
    ensures EmitTracked(L, [a, b, L.minus, c, L.minus], 0) == Error(InternalError)
  {
    RpnLeftAssociative(L, a, b, c);
    var m := L.minus;
    var p := [a, b, m, c, m];
    assert p[..4] == [a, b, m, c] && p[..4][..3] == [a, b, m] && p[..4][..3][..2] == [a, b];
    assert [a, b][..1] == [a] && [a][..0] == [];
    assert Pops(L, [a]) == 0 && Pushes(L, [a]) == 1;
    assert Pops(L, [a, b]) == 0 && Pushes(L, [a, b]) == 2;
    assert Pops(L, [a, b, m]) == 1 && Pushes(L, [a, b, m]) == 2;
    assert Pops(L, [a, b, m, c]) == 1 && Pushes(L, [a, b, m, c]) == 3;
    assert Pops(L, p) == 2 && Pushes(L, p) == 3;
    ChainsUnderflow(L, p);
  }

  /** The window of `expr`: from `pc` up to the first `TcSemi`. `None` when
      the buffer holds no `TcSemi` from `pc` on, where the scan of the
      source runs off the buffer. */
  function SemiFrom(L: Layout, buf: seq<int>, i: nat): (r: Option<nat>)
    decreases |buf| - i
    ensures r.Some? ==> i <= r.value < |buf| && buf[r.value] == L.semi
    ensures r.Some? ==> forall k :: i <= k < r.value ==> buf[k] != L.semi
    ensures r.None? ==> forall k :: i <= k < |buf| ==> buf[k] != L.semi
  {
    if i >= |buf| then None
    else if buf[i] == L.semi then Some(i)
    else SemiFrom(L, buf, i + 1)
  }

  /** `expr` with the emission loop reading only the entries `rpn` wrote.
      The scan for `TcSemi` running off the buffer, and an operator finding
      fewer than two tracking entries, are stack or buffer violations. */
  function Expr(L: Layout, buf: seq<int>, pc: nat): (r: Result<seq<Emitted>>)
    requires ValidLayout(L)
    ensures SemiFrom(L, buf, pc).None? ==> r == Error(InternalError)
    ensures SemiFrom(L, buf, pc).Some? ==>
      var w := buf[pc..SemiFrom(L, buf, pc).value];
      && (r.Ok? <==> NeverShort(L, Rpn(L, w), 0))
      && (r.Error? ==> r.kind == InternalError)
      && (r.Ok? ==>
            && |r.value| == |Rpn(L, w)|
            && forall i :: 0 <= i < |r.value| ==> r.value[i] == EmittedFor(L, Rpn(L, w)[i]))
  {
    match SemiFrom(L, buf, pc)
    case None => Error(InternalError)
    case Some(e) =>
      var w := buf[pc..e];
      RpnPermutesKept(L, w);
      KeptShorter(L, w);
      RpnOnlyKept(L, w);
      EmitMatchesTokens(L, Rpn(L, w));
      EmitTracked(L, Rpn(L, w), 0)
  }

  lemma RpnOnlyKept(L: Layout, w: seq<int>)
    requires SentinelApart(L)
    ensures forall x :: x in Rpn(L, w) ==> IsOperand(L, x) || IsOperator(L, x)
  {
    RpnPermutesKept(L, w);
    KeptShorter(L, w);
    forall x | x in Rpn(L, w) ensures IsOperand(L, x) || IsOperator(L, x) {
      assert x in multiset(Kept(L, w));
    }
  }

  /** The tokens the reordering drops push and pop nothing. */
  lemma {:induction false} TallyKept(L: Layout, w: seq<int>)
    ensures Pushes(L, Kept(L, w)) == Pushes(L, w) && Pops(L, Kept(L, w)) == Pops(L, w)
  {
    if |w| > 0 {
      var x := w[|w| - 1];
      TallyKept(L, w[..|w| - 1]);
      var k := Kept(L, w[..|w| - 1]);
      if IsOperand(L, x) || IsOperator(L, x) {
        assert (k + [x])[..|k + [x]| - 1] == k;
      } else {
        assert Kept(L, w) == k;
      }
    }
  }

  /** Reordering tokens changes neither count. */
  lemma {:induction false} TallyPermutation(L: Layout, a: seq<int>, b: seq<int>)
    requires multiset(a) == multiset(b)
    decreases |a|
    ensures Pushes(L, a) == Pushes(L, b) && Pops(L, a) == Pops(L, b)
  {
    if |a| == 0 {
      assert |b| == |multiset(b)| == 0;
    } else {
      var x := a[|a| - 1];
      var a' := a[..|a| - 1];
      assert a == a' + [x];
      assert x in multiset(b);
      var j :| 0 <= j < |b| && b[j] == x;
      var b' := b[..j] + b[j + 1..];
      RemoveAt(b, j);
      assert multiset(a') == multiset(a) - multiset{x};
      TallyPermutation(L, a', b');
      TallyConcat(L, a', [x]);
      TallyRemoveAt(L, b, j);
    }
  }

  lemma RemoveAt(b: seq<int>, j: nat)
    requires j < |b|
    ensures multiset(b[..j] + b[j + 1..]) == multiset(b) - multiset{b[j]}
  {
    assert b == b[..j] + [b[j]] + b[j + 1..];
  }

  lemma TallyRemoveAt(L: Layout, b: seq<int>, j: nat)
    requires j < |b|
    ensures Pushes(L, b) == Pushes(L, b[..j] + b[j + 1..]) + Pushes(L, [b[j]])
    ensures Pops(L, b) == Pops(L, b[..j] + b[j + 1..]) + Pops(L, [b[j]])
  {
    assert b == b[..j] + [b[j]] + b[j + 1..];
    TallyConcat(L, b[..j], [b[j]]);
    TallyConcat(L, b[..j] + [b[j]], b[j + 1..]);
    TallyConcat(L, b[..j], b[j + 1..]);
  }

  /** As the source stands, a window with two or more operators and at
      most one operand more than operators, which every well-formed
      expression with two or more operators is, never compiles: its last
      operator finds at most one tracking entry. */
  lemma ExprRejectsChains(L: Layout, buf: seq<int>, pc: nat)
    requires ValidLayout(L) && SemiFrom(L, buf, pc).Some?
    requires var w := buf[pc..SemiFrom(L, buf, pc).value];
      Pops(L, w) >= 2 && Pushes(L, w) <= Pops(L, w) + 1
    ensures Expr(L, buf, pc) == Error(InternalError)
  {
    var w := buf[pc..SemiFrom(L, buf, pc).value];
    RpnPermutesKept(L, w);
    TallyKept(L, w);
    TallyPermutation(L, Rpn(L, w), Kept(L, w));
    ChainsUnderflow(L, Rpn(L, w));
  }

  /** `expr` as written: `rpnTc` has room for `end - start` entries, `rpn`
      writes only `|Rpn|` of them, and the emission loop reads all
      `end - start`. The entries it never wrote are `tail`, whatever the
      array happened to hold. */
  function ExprAsWritten(L: Layout, buf: seq<int>, pc: nat, tail: seq<int>): (r: Result<seq<Emitted>>)
    requires ValidLayout(L)
    requires SemiFrom(L, buf, pc).Some? ==> |Rpn(L, buf[pc..SemiFrom(L, buf, pc).value])| + |tail| == SemiFrom(L, buf, pc).value - pc
    ensures SemiFrom(L, buf, pc).None? ==> r == Error(InternalError)
    ensures SemiFrom(L, buf, pc).Some? ==>
      var rpn := Rpn(L, buf[pc..SemiFrom(L, buf, pc).value]) + tail;
      && (r.Ok? <==> NeverShort(L, rpn, 0))
      && (r.Ok? ==> r.value == Emit(L, rpn))
  {
    match SemiFrom(L, buf, pc)
    case None => Error(InternalError)
    case Some(e) => EmitTracked(L, Rpn(L, buf[pc..e]) + tail, 0)
  }

  /** Whenever the emission as written goes through, it writes what the
      corrected one writes followed by an instruction for every unwritten
      entry that holds an operand or operator code. */
  lemma ExprAsWrittenEmitsTail(L: Layout, buf: seq<int>, pc: nat, tail: seq<int>)
    requires ValidLayout(L) && SemiFrom(L, buf, pc).Some?
    requires |Rpn(L, buf[pc..SemiFrom(L, buf, pc).value])| + |tail| == SemiFrom(L, buf, pc).value - pc
    requires ExprAsWritten(L, buf, pc, tail).Ok?
    ensures Expr(L, buf, pc).Ok?
    ensures ExprAsWritten(L, buf, pc, tail).value == Expr(L, buf, pc).value + Emit(L, tail)
    ensures (forall x :: x in tail ==> IsOperand(L, x) || IsOperator(L, x)) ==>
      && |ExprAsWritten(L, buf, pc, tail).value| == |Expr(L, buf, pc).value| + |tail|
      && forall j :: 0 <= j < |tail| ==>
        ExprAsWritten(L, buf, pc, tail).value[|Expr(L, buf, pc).value| + j] == EmittedFor(L, tail[j])
  {
    var w := buf[pc..SemiFrom(L, buf, pc).value];
    var rpn := Rpn(L, w);
    forall i | 0 <= i < |rpn| && IsOperatorCode(L, rpn[i]) ensures Net(L, rpn[..i]) >= 2 {
      assert (rpn + tail)[..i] == rpn[..i] && (rpn + tail)[i] == rpn[i];
    }
    EmitAppend(L, rpn, tail);
    if forall x :: x in tail ==> IsOperand(L, x) || IsOperator(L, x) {
      EmitMatchesTokens(L, tail);
    }
  }

  /** A window holding a token the reordering drops (here `TcEnd` itself)
      leaves an unwritten entry, and the emission as written turns whatever
      it holds into an instruction: with an operand code there, a push of a
      variable that is not in the expression. */
  lemma ExprReadsUnwrittenEntry(L: Layout, a: int, junk: int)
    requires ValidLayout(L) && L.equ < L.end && L.semi != L.end && L.semi != a
    requires IsOperand(L, a) && IsOperand(L, junk)
    ensures var buf := [a, L.end, L.semi];
      && SemiFrom(L, buf, 0) == Some(2)
      && Rpn(L, buf[0..2]) == [a]
      && Expr(L, buf, 0) == Ok([PushVar(a)])
      && ExprAsWritten(L, buf, 0, [junk]) == Ok([PushVar(a), PushVar(junk)])
  {
    var buf := [a, L.end, L.semi];
    assert SemiFrom(L, buf, 2) == Some(2);
    assert SemiFrom(L, buf, 1) == Some(2);
    ScanSnoc(L, [], a, [a]);
    ScanSnoc(L, [a], L.end, [a, L.end]);
    assert buf[0..2] == [a, L.end];
    assert Scan(L, [a, L.end]) == RpnState([L.end], [a]);
    assert [a][1..] == [] && [a, junk][1..] == [junk] && [junk][1..] == [];
    assert [a] + [junk] == [a, junk];
    assert !IsOperatorCode(L, a) && !IsOperatorCode(L, junk);
    assert NeverShort(L, [a], 0) && NeverShort(L, [a, junk], 0);
    assert Emit(L, [a]) == [PushVar(a)];
    assert Emit(L, [junk]) == [PushVar(junk)];
    assert Emit(L, [a, junk]) == [PushVar(a), PushVar(junk)];
  }
}
