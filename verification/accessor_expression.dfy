/**
 * The accessor the compiler builds for the action-dependent collection:
 * `example => (check0 && check1 && ...) ? value(example) : null`.
 *
 * The source assembles it as an expression tree and compiles it. Here the
 * tree is a datatype and compilation is evaluation; evaluation also returns
 * the steps it took, so that the order and the short-circuiting of `&&` and
 * of the conditional can be stated.
 */
module AccessorExpression {
  import opened Nullables

  /** The condition tree; `Check(i)` is the i-th validity check applied to the example. */
  datatype Condition = Check(index: nat) | AndAlso(left: Condition, right: Condition)

  /** One thing evaluation did, in the order it did it. */
  datatype Step = EvaluatedCheck(index: nat) | EvaluatedValue

  /** Every check `c` refers to is one of the first `n`. */
  predicate ChecksBelow(c: Condition, n: nat) {
    match c
    case Check(i) => i < n
    case AndAlso(l, r) => ChecksBelow(l, n) && ChecksBelow(r, n)
  }

  /** The checks `c` mentions, left to right. */
  function Leaves(c: Condition): seq<nat> {
    match c
    case Check(i) => [i]
    case AndAlso(l, r) => Leaves(l) + Leaves(r)
  }

  /** The indices `lo`, ..., `hi - 1`. */
  function Range(lo: nat, hi: nat): (r: seq<nat>)
    decreases hi - lo
  {
    if lo >= hi then [] else [lo] + Range(lo + 1, hi)
  }

  /**
   * `Aggregate(acc, (cond, check) => AndAlso(cond, check))` over the checks
   * `i`, ..., `n - 1`: a left fold, so the tree leans to the left.
   */
  function Aggregate(acc: Condition, i: nat, n: nat): (c: Condition)
    requires ChecksBelow(acc, n)
    ensures ChecksBelow(c, n)
    decreases n - i
  {
    if i >= n then acc else Aggregate(AndAlso(acc, Check(i)), i + 1, n)
  }

  /** The fold appends the checks `i..n-1` to the leaves of the seed, in order. */
  lemma {:induction false} AggregateLeaves(acc: Condition, i: nat, n: nat)
    requires ChecksBelow(acc, n)
    ensures Leaves(Aggregate(acc, i, n)) == Leaves(acc) + Range(i, n)
    decreases n - i
  {
    if i >= n {
      assert Leaves(acc) + Range(i, n) == Leaves(acc);
    } else {
      AggregateLeaves(AndAlso(acc, Check(i)), i + 1, n);
      assert Leaves(AndAlso(acc, Check(i))) == Leaves(acc) + [i];
      assert Range(i, n) == [i] + Range(i + 1, n);
      assert Leaves(acc) + [i] + Range(i + 1, n) == Leaves(acc) + Range(i, n);
    }
  }

  /**
   * The condition for `n` checks: the first one is the seed and the rest are
   * folded onto it. None when there are no checks, where the source's
   * `First()` throws.
   */
  function BuildCondition(n: nat): (r: Option<Condition>)
    ensures r.None? <==> n == 0
    ensures r.Some? ==> ChecksBelow(r.value, n)
  {
    if n == 0 then None else Some(Aggregate(Check(0), 1, n))
  }

  /** The built condition mentions every check exactly once, in list order. */
  lemma ConditionLeaves(n: nat)
    requires n >= 1
    ensures BuildCondition(n).Some? && Leaves(BuildCondition(n).value) == Range(0, n)
  {
    AggregateLeaves(Check(0), 1, n);
  }

  /** The steps of running the checks `indices`, in that order. */
  function Steps(indices: seq<nat>): seq<Step> {
    seq(|indices|, k requires 0 <= k < |indices| => EvaluatedCheck(indices[k]))
  }

  lemma StepsAppend(a: seq<nat>, b: seq<nat>)
    ensures Steps(a + b) == Steps(a) + Steps(b)
  {
  }

  /**
   * `&&` as C# evaluates it: the right operand only when the left one is
   * true. The checks run in the order the tree mentions them, starting with
   * the leftmost and never skipping ahead; a true condition has run them all.
   */
  function Evaluate<O>(c: Condition, checks: seq<O -> bool>, x: O): (r: (bool, seq<Step>))
    requires ChecksBelow(c, |checks|)
    ensures 0 < |r.1| <= |Leaves(c)|
    ensures r.0 ==> |r.1| == |Leaves(c)|
  {
    match c
    case Check(i) => (checks[i](x), [EvaluatedCheck(i)])
    case AndAlso(l, r) =>
      var left := Evaluate(l, checks, x);
      if !left.0 then left
      else
        var right := Evaluate(r, checks, x);
        (right.0, left.1 + right.1)
  }

  /**
   * The steps `Evaluate` takes are the checks of the tree in order, cut off
   * after the first false one: a prefix of all of them, and all of them when
   * the condition is true.
   */
  lemma {:induction false} EvaluateTrace<O>(c: Condition, checks: seq<O -> bool>, x: O)
    requires ChecksBelow(c, |checks|)
    ensures Evaluate(c, checks, x).1 <= Steps(Leaves(c))
    ensures Evaluate(c, checks, x).0 ==> Evaluate(c, checks, x).1 == Steps(Leaves(c))
  {
    match c
    case Check(i) =>
    case AndAlso(l, r) =>
      StepsAppend(Leaves(l), Leaves(r));
      EvaluateTrace(l, checks, x);
      if Evaluate(l, checks, x).0 {
        EvaluateTrace(r, checks, x);
      }
  }

  /**
   * Reference reading of `checks[i] && ... && checks[n - 1]`: look at the
   * checks one at a time, left to right, and stop at the first false one.
   */
  function Scan<O>(checks: seq<O -> bool>, x: O, i: nat): (bool, seq<Step>)
    requires i <= |checks|
    decreases |checks| - i
  {
    if i == |checks| then (true, [])
    else if !checks[i](x) then (false, [EvaluatedCheck(i)])
    else
      var rest := Scan(checks, x, i + 1);
      (rest.0, [EvaluatedCheck(i)] + rest.1)
  }

  /** All checks hold of `x`. */
  predicate AllValid<O>(checks: seq<O -> bool>, x: O) {
    forall i :: 0 <= i < |checks| ==> checks[i](x)
  }

  /** The checks before `j` all hold of `x`. */
  predicate ValidBefore<O>(checks: seq<O -> bool>, x: O, j: nat)
    requires j <= |checks|
  {
    forall l :: 0 <= l < j ==> checks[l](x)
  }

  /** The expression `condition ? value : null`; `Invoke` is what its compiled form does. */
  datatype Accessor<!O> = Conditional(condition: Condition, checks: seq<O -> bool>, value: O -> O) {

    predicate Valid() {
      ChecksBelow(condition, |checks|)
    }

    /**
     * The condition first; the value only when the condition is true, and
     * then after every check has run. The result is the value or null.
     */
    function Invoke(x: O): (r: (Option<O>, seq<Step>))
      requires Valid()
      ensures r.0.Some? ==> r.0.value == value(x)
      ensures EvaluatedValue in r.1 <==> r.0.Some?
      ensures r.0.Some? ==> r.1 == Steps(Leaves(condition)) + [EvaluatedValue]
    {
      var cond := Evaluate(condition, checks, x);
      EvaluateTrace(condition, checks, x);
      assert forall k :: 0 <= k < |cond.1| ==> cond.1[k].EvaluatedCheck?;
      if cond.0 then (Some(value(x)), cond.1 + [EvaluatedValue]) else (None, cond.1)
    }
  }

  /** The accessor for a feature's checks and value; None where `First()` throws. */
  function BuildAccessor<O>(checks: seq<O -> bool>, value: O -> O): (r: Option<Accessor<O>>)
    ensures r.None? <==> |checks| == 0
    ensures r.Some? ==> r.value.Valid() && r.value.checks == checks && r.value.value == value
  {
    match BuildCondition(|checks|)
    case None => None
    case Some(c) => Some(Conditional(c, checks, value))
  }

  /**
   * The reference scan from `i` is true exactly when checks `i..` all hold;
   * it visits the checks in order, and it reaches check `j` exactly when the
   * checks from `i` up to `j` were all true.
   */
  lemma {:induction false} ScanShortCircuits<O>(checks: seq<O -> bool>, x: O, i: nat)
    requires i <= |checks|
    ensures Scan(checks, x, i).0 <==> forall j :: i <= j < |checks| ==> checks[j](x)
    ensures |Scan(checks, x, i).1| <= |checks| - i
    ensures forall k :: 0 <= k < |Scan(checks, x, i).1| ==> Scan(checks, x, i).1[k] == EvaluatedCheck(i + k)
    ensures forall j :: i <= j < |checks| ==>
              (EvaluatedCheck(j) in Scan(checks, x, i).1 <==> forall l :: i <= l < j ==> checks[l](x))
    decreases |checks| - i
  {
    if i < |checks| && checks[i](x) {
      ScanShortCircuits(checks, x, i + 1);
    }
  }

  /**
   * Evaluating the left fold of `AndAlso` built from `acc` and the checks
   * `i..` evaluates `acc`, and then, only if it was true, scans the checks
   * `i..` left to right.
   */
  lemma {:induction false} EvaluateAggregate<O>(acc: Condition, checks: seq<O -> bool>, x: O, i: nat)
    requires ChecksBelow(acc, |checks|) && i <= |checks|
    ensures Evaluate(Aggregate(acc, i, |checks|), checks, x)
            == (var a := Evaluate(acc, checks, x);
                if !a.0 then a else (Scan(checks, x, i).0, a.1 + Scan(checks, x, i).1))
    decreases |checks| - i
  {
    var a := Evaluate(acc, checks, x);
    if i < |checks| {
      var acc' := AndAlso(acc, Check(i));
      assert Aggregate(acc, i, |checks|) == Aggregate(acc', i + 1, |checks|);
      EvaluateAggregate(acc', checks, x, i + 1);
      if a.0 {
        var b := Evaluate(acc', checks, x);
        assert b == (checks[i](x), a.1 + [EvaluatedCheck(i)]);
        if checks[i](x) {
          var s := Scan(checks, x, i + 1);
          assert Scan(checks, x, i) == (s.0, [EvaluatedCheck(i)] + s.1);
          assert b.1 + s.1 == a.1 + ([EvaluatedCheck(i)] + s.1);
        }
      }
    } else {
      assert a.1 + [] == a.1;
    }
  }

  /** The condition the compiler builds evaluates exactly as the reference scan. */
  lemma ConditionIsScan<O>(checks: seq<O -> bool>, x: O)
    requires |checks| >= 1
    ensures BuildCondition(|checks|).Some?
    ensures Evaluate(BuildCondition(|checks|).value, checks, x) == Scan(checks, x, 0)
  {
    EvaluateAggregate(Check(0), checks, x, 1);
  }

  /**
   * What the compiled accessor does: it yields the value when every check
   * holds and null otherwise; it runs check `j` only when checks `0..j-1`
   * were all true, runs the checks in list order, and reads the value only
   * when the whole condition is true, as the very last step, so the trace
   * holds at most one step per check plus the value.
   */
  lemma AccessorSemantics<O>(checks: seq<O -> bool>, value: O -> O, x: O)
    requires |checks| >= 1
    ensures BuildAccessor(checks, value).Some?
    ensures BuildAccessor(checks, value).value.Invoke(x).0
            == if AllValid(checks, x) then Some(value(x)) else None
    ensures EvaluatedValue in BuildAccessor(checks, value).value.Invoke(x).1 <==> AllValid(checks, x)
    ensures forall j :: 0 <= j < |checks| ==>
              (EvaluatedCheck(j) in BuildAccessor(checks, value).value.Invoke(x).1 <==> ValidBefore(checks, x, j))
    ensures |BuildAccessor(checks, value).value.Invoke(x).1| <= |checks| + 1
    ensures var t := BuildAccessor(checks, value).value.Invoke(x).1;
            forall k :: 0 <= k < |t| ==>
              t[k] == EvaluatedCheck(k) || (k == |t| - 1 && t[k] == EvaluatedValue)
  {
    var a := BuildAccessor(checks, value).value;
    ConditionIsScan(checks, x);
    ScanShortCircuits(checks, x, 0);
    var s := Scan(checks, x, 0);
    assert s.0 <==> AllValid(checks, x);
    if s.0 {
      assert a.Invoke(x).1 == s.1 + [EvaluatedValue];
    }
  }
}
