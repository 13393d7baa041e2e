/**
 Condition evaluation for `{% if … %}` blocks (`_evaluateCondition`).

 The template parser replaces every dotted word token of the condition by the
 JSON literal of the value it names (or by `undefined`) and hands the result
 to JavaScript's `eval`, turning any exception into `false`.  Because every
 word token is looked up, a literal such as `5`, `true` or a quoted word names
 a data path too.  This module keeps the part of that behaviour a closed
 grammar can state: a single path, read for its truthiness, or two paths
 joined by `==`, `!=`, `===` or `!==`.  Everything else fails, and a failure
 evaluates to `false`, as a thrown exception does in the source.
 */
module Conditions {
  import opened Wrappers
  import opened Strings
  import opened Values

  datatype Operator = Eq | Ne | StrictEq | StrictNe

  /** A condition of the closed grammar; both paths are dotted paths. */
  datatype Condition = Test(path: string) | Compare(lhs: string, op: Operator, rhs: string)

  function OperatorText(op: Operator): string
  {
    match op
    case Eq => "=="
    case Ne => "!="
    case StrictEq => "==="
    case StrictNe => "!=="
  }

  /** The comparison operator at the front of `s`, the longest one when several fit. */
  function OperatorAt(s: string): (r: Option<Operator>)
    ensures r.Some? ==> StartsWith(s, OperatorText(r.value))
  {
    if StartsWith(s, "===") then Some(StrictEq)
    else if StartsWith(s, "!==") then Some(StrictNe)
    else if StartsWith(s, "==") then Some(Eq)
    else if StartsWith(s, "!=") then Some(Ne)
    else None
  }

  predicate WellFormed(c: Condition)
  {
    match c
    case Test(p) => IsDottedPath(p)
    case Compare(l, _, r) => IsDottedPath(l) && IsDottedPath(r)
  }

  /** The condition written out, with single spaces around the operator. */
  function Show(c: Condition): string
  {
    match c
    case Test(p) => p
    case Compare(l, op, r) => l + " " + OperatorText(op) + " " + r
  }

  /** Reads a condition of the closed grammar; white space around the paths and the operator is free. */
  function ParseCondition(text: string): (r: Option<Condition>)
    ensures r.Some? ==> WellFormed(r.value)
  {
    var t := Trim(text);
    var n := DottedRun(t, 0);
    DottedRunIsMaximal(t, 0);
    if n == 0 then None
    else
      assert t[0..n] == t[..n];
      if n == |t| then (assert t[0..n] == t; Some(Test(t))) else ParseComparison(t[..n], TrimStart(t[n..]))
  }

  /** The operator and the right-hand path that follow the left-hand path `lhs`. */
  function ParseComparison(lhs: string, rest: string): (r: Option<Condition>)
    requires IsDottedPath(lhs)
    ensures r.Some? ==> WellFormed(r.value) && r.value.Compare? && r.value.lhs == lhs
  {
    match OperatorAt(rest)
    case None => None
    case Some(op) =>
      var rhs := TrimStart(rest[|OperatorText(op)|..]);
      if rhs != [] && DottedRun(rhs, 0) == |rhs| then
        DottedRunIsMaximal(rhs, 0);
        assert rhs[0..|rhs|] == rhs;
        Some(Compare(lhs, op, rhs))
      else None
  }

  /**
   What the reader accepts is a written-out condition with white space only
   added: the trimmed text is the path, or the two paths around the operator
   with white space (possibly none) on each side of it.
   */
  lemma ParseConditionReads(text: string)
    requires ParseCondition(text).Some?
    ensures var c := ParseCondition(text).value; c.Test? ==> Trim(text) == c.path
    ensures var c := ParseCondition(text).value; c.Compare? ==>
      exists w1, w2 :: Blank(w1) && Blank(w2) && Trim(text) == c.lhs + w1 + OperatorText(c.op) + w2 + c.rhs
  {
    var t := Trim(text);
    var n := DottedRun(t, 0);
    if n < |t| {
      var l, rest := ConditionParts(text);
      var w1, w2 := ComparisonReads(l, rest);
      var c := ParseCondition(text).value;
      PrefixRest(t, l);
      Glue(t, l, rest, w1, OperatorText(c.op), w2, c.rhs);
    }
  }

  /** Where a comparison's left-hand path ends in the trimmed text. */
  lemma ConditionParts(text: string) returns (l: string, rest: string)
    requires ParseCondition(text).Some? && DottedRun(Trim(text), 0) < |Trim(text)|
    ensures var t := Trim(text); StartsWith(t, l) && rest == t[|l|..] && IsDottedPath(l)
    ensures ParseCondition(text) == ParseComparison(l, TrimStart(rest))
  {
    var t := Trim(text);
    var n := DottedRun(t, 0);
    DottedRunIsMaximal(t, 0);
    l, rest := t[..n], t[n..];
    assert t[0..n] == l;
  }

  /** What follows an accepted left-hand path: white space, the operator, white space and the right-hand path. */
  lemma ComparisonReads(lhs: string, rest: string) returns (w1: string, w2: string)
    requires IsDottedPath(lhs) && ParseComparison(lhs, TrimStart(rest)).Some?
    ensures var c := ParseComparison(lhs, TrimStart(rest)).value;
      Blank(w1) && Blank(w2) && rest == w1 + OperatorText(c.op) + w2 + c.rhs
  {
    var r := TrimStart(rest);
    var op, rhs := ComparisonParts(lhs, r);
    var o := OperatorText(op);
    var after := r[|o|..];
    TrimStartSplit(rest);
    TrimStartSplit(after);
    w1 := rest[..|rest| - |r|];
    w2 := after[..|after| - |rhs|];
    PrefixRest(r, o);
    Assemble(rest, w1, r, o, after, w2, rhs);
  }

  /** The operator and right-hand path an accepted comparison text yields. */
  lemma ComparisonParts(lhs: string, r: string) returns (op: Operator, rhs: string)
    requires IsDottedPath(lhs) && ParseComparison(lhs, r).Some?
    ensures ParseComparison(lhs, r).value == Compare(lhs, op, rhs)
    ensures StartsWith(r, OperatorText(op)) && rhs == TrimStart(r[|OperatorText(op)|..])
  {
    op := OperatorAt(r).value;
    rhs := TrimStart(r[|OperatorText(op)|..]);
  }

  /** A text cut after `l`, with the rest written in four parts. */
  lemma Glue(t: string, l: string, rest: string, w1: string, o: string, w2: string, r: string)
    requires t == l + rest && rest == w1 + o + w2 + r
    ensures t == l + w1 + o + w2 + r
  {
  }

  /** Four texts, each the first part and the rest of the one before, put back together. */
  lemma Assemble(s: string, a: string, r1: string, b: string, r2: string, c: string, d: string)
    requires s == a + r1 && r1 == b + r2 && r2 == c + d
    ensures s == a + b + c + d
  {
  }

  /** Reading back a written-out condition gives the same condition. */
  lemma ParseShow(c: Condition)
    requires WellFormed(c)
    ensures ParseCondition(Show(c)) == Some(c)
  {
    match c
    case Test(p) =>
      TrimmedIsFixpoint(p);
      DottedRunOfPath(p, 0, p);
      assert p[..|p|] == p;
    case Compare(l, op, r) =>
      var s := Show(c);
      var tail := " " + OperatorText(op) + " " + r;
      assert s == l + tail;
      TrimmedIsFixpoint(s);
      assert s[0..|l|] == l;
      DottedRunOfPath(s, 0, l);
      assert s[..|l|] == l && s[|l|..] == tail;
      ParseComparisonShow(l, op, r);
  }

  lemma ParseComparisonShow(l: string, op: Operator, r: string)
    requires IsDottedPath(l) && IsDottedPath(r)
    ensures ParseComparison(l, TrimStart(" " + OperatorText(op) + " " + r)) == Some(Compare(l, op, r))
  {
    TrimStartBeforeOperator(op, r);
    OperatorAtShow(op, r);
    PathAfterSpace(r);
    OperatorThenSpace(op, r);
    ComparisonAfterOperator(l, op, r);
  }

  lemma OperatorThenSpace(op: Operator, r: string)
    ensures (OperatorText(op) + " " + r)[|OperatorText(op)|..] == " " + r
  {
    var o := OperatorText(op);
    assert (o + " " + r)[|o|..] == " " + r;
  }

  /** The comparison reader, once the operator and the path after it are known. */
  lemma ComparisonAfterOperator(l: string, op: Operator, r: string)
    requires IsDottedPath(l) && IsDottedPath(r)
    requires OperatorAt(OperatorText(op) + " " + r) == Some(op)
    requires (OperatorText(op) + " " + r)[|OperatorText(op)|..] == " " + r
    requires TrimStart(" " + r) == r && DottedRun(r, 0) == |r|
    ensures ParseComparison(l, OperatorText(op) + " " + r) == Some(Compare(l, op, r))
  {
  }

  lemma TrimStartBeforeOperator(op: Operator, r: string)
    ensures TrimStart(" " + OperatorText(op) + " " + r) == OperatorText(op) + " " + r
  {
    var o := OperatorText(op);
    var rest := o + " " + r;
    SpaceThenRest(o, r);
    assert rest[0] == o[0];
    SpaceBeforeText(rest);
  }

  lemma SpaceThenRest(o: string, r: string)
    ensures " " + o + " " + r == " " + (o + " " + r)
  {
  }

  /** One space in front of a text that starts with no white space is all `trimStart` drops. */
  lemma SpaceBeforeText(x: string)
    requires x != [] && !IsSpace(x[0])
    ensures TrimStart(" " + x) == x
  {
    TrimStartCons(' ', x);
    assert " " + x == [' '] + x;
  }

  lemma OperatorAtShow(op: Operator, r: string)
    ensures OperatorAt(OperatorText(op) + " " + r) == Some(op)
  {
    var o := OperatorText(op);
    var rest := o + " " + r;
    assert rest[..|o|] == o && rest[|o|] == ' ';
  }

  lemma PathAfterSpace(r: string)
    requires IsDottedPath(r)
    ensures TrimStart(" " + r) == r && DottedRun(r, 0) == |r|
  {
    assert !IsSpace(r[0]);
    SpaceBeforeText(r);
    WholePathRun(r);
  }

  lemma WholePathRun(p: string)
    requires IsDottedPath(p)
    ensures DottedRun(p, 0) == |p|
  {
    assert p[0..|p|] == p;
    DottedRunOfPath(p, 0, p);
  }

  /**
   What the evaluator makes of a path once its value is written in as a
   literal: `None` when evaluation throws.  An undefined path is `undefined`
   (falsy); a string is truthy unless empty; an array literal is truthy; an
   object literal at the start of the text parses as a block, which is either
   empty (giving `undefined`) or a syntax error.
   */
  function Evaluate(c: Condition, data: Value): Option<bool>
  {
    match c
    case Test(p) =>
      (match Lookup(data, p)
       case None => Some(false)
       case Some(Str(s)) => Some(s != [])
       case Some(Arr(_)) => Some(true)
       case Some(Obj(m)) => if m == map[] then Some(false) else None)
    case Compare(l, op, r) =>
      var a, b := Lookup(data, l), Lookup(data, r);
      if Scalar(a) && Scalar(b) then
        Some(if op == Eq || op == StrictEq then a == b else a != b)
      else None
  }

  /** `undefined` or a string: the operands whose comparison the model states. */
  predicate Scalar(v: Option<Value>)
  {
    v.None? || v.value.Str?
  }

  /**
   `_evaluateCondition`: true only when the condition is read and evaluates
   to true; anything that fails to read or to evaluate counts as false and
   nothing is raised.
   */
  function EvaluateCondition(text: string, data: Value): (r: bool)
    ensures r ==> ParseCondition(text).Some?
    ensures ParseCondition(text).Some? && Evaluate(ParseCondition(text).value, data).None? ==> !r
  {
    match ParseCondition(text)
    case None => false
    case Some(c) => Evaluate(c, data) == Some(true)
  }

  /**
   The truth table of an equality between two paths: true exactly when both
   name the same string or both are undefined.
   */
  lemma EqualityTruthTable(l: string, r: string, data: Value)
    requires IsDottedPath(l) && IsDottedPath(r)
    requires Scalar(Lookup(data, l)) && Scalar(Lookup(data, r))
    ensures EvaluateCondition(l + " == " + r, data) <==> Lookup(data, l) == Lookup(data, r)
  {
    ShowEquality(l, r);
    EvaluateShown(Compare(l, Eq, r), data);
  }

  /** `!=` between two paths is the negation of `==`. */
  lemma InequalityTruthTable(l: string, r: string, data: Value)
    requires IsDottedPath(l) && IsDottedPath(r)
    requires Scalar(Lookup(data, l)) && Scalar(Lookup(data, r))
    ensures EvaluateCondition(l + " != " + r, data) <==> Lookup(data, l) != Lookup(data, r)
  {
    ShowInequality(l, r);
    EvaluateShown(Compare(l, Ne, r), data);
  }

  lemma ShowComparison(l: string, op: Operator, r: string)
    ensures Show(Compare(l, op, r)) == l + (" " + OperatorText(op) + " ") + r
  {
  }

  lemma ShowEquality(l: string, r: string)
    ensures l + " == " + r == Show(Compare(l, Eq, r))
  {
    ShowComparison(l, Eq, r);
  }

  lemma ShowInequality(l: string, r: string)
    ensures l + " != " + r == Show(Compare(l, Ne, r))
  {
    ShowComparison(l, Ne, r);
  }

  /** A written-out condition evaluates as the condition itself does. */
  lemma EvaluateShown(c: Condition, data: Value)
    requires WellFormed(c)
    ensures EvaluateCondition(Show(c), data) == (Evaluate(c, data) == Some(true))
  {
    ParseShow(c);
  }

  /** A single path is true exactly when it names a non-empty string or an array. */
  lemma TestTruthTable(p: string, data: Value)
    requires IsDottedPath(p)
    ensures EvaluateCondition(p, data) <==>
      Lookup(data, p).Some? && (Lookup(data, p).value.Arr? || (Lookup(data, p).value.Str? && Truthy(Lookup(data, p).value)))
  {
    ParseShow(Test(p));
  }
}
