// Model of the expression functions of apps/web/design-reference/support.js: `resolve`
// with `parensWrapWhole`, `findTopLevelEquality` and `resolvePath`.
//
// JavaScript's own operators on values are parameters (`Ops`); everything the file itself
// decides, it decides on the text, and that is what is modelled.
module ExprEvaluator {
  import opened Wrappers
  import opened Text

  datatype Ops<!V> = Ops(
    undef: V,
    nul: V,
    ofBool: bool -> V,
    ofNumber: string -> V,
    ofString: string -> V,
    strictEq: (V, V) -> bool,
    looseEq: (V, V) -> bool,
    truthy: V -> bool,
    isNullish: V -> bool,
    get: (V, V) -> V)

  // ---------------------------------------------------------------- nesting depth

  datatype Nesting = Parens | Brackets | Both

  function Delta(c: char, n: Nesting): int {
    if (c == '(' && !n.Brackets?) || (c == '[' && !n.Parens?) then 1
    else if (c == ')' && !n.Brackets?) || (c == ']' && !n.Parens?) then -1
    else 0
  }

  function Depth(s: string, n: Nesting): int {
    if s == "" then 0 else Depth(s[..|s| - 1], n) + Delta(s[|s| - 1], n)
  }

  // ---------------------------------------------------------------- what the scanners find

  // No closing parenthesis before the last character brings the depth back to zero.
  ghost predicate WrapsWhole(expr: string) {
    forall i :: 0 <= i < |expr| - 1 && expr[i] == ')' ==> Depth(expr[..i + 1], Parens) != 0
  }

  // Position i starts a comparison operator outside all parentheses and brackets, it is not
  // the tail of a longer operator, and something other than blanks stands before it.
  ghost predicate IsEquality(expr: string, i: nat) {
    && i + 1 < |expr|
    && Depth(expr[..i], Both) == 0
    && (expr[i] == '=' || expr[i] == '!') && expr[i + 1] == '='
    && !(i > 0 && (expr[i - 1] == '=' || expr[i - 1] == '!'))
    && Trim(expr[..i]) != ""
  }

  ghost predicate IsFirstEquality(expr: string, i: nat) {
    IsEquality(expr, i) && forall j: nat :: j < i ==> !IsEquality(expr, j)
  }

  function OperatorAt(expr: string, i: nat): (op: string)
    requires i + 1 < |expr|
    ensures |op| == 2 || (|op| == 3 && i + 2 < |expr|)
  {
    if i + 2 < |expr| && expr[i + 2] == '=' then [expr[i]] + "==" else [expr[i]] + "="
  }

  ghost function FirstEquality(expr: string, from: nat): (r: Option<nat>)
    requires from <= |expr|
    requires forall j: nat :: j < from ==> !IsEquality(expr, j)
    ensures r.Some? ==> IsFirstEquality(expr, r.value) && r.value + 1 < |expr|
    ensures r.None? ==> forall j: nat :: !IsEquality(expr, j)
    decreases |expr| - from
  {
    if from == |expr| then None
    else if IsEquality(expr, from) then Some(from)
    else FirstEquality(expr, from + 1)
  }

  // The bracket that closes an already opened one: the first at relative depth zero.
  ghost predicate Closes(s: string, j: nat) {
    j < |s| && s[j] == ']' && Depth(s[..j], Brackets) == 0
  }

  ghost function FirstClose(s: string, from: nat): (r: Option<nat>)
    requires from <= |s|
    requires forall j: nat :: j < from ==> !Closes(s, j)
    ensures r.Some? ==> Closes(s, r.value) && forall j: nat :: j < r.value ==> !Closes(s, j)
    ensures r.None? ==> forall j: nat :: !Closes(s, j)
    decreases |s| - from
  {
    if from == |s| then None
    else if Closes(s, from) then Some(from)
    else FirstClose(s, from + 1)
  }

  predicate IsIdentStart(c: char) {
    'A' <= c <= 'Z' || 'a' <= c <= 'z' || c == '_' || c == '$'
  }

  predicate IsDigit(c: char) {
    '0' <= c <= '9'
  }

  predicate IsIdentChar(c: char) {
    IsIdentStart(c) || IsDigit(c)
  }

  function IdentTail(s: string): (n: nat)
    ensures n <= |s|
  {
    if s != "" && IsIdentChar(s[0]) then 1 + IdentTail(s[1..]) else 0
  }

  function Digits(s: string): (n: nat)
    ensures n <= |s|
  {
    if s != "" && IsDigit(s[0]) then 1 + Digits(s[1..]) else 0
  }

  // Length of the longest identifier at the start of the text, 0 when there is none.
  function IdentLength(s: string): (n: nat)
    ensures n <= |s|
  {
    if s != "" && IsIdentStart(s[0]) then 1 + IdentTail(s[1..]) else 0
  }

  // What may follow a dot: an identifier, or else a run of digits.
  function MemberLength(s: string): (n: nat)
    ensures n <= |s|
  {
    if IdentLength(s) > 0 then IdentLength(s) else Digits(s)
  }

  // The pattern \d+(\.\d+)? on the whole text.
  predicate IsUnsigned(s: string) {
    var n := Digits(s);
    && n > 0
    && (n == |s| || (s[n] == '.' && n + 1 < |s| && Digits(s[n + 1..]) == |s| - n - 1))
  }

  // The pattern -?\d+(\.\d+)? on the whole text.
  predicate IsNumber(s: string) {
    IsUnsigned(if s != "" && s[0] == '-' then s[1..] else s)
  }

  predicate IsQuoted(expr: string) {
    |expr| >= 2 && (expr[0] == '"' || expr[0] == '\'') && expr[|expr| - 1] == expr[0]
  }

  // ---------------------------------------------------------------- resolve

  function Compare<V>(ops: Ops<V>, op: string, l: V, r: V): V {
    if op == "===" then ops.ofBool(ops.strictEq(l, r))
    else if op == "!==" then ops.ofBool(!ops.strictEq(l, r))
    else if op == "==" then ops.ofBool(ops.looseEq(l, r))
    else ops.ofBool(!ops.looseEq(l, r))
  }

  // Every recursive call is on a strictly shorter text, so this is defined on every string.
  ghost function Resolve<V>(ops: Ops<V>, vals: V, src: string): V
    decreases |src|, 3
  {
    ResolveTrimmed(ops, vals, Trim(src))
  }

  ghost function ResolveTrimmed<V>(ops: Ops<V>, vals: V, expr: string): V
    decreases |expr|, 2
  {
    if expr == "" then ops.undef
    else if expr[0] == '(' && expr[|expr| - 1] == ')' && WrapsWhole(expr) then
      Resolve(ops, vals, expr[1..|expr| - 1])
    else
      match FirstEquality(expr, 0)
      case Some(i) =>
        var op := OperatorAt(expr, i);
        Compare(ops, op, Resolve(ops, vals, expr[..i]), Resolve(ops, vals, expr[i + |op|..]))
      case None =>
        if expr[0] == '!' then ops.ofBool(!ops.truthy(Resolve(ops, vals, expr[1..])))
        else if expr == "true" then ops.ofBool(true)
        else if expr == "false" then ops.ofBool(false)
        else if expr == "null" then ops.nul
        else if expr == "undefined" then ops.undef
        else if IsNumber(expr) then ops.ofNumber(expr)
        else if IsQuoted(expr) then ops.ofString(expr[1..|expr| - 1])
        else ResolvePath(ops, vals, expr)
  }

  function Member<V>(ops: Ops<V>, cur: V, key: V): V {
    if ops.isNullish(cur) then ops.undef else ops.get(cur, key)
  }

  ghost function ResolvePath<V>(ops: Ops<V>, vals: V, expr: string): V
    decreases |expr|, 1
  {
    var n := IdentLength(expr);
    if n == 0 then ops.undef
    else PathRest(ops, vals, expr[n..], Member(ops, vals, ops.ofString(expr[..n])))
  }

  ghost function PathRest<V>(ops: Ops<V>, vals: V, rest: string, cur: V): V
    decreases |rest|, 0
  {
    if rest == "" then cur
    else
      var tail := rest[1..];
      if rest[0] == '.' then
        var n := MemberLength(tail);
        if n == 0 then ops.undef
        else PathRest(ops, vals, tail[n..], Member(ops, cur, ops.ofString(tail[..n])))
      else if rest[0] == '[' then
        match FirstClose(tail, 0)
        case None => ops.undef
        case Some(j) => PathRest(ops, vals, tail[j + 1..], Member(ops, cur, Resolve(ops, vals, tail[..j])))
      else ops.undef
  }

  // ---------------------------------------------------------------- the loops

  lemma DepthStep(s: string, i: nat, n: Nesting)
    requires i < |s|
    ensures Depth(s[..i + 1], n) == Depth(s[..i], n) + Delta(s[i], n)
  {
    assert s[..i + 1][..i] == s[..i];
  }

  method ParensWrapWhole(expr: string) returns (whole: bool)
    requires expr != ""
    ensures whole <==> WrapsWhole(expr)
  {
    var depth := 0;
    for i := 0 to |expr| - 1
      invariant depth == Depth(expr[..i], Parens)
      invariant forall j :: 0 <= j < i && expr[j] == ')' ==> Depth(expr[..j + 1], Parens) != 0
    {
      DepthStep(expr, i, Parens);
      if expr[i] == '(' {
        depth := depth + 1;
      } else if expr[i] == ')' {
        depth := depth - 1;
        if depth == 0 {
          return false;
        }
      }
    }
    return true;
  }

  lemma FirstEqualityIs(s: string, i: nat)
    requires IsFirstEquality(s, i)
    ensures FirstEquality(s, 0) == Some(i)
  {
  }

  lemma NoEqualityIs(s: string)
    requires forall i: nat :: i < |s| ==> !IsEquality(s, i)
    ensures FirstEquality(s, 0) == None
  {
  }

  method FindTopLevelEquality(expr: string) returns (r: Option<nat>)
    ensures r == FirstEquality(expr, 0)
  {
    var depth := 0;
    for i := 0 to |expr|
      invariant depth == Depth(expr[..i], Both)
      invariant forall j: nat :: j < i ==> !IsEquality(expr, j)
    {
      var c := expr[i];
      DepthStep(expr, i, Both);
      if c == '[' || c == '(' {
        depth := depth + 1;
      } else if c == ']' || c == ')' {
        depth := depth - 1;
      } else if depth == 0 && (c == '=' || c == '!') && i + 1 < |expr| && expr[i + 1] == '=' {
        if i > 0 && (expr[i - 1] == '=' || expr[i - 1] == '!') {
          continue;
        }
        var lead := Trim(expr[..i]);
        if lead == "" {
          continue;
        }
        FirstEqualityIs(expr, i);
        return Some(i);
      }
    }
    NoEqualityIs(expr);
    return None;
  }

  method FindClose(s: string) returns (r: Option<nat>)
    ensures r == FirstClose(s, 0)
  {
    var depth := 1;
    var j := 0;
    while j < |s| && depth > 0
      invariant j <= |s| && depth == 1 + Depth(s[..j], Brackets) > 0
      invariant forall k: nat :: k < j ==> !Closes(s, k)
      decreases |s| - j
    {
      DepthStep(s, j, Brackets);
      if s[j] == '[' {
        depth := depth + 1;
      } else if s[j] == ']' {
        depth := depth - 1;
        if depth == 0 {
          assert Closes(s, j);
          return Some(j);
        }
      }
      j := j + 1;
    }
    return None;
  }

  // `resolve`, calling the scanning loops.
  method Evaluate<V>(ops: Ops<V>, vals: V, src: string) returns (v: V)
    ensures v == Resolve(ops, vals, src)
    decreases |src|, 5
  {
    v := EvaluateTrimmed(ops, vals, Trim(src));
  }

  method EvaluateTrimmed<V>(ops: Ops<V>, vals: V, expr: string) returns (v: V)
    ensures v == ResolveTrimmed(ops, vals, expr)
    decreases |expr|, 4
  {
    if expr == "" {
      return ops.undef;
    }
    if expr[0] == '(' && expr[|expr| - 1] == ')' {
      var whole := ParensWrapWhole(expr);
      if whole {
        v := Evaluate(ops, vals, expr[1..|expr| - 1]);
        return;
      }
    }
    var eq := FindTopLevelEquality(expr);
    if eq.Some? {
      v := EvaluateComparison(ops, vals, expr, eq.value);
      return;
    }
    if expr[0] == '!' {
      var inner := Evaluate(ops, vals, expr[1..]);
      return ops.ofBool(!ops.truthy(inner));
    }
    v := EvaluateAtom(ops, vals, expr);
  }

  method EvaluateComparison<V>(ops: Ops<V>, vals: V, expr: string, i: nat) returns (v: V)
    requires expr != "" && FirstEquality(expr, 0) == Some(i)
    requires expr[0] == '(' && expr[|expr| - 1] == ')' ==> !WrapsWhole(expr)
    ensures v == ResolveTrimmed(ops, vals, expr)
    decreases |expr|, 3
  {
    ResolveSplits(ops, vals, expr, i);
    var op := OperatorAt(expr, i);
    var lv := Evaluate(ops, vals, expr[..i]);
    var rv := Evaluate(ops, vals, expr[i + |op|..]);
    v := Compare(ops, op, lv, rv);
  }

  // The branches of `resolve` after those for operators.
  method EvaluateAtom<V>(ops: Ops<V>, vals: V, expr: string) returns (v: V)
    requires expr != "" && FirstEquality(expr, 0).None? && expr[0] != '!'
    requires expr[0] == '(' && expr[|expr| - 1] == ')' ==> !WrapsWhole(expr)
    ensures v == ResolveTrimmed(ops, vals, expr)
    decreases |expr|, 3
  {
    if expr == "true" { return ops.ofBool(true); }
    if expr == "false" { return ops.ofBool(false); }
    if expr == "null" { return ops.nul; }
    if expr == "undefined" { return ops.undef; }
    if IsNumber(expr) { return ops.ofNumber(expr); }
    if IsQuoted(expr) { return ops.ofString(expr[1..|expr| - 1]); }
    v := EvaluatePath(ops, vals, expr);
  }

  // One turn of the loop in `resolvePath`: the value after the next segment and the text
  // behind it, or nothing when the text cannot be read on.
  method PathStep<V>(ops: Ops<V>, vals: V, rest: string, cur: V) returns (next: Option<V>, left: string)
    requires rest != ""
    ensures |left| < |rest|
    ensures next.None? ==> PathRest(ops, vals, rest, cur) == ops.undef
    ensures next.Some? ==> PathRest(ops, vals, rest, cur) == PathRest(ops, vals, left, next.value)
    decreases |rest|, 0
  {
    var tail := rest[1..];
    next, left := None, tail;
    if rest[0] == '.' {
      var n := MemberLength(tail);
      if n > 0 {
        next, left := Some(Member(ops, cur, ops.ofString(tail[..n]))), tail[n..];
      }
    } else if rest[0] == '[' {
      var close := FindClose(tail);
      if close.Some? {
        var key := Evaluate(ops, vals, tail[..close.value]);
        next, left := Some(Member(ops, cur, key)), tail[close.value + 1..];
      }
    }
  }

  // The loop of `resolvePath` over the segments after the head identifier; `rest` is the text
  // from its index on.
  method WalkPath<V>(ops: Ops<V>, vals: V, segments: string, start: V) returns (cur: V)
    ensures cur == PathRest(ops, vals, segments, start)
    decreases |segments|, 1
  {
    cur := start;
    var rest := segments;
    while rest != ""
      invariant |rest| <= |segments|
      invariant PathRest(ops, vals, segments, start) == PathRest(ops, vals, rest, cur)
      decreases |rest|
    {
      var next, left := PathStep(ops, vals, rest, cur);
      if next.None? {
        return ops.undef;
      }
      cur, rest := next.value, left;
    }
  }

  method EvaluatePath<V>(ops: Ops<V>, vals: V, expr: string) returns (v: V)
    ensures v == ResolvePath(ops, vals, expr)
    decreases |expr|, 2
  {
    var head := IdentLength(expr);
    if head == 0 {
      return ops.undef;
    }
    v := WalkPath(ops, vals, expr[head..], Member(ops, vals, ops.ofString(expr[..head])));
  }

  // ---------------------------------------------------------------- expression trees

  datatype EqOp = StrictEq | StrictNe | LooseEq | LooseNe

  function OpText(op: EqOp): string {
    match op
    case StrictEq => "===" case StrictNe => "!==" case LooseEq => "==" case LooseNe => "!="
  }

  datatype Keyword = True | False | Null | Undefined

  function KeywordText(k: Keyword): string {
    match k
    case True => "true" case False => "false" case Null => "null" case Undefined => "undefined"
  }

  // A tree together with its layout: the blanks and redundant parentheses it is written with.
  datatype Expr =
    | Word(word: Keyword)
    | Num(minus: bool, digits: string, fraction: Option<string>)
    | Str(quote: char, text: string)
    | Path(head: string, segs: Segs)
    | Not(pad: string, operand: Expr)
    | Eq(left: Expr, padL: string, op: EqOp, padR: string, right: Expr)
    | Paren(pre: string, inner: Expr, post: string)

  datatype Segs =
    | End
    | Dot(name: string, rest: Segs)
    | Index(pre: string, key: Expr, post: string, rest: Segs)

  function NumText(minus: bool, digits: string, fraction: Option<string>): string {
    (if minus then "-" else "") + (digits + (if fraction.Some? then "." + fraction.value else ""))
  }

  function Print(e: Expr): string {
    match e
    case Word(k) => KeywordText(k)
    case Num(minus, digits, fraction) => NumText(minus, digits, fraction)
    case Str(q, text) => [q] + text + [q]
    case Path(head, segs) => head + PrintSegs(segs)
    case Not(pad, x) => "!" + (pad + Print(x))
    case Eq(l, pl, op, pr, r) => Print(l) + pl + OpText(op) + pr + Print(r)
    case Paren(pre, x, post) => "(" + (pre + Print(x) + post) + ")"
  }

  function PrintSegs(s: Segs): string {
    match s
    case End => ""
    case Dot(name, rest) => "." + name + PrintSegs(rest)
    case Index(pre, key, post, rest) => "[" + (pre + Print(key) + post) + "]" + PrintSegs(rest)
  }

  function Eval<V>(ops: Ops<V>, vals: V, e: Expr): V
    decreases e
  {
    match e
    case Word(True) => ops.ofBool(true)
    case Word(False) => ops.ofBool(false)
    case Word(Null) => ops.nul
    case Word(Undefined) => ops.undef
    case Num(minus, digits, fraction) => ops.ofNumber(NumText(minus, digits, fraction))
    case Str(_, text) => ops.ofString(text)
    case Path(head, segs) =>
      EvalSegs(ops, vals, segs, if ops.isNullish(vals) then ops.undef else ops.get(vals, ops.ofString(head)))
    case Not(_, x) => ops.ofBool(!ops.truthy(Eval(ops, vals, x)))
    case Eq(l, _, op, _, r) =>
      var lv, rv := Eval(ops, vals, l), Eval(ops, vals, r);
      (match op
       case StrictEq => ops.ofBool(ops.strictEq(lv, rv))
       case StrictNe => ops.ofBool(!ops.strictEq(lv, rv))
       case LooseEq => ops.ofBool(ops.looseEq(lv, rv))
       case LooseNe => ops.ofBool(!ops.looseEq(lv, rv)))
    case Paren(_, x, _) => Eval(ops, vals, x)
  }

  function EvalSegs<V>(ops: Ops<V>, vals: V, s: Segs, cur: V): V
    decreases s
  {
    match s
    case End => cur
    case Dot(name, rest) =>
      EvalSegs(ops, vals, rest, if ops.isNullish(cur) then ops.undef else ops.get(cur, ops.ofString(name)))
    case Index(_, key, _, rest) =>
      EvalSegs(ops, vals, rest, if ops.isNullish(cur) then ops.undef else ops.get(cur, Eval(ops, vals, key)))
  }

  // Letters, digits, underscores and dollar signs, no digit first.
  ghost predicate IsIdent(s: string) {
    && s != "" && !('0' <= s[0] <= '9')
    && forall i :: 0 <= i < |s| ==>
         'A' <= s[i] <= 'Z' || 'a' <= s[i] <= 'z' || '0' <= s[i] <= '9' || s[i] == '_' || s[i] == '$'
  }

  ghost predicate OnlyDigits(s: string) {
    s != "" && forall i :: 0 <= i < |s| ==> '0' <= s[i] <= '9'
  }

  ghost predicate IsMemberName(s: string) {
    IsIdent(s) || OnlyDigits(s)
  }

  ghost predicate IsNumeralOf(t: string, minus: bool, digits: string, fraction: Option<string>) {
    OnlyDigits(digits) && (fraction.Some? ==> OnlyDigits(fraction.value)) && t == NumText(minus, digits, fraction)
  }

  // An optional minus, digits, and optionally a point and digits.
  ghost predicate IsNumeral(t: string) {
    exists minus, digits, fraction :: IsNumeralOf(t, minus, digits, fraction)
  }

  // String literals may hold anything but parentheses, brackets, `=` and `!`.
  ghost predicate PlainText(s: string) {
    forall c :: c in s ==> c != '(' && c != ')' && c != '[' && c != ']' && c != '=' && c != '!'
  }

  // Well-formed trees: the left side of a comparison and the operand of a negation are not
  // bare comparisons, and a lone identifier is not one of the four keywords.
  ghost predicate WellFormed(e: Expr) {
    match e
    case Word(_) => true
    case Num(_, digits, fraction) => OnlyDigits(digits) && (fraction.Some? ==> OnlyDigits(fraction.value))
    case Str(q, text) => (q == '"' || q == '\'') && PlainText(text)
    case Path(head, segs) =>
      && IsIdent(head) && WellFormedSegs(segs)
      && (segs.End? ==> forall k :: head != KeywordText(k))
    case Not(pad, x) => Blank(pad) && WellFormed(x) && !x.Eq?
    case Eq(l, pl, _, pr, r) => Blank(pl) && Blank(pr) && WellFormed(l) && WellFormed(r) && !l.Eq?
    case Paren(pre, x, post) => Blank(pre) && Blank(post) && WellFormed(x)
  }

  ghost predicate WellFormedSegs(s: Segs) {
    match s
    case End => true
    case Dot(name, rest) => IsMemberName(name) && WellFormedSegs(rest)
    case Index(pre, key, post, rest) => Blank(pre) && Blank(post) && WellFormed(key) && WellFormedSegs(rest)
  }

  // ---------------------------------------------------------------- nesting of printed text

  // The text opens everything it closes and closes everything it opens.
  ghost predicate Safe(s: string, n: Nesting) {
    && Depth(s, n) == 0
    && forall i :: 0 <= i <= |s| ==> Depth(s[..i], n) >= 0
  }

  lemma {:induction false} DepthConcat(a: string, b: string, n: Nesting)
    ensures Depth(a + b, n) == Depth(a, n) + Depth(b, n)
  {
    if b == "" {
      assert a + b == a;
    } else {
      assert (a + b)[..|a + b| - 1] == a + b[..|b| - 1];
      DepthConcat(a, b[..|b| - 1], n);
    }
  }

  lemma PrefixOfConcat(a: string, b: string, i: nat, n: Nesting)
    requires i <= |a + b|
    ensures Depth((a + b)[..i], n) == if i <= |a| then Depth(a[..i], n) else Depth(a, n) + Depth(b[..i - |a|], n)
  {
    if i <= |a| {
      assert (a + b)[..i] == a[..i];
    } else {
      assert (a + b)[..i] == a + b[..i - |a|];
      DepthConcat(a, b[..i - |a|], n);
    }
  }

  lemma SafeConcat(a: string, b: string, n: Nesting)
    requires Safe(a, n) && Safe(b, n)
    ensures Safe(a + b, n)
  {
    DepthConcat(a, b, n);
    forall i | 0 <= i <= |a + b| ensures Depth((a + b)[..i], n) >= 0 {
      PrefixOfConcat(a, b, i, n);
    }
  }

  ghost predicate NoNesting(s: string) {
    forall c :: c in s ==> c != '(' && c != ')' && c != '[' && c != ']'
  }

  lemma {:induction false} SafePlain(s: string, n: Nesting)
    requires NoNesting(s)
    ensures Safe(s, n)
    ensures forall i :: 0 <= i <= |s| ==> Depth(s[..i], n) == 0
  {
    if s != "" {
      var front := s[..|s| - 1];
      assert forall c :: c in front ==> c in s;
      SafePlain(front, n);
      assert s[|s| - 1] in s;
      forall i | 0 <= i <= |s| ensures Depth(s[..i], n) == 0 {
        if i < |s| {
          assert s[..i] == front[..i];
        } else {
          assert s[..i] == s;
        }
      }
    }
  }

  lemma DepthOfOne(c: char, n: Nesting)
    ensures Depth([c], n) == Delta(c, n)
  {
    assert [c][..0] == "";
  }

  // Inside a wrapped text every position but the ends is one level deeper when the wrapper
  // counts, and the wrapped text is safe again.
  lemma WrapDepth(open: char, s: string, close: char, i: nat, n: Nesting)
    requires 0 < i <= |s| + 1
    ensures Depth(([open] + s + [close])[..i], n) == Delta(open, n) + Depth(s[..i - 1], n)
  {
    assert ([open] + s + [close])[..i] == [open] + s[..i - 1];
    DepthConcat([open], s[..i - 1], n);
    DepthOfOne(open, n);
  }

  lemma SafeWrap(open: char, s: string, close: char, n: Nesting)
    requires (open == '(' && close == ')') || (open == '[' && close == ']')
    requires Safe(s, n)
    ensures Safe([open] + s + [close], n)
  {
    var t := [open] + s + [close];
    DepthConcat([open] + s, [close], n);
    DepthConcat([open], s, n);
    DepthOfOne(open, n);
    DepthOfOne(close, n);
    forall i | 0 <= i <= |t| ensures Depth(t[..i], n) >= 0 {
      if 0 < i <= |s| + 1 {
        WrapDepth(open, s, close, i, n);
      } else if i == |t| {
        assert t[..i] == t;
      }
    }
  }

  // No `=` stands outside all parentheses and brackets.
  ghost predicate Quiet(s: string) {
    forall i :: 0 <= i < |s| && Depth(s[..i], Both) == 0 ==> s[i] != '='
  }

  lemma QuietHasNoEquality(s: string, i: nat)
    requires Quiet(s)
    ensures !IsEquality(s, i)
  {
    if i + 1 < |s| && s[i] == '!' {
      DepthStep(s, i, Both);
    }
  }

  lemma QuietConcat(a: string, b: string)
    requires Safe(a, Both) && Quiet(a) && Quiet(b)
    ensures Quiet(a + b)
  {
    forall i | 0 <= i < |a + b| && Depth((a + b)[..i], Both) == 0 ensures (a + b)[i] != '=' {
      PrefixOfConcat(a, b, i, Both);
    }
  }

  lemma QuietWithoutEquals(s: string)
    requires '=' !in s
    ensures Quiet(s)
  {
  }

  lemma QuietWrap(open: char, s: string, close: char)
    requires (open == '(' && close == ')') || (open == '[' && close == ']')
    requires Safe(s, Both)
    ensures Quiet([open] + s + [close])
  {
    var t := [open] + s + [close];
    forall i | 0 < i <= |s| + 1 ensures Depth(t[..i], Both) > 0 {
      WrapDepth(open, s, close, i, Both);
    }
  }

  lemma {:induction false} DigitsAreDigits(s: string)
    ensures forall i :: 0 <= i < Digits(s) ==> '0' <= s[i] <= '9'
  {
    if s != "" && IsDigit(s[0]) {
      DigitsAreDigits(s[1..]);
      assert forall i :: 1 <= i < |s| ==> s[i] == s[1..][i - 1];
    }
  }

  // Characters of identifiers and numbers.
  predicate IsPlainChar(c: char) {
    IsIdentChar(c) || c == '-' || c == '.'
  }

  lemma IdentChars(s: string)
    requires IsIdent(s)
    ensures forall c :: c in s ==> IsIdentChar(c)
    ensures IsIdentStart(s[0])
  {
  }

  lemma MemberChars(s: string)
    requires IsMemberName(s)
    ensures forall c :: c in s ==> IsIdentChar(c)
  {
  }

  lemma NumberChars(t: string, minus: bool, digits: string, fraction: Option<string>)
    requires IsNumeralOf(t, minus, digits, fraction)
    ensures t != "" && (IsDigit(t[0]) || t[0] == '-')
    ensures IsDigit(t[|t| - 1])
    ensures forall i :: 0 <= i < |t| ==> IsDigit(t[i]) || t[i] == '-' || t[i] == '.'
  {
    var tail := if fraction.Some? then "." + fraction.value else "";
    assert (digits + tail)[0] == digits[0];
    assert tail != "" ==> (digits + tail)[|digits + tail| - 1] == tail[|tail| - 1];
  }

  lemma PlainCharsAreSafe(s: string, n: Nesting)
    requires forall c :: c in s ==> IsPlainChar(c)
    ensures Safe(s, n) && Quiet(s)
  {
    SafePlain(s, n);
    assert '=' !in s;
  }

  lemma BlankIsQuiet(s: string)
    requires Blank(s)
    ensures Safe(s, Both) && Quiet(s)
  {
    SafePlain(s, Both);
    assert '=' !in s;
  }

  // ---------------------------------------------------------------- shape of printed text

  lemma SafeComparison(l: string, pl: string, op: EqOp, pr: string, r: string, n: Nesting)
    requires Safe(l, n) && Blank(pl) && Blank(pr) && Safe(r, n)
    ensures Safe(l + pl + OpText(op) + pr + r, n)
  {
    SafePlain(pl, n);
    SafePlain(OpText(op), n);
    SafePlain(pr, n);
    SafeConcat(l, pl, n);
    SafeConcat(l + pl, OpText(op), n);
    SafeConcat(l + pl + OpText(op), pr, n);
    SafeConcat(l + pl + OpText(op) + pr, r, n);
  }

  lemma {:induction false} PrintIsSafe(e: Expr, n: Nesting)
    requires WellFormed(e)
    ensures Safe(Print(e), n)
    decreases e, 0
  {
    match e
    case Word(_) => PlainCharsAreSafe(Print(e), n);
    case Num(minus, digits, fraction) =>
      NumberChars(Print(e), minus, digits, fraction);
      PlainCharsAreSafe(Print(e), n);
    case Str(_, _) => SafePlain(Print(e), n);
    case Path(head, segs) =>
      IdentChars(head);
      PlainCharsAreSafe(head, n);
      SegsAreSafe(segs, n);
      SafeConcat(head, PrintSegs(segs), n);
    case Not(pad, x) =>
      PrintIsSafe(x, n);
      SafePlain("!", n);
      SafePlain(pad, n);
      SafeConcat(pad, Print(x), n);
      SafeConcat("!", pad + Print(x), n);
    case Eq(l, pl, op, pr, r) =>
      PrintIsSafe(l, n);
      PrintIsSafe(r, n);
      SafeComparison(Print(l), pl, op, pr, Print(r), n);
    case Paren(pre, x, post) =>
      PaddedIsSafe(pre, x, post, n);
      SafeWrap('(', pre + Print(x) + post, ')', n);
  }

  lemma {:induction false} PaddedIsSafe(pre: string, x: Expr, post: string, n: Nesting)
    requires Blank(pre) && Blank(post) && WellFormed(x)
    ensures Safe(pre + Print(x) + post, n)
    decreases x, 1
  {
    PrintIsSafe(x, n);
    SafePlain(pre, n);
    SafePlain(post, n);
    SafeConcat(pre, Print(x), n);
    SafeConcat(pre + Print(x), post, n);
  }

  lemma {:induction false} SegsAreSafe(s: Segs, n: Nesting)
    requires WellFormedSegs(s)
    ensures Safe(PrintSegs(s), n)
    decreases s, 0
  {
    match s
    case End => SafePlain("", n);
    case Dot(name, rest) =>
      MemberChars(name);
      PlainCharsAreSafe("." + name, n);
      SegsAreSafe(rest, n);
      SafeConcat("." + name, PrintSegs(rest), n);
    case Index(pre, key, post, rest) =>
      var inner := pre + Print(key) + post;
      PaddedIsSafe(pre, key, post, n);
      SafeWrap('[', inner, ']', n);
      SegsAreSafe(rest, n);
      SafeConcat("[" + inner + "]", PrintSegs(rest), n);
  }

  lemma {:induction false} SegsAreQuiet(s: Segs)
    requires WellFormedSegs(s)
    ensures Quiet(PrintSegs(s))
    decreases s
  {
    match s
    case End =>
    case Dot(name, rest) =>
      MemberChars(name);
      PlainCharsAreSafe("." + name, Both);
      SegsAreQuiet(rest);
      QuietConcat("." + name, PrintSegs(rest));
    case Index(pre, key, post, rest) =>
      var inner := pre + Print(key) + post;
      PaddedIsSafe(pre, key, post, Both);
      SafeWrap('[', inner, ']', Both);
      QuietWrap('[', inner, ']');
      SegsAreQuiet(rest);
      QuietConcat("[" + inner + "]", PrintSegs(rest));
  }

  lemma {:induction false} PrintIsQuiet(e: Expr)
    requires WellFormed(e) && !e.Eq?
    ensures Quiet(Print(e))
    decreases e
  {
    match e
    case Word(_) =>
    case Num(minus, digits, fraction) =>
      NumberChars(Print(e), minus, digits, fraction);
      PlainCharsAreSafe(Print(e), Both);
    case Str(_, _) => QuietWithoutEquals(Print(e));
    case Path(head, segs) =>
      IdentChars(head);
      PlainCharsAreSafe(head, Both);
      SegsAreQuiet(segs);
      QuietConcat(head, PrintSegs(segs));
    case Not(pad, x) =>
      PrintIsQuiet(x);
      SafePlain("!", Both);
      BlankIsQuiet(pad);
      QuietConcat(pad, Print(x));
      QuietConcat("!", pad + Print(x));
    case Paren(pre, x, post) =>
      PaddedIsSafe(pre, x, post, Both);
      QuietWrap('(', pre + Print(x) + post, ')');
  }

  lemma {:induction false} SegsEnd(s: Segs)
    requires WellFormedSegs(s)
    ensures PrintSegs(s) != "" ==>
      && (PrintSegs(s)[0] == '.' || PrintSegs(s)[0] == '[')
      && (PrintSegs(s)[|PrintSegs(s)| - 1] == ']' || IsIdentChar(PrintSegs(s)[|PrintSegs(s)| - 1]))
    decreases s
  {
    match s
    case End =>
    case Dot(name, rest) =>
      MemberChars(name);
      SegsEnd(rest);
    case Index(_, _, _, rest) => SegsEnd(rest);
  }

  // First and last characters of an operand: no blanks outside, nothing that could be read
  // as part of a comparison operator.
  ghost predicate CleanEnds(s: string) {
    && s != "" && Trimmed(s) && s[0] != '='
    && s[|s| - 1] != '=' && s[|s| - 1] != '!'
  }

  lemma CleanByEnds(s: string)
    requires s != "" && IsIdentStart(s[0]) && (s[|s| - 1] == ']' || IsIdentChar(s[|s| - 1]))
    ensures CleanEnds(s)
  {
  }

  lemma EndsOfConcat(a: string, b: string)
    requires a != "" && b != ""
    ensures (a + b)[0] == a[0] && (a + b)[|a + b| - 1] == b[|b| - 1]
  {
  }

  lemma CleanPath(head: string, segs: Segs)
    requires IsIdent(head) && WellFormedSegs(segs)
    ensures CleanEnds(head + PrintSegs(segs)) && IsIdentStart((head + PrintSegs(segs))[0])
  {
    IdentChars(head);
    SegsEnd(segs);
    var rest := PrintSegs(segs);
    assert head[|head| - 1] in head;
    if rest == "" {
      assert head + rest == head;
    } else {
      EndsOfConcat(head, rest);
    }
    CleanByEnds(head + rest);
  }

  lemma CleanWord(k: Keyword)
    ensures CleanEnds(KeywordText(k)) && IsIdentStart(KeywordText(k)[0])
  {
  }

  lemma CleanNot(rest: string, x: string)
    requires CleanEnds(x) && |x| <= |rest| && rest[|rest| - |x|..] == x
    ensures CleanEnds("!" + rest)
  {
    assert ("!" + rest)[|rest|] == x[|x| - 1];
  }

  lemma CleanWrapped(open: char, mid: string, close: char)
    requires (open == '(' && close == ')') || (open == close && (open == '"' || open == '\''))
    ensures CleanEnds([open] + mid + [close])
  {
  }

  lemma CleanNumber(t: string, minus: bool, digits: string, fraction: Option<string>)
    requires IsNumeralOf(t, minus, digits, fraction)
    ensures CleanEnds(t) && t[0] != '(' && t[0] != '!'
  {
    NumberChars(t, minus, digits, fraction);
  }

  lemma CleanJoin(a: string, mid: string, b: string)
    requires CleanEnds(a) && CleanEnds(b)
    ensures CleanEnds(a + mid + b) && (a + mid + b)[0] == a[0]
  {
  }

  lemma CleanComparison(l: string, pl: string, op: EqOp, pr: string, r: string)
    requires CleanEnds(l) && CleanEnds(r)
    ensures CleanEnds(l + pl + OpText(op) + pr + r)
  {
    assert l + pl + OpText(op) + pr + r == l + (pl + OpText(op) + pr) + r;
    CleanJoin(l, pl + OpText(op) + pr, r);
  }

  lemma {:induction false} PrintEnds(e: Expr)
    requires WellFormed(e)
    ensures CleanEnds(Print(e))
    ensures !e.Eq? && !e.Paren? ==> Print(e)[0] != '('
    ensures !e.Eq? && !e.Not? ==> Print(e)[0] != '!'
    decreases e
  {
    match e
    case Word(k) => CleanWord(k);
    case Num(minus, digits, fraction) => CleanNumber(Print(e), minus, digits, fraction);
    case Str(q, text) => CleanWrapped(q, text, q);
    case Path(head, segs) => CleanPath(head, segs);
    case Not(pad, x) =>
      PrintEnds(x);
      CleanNot(pad + Print(x), Print(x));
    case Eq(l, pl, op, pr, r) =>
      PrintEnds(l);
      PrintEnds(r);
      CleanComparison(Print(l), pl, op, pr, Print(r));
    case Paren(pre, x, post) =>
      CleanWrapped('(', pre + Print(x) + post, ')');
  }

  // ---------------------------------------------------------------- parsing printed text

  lemma QuietHasNone(s: string)
    requires Quiet(s)
    ensures FirstEquality(s, 0) == None
  {
    forall i: nat ensures !IsEquality(s, i) {
      QuietHasNoEquality(s, i);
    }
  }

  // Nothing before the operator of a printed comparison is taken for an operator.
  lemma NoEarlierEquality(lead: string, rest: string, i: nat)
    requires Safe(lead, Both) && Quiet(lead) && i < |lead|
    requires lead[|lead| - 1] != '!'
    ensures !IsEquality(lead + rest, i)
  {
    var t := lead + rest;
    if IsEquality(t, i) {
      assert t[..i] == lead[..i];
      assert lead[i] == '!' && i + 1 < |lead|;
      DepthStep(lead, i, Both);
    }
  }

  lemma LeadIsNotBlank(l: string, pl: string)
    requires CleanEnds(l) && Blank(pl)
    ensures Trim(l + pl) != ""
  {
    TrimAfter(l, pl);
  }

  lemma LeadIsQuiet(l: string, pl: string)
    requires Safe(l, Both) && Quiet(l) && CleanEnds(l) && Blank(pl)
    ensures Safe(l + pl, Both) && Quiet(l + pl)
    ensures (l + pl)[|l + pl| - 1] != '!' && (l + pl)[|l + pl| - 1] != '='
  {
    BlankIsQuiet(pl);
    SafeConcat(l, pl, Both);
    QuietConcat(l, pl);
    if pl != "" {
      assert pl[|pl| - 1] in pl;
      assert (l + pl)[|l + pl| - 1] == pl[|pl| - 1];
    }
  }

  lemma OperatorIsRead(lead: string, op: EqOp, tail: string)
    requires tail == "" || tail[0] != '='
    ensures
      var t := lead + (OpText(op) + tail);
      && |lead| + 1 < |t|
      && (t[|lead|] == '=' || t[|lead|] == '!') && t[|lead| + 1] == '='
      && OperatorAt(t, |lead|) == OpText(op)
  {
    var o := OpText(op);
    var t, k := lead + (o + tail), |lead|;
    assert t[k] == o[0] && t[k + 1] == o[1];
    assert |o| == 3 ==> t[k + 2] == o[2];
    assert |o| == 2 && tail != "" ==> t[k + 2] == tail[0];
  }

  // Where the scan of a printed comparison stops, and which operator it reads there.
  lemma ComparisonIsFound(lead: string, op: EqOp, tail: string)
    requires Safe(lead, Both) && Quiet(lead) && Trim(lead) != ""
    requires lead != "" && lead[|lead| - 1] != '!' && lead[|lead| - 1] != '='
    requires tail == "" || tail[0] != '='
    ensures |lead + (OpText(op) + tail)| > |lead| + 1
    ensures FirstEquality(lead + (OpText(op) + tail), 0) == Some(|lead|)
    ensures OperatorAt(lead + (OpText(op) + tail), |lead|) == OpText(op)
  {
    var t, k := lead + (OpText(op) + tail), |lead|;
    forall i: nat | i < k ensures !IsEquality(t, i) {
      NoEarlierEquality(lead, OpText(op) + tail, i);
    }
    OperatorIsRead(lead, op, tail);
    assert t[..k] == lead;
    assert t[k - 1] == lead[k - 1];
    assert IsFirstEquality(t, k);
    FirstEqualityIs(t, k);
  }

  // A printed comparison is never mistaken for a parenthesised whole.
  lemma ComparisonIsNotWrapped(l: Expr, rest: string)
    requires WellFormed(l) && !l.Eq? && rest != "" && Print(l)[0] == '('
    ensures Print(l) != "" && !WrapsWhole(Print(l) + rest)
  {
    PrintEnds(l);
    PrintIsSafe(l, Parens);
    var t, k := Print(l) + rest, |Print(l)|;
    assert t[..k] == Print(l);
    assert t[k - 1] == ')';
    assert t[..k - 1 + 1] == t[..k];
  }

  lemma ParenIsWrapped(inner: string)
    requires Safe(inner, Parens)
    ensures WrapsWhole("(" + inner + ")")
  {
    var t := "(" + inner + ")";
    assert t == ['('] + inner + [')'];
    forall i | 0 <= i < |t| - 1 && t[i] == ')' ensures Depth(t[..i + 1], Parens) != 0 {
      WrapDepth('(', inner, ')', i + 1, Parens);
    }
  }

  // Resolving a text is resolving its trimmed form.
  lemma ResolveTrims<V>(ops: Ops<V>, vals: V, pre: string, s: string, post: string)
    requires Blank(pre) && Blank(post) && Trimmed(s) && s != ""
    ensures Resolve(ops, vals, pre + s + post) == Resolve(ops, vals, s)
  {
    TrimPadded(pre, s, post);
    TrimOfTrimmed(s);
  }

  lemma ResolveOfTrimmed<V>(ops: Ops<V>, vals: V, t: string)
    requires Trimmed(t)
    ensures Resolve(ops, vals, t) == ResolveTrimmed(ops, vals, t)
  {
    TrimOfTrimmed(t);
  }

  lemma ResolveSplits<V>(ops: Ops<V>, vals: V, t: string, i: nat)
    requires t != "" && FirstEquality(t, 0) == Some(i)
    requires t[0] == '(' && t[|t| - 1] == ')' ==> !WrapsWhole(t)
    ensures
      var op := OperatorAt(t, i);
      i + |op| <= |t| && ResolveTrimmed(ops, vals, t) ==
        Compare(ops, op, Resolve(ops, vals, t[..i]), Resolve(ops, vals, t[i + |op|..]))
  {
  }

  lemma ResolveAtEquality<V>(ops: Ops<V>, vals: V, t: string, lead: string, op: string, tail: string)
    requires t != "" && Trimmed(t) && |lead| + 1 < |t| && FirstEquality(t, 0) == Some(|lead|)
    requires t[0] == '(' ==> !WrapsWhole(t)
    requires OperatorAt(t, |lead|) == op && t[..|lead|] == lead && t[|lead| + |op|..] == tail
    ensures Resolve(ops, vals, t) == Compare(ops, op, Resolve(ops, vals, lead), Resolve(ops, vals, tail))
  {
    ResolveOfTrimmed(ops, vals, t);
    ResolveSplits(ops, vals, t, |lead|);
  }

  lemma ComparisonText(a: string, pl: string, o: string, pr: string, b: string)
    ensures a + pl + o + pr + b == (a + pl) + (o + (pr + b))
    ensures a + pl + o + pr + b == a + (pl + o + (pr + b))
    ensures (a + pl + o + pr + b)[..|a + pl|] == a + pl
    ensures (a + pl + o + pr + b)[|a + pl| + |o|..] == pr + b
  {
  }

  lemma ComparisonIsScanned(a: string, pl: string, op: EqOp, pr: string, b: string)
    requires Safe(a, Both) && Quiet(a) && CleanEnds(a) && CleanEnds(b) && Blank(pl) && Blank(pr)
    ensures
      var t := a + pl + OpText(op) + pr + b;
      && CleanEnds(t) && t[0] == a[0]
      && |a + pl| + 1 < |t|
      && FirstEquality(t, 0) == Some(|a + pl|)
      && OperatorAt(t, |a + pl|) == OpText(op)
  {
    ComparisonText(a, pl, OpText(op), pr, b);
    LeadIsQuiet(a, pl);
    LeadIsNotBlank(a, pl);
    CleanComparison(a, pl, op, pr, b);
    assert (pr + b)[0] != '=' by {
      if pr != "" {
        assert pr[0] in pr;
      }
    }
    ComparisonIsFound(a + pl, op, pr + b);
  }

  lemma ReadComparison<V>(ops: Ops<V>, vals: V, a: string, pl: string, op: EqOp, pr: string, b: string)
    requires Safe(a, Both) && Quiet(a) && CleanEnds(a) && CleanEnds(b) && Blank(pl) && Blank(pr)
    requires a[0] == '(' ==> !WrapsWhole(a + (pl + OpText(op) + (pr + b)))
    ensures Resolve(ops, vals, a + pl + OpText(op) + pr + b) ==
      Compare(ops, OpText(op), Resolve(ops, vals, a + pl), Resolve(ops, vals, pr + b))
  {
    ComparisonIsScanned(a, pl, op, pr, b);
    ComparisonText(a, pl, OpText(op), pr, b);
    ResolveAtEquality(ops, vals, a + pl + OpText(op) + pr + b, a + pl, OpText(op), pr + b);
  }

  lemma ReadSides<V>(ops: Ops<V>, vals: V, a: string, pl: string, pr: string, b: string)
    requires CleanEnds(a) && CleanEnds(b) && Blank(pl) && Blank(pr)
    ensures Resolve(ops, vals, a + pl) == Resolve(ops, vals, a) && Resolve(ops, vals, pr + b) == Resolve(ops, vals, b)
  {
    ResolveTrimsEnd(ops, vals, a, pl);
    ResolveTrimsStart(ops, vals, pr, b);
  }

  lemma EvalCompares<V>(ops: Ops<V>, vals: V, l: Expr, pl: string, op: EqOp, pr: string, r: Expr)
    ensures Eval(ops, vals, Eq(l, pl, op, pr, r)) ==
      Compare(ops, OpText(op), Eval(ops, vals, l), Eval(ops, vals, r))
  {
    match op
    case StrictEq =>
    case StrictNe =>
    case LooseEq =>
    case LooseNe =>
  }

  lemma ReadOperands<V>(ops: Ops<V>, vals: V, l: Expr, pl: string, op: EqOp, pr: string, r: Expr)
    requires WellFormed(Eq(l, pl, op, pr, r))
    ensures Resolve(ops, vals, Print(Eq(l, pl, op, pr, r))) ==
      Compare(ops, OpText(op), Resolve(ops, vals, Print(l)), Resolve(ops, vals, Print(r)))
  {
    ComparisonIsReadWhole(l, pl, op, pr, r);
    ReadComparison(ops, vals, Print(l), pl, op, pr, Print(r));
    ReadSides(ops, vals, Print(l), pl, pr, Print(r));
  }

  lemma ComparisonIsReadWhole(l: Expr, pl: string, op: EqOp, pr: string, r: Expr)
    requires WellFormed(Eq(l, pl, op, pr, r))
    ensures Safe(Print(l), Both) && Quiet(Print(l)) && CleanEnds(Print(l)) && CleanEnds(Print(r))
    ensures Print(l)[0] == '(' ==> !WrapsWhole(Print(l) + (pl + OpText(op) + (pr + Print(r))))
  {
    PrintEnds(l);
    PrintEnds(r);
    PrintIsSafe(l, Both);
    PrintIsQuiet(l);
    if Print(l)[0] == '(' {
      ComparisonIsNotWrapped(l, pl + OpText(op) + (pr + Print(r)));
    }
  }

  lemma ResolveTrimsEnd<V>(ops: Ops<V>, vals: V, s: string, post: string)
    requires Blank(post) && Trimmed(s) && s != ""
    ensures Resolve(ops, vals, s + post) == Resolve(ops, vals, s)
  {
    TrimAfter(s, post);
    TrimOfTrimmed(s);
  }

  lemma ResolveTrimsStart<V>(ops: Ops<V>, vals: V, pre: string, s: string)
    requires Blank(pre) && Trimmed(s) && s != ""
    ensures Resolve(ops, vals, pre + s) == Resolve(ops, vals, s)
  {
    TrimBefore(pre, s);
    TrimOfTrimmed(s);
  }

  lemma ResolveComparison<V>(ops: Ops<V>, vals: V, l: Expr, pl: string, op: EqOp, pr: string, r: Expr)
    requires WellFormed(Eq(l, pl, op, pr, r))
    ensures Resolve(ops, vals, Print(Eq(l, pl, op, pr, r))) == Eval(ops, vals, Eq(l, pl, op, pr, r))
    decreases Eq(l, pl, op, pr, r), 0
  {
    ReadOperands(ops, vals, l, pl, op, pr, r);
    ResolvePrint(ops, vals, l);
    ResolvePrint(ops, vals, r);
    EvalCompares(ops, vals, l, pl, op, pr, r);
  }

  lemma ReadParens<V>(ops: Ops<V>, vals: V, inner: string)
    requires Safe(inner, Parens)
    ensures Resolve(ops, vals, "(" + inner + ")") == Resolve(ops, vals, inner)
  {
    var t := "(" + inner + ")";
    ParenIsWrapped(inner);
    CleanWrapped('(', inner, ')');
    TrimOfTrimmed(t);
    assert t[1..|t| - 1] == inner;
  }

  lemma ResolveParen<V>(ops: Ops<V>, vals: V, pre: string, x: Expr, post: string)
    requires WellFormed(Paren(pre, x, post))
    ensures Resolve(ops, vals, Print(Paren(pre, x, post))) == Eval(ops, vals, Paren(pre, x, post))
    decreases Paren(pre, x, post), 0
  {
    PrintEnds(x);
    PaddedIsSafe(pre, x, post, Parens);
    ReadParens(ops, vals, pre + Print(x) + post);
    ResolveTrims(ops, vals, pre, Print(x), post);
    ResolvePrint(ops, vals, x);
  }

  lemma ReadNegation<V>(ops: Ops<V>, vals: V, rest: string)
    requires CleanEnds("!" + rest) && Quiet("!" + rest)
    ensures Resolve(ops, vals, "!" + rest) == ops.ofBool(!ops.truthy(Resolve(ops, vals, rest)))
  {
    var t := "!" + rest;
    QuietHasNone(t);
    TrimOfTrimmed(t);
    assert t[1..] == rest;
  }

  lemma ResolveNot<V>(ops: Ops<V>, vals: V, pad: string, x: Expr)
    requires WellFormed(Not(pad, x))
    ensures Resolve(ops, vals, Print(Not(pad, x))) == Eval(ops, vals, Not(pad, x))
    decreases Not(pad, x), 0
  {
    PrintEnds(Not(pad, x));
    PrintIsQuiet(Not(pad, x));
    ReadNegation(ops, vals, pad + Print(x));
    PrintEnds(x);
    ResolveTrimsStart(ops, vals, pad, Print(x));
    ResolvePrint(ops, vals, x);
  }

  // Texts that are neither parenthesised, nor a comparison, nor a negation.
  lemma ResolveAtom<V>(ops: Ops<V>, vals: V, t: string)
    requires CleanEnds(t) && Quiet(t) && t[0] != '(' && t[0] != '!'
    ensures Resolve(ops, vals, t) ==
      if t == "true" then ops.ofBool(true)
      else if t == "false" then ops.ofBool(false)
      else if t == "null" then ops.nul
      else if t == "undefined" then ops.undef
      else if IsNumeral(t) then ops.ofNumber(t)
      else if |t| >= 2 && (t[0] == '"' || t[0] == '\'') && t[|t| - 1] == t[0] then ops.ofString(t[1..|t| - 1])
      else ResolvePath(ops, vals, t)
  {
    NumberIff(t);
    TrimOfTrimmed(t);
    QuietHasNone(t);
  }

  lemma {:induction false} IdentTailOf(name: string, rest: string)
    requires forall i :: 0 <= i < |name| ==> IsIdentChar(name[i])
    requires rest == "" || !IsIdentChar(rest[0])
    ensures IdentTail(name + rest) == |name|
  {
    if name == "" {
      assert name + rest == rest;
    } else {
      assert (name + rest)[1..] == name[1..] + rest;
      IdentTailOf(name[1..], rest);
    }
  }

  lemma {:induction false} DigitsOf(name: string, rest: string)
    requires forall i :: 0 <= i < |name| ==> '0' <= name[i] <= '9'
    requires rest == "" || !IsDigit(rest[0])
    ensures Digits(name + rest) == |name|
  {
    if name == "" {
      assert name + rest == rest;
    } else {
      assert (name + rest)[1..] == name[1..] + rest;
      DigitsOf(name[1..], rest);
    }
  }

  lemma IdentOf(name: string, rest: string)
    requires IsIdent(name)
    requires rest == "" || !IsIdentChar(rest[0])
    ensures IdentLength(name + rest) == |name|
  {
    assert (name + rest)[1..] == name[1..] + rest;
    IdentTailOf(name[1..], rest);
  }

  lemma MemberOf(name: string, rest: string)
    requires IsMemberName(name)
    requires rest == "" || !IsIdentChar(rest[0])
    ensures MemberLength(name + rest) == |name|
  {
    if IsIdent(name) {
      IdentOf(name, rest);
    } else {
      DigitsOf(name, rest);
    }
  }

  lemma WholeIsUnsigned(digits: string)
    requires OnlyDigits(digits)
    ensures IsUnsigned(digits)
  {
    assert digits + "" == digits;
    DigitsOf(digits, "");
  }

  lemma FractionText(digits: string, fraction: string)
    requires digits != "" && fraction != ""
    ensures
      var s := digits + ("." + fraction);
      && s[0] == digits[0] && s[|digits|] == '.' && s[|digits| + 1..] == fraction
      && |s| == |digits| + 1 + |fraction|
  {
  }

  lemma FractionIsUnsigned(digits: string, fraction: string)
    requires OnlyDigits(digits) && OnlyDigits(fraction)
    ensures IsUnsigned(digits + ("." + fraction))
  {
    FractionText(digits, fraction);
    DigitsOf(digits, "." + fraction);
    assert fraction + "" == fraction;
    DigitsOf(fraction, "");
  }

  lemma SignedText(body: string)
    requires body != "" && '0' <= body[0] <= '9'
    ensures ("-" + body)[1..] == body && "" + body == body
  {
  }

  lemma NumeralIsNumber(t: string, minus: bool, digits: string, fraction: Option<string>)
    requires IsNumeralOf(t, minus, digits, fraction)
    ensures IsNumber(t)
  {
    var body := digits + (if fraction.Some? then "." + fraction.value else "");
    if fraction.Some? {
      FractionIsUnsigned(digits, fraction.value);
    } else {
      assert body == digits;
      WholeIsUnsigned(digits);
    }
    assert body[0] == digits[0];
    SignedText(body);
  }

  lemma UnsignedParts(body: string) returns (digits: string, fraction: Option<string>)
    requires IsUnsigned(body)
    ensures OnlyDigits(digits) && (fraction.Some? ==> OnlyDigits(fraction.value))
    ensures body == digits + (if fraction.Some? then "." + fraction.value else "")
  {
    var n := Digits(body);
    DigitsAreDigits(body);
    digits, fraction := body[..n], None;
    if n < |body| {
      fraction := Some(body[n + 1..]);
      DigitsAreDigits(body[n + 1..]);
    }
  }

  lemma NumberIsNumeral(t: string)
    requires IsNumber(t)
    ensures IsNumeral(t)
  {
    var minus := t != "" && t[0] == '-';
    var digits, fraction := UnsignedParts(if minus then t[1..] else t);
    assert IsNumeralOf(t, minus, digits, fraction);
  }

  // The number pattern matches exactly the numerals.
  lemma NumberIff(t: string)
    ensures IsNumber(t) <==> IsNumeral(t)
  {
    if IsNumber(t) {
      NumberIsNumeral(t);
    }
    if minus, digits, fraction :| IsNumeralOf(t, minus, digits, fraction) {
      NumeralIsNumber(t, minus, digits, fraction);
    }
  }

  lemma CloseIsFound(inner: string, rest: string)
    requires Safe(inner, Brackets)
    ensures FirstClose(inner + "]" + rest, 0) == Some(|inner|)
  {
    var t, k := inner + "]" + rest, |inner|;
    assert t[..k] == inner;
    forall j: nat | j < k ensures !Closes(t, j) {
      assert t[..j] == inner[..j];
      DepthStep(inner, j, Brackets);
    }
    assert Closes(t, k);
  }

  // The reader and the printer agree: a printed tree resolves to the value of the tree, for
  // any values, any run-time operators, and any layout.
  lemma {:induction false} ResolvePrint<V>(ops: Ops<V>, vals: V, e: Expr)
    requires WellFormed(e)
    ensures Resolve(ops, vals, Print(e)) == Eval(ops, vals, e)
    decreases e, 1
  {
    match e
    case Word(k) => ResolveWord(ops, vals, k);
    case Num(minus, digits, fraction) => ResolveNumber(ops, vals, minus, digits, fraction);
    case Str(q, text) => ResolveString(ops, vals, q, text);
    case Path(head, segs) => ResolvePathText(ops, vals, head, segs);
    case Not(pad, x) => ResolveNot(ops, vals, pad, x);
    case Eq(l, pl, op, pr, r) => ResolveComparison(ops, vals, l, pl, op, pr, r);
    case Paren(pre, x, post) => ResolveParen(ops, vals, pre, x, post);
  }

  lemma ResolveWord<V>(ops: Ops<V>, vals: V, k: Keyword)
    ensures Resolve(ops, vals, Print(Word(k))) == Eval(ops, vals, Word(k))
  {
    PrintEnds(Word(k));
    PrintIsQuiet(Word(k));
    ResolveAtom(ops, vals, KeywordText(k));
  }

  lemma NumeralIsNoWord(t: string)
    requires t != "" && (IsDigit(t[0]) || t[0] == '-')
    ensures t != "true" && t != "false" && t != "null" && t != "undefined"
  {
  }

  lemma ResolveNumeral<V>(ops: Ops<V>, vals: V, t: string, minus: bool, digits: string, fraction: Option<string>)
    requires IsNumeralOf(t, minus, digits, fraction) && CleanEnds(t) && Quiet(t) && t[0] != '(' && t[0] != '!'
    ensures Resolve(ops, vals, t) == ops.ofNumber(t)
  {
    NumberChars(t, minus, digits, fraction);
    NumeralIsNoWord(t);
    ResolveAtom(ops, vals, t);
  }

  // Every numeral is read as the number of its text.
  lemma ResolveNumber<V>(ops: Ops<V>, vals: V, minus: bool, digits: string, fraction: Option<string>)
    requires OnlyDigits(digits) && (fraction.Some? ==> OnlyDigits(fraction.value))
    ensures Resolve(ops, vals, NumText(minus, digits, fraction)) == ops.ofNumber(NumText(minus, digits, fraction))
  {
    var e := Num(minus, digits, fraction);
    PrintEnds(e);
    PrintIsQuiet(e);
    ResolveNumeral(ops, vals, Print(e), minus, digits, fraction);
  }

  lemma QuotedIsNoName(t: string)
    requires t != "" && (t[0] == '"' || t[0] == '\'')
    ensures !IsNumber(t) && forall k :: t != KeywordText(k)
  {
  }

  lemma QuotedText(q: char, text: string)
    ensures var t := [q] + text + [q]; t[0] == q && t[|t| - 1] == q && t[1..|t| - 1] == text
  {
  }

  lemma ResolveQuoted<V>(ops: Ops<V>, vals: V, t: string)
    requires CleanEnds(t) && Quiet(t) && IsQuoted(t)
    ensures Resolve(ops, vals, t) == ops.ofString(t[1..|t| - 1])
  {
    QuotedIsNoName(t);
    assert t != KeywordText(True) && t != KeywordText(False);
    assert t != KeywordText(Null) && t != KeywordText(Undefined);
    ResolveAtom(ops, vals, t);
  }

  lemma ResolveString<V>(ops: Ops<V>, vals: V, q: char, text: string)
    requires (q == '"' || q == '\'') && PlainText(text)
    ensures Resolve(ops, vals, Print(Str(q, text))) == Eval(ops, vals, Str(q, text))
  {
    PrintEnds(Str(q, text));
    PrintIsQuiet(Str(q, text));
    QuotedText(q, text);
    ResolveQuoted(ops, vals, [q] + text + [q]);
  }

  lemma KeywordChars(k: Keyword)
    ensures forall i :: 0 <= i < |KeywordText(k)| ==> IsIdentStart(KeywordText(k)[i])
  {
  }

  lemma PathIsNoKeyword(head: string, segs: Segs, k: Keyword)
    requires IsIdent(head) && WellFormedSegs(segs)
    requires segs.End? ==> head != KeywordText(k)
    ensures head + PrintSegs(segs) != KeywordText(k)
  {
    var t := head + PrintSegs(segs);
    KeywordChars(k);
    SegsEnd(segs);
    if segs.End? {
      assert t == head;
    } else {
      assert t[|head|] == PrintSegs(segs)[0];
    }
  }

  lemma PathIsNoLiteral(head: string, segs: Segs)
    requires IsIdent(head) && WellFormedSegs(segs)
    ensures !IsNumber(head + PrintSegs(segs)) && !IsQuoted(head + PrintSegs(segs))
  {
    assert (head + PrintSegs(segs))[0] == head[0];
  }

  // Atoms that are no literals.
  lemma ResolveName<V>(ops: Ops<V>, vals: V, t: string)
    requires CleanEnds(t) && Quiet(t) && t[0] != '(' && t[0] != '!'
    requires !IsNumber(t) && !IsQuoted(t) && forall k :: t != KeywordText(k)
    ensures Resolve(ops, vals, t) == ResolvePath(ops, vals, t)
  {
    NumberIff(t);
    ResolveAtom(ops, vals, t);
    assert t != KeywordText(True) && t != KeywordText(False);
    assert t != KeywordText(Null) && t != KeywordText(Undefined);
  }

  lemma ReadPath<V>(ops: Ops<V>, vals: V, head: string, segs: Segs)
    requires WellFormed(Path(head, segs))
    ensures Resolve(ops, vals, head + PrintSegs(segs)) == ResolvePath(ops, vals, head + PrintSegs(segs))
  {
    var t := head + PrintSegs(segs);
    PathIsName(head, segs, t);
    ResolveName(ops, vals, t);
  }

  lemma PathIsName(head: string, segs: Segs, t: string)
    requires WellFormed(Path(head, segs)) && t == head + PrintSegs(segs)
    ensures CleanEnds(t) && Quiet(t) && t[0] != '(' && t[0] != '!'
    ensures !IsNumber(t) && !IsQuoted(t) && forall k :: t != KeywordText(k)
  {
    PrintEnds(Path(head, segs));
    PrintIsQuiet(Path(head, segs));
    PathIsNoLiteral(head, segs);
    forall k ensures t != KeywordText(k) {
      PathIsNoKeyword(head, segs, k);
    }
  }

  lemma ReadHead<V>(ops: Ops<V>, vals: V, head: string, rest: string)
    requires IsIdent(head) && (rest == "" || !IsIdentChar(rest[0]))
    ensures ResolvePath(ops, vals, head + rest) == PathRest(ops, vals, rest, Member(ops, vals, ops.ofString(head)))
  {
    IdentOf(head, rest);
    assert (head + rest)[..|head|] == head && (head + rest)[|head|..] == rest;
  }

  lemma ReadPathText<V>(ops: Ops<V>, vals: V, head: string, segs: Segs)
    requires WellFormed(Path(head, segs))
    ensures Resolve(ops, vals, head + PrintSegs(segs)) ==
      PathRest(ops, vals, PrintSegs(segs), Member(ops, vals, ops.ofString(head)))
  {
    ReadPath(ops, vals, head, segs);
    SegsEnd(segs);
    ReadHead(ops, vals, head, PrintSegs(segs));
  }

  lemma ResolvePathText<V>(ops: Ops<V>, vals: V, head: string, segs: Segs)
    requires WellFormed(Path(head, segs))
    ensures Resolve(ops, vals, Print(Path(head, segs))) == Eval(ops, vals, Path(head, segs))
    decreases Path(head, segs), 0
  {
    ReadPathText(ops, vals, head, segs);
    ResolveSegs(ops, vals, segs, Member(ops, vals, ops.ofString(head)));
  }

  lemma ReadDot<V>(ops: Ops<V>, vals: V, name: string, more: string, cur: V)
    requires IsMemberName(name) && (more == "" || !IsIdentChar(more[0]))
    ensures PathRest(ops, vals, "." + name + more, cur) ==
      PathRest(ops, vals, more, Member(ops, cur, ops.ofString(name)))
  {
    MemberOf(name, more);
    assert ("." + name + more)[1..] == name + more;
    assert (name + more)[..|name|] == name && (name + more)[|name|..] == more;
  }

  lemma ReadIndex<V>(ops: Ops<V>, vals: V, inner: string, more: string, cur: V)
    requires Safe(inner, Brackets)
    ensures PathRest(ops, vals, "[" + inner + "]" + more, cur) ==
      PathRest(ops, vals, more, Member(ops, cur, Resolve(ops, vals, inner)))
  {
    var tail := inner + "]" + more;
    CloseIsFound(inner, more);
    assert ("[" + inner + "]" + more)[1..] == tail;
    assert tail[..|inner|] == inner && tail[|inner| + 1..] == more;
  }

  lemma SegsText(s: Segs, tail: string)
    ensures s.Dot? ==> PrintSegs(s) + tail == "." + s.name + (PrintSegs(s.rest) + tail)
    ensures s.Index? ==>
      PrintSegs(s) + tail == "[" + (s.pre + Print(s.key) + s.post) + "]" + (PrintSegs(s.rest) + tail)
  {
  }

  lemma SegsThenTail(s: Segs, tail: string)
    requires WellFormedSegs(s) && (tail == "" || !IsIdentChar(tail[0]))
    ensures PrintSegs(s) + tail == "" || !IsIdentChar((PrintSegs(s) + tail)[0])
  {
    SegsEnd(s);
    if PrintSegs(s) == "" {
      assert PrintSegs(s) + tail == tail;
    }
  }

  // The segments at the head of a path are read one by one, whatever follows them.
  lemma {:induction false} ReadSegs<V>(ops: Ops<V>, vals: V, s: Segs, tail: string, cur: V)
    requires WellFormedSegs(s) && (tail == "" || !IsIdentChar(tail[0]))
    ensures PathRest(ops, vals, PrintSegs(s) + tail, cur) == PathRest(ops, vals, tail, EvalSegs(ops, vals, s, cur))
    decreases s, 0
  {
    SegsText(s, tail);
    match s
    case End => assert PrintSegs(s) + tail == tail;
    case Dot(name, rest) =>
      SegsThenTail(rest, tail);
      ReadDot(ops, vals, name, PrintSegs(rest) + tail, cur);
      ReadSegs(ops, vals, rest, tail, Member(ops, cur, ops.ofString(name)));
    case Index(pre, key, post, rest) =>
      ReadKey(ops, vals, pre, key, post);
      ReadIndex(ops, vals, pre + Print(key) + post, PrintSegs(rest) + tail, cur);
      ReadSegs(ops, vals, rest, tail, Member(ops, cur, Eval(ops, vals, key)));
  }

  lemma {:induction false} ResolveSegs<V>(ops: Ops<V>, vals: V, s: Segs, cur: V)
    requires WellFormedSegs(s)
    ensures PathRest(ops, vals, PrintSegs(s), cur) == EvalSegs(ops, vals, s, cur)
    decreases s, 1
  {
    ReadSegs(ops, vals, s, "", cur);
    assert PrintSegs(s) + "" == PrintSegs(s);
  }

  lemma ReadKey<V>(ops: Ops<V>, vals: V, pre: string, key: Expr, post: string)
    requires Blank(pre) && Blank(post) && WellFormed(key)
    ensures Safe(pre + Print(key) + post, Brackets)
    ensures Resolve(ops, vals, pre + Print(key) + post) == Eval(ops, vals, key)
    decreases key, 2
  {
    PaddedIsSafe(pre, key, post, Brackets);
    PrintEnds(key);
    ResolveTrims(ops, vals, pre, Print(key), post);
    ResolvePrint(ops, vals, key);
  }

  // ---------------------------------------------------------------- the scanners in terms of counts

  lemma {:induction false} DepthCounts(s: string)
    ensures Depth(s, Parens) + multiset(s)[')'] == multiset(s)['(']
    ensures Depth(s, Brackets) + multiset(s)[']'] == multiset(s)['[']
    ensures Depth(s, Both) + multiset(s)[')'] + multiset(s)[']'] == multiset(s)['('] + multiset(s)['[']
  {
    if s != "" {
      DepthCounts(s[..|s| - 1]);
      assert s == s[..|s| - 1] + [s[|s| - 1]];
    }
  }

  // As many openings as closings of both kinds together.
  ghost predicate Balanced(s: string) {
    multiset(s)['('] + multiset(s)['['] == multiset(s)[')'] + multiset(s)[']']
  }

  // An equals sign or exclamation mark before an equals sign, with as many openings as closings
  // before it, something other than blanks before it, and not one of the two right before it.
  lemma EqualityIff(t: string, i: nat)
    ensures IsEquality(t, i) <==>
      && i + 1 < |t| && (t[i] == '=' || t[i] == '!') && t[i + 1] == '=' && Balanced(t[..i]) && !Blank(t[..i])
      && (i > 0 ==> t[i - 1] != '=' && t[i - 1] != '!')
  {
    if i <= |t| {
      DepthCounts(t[..i]);
      BlankIffNothingLeft(t[..i]);
    }
  }

  lemma ClosesIff(t: string, j: nat)
    ensures Closes(t, j) <==>
      j < |t| && t[j] == ']' && multiset(t[..j])['['] == multiset(t[..j])[']']
  {
    if j < |t| {
      DepthCounts(t[..j]);
    }
  }

  // No part of the text that ends before its last character, in a closing parenthesis, has as
  // many openings as closings.
  lemma WrapsWholeIff(t: string)
    ensures WrapsWhole(t) <==>
      forall i :: 0 <= i < |t| - 1 && t[i] == ')' ==> multiset(t[..i + 1])['('] != multiset(t[..i + 1])[')']
  {
    forall i | 0 <= i < |t| - 1 && t[i] == ')'
      ensures Depth(t[..i + 1], Parens) == 0 <==> multiset(t[..i + 1])['('] == multiset(t[..i + 1])[')']
    {
      DepthCounts(t[..i + 1]);
    }
  }

  // ---------------------------------------------------------------- what cannot be read

  lemma BlankIsUndefined<V>(ops: Ops<V>, vals: V, s: string)
    requires Blank(s)
    ensures Resolve(ops, vals, s) == ops.undef
  {
    TrimStartPad(s, "");
    assert s + "" == s;
  }

  // A path starts with a letter, an underscore or a dollar sign.
  lemma HeadlessIsUndefined<V>(ops: Ops<V>, vals: V, t: string)
    requires t == "" || !('A' <= t[0] <= 'Z' || 'a' <= t[0] <= 'z' || t[0] == '_' || t[0] == '$')
    ensures ResolvePath(ops, vals, t) == ops.undef
  {
  }

  // Nothing that a path can go on with: no name behind a point, an index that is never closed,
  // or a character of another kind.
  ghost predicate Breaks(tail: string) {
    && tail != "" && !IsIdentChar(tail[0])
    && (tail[0] == '.' ==> |tail| == 1 || !IsIdentChar(tail[1]))
    && (tail[0] == '[' ==> forall j: nat :: !Closes(tail[1..], j))
  }

  lemma BrokenTail<V>(ops: Ops<V>, vals: V, tail: string, cur: V)
    requires Breaks(tail)
    ensures PathRest(ops, vals, tail, cur) == ops.undef
  {
  }

  // A path that breaks off is undefined, however much of it could be read.
  lemma BrokenPathIsUndefined<V>(ops: Ops<V>, vals: V, head: string, segs: Segs, tail: string)
    requires IsIdent(head) && WellFormedSegs(segs) && Breaks(tail)
    ensures ResolvePath(ops, vals, head + (PrintSegs(segs) + tail)) == ops.undef
  {
    var cur := Member(ops, vals, ops.ofString(head));
    SegsThenTail(segs, tail);
    ReadHead(ops, vals, head, PrintSegs(segs) + tail);
    ReadSegs(ops, vals, segs, tail, cur);
    BrokenTail(ops, vals, tail, EvalSegs(ops, vals, segs, cur));
  }
}
