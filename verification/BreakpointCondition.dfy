/** Compound breakpoint conditions: the recursive parser for &&, || and !, the printer, the
    evaluator, and exactly which conditions survive being printed and parsed again. */
module BreakpointCondition {

  /** A condition tree; Nil is the nil pointer. */
  datatype Cond =
    | Nil
    | Leaf(operand: string)
    | And(left: Cond, right: Cond)
    | Or(left: Cond, right: Cond)
    | Not(inner: Cond)

  // --------------------------------------------------------------- text helpers

  /** White space in the sense of Go's unicode.IsSpace, for the Latin-1 range. */
  predicate IsSpace(c: char) {
    c == ' ' || '\t' <= c <= '\r' || c == '\U{0085}' || c == '\U{00A0}'
  }

  function TrimLeft(s: string): (t: string)
    ensures |t| <= |s|
  {
    if s != [] && IsSpace(s[0]) then TrimLeft(s[1..]) else s
  }

  function TrimRight(s: string): (t: string)
    ensures |t| <= |s|
  {
    if s != [] && IsSpace(s[|s| - 1]) then TrimRight(s[..|s| - 1]) else s
  }

  function TrimSpace(s: string): (t: string)
    ensures |t| <= |s|
  {
    TrimRight(TrimLeft(s))
  }

  /** Removes one leading "(", if any, then one trailing ")", if any. */
  function TrimPrefix(s: string): (t: string)
    ensures |t| <= |s|
  {
    if s != [] && s[0] == '(' then s[1..] else s
  }

  function TrimSuffix(s: string): (t: string)
    ensures |t| <= |s|
  {
    if s != [] && s[|s| - 1] == ')' then s[..|s| - 1] else s
  }

  function StripParens(s: string): (t: string)
    ensures |t| <= |s|
  {
    TrimSuffix(TrimPrefix(s))
  }

  // -------------------------------------------------------------------- scanner

  /** The operator consists of c twice, where c is '&' or '|'. */
  predicate OperatorAt(s: string, i: nat, c: char) {
    && i + 2 <= |s| && s[i] == c && s[i + 1] == c
    && (c == '&' && i + 2 < |s| ==> s[i + 2] != '&')
  }

  /** The first position from i on where the operator stands outside parentheses, -1 if none;
      depth counts the parentheses open before i and may be negative. */
  function Scan(s: string, i: nat, depth: int, c: char): (r: int)
    ensures r == -1 || i <= r < |s| - 1
    decreases |s| - i
  {
    if i + 1 >= |s| then -1
    else if s[i] == '(' then Scan(s, i + 1, depth + 1, c)
    else if s[i] == ')' then Scan(s, i + 1, depth - 1, c)
    else if depth == 0 && OperatorAt(s, i, c) then i
    else Scan(s, i + 1, depth, c)
  }

  /** Opening minus closing parentheses. */
  function Depth(s: string): int {
    multiset(s)['('] as int - multiset(s)[')']
  }

  /** The operator stands at i, and as many parentheses are closed before it as are opened. */
  predicate SplitsAt(s: string, i: nat, c: char) {
    i < |s| && OperatorAt(s, i, c) && Depth(s[..i]) == 0
  }

  lemma DepthStep(s: string, i: nat)
    requires i < |s|
    ensures Depth(s[..i + 1]) == Depth(s[..i]) + if s[i] == '(' then 1 else if s[i] == ')' then -1 else 0
  {
    assert s[..i + 1] == s[..i] + [s[i]];
  }

  lemma ScanStep(s: string, i: nat, c: char)
    requires (c == '&' || c == '|') && i + 1 < |s|
    ensures Scan(s, i, Depth(s[..i]), c) == if SplitsAt(s, i, c) then i else Scan(s, i + 1, Depth(s[..i + 1]), c)
  {
    DepthStep(s, i);
    hide Depth;
  }

  lemma ScanEnds(s: string, i: nat, depth: int, c: char)
    requires |s| <= i + 1
    ensures Scan(s, i, depth, c) == -1
    ensures forall j :: i <= j < |s| ==> !SplitsAt(s, j, c)
  {
    hide Depth;
  }

  /** The scan from i on finds the first place where the operator splits the text. */
  lemma {:induction false} ScanFindsFirst(s: string, i: nat, c: char)
    requires (c == '&' || c == '|') && i <= |s|
    ensures var r := Scan(s, i, Depth(s[..i]), c);
            && (r >= 0 ==> i <= r && SplitsAt(s, r, c))
            && forall j :: i <= j < |s| && SplitsAt(s, j, c) ==> 0 <= r <= j
    decreases |s| - i
  {
    hide *;
    if i + 1 >= |s| {
      ScanEnds(s, i, Depth(s[..i]), c);
    } else {
      ScanStep(s, i, c);
      ScanFindsFirst(s, i + 1, c);
    }
  }

  /** The first place where the operator stands with all parentheses before it balanced in
      number, -1 if there is none. */
  method FindOperatorIndex(s: string, c: char) returns (r: int)
    requires c == '&' || c == '|'
    ensures r == Scan(s, 0, 0, c)
    ensures r >= 0 ==> SplitsAt(s, r, c)
    ensures forall i :: 0 <= i < |s| && SplitsAt(s, i, c) ==> 0 <= r <= i
  {
    assert Depth(s[..0]) == 0;
    ScanFindsFirst(s, 0, c);
    hide SplitsAt, Depth;
    var depth := 0;
    var i := 0;
    while i < |s| - 1
      invariant 0 <= i && (i <= |s| - 1 || i == 0)
      invariant Scan(s, i, depth, c) == Scan(s, 0, 0, c)
    {
      if s[i] == '(' {
        depth := depth + 1;
      } else if s[i] == ')' {
        depth := depth - 1;
      } else if depth == 0 && s[i] == c && s[i + 1] == c {
        if !(c == '&' && i + 2 < |s| && s[i + 2] == '&') {
          return i;
        }
      }
      i := i + 1;
    }
    return -1;
  }

  // ----------------------------------------------------- parser, printer, evaluator

  function Parse(condition: string): Cond
    decreases |condition|
  {
    var s := TrimSpace(condition);
    if s == "" then Nil
    else if s[0] == '!' then
      Not(Parse(StripParens(TrimSpace(s[1..]))))
    else
      var andIdx := Scan(s, 0, 0, '&');
      if andIdx >= 0 then
        And(Parse(StripParens(TrimSpace(s[..andIdx]))), Parse(StripParens(TrimSpace(s[andIdx + 2..]))))
      else
        var orIdx := Scan(s, 0, 0, '|');
        if orIdx >= 0 then
          Or(Parse(StripParens(TrimSpace(s[..orIdx]))), Parse(StripParens(TrimSpace(s[orIdx + 2..]))))
        else
          Leaf(s)
  }

  function Print(t: Cond): string {
    match t
    case Nil => ""
    case Leaf(operand) => operand
    case And(l, r) => "(" + Print(l) + " && " + Print(r) + ")"
    case Or(l, r) => "(" + Print(l) + " || " + Print(r) + ")"
    case Not(x) => "!(" + Print(x) + ")"
  }

  /** The value of a tree, given the values of simple conditions. */
  function Evaluate(t: Cond, simple: string -> bool): bool {
    match t
    case Nil => true
    case Leaf(operand) => operand == "" || simple(operand)
    case And(l, r) => Evaluate(l, simple) && Evaluate(r, simple)
    case Or(l, r) => Evaluate(l, simple) || Evaluate(r, simple)
    case Not(x) => !Evaluate(x, simple)
  }

  // ------------------------------------------------------------ well-formed trees

  predicate Trimmed(s: string) {
    s != [] && !IsSpace(s[0]) && !IsSpace(s[|s| - 1])
  }

  /** A simple condition: nothing in it can be taken for syntax. */
  predicate SimpleLeaf(s: string) {
    && Trimmed(s) && s[0] != '!'
    && forall i :: 0 <= i < |s| ==> s[i] != '(' && s[i] != ')' && s[i] != '&' && s[i] != '|'
  }

  predicate WellFormed(t: Cond) {
    match t
    case Nil => false
    case Leaf(operand) => SimpleLeaf(operand)
    case And(l, r) => WellFormed(l) && WellFormed(r)
    case Or(l, r) => WellFormed(l) && WellFormed(r)
    case Not(x) => WellFormed(x)
  }

  predicate NotFree(t: Cond) {
    match t
    case Nil => true
    case Leaf(_) => true
    case And(l, r) => NotFree(l) && NotFree(r)
    case Or(l, r) => NotFree(l) && NotFree(r)
    case Not(_) => false
  }

  /** Negations, any number, of a simple condition. */
  predicate NegatedLeaf(t: Cond) {
    match t
    case Leaf(_) => true
    case Not(x) => NegatedLeaf(x)
    case _ => false
  }

  /** The trees that parse back: a negation is of a simple condition only, and never stands
      as a left operand. */
  predicate Reparses(t: Cond) {
    match t
    case Nil => false
    case Leaf(_) => true
    case Not(_) => NegatedLeaf(t)
    case And(l, r) => !l.Not? && Reparses(l) && Reparses(r)
    case Or(l, r) => !l.Not? && Reparses(l) && Reparses(r)
  }

  predicate Compound(t: Cond) {
    t.And? || t.Or?
  }

  function Operator(t: Cond): char
    requires Compound(t)
  {
    if t.And? then '&' else '|'
  }

  function Infix(c: char): string {
    [' ', c, c, ' ']
  }

  /** The printed text without the outermost pair of parentheses of a compound. */
  function Body(t: Cond): string {
    if Compound(t) then Print(t.left) + Infix(Operator(t)) + Print(t.right) else Print(t)
  }

  lemma PrintCompound(t: Cond)
    requires Compound(t)
    ensures Print(t) == "(" + Body(t) + ")"
  {
  }

  // --------------------------------------------------------------- trimming

  /** Printed trees begin and end with something other than white space. */
  lemma {:induction false} PrintTrimmed(t: Cond)
    requires WellFormed(t)
    ensures Trimmed(Print(t))
    ensures Print(t)[0] == '!' <==> t.Not?
    ensures t.And? || t.Or? ==> Print(t)[0] == '('
    ensures t.Leaf? <==> Print(t)[0] != '!' && Print(t)[0] != '('
    ensures !t.Leaf? <==> Print(t)[|Print(t)| - 1] == ')'
  {
  }

  lemma TrimOfTrimmed(s: string)
    requires Trimmed(s)
    ensures TrimSpace(s) == s
  {
  }

  lemma TrimLeftSpace(s: string)
    requires Trimmed(s)
    ensures TrimSpace(" " + s) == s
  {
    assert (" " + s)[1..] == s;
    assert TrimLeft(" " + s) == TrimLeft(s) == s;
  }

  lemma TrimRightSpace(s: string)
    requires Trimmed(s)
    ensures TrimSpace(s + " ") == s
  {
    assert TrimLeft(s + " ") == s + " ";
    assert (s + " ")[..|s|] == s;
    assert TrimRight(s + " ") == TrimRight(s) == s;
  }

  // --------------------------------------------------------------- scanning

  predicate At(s: string, i: nat, e: string) {
    i + |e| <= |s| && s[i..i + |e|] == e
  }

  lemma AtSplit(s: string, i: nat, d: string, e: string)
    ensures At(s, i, d + e) <==> At(s, i, d) && At(s, i + |d|, e)
  {
    if i + |d| + |e| <= |s| {
      assert s[i..i + |d + e|] == s[i..i + |d|] + s[i + |d|..i + |d| + |e|];
      if At(s, i, d + e) {
        assert (d + e)[..|d|] == d && (d + e)[|d|..] == e;
      }
    }
  }

  lemma SkipOpen(s: string, i: nat, depth: int, c: char)
    requires At(s, i, "(")
    ensures Scan(s, i, depth, c) == Scan(s, i + 1, depth + 1, c)
  {
    assert s[i..i + 1][0] == s[i];
  }

  lemma SkipClose(s: string, i: nat, depth: int, c: char)
    requires At(s, i, ")")
    ensures Scan(s, i, depth, c) == Scan(s, i + 1, depth - 1, c)
  {
    assert s[i..i + 1][0] == s[i];
  }

  /** Text without parentheses is passed over inside parentheses, and outside them too if
      the operator's character is not in it. */
  lemma {:induction false} SkipPlain(s: string, i: nat, e: string, depth: int, c: char)
    requires At(s, i, e) && (depth == 0 ==> c !in e)
    requires forall j :: 0 <= j < |e| ==> e[j] != '(' && e[j] != ')'
    ensures Scan(s, i, depth, c) == Scan(s, i + |e|, depth, c)
    decreases |e|
  {
    if e == [] {
    } else {
      assert e == [e[0]] + e[1..];
      AtSplit(s, i, [e[0]], e[1..]);
      assert s[i..i + 1][0] == s[i];
      assert e[0] in e;
      SkipPlain(s, i + 1, e[1..], depth, c);
    }
  }

  /** Inside parentheses an operator is plain text. */
  lemma SkipInfix(s: string, i: nat, l: string, c: char, r: string, depth: int, d: char)
    requires At(s, i, l + Infix(c) + r) && c != '(' && c != ')' && (depth == 0 ==> d != c && d != ' ')
    ensures At(s, i, l) && At(s, i + |l| + 4, r)
    ensures Scan(s, i + |l|, depth, d) == Scan(s, i + |l| + 4, depth, d)
  {
    hide Scan, At;
    AtSplit(s, i, l + Infix(c), r);
    AtSplit(s, i, l, Infix(c));
    SkipPlain(s, i + |l|, Infix(c), depth, d);
  }

  lemma PrintNot(t: Cond)
    requires WellFormed(t) && t.Not?
    ensures WellFormed(t.inner) && Print(t) == "!" + "(" + Print(t.inner) + ")"
  {
    assert Print(t) == "!(" + Print(t.inner) + ")";
    hide Print;
    assert "!(" == "!" + "(";
  }

  lemma PrintLeaf(t: Cond)
    requires WellFormed(t) && t.Leaf?
    ensures Print(t) == t.operand && SimpleLeaf(t.operand)
    ensures forall c :: c == '&' || c == '|' ==> c !in t.operand
    ensures forall j :: 0 <= j < |t.operand| ==> t.operand[j] != '(' && t.operand[j] != ')'
  {
  }

  lemma BodyParts(t: Cond)
    requires WellFormed(t) && Compound(t)
    ensures WellFormed(t.left) && WellFormed(t.right)
    ensures |Body(t)| == |Print(t.left)| + 4 + |Print(t.right)|
    ensures Operator(t) == '&' || Operator(t) == '|'
  {
    hide Print;
  }

  /** Where the parts of a compound stand. */
  lemma BodyAt(s: string, i: nat, t: Cond)
    requires WellFormed(t) && Compound(t) && At(s, i, Body(t))
    ensures At(s, i, Print(t.left)) && At(s, i + |Print(t.left)|, Infix(Operator(t)))
    ensures At(s, i + |Print(t.left)| + 4, Print(t.right))
  {
    var l, c, r := Print(t.left), Operator(t), Print(t.right);
    hide *;
    BodyParts(t);
    AtSplit(s, i, l + Infix(c), r);
    AtSplit(s, i, l, Infix(c));
  }

  /** A printed tree is passed over: its operators are all inside its own parentheses. */
  lemma {:induction false} SkipPrinted(s: string, i: nat, t: Cond, depth: int, c: char)
    requires WellFormed(t) && At(s, i, Print(t)) && depth >= 0 && (c == '&' || c == '|')
    ensures Scan(s, i, depth, c) == Scan(s, i + |Print(t)|, depth, c)
    decreases t, 2
  {
    if t.Leaf? {
      hide Scan, At;
      PrintLeaf(t);
      SkipPlain(s, i, t.operand, depth, c);
    } else if t.Not? {
      hide *;
      SkipPrintedNot(s, i, t, depth, c);
    } else {
      assert Compound(t);
      hide *;
      SkipPrintedCompound(s, i, t, depth, c);
    }
  }

  lemma {:induction false} SkipPrintedCompound(s: string, i: nat, t: Cond, depth: int, c: char)
    requires WellFormed(t) && Compound(t) && At(s, i, Print(t)) && depth >= 0 && (c == '&' || c == '|')
    ensures Scan(s, i, depth, c) == Scan(s, i + |Print(t)|, depth, c)
    decreases t, 1
  {
    hide *;
    var body := Body(t);
    PrintCompound(t);
    AtSplit(s, i, "(" + body, ")");
    AtSplit(s, i, "(", body);
    SkipOpen(s, i, depth, c);
    SkipBody(s, i + 1, t, depth + 1, c);
    SkipClose(s, i + 1 + |body|, depth + 1, c);
  }

  lemma {:induction false} SkipPrintedNot(s: string, i: nat, t: Cond, depth: int, c: char)
    requires WellFormed(t) && t.Not? && At(s, i, Print(t)) && depth >= 0 && (c == '&' || c == '|')
    ensures Scan(s, i, depth, c) == Scan(s, i + |Print(t)|, depth, c)
    decreases t, 1
  {
    hide *;
    var x := t.inner;
    PrintNot(t);
    AtSplit(s, i, "!" + "(" + Print(x), ")");
    AtSplit(s, i, "!" + "(", Print(x));
    AtSplit(s, i, "!", "(");
    SkipPlain(s, i, "!", depth, c);
    SkipOpen(s, i + 1, depth, c);
    SkipPrinted(s, i + 2, x, depth + 1, c);
    SkipClose(s, i + 2 + |Print(x)|, depth + 1, c);
  }

  lemma {:induction false} SkipBody(s: string, i: nat, t: Cond, depth: int, c: char)
    requires WellFormed(t) && Compound(t) && At(s, i, Body(t))
    requires depth >= 0 && (c == '&' || c == '|') && (depth == 0 ==> c != Operator(t))
    ensures Scan(s, i, depth, c) == Scan(s, i + |Body(t)|, depth, c)
    decreases t, 0
  {
    hide Scan, At;
    var l, r := Print(t.left), Print(t.right);
    assert Body(t) == l + Infix(Operator(t)) + r && |Body(t)| == |l| + 4 + |r|;
    hide Print, Body;
    SkipInfix(s, i, l, Operator(t), r, depth, c);
    SkipPrinted(s, i, t.left, depth, c);
    SkipPrinted(s, i + |l| + 4, t.right, depth, c);
  }

  /** An operator outside parentheses is found behind the space in front of it. */
  lemma ScanFindsInfix(s: string, i: nat, c: char)
    requires (c == '&' || c == '|') && At(s, i, Infix(c))
    ensures Scan(s, i, 0, c) == i + 1
  {
    var e := s[i..i + 4];
    assert e[0] == s[i] && e[1] == s[i + 1] && e[2] == s[i + 2] && e[3] == s[i + 3];
    assert e == [' ', c, c, ' '];
    assert OperatorAt(s, i + 1, c);
    ScanPasses(s, i, c);
    ScanPasses(s, i + 1, c);
  }

  lemma ScanPasses(s: string, i: nat, c: char)
    requires (c == '&' || c == '|') && i + 1 < |s| && s[i] != '(' && s[i] != ')'
    ensures Scan(s, i, 0, c) == if OperatorAt(s, i, c) then i else Scan(s, i + 1, 0, c)
  {
    hide OperatorAt;
  }

  /** The operator is found where the printer put it. */
  lemma FindsOperator(t: Cond)
    requires WellFormed(t) && Compound(t)
    ensures Scan(Body(t), 0, 0, Operator(t)) == |Print(t.left)| + 1
    ensures Operator(t) == '|' ==> Scan(Body(t), 0, 0, '&') == -1
  {
    BodyParts(t);
    hide *;
    var s, l, c := Body(t), Print(t.left), Operator(t);
    AtStart(s);
    BodyAt(s, 0, t);
    SkipPrinted(s, 0, t.left, 0, c);
    ScanFindsInfix(s, |l|, c);
    if c == '|' {
      SkipBody(s, 0, t, 0, '&');
      ScanAtEnd(s, 0, '&');
    }
  }

  /** Nothing is found in text that is enclosed in parentheses, closed at the end or not. */
  lemma FindsNothingEnclosed(t: Cond, c: char)
    requires WellFormed(t) && Compound(t) && (c == '&' || c == '|')
    ensures Scan("(" + Body(t), 0, 0, c) == -1 && Scan(Print(t), 0, 0, c) == -1
  {
    hide Print, Body, Scan, At, WellFormed;
    var s := "(" + Body(t);
    AtStart(s);
    AtSplit(s, 0, "(", Body(t));
    SkipOpen(s, 0, 0, c);
    SkipBody(s, 1, t, 1, c);
    AtStart(Print(t));
    SkipPrinted(Print(t), 0, t, 0, c);
    ScanAtEnd(s, 1, c);
    ScanAtEnd(Print(t), 0, c);
  }

  lemma AtStart(s: string)
    ensures At(s, 0, s)
  {
  }

  lemma ScanAtEnd(s: string, depth: int, c: char)
    ensures Scan(s, |s|, depth, c) == -1
  {
  }

  lemma FindsNothingSimple(s: string, c: char)
    requires SimpleLeaf(s) && (c == '&' || c == '|')
    ensures Scan(s, 0, 0, c) == -1
  {
    assert At(s, 0, s);
    SkipPlain(s, 0, s, 0, c);
  }

  // ------------------------------------------------------- parsing printed trees

  /** How an operand's text, with its parentheses stripped, is parsed. */
  lemma OperandText(x: Cond)
    requires WellFormed(x)
    ensures StripParens(Print(x)) == if x.Not? then "!(" + Print(x.inner) else Body(x)
  {
    PrintTrimmed(x);
    hide StripParens, Trimmed;
    if x.Leaf? {
      StripNothing(Print(x));
    } else if x.Not? {
      StripNegation(Print(x.inner));
      assert Print(x) == "!(" + Print(x.inner) + ")";
    } else {
      PrintCompound(x);
      StripOuter(Body(x));
    }
  }

  lemma StripNothing(p: string)
    requires p != [] && p[0] != '(' && p[|p| - 1] != ')'
    ensures StripParens(p) == p
  {
  }

  lemma StripNegation(p: string)
    ensures StripParens("!(" + p + ")") == "!(" + p
  {
    assert ("!(" + p + ")")[..2 + |p|] == "!(" + p;
  }

  lemma StripOuter(p: string)
    ensures StripParens("(" + p + ")") == p && StripParens("(" + p) == TrimSuffix(p)
  {
    assert ("(" + p + ")")[1..] == p + ")" && (p + ")")[..|p|] == p;
    assert ("(" + p)[1..] == p;
  }

  lemma ParseSimple(s: string)
    requires SimpleLeaf(s)
    ensures Parse(s) == Leaf(s)
  {
    TrimOfTrimmed(s);
    FindsNothingSimple(s, '&');
    FindsNothingSimple(s, '|');
    hide Scan, TrimSpace;
  }

  /** A compound tree whose outermost parentheses are still there, both or only the first,
      is taken for one simple condition. */
  lemma ParseEnclosed(t: Cond)
    requires WellFormed(t) && Compound(t)
    ensures Parse(Print(t)) == Leaf(Print(t)) && Parse("(" + Body(t)) == Leaf("(" + Body(t))
  {
    PrintTrimmed(t);
    BodyTrimmed(t);
    TrimOfTrimmed(Print(t));
    TrimOfTrimmed("(" + Body(t));
    FindsNothingEnclosed(t, '&');
    FindsNothingEnclosed(t, '|');
    hide Scan, TrimSpace, Print, Body;
  }

  lemma BodyTrimmed(t: Cond)
    requires WellFormed(t) && Compound(t)
    ensures Trimmed(Body(t)) && (Body(t)[0] == '!' <==> t.left.Not?)
  {
    PrintTrimmed(t.left);
    PrintTrimmed(t.right);
    hide Print;
  }

  /** The sides of the operator, trimmed. */
  lemma Sides(t: Cond)
    requires WellFormed(t) && Compound(t)
    ensures
      var i := |Print(t.left)| + 1;
      && i + 2 <= |Body(t)|
      && TrimSpace(Body(t)[..i]) == Print(t.left) && TrimSpace(Body(t)[i + 2..]) == Print(t.right)
  {
    PrintTrimmed(t.left);
    PrintTrimmed(t.right);
    hide Print, TrimSpace, Trimmed, WellFormed, Infix;
    SidesOfText(Body(t), Print(t.left), Operator(t), Print(t.right));
  }

  lemma SidesOfText(s: string, l: string, c: char, r: string)
    requires Trimmed(l) && Trimmed(r) && s == l + Infix(c) + r
    ensures |l| + 3 <= |s| && TrimSpace(s[..|l| + 1]) == l && TrimSpace(s[|l| + 3..]) == r
  {
    TrimRightSpace(l);
    TrimLeftSpace(r);
    hide TrimSpace, Trimmed;
    assert s[..|l| + 1] == l + " ";
    assert s[|l| + 3..] == " " + r;
  }

  /** A printed compound without its outermost parentheses: parsed side by side, unless its
      left side is a negation, which then swallows everything. */
  lemma ParseBody(t: Cond)
    requires WellFormed(t) && Compound(t)
    ensures t.left.Not? ==> Parse(Body(t)).Not?
    ensures !t.left.Not? ==>
              var l, r := Parse(StripParens(Print(t.left))), Parse(StripParens(Print(t.right)));
              Parse(Body(t)) == if t.And? then And(l, r) else Or(l, r)
  {
    BodyTrimmed(t);
    TrimOfTrimmed(Body(t));
    FindsOperator(t);
    Sides(t);
    hide Scan, TrimSpace, Body, Print, StripParens;
  }

  /** "!(" x ")" at the top: the inner text loses its parentheses. */
  lemma ParseNegation(x: Cond)
    requires WellFormed(x)
    ensures Parse("!(" + Print(x) + ")") == Not(Parse(Print(x)))
    ensures Parse("!(" + Print(x)) == Not(Parse(TrimSuffix(Print(x))))
  {
    PrintTrimmed(x);
    ParseNegatedText(Print(x));
  }

  lemma ParseNegatedText(p: string)
    requires Trimmed(p)
    ensures Parse("!(" + p + ")") == Not(Parse(p))
    ensures Parse("!(" + p) == Not(Parse(TrimSuffix(p)))
  {
    hide *;
    StripOuter(p);
    EnclosedTrimmed(p);
    ParseAfterBang("(" + p + ")");
    ParseAfterBang("(" + p);
    assert "!" + ("(" + p + ")") == "!(" + p + ")";
    assert "!" + ("(" + p) == "!(" + p;
  }

  lemma EnclosedTrimmed(p: string)
    requires Trimmed(p)
    ensures Trimmed("(" + p + ")") && Trimmed("(" + p)
  {
  }

  lemma ParseAfterBang(q: string)
    requires Trimmed(q)
    ensures Parse("!" + q) == Not(Parse(StripParens(q)))
  {
    TrimOfTrimmed("!" + q);
    TrimOfTrimmed(q);
    hide TrimSpace, Scan, StripParens;
    assert ("!" + q)[1..] == q;
  }

  /** With all its parentheses a tree parses back exactly if it is a negated simple condition. */
  lemma {:induction false} ParsePrinted(t: Cond)
    requires WellFormed(t)
    ensures Parse(Print(t)) == t <==> NegatedLeaf(t)
  {
    if t.Leaf? {
      ParseSimple(t.operand);
    } else if t.Not? {
      ParseNegation(t.inner);
      ParsePrinted(t.inner);
    } else {
      ParseEnclosed(t);
    }
  }

  /** A negation as an operand has lost its last parenthesis. */
  lemma {:induction false} ParseNegatedOperand(x: Cond)
    requires WellFormed(x)
    ensures Parse("!(" + Print(x)) == Not(x) <==> NegatedLeaf(x)
  {
    ParseNegation(x);
    PrintTrimmed(x);
    if x.Leaf? {
      ParseSimple(x.operand);
    } else if x.Not? {
      var y := x.inner;
      ParseNegatedOperand(y);
      assert Print(x) == "!(" + Print(y) + ")";
      assert ("!(" + Print(y) + ")")[..2 + |Print(y)|] == "!(" + Print(y);
    } else {
      PrintCompound(x);
      ParseEnclosed(x);
      assert ("(" + Body(x) + ")")[..1 + |Body(x)|] == "(" + Body(x);
    }
  }

  /** Main result: printed and without the outermost pair of parentheses, a well-formed tree
      parses back to itself exactly if every negation in it is of a simple condition and
      none is a left operand. */
  lemma {:induction false} PrintedReparses(t: Cond)
    requires WellFormed(t)
    ensures Parse(Body(t)) == t <==> Reparses(t)
    decreases t, 0
  {
    if t.Leaf? {
      ParseSimple(t.operand);
    } else if t.Not? {
      ParsePrinted(t);
    } else {
      hide Parse, Body, Print, StripParens;
      ParseBody(t);
      OperandReparses(t.left);
      OperandReparses(t.right);
    }
  }

  lemma {:induction false} OperandReparses(x: Cond)
    requires WellFormed(x)
    ensures Parse(StripParens(Print(x))) == x <==> Reparses(x)
    decreases x, 1
  {
    OperandText(x);
    hide StripParens, Body, Print, Parse;
    if x.Not? {
      ParseNegatedOperand(x.inner);
    } else {
      PrintedReparses(x);
    }
  }

  lemma {:induction false} NotFreeReparses(t: Cond)
    requires WellFormed(t) && NotFree(t)
    ensures Reparses(t)
  {
    match t
    case Leaf(_) =>
    case And(l, r) => NotFreeReparses(l); NotFreeReparses(r);
    case Or(l, r) => NotFreeReparses(l); NotFreeReparses(r);
  }

  /** Every condition built from simple ones with && and || alone survives, and so means the same. */
  lemma NotFreeRoundTrip(t: Cond, simple: string -> bool)
    requires WellFormed(t) && NotFree(t)
    ensures Parse(Body(t)) == t
    ensures Evaluate(Parse(Body(t)), simple) == Evaluate(t, simple)
  {
    NotFreeReparses(t);
    PrintedReparses(t);
  }

  /** The failures are not harmless: negating a conjunction reads one unknown simple condition. */
  lemma NegatedConjunctionLost()
    ensures
      var t := Not(And(Leaf("a"), Leaf("b")));
      Parse(Print(t)) == Not(Leaf("(a && b)"))
  {
    var x := And(Leaf("a"), Leaf("b"));
    assert WellFormed(x);
    ParseNegation(x);
    ParseEnclosed(x);
    PrintedExample();
    hide Parse, Print, Body, WellFormed;
  }

  lemma PrintedExample()
    ensures Print(And(Leaf("a"), Leaf("b"))) == "(a && b)"
    ensures Print(Not(And(Leaf("a"), Leaf("b")))) == "!(" + Print(And(Leaf("a"), Leaf("b"))) + ")"
  {
  }

  // ------------------------------------------------------- what a tree means

  /** A simple condition or, if not positive, its negation. */
  datatype Literal = Literal(positive: bool, operand: string)

  type Clause = seq<Literal>

  /** Every clause of cs joined with every clause of ds. */
  function Joined(cs: seq<Clause>, ds: seq<Clause>): seq<Clause> {
    if cs == [] then [] else seq(|ds|, i requires 0 <= i < |ds| => cs[0] + ds[i]) + Joined(cs[1..], ds)
  }

  /** The disjunctive normal form of the tree, or, if not positive, of its negation: one clause
      has to hold, with all its literals. A missing tree is the clause without literals. */
  function Clauses(t: Cond, positive: bool): seq<Clause> {
    match t
    case Nil => if positive then [[]] else []
    case Leaf(operand) => [[Literal(positive, operand)]]
    case Not(x) => Clauses(x, !positive)
    case And(l, r) =>
      if positive then Joined(Clauses(l, true), Clauses(r, true)) else Clauses(l, false) + Clauses(r, false)
    case Or(l, r) =>
      if positive then Clauses(l, true) + Clauses(r, true) else Joined(Clauses(l, false), Clauses(r, false))
  }

  /** An empty simple condition is true. */
  predicate LiteralTrue(l: Literal, simple: string -> bool) {
    l.positive == (l.operand == "" || simple(l.operand))
  }

  predicate ClauseTrue(c: Clause, simple: string -> bool) {
    forall l :: l in c ==> LiteralTrue(l, simple)
  }

  predicate SomeClauseTrue(cs: seq<Clause>, simple: string -> bool) {
    exists c :: c in cs && ClauseTrue(c, simple)
  }

  lemma SomeOfBoth(cs: seq<Clause>, ds: seq<Clause>, simple: string -> bool)
    ensures SomeClauseTrue(cs + ds, simple) <==> SomeClauseTrue(cs, simple) || SomeClauseTrue(ds, simple)
  {
    hide ClauseTrue;
    assert forall c :: c in cs + ds <==> c in cs || c in ds;
  }

  lemma ClauseOfBoth(c: Clause, d: Clause, simple: string -> bool)
    ensures ClauseTrue(c + d, simple) <==> ClauseTrue(c, simple) && ClauseTrue(d, simple)
  {
    hide LiteralTrue;
    assert forall l :: l in c + d <==> l in c || l in d;
  }

  lemma SomePrefixed(c: Clause, ds: seq<Clause>, simple: string -> bool)
    ensures SomeClauseTrue(seq(|ds|, i requires 0 <= i < |ds| => c + ds[i]), simple) <==>
            ClauseTrue(c, simple) && SomeClauseTrue(ds, simple)
  {
    var cs := seq(|ds|, i requires 0 <= i < |ds| => c + ds[i]);
    forall i | 0 <= i < |ds| ensures ClauseTrue(cs[i], simple) <==> ClauseTrue(c, simple) && ClauseTrue(ds[i], simple) {
      ClauseOfBoth(c, ds[i], simple);
    }
    hide ClauseTrue;
    if e :| e in cs && ClauseTrue(e, simple) {
      var i :| 0 <= i < |cs| && cs[i] == e;
      assert ds[i] in ds;
    }
    if ClauseTrue(c, simple) {
      if d :| d in ds && ClauseTrue(d, simple) {
        var i :| 0 <= i < |ds| && ds[i] == d;
        assert cs[i] in cs;
      }
    }
  }

  lemma {:induction false} SomeJoined(cs: seq<Clause>, ds: seq<Clause>, simple: string -> bool)
    ensures SomeClauseTrue(Joined(cs, ds), simple) <==> SomeClauseTrue(cs, simple) && SomeClauseTrue(ds, simple)
    decreases |cs|
  {
    if cs == [] {
    } else {
      var first := seq(|ds|, i requires 0 <= i < |ds| => cs[0] + ds[i]);
      assert Joined(cs, ds) == first + Joined(cs[1..], ds);
      assert SomeClauseTrue([cs[0]], simple) <==> ClauseTrue(cs[0], simple);
      hide SomeClauseTrue, Joined;
      SomePrefixed(cs[0], ds, simple);
      SomeOfBoth(first, Joined(cs[1..], ds), simple);
      SomeJoined(cs[1..], ds, simple);
      SomeOfBoth([cs[0]], cs[1..], simple);
      assert cs == [cs[0]] + cs[1..];
    }
  }

  /** For every tree, negations included: it is true exactly if some clause of its normal form
      is, and false exactly if some clause of its negation's is. */
  lemma {:induction false} EvaluateIsNormalForm(t: Cond, simple: string -> bool)
    ensures Evaluate(t, simple) <==> SomeClauseTrue(Clauses(t, true), simple)
    ensures !Evaluate(t, simple) <==> SomeClauseTrue(Clauses(t, false), simple)
  {
    match t {
      case Nil =>
        var none: Clause := [];
        assert none in [none] && ClauseTrue(none, simple);
      case Leaf(operand) =>
        LeafIsLiteral(operand, true, simple);
        LeafIsLiteral(operand, false, simple);
      case Not(x) =>
        EvaluateIsNormalForm(x, simple);
      case And(l, r) =>
        EvaluateIsNormalForm(l, simple);
        EvaluateIsNormalForm(r, simple);
        SomeJoined(Clauses(l, true), Clauses(r, true), simple);
        SomeOfBoth(Clauses(l, false), Clauses(r, false), simple);
      case Or(l, r) =>
        EvaluateIsNormalForm(l, simple);
        EvaluateIsNormalForm(r, simple);
        SomeJoined(Clauses(l, false), Clauses(r, false), simple);
        SomeOfBoth(Clauses(l, true), Clauses(r, true), simple);
    }
    hide SomeClauseTrue, Joined;
  }

  lemma LeafIsLiteral(operand: string, positive: bool, simple: string -> bool)
    ensures SomeClauseTrue([[Literal(positive, operand)]], simple) <==>
            (positive <==> (operand == "" || simple(operand)))
  {
    var l := Literal(positive, operand);
    assert ClauseTrue([l], simple) <==> LiteralTrue(l, simple) by {
      assert l in [l];
    }
    assert [l] in [[l]];
  }

  // ------------------------------------------------ && and || without parentheses

  predicate Unparenthesised(s: string) {
    Trimmed(s) && s[0] != '!' && '(' !in s && ')' !in s
  }

  lemma JoinUnparenthesised(l: string, c: char, r: string)
    requires Unparenthesised(l) && Unparenthesised(r) && (c == '&' || c == '|')
    ensures Unparenthesised(l + Infix(c) + r)
    ensures forall d :: d in l + Infix(c) + r <==> d in l || d == ' ' || d == c || d in r
  {
    var s := l + Infix(c) + r;
    assert s[0] == l[0] && s[|s| - 1] == r[|r| - 1];
    assert forall d :: d in Infix(c) <==> d == ' ' || d == c by { assert Infix(c)[0] == ' ' && Infix(c)[1] == c; }
    assert forall d :: d in l + Infix(c) <==> d in l || d in Infix(c);
    hide Infix;
  }

  /** Where the first && of such a text stands. */
  lemma ScanHits(l: string, c: char, r: string)
    requires '(' !in l && ')' !in l && (c == '&' || c == '|') && c !in l
    ensures Scan(l + Infix(c) + r, 0, 0, c) == |l| + 1
  {
    var s := l + Infix(c) + r;
    AtStart(s);
    NoParens(l);
    hide At, Scan, Infix;
    AtSplit(s, 0, l + Infix(c), r);
    AtSplit(s, 0, l, Infix(c));
    SkipPlain(s, 0, l, 0, c);
    ScanFindsInfix(s, |l|, c);
  }

  lemma ScanMisses(s: string, d: char)
    requires '(' !in s && ')' !in s && d !in s
    ensures Scan(s, 0, 0, d) == -1
  {
    AtStart(s);
    NoParens(s);
    hide At, Scan;
    SkipPlain(s, 0, s, 0, d);
    ScanAtEnd(s, 0, d);
  }

  lemma NoParens(s: string)
    requires '(' !in s && ')' !in s
    ensures forall j :: 0 <= j < |s| ==> s[j] != '(' && s[j] != ')'
  {
  }

  lemma SidesUnparenthesised(l: string, c: char, r: string)
    requires Unparenthesised(l) && Unparenthesised(r)
    ensures StripParens(TrimSpace((l + Infix(c) + r)[..|l| + 1])) == l
    ensures StripParens(TrimSpace((l + Infix(c) + r)[|l| + 3..])) == r
  {
    var s := l + Infix(c) + r;
    assert s[..|l| + 1] == l + " " && s[|l| + 3..] == " " + r;
    TrimRightSpace(l);
    TrimLeftSpace(r);
    hide TrimSpace, StripParens;
    assert l[0] in l && l[|l| - 1] in l && r[0] in r && r[|r| - 1] in r;
    StripNothing(l);
    StripNothing(r);
  }

  /** Texts without parentheses are split at the first &&, whatever stands behind it, and at
      the first || only if there is no &&. */
  lemma ParseUnparenthesised(l: string, c: char, r: string)
    requires Unparenthesised(l) && Unparenthesised(r) && '&' !in l
    ensures c == '&' ==> Parse(l + Infix(c) + r) == And(Parse(l), Parse(r))
    ensures c == '|' && '&' !in r && '|' !in l ==> Parse(l + Infix(c) + r) == Or(Parse(l), Parse(r))
  {
    if c == '&' || (c == '|' && '&' !in r && '|' !in l) {
      var s := l + Infix(c) + r;
      JoinUnparenthesised(l, c, r);
      TrimOfTrimmed(s);
      ScanHits(l, c, r);
      if c == '|' {
        ScanMisses(s, '&');
      }
      SidesUnparenthesised(l, c, r);
      hide Scan, TrimSpace, StripParens, Infix;
    }
  }

  lemma SimpleUnparenthesised(s: string)
    requires SimpleLeaf(s)
    ensures Unparenthesised(s) && '&' !in s && '|' !in s
  {
  }

  /** So && binds weaker than || here, unlike in most languages, whichever of the two stands first. */
  lemma AndSplitFirst(a: string, b: string, c: string)
    requires SimpleLeaf(a) && SimpleLeaf(b) && SimpleLeaf(c)
    ensures Parse(a + Infix('&') + (b + Infix('|') + c)) == And(Leaf(a), Or(Leaf(b), Leaf(c)))
    ensures Parse((a + Infix('|') + b) + Infix('&') + c) == And(Or(Leaf(a), Leaf(b)), Leaf(c))
  {
    SimpleUnparenthesised(a);
    SimpleUnparenthesised(b);
    SimpleUnparenthesised(c);
    ParseSimple(a);
    ParseSimple(b);
    ParseSimple(c);
    JoinUnparenthesised(a, '|', b);
    JoinUnparenthesised(b, '|', c);
    hide Parse, Infix, SimpleLeaf, Unparenthesised;
    ParseUnparenthesised(a, '|', b);
    ParseUnparenthesised(b, '|', c);
    ParseUnparenthesised(a, '&', b + Infix('|') + c);
    ParseUnparenthesised(a + Infix('|') + b, '&', c);
  }

  // -------------------------------------------------- odd places of operators

  /** n times the same character. */
  function Repeated(c: char, n: nat): (s: string)
    ensures |s| == n && forall i :: 0 <= i < n ==> s[i] == c
  {
    if n == 0 then "" else [c] + Repeated(c, n - 1)
  }

  lemma SkipRun(s: string, i: nat, j: nat, c: char)
    requires (c == '&' || c == '|') && i <= j < |s| - 1
    requires forall k :: i <= k < j ==> s[k] != '(' && s[k] != ')' && !OperatorAt(s, k, c)
    ensures Scan(s, i, 0, c) == Scan(s, j, 0, c)
    decreases j - i
  {
    if i == j {
    } else {
      ScanPasses(s, i, c);
      SkipRun(s, i + 1, j, c);
    }
  }

  lemma ScanRun(s: string, a: nat, n: nat, c: char)
    requires (c == '&' || c == '|') && n >= 2 && a + n <= |s|
    requires forall k :: 0 <= k < a ==> s[k] != '(' && s[k] != ')' && s[k] != c
    requires forall k :: a <= k < a + n ==> s[k] == c
    requires a + n < |s| ==> s[a + n] != c
    ensures Scan(s, 0, 0, c) == a + if c == '&' then n - 2 else 0
  {
    var at := a + if c == '&' then n - 2 else 0;
    SkipRun(s, 0, at, c);
    ScanPasses(s, at, c);
    hide Scan;
  }

  /** In a run of two or more ampersands the operator is the last two, in a run of bars the first
      two, also at the very end of the text. */
  lemma OperatorInRun(l: string, c: char, n: nat, r: string)
    requires (c == '&' || c == '|') && n >= 2 && '(' !in l && ')' !in l && c !in l && (r == "" || r[0] != c)
    ensures Scan(l + Repeated(c, n) + r, 0, 0, c) == |l| + if c == '&' then n - 2 else 0
  {
    hide Repeated, Scan;
    var s := l + Repeated(c, n) + r;
    assert forall k :: 0 <= k < |l| ==> s[k] == l[k] && l[k] in l;
    assert r != "" ==> s[|l| + n] == r[0];
    ScanRun(s, |l|, n, c);
  }

  /** An operator in front of everything has a missing left side, which counts as true. */
  lemma LeadingOperator(c: char, r: string)
    requires SimpleLeaf(r) && (c == '&' || c == '|')
    ensures Parse([c, c, ' '] + r) == if c == '&' then And(Nil, Leaf(r)) else Or(Nil, Leaf(r))
  {
    var s := [c, c, ' '] + r;
    LeadingScan(c, r);
    LeadingSides(c, r);
    hide Scan, TrimSpace, StripParens, SimpleLeaf, Trimmed;
  }

  lemma LeadingScan(c: char, r: string)
    requires SimpleLeaf(r) && (c == '&' || c == '|')
    ensures var s := [c, c, ' '] + r;
            TrimSpace(s) == s && s[0] != '!' && Scan(s, 0, 0, c) == 0 && (c == '|' ==> Scan(s, 0, 0, '&') == -1)
  {
    var s := [c, c, ' '] + r;
    SimpleUnparenthesised(r);
    assert s[0] == c && s[1] == c && s[2] == ' ' && s[|s| - 1] == r[|r| - 1];
    TrimOfTrimmed(s);
    ScanPasses(s, 0, c);
    hide Scan, TrimSpace, SimpleLeaf, Trimmed;
    if c == '|' {
      assert forall d :: d in s <==> d in [c, c, ' '] || d in r;
      ScanMisses(s, '&');
    }
  }

  lemma LeadingSides(c: char, r: string)
    requires SimpleLeaf(r)
    ensures Parse(StripParens(TrimSpace(([c, c, ' '] + r)[..0]))) == Nil
    ensures Parse(StripParens(TrimSpace(([c, c, ' '] + r)[2..]))) == Leaf(r)
  {
    var s := [c, c, ' '] + r;
    NothingAhead(s);
    TrimLeftSpace(r);
    StripNothing(r);
    ParseSimple(r);
    hide Parse, TrimSpace, StripParens, SimpleLeaf;
    assert s[2..] == " " + r;
  }

  lemma NothingAhead(s: string)
    ensures Parse(StripParens(TrimSpace(s[..0]))) == Nil
  {
    assert s[..0] == "";
  }

  // ------------------------------------------------------------- white space

  /** Blank, tab, line feed, vertical tab, form feed, carriage return, next line, no-break space. */
  const WHITE: set<char> := {' ', '\t', '\n', '\U{000B}', '\U{000C}', '\r', '\U{0085}', '\U{00A0}'}

  predicate AllWhite(s: string) {
    forall i :: 0 <= i < |s| ==> s[i] in WHITE
  }

  lemma {:induction false} TrimLeftWhite(pad: string, s: string)
    requires AllWhite(pad)
    ensures TrimLeft(pad + s) == TrimLeft(s)
    decreases |pad|
  {
    if pad == "" {
      assert pad + s == s;
    } else {
      assert IsSpace(pad[0]) && (pad + s)[1..] == pad[1..] + s;
      TrimLeftWhite(pad[1..], s);
      hide AllWhite, IsSpace;
    }
  }

  lemma {:induction false} TrimRightWhite(s: string, pad: string)
    requires AllWhite(pad)
    ensures TrimRight(s + pad) == TrimRight(s)
    decreases |pad|
  {
    if pad == "" {
      assert s + pad == s;
    } else {
      var n := |pad| - 1;
      assert IsSpace(pad[n]) && (s + pad)[..|s| + n] == s + pad[..n] && (s + pad)[|s| + n] == pad[n];
      TrimRightWhite(s, pad[..n]);
      hide AllWhite, IsSpace;
    }
  }

  /** White space around a condition makes no difference. */
  lemma PaddingIgnored(before: string, s: string, after: string)
    requires AllWhite(before) && Trimmed(s) && AllWhite(after)
    ensures Parse(before + s + after) == Parse(s)
  {
    assert before + s + after == before + (s + after);
    TrimLeftWhite(before, s + after);
    assert TrimLeft(s + after) == s + after;
    TrimRightWhite(s, after);
    TrimOfTrimmed(s);
    TrimOfPadded(s);
    hide TrimLeft, TrimRight, StripParens, Scan;
  }

  lemma TrimOfPadded(s: string)
    requires Trimmed(s)
    ensures TrimLeft(s) == s && TrimRight(s) == s
  {
  }
}
