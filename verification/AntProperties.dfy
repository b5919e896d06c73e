/** Expansion of ${...} references in Ant build files: at most ten rounds of substitution over
    the whole text, against full recursive expansion. */
module AntProperties {

  datatype Name = Name(text: string)

  datatype Option<+T> = None | Some(value: T)

  type Properties = map<Name, string>

  /** What a reference is replaced by: the property, or else for env.X a non-empty variable X. */
  function Definition(props: Properties, env: Properties, name: Name): Option<string> {
    if name in props then Some(props[name])
    else if "env." <= name.text && Name(name.text[4..]) in env && env[Name(name.text[4..])] != "" then
      Some(env[Name(name.text[4..])])
    else None
  }

  // ---------------------------------------------------- substitution in a text

  /** Index of the first closing brace, |s| if there is none. */
  function BraceIn(s: string): (i: nat)
    ensures i <= |s| && (i < |s| ==> s[i] == '}') && forall j :: 0 <= j < i ==> s[j] != '}'
  {
    if s == [] || s[0] == '}' then 0 else 1 + BraceIn(s[1..])
  }

  /** The text begins with "${", one or more characters other than "}", and "}". */
  predicate RefAtStart(s: string) {
    "${" <= s && 0 < BraceIn(s[2..]) < |s| - 2
  }

  /** One round: every reference, left to right and not overlapping, is replaced by its
      definition; undefined references stay. */
  function ReplaceRefs(props: Properties, env: Properties, s: string): string
    decreases |s|
  {
    if s == "" then ""
    else if RefAtStart(s) then
      var end := 2 + BraceIn(s[2..]);
      var replacement := match Definition(props, env, Name(s[2..end])) case Some(v) => v case None => s[..end + 1];
      replacement + ReplaceRefs(props, env, s[end + 1..])
    else
      [s[0]] + ReplaceRefs(props, env, s[1..])
  }

  function Rounds(props: Properties, env: Properties, n: nat, s: string): string
    decreases n
  {
    if n == 0 then s else Rounds(props, env, n - 1, ReplaceRefs(props, env, s))
  }

  const MAX_ROUNDS: nat := 10

  lemma {:induction false} FixpointStays(props: Properties, env: Properties, n: nat, s: string)
    requires ReplaceRefs(props, env, s) == s
    ensures Rounds(props, env, n, s) == s
    decreases n
  {
    if n == 0 {
    } else {
      hide ReplaceRefs;
      FixpointStays(props, env, n - 1, s);
    }
  }

  /** resolveProp: up to ten rounds, fewer if one changes nothing. */
  method ResolveProp(value: string, props: Properties, env: Properties) returns (resolved: string)
    ensures resolved == Rounds(props, env, MAX_ROUNDS, value)
  {
    hide ReplaceRefs;
    resolved := value;
    for i := 0 to MAX_ROUNDS
      invariant Rounds(props, env, MAX_ROUNDS - i, resolved) == Rounds(props, env, MAX_ROUNDS, value)
    {
      var prev := resolved;
      resolved := ReplaceRefs(props, env, resolved);
      if resolved == prev {
        FixpointStays(props, env, MAX_ROUNDS - i, prev);
        break;
      }
    }
  }

  // -------------------------------------------------------------------- tokens

  /** A text as a sequence of literal pieces and references. */
  datatype Token = Lit(text: string) | Ref(name: Name)

  type Definitions = map<Name, seq<Token>>

  function RenderToken(t: Token): string {
    match t
    case Lit(text) => text
    case Ref(name) => "${" + name.text + "}"
  }

  function Render(ts: seq<Token>): string {
    if ts == [] then "" else RenderToken(ts[0]) + Render(ts[1..])
  }

  /** Literals hold no dollar sign, names are not empty and hold no closing brace. */
  predicate CleanToken(t: Token) {
    match t
    case Lit(text) => '$' !in text
    case Ref(name) => name.text != "" && '}' !in name.text
  }

  predicate Clean(ts: seq<Token>) {
    forall i :: 0 <= i < |ts| ==> CleanToken(ts[i])
  }

  /** The tokens behind the definitions of the properties and environment variables. */
  ghost predicate Describes(defs: Definitions, props: Properties, env: Properties) {
    && (forall x :: x in defs ==> Clean(defs[x]))
    && (forall x :: x in defs ==> Definition(props, env, x) == Some(Render(defs[x])))
    && (forall x {:trigger Definition(props, env, x)} :: x !in defs ==> Definition(props, env, x) == None)
  }

  /** One round on tokens. */
  function Substitute(defs: Definitions, ts: seq<Token>): seq<Token> {
    if ts == [] then []
    else (if ts[0].Ref? && ts[0].name in defs then defs[ts[0].name] else [ts[0]]) + Substitute(defs, ts[1..])
  }

  function SubstituteRounds(defs: Definitions, n: nat, ts: seq<Token>): seq<Token>
    decreases n
  {
    if n == 0 then ts else SubstituteRounds(defs, n - 1, Substitute(defs, ts))
  }

  // ------------------------------------- rounds on text are rounds on tokens

  lemma {:induction false} RenderConcat(a: seq<Token>, b: seq<Token>)
    ensures Render(a + b) == Render(a) + Render(b)
    decreases |a|
  {
    if a == [] {
      assert a + b == b;
      assert Render(a) + Render(b) == Render(b);
    } else {
      assert (a + b)[1..] == a[1..] + b;
      RenderConcat(a[1..], b);
      hide RenderToken;
    }
  }

  /** A character that is not a dollar sign is copied. */
  lemma ReplaceCopies(props: Properties, env: Properties, c: char, rest: string)
    requires c != '$'
    ensures ReplaceRefs(props, env, [c] + rest) == [c] + ReplaceRefs(props, env, rest)
  {
    hide Definition, BraceIn;
    var s := [c] + rest;
    assert s[0] == c && s[1..] == rest && !("${" <= s);
  }

  lemma {:induction false} ReplaceLiteral(props: Properties, env: Properties, text: string, rest: string)
    requires '$' !in text
    ensures ReplaceRefs(props, env, text + rest) == text + ReplaceRefs(props, env, rest)
    decreases |text|
  {
    hide *;
    if text == "" {
      assert text + rest == rest;
    } else {
      var c, tail := text[0], text[1..];
      assert c in text && text == [c] + tail;
      assert text + rest == [c] + (tail + rest);
      ReplaceCopies(props, env, c, tail + rest);
      ReplaceLiteral(props, env, tail, rest);
      assert [c] + (tail + ReplaceRefs(props, env, rest)) == text + ReplaceRefs(props, env, rest);
    }
  }

  lemma {:induction false} FirstBrace(name: string, rest: string)
    requires '}' !in name
    ensures BraceIn(name + "}" + rest) == |name|
    decreases |name|
  {
    var s := name + "}" + rest;
    if name == "" {
      assert s[0] == '}';
    } else {
      assert name[0] in name && s[0] == name[0];
      assert s[1..] == name[1..] + "}" + rest;
      FirstBrace(name[1..], rest);
    }
  }

  /** The parts of a text that begins with a reference. */
  lemma RefText(name: string, rest: string)
    requires name != "" && '}' !in name
    ensures var s := "${" + name + "}" + rest;
            && RefAtStart(s) && BraceIn(s[2..]) == |name| && s[2..2 + |name|] == name
            && s[..|name| + 3] == "${" + name + "}" && s[|name| + 3..] == rest
  {
    FirstBrace(name, rest);
    hide BraceIn;
    var s := "${" + name + "}" + rest;
    assert s[2..] == name + "}" + rest;
    assert "${" <= s;
  }

  lemma ReplaceReference(props: Properties, env: Properties, name: Name, rest: string)
    requires CleanToken(Ref(name))
    ensures ReplaceRefs(props, env, RenderToken(Ref(name)) + rest)
         == (match Definition(props, env, name) case Some(v) => v case None => RenderToken(Ref(name)))
             + ReplaceRefs(props, env, rest)
  {
    RefText(name.text, rest);
    var s := "${" + name.text + "}" + rest;
    assert RenderToken(Ref(name)) + rest == s;
    hide Definition, BraceIn, RefAtStart, RenderToken;
    assert Name(s[2..2 + |name.text|]) == name;
  }

  lemma RoundToken(defs: Definitions, props: Properties, env: Properties, t: Token, rest: string)
    requires Describes(defs, props, env) && CleanToken(t)
    ensures ReplaceRefs(props, env, RenderToken(t) + rest)
         == Render(if t.Ref? && t.name in defs then defs[t.name] else [t]) + ReplaceRefs(props, env, rest)
  {
    hide ReplaceRefs, Definition;
    RenderOne(t);
    if t.Lit? {
      ReplaceLiteral(props, env, t.text, rest);
    } else {
      ReplaceReference(props, env, t.name, rest);
      hide Render, RenderToken;
    }
  }

  lemma RenderOne(t: Token)
    ensures Render([t]) == RenderToken(t)
  {
    assert [t][1..] == [];
    assert RenderToken(t) + "" == RenderToken(t);
  }

  lemma {:induction false} RoundRefines(defs: Definitions, props: Properties, env: Properties, ts: seq<Token>)
    requires Describes(defs, props, env) && Clean(ts)
    ensures ReplaceRefs(props, env, Render(ts)) == Render(Substitute(defs, ts))
    ensures Clean(Substitute(defs, ts))
    decreases |ts|
  {
    hide ReplaceRefs, RenderToken, Definition, CleanToken;
    if ts == [] {
      ReplaceNothing(props, env);
    } else {
      var head := if ts[0].Ref? && ts[0].name in defs then defs[ts[0].name] else [ts[0]];
      RoundRefines(defs, props, env, ts[1..]);
      RoundToken(defs, props, env, ts[0], Render(ts[1..]));
      RenderConcat(head, Substitute(defs, ts[1..]));
    }
  }

  lemma ReplaceNothing(props: Properties, env: Properties)
    ensures ReplaceRefs(props, env, "") == ""
  {
  }

  lemma {:induction false} RoundsRefine(defs: Definitions, props: Properties, env: Properties, n: nat, ts: seq<Token>)
    requires Describes(defs, props, env) && Clean(ts)
    ensures Rounds(props, env, n, Render(ts)) == Render(SubstituteRounds(defs, n, ts))
    ensures Clean(SubstituteRounds(defs, n, ts))
    decreases n
  {
    hide Describes, Clean, Render, Substitute, ReplaceRefs;
    if n == 0 {
    } else {
      RoundRefines(defs, props, env, ts);
      RoundsRefine(defs, props, env, n - 1, Substitute(defs, ts));
    }
  }

  // ------------------------------------------------- full recursive expansion

  predicate Defined(defs: Definitions, t: Token) {
    t.Ref? && t.name in defs
  }

  /** Definitions refer only to definitions of smaller rank, so none to itself. */
  ghost predicate Acyclic(defs: Definitions, rank: Name -> nat) {
    forall x, t :: x in defs && t in defs[x] && Defined(defs, t) ==> rank(t.name) < rank(x)
  }

  ghost predicate RanksBelow(defs: Definitions, rank: Name -> nat, bound: nat, ts: seq<Token>) {
    forall t :: t in ts && Defined(defs, t) ==> rank(t.name) < bound
  }

  /** Every defined reference replaced by the expansion of its definition. */
  ghost function Expand(defs: Definitions, rank: Name -> nat, bound: nat, ts: seq<Token>): seq<Token>
    requires Acyclic(defs, rank) && RanksBelow(defs, rank, bound, ts)
    decreases bound, |ts|
  {
    if ts == [] then []
    else
      var t := ts[0];
      assert t in ts && forall u :: u in ts[1..] ==> u in ts;
      (if Defined(defs, t) then Expand(defs, rank, rank(t.name), defs[t.name]) else [t])
          + Expand(defs, rank, bound, ts[1..])
  }

  /** References are nested at most n deep. */
  predicate DepthAtMost(defs: Definitions, n: nat, ts: seq<Token>)
    decreases n, |ts|
  {
    ts == []
    || ((Defined(defs, ts[0]) ==> n > 0 && DepthAtMost(defs, n - 1, defs[ts[0].name])) && DepthAtMost(defs, n, ts[1..]))
  }

  /** Only undefined references are left. */
  predicate Settled(defs: Definitions, ts: seq<Token>) {
    DepthAtMost(defs, 0, ts)
  }

  lemma {:induction false} DepthConcat(defs: Definitions, n: nat, a: seq<Token>, b: seq<Token>)
    ensures DepthAtMost(defs, n, a + b) <==> DepthAtMost(defs, n, a) && DepthAtMost(defs, n, b)
    decreases |a|
  {
    if a == [] {
      assert a + b == b;
    } else {
      assert (a + b)[1..] == a[1..] + b;
      DepthConcat(defs, n, a[1..], b);
      hide Defined;
    }
  }

  lemma DepthOfUndefined(defs: Definitions, n: nat, t: Token)
    requires !Defined(defs, t)
    ensures DepthAtMost(defs, n, [t])
  {
    assert [t][1..] == [];
  }

  lemma {:induction false} RoundLowersDepth(defs: Definitions, n: nat, ts: seq<Token>)
    ensures DepthAtMost(defs, n + 1, ts) <==> DepthAtMost(defs, n, Substitute(defs, ts))
    decreases |ts|
  {
    if ts == [] {
    } else {
      var t, tail := ts[0], ts[1..];
      var head := if Defined(defs, t) then defs[t.name] else [t];
      RoundLowersDepth(defs, n, tail);
      DepthConcat(defs, n, head, Substitute(defs, tail));
      if !Defined(defs, t) {
        DepthOfUndefined(defs, n, t);
      }
    }
  }

  /** n rounds settle a text exactly if its references are nested at most n deep. */
  lemma {:induction false} RoundsSettle(defs: Definitions, n: nat, ts: seq<Token>)
    ensures Settled(defs, SubstituteRounds(defs, n, ts)) <==> DepthAtMost(defs, n, ts)
    decreases n
  {
    hide DepthAtMost, Substitute;
    if n == 0 {
    } else {
      RoundLowersDepth(defs, n - 1, ts);
      RoundsSettle(defs, n - 1, Substitute(defs, ts));
    }
  }

  lemma BelowParts(defs: Definitions, rank: Name -> nat, bound: nat, a: seq<Token>, b: seq<Token>)
    ensures RanksBelow(defs, rank, bound, a + b) <==>
            RanksBelow(defs, rank, bound, a) && RanksBelow(defs, rank, bound, b)
  {
    assert forall t :: t in a + b <==> t in a || t in b;
  }

  lemma ExpandStep(defs: Definitions, rank: Name -> nat, bound: nat, t: Token, tail: seq<Token>)
    requires Acyclic(defs, rank) && RanksBelow(defs, rank, bound, [t] + tail)
    ensures Defined(defs, t) ==> RanksBelow(defs, rank, rank(t.name), defs[t.name])
    ensures RanksBelow(defs, rank, bound, tail)
    ensures Expand(defs, rank, bound, [t] + tail) ==
            (if Defined(defs, t) then Expand(defs, rank, rank(t.name), defs[t.name]) else [t])
            + Expand(defs, rank, bound, tail)
  {
    var ts := [t] + tail;
    assert ts[0] == t && ts[1..] == tail && t in ts;
    BelowParts(defs, rank, bound, [t], tail);
    hide RanksBelow;
  }

  lemma {:induction false} ExpandConcat(defs: Definitions, rank: Name -> nat, bound: nat, a: seq<Token>, b: seq<Token>)
    requires Acyclic(defs, rank) && RanksBelow(defs, rank, bound, a) && RanksBelow(defs, rank, bound, b)
    ensures RanksBelow(defs, rank, bound, a + b)
    ensures Expand(defs, rank, bound, a + b) == Expand(defs, rank, bound, a) + Expand(defs, rank, bound, b)
    decreases |a|
  {
    hide Acyclic, RanksBelow, Expand;
    BelowParts(defs, rank, bound, a, b);
    if a == [] {
      ExpandNothing(defs, rank, bound);
      assert a + b == b;
    } else {
      var t, tail := a[0], a[1..];
      assert a == [t] + tail && a + b == [t] + (tail + b);
      ExpandStep(defs, rank, bound, t, tail);
      ExpandConcat(defs, rank, bound, tail, b);
      ExpandStep(defs, rank, bound, t, tail + b);
      var head := if Defined(defs, t) then Expand(defs, rank, rank(t.name), defs[t.name]) else [t];
      var rest, more := Expand(defs, rank, bound, tail), Expand(defs, rank, bound, b);
      assert head + (rest + more) == (head + rest) + more;
    }
  }

  lemma ExpandNothing(defs: Definitions, rank: Name -> nat, bound: nat)
    requires Acyclic(defs, rank)
    ensures RanksBelow(defs, rank, bound, []) && Expand(defs, rank, bound, []) == []
  {
  }

  /** The bound only serves termination. */
  lemma {:induction false} ExpandBound(defs: Definitions, rank: Name -> nat, b1: nat, b2: nat, ts: seq<Token>)
    requires Acyclic(defs, rank) && RanksBelow(defs, rank, b1, ts) && RanksBelow(defs, rank, b2, ts)
    ensures Expand(defs, rank, b1, ts) == Expand(defs, rank, b2, ts)
    decreases |ts|
  {
    if ts == [] {
    } else {
      assert ts == [ts[0]] + ts[1..];
      BelowParts(defs, rank, b1, [ts[0]], ts[1..]);
      BelowParts(defs, rank, b2, [ts[0]], ts[1..]);
      ExpandBound(defs, rank, b1, b2, ts[1..]);
      hide RanksBelow, Acyclic, Defined;
    }
  }

  lemma DefinitionBelow(defs: Definitions, rank: Name -> nat, bound: nat, t: Token)
    requires Acyclic(defs, rank) && Defined(defs, t) && rank(t.name) < bound
    ensures RanksBelow(defs, rank, rank(t.name), defs[t.name]) && RanksBelow(defs, rank, bound, defs[t.name])
  {
  }

  lemma ExpandUndefined(defs: Definitions, rank: Name -> nat, bound: nat, t: Token)
    requires Acyclic(defs, rank) && !Defined(defs, t)
    ensures RanksBelow(defs, rank, bound, [t]) && Expand(defs, rank, bound, [t]) == [t]
  {
    assert [t][1..] == [];
    assert [t] + [] == [t];
  }

  /** A round changes nothing about the full expansion. */
  lemma {:induction false} RoundKeepsExpansion(defs: Definitions, rank: Name -> nat, bound: nat, ts: seq<Token>)
    requires Acyclic(defs, rank) && RanksBelow(defs, rank, bound, ts)
    ensures RanksBelow(defs, rank, bound, Substitute(defs, ts))
    ensures Expand(defs, rank, bound, Substitute(defs, ts)) == Expand(defs, rank, bound, ts)
    decreases |ts|
  {
    if ts == [] {
    } else {
      var t, tail := ts[0], ts[1..];
      var head := if Defined(defs, t) then defs[t.name] else [t];
      assert ts == [t] + tail && t in ts;
      BelowParts(defs, rank, bound, [t], tail);
      RoundKeepsExpansion(defs, rank, bound, tail);
      if Defined(defs, t) {
        DefinitionBelow(defs, rank, bound, t);
        ExpandBound(defs, rank, rank(t.name), bound, head);
      } else {
        ExpandUndefined(defs, rank, bound, t);
      }
      ExpandConcat(defs, rank, bound, head, Substitute(defs, tail));
      hide RanksBelow, Acyclic;
    }
  }

  lemma {:induction false} SettledIsExpanded(defs: Definitions, rank: Name -> nat, bound: nat, ts: seq<Token>)
    requires Acyclic(defs, rank) && RanksBelow(defs, rank, bound, ts)
    ensures Settled(defs, ts) ==> Expand(defs, rank, bound, ts) == ts
    ensures Settled(defs, Expand(defs, rank, bound, ts))
    decreases bound, |ts|
  {
    if ts == [] {
    } else {
      var t, tail := ts[0], ts[1..];
      assert ts == [t] + tail && t in ts;
      BelowParts(defs, rank, bound, [t], tail);
      SettledIsExpanded(defs, rank, bound, tail);
      if Defined(defs, t) {
        DefinitionBelow(defs, rank, bound, t);
        SettledIsExpanded(defs, rank, rank(t.name), defs[t.name]);
        DepthConcat(defs, 0, Expand(defs, rank, rank(t.name), defs[t.name]), Expand(defs, rank, bound, tail));
      } else {
        DepthOfUndefined(defs, 0, t);
        DepthConcat(defs, 0, [t], Expand(defs, rank, bound, tail));
      }
      hide RanksBelow, Acyclic, Defined;
    }
  }

  lemma {:induction false} RoundsKeepExpansion(defs: Definitions, rank: Name -> nat, bound: nat, n: nat, ts: seq<Token>)
    requires Acyclic(defs, rank) && RanksBelow(defs, rank, bound, ts)
    ensures RanksBelow(defs, rank, bound, SubstituteRounds(defs, n, ts))
    ensures Expand(defs, rank, bound, SubstituteRounds(defs, n, ts)) == Expand(defs, rank, bound, ts)
    decreases n
  {
    hide Acyclic, RanksBelow, Expand, Substitute;
    if n == 0 {
    } else {
      RoundKeepsExpansion(defs, rank, bound, ts);
      RoundsKeepExpansion(defs, rank, bound, n - 1, Substitute(defs, ts));
    }
  }

  /** For acyclic definitions, n rounds are full recursive expansion exactly if references
      are nested at most n deep. */
  lemma RoundsAreExpansion(defs: Definitions, rank: Name -> nat, bound: nat, n: nat, ts: seq<Token>)
    requires Acyclic(defs, rank) && RanksBelow(defs, rank, bound, ts)
    ensures SubstituteRounds(defs, n, ts) == Expand(defs, rank, bound, ts) <==> DepthAtMost(defs, n, ts)
  {
    hide Acyclic, RanksBelow, Expand, SubstituteRounds, DepthAtMost;
    RoundsKeepExpansion(defs, rank, bound, n, ts);
    RoundsSettle(defs, n, ts);
    SettledIsExpanded(defs, rank, bound, SubstituteRounds(defs, n, ts));
    SettledIsExpanded(defs, rank, bound, ts);
  }

  /** What resolveProp computes for the text of `ts`: the full expansion if references are
      nested at most ten deep, and otherwise a text that still holds a defined reference. */
  lemma ResolvedText(defs: Definitions, props: Properties, env: Properties, rank: Name -> nat, bound: nat,
                     ts: seq<Token>)
    requires Describes(defs, props, env) && Clean(ts) && Acyclic(defs, rank) && RanksBelow(defs, rank, bound, ts)
    ensures DepthAtMost(defs, MAX_ROUNDS, ts) ==>
              Rounds(props, env, MAX_ROUNDS, Render(ts)) == Render(Expand(defs, rank, bound, ts))
    ensures !DepthAtMost(defs, MAX_ROUNDS, ts) ==>
              exists rs :: Clean(rs) && !Settled(defs, rs) && Rounds(props, env, MAX_ROUNDS, Render(ts)) == Render(rs)
  {
    hide Describes, Clean, Acyclic, RanksBelow, Expand, SubstituteRounds, DepthAtMost, Rounds, Render;
    RoundsRefine(defs, props, env, MAX_ROUNDS, ts);
    RoundsAreExpansion(defs, rank, bound, MAX_ROUNDS, ts);
    RoundsSettle(defs, MAX_ROUNDS, ts);
  }

  // ------------------------------------------------------------ the environment

  /** What one reference to a variable of the environment is replaced by: the property of that
      very name if there is one, else the variable unless it is empty, and else it stays. */
  lemma EnvironmentReference(props: Properties, env: Properties, variable: string)
    requires '}' !in variable
    ensures var ref, name := "${env." + variable + "}", Name("env." + variable);
            ReplaceRefs(props, env, ref) ==
            if name in props then props[name]
            else if Name(variable) in env && env[Name(variable)] != "" then env[Name(variable)]
            else ref
  {
    var name := "env." + variable;
    var ref := "${" + name + "}";
    assert "${env." + variable + "}" == ref && name[4..] == variable && "env." <= name;
    hide ReplaceRefs, BraceIn;
    ReplaceReference(props, env, Name(name), "");
    ReplaceNothing(props, env);
    assert RenderToken(Ref(Name(name))) == ref && ref + "" == ref;
  }

  /** A value that is nothing but such a reference is replaced before the passes, and there the
      variable comes first even if there is a property of that name. */
  lemma EnvironmentFirst(env: Properties, variable: string)
    ensures var ref := "${env." + variable + "}";
            EnvironmentValue(ref, env) ==
            if Name(variable) in env && env[Name(variable)] != "" then env[Name(variable)] else ref
  {
    var v := "${env." + variable + "}";
    assert v[6..] == variable + "}" && "${env." <= v;
    assert (variable + "}")[..|variable|] == variable;
  }

  // ---------------------------------------------- resolving the map in place

  /** A value that begins with "${env." is replaced by the variable named by the rest, less
      one closing brace at the end, if that variable is set. */
  function EnvironmentValue(v: string, env: Properties): string {
    if "${env." <= v then
      var rest := v[6..];
      var name := Name(if rest != "" && rest[|rest| - 1] == '}' then rest[..|rest| - 1] else rest);
      if name in env && env[name] != "" then env[name] else v
    else v
  }

  function WithEnvironment(props: Properties, env: Properties): Properties {
    map k | k in props :: EnvironmentValue(props[k], env)
  }

  /** Only properties refer to other definitions; the values of environment variables do not. */
  ghost predicate PlainEnvironment(defs: Definitions, props: Properties) {
    forall x :: x in defs && x !in props ==> Settled(defs, defs[x])
  }

  /** Three passes of ten rounds always reach this nesting depth, whatever the environment. */
  const ANY_DEPTH: nat := 30

  /** With a plain environment a pass divides depths by eleven: 1330, 120, 10, none. */
  const PLAIN_DEPTH: nat := 1330

  /** The definitions of these properties are acyclic and not nested too deep. */
  ghost predicate Resolvable(defs: Definitions, rank: Name -> nat, props: Properties, env: Properties) {
    && Describes(defs, props, env) && Acyclic(defs, rank)
    && ((forall x :: x in props && x in defs ==> DepthAtMost(defs, ANY_DEPTH, defs[x]))
        || (PlainEnvironment(defs, props)
            && forall x :: x in props && x in defs ==> DepthAtMost(defs, PLAIN_DEPTH, defs[x])))
  }

  ghost function Expansion(defs: Definitions, rank: Name -> nat, x: Name): seq<Token>
    requires Acyclic(defs, rank) && x in defs
  {
    assert RanksBelow(defs, rank, rank(x), defs[x]);
    Expand(defs, rank, rank(x), defs[x])
  }

  /** Halfway through: `cur` describes the map as it is, with the expansions of `defs`. */
  ghost predicate Underway(defs: Definitions, cur: Definitions, rank: Name -> nat, props: Properties, env: Properties) {
    && Acyclic(defs, rank) && Acyclic(cur, rank) && cur.Keys == defs.Keys && Describes(cur, props, env)
    && forall x :: x in defs ==> Expansion(cur, rank, x) == Expansion(defs, rank, x)
  }

  lemma {:induction false} SettledMembers(defs: Definitions, ts: seq<Token>)
    ensures Settled(defs, ts) <==> forall t :: t in ts ==> !Defined(defs, t)
    decreases |ts|
  {
    if ts == [] {
    } else {
      SettledMembers(defs, ts[1..]);
      assert ts == [ts[0]] + ts[1..];
    }
  }

  // A value of a property is replaced by what ten rounds make of it.

  lemma {:induction false} UpdateKeepsExpand(cur: Definitions, cur': Definitions, rank: Name -> nat, k: Name,
                                             e: seq<Token>, bound: nat, ts: seq<Token>)
    requires Acyclic(cur, rank) && k in cur && RanksBelow(cur, rank, rank(k), e)
    requires cur' == cur[k := e] && Acyclic(cur', rank)
    requires RanksBelow(cur, rank, rank(k), cur[k])
    requires Expand(cur, rank, rank(k), e) == Expand(cur, rank, rank(k), cur[k])
    requires RanksBelow(cur, rank, bound, ts)
    ensures RanksBelow(cur', rank, bound, ts) && Expand(cur', rank, bound, ts) == Expand(cur, rank, bound, ts)
    decreases bound, |ts|
  {
    if ts == [] {
    } else {
      var t, tail := ts[0], ts[1..];
      assert ts == [t] + tail && t in ts;
      BelowParts(cur, rank, bound, [t], tail);
      UpdateKeepsExpand(cur, cur', rank, k, e, bound, tail);
      if Defined(cur, t) {
        DefinitionBelow(cur, rank, bound, t);
        DefinitionBelow(cur', rank, bound, t);
        UpdateKeepsExpand(cur, cur', rank, k, e, rank(t.name), cur'[t.name]);
      }
      hide Acyclic, RanksBelow;
    }
  }

  lemma AcyclicUpdate(cur: Definitions, rank: Name -> nat, k: Name, e: seq<Token>)
    requires Acyclic(cur, rank) && k in cur && RanksBelow(cur, rank, rank(k), e)
    ensures Acyclic(cur[k := e], rank)
  {
  }

  lemma UnderwayFacts(defs: Definitions, cur: Definitions, rank: Name -> nat, props: Properties, env: Properties,
                      k: Name)
    requires Underway(defs, cur, rank, props, env) && k in props
    ensures k in cur && Acyclic(cur, rank) && Describes(cur, props, env) && RanksBelow(cur, rank, rank(k), cur[k])
    ensures props[k] == Render(cur[k]) && Clean(cur[k])
  {
    assert Definition(props, env, k) == Some(props[k]);
    hide Expansion;
  }

  /** Replacing one property by what the rounds make of it leaves every expansion as it was. */
  lemma UpdateStep(defs: Definitions, cur: Definitions, rank: Name -> nat, props: Properties, env: Properties, k: Name)
    requires Underway(defs, cur, rank, props, env) && k in props
    ensures k in cur
    ensures
      var e := SubstituteRounds(cur, MAX_ROUNDS, cur[k]);
      && Rounds(props, env, MAX_ROUNDS, props[k]) == Render(e)
      && Underway(defs, cur[k := e], rank, props[k := Render(e)], env)
  {
    hide *;
    UnderwayFacts(defs, cur, rank, props, env, k);
    var e := SubstituteRounds(cur, MAX_ROUNDS, cur[k]);
    RoundsRefine(cur, props, env, MAX_ROUNDS, cur[k]);
    RoundsKeepExpansion(cur, rank, rank(k), MAX_ROUNDS, cur[k]);
    AcyclicUpdate(cur, rank, k, e);
    DescribesUpdate(cur, props, env, k, e);
    UpdatedUnderway(defs, cur, rank, props, env, k, e);
  }

  lemma UpdatedUnderway(defs: Definitions, cur: Definitions, rank: Name -> nat, props: Properties, env: Properties,
                        k: Name, e: seq<Token>)
    requires Underway(defs, cur, rank, props, env) && k in cur && Acyclic(cur[k := e], rank)
    requires RanksBelow(cur, rank, rank(k), e) && RanksBelow(cur, rank, rank(k), cur[k])
    requires Expand(cur, rank, rank(k), e) == Expand(cur, rank, rank(k), cur[k])
    requires Describes(cur[k := e], props[k := Render(e)], env)
    ensures Underway(defs, cur[k := e], rank, props[k := Render(e)], env)
  {
    hide Describes, Render, Acyclic, RanksBelow, Expansion, Expand;
    forall x | x in defs ensures Expansion(cur[k := e], rank, x) == Expansion(defs, rank, x) {
      ExpansionAfterUpdate(cur, rank, k, e, x);
    }
  }

  lemma ExpansionAfterUpdate(cur: Definitions, rank: Name -> nat, k: Name, e: seq<Token>, x: Name)
    requires Acyclic(cur, rank) && k in cur && Acyclic(cur[k := e], rank) && x in cur
    requires RanksBelow(cur, rank, rank(k), e) && RanksBelow(cur, rank, rank(k), cur[k])
    requires Expand(cur, rank, rank(k), e) == Expand(cur, rank, rank(k), cur[k])
    ensures Expansion(cur[k := e], rank, x) == Expansion(cur, rank, x)
  {
    var cur' := cur[k := e];
    assert RanksBelow(cur, rank, rank(x), cur'[x]);
    UpdateKeepsExpand(cur, cur', rank, k, e, rank(x), cur'[x]);
    hide Acyclic, RanksBelow;
  }

  lemma DescribesUpdate(cur: Definitions, props: Properties, env: Properties, k: Name, e: seq<Token>)
    requires Describes(cur, props, env) && k in props && k in cur && Clean(e)
    ensures Describes(cur[k := e], props[k := Render(e)], env)
  {
    hide Render, Clean;
    var cur', props' := cur[k := e], props[k := Render(e)];
    forall x ensures x != k ==> Definition(props', env, x) == Definition(props, env, x) {
    }
  }

  ghost predicate AllFixed(props: Properties, names: set<Name>, env: Properties) {
    forall k :: k in props && k in names ==> Rounds(props, env, MAX_ROUNDS, props[k]) == props[k]
  }

  /** A value that no rounds change is its own full expansion, however deep the definitions. */
  lemma FixpointIsExpanded(defs: Definitions, cur: Definitions, rank: Name -> nat, props: Properties,
                           env: Properties, k: Name)
    requires Underway(defs, cur, rank, props, env) && k in props
    requires AllFixed(props, props.Keys, env)
    ensures k in defs && props[k] == Render(Expansion(defs, rank, k))
  {
    UnderwayFacts(defs, cur, rank, props, env, k);
    var n := rank(k);
    hide Describes, Acyclic, RanksBelow, Expand, SubstituteRounds, DepthAtMost, Rounds, Render, Clean, Settled;
    RoundsRepeated(props, env, n, props[k]);
    RoundsRefine(cur, props, env, MAX_ROUNDS * n, cur[k]);
    RankBoundsDepth(cur, rank, n, cur[k]);
    DepthMonotone(cur, n, MAX_ROUNDS * n, cur[k]);
    RoundsAreExpansion(cur, rank, n, MAX_ROUNDS * n, cur[k]);
  }

  lemma {:induction false} RoundsCompose(props: Properties, env: Properties, m: nat, n: nat, v: string)
    ensures Rounds(props, env, m + n, v) == Rounds(props, env, n, Rounds(props, env, m, v))
    decreases m
  {
    hide ReplaceRefs;
    if m == 0 {
    } else {
      RoundsCompose(props, env, m - 1, n, ReplaceRefs(props, env, v));
    }
  }

  lemma {:induction false} RoundsRepeated(props: Properties, env: Properties, n: nat, v: string)
    requires Rounds(props, env, MAX_ROUNDS, v) == v
    ensures Rounds(props, env, MAX_ROUNDS * n, v) == v
    decreases n
  {
    if n == 0 {
    } else {
      RoundsRepeated(props, env, n - 1, v);
      RoundsCompose(props, env, MAX_ROUNDS, MAX_ROUNDS * (n - 1), v);
      hide Rounds;
    }
  }

  lemma {:induction false} DepthMonotone(defs: Definitions, m: nat, n: nat, ts: seq<Token>)
    requires m <= n && DepthAtMost(defs, m, ts)
    ensures DepthAtMost(defs, n, ts)
    decreases m, |ts|
  {
    if ts == [] {
    } else {
      DepthMonotone(defs, m, n, ts[1..]);
      if Defined(defs, ts[0]) {
        DepthMonotone(defs, m - 1, n - 1, defs[ts[0].name]);
      }
    }
  }

  lemma {:induction false} RankBoundsDepth(defs: Definitions, rank: Name -> nat, bound: nat, ts: seq<Token>)
    requires Acyclic(defs, rank) && RanksBelow(defs, rank, bound, ts)
    ensures DepthAtMost(defs, bound, ts)
    decreases bound, |ts|
  {
    if ts == [] {
    } else {
      var t, tail := ts[0], ts[1..];
      assert ts == [t] + tail && t in ts;
      BelowParts(defs, rank, bound, [t], tail);
      RankBoundsDepth(defs, rank, bound, tail);
      if Defined(defs, t) {
        DefinitionBelow(defs, rank, bound, t);
        RankBoundsDepth(defs, rank, rank(t.name), defs[t.name]);
        DepthMonotone(defs, rank(t.name), bound - 1, defs[t.name]);
      }
    }
  }

  // ---------------------------------------------------- how fast passes settle

  function Less(n: nat, m: nat): nat {
    if n < m then 0 else n - m
  }

  lemma RoundLowersRanks(defs: Definitions, rank: Name -> nat, bound: nat, ts: seq<Token>)
    requires Acyclic(defs, rank) && RanksBelow(defs, rank, bound, ts)
    ensures RanksBelow(defs, rank, Less(bound, 1), Substitute(defs, ts))
    decreases |ts|
  {
    if ts == [] {
    } else {
      var t, tail := ts[0], ts[1..];
      assert ts == [t] + tail && t in ts;
      BelowParts(defs, rank, bound, [t], tail);
      RoundLowersRanks(defs, rank, bound, tail);
      var head := if Defined(defs, t) then defs[t.name] else [t];
      BelowParts(defs, rank, Less(bound, 1), head, Substitute(defs, tail));
    }
  }

  /** Each round brings the remaining references at least one rank down. */
  lemma {:induction false} RoundsLowerRanks(defs: Definitions, rank: Name -> nat, bound: nat, n: nat, ts: seq<Token>)
    requires Acyclic(defs, rank) && RanksBelow(defs, rank, bound, ts)
    ensures RanksBelow(defs, rank, Less(bound, n), SubstituteRounds(defs, n, ts))
    decreases n
  {
    hide Acyclic, RanksBelow, Substitute;
    if n == 0 {
    } else {
      RoundLowersRanks(defs, rank, bound, ts);
      RoundsLowerRanks(defs, rank, Less(bound, 1), n - 1, Substitute(defs, ts));
    }
  }

  /** Within a pass: by the ranks `level`, references in a value stay below `bound`, and ten
      lower in the values already done. */
  ghost predicate Lowering(cur: Definitions, level: Name -> nat, bound: Name -> nat, names: set<Name>,
                           done: set<Name>)
  {
    && Acyclic(cur, level)
    && forall x :: x in names && x in cur ==>
         && bound(x) <= level(x)
         && RanksBelow(cur, level, if x in done then Less(bound(x), MAX_ROUNDS) else bound(x), cur[x])
  }

  lemma LoweringStep(cur: Definitions, level: Name -> nat, bound: Name -> nat, names: set<Name>, done: set<Name>,
                     k: Name)
    requires Lowering(cur, level, bound, names, done) && k in names && k in cur && k !in done
    ensures Lowering(cur[k := SubstituteRounds(cur, MAX_ROUNDS, cur[k])], level, bound, names, done + {k})
  {
    RoundsLowerRanks(cur, level, bound(k), MAX_ROUNDS, cur[k]);
    hide SubstituteRounds;
  }

  lemma {:induction false} DepthOfMember(defs: Definitions, n: nat, ts: seq<Token>, t: Token)
    requires DepthAtMost(defs, n, ts) && t in ts && Defined(defs, t)
    ensures n > 0 && DepthAtMost(defs, n - 1, defs[t.name])
    decreases |ts|
  {
    if ts[0] == t {
    } else {
      DepthOfMember(defs, n, ts[1..], t);
    }
  }

  /** The exact nesting depth. */
  function Least(defs: Definitions, n: nat, ts: seq<Token>): (d: nat)
    requires DepthAtMost(defs, n, ts)
    ensures d <= n && DepthAtMost(defs, d, ts)
    ensures forall m: nat :: DepthAtMost(defs, m, ts) ==> d <= m
    decreases n
  {
    if n > 0 && DepthAtMost(defs, n - 1, ts) then Least(defs, n - 1, ts)
    else
      assert forall m: nat | m < n :: !DepthAtMost(defs, m, ts) by {
        forall m: nat | m < n ensures !DepthAtMost(defs, m, ts) {
          if DepthAtMost(defs, m, ts) {
            DepthMonotone(defs, m, n - 1, ts);
          }
        }
      }
      n
  }

  function LevelOf(defs: Definitions, rank: Name -> nat, x: Name): nat {
    if x in defs && DepthAtMost(defs, rank(x), defs[x]) then Least(defs, rank(x), defs[x]) else 0
  }

  lemma LevelIsDepth(defs: Definitions, rank: Name -> nat, x: Name)
    requires Acyclic(defs, rank) && x in defs
    ensures DepthAtMost(defs, LevelOf(defs, rank, x), defs[x])
    ensures forall n: nat :: DepthAtMost(defs, n, defs[x]) ==> LevelOf(defs, rank, x) <= n
  {
    assert RanksBelow(defs, rank, rank(x), defs[x]);
    RankBoundsDepth(defs, rank, rank(x), defs[x]);
  }

  /** Nesting depths rank acyclic definitions. */
  lemma LevelsAcyclic(defs: Definitions, rank: Name -> nat)
    requires Acyclic(defs, rank)
    ensures Acyclic(defs, x => LevelOf(defs, rank, x))
  {
    forall x, t | x in defs && t in defs[x] && Defined(defs, t)
      ensures LevelOf(defs, rank, t.name) < LevelOf(defs, rank, x)
    {
      LevelIsDepth(defs, rank, x);
      DepthOfMember(defs, LevelOf(defs, rank, x), defs[x], t);
      LevelIsDepth(defs, rank, t.name);
      hide LevelOf;
    }
  }

  ghost predicate PlainOutside(cur: Definitions, names: set<Name>) {
    forall x, t :: x in cur && x !in names && t in cur[x] ==> !Defined(cur, t)
  }

  /** How deep values may still be nested after i passes. */
  function Limit(plain: bool, i: nat): nat
    requires i <= 3
  {
    if plain then (match i case 0 => PLAIN_DEPTH case 1 => 120 case 2 => 10 case 3 => 0) else ANY_DEPTH - MAX_ROUNDS * i
  }

  /** Between passes; with a plain environment the bound is the level itself. */
  ghost predicate Lowered(cur: Definitions, level: Name -> nat, bound: Name -> nat, names: set<Name>, plain: bool,
                          i: nat)
    requires i <= 3
  {
    && Lowering(cur, level, bound, names, {})
    && (forall x :: x in names && x in cur ==> bound(x) <= Limit(plain, i))
    && (plain ==> PlainOutside(cur, names) && forall x :: bound(x) == level(x))
  }

  lemma LoweredStart(defs: Definitions, rank: Name -> nat, props: Properties, env: Properties)
    returns (level: Name -> nat, plain: bool)
    requires Resolvable(defs, rank, props, env)
    ensures Lowered(defs, level, level, props.Keys, plain, 0)
  {
    hide Describes, LevelOf;
    plain := !forall x :: x in props && x in defs ==> DepthAtMost(defs, ANY_DEPTH, defs[x]);
    level := x => LevelOf(defs, rank, x);
    LevelsAcyclic(defs, rank);
    forall x | x in props && x in defs ensures level(x) <= Limit(plain, 0) {
      LevelIsDepth(defs, rank, x);
      var limit: nat := Limit(plain, 0);
      assert DepthAtMost(defs, limit, defs[x]);
    }
    if plain {
      forall x | x in defs && x !in props ensures forall t :: t in defs[x] ==> !Defined(defs, t) {
        SettledMembers(defs, defs[x]);
      }
    }
    hide DepthAtMost, Settled;
  }

  lemma SameOutside(cur: Definitions, cur': Definitions, names: set<Name>)
    requires cur'.Keys == cur.Keys && forall x :: x in cur && x !in names ==> cur'[x] == cur[x]
    ensures PlainOutside(cur, names) ==> PlainOutside(cur', names)
  {
    assert forall x :: x in cur'.Keys <==> x in cur.Keys;
    assert forall t :: Defined(cur', t) <==> Defined(cur, t);
  }

  /** A finished pass brings the bounds ten down, and with a plain environment it divides the
      levels by eleven. */
  lemma LoweredNext(cur: Definitions, level: Name -> nat, bound: Name -> nat, names: set<Name>, plain: bool, i: nat)
    returns (level': Name -> nat, bound': Name -> nat)
    requires i < 3 && Lowering(cur, level, bound, names, names)
    requires forall x :: x in names && x in cur ==> bound(x) <= Limit(plain, i)
    requires plain ==> PlainOutside(cur, names) && forall x :: bound(x) == level(x)
    ensures Lowered(cur, level', bound', names, plain, i + 1)
  {
    if plain {
      level' := x => level(x) / 11;
      bound' := level';
    } else {
      level' := level;
      bound' := x => Less(bound(x), MAX_ROUNDS);
    }
  }

  class BuildProject {
    var properties: Properties

    constructor (properties: Properties)
      ensures this.properties == properties
    {
      this.properties := properties;
    }

    method ResolveEnvironment(env: Properties)
      modifies this
      ensures properties == WithEnvironment(old(properties), env)
    {
      hide EnvironmentValue;
      ghost var start := properties;
      var todo := properties.Keys;
      while todo != {}
        invariant todo <= properties.Keys == start.Keys
        invariant forall k :: k in start ==>
            properties[k] == if k in todo then start[k] else EnvironmentValue(start[k], env)
      {
        var k :| k in todo;
        todo := todo - {k};
        var v := LookUpEnvironment(properties[k], env);
        properties := properties[k := v];
      }
    }

    static method LookUpEnvironment(v: string, env: Properties) returns (w: string)
      ensures w == EnvironmentValue(v, env)
    {
      if "${env." <= v {
        var rest := v[6..];
        var envName := Name(if rest != "" && rest[|rest| - 1] == '}' then rest[..|rest| - 1] else rest);
        if envName in env && env[envName] != "" {
          return env[envName];
        }
      }
      return v;
    }

    /** One pass over the map, in any order, each value resolved against the map as it is. */
    method ResolvePass(env: Properties, ghost defs: Definitions, ghost rank: Name -> nat, ghost cur: Definitions,
                       ghost level: Name -> nat, ghost bound: Name -> nat)
      returns (changed: bool, ghost cur': Definitions)
      modifies this
      ensures properties.Keys == old(properties.Keys)
      ensures !changed ==> properties == old(properties)
                           && AllFixed(properties, properties.Keys, env)
      ensures Underway(defs, cur, rank, old(properties), env) ==>
                && Underway(defs, cur', rank, properties, env) && cur'.Keys == cur.Keys
                && (forall x :: x in cur && x !in properties.Keys ==> cur'[x] == cur[x])
                && (Lowering(cur, level, bound, properties.Keys, {}) ==>
                      Lowering(cur', level, bound, properties.Keys, properties.Keys))
    {
      hide Underway, Lowering, Rounds, Render, SubstituteRounds;
      changed, cur' := false, cur;
      ghost var start := properties;
      ghost var suitable := Underway(defs, cur, rank, properties, env);
      ghost var lowering := Lowering(cur, level, bound, properties.Keys, {});
      var todo := properties.Keys;
      assert properties.Keys - todo == {};
      while todo != {}
        invariant todo <= properties.Keys == start.Keys
        invariant !changed ==> properties == start
        invariant !changed ==> AllFixed(properties, properties.Keys - todo, env)
        invariant suitable ==> Underway(defs, cur', rank, properties, env) && cur'.Keys == cur.Keys
        invariant suitable ==> forall x :: x in cur && x !in properties.Keys ==> cur'[x] == cur[x]
        invariant suitable && lowering ==> Lowering(cur', level, bound, properties.Keys, properties.Keys - todo)
      {
        var k :| k in todo;
        var v := properties[k];
        var resolved := ResolveProp(v, properties, env);
        if suitable {
          UpdateStep(defs, cur', rank, properties, env, k);
          ghost var e := SubstituteRounds(cur', MAX_ROUNDS, cur'[k]);
          if lowering {
            LoweringStep(cur', level, bound, properties.Keys, properties.Keys - todo, k);
          }
          assert properties[k := Render(e)] == properties[k := resolved];
          cur' := cur'[k := e];
        }
        assert properties.Keys - (todo - {k}) == properties.Keys - todo + {k};
        todo := todo - {k};
        if resolved != v {
          properties := properties[k := resolved];
          changed := true;
        } else {
          assert properties[k := resolved] == properties;
        }
      }
      assert properties.Keys - todo == properties.Keys;
    }

    /** If the properties' definitions, after the environment pass, are acyclic and not nested too
        deep, then whatever the order of the passes every property ends up as the text of its
        full recursive expansion. */
    method ResolveProperties(env: Properties, ghost defs: Definitions, ghost rank: Name -> nat)
      modifies this
      ensures properties.Keys == old(properties.Keys)
      ensures Resolvable(defs, rank, WithEnvironment(old(properties), env), env) ==>
                forall k :: k in properties ==> k in defs && properties[k] == Render(Expansion(defs, rank, k))
    {
      ResolveEnvironment(env);
      ghost var start, names := properties, properties.Keys;
      ghost var suitable := Resolvable(defs, rank, properties, env);
      ghost var cur, plain := defs, false;
      ghost var level: Name -> nat := x => 0;
      ghost var bound: Name -> nat := x => 0;
      if suitable {
        level, plain := LoweredStart(defs, rank, properties, env);
        bound := level;
        UnderwayStart(defs, rank, properties, env);
      }
      hide *;
      var i := 0;
      while i < 3
        invariant 0 <= i <= 3 && properties.Keys == names
        invariant suitable ==> Underway(defs, cur, rank, properties, env) && Lowered(cur, level, bound, names, plain, i)
      {
        ghost var cur0 := cur;
        var changed;
        changed, cur := ResolvePass(env, defs, rank, cur, level, bound);
        if suitable {
          level, bound := LoweredPass(cur0, cur, level, bound, names, plain, i);
        }
        i := i + 1;
        if !changed {
          break;
        }
      }
      if suitable {
        forall k | k in properties ensures k in defs && properties[k] == Render(Expansion(defs, rank, k)) {
          if i == 3 {
            LoweredIsExpanded(defs, cur, rank, properties, env, level, bound, plain, k);
          } else {
            FixpointIsExpanded(defs, cur, rank, properties, env, k);
          }
        }
      }
    }
  }

  lemma UnderwayStart(defs: Definitions, rank: Name -> nat, props: Properties, env: Properties)
    requires Resolvable(defs, rank, props, env)
    ensures Underway(defs, defs, rank, props, env)
  {
    hide Expansion, Describes;
  }

  lemma LoweredPass(cur: Definitions, cur': Definitions, level: Name -> nat, bound: Name -> nat, names: set<Name>,
                    plain: bool, i: nat)
    returns (level': Name -> nat, bound': Name -> nat)
    requires i < 3 && Lowered(cur, level, bound, names, plain, i) && cur'.Keys == cur.Keys
    requires forall x :: x in cur && x !in names ==> cur'[x] == cur[x]
    requires Lowering(cur, level, bound, names, {}) ==> Lowering(cur', level, bound, names, names)
    ensures Lowered(cur', level', bound', names, plain, i + 1)
  {
    SameOutside(cur, cur', names);
    hide Lowering, PlainOutside, Limit;
    level', bound' := LoweredNext(cur', level, bound, names, plain, i);
  }

  /** After three passes nothing is left to expand. */
  lemma LoweredIsExpanded(defs: Definitions, cur: Definitions, rank: Name -> nat, props: Properties, env: Properties,
                          level: Name -> nat, bound: Name -> nat, plain: bool, k: Name)
    requires Underway(defs, cur, rank, props, env) && k in props
    requires Lowered(cur, level, bound, props.Keys, plain, 3)
    ensures k in defs && props[k] == Render(Expansion(defs, rank, k))
  {
    UnderwayFacts(defs, cur, rank, props, env, k);
    assert RanksBelow(cur, level, 0, cur[k]) && Acyclic(cur, level);
    RankBoundsDepth(cur, level, 0, cur[k]);
    SettledIsExpanded(cur, rank, rank(k), cur[k]);
    hide Describes, Render, Expand, Lowered;
  }
}
