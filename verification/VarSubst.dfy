// Substituting var() in a declaration's value, one at a time.
module VarSubst {
  import opened CssTokens

  // The custom properties an element sees.
  type Env = map<string, seq<Token>>

  function LowerChar(c: char): char { if 'A' <= c <= 'Z' then ((c as int) + 32) as char else c }

  predicate IsVar(t: Token) {
    && t.FunctionValue? && |t.name| == 3
    && LowerChar(t.name[0]) == 'v' && LowerChar(t.name[1]) == 'a' && LowerChar(t.name[2]) == 'r'
  }

  // "var", in any case.
  lemma IsVarIs(t: Token)
    ensures IsVar(t) <==>
            t.FunctionValue? && |t.name| == 3 && t.name[0] in "vV" && t.name[1] in "aA" && t.name[2] in "rR"
  {
  }

  predicate IsCustomName(n: string) { |n| > 2 && n[0] == '-' && n[1] == '-' }

  // <any-value> and <declaration-value>, of componentized tokens.
  predicate AnyToken(t: Token)
    decreases t
  {
    !t.Bad? && !t.Close? && (t.Block? || t.FunctionValue? ==> t.value != [] && AnyTokens(t.value))
  }

  predicate AnyTokens(ts: seq<Token>)
    decreases ts
  {
    ts == [] || (AnyToken(ts[0]) && AnyTokens(ts[1..]))
  }

  predicate DeclarationValue(ts: seq<Token>) {
    ts != [] && AnyTokens(ts) && forall i | 0 <= i < |ts| :: ts[i] != Delim(';') && ts[i] != Delim('!')
  }

  predicate CheckVarSyntax(args: seq<Token>) {
    && args != [] && args[0].Ident? && IsCustomName(args[0].name)
    && (|args| > 1 ==> args[1] == Delim(','))
    && (|args| > 2 ==> DeclarationValue(args[2..]))
  }

  // A token somewhere in a text, however deep.
  ghost predicate Occurs(x: Token, ts: seq<Token>)
    decreases ts
  {
    exists i | 0 <= i < |ts| :: x == ts[i] || (IsFat(ts[i]) && Occurs(x, ts[i].value))
  }

  // What any value must not hold: bad tokens, closing brackets without an opening one,
  // and component values with nothing in them.
  predicate Allowed(x: Token) {
    x != Bad && x != Close(Curly) && x != Close(Square) && x != Close(Round) &&
    !(x.Block? && x.value == []) && !(x.FunctionValue? && x.value == [])
  }

  lemma {:induction false} AnyTokensMeans(ts: seq<Token>)
    ensures AnyTokens(ts) <==> forall x | Occurs(x, ts) :: Allowed(x)
    decreases ts
  {
    if ts != [] {
      AnyTokenMeans(ts[0]);
      AnyTokensMeans(ts[1..]);
      forall x ensures Occurs(x, ts) <==> x == ts[0] || (IsFat(ts[0]) && Occurs(x, ts[0].value)) || Occurs(x, ts[1..]) {
        OccursFirst(x, ts);
      }
    }
  }

  lemma OccursFirst(x: Token, ts: seq<Token>)
    requires ts != []
    ensures Occurs(x, ts) <==> x == ts[0] || (IsFat(ts[0]) && Occurs(x, ts[0].value)) || Occurs(x, ts[1..])
  {
    if Occurs(x, ts[1..]) {
      var i :| 0 <= i < |ts| - 1 && (x == ts[1..][i] || (IsFat(ts[1..][i]) && Occurs(x, ts[1..][i].value)));
      assert ts[1..][i] == ts[i + 1];
    }
    if i :| 0 < i < |ts| && (x == ts[i] || (IsFat(ts[i]) && Occurs(x, ts[i].value))) {
      assert ts[1..][i - 1] == ts[i];
    }
  }

  lemma {:induction false} AnyTokenMeans(t: Token)
    ensures AnyToken(t) <==> Allowed(t) && (IsFat(t) ==> forall x | Occurs(x, t.value) :: Allowed(x))
    decreases t
  {
    if IsFat(t) { AnyTokensMeans(t.value); }
    match t
    case Close(b) => assert b == Curly || b == Square || b == Round;
    case _ =>
  }

  // var( <custom-property-name> , <declaration-value>? ), with nothing checked of the
  // default but the marks that cannot stand at its top.
  lemma VarSyntaxIs(args: seq<Token>)
    ensures CheckVarSyntax(args) <==>
            && args != [] && args[0].Ident? && |args[0].name| >= 3 && args[0].name[..2] == "--"
            && (|args| >= 2 ==> args[1] == Delim(','))
            && (forall x | |args| > 2 && Occurs(x, args[2..]) :: Allowed(x))
            && (forall i | 2 <= i < |args| :: args[i] != Delim(';') && args[i] != Delim('!'))
  {
    if |args| > 2 {
      AnyTokensMeans(args[2..]);
      assert forall i | 2 <= i < |args| :: args[i] == args[2..][i - 2];
    }
    if args != [] && args[0].Ident? && |args[0].name| >= 2 {
      var n := args[0].name;
      assert n[..2] == "--" <==> n[0] == '-' && n[1] == '-';
    }
  }

  // is_any_value and is_declaration_value as the loops they are.
  method IsAnyValue(tokens: seq<Token>) returns (r: bool)
    ensures r <==> tokens != [] && AnyTokens(tokens)
    decreases tokens
  {
    if tokens == [] { return false; }
    assert tokens[0..] == tokens;
    for i := 0 to |tokens|
      invariant AnyTokens(tokens) <==> AnyTokens(tokens[i..])
    {
      var tok := tokens[i];
      assert tokens[i..][0] == tok && tokens[i..][1..] == tokens[i + 1..];
      if tok.Bad? || tok.Close? {
        return false;
      } else if IsFat(tok) {
        var inside := IsAnyValue(tok.value);
        if !inside { return false; }
      }
    }
    r := true;
  }

  method IsDeclarationValue(tokens: seq<Token>, index: nat) returns (r: bool)
    ensures r <==> index < |tokens| && DeclarationValue(tokens[index..])
  {
    if index >= |tokens| { return false; }
    ghost var value := tokens[index..];
    for i := index to |tokens|
      invariant AnyTokens(value) <==> AnyTokens(tokens[i..])
      invariant forall k | 0 <= k < i - index :: value[k] != Delim(';') && value[k] != Delim('!')
    {
      var tok := tokens[i];
      assert tok == value[i - index];
      assert tokens[i..][0] == tok && tokens[i..][1..] == tokens[i + 1..];
      if tok.Bad? || tok.Close? || tok == Delim(';') || tok == Delim('!') {
        return false;
      } else if IsFat(tok) {
        var inside := IsAnyValue(tok.value);
        if !inside { return false; }
      }
    }
    r := true;
  }

  // --------------------------------------------------------------- one substitution

  datatype Outcome = Outcome(done: bool, tokens: seq<Token>, used: set<string>)

  // What stands for a var(): its property's value, or its default.
  function Replaced(t: Token, env: Env, used: set<string>): Outcome
    requires IsVar(t)
  {
    if !CheckVarSyntax(t.value) then Outcome(false, [t], used)
    else
      var name := t.value[0].name;
      if name in used then Outcome(false, [t], used)
      else if name in env then Outcome(true, env[name], used + {name})
      else if |t.value| == 1 then Outcome(false, [t], used + {name})
      else Outcome(true, t.value[2..], used + {name})
  }

  function WithValue(t: Token, value: seq<Token>): Token
    requires IsFat(t)
  {
    if t.Block? then Block(t.b, value) else FunctionValue(t.name, value)
  }

  // The first var() that can be, is.  At a var() that cannot be the list is given up;
  // a list given up inside a component value is passed over.
  function Subst(ts: seq<Token>, env: Env, used: set<string>): Outcome
    decreases ts
  {
    if ts == [] then Outcome(false, [], used)
    else if IsVar(ts[0]) then
      var r := Replaced(ts[0], env, used);
      Outcome(r.done, r.tokens + ts[1..], r.used)
    else if IsFat(ts[0]) then
      var r := Subst(ts[0].value, env, used);
      if r.done then Outcome(true, [WithValue(ts[0], r.tokens)] + ts[1..], r.used)
      else After(ts[0], Subst(ts[1..], env, r.used))
    else After(ts[0], Subst(ts[1..], env, used))
  }

  function After(t: Token, r: Outcome): Outcome {
    r.(tokens := [t] + r.tokens)
  }

  // ------------------------------------------------------------------- termination

  // Every name a list of tokens mentions.
  function Names(ts: seq<Token>): set<string>
    decreases ts
  {
    if ts == [] then {} else NamesOf(ts[0]) + Names(ts[1..])
  }

  function NamesOf(t: Token): set<string>
    decreases t
  {
    if t.Ident? then {t.name} else if IsFat(t) then Names(t.value) else {}
  }

  function EnvNames(env: Env): set<string> {
    set k, n | k in env && n in Names(env[k]) :: n
  }

  lemma {:induction false} NamesConcat(a: seq<Token>, b: seq<Token>)
    ensures Names(a + b) == Names(a) + Names(b)
  {
    if a == [] {
      assert a + b == b;
    } else {
      NamesConcat(a[1..], b);
      assert (a + b)[1..] == a[1..] + b;
    }
  }

  lemma {:induction false} NamesTail(ts: seq<Token>, n: nat)
    requires n <= |ts|
    ensures Names(ts[n..]) <= Names(ts)
  {
    NamesConcat(ts[..n], ts[n..]);
    assert ts == ts[..n] + ts[n..];
  }

  // A substitution uses up a name of the text, and brings in none but those of the
  // properties.
  ghost predicate Progress(ts: seq<Token>, env: Env, used: set<string>, r: Outcome) {
    && used <= r.used <= used + Names(ts)
    && Names(r.tokens) <= Names(ts) + EnvNames(env)
    && (r.done ==> used < r.used)
    && (!r.done ==> r.tokens == ts)
  }

  lemma ReplacedProgress(t: Token, env: Env, used: set<string>)
    requires IsVar(t)
    ensures Progress([t], env, used, Replaced(t, env, used))
  {
    var r := Replaced(t, env, used);
    assert Names([t]) == Names(t.value);
    if CheckVarSyntax(t.value) {
      var name := t.value[0].name;
      assert name in NamesOf(t.value[0]);
      if name !in used { assert name in r.used; }
      if r.done && name !in env { NamesTail(t.value, 2); }
    }
  }

  lemma {:induction false} SubstProgress(ts: seq<Token>, env: Env, used: set<string>)
    ensures Progress(ts, env, used, Subst(ts, env, used))
    decreases ts
  {
    if ts != [] {
      var t, rest := ts[0], ts[1..];
      assert ts == [t] + rest;
      if IsVar(t) {
        ReplacedProgress(t, env, used);
        NamesConcat(Replaced(t, env, used).tokens, rest);
        NamesConcat([t], rest);
      } else if IsFat(t) {
        SubstProgress(t.value, env, used);
        var r := Subst(t.value, env, used);
        if r.done {
          NamesConcat([WithValue(t, r.tokens)], rest);
        } else {
          SubstProgress(rest, env, r.used);
          NamesConcat([t], Subst(rest, env, r.used).tokens);
        }
      } else {
        SubstProgress(rest, env, used);
        NamesConcat([t], Subst(rest, env, used).tokens);
      }
    }
  }

  method SubstVar(tokens: seq<Token>, env: Env, used: set<string>) returns (r: Outcome)
    ensures r == Subst(tokens, env, used)
    decreases tokens
  {
    var ts, usedVars := tokens, used;
    for i := 0 to |tokens|
      invariant ts == tokens
      invariant Subst(tokens, env, used) == Prefixed(tokens[..i], Subst(tokens[i..], env, usedVars))
    {
      var tok := ts[i];
      PrefixedStep(tokens, i, env, usedVars);
      if IsVar(tok) {
        var s := Replaced(tok, env, usedVars);
        return Outcome(s.done, ts[..i] + s.tokens + ts[i + 1..], s.used);
      }
      if IsFat(tok) {
        var s := SubstVar(tok.value, env, usedVars);
        if s.done {
          return Outcome(true, ts[i := WithValue(tok, s.tokens)], s.used);
        }
        usedVars := s.used;
      }
    }
    assert tokens[|tokens|..] == [] && tokens[..|tokens|] + [] == tokens;
    r := Outcome(false, ts, usedVars);
  }

  function Prefixed(done: seq<Token>, r: Outcome): Outcome {
    r.(tokens := done + r.tokens)
  }

  lemma PrefixedStep(tokens: seq<Token>, i: nat, env: Env, used: set<string>)
    requires i < |tokens|
    ensures var t, rest, done := tokens[i], tokens[i + 1..], tokens[..i];
            var all := Prefixed(done, Subst(tokens[i..], env, used));
            && (IsVar(t) ==> var s := Replaced(t, env, used); all == Outcome(s.done, done + s.tokens + rest, s.used))
            && (!IsVar(t) && IsFat(t) ==>
                  var s := Subst(t.value, env, used);
                  all == if s.done then Outcome(true, tokens[i := WithValue(t, s.tokens)], s.used)
                         else Prefixed(tokens[..i + 1], Subst(rest, env, s.used)))
            && (!IsVar(t) && !IsFat(t) ==> all == Prefixed(tokens[..i + 1], Subst(rest, env, used)))
  {
    hide Replaced, IsVar;
    var t, rest, done := tokens[i], tokens[i + 1..], tokens[..i];
    assert tokens[i..][0] == t && tokens[i..][1..] == rest && tokens[..i + 1] == done + [t];
    if IsVar(t) {
      Regrouped(done, Replaced(t, env, used).tokens, rest);
    } else if IsFat(t) && Subst(t.value, env, used).done {
      Replacing(tokens, i, WithValue(t, Subst(t.value, env, used).tokens));
    } else {
      var u := if IsFat(t) then Subst(t.value, env, used).used else used;
      Regrouped(done, [t], Subst(rest, env, u).tokens);
    }
  }

  lemma Regrouped(a: seq<Token>, b: seq<Token>, c: seq<Token>)
    ensures a + (b + c) == a + b + c
  {
  }

  lemma Replacing(ts: seq<Token>, i: nat, w: Token)
    requires i < |ts|
    ensures ts[..i] + ([w] + ts[i + 1..]) == ts[i := w]
  {
  }

  // The text and the names used up after some substitutions.
  ghost function Steps(tokens: seq<Token>, env: Env, used: set<string>, n: nat): Outcome {
    if n == 0 then Outcome(true, tokens, used)
    else
      var r := Steps(tokens, env, used, n - 1);
      Subst(r.tokens, env, r.used)
  }

  // So many substitutions in a row, every one of which did something, lead to this.
  ghost predicate Leads(tokens: seq<Token>, env: Env, used: set<string>, n: nat, r: Outcome) {
    && r == Steps(tokens, env, used, n)
    && forall k: nat | 0 < k <= n :: Steps(tokens, env, used, k).done
  }

  lemma LeadsOn(tokens: seq<Token>, env: Env, used: set<string>, n: nat, r: Outcome)
    requires Leads(tokens, env, used, n, r) && Subst(r.tokens, env, r.used).done
    ensures Leads(tokens, env, used, n + 1, Subst(r.tokens, env, r.used))
  {
    hide Subst;
    assert Steps(tokens, env, used, n + 1) == Subst(r.tokens, env, r.used);
  }

  // After so many substitutions, no more than there are names, nothing more can be
  // substituted.
  ghost predicate SettlesAfter(name: string, tokens: seq<Token>, env: Env, ts: seq<Token>, used: set<string>, n: nat) {
    && n <= |Names(tokens) + EnvNames(env)|
    && Leads(tokens, env, {name}, n, Outcome(true, ts, used)) && !Subst(ts, env, used).done
  }

  ghost predicate Settles(name: string, tokens: seq<Token>, env: Env, ts: seq<Token>) {
    exists used, n :: SettlesAfter(name, tokens, env, ts, used, n)
  }

  // Substitution comes to an end for every text and all properties, cyclic ones too:
  // each step uses up a name, and there are only so many.
  method SubstVars(name: string, tokens: seq<Token>, env: Env) returns (ts: seq<Token>)
    ensures Settles(name, tokens, env, ts)
  {
    hide Subst, Names, EnvNames, Steps;
    var usedVars := {name};
    ts := tokens;
    ghost var steps := 0;
    ghost var all := Names(tokens) + EnvNames(env);
    FewerLeft(all, {}, usedVars);
    LeadsFrom(tokens, env, usedVars);
    while true
      invariant Names(ts) <= all && steps + |all - usedVars| <= |all|
      invariant Leads(tokens, env, {name}, steps, Outcome(true, ts, usedVars))
      decreases |all - usedVars|
    {
      OneStep(ts, env, usedVars, all);
      var r := SubstVar(ts, env, usedVars);
      if !r.done {
        assert SettlesAfter(name, tokens, env, ts, usedVars, steps);
        return;
      }
      LeadsOn(tokens, env, {name}, steps, Outcome(true, ts, usedVars));
      ts, usedVars, steps := r.tokens, r.used, steps + 1;
    }
  }

  lemma LeadsFrom(tokens: seq<Token>, env: Env, used: set<string>)
    ensures Leads(tokens, env, used, 0, Outcome(true, tokens, used))
  {
  }

  lemma OneStep(ts: seq<Token>, env: Env, used: set<string>, all: set<string>)
    requires Names(ts) <= all && EnvNames(env) <= all
    ensures var r := Subst(ts, env, used); Names(r.tokens) <= all && (r.done ==> |all - r.used| < |all - used|)
  {
    hide Subst, Names, EnvNames;
    SubstProgress(ts, env, used);
    FewerLeft(all, used, Subst(ts, env, used).used);
  }

  lemma FewerLeft(all: set<string>, before: set<string>, after: set<string>)
    requires before <= after
    ensures |all - after| <= |all - before|
    ensures before < after && after <= before + all ==> |all - after| < |all - before|
    ensures before == {} ==> all - before == all
  {
    Subset(all - after, all - before);
    if before < after && after <= before + all {
      var n :| n in after && n !in before;
      Subset(all - after, all - before - {n});
    }
  }

  lemma {:induction false} Subset(a: set<string>, b: set<string>)
    requires a <= b
    ensures |a| <= |b|
  {
    if a != {} {
      var x :| x in a;
      Subset(a - {x}, b - {x});
    }
  }

  // ------------------------------------------------------------ when it does the job

  // The var()s of a text, outermost only, in order.
  function Uses(ts: seq<Token>): seq<Token>
    decreases ts
  {
    if ts == [] then [] else UsesOf(ts[0]) + Uses(ts[1..])
  }

  function UsesOf(t: Token): seq<Token>
    decreases t
  {
    if IsVar(t) then [t] else if IsFat(t) then Uses(t.value) else []
  }

  // What a text stands for when every var() is replaced all the way down, with the
  // names used for it.  It is not `ok` if a var() is malformed, or names neither a
  // property nor a default.
  datatype Expansion = Expansion(ok: bool, names: seq<string>, text: seq<Token>)

  function Join(a: Expansion, b: Expansion): Expansion {
    Expansion(a.ok && b.ok, a.names + b.names, a.text + b.text)
  }

  function Wrap(t: Token, e: Expansion): Expansion
    requires IsFat(t)
  {
    e.(text := [WithValue(t, e.text)])
  }

  // A property is not looked up again inside its own value: its name is used then.
  function Expand(ts: seq<Token>, env: Env): Expansion
    decreases |env|, ts, 1
  {
    if ts == [] then Expansion(true, [], []) else Join(ExpandOne(ts[0], env), Expand(ts[1..], env))
  }

  function ExpandOne(t: Token, env: Env): Expansion
    decreases |env|, t, 0
  {
    if IsVar(t) then
      if !CheckVarSyntax(t.value) then Expansion(false, [], [])
      else
        var name := t.value[0].name;
        if name in env then
          FewerProperties(env, name);
          Use(name, Expand(env[name], env - {name}))
        else if |t.value| == 1 then Expansion(false, [], [])
        else Use(name, Expand(t.value[2..], env))
    else if IsFat(t) then Wrap(t, Expand(t.value, env))
    else Expansion(true, [], [t])
  }

  function Use(name: string, e: Expansion): Expansion {
    e.(names := [name] + e.names)
  }

  lemma FewerProperties(env: Env, name: string)
    requires name in env
    ensures |env - {name}| < |env|
  {
    assert (env - {name}).Keys == env.Keys - {name};
  }

  lemma JoinAssociative(a: Expansion, b: Expansion, c: Expansion)
    ensures Join(Join(a, b), c) == Join(a, Join(b, c))
    ensures Join(Expansion(true, [], []), a) == a
  {
  }

  lemma ExpandFirst(ts: seq<Token>, env: Env)
    ensures Expand(ts, env) ==
            if ts == [] then Expansion(true, [], []) else Join(ExpandOne(ts[0], env), Expand(ts[1..], env))
  {
  }

  lemma {:induction false} ExpandConcat(a: seq<Token>, b: seq<Token>, env: Env)
    ensures Expand(a + b, env) == Join(Expand(a, env), Expand(b, env))
  {
    hide Expand, ExpandOne, Join;
    ExpandFirst(a, env);
    ExpandFirst(a + b, env);
    if a == [] {
      assert a + b == b;
      JoinAssociative(Expand(b, env), Expand(b, env), Expand(b, env));
    } else {
      ExpandConcat(a[1..], b, env);
      assert (a + b)[1..] == a[1..] + b;
      JoinAssociative(ExpandOne(a[0], env), Expand(a[1..], env), Expand(b, env));
    }
  }

  lemma {:induction false} ExpandsToItself(ts: seq<Token>, env: Env)
    requires Uses(ts) == []
    ensures Expand(ts, env) == Expansion(true, [], ts)
    decreases ts
  {
    if ts != [] {
      if IsFat(ts[0]) { ExpandsToItself(ts[0].value, env); }
      ExpandsToItself(ts[1..], env);
      assert ts == [ts[0]] + ts[1..];
    }
  }

  // Two expansions that do without a name are the same.
  ghost predicate SameWithout(name: string, a: Expansion, b: Expansion) {
    && (a.ok && name !in a.names <==> b.ok && name !in b.names)
    && (a.ok && name !in a.names ==> a == b)
  }

  // A property that is not needed can as well be missing.
  lemma {:induction false} NotNeeded(ts: seq<Token>, env: Env, name: string)
    ensures SameWithout(name, Expand(ts, env), Expand(ts, env - {name}))
    decreases |env|, ts, 1
  {
    if ts != [] {
      NotNeededOne(ts[0], env, name);
      NotNeeded(ts[1..], env, name);
    }
  }

  lemma {:induction false} NotNeededOne(t: Token, env: Env, name: string)
    ensures SameWithout(name, ExpandOne(t, env), ExpandOne(t, env - {name}))
    decreases |env|, t, 0
  {
    if IsVar(t) {
      if CheckVarSyntax(t.value) && t.value[0].name != name {
        var other := t.value[0].name;
        if other in env {
          FewerProperties(env, other);
          NotNeeded(env[other], env - {other}, name);
          assert env - {other} - {name} == env - {name} - {other};
        } else if |t.value| > 1 {
          NotNeeded(t.value[2..], env, name);
        }
      }
    } else if IsFat(t) {
      NotNeeded(t.value, env, name);
    }
  }

  // A text that can be expanded using every name once, and none that is used already.
  ghost predicate OnceEach(e: Expansion, used: set<string>) {
    && e.ok
    && (forall k | 0 <= k < |e.names| :: e.names[k] !in used)
    && forall j, k | 0 <= j < k < |e.names| :: e.names[j] != e.names[k]
  }

  // It cannot, whatever is used up besides.
  ghost predicate Doomed(e: Expansion, used: set<string>) {
    !e.ok || exists n :: n in e.names && n in used
  }

  // The name a step uses is the first of the expansion, which stays the same otherwise.
  ghost predicate FirstUsed(name: string, e: Expansion, after: Expansion) {
    e.names != [] && name == e.names[0] && SameWithout(name, e.(names := e.names[1..]), after)
  }

  ghost predicate Kept(e: Expansion, used: set<string>, after: Expansion, usedAfter: set<string>) {
    || (Doomed(e, used) && Doomed(after, usedAfter))
    || exists n :: n !in used && usedAfter == used + {n} && FirstUsed(n, e, after)
  }

  // A step keeps the expansion; without a step there is nothing to do, or it cannot
  // be done.
  ghost predicate Steady(ts: seq<Token>, env: Env, used: set<string>, r: Outcome) {
    && used <= r.used
    && if r.done then Kept(Expand(ts, env), used, Expand(r.tokens, env), r.used)
       else r.tokens == ts && if Uses(ts) == [] then r.used == used else Doomed(Expand(ts, env), used)
  }

  lemma {:induction false} SubstIsSteady(ts: seq<Token>, env: Env, used: set<string>)
    ensures Steady(ts, env, used, Subst(ts, env, used))
    decreases ts
  {
    if ts == [] {
    } else if IsVar(ts[0]) {
      SteadyHere(ts, env, used);
    } else if IsFat(ts[0]) {
      SubstIsSteady(ts[0].value, env, used);
      var s := Subst(ts[0].value, env, used);
      if s.done {
        SteadyInside(ts, env, used);
      } else {
        SubstIsSteady(ts[1..], env, s.used);
        SteadyLater(ts, env, used, s.used);
      }
    } else {
      SubstIsSteady(ts[1..], env, used);
      SteadyLater(ts, env, used, used);
    }
  }

  lemma SteadyHere(ts: seq<Token>, env: Env, used: set<string>)
    requires ts != [] && IsVar(ts[0])
    ensures Steady(ts, env, used, Subst(ts, env, used))
  {
    var r := Subst(ts, env, used);
    assert ts == [ts[0]] + ts[1..];
    if r.done {
      var name := ts[0].value[0].name;
      var value := if name in env then env[name] else ts[0].value[2..];
      ExpandConcat(value, ts[1..], env);
      NotNeeded(value, env, name);
      var e := if name in env then Expand(value, env - {name}) else Expand(value, env);
      assert Expand(ts, env) == Join(Use(name, e), Expand(ts[1..], env));
      UseFirst(name, e, Expand(value, env), Expand(ts[1..], env));
    } else {
      var e := ExpandOne(ts[0], env);
      assert e.ok ==> e.names[0] in used;
      assert e.ok ==> e.names[0] in Expand(ts, env).names;
      assert Uses(ts) == [ts[0]] + Uses(ts[1..]);
    }
  }

  lemma UseFirst(name: string, e: Expansion, after: Expansion, rest: Expansion)
    requires SameWithout(name, after, e)
    ensures FirstUsed(name, Join(Use(name, e), rest), Join(after, rest))
  {
    assert (([name] + e.names) + rest.names)[1..] == e.names + rest.names;
  }

  lemma SteadyInside(ts: seq<Token>, env: Env, used: set<string>)
    requires ts != [] && !IsVar(ts[0]) && IsFat(ts[0]) && Subst(ts[0].value, env, used).done
    requires Steady(ts[0].value, env, used, Subst(ts[0].value, env, used))
    ensures Steady(ts, env, used, Subst(ts, env, used))
  {
    var s, r := Subst(ts[0].value, env, used), Subst(ts, env, used);
    var w := WithValue(ts[0], s.tokens);
    assert r.tokens == [w] + ts[1..] && r.tokens[0] == w && r.tokens[1..] == ts[1..];
    KeptWrapped(ts[0], Expand(ts[0].value, env), used, Expand(s.tokens, env), s.used);
    KeptBefore(ExpandOne(ts[0], env), used, ExpandOne(w, env), s.used, Expand(ts[1..], env));
  }

  lemma KeptWrapped(t: Token, e: Expansion, used: set<string>, after: Expansion, usedAfter: set<string>)
    requires IsFat(t) && Kept(e, used, after, usedAfter)
    ensures Kept(Wrap(t, e), used, Wrap(t, after), usedAfter)
  {
    if !Doomed(e, used) || !Doomed(after, usedAfter) {
      var n :| n !in used && usedAfter == used + {n} && FirstUsed(n, e, after);
      assert FirstUsed(n, Wrap(t, e), Wrap(t, after));
    }
  }

  lemma KeptBefore(e: Expansion, used: set<string>, after: Expansion, usedAfter: set<string>, rest: Expansion)
    requires Kept(e, used, after, usedAfter)
    ensures Kept(Join(e, rest), used, Join(after, rest), usedAfter)
  {
    if !Doomed(e, used) || !Doomed(after, usedAfter) {
      var n :| n !in used && usedAfter == used + {n} && FirstUsed(n, e, after);
      assert Join(e, rest).names[1..] == e.names[1..] + rest.names;
      assert FirstUsed(n, Join(e, rest), Join(after, rest));
    }
  }

  lemma FirstBehind(n: string, first: Expansion, e: Expansion, after: Expansion)
    requires first.ok && first.names == [] && FirstUsed(n, e, after)
    ensures FirstUsed(n, Join(first, e), Join(first, after))
  {
    assert [] + e.names == e.names && [] + after.names == after.names;
  }

  lemma KeptBehind(first: Expansion, e: Expansion, used: set<string>, after: Expansion, usedAfter: set<string>)
    requires first.ok && first.names == [] && Kept(e, used, after, usedAfter)
    ensures Kept(Join(first, e), used, Join(first, after), usedAfter)
  {
    if !Doomed(e, used) || !Doomed(after, usedAfter) {
      var n :| n !in used && usedAfter == used + {n} && FirstUsed(n, e, after);
      FirstBehind(n, first, e, after);
    }
  }

  // The first token is passed over, with `between` used after it.
  lemma SteadyLater(ts: seq<Token>, env: Env, used: set<string>, between: set<string>)
    requires ts != [] && !IsVar(ts[0])
    requires if IsFat(ts[0])
             then var s := Subst(ts[0].value, env, used);
                  !s.done && s.used == between && Steady(ts[0].value, env, used, s)
             else between == used
    requires Steady(ts[1..], env, between, Subst(ts[1..], env, between))
    ensures Steady(ts, env, used, Subst(ts, env, used))
  {
    var s, r := Subst(ts[1..], env, between), Subst(ts, env, used);
    assert r == After(ts[0], s);
    assert r.tokens[0] == ts[0] && r.tokens[1..] == s.tokens && ts == [ts[0]] + ts[1..];
    assert Uses(ts) == UsesOf(ts[0]) + Uses(ts[1..]);
    var first := ExpandOne(ts[0], env);
    if UsesOf(ts[0]) == [] {
      if IsFat(ts[0]) { ExpandsToItself(ts[0].value, env); }
      if r.done { KeptBehind(first, Expand(ts[1..], env), used, Expand(s.tokens, env), s.used); }
    } else {
      assert Doomed(first, used) && used <= r.used;
    }
  }

  lemma KeptOnceEach(e: Expansion, used: set<string>, after: Expansion, usedAfter: set<string>)
    requires Kept(e, used, after, usedAfter)
    ensures OnceEach(e, used) <==> OnceEach(after, usedAfter)
    ensures OnceEach(e, used) ==> e.text == after.text
  {
    if Doomed(e, used) && Doomed(after, usedAfter) {
    } else {
      var n :| n !in used && usedAfter == used + {n} && FirstUsed(n, e, after);
      var tail := e.names[1..];
      assert e.names == [n] + tail;
      if OnceEach(e, used) {
        assert n !in tail;
      }
      if OnceEach(after, usedAfter) {
        assert n !in after.names;
        forall k | 0 <= k < |e.names| ensures e.names[k] !in used { if k > 0 { assert e.names[k] == tail[k - 1]; } }
        forall j, k | 0 <= j < k < |e.names| ensures e.names[j] != e.names[k] {
          assert e.names[k] == tail[k - 1] && (j > 0 ==> e.names[j] == tail[j - 1]);
        }
      }
    }
  }

  lemma {:induction false} StepsKeep(ts: seq<Token>, env: Env, used: set<string>, n: nat, r: Outcome)
    requires Leads(ts, env, used, n, r)
    ensures OnceEach(Expand(r.tokens, env), r.used) <==> OnceEach(Expand(ts, env), used)
    ensures OnceEach(Expand(ts, env), used) ==> Expand(r.tokens, env).text == Expand(ts, env).text
  {
    hide Subst, Expand, Kept, OnceEach, Doomed;
    if n > 0 {
      var before := Steps(ts, env, used, n - 1);
      StepsKeep(ts, env, used, n - 1, before);
      assert Steps(ts, env, used, n).done;
      SubstIsSteady(before.tokens, env, before.used);
      KeptOnceEach(Expand(before.tokens, env), before.used, Expand(r.tokens, env), r.used);
    }
  }

  // For every text and all properties: substitution leaves no var() behind exactly
  // when the full expansion of the value uses no property twice, nor the one the value
  // belongs to, and then it is that expansion.  The second use of a property is taken
  // for a cycle.
  lemma AllSubstitutedIffOnceEach(name: string, tokens: seq<Token>, env: Env, ts: seq<Token>)
    requires Settles(name, tokens, env, ts)
    ensures Uses(ts) == [] <==> OnceEach(Expand(tokens, env), {name})
    ensures Uses(ts) == [] ==> ts == Expand(tokens, env).text
  {
    hide Subst, Uses, Expand, Steps;
    var used, n :| SettlesAfter(name, tokens, env, ts, used, n);
    StepsKeep(tokens, env, {name}, n, Outcome(true, ts, used));
    SubstIsSteady(ts, env, used);
    if Uses(ts) == [] { ExpandsToItself(ts, env); }
  }

  // So with the same var() twice one of them stays, whatever the properties are.
  lemma UsedTwice(name: string, v: Token, env: Env, ts: seq<Token>)
    requires IsVar(v) && Settles(name, [v, v], env, ts)
    ensures Uses(ts) != []
  {
    hide Expand, ExpandOne, Uses, Settles;
    AllSubstitutedIffOnceEach(name, [v, v], env, ts);
    var e := ExpandOne(v, env);
    ExpandFirst([v, v], env);
    ExpandFirst([v], env);
    ExpandFirst([], env);
    assert [v, v][1..] == [v] && [v][1..] == [];
    VarUses(v, env);
    var ns := Expand([v, v], env).names;
    assert ns == e.names + (e.names + []);
    assert e.ok ==> ns[0] == ns[|e.names|];
  }

  lemma VarUses(v: Token, env: Env)
    requires IsVar(v)
    ensures ExpandOne(v, env).ok ==> ExpandOne(v, env).names != []
  {
  }
}
