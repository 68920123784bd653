// Removing whitespace tokens, as it is done for long lists and for short ones, and
// exactly when the two agree.
module Whitespace {
  import opened CssTokens

  // A neighbour, or the edge of the list.
  datatype Side = Edge | Side(t: Token)

  // The caller's predicate, which may be missing.
  datatype Keep = Never | Keep(f: (Side, Side) -> bool)

  const LARGE_SIZE := 50

  predicate Keeps(keep: Keep, left: Side, right: Side) {
    keep.Keep? && keep.f(left, right)
  }

  // A component value with the whitespace inside it removed.
  function Cleaned(t: Token, keep: Keep): Token
    decreases t
  {
    match t
    case Block(b, value) => Block(b, Removed(value, keep))
    case FunctionValue(name, value) => FunctionValue(name, Removed(value, keep))
    case _ => t
  }

  function Removed(ts: seq<Token>, keep: Keep): seq<Token>
    decreases ts
  {
    if |ts| > LARGE_SIZE then Large(ts, 0, keep) else Small(ts, 0, Edge, keep)
  }

  function Right(ts: seq<Token>, i: nat): Side
    requires i < |ts|
  {
    if i + 1 < |ts| then Side(ts[i + 1]) else Edge
  }

  // For long lists: the neighbours are those of the original list.
  function Large(ts: seq<Token>, i: nat, keep: Keep): seq<Token>
    requires i <= |ts|
    decreases ts, |ts| - i
  {
    if i == |ts| then []
    else if ts[i].White? then
      var left := if i > 0 then Side(Cleaned(ts[i - 1], keep)) else Edge;
      (if Keeps(keep, left, Right(ts, i)) then [White] else []) + Large(ts, i + 1, keep)
    else [Cleaned(ts[i], keep)] + Large(ts, i + 1, keep)
  }

  // For short lists: the left neighbour is the last token kept.
  function Small(ts: seq<Token>, i: nat, last: Side, keep: Keep): seq<Token>
    requires i <= |ts|
    decreases ts, |ts| - i
  {
    if i == |ts| then []
    else if ts[i].White? then
      if Keeps(keep, last, Right(ts, i)) then [White] + Small(ts, i + 1, Side(White), keep)
      else Small(ts, i + 1, last, keep)
    else [Cleaned(ts[i], keep)] + Small(ts, i + 1, Side(Cleaned(ts[i], keep)), keep)
  }

  // ----------------------------------------------------------------- when they agree

  ghost predicate Solid(s: Side) {
    s.Edge? || !s.t.White?
  }

  // What a neighbour on the left looks like once it has been gone over.
  function CleanedSide(s: Side, keep: Keep): Side {
    if s.Edge? then Edge else Side(Cleaned(s.t, keep))
  }

  function Left(ts: seq<Token>, i: nat): Side
    requires i <= |ts|
  {
    if i > 0 then Side(ts[i - 1]) else Edge
  }

  function One(b: bool): nat { if b then 1 else 0 }

  // How much the long form keeps of `n` whitespace tokens in a row between `left` and
  // `right`: the first, those in the middle, and the last are judged apart ...
  function KeptLong(keep: Keep, left: Side, n: nat, right: Side): nat {
    if n <= 1 then One(n == 1 && Keeps(keep, left, right))
    else
      var white := Side(White);
      One(Keeps(keep, left, white)) + (if Keeps(keep, white, white) then n - 2 else 0) + One(Keeps(keep, white, right))
  }

  // ... and the short form, which forgets what it has dropped.
  function KeptShort(keep: Keep, left: Side, n: nat, right: Side): nat {
    if n <= 1 || Keeps(keep, left, Side(White)) then KeptLong(keep, left, n, right) else One(Keeps(keep, left, right))
  }

  // All the whitespace tokens from `i` to `j`, as far as they go to the right.
  ghost predicate Whites(ts: seq<Token>, i: nat, j: nat) {
    && i <= j <= |ts| && (forall k | i <= k < j :: ts[k].White?)
    && (j < |ts| ==> !ts[j].White?)
  }

  // And to the left.
  ghost predicate Run(ts: seq<Token>, i: nat, j: nat) {
    Whites(ts, i, j) && i < j && Solid(Left(ts, i))
  }

  ghost predicate JudgedAlike(ts: seq<Token>, i: nat, j: nat, keep: Keep)
    requires Run(ts, i, j)
  {
    var left, right := CleanedSide(Left(ts, i), keep), Right(ts, j - 1);
    KeptLong(keep, left, j - i, right) == KeptShort(keep, left, j - i, right)
  }

  function Spaces(n: nat): seq<Token> { seq(n, _ => White) }

  lemma SpacesMore(n: nat, rest: seq<Token>)
    ensures [White] + (Spaces(n) + rest) == Spaces(n + 1) + rest
    ensures Spaces(0) + rest == rest
  {
  }

  lemma {:induction false} LargeRun(ts: seq<Token>, i: nat, j: nat, keep: Keep)
    requires Whites(ts, i, j) && i < j
    ensures Large(ts, i, keep) ==
            Spaces(KeptLong(keep, CleanedSide(Left(ts, i), keep), j - i, Right(ts, j - 1))) + Large(ts, j, keep)
    decreases j - i
  {
    hide Keeps, Spaces, Cleaned;
    var n := if i + 1 < j then KeptLong(keep, Side(White), j - i - 1, Right(ts, j - 1)) else 0;
    if i + 1 < j {
      LargeRun(ts, i + 1, j, keep);
      CleanWhite(keep);
    }
    SpacesMore(n, Large(ts, j, keep));
  }

  lemma CleanWhite(keep: Keep)
    ensures Cleaned(White, keep) == White
  {
  }

  // The short form goes on with the first of a run kept or forgotten.
  lemma KeptNext(keep: Keep, last: Side, n: nat, right: Side)
    ensures n == 1 ==> KeptShort(keep, last, n, right) == One(Keeps(keep, last, right))
    ensures n > 1 ==>
              var kept := Keeps(keep, last, Side(White));
              KeptShort(keep, last, n, right) ==
                KeptShort(keep, if kept then Side(White) else last, n - 1, right) + One(kept)
  {
  }

  lemma SmallUnfold(ts: seq<Token>, i: nat, last: Side, keep: Keep)
    requires i < |ts| && ts[i].White?
    ensures var kept := Keeps(keep, last, Right(ts, i));
            Small(ts, i, last, keep) ==
              (if kept then [White] else []) + Small(ts, i + 1, if kept then Side(White) else last, keep)
  {
    hide Keeps, Cleaned;
  }

  lemma SmallHere(ts: seq<Token>, j: nat, last: Side, keep: Keep)
    requires j <= |ts| && (j < |ts| ==> !ts[j].White?)
    ensures Small(ts, j, last, keep) == Small(ts, j, Edge, keep)
  {
    hide Keeps, Cleaned;
  }

  lemma {:induction false} SmallRun(ts: seq<Token>, i: nat, j: nat, last: Side, keep: Keep)
    requires Whites(ts, i, j) && i < j
    ensures Small(ts, i, last, keep) ==
            Spaces(KeptShort(keep, last, j - i, Right(ts, j - 1))) + Small(ts, j, Edge, keep)
    decreases j - i
  {
    hide Small, Keeps, Spaces, KeptShort;
    var kept := Keeps(keep, last, Right(ts, i));
    var next := if kept then Side(White) else last;
    SmallUnfold(ts, i, last, keep);
    KeptNext(keep, last, j - i, Right(ts, j - 1));
    if i + 1 < j {
      SmallRun(ts, i + 1, j, next, keep);
      SpacesMore(KeptShort(keep, next, j - i - 1, Right(ts, j - 1)), Small(ts, j, Edge, keep));
    } else {
      SmallHere(ts, j, next, keep);
      SpacesMore(0, Small(ts, j, Edge, keep));
    }
  }

  predicate StartsSolid(ts: seq<Token>) { ts == [] || !ts[0].White? }

  lemma SpacesApart(m: nat, a: seq<Token>, n: nat, b: seq<Token>)
    requires StartsSolid(a) && StartsSolid(b)
    ensures Spaces(m) + a == Spaces(n) + b <==> m == n && a == b
  {
    var x, y := Spaces(m) + a, Spaces(n) + b;
    assert x[m..] == a && y[n..] == b;
    assert (a != [] ==> x[m] == a[0]) && (b != [] ==> y[n] == b[0]);
    assert (forall k | 0 <= k < m :: x[k] == White) && (forall k | 0 <= k < n :: y[k] == White);
  }

  function RunEnd(ts: seq<Token>, i: nat): (j: nat)
    requires i <= |ts|
    ensures Whites(ts, i, j) && (i < |ts| && ts[i].White? ==> i < j)
    decreases |ts| - i
  {
    if i < |ts| && ts[i].White? then RunEnd(ts, i + 1) else i
  }

  ghost predicate AllAlike(ts: seq<Token>, i: nat, keep: Keep) {
    forall a: nat, b: nat | i <= a && Run(ts, a, b) :: JudgedAlike(ts, a, b, keep)
  }

  lemma {:induction false} AgreeFrom(ts: seq<Token>, i: nat, last: Side, keep: Keep)
    requires i <= |ts|
    requires i == |ts| || !ts[i].White? || (Solid(Left(ts, i)) && last == CleanedSide(Left(ts, i), keep))
    ensures Large(ts, i, keep) == Small(ts, i, last, keep) <==> AllAlike(ts, i, keep)
    decreases |ts| - i
  {
    hide Keeps, KeptLong, KeptShort;
    if i == |ts| {
    } else if ts[i].White? {
      AgreeOnRun(ts, i, RunEnd(ts, i), last, keep);
    } else {
      AgreeFrom(ts, i + 1, Side(Cleaned(ts[i], keep)), keep);
      assert AllAlike(ts, i, keep) <==> AllAlike(ts, i + 1, keep);
      Behind(Cleaned(ts[i], keep), Large(ts, i + 1, keep), Small(ts, i + 1, Side(Cleaned(ts[i], keep)), keep));
    }
  }

  lemma Behind(x: Token, a: seq<Token>, b: seq<Token>)
    ensures [x] + a == [x] + b <==> a == b
  {
    assert ([x] + a)[1..] == a && ([x] + b)[1..] == b;
  }

  lemma {:induction false} AgreeOnRun(ts: seq<Token>, i: nat, j: nat, last: Side, keep: Keep)
    requires Run(ts, i, j) && last == CleanedSide(Left(ts, i), keep)
    ensures Large(ts, i, keep) == Small(ts, i, last, keep) <==> AllAlike(ts, i, keep)
    decreases |ts| - i, 0
  {
    AgreeFrom(ts, j, Edge, keep);
    LargeRun(ts, i, j, keep);
    SmallRun(ts, i, j, last, keep);
    SolidHere(ts, j, keep);
    hide Large, Small, Keeps, KeptLong, KeptShort, Spaces, StartsSolid, Cleaned, Removed;
    var right := Right(ts, j - 1);
    SpacesApart(KeptLong(keep, last, j - i, right), Large(ts, j, keep),
                KeptShort(keep, last, j - i, right), Small(ts, j, Edge, keep));
    forall a: nat, b: nat | i <= a && Run(ts, a, b) ensures (a == i && b == j) || j <= a {
      assert a > 0 ==> Left(ts, a) == Side(ts[a - 1]);
    }
  }

  lemma SolidHere(ts: seq<Token>, j: nat, keep: Keep)
    requires j <= |ts| && (j < |ts| ==> !ts[j].White?)
    ensures StartsSolid(Large(ts, j, keep)) && StartsSolid(Small(ts, j, Edge, keep))
  {
  }

  // The two forms agree on a list exactly when they keep as much of every run.
  lemma AgreeIffAlike(ts: seq<Token>, keep: Keep)
    ensures Large(ts, 0, keep) == Small(ts, 0, Edge, keep) <==> AllAlike(ts, 0, keep)
  {
    AgreeFrom(ts, 0, Edge, keep);
  }

  predicate NoRuns(ts: seq<Token>) {
    forall i | 0 < i < |ts| :: !(ts[i - 1].White? && ts[i].White?)
  }

  // With no predicate they always agree; with any predicate they agree on a list
  // that has no two whitespace tokens in a row.
  lemma AgreeWithoutRuns(ts: seq<Token>, keep: Keep)
    requires keep.Never? || NoRuns(ts)
    ensures Large(ts, 0, keep) == Small(ts, 0, Edge, keep)
  {
    AgreeFrom(ts, 0, Edge, keep);
    forall a: nat, b: nat | Run(ts, a, b) ensures JudgedAlike(ts, a, b, keep) {
      if a + 1 < b { assert ts[a].White? && ts[a + 1].White?; }
    }
  }

  // The predicate does not tell a run of whitespace from a single one: where it
  // drops whitespace before more whitespace, it drops the middle of the run too and
  // judges its last by the token the run began after.
  ghost predicate RunBlind(keep: Keep) {
    forall left, right | Solid(left) && Solid(right) :: RunBlindAt(keep, left, right)
  }

  ghost predicate RunBlindAt(keep: Keep, left: Side, right: Side) {
    var l := CleanedSide(left, keep);
    || Keeps(keep, l, Side(White))
    || (!Keeps(keep, Side(White), Side(White)) && (Keeps(keep, Side(White), right) <==> Keeps(keep, l, right)))
  }

  // A predicate gets the same from both on all lists exactly when it is blind to the
  // length of a run.
  lemma AgreeIffRunBlind(keep: Keep)
    ensures RunBlind(keep) <==> forall ts :: Large(ts, 0, keep) == Small(ts, 0, Edge, keep)
  {
    if RunBlind(keep) {
      forall ts ensures Large(ts, 0, keep) == Small(ts, 0, Edge, keep) {
        AgreeFrom(ts, 0, Edge, keep);
        forall a: nat, b: nat | Run(ts, a, b) ensures JudgedAlike(ts, a, b, keep) {
          assert RunBlindAt(keep, Left(ts, a), Right(ts, b - 1));
        }
      }
    } else {
      var left, right :| Solid(left) && Solid(right) && !RunBlindAt(keep, left, right);
      var ts := Differ(keep, left, right);
    }
  }

  // The tokens at a side, none at the edge.
  function Tokens(s: Side): seq<Token> {
    if s.Edge? then [] else [s.t]
  }

  // A run of two between such tokens shows the difference, or one of three.
  lemma Differ(keep: Keep, left: Side, right: Side) returns (ts: seq<Token>)
    requires Solid(left) && Solid(right) && !RunBlindAt(keep, left, right)
    ensures Large(ts, 0, keep) != Small(ts, 0, Edge, keep)
  {
    hide Large, Small, Cleaned;
    var n := if Keeps(keep, Side(White), right) != Keeps(keep, CleanedSide(left, keep), right) then 2 else 3;
    ts := Tokens(left) + Spaces(n) + Tokens(right);
    var i := |Tokens(left)|;
    assert Run(ts, i, i + n) && Left(ts, i) == left && Right(ts, i + n - 1) == right;
    assert !JudgedAlike(ts, i, i + n, keep);
    AgreeFrom(ts, 0, Edge, keep);
  }

  // The one predicate the engine passes, for media queries, keeps whitespace between
  // an angle bracket and an equals sign; it is not blind to runs, so a list of media
  // queries can be read differently once it is long.
  predicate MediaKeeps(left: Side, right: Side) {
    (left == Side(Delim('<')) || left == Side(Delim('>'))) && right == Side(Delim('='))
  }

  lemma MediaKeepIsNotRunBlind()
    ensures !RunBlind(Keep(MediaKeeps))
  {
    var keep := Keep(MediaKeeps);
    assert !RunBlindAt(keep, Side(Delim('<')), Side(Delim('=')));
  }

  // On a list of media queries the two agree exactly when no run of whitespace stands
  // between an angle bracket and an equals sign.
  lemma MediaAgree(ts: seq<Token>)
    ensures Large(ts, 0, Keep(MediaKeeps)) == Small(ts, 0, Edge, Keep(MediaKeeps)) <==>
            forall i: nat, j: nat | Run(ts, i, j) && i + 1 < j :: !MediaKeeps(Left(ts, i), Right(ts, j - 1))
  {
    var keep := Keep(MediaKeeps);
    hide Large, Small;
    AgreeFrom(ts, 0, Edge, keep);
    forall i: nat, j: nat | Run(ts, i, j)
      ensures JudgedAlike(ts, i, j, keep) <==> (i + 1 < j ==> !MediaKeeps(Left(ts, i), Right(ts, j - 1)))
    {
      assert MediaKeeps(CleanedSide(Left(ts, i), keep), Right(ts, j - 1)) <==>
             MediaKeeps(Left(ts, i), Right(ts, j - 1));
    }
  }

  // "<  =" keeps a space in a short list and none in a long one.
  lemma MediaDiffer()
    ensures var ts := [Delim('<'), White, White, Delim('=')];
            && Small(ts, 0, Edge, Keep(MediaKeeps)) == [Delim('<'), White, Delim('=')]
            && Large(ts, 0, Keep(MediaKeeps)) == [Delim('<'), Delim('=')]
  {
    var ts, keep := [Delim('<'), White, White, Delim('=')], Keep(MediaKeeps);
    SmallRun(ts, 1, 3, Side(Delim('<')), keep);
    LargeRun(ts, 1, 3, keep);
    assert Small(ts, 4, Side(ts[3]), keep) == [] && Large(ts, 4, keep) == [];
    assert Small(ts, 3, Edge, keep) == [Delim('=')] && Large(ts, 3, keep) == [Delim('=')];
    assert Spaces(1) == [White] && Spaces(0) == [];
  }

  // --------------------------------------------------------------- what is removed

  function Solids(ts: seq<Token>): seq<Token> {
    if ts == [] then [] else (if ts[0].White? then [] else [ts[0]]) + Solids(ts[1..])
  }

  lemma {:induction false} SolidsConcat(a: seq<Token>, b: seq<Token>)
    ensures Solids(a + b) == Solids(a) + Solids(b)
  {
    if a == [] {
      assert a + b == b;
    } else {
      SolidsConcat(a[1..], b);
      assert (a + b)[1..] == a[1..] + b && (a + b)[0] == a[0];
      var first := if a[0].White? then [] else [a[0]];
      assert (first + Solids(a[1..])) + Solids(b) == first + (Solids(a[1..]) + Solids(b));
    }
  }

  lemma {:induction false} CleanedIsSolid(t: Token)
    requires !t.White?
    ensures Flatten(Cleaned(t, Never)) == Solids(Flatten(t))
    decreases t
  {
    match t
    case Block(b, value) =>
      RemovedIsSolid(value);
      SolidsInBrackets(Open(b), FlattenAll(value), Close(b));
    case FunctionValue(name, value) =>
      RemovedIsSolid(value);
      SolidsInBrackets(Function(name), FlattenAll(value), Close(Round));
    case _ =>
  }

  lemma SolidsInBrackets(o: Token, ts: seq<Token>, c: Token)
    requires !o.White? && !c.White?
    ensures Solids([o] + ts + [c]) == [o] + Solids(ts) + [c]
  {
    assert ([o] + ts + [c])[1..] == ts + [c];
    SolidsConcat(ts, [c]);
  }

  // Without a predicate exactly the whitespace goes, however deep it sits.
  lemma {:induction false} RemovedIsSolid(ts: seq<Token>)
    ensures FlattenAll(Removed(ts, Never)) == Solids(FlattenAll(ts))
    decreases ts
  {
    AgreeWithoutRuns(ts, Never);
    LargeIsSolid(ts, 0);
    assert ts[0..] == ts;
  }

  lemma {:induction false} LargeIsSolid(ts: seq<Token>, i: nat)
    requires i <= |ts|
    ensures FlattenAll(Large(ts, i, Never)) == Solids(FlattenAll(ts[i..]))
    decreases ts, |ts| - i
  {
    if i < |ts| {
      LargeIsSolid(ts, i + 1);
      assert ts[i..] == [ts[i]] + ts[i + 1..];
      FlattenOne(ts[i], ts[i + 1..]);
      SolidsConcat(Flatten(ts[i]), FlattenAll(ts[i + 1..]));
      if ts[i].White? {
        var rest := FlattenAll(ts[i + 1..]);
        assert Large(ts, i, Never) == Large(ts, i + 1, Never);
        assert ([White] + rest)[0] == White && ([White] + rest)[1..] == rest;
      } else {
        CleanedIsSolid(ts[i]);
        FlattenOne(Cleaned(ts[i], Never), Large(ts, i + 1, Never));
      }
    }
  }

  // ----------------------------------------------------------------------- the loops

  method RemoveWhitespace(tokens: seq<Token>, keep: Keep) returns (r: seq<Token>)
    ensures r == Removed(tokens, keep)
    ensures r == if |tokens| > 50 then Large(tokens, 0, keep) else Small(tokens, 0, Edge, keep)
    decreases tokens, 1
  {
    if |tokens| > LARGE_SIZE {
      r := RemoveWhitespaceLarge(tokens, keep);
    } else {
      r := RemoveWhitespaceSmall(tokens, keep);
    }
  }

  method CleanToken(tok: Token, keep: Keep) returns (r: Token)
    ensures r == Cleaned(tok, keep)
    decreases tok
  {
    r := tok;
    if tok.Block? {
      var value := RemoveWhitespace(tok.value, keep);
      r := Block(tok.b, value);
    } else if tok.FunctionValue? {
      var value := RemoveWhitespace(tok.value, keep);
      r := FunctionValue(tok.name, value);
    }
  }

  // Erases whitespace as it goes.
  method RemoveWhitespaceSmall(tokens: seq<Token>, keep: Keep) returns (ts: seq<Token>)
    ensures ts == Small(tokens, 0, Edge, keep)
    decreases tokens, 0
  {
    hide Removed;
    ts := tokens;
    var i := 0;
    ghost var j := 0;
    while i < |ts|
      invariant i <= |ts| && j <= |tokens| && ts[i..] == tokens[j..]
      invariant ts[..i] + Small(tokens, j, if i > 0 then Side(ts[i - 1]) else Edge, keep) ==
                Small(tokens, 0, Edge, keep)
      decreases |ts| - i
    {
      var last := if i > 0 then Side(ts[i - 1]) else Edge;
      assert ts[i] == tokens[j] && Right(ts, i) == Right(tokens, j) by {
        assert ts[i..][0] == tokens[j..][0];
        Neighbour(ts, i, tokens, j);
      }
      ghost var done, all := ts[..i], ts;
      if ts[i].White? {
        if Keeps(keep, last, Right(ts, i)) {
          assert ts[..i + 1] == done + [White];
          i := i + 1;
        } else {
          ts := ts[..i] + ts[i + 1..];
          assert ts[..i] == done && ts[i..] == all[i..][1..];
        }
      } else {
        var tok := CleanToken(ts[i], keep);
        ts := ts[i := tok];
        assert ts[..i + 1] == done + [tok] && ts[i + 1..] == all[i..][1..];
        i := i + 1;
      }
      assert tokens[j + 1..] == tokens[j..][1..] && ts[i..] == all[|done|..][1..];
      j := j + 1;
    }
    assert ts[..i] == ts && j == |tokens|;
  }

  lemma Neighbour(ts: seq<Token>, i: nat, tokens: seq<Token>, j: nat)
    requires i < |ts| && j < |tokens| && ts[i..] == tokens[j..]
    ensures Right(ts, i) == Right(tokens, j)
  {
    assert |ts[i..]| == |tokens[j..]|;
    if i + 1 < |ts| { assert ts[i..][1] == tokens[j..][1]; }
  }

  // Collects the indices to keep, then copies once.
  method RemoveWhitespaceLarge(tokens: seq<Token>, keep: Keep) returns (r: seq<Token>)
    ensures r == Large(tokens, 0, keep)
    decreases tokens, 0
  {
    var ts := tokens;
    var keepIdx: seq<nat> := [];
    for i := 0 to |tokens|
      invariant CleanedUpTo(tokens, i, ts, keep) && Indices(keepIdx, i)
      invariant Picked(ts, keepIdx) + Large(tokens, i, keep) == Large(tokens, 0, keep)
    {
      ghost var before := ts;
      var kept := true;
      if ts[i].White? {
        var left := if i > 0 then Side(ts[i - 1]) else Edge;
        kept := Keeps(keep, left, Right(ts, i));
      } else {
        var tok := CleanToken(ts[i], keep);
        ts := ts[i := tok];
      }
      LargeStep(tokens, i, before, ts, keepIdx, kept, keep);
      if kept {
        keepIdx := keepIdx + [i];
      }
    }
    if |keepIdx| == |tokens| {
      PickedAll(ts, keepIdx);
      return ts;
    }
    r := CopyKept(ts, keepIdx);
  }

  method CopyKept(ts: seq<Token>, keepIdx: seq<nat>) returns (r: seq<Token>)
    requires forall k | 0 <= k < |keepIdx| :: keepIdx[k] < |ts|
    ensures r == Picked(ts, keepIdx)
  {
    r := [];
    for k := 0 to |keepIdx|
      invariant r == Picked(ts, keepIdx[..k])
    {
      assert keepIdx[..k + 1] == keepIdx[..k] + [keepIdx[k]];
      PickedMore(ts, keepIdx[..k], keepIdx[k]);
      r := r + [ts[keepIdx[k]]];
    }
    assert keepIdx[..|keepIdx|] == keepIdx;
  }

  ghost predicate CleanedUpTo(tokens: seq<Token>, i: nat, ts: seq<Token>, keep: Keep) {
    |ts| == |tokens| && forall k | 0 <= k < |ts| :: ts[k] == if k < i then Cleaned(tokens[k], keep) else tokens[k]
  }

  // Indices below `i`, each after the ones before it.
  ghost predicate Indices(idx: seq<nat>, i: nat) {
    |idx| <= i && forall k | 0 <= k < |idx| :: k <= idx[k] < i && i - idx[k] >= |idx| - k
  }

  lemma LargeStep(tokens: seq<Token>, i: nat, before: seq<Token>, ts: seq<Token>, idx: seq<nat>, kept: bool, keep: Keep)
    requires i < |tokens| && CleanedUpTo(tokens, i, before, keep) && Indices(idx, i)
    requires ts == if tokens[i].White? then before else before[i := Cleaned(tokens[i], keep)]
    requires kept <==> tokens[i].White? ==> Keeps(keep, if i > 0 then Side(before[i - 1]) else Edge, Right(before, i))
    ensures CleanedUpTo(tokens, i + 1, ts, keep)
    ensures var idx' := if kept then idx + [i] else idx;
            && Indices(idx', i + 1)
            && Picked(before, idx) + Large(tokens, i, keep) == Picked(ts, idx') + Large(tokens, i + 1, keep)
  {
    hide Large, Picked, Cleaned, Keeps;
    PickedFrame(before, ts, idx, i);
    LargeUnfold(tokens, i, before, ts, kept, keep);
    if kept { PickedMore(ts, idx, i); }
    Onto(Picked(ts, idx), ts[i], Large(tokens, i + 1, keep));
  }

  // One turn of the specification, with the neighbours the loop sees.
  lemma LargeUnfold(tokens: seq<Token>, i: nat, before: seq<Token>, ts: seq<Token>, kept: bool, keep: Keep)
    requires i < |tokens| && CleanedUpTo(tokens, i, before, keep)
    requires ts == if tokens[i].White? then before else before[i := Cleaned(tokens[i], keep)]
    requires kept <==> tokens[i].White? ==> Keeps(keep, if i > 0 then Side(before[i - 1]) else Edge, Right(before, i))
    ensures CleanedUpTo(tokens, i + 1, ts, keep)
    ensures Large(tokens, i, keep) == (if kept then [ts[i]] else []) + Large(tokens, i + 1, keep)
  {
    hide Keeps, Removed;
    assert Right(before, i) == Right(tokens, i);
    assert ts[i] == Cleaned(tokens[i], keep);
    assert [] + Large(tokens, i + 1, keep) == Large(tokens, i + 1, keep);
  }

  lemma Onto(a: seq<Token>, x: Token, rest: seq<Token>)
    ensures a + ([x] + rest) == (a + [x]) + rest && a + ([] + rest) == a + rest
  {
  }

  function Picked(ts: seq<Token>, idx: seq<nat>): seq<Token>
    requires forall k | 0 <= k < |idx| :: idx[k] < |ts|
  {
    seq(|idx|, k requires 0 <= k < |idx| => ts[idx[k]])
  }

  lemma PickedFrame(a: seq<Token>, b: seq<Token>, idx: seq<nat>, i: nat)
    requires |a| == |b| && i <= |a| && forall k | 0 <= k < i :: a[k] == b[k]
    requires forall k | 0 <= k < |idx| :: idx[k] < i
    ensures Picked(a, idx) == Picked(b, idx)
  {
  }

  lemma PickedMore(ts: seq<Token>, idx: seq<nat>, i: nat)
    requires i < |ts| && forall k | 0 <= k < |idx| :: idx[k] < |ts|
    ensures Picked(ts, idx + [i]) == Picked(ts, idx) + [ts[i]]
  {
  }

  // As many indices as tokens: nothing is dropped.
  lemma PickedAll(ts: seq<Token>, idx: seq<nat>)
    requires |idx| == |ts| && Indices(idx, |ts|)
    ensures Picked(ts, idx) == ts
  {
  }
}
