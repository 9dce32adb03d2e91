/** Command suggestion: the two-row edit-distance loop and the selection of the
    nearest command name.

    The reference notion is an explicit script of single-byte edits. `Lev` is the
    textbook recursion on last bytes; it is shown to be the length of a shortest
    script, and the two-row loop is shown to compute it. */
module EditDistance {
  import opened Basics

  type Text = seq<char>

  // ---- Edit scripts -------------------------------------------------------

  datatype Edit =
    | Insert(pos: nat, c: char)
    | Delete(pos: nat)
    | Substitute(pos: nat, c: char)

  predicate Applicable(e: Edit, s: Text) {
    match e
    case Insert(p, _) => p <= |s|
    case Delete(p) => p < |s|
    case Substitute(p, _) => p < |s|
  }

  function Apply(e: Edit, s: Text): Text
    requires Applicable(e, s)
  {
    match e
    case Insert(p, c) => s[..p] + [c] + s[p..]
    case Delete(p) => s[..p] + s[p + 1..]
    case Substitute(p, c) => s[..p] + [c] + s[p + 1..]
  }

  /** `script`, applied left to right, turns `a` into `b`. */
  ghost predicate Transforms(script: seq<Edit>, a: Text, b: Text)
    decreases |script|
  {
    if script == [] then a == b
    else Applicable(script[0], a) && Transforms(script[1..], Apply(script[0], a), b)
  }

  /** `d` is the least length of any edit script from `a` to `b`. */
  ghost predicate IsLeastEdits(a: Text, b: Text, d: nat) {
    && (exists script :: Transforms(script, a, b) && |script| == d)
    && (forall script :: Transforms(script, a, b) ==> d <= |script|)
  }

  // ---- The recursion on last bytes ---------------------------------------

  function Min(x: int, y: int): int {
    if x < y then x else y
  }

  function Cost(x: char, y: char): nat {
    if x == y then 0 else 1
  }

  function Lev(a: Text, b: Text): nat
    decreases |a| + |b|
  {
    if a == [] then |b|
    else if b == [] then |a|
    else
      var a', b' := a[..|a| - 1], b[..|b| - 1];
      Min(Lev(a', b) + 1, Min(Lev(a, b') + 1, Lev(a', b') + Cost(a[|a| - 1], b[|b| - 1])))
  }

  /** `Lev` on two texts given with their last bytes split off. */
  lemma {:induction false} LevSnoc(a: Text, x: char, b: Text, y: char)
    ensures Lev(a + [x], b + [y])
         == Min(Lev(a, b + [y]) + 1, Min(Lev(a + [x], b) + 1, Lev(a, b) + Cost(x, y)))
  {
    assert (a + [x])[..|a|] == a && (b + [y])[..|b|] == b;
  }

  lemma {:induction false} LevAppendLeft(a: Text, x: char, b: Text)
    ensures Lev(a + [x], b) <= Lev(a, b) + 1
  {
    if b != [] {
      assert b == b[..|b| - 1] + [b[|b| - 1]];
      LevSnoc(a, x, b[..|b| - 1], b[|b| - 1]);
    }
  }

  lemma {:induction false} LevAppendRight(a: Text, b: Text, y: char)
    ensures Lev(a, b + [y]) <= Lev(a, b) + 1
  {
    if a != [] {
      assert a == a[..|a| - 1] + [a[|a| - 1]];
      LevSnoc(a[..|a| - 1], a[|a| - 1], b, y);
    }
  }

  /** Each of the three ways to end an alignment gives an upper bound. */
  lemma {:induction false} LevSteps(a: Text, x: char, b: Text, y: char)
    ensures Lev(a + [x], b) <= Lev(a, b) + 1
    ensures Lev(a, b + [y]) <= Lev(a, b) + 1
    ensures Lev(a + [x], b + [y]) <= Lev(a, b) + Cost(x, y)
  {
    LevSnoc(a, x, b, y);
    LevAppendLeft(a, x, b);
    LevAppendRight(a, b, y);
  }

  // ---- One edit changes the distance by at most one ----------------------

  lemma {:induction false} LevDropLast(p: Text, c: char, b: Text)
    ensures Lev(p, b) <= Lev(p + [c], b) + 1
    decreases |b|
  {
    if b != [] {
      var b', y := b[..|b| - 1], b[|b| - 1];
      assert b == b' + [y];
      LevSnoc(p, c, b', y);
      LevDropLast(p, c, b');
      LevSteps(p, c, b', y);
    }
  }

  lemma {:induction false} LevChangeLast(p: Text, c: char, d: char, b: Text)
    ensures Lev(p + [d], b) <= Lev(p + [c], b) + 1
    decreases |b|
  {
    if b != [] {
      var b', y := b[..|b| - 1], b[|b| - 1];
      assert b == b' + [y];
      LevSnoc(p, c, b', y);
      LevChangeLast(p, c, d, b');
      LevSteps(p, d, b', y);
      LevSteps(p, d, b, y);
      LevSteps(p + [d], d, b', y);
    }
  }

  /** Moving one edit to the end of the text: if replacing the middle `m` by `n`
      costs at most one when nothing follows, it costs at most one always. */
  lemma {:induction false} LevUnderSuffix(p: Text, m: Text, n: Text, q: Text, b: Text)
    requires forall b' :: Lev(p + n, b') <= Lev(p + m, b') + 1
    requires |m| <= |n| + 1
    requires |n| <= |m| + 1
    ensures Lev(p + n + q, b) <= Lev(p + m + q, b) + 1
    decreases |q| + |b|
  {
    if q == [] {
      assert p + n + q == p + n && p + m + q == p + m;
    } else if b != [] {
      var q', x := q[..|q| - 1], q[|q| - 1];
      var b', y := b[..|b| - 1], b[|b| - 1];
      assert b == b' + [y];
      assert p + m + q == (p + m + q') + [x] && p + n + q == (p + n + q') + [x];
      LevSnoc(p + m + q', x, b', y);
      LevSnoc(p + n + q', x, b', y);
      LevUnderSuffix(p, m, n, q', b);
      LevUnderSuffix(p, m, n, q, b');
      LevUnderSuffix(p, m, n, q', b');
    }
  }

  /** Applying any one edit to the source text lowers the distance by at most one. */
  lemma {:induction false} LevOneEdit(e: Edit, s: Text, b: Text)
    requires Applicable(e, s)
    ensures Lev(s, b) <= Lev(Apply(e, s), b) + 1
  {
    var p := s[..e.pos];
    match e
    case Insert(pos, c) =>
      forall b' ensures Lev(p + [], b') <= Lev(p + [c], b') + 1 {
        assert p + [] == p;
        LevDropLast(p, c, b');
      }
      LevUnderSuffix(p, [c], [], s[pos..], b);
      assert p + [] + s[pos..] == s;
    case Delete(pos) =>
      var c := s[pos];
      forall b' ensures Lev(p + [c], b') <= Lev(p + [], b') + 1 {
        assert p + [] == p;
        LevSteps(p, c, b', c);
      }
      LevUnderSuffix(p, [], [c], s[pos + 1..], b);
      assert p + [c] + s[pos + 1..] == s && p + [] + s[pos + 1..] == Apply(e, s);
    case Substitute(pos, c) =>
      var d := s[pos];
      forall b' ensures Lev(p + [d], b') <= Lev(p + [c], b') + 1 {
        LevChangeLast(p, c, d, b');
      }
      LevUnderSuffix(p, [c], [d], s[pos + 1..], b);
      assert p + [d] + s[pos + 1..] == s;
  }

  lemma {:induction false} LevReflexive(a: Text)
    ensures Lev(a, a) == 0
    decreases |a|
  {
    if a != [] {
      LevReflexive(a[..|a| - 1]);
    }
  }

  /** Lower bound: no script of any kind is shorter than `Lev`. */
  lemma {:induction false} LevLowerBound(script: seq<Edit>, a: Text, b: Text)
    requires Transforms(script, a, b)
    ensures Lev(a, b) <= |script|
    decreases |script|
  {
    if script == [] {
      LevReflexive(a);
    } else {
      LevLowerBound(script[1..], Apply(script[0], a), b);
      LevOneEdit(script[0], a, b);
    }
  }

  // ---- A script of length Lev exists -------------------------------------

  lemma {:induction false} TransformsTrans(s: seq<Edit>, t: seq<Edit>, a: Text, b: Text, c: Text)
    requires Transforms(s, a, b) && Transforms(t, b, c)
    ensures Transforms(s + t, a, c)
    decreases |s|
  {
    if s == [] {
      assert s + t == t;
    } else {
      assert (s + t)[1..] == s[1..] + t;
      TransformsTrans(s[1..], t, Apply(s[0], a), b, c);
    }
  }

  lemma {:induction false} ApplyUnderSuffix(e: Edit, a: Text, q: Text)
    requires Applicable(e, a)
    ensures Applicable(e, a + q) && Apply(e, a + q) == Apply(e, a) + q
  {
    match e
    case Insert(pos, _) => assert (a + q)[..pos] == a[..pos] && (a + q)[pos..] == a[pos..] + q;
    case Delete(pos) => assert (a + q)[..pos] == a[..pos] && (a + q)[pos + 1..] == a[pos + 1..] + q;
    case Substitute(pos, _) => assert (a + q)[..pos] == a[..pos] && (a + q)[pos + 1..] == a[pos + 1..] + q;
  }

  /** A script acts on a prefix in the same way whatever follows it. */
  lemma {:induction false} TransformsUnderSuffix(s: seq<Edit>, a: Text, b: Text, q: Text)
    requires Transforms(s, a, b)
    ensures Transforms(s, a + q, b + q)
    decreases |s|
  {
    if s != [] {
      TransformsUnderSuffix(s[1..], Apply(s[0], a), b, q);
      ApplyUnderSuffix(s[0], a, q);
    }
  }

  lemma {:induction false} TransformsOne(e: Edit, a: Text)
    requires Applicable(e, a)
    ensures Transforms([e], a, Apply(e, a))
  {
    assert Transforms([], Apply(e, a), Apply(e, a));
  }

  /** Editing `a` to `b`, then appending `y`. */
  lemma {:induction false} ThenInsert(s: seq<Edit>, a: Text, b: Text, y: char)
    requires Transforms(s, a, b)
    ensures Transforms(s + [Insert(|b|, y)], a, b + [y])
  {
    TransformsOne(Insert(|b|, y), b);
    assert Apply(Insert(|b|, y), b) == b + [y];
    TransformsTrans(s, [Insert(|b|, y)], a, b, b + [y]);
  }

  /** Dropping the last byte `x`, then editing what is left to `b`. */
  lemma {:induction false} AfterDelete(s: seq<Edit>, a: Text, x: char, b: Text)
    requires Transforms(s, a, b)
    ensures Transforms([Delete(|a|)] + s, a + [x], b)
  {
    TransformsOne(Delete(|a|), a + [x]);
    assert Apply(Delete(|a|), a + [x]) == a;
    TransformsTrans([Delete(|a|)], s, a + [x], a, b);
  }

  /** Editing all but the last byte `x`, then changing it to `y`. */
  lemma {:induction false} ThenSubstitute(s: seq<Edit>, a: Text, x: char, b: Text, y: char)
    requires Transforms(s, a, b)
    ensures Transforms(s + [Substitute(|b|, y)], a + [x], b + [y])
  {
    TransformsUnderSuffix(s, a, b, [x]);
    TransformsOne(Substitute(|b|, y), b + [x]);
    assert Apply(Substitute(|b|, y), b + [x]) == b + [y];
    TransformsTrans(s, [Substitute(|b|, y)], a + [x], b + [x], b + [y]);
  }

  lemma {:induction false} LevAchieved(a: Text, b: Text) returns (script: seq<Edit>)
    ensures Transforms(script, a, b) && |script| == Lev(a, b)
    decreases |a| + |b|
  {
    if a == [] && b == [] {
      script := [];
    } else if a == [] || (b != [] && Lev(a, b) == Lev(a, b[..|b| - 1]) + 1) {
      var b', y := b[..|b| - 1], b[|b| - 1];
      assert b == b' + [y];
      var s := LevAchieved(a, b');
      ThenInsert(s, a, b', y);
      script := s + [Insert(|b'|, y)];
    } else {
      var a', x := a[..|a| - 1], a[|a| - 1];
      assert a == a' + [x];
      if b == [] || Lev(a, b) == Lev(a', b) + 1 {
        var s := LevAchieved(a', b);
        AfterDelete(s, a', x, b);
        script := [Delete(|a'|)] + s;
      } else {
        var b', y := b[..|b| - 1], b[|b| - 1];
        assert b == b' + [y];
        script := LevAchieved(a', b');
        TransformsUnderSuffix(script, a', b', [x]);
        if x != y {
          ThenSubstitute(script, a', x, b', y);
          script := script + [Substitute(|b'|, y)];
        }
      }
    }
  }

  /** The recursion is the true minimum over all edit scripts. */
  lemma {:induction false} LevIsLeastEdits(a: Text, b: Text)
    ensures IsLeastEdits(a, b, Lev(a, b))
  {
    var script := LevAchieved(a, b);
    forall s | Transforms(s, a, b) ensures Lev(a, b) <= |s| {
      LevLowerBound(s, a, b);
    }
  }

  // ---- Consequences: the distance is a metric ----------------------------

  lemma {:induction false} LevSymmetric(a: Text, b: Text)
    ensures Lev(a, b) == Lev(b, a)
    decreases |a| + |b|
  {
    if a != [] && b != [] {
      LevSymmetric(a[..|a| - 1], b);
      LevSymmetric(a, b[..|b| - 1]);
      LevSymmetric(a[..|a| - 1], b[..|b| - 1]);
    }
  }

  lemma {:induction false} LevZeroIffEqual(a: Text, b: Text)
    ensures Lev(a, b) == 0 <==> a == b
  {
    var script := LevAchieved(a, b);
    LevReflexive(a);
  }

  lemma {:induction false} LevTriangle(a: Text, b: Text, c: Text)
    ensures Lev(a, c) <= Lev(a, b) + Lev(b, c)
  {
    var s := LevAchieved(a, b);
    var t := LevAchieved(b, c);
    TransformsTrans(s, t, a, b, c);
    LevLowerBound(s + t, a, c);
  }

  // ---- The two-row loop --------------------------------------------------

  /** Row `i` of the table holds the distances from `a[..i]` to every prefix of `b`. */
  ghost predicate Row(row: array<nat>, a: Text, i: nat, b: Text, upTo: nat)
    requires i <= |a| && upTo <= |b| + 1 && upTo <= row.Length
    reads row
  {
    forall j :: 0 <= j < upTo ==> row[j] == Lev(a[..i], b[..j])
  }

  lemma {:induction false} LevCell(a: Text, i: nat, b: Text, j: nat)
    requires 0 < i <= |a| && 0 < j <= |b|
    ensures Lev(a[..i], b[..j])
         == Min(Lev(a[..i - 1], b[..j]) + 1,
                Min(Lev(a[..i], b[..j - 1]) + 1, Lev(a[..i - 1], b[..j - 1]) + Cost(a[i - 1], b[j - 1])))
  {
    assert a[..i] == a[..i - 1] + [a[i - 1]] && b[..j] == b[..j - 1] + [b[j - 1]];
    LevSnoc(a[..i - 1], a[i - 1], b[..j - 1], b[j - 1]);
  }

  method FirstRow(a: Text, b: Text) returns (row: array<nat>)
    ensures fresh(row) && row.Length == |b| + 1 && Row(row, a, 0, b, |b| + 1)
  {
    row := new nat[|b| + 1];
    for j := 0 to |b| + 1
      invariant forall k :: 0 <= k < j ==> row[k] == k
    {
      row[j] := j;
    }
  }

  /** One pass of the outer loop: row `i` from row `i - 1`. */
  method NextRow(a: Text, i: nat, b: Text, prev: array<nat>) returns (cur: array<nat>)
    requires 0 < i <= |a| && prev.Length == |b| + 1 && Row(prev, a, i - 1, b, |b| + 1)
    ensures fresh(cur) && cur.Length == |b| + 1 && Row(cur, a, i, b, |b| + 1)
  {
    cur := new nat[|b| + 1];
    cur[0] := i;
    var j := 1;
    while j <= |b|
      invariant 1 <= j <= |b| + 1
      invariant Row(prev, a, i - 1, b, |b| + 1)
      invariant Row(cur, a, i, b, j)
    {
      var cost := 1;
      if a[i - 1] == b[j - 1] {
        cost := 0;
      }
      LevCell(a, i, b, j);
      cur[j] := Min(prev[j] + 1, Min(cur[j - 1] + 1, prev[j - 1] + cost));
      j := j + 1;
    }
  }

  /** The source's loop: one pass per byte of `a`, keeping only the previous row. */
  method CommandEditDistance(a: Text, b: Text) returns (d: nat)
    ensures d == Lev(a, b)
    ensures IsLeastEdits(a, b, d)
  {
    var prev := FirstRow(a, b);
    var i := 1;
    while i <= |a|
      invariant 1 <= i <= |a| + 1
      invariant prev.Length == |b| + 1
      invariant Row(prev, a, i - 1, b, |b| + 1)
    {
      prev := NextRow(a, i, b, prev);
      i := i + 1;
    }
    assert a[..|a|] == a && b[..|b|] == b;
    d := prev[|b|];
    LevIsLeastEdits(a, b);
  }

  // ---- Suggesting a command ----------------------------------------------

  datatype Command = Command(name: Text, aliases: seq<Text>)

  const SUGGESTION_LIMIT: nat := 3
  const PREFIX_LENGTH: nat := 3

  /** How far a candidate is from the input: its edit distance, except that an
      input of three or more bytes that starts the candidate counts as one edit. */
  function Score(input: Text, name: Text): nat {
    var d := Lev(input, name);
    if PREFIX_LENGTH <= |input| && input <= name && 1 < d then 1 else d
  }

  /** Candidate names in the order the registry is walked. */
  function Candidates(registry: seq<Command>): seq<Text>
  {
    if registry == [] then []
    else
      var last := registry[|registry| - 1];
      Candidates(registry[..|registry| - 1]) + ([last.name] + last.aliases)
  }

  /** `k` is the first position at which the least score occurs. */
  ghost predicate FirstLeast(input: Text, names: seq<Text>, k: nat) {
    && k < |names|
    && (forall j :: 0 <= j < |names| ==> Score(input, names[k]) <= Score(input, names[j]))
    && (forall j :: 0 <= j < k ==> Score(input, names[k]) < Score(input, names[j]))
  }

  /** `best` is the earliest of the candidates whose score is least, provided some
      score is below the limit; otherwise it is the empty text. */
  ghost predicate IsSuggestion(input: Text, names: seq<Text>, best: Text, bestDist: nat) {
    if bestDist < SUGGESTION_LIMIT then
      exists k: nat :: FirstLeast(input, names, k) && best == names[k] && bestDist == Score(input, names[k])
    else
      && bestDist == SUGGESTION_LIMIT && best == []
      && (forall j :: 0 <= j < |names| ==> SUGGESTION_LIMIT <= Score(input, names[j]))
  }

  /** One more candidate replaces the suggestion exactly when it scores strictly less. */
  lemma {:induction false} SuggestionExtends(input: Text, names: seq<Text>, name: Text, best: Text, bestDist: nat)
    requires IsSuggestion(input, names, best, bestDist)
    ensures Score(input, name) < bestDist ==> IsSuggestion(input, names + [name], name, Score(input, name))
    ensures bestDist <= Score(input, name) ==> IsSuggestion(input, names + [name], best, bestDist)
  {
    var all := names + [name];
    if Score(input, name) < bestDist {
      assert FirstLeast(input, all, |names|);
    } else if bestDist < SUGGESTION_LIMIT {
      var k: nat :| FirstLeast(input, names, k) && best == names[k] && bestDist == Score(input, names[k]);
      assert all[k] == names[k];
      assert FirstLeast(input, all, k);
    }
  }

  method Consider(input: Text, name: Text, best: Text, bestDist: nat)
    returns (best': Text, bestDist': nat)
    requires bestDist <= SUGGESTION_LIMIT
    ensures (best', bestDist') == if Score(input, name) < bestDist then (name, Score(input, name)) else (best, bestDist)
  {
    best', bestDist' := best, bestDist;
    var d := CommandEditDistance(input, name);
    if d < bestDist' {
      best', bestDist' := name, d;
    }
    if |input| >= PREFIX_LENGTH && input <= name && bestDist' > 1 {
      best', bestDist' := name, 1;
    }
  }

  /** One pass of the registry loop: a command's name, then its aliases. */
  method ConsiderCommand(input: Text, command: Command, ghost before: seq<Text>, best: Text, bestDist: nat)
    returns (best': Text, bestDist': nat)
    requires IsSuggestion(input, before, best, bestDist)
    ensures IsSuggestion(input, before + ([command.name] + command.aliases), best', bestDist')
  {
    best', bestDist' := best, bestDist;
    var names := [command.name] + command.aliases;
    assert before + names[..0] == before;
    for k := 0 to |names|
      invariant IsSuggestion(input, before + names[..k], best', bestDist')
    {
      SuggestionExtends(input, before + names[..k], names[k], best', bestDist');
      TakeOneMore(before, names, k);
      best', bestDist' := Consider(input, names[k], best', bestDist');
    }
    assert names[..|names|] == names;
  }

  lemma {:induction false} TakeOneMore(before: seq<Text>, names: seq<Text>, k: nat)
    requires k < |names|
    ensures (before + names[..k]) + [names[k]] == before + names[..k + 1]
  {
  }

  method NearestCommandName(registry: seq<Command>, input: Text) returns (best: Text)
    ensures exists bestDist: nat :: IsSuggestion(input, Candidates(registry), best, bestDist)
  {
    best := [];
    var bestDist: nat := 3;
    for i := 0 to |registry|
      invariant IsSuggestion(input, Candidates(registry[..i]), best, bestDist)
    {
      best, bestDist := ConsiderCommand(input, registry[i], Candidates(registry[..i]), best, bestDist);
      CandidatesSnoc(registry, i);
    }
    assert registry[..|registry|] == registry;
  }

  /** The candidates are each command's name followed by its aliases, in registry order. */
  lemma {:induction false} CandidatesAppend(a: seq<Command>, c: Command, b: seq<Command>)
    ensures Candidates(a + [c] + b) == Candidates(a) + ([c.name] + c.aliases) + Candidates(b)
    decreases |b|
  {
    var all := a + [c] + b;
    if b == [] {
      assert all[..|a|] == a && all[|a|] == c;
    } else {
      var init, last := b[..|b| - 1], b[|b| - 1];
      CandidatesAppend(a, c, init);
      assert all[..|all| - 1] == a + [c] + init && all[|all| - 1] == last;
      Assoc(Candidates(a) + ([c.name] + c.aliases), Candidates(init), [last.name] + last.aliases);
    }
  }

  lemma {:induction false} CandidatesSnoc(registry: seq<Command>, i: nat)
    requires i < |registry|
    ensures Candidates(registry[..i + 1]) == Candidates(registry[..i]) + ([registry[i].name] + registry[i].aliases)
  {
    assert registry[..i + 1][..i] == registry[..i];
  }

  /** A suggestion is determined by its definition, so the method has one answer. */
  lemma {:induction false} SuggestionUnique(input: Text, names: seq<Text>, b1: Text, d1: nat, b2: Text, d2: nat)
    requires IsSuggestion(input, names, b1, d1) && IsSuggestion(input, names, b2, d2)
    ensures b1 == b2 && d1 == d2
  {
    if d1 < SUGGESTION_LIMIT && d2 < SUGGESTION_LIMIT {
      var k1: nat :| FirstLeast(input, names, k1) && b1 == names[k1];
      var k2: nat :| FirstLeast(input, names, k2) && b2 == names[k2];
    }
  }

  /** With a registry of non-empty names the empty answer means exactly that no
      candidate scores below the limit. */
  lemma {:induction false} EmptySuggestionIff(input: Text, names: seq<Text>, best: Text, bestDist: nat)
    requires IsSuggestion(input, names, best, bestDist)
    requires [] !in names
    ensures best == [] <==> forall j :: 0 <= j < |names| ==> SUGGESTION_LIMIT <= Score(input, names[j])
  {
    if bestDist < SUGGESTION_LIMIT {
      var k: nat :| FirstLeast(input, names, k) && best == names[k] && bestDist == Score(input, names[k]);
      assert best in names;
    }
  }
}
