/** The documented rule for command suggestions, and where the code leaves it.

    The documentation lets a candidate qualify by an edit distance of at most 2, or by being
    the only candidate that starts with an input of 3 or more bytes. The code does not ask
    that it be the only one. */
module SuggestionRule {
  import opened EditDistance

  /** The input is long enough and starts the candidate. */
  predicate StartedBy(input: Text, name: Text) {
    3 <= |input| && input <= name
  }

  /** The documented rule. */
  ghost predicate Qualifies(input: Text, names: seq<Text>, name: Text) {
    || Lev(input, name) <= 2
    || (StartedBy(input, name) && forall j :: 0 <= j < |names| && StartedBy(input, names[j]) ==> names[j] == name)
  }

  // ---- How far a longer text is -------------------------------------------

  lemma {:induction false} LevAtLeastLength(a: Text, b: Text)
    ensures |b| - |a| <= Lev(a, b)
    decreases |a| + |b|
  {
    if a != [] && b != [] {
      LevAtLeastLength(a[..|a| - 1], b);
      LevAtLeastLength(a, b[..|b| - 1]);
      LevAtLeastLength(a[..|a| - 1], b[..|b| - 1]);
    }
  }

  /** A text is as far from what it starts as that is longer. */
  lemma {:induction false} LevExtension(a: Text, x: Text)
    ensures Lev(a, a + x) == |x|
    decreases |x|
  {
    LevAtLeastLength(a, a + x);
    if x == [] {
      assert a + x == a;
      LevReflexive(a);
    } else {
      var x', y := x[..|x| - 1], x[|x| - 1];
      LevExtension(a, x');
      LevAppendRight(a, a + x', y);
      assert (a + x') + [y] == a + x;
    }
  }

  lemma {:induction false} StartedByDistance(input: Text, name: Text)
    requires StartedBy(input, name)
    ensures Lev(input, name) == |name| - |input|
  {
    assert name == input + name[|input|..];
    LevExtension(input, name[|input|..]);
  }

  // ---- Scores -------------------------------------------------------------

  lemma {:induction false} ScoreCases(input: Text, name: Text)
    ensures Score(input, name) == 0 <==> name == input
    ensures Score(input, name) <= 1 <==> Lev(input, name) <= 1 || StartedBy(input, name)
    ensures Score(input, name) <= 2 <==> Lev(input, name) <= 2 || StartedBy(input, name)
  {
    LevZeroIffEqual(input, name);
  }

  /** The code answers exactly when some candidate is within two edits or is started by the
      input; so whenever some candidate qualifies, the code answers. */
  lemma {:induction false} AnswersIff(input: Text, names: seq<Text>, best: Text, dist: nat)
    requires IsSuggestion(input, names, best, dist)
    ensures dist <= 2 <==>
      exists j :: 0 <= j < |names| && (Lev(input, names[j]) <= 2 || StartedBy(input, names[j]))
    ensures (exists j :: 0 <= j < |names| && Qualifies(input, names, names[j])) ==> dist <= 2
  {
    forall j | 0 <= j < |names|
      ensures Score(input, names[j]) <= 2 <==>
        Lev(input, names[j]) <= 2 || StartedBy(input, names[j])
    {
      ScoreCases(input, names[j]);
    }
  }

  // ---- Answers outside the rule -------------------------------------------

  /** Candidate `k` is the first that the input starts, and is at least three bytes longer;
      nothing before it is within one edit; the input is no candidate itself; and some other
      candidate is started by the input too. */
  ghost predicate Ambiguous(input: Text, names: seq<Text>, k: nat) {
    && k < |names| && StartedBy(input, names[k]) && |input| + 3 <= |names[k]|
    && (forall j :: 0 <= j < k ==> 1 < Lev(input, names[j]) && !StartedBy(input, names[j]))
    && input !in names
    && exists j :: 0 <= j < |names| && StartedBy(input, names[j]) && names[j] != names[k]
  }

  lemma {:induction false} AmbiguousIsAnswered(input: Text, names: seq<Text>, k: nat)
    requires Ambiguous(input, names, k)
    ensures FirstLeast(input, names, k) && Score(input, names[k]) == 1 && !Qualifies(input, names, names[k])
  {
    forall j | 0 <= j < |names| ensures 1 <= Score(input, names[j]) && (j < k ==> 1 < Score(input, names[j])) {
      ScoreCases(input, names[j]);
      assert names[j] in names;
    }
    ScoreCases(input, names[k]);
    StartedByDistance(input, names[k]);
  }

  lemma {:induction false} OutsideIsAmbiguous(input: Text, names: seq<Text>, k: nat)
    requires FirstLeast(input, names, k) && Score(input, names[k]) <= 2
    requires !Qualifies(input, names, names[k])
    ensures Ambiguous(input, names, k)
  {
    ScoreCases(input, names[k]);
    StartedByDistance(input, names[k]);
    forall j | 0 <= j < |names|
      ensures names[j] != input && (j < k ==> 1 < Lev(input, names[j]) && !StartedBy(input, names[j]))
    {
      ScoreCases(input, names[j]);
    }
  }

  /** For every registry: the answer does not qualify exactly when the first candidate that
      the input starts is ambiguous, three or more bytes longer, and not beaten by a nearer
      candidate. */
  lemma {:induction false} OutsideRuleIff(input: Text, names: seq<Text>, best: Text, dist: nat)
    requires IsSuggestion(input, names, best, dist)
    ensures dist <= 2 && !Qualifies(input, names, best) <==> exists k: nat :: Ambiguous(input, names, k)
  {
    if dist <= 2 {
      var i: nat :| FirstLeast(input, names, i) && best == names[i] && dist == Score(input, names[i]);
      if !Qualifies(input, names, best) {
        OutsideIsAmbiguous(input, names, i);
      }
      if k: nat :| Ambiguous(input, names, k) {
        AmbiguousIsAnswered(input, names, k);
        SuggestionUnique(input, names, best, dist, names[k], 1);
      }
    } else if k: nat :| Ambiguous(input, names, k) {
      AmbiguousIsAnswered(input, names, k);
    }
  }

  /** For every registry: the code answers although nothing qualifies exactly when nothing is
      within two edits and two different candidates are started by the input. */
  lemma {:induction false} AnswersUnqualifiedIff(input: Text, names: seq<Text>, best: Text, dist: nat)
    requires IsSuggestion(input, names, best, dist)
    ensures dist <= 2 && (forall j :: 0 <= j < |names| ==> !Qualifies(input, names, names[j])) <==>
      && (forall j :: 0 <= j < |names| ==> 3 <= Lev(input, names[j]))
      && exists i, j :: 0 <= i < |names| && 0 <= j < |names|
           && StartedBy(input, names[i]) && StartedBy(input, names[j]) && names[i] != names[j]
  {
    AnswersIff(input, names, best, dist);
  }

  /** Two commands that extend the input by three or more bytes each: the first is the answer,
      and neither qualifies. */
  lemma {:induction false} AmbiguousPrefixTakesFirst(input: Text, x: Text, y: Text)
    requires 3 <= |input| && 3 <= |x| && 3 <= |y| && x != y
    ensures var names := [input + x, input + y];
      && IsSuggestion(input, names, input + x, 1)
      && !Qualifies(input, names, input + x) && !Qualifies(input, names, input + y)
  {
    var names := [input + x, input + y];
    assert (input + x)[|input|..] == x && (input + y)[|input|..] == y;
    LevExtension(input, x);
    LevExtension(input, y);
    assert names[0] != names[1];
    assert Ambiguous(input, names, 0);
    AmbiguousIsAnswered(input, names, 0);
  }
}
