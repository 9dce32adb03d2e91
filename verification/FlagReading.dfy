/** What a FlagSet makes of a reordered line. A FlagSet reads flags from the front and stops at
    the first argument that is no flag, or just after `--`; it also takes `-name=value`, which
    reordering leaves among the positionals. */
module FlagReading {
  import opened ArgReorder
  import opened Basics

  // ---- The FlagSet --------------------------------------------------------

  /** One flag as set: its name, its value if it was given one, and whether that was attached
      to it by an equals sign. */
  datatype Given = Given(name: Arg, value: Option<Arg>, attached: bool)

  /** The flags set and the arguments left, or a complaint. */
  datatype Reading = Read(given: seq<Given>, rest: Args) | Bad

  function Prepend(given: seq<Given>, r: Reading): Reading {
    if r.Bad? then Bad else Read(given + r.given, r.rest)
  }

  predicate Known(f: Flags, name: Arg) { f.isValue(name) || f.isBool(name) }

  /** A name may be empty, start with a dash or start with an equals sign only by mistake. */
  predicate WellFormed(n: Arg) { |n| >= 2 && n[1] != '-' && n[1] != '=' }

  /** The text after the first equals sign. */
  function ValueText(n: Arg): Arg {
    if |FlagName(n)| < |n| then n[|FlagName(n)| + 1..] else []
  }

  function Parse(f: Flags, line: Args): Reading
    decreases |line|
  {
    if line == [] || !FlagLike(line[0]) then Read([], line)
    else if line[0] == "--" then Read([], line[1..])
    else
      var n := Norm(line[0]);
      var name := FlagName(n);
      if !WellFormed(n) || !Known(f, name) then Bad
      else if '=' in n then Prepend([Given(name, Some(ValueText(n)), true)], Parse(f, line[1..]))
      else if !f.isValue(name) then Prepend([Given(name, None, false)], Parse(f, line[1..]))
      else if |line| == 1 then Bad
      else Prepend([Given(name, Some(line[1]), false)], Parse(f, line[2..]))
  }

  /** A value flag is never set without a value. */
  lemma {:induction false} ParseGivesValues(f: Flags, line: Args)
    requires Parse(f, line).Read?
    ensures forall i :: 0 <= i < |Parse(f, line).given| && f.isValue(Parse(f, line).given[i].name) ==>
      Parse(f, line).given[i].value.Some?
    decreases |line|
  {
    if line != [] && FlagLike(line[0]) && line[0] != "--" {
      var n := Norm(line[0]);
      if '=' in n || !f.isValue(FlagName(n)) {
        ParseGivesValues(f, line[1..]);
      } else {
        ParseGivesValues(f, line[2..]);
      }
    }
  }

  /** How a flag at the head of a line is read, with one dash or two: a value after an equals
      sign, a value in the next argument, or none. */
  lemma {:induction false} ParseHead(f: Flags, a: Arg, name: Arg, value: Arg, rest: Args)
    requires |name| >= 2 && name[0] == '-' && name[1] != '-' && '=' !in name && (f.isValue(name) || f.isBool(name))
    ensures a == name + "=" + value || a == "-" + (name + "=" + value) ==>
      Parse(f, [a] + rest) == Prepend([Given(name, Some(value), true)], Parse(f, rest))
    ensures (a == name || a == "-" + name) && f.isValue(name) ==>
      Parse(f, [a, value] + rest) == Prepend([Given(name, Some(value), false)], Parse(f, rest))
    ensures (a == name || a == "-" + name) && !f.isValue(name) ==>
      Parse(f, [a] + rest) == Prepend([Given(name, None, false)], Parse(f, rest))
  {
    assert ([a] + rest)[1..] == rest && ([a, value] + rest)[2..] == rest;
    if a == name + "=" + value || a == "-" + (name + "=" + value) {
      AttachedText(name, value);
      Dashes(a, name + "=" + value);
    } else if a == name || a == "-" + name {
      PlainName(name);
      Dashes(a, name);
    }
  }

  lemma {:induction false} AttachedText(name: Arg, value: Arg)
    requires |name| >= 2 && '=' !in name
    ensures var n := name + "=" + value; FlagName(n) == name && ValueText(n) == value && '=' in n
    ensures var n := name + "=" + value; |n| >= 2 && n[0] == name[0] && n[1] == name[1]
  {
    var n := name + "=" + value;
    NameAndValue(name, value);
    assert n[|name|] == '=' && n[|name| + 1..] == value;
    assert name[1] in name;
  }

  // ---- The flags of a line ------------------------------------------------

  /** A recognised flag with its value attached. */
  predicate Attached(f: Flags, a: Arg) {
    FlagLike(a) && a != "--" && '=' in Norm(a) && Known(f, FlagName(Norm(a)))
  }

  /** The flag an item gives. A value flag at the end of a line gives one without a value. */
  function GivenBy(f: Flags, x: Item): seq<Given> {
    match x
    case Word(t) => if Attached(f, t) then [Given(FlagName(Norm(t)), Some(ValueText(Norm(t))), true)] else []
    case Switch(n) => [Given(n, None, false)]
    case Setting(n, v) => [Given(n, Some(v), false)]
    case Dangling(n) => [Given(n, None, false)]
  }

  function AllGiven(f: Flags, items: seq<Item>): seq<Given> {
    if items == [] then [] else GivenBy(f, items[0]) + AllGiven(f, items[1..])
  }

  /** How many items come before a `--`, which ends the flags of a line. */
  function DashAt(items: seq<Item>): (n: nat)
    ensures n <= |items| && (n < |items| ==> items[n] == Word("--"))
  {
    if items == [] || items[0] == Word("--") then 0 else 1 + DashAt(items[1..])
  }

  function Before(items: seq<Item>): seq<Item> { items[..DashAt(items)] }

  function Behind(items: seq<Item>): seq<Item> { items[DashAt(items)..] }

  /** Every recognised flag of the line, wherever it stands before a `--`. */
  function Recognised(f: Flags, args: Args): seq<Given> { AllGiven(f, Before(Items(f, args))) }

  // ---- Hoisted flags are all read -----------------------------------------

  lemma {:induction false} ParseFlag(f: Flags, x: Item, tail: Args)
    requires GoodNames(f) && Settled(f, x) && !x.Word? && !x.Dangling?
    ensures Parse(f, Tokens(x) + tail) == Prepend(GivenBy(f, x), Parse(f, tail))
  {
    var n, line := x.name, Tokens(x) + tail;
    PlainName(n);
    assert n != "--" && WellFormed(n);
    if x.Switch? {
      assert line[1..] == tail;
    } else {
      assert line[2..] == tail;
    }
  }

  lemma {:induction false} ParseFlags(f: Flags, items: seq<Item>, tail: Args)
    requires GoodNames(f) && AllSettled(f, items) && NoneDangling(items) && OnlyFlags(items)
    ensures Parse(f, Flatten(items) + tail) == Prepend(AllGiven(f, items), Parse(f, tail))
    decreases |items|
  {
    if items == [] {
      assert Flatten(items) + tail == tail;
    } else {
      ParseFlags(f, items[1..], tail);
      var more := Flatten(items[1..]) + tail;
      assert Settled(f, items[0]) && !items[0].Word? && !items[0].Dangling?;
      Assoc(Tokens(items[0]), Flatten(items[1..]), tail);
      ParseFlag(f, items[0], more);
      PrependTwice(GivenBy(f, items[0]), AllGiven(f, items[1..]), Parse(f, tail));
    }
  }

  lemma {:induction false} PrependTwice(a: seq<Given>, b: seq<Given>, r: Reading)
    ensures Prepend(a, Prepend(b, r)) == Prepend(a + b, r)
  {
    if r.Read? {
      Assoc(a, b, r.given);
    }
  }

  // ---- Of the positionals only a first stretch is read --------------------

  predicate Stops(a: Arg) { !FlagLike(a) || a == "--" }

  predicate NoneAttached(f: Flags, words: Args) {
    words == [] || (!Attached(f, words[0]) && NoneAttached(f, words[1..]))
  }

  /** Flags with attached values come first among the positionals, and then something that
      ends the flags. */
  predicate Timely(f: Flags, words: Args) {
    || words == []
    || (Attached(f, words[0]) && Timely(f, words[1..]))
    || (Stops(words[0]) && NoneAttached(f, words[1..]))
  }

  /** The flags with attached values among the positionals. */
  function AttachedGiven(f: Flags, words: Args): seq<Given> {
    if words == [] then [] else GivenBy(f, Word(words[0])) + AttachedGiven(f, words[1..])
  }

  lemma {:induction false} NoneAttachedIff(f: Flags, words: Args)
    ensures NoneAttached(f, words) <==> AttachedGiven(f, words) == []
    decreases |words|
  {
    if words != [] {
      NoneAttachedIff(f, words[1..]);
    }
  }

  ghost predicate Positionals(f: Flags, words: Args) {
    forall i :: 0 <= i < |words| ==> Classify(f, words[i]) == Positional
  }

  lemma {:induction false} ParseAttached(f: Flags, word: Arg, tail: Args)
    requires GoodNames(f) && Attached(f, word)
    ensures Parse(f, [word] + tail) == Prepend(GivenBy(f, Word(word)), Parse(f, tail))
  {
    assert ([word] + tail)[1..] == tail;
    var n := Norm(word);
    assert FlagName(n) == [n[0]] + FlagName(n[1..]) && |FlagName(n)| >= 2;
    assert FlagName(n)[1] == n[1] by {
      assert FlagName(n[1..]) != [];
    }
  }

  lemma {:induction false} ParseStop(f: Flags, word: Arg, tail: Args)
    requires Stops(word)
    ensures Parse(f, [word] + tail) == Read([], if word == "--" then tail else [word] + tail)
  {
    assert ([word] + tail)[1..] == tail;
  }

  lemma {:induction false} ParseUnknown(f: Flags, word: Arg, tail: Args)
    requires Classify(f, word) == Positional && !Attached(f, word) && !Stops(word)
    ensures Parse(f, [word] + tail) == Bad
  {
    if '=' !in Norm(word) {
      PlainName(Norm(word));
    }
  }

  /** `r` reads a first part of `all`. */
  predicate PartOf(r: Reading, all: seq<Given>) {
    r.Read? ==> |r.given| <= |all| && r.given == all[..|r.given|]
  }

  predicate AllOf(r: Reading, all: seq<Given>) { r.Read? && |r.given| == |all| }

  lemma {:induction false} PartOfMore(first: seq<Given>, r: Reading, all: seq<Given>)
    requires PartOf(r, all)
    ensures PartOf(Prepend(first, r), first + all) && (AllOf(Prepend(first, r), first + all) <==> AllOf(r, all))
  {
    if r.Read? {
      var n := |r.given|;
      assert (first + all)[..|first| + n] == first + all[..n];
    }
  }

  /** What is read of the positionals is a first part of the flags attached to them, and all
      of it exactly when they are timely. */
  lemma {:induction false} ParseWords(f: Flags, words: Args, tail: Args)
    requires GoodNames(f) && Positionals(f, words) && (tail == [] || Stops(tail[0]))
    ensures PartOf(Parse(f, words + tail), AttachedGiven(f, words))
    ensures AllOf(Parse(f, words + tail), AttachedGiven(f, words)) <==> Timely(f, words)
    decreases |words|
  {
    if words == [] {
      assert words + tail == tail;
      assert AttachedGiven(f, words) == [] && Parse(f, tail).given == [];
    } else {
      var word, more := words[0], words[1..];
      assert words == [word] + more;
      Assoc([word], more, tail);
      if Attached(f, word) {
        ParseAttached(f, word, more + tail);
        ParseWords(f, more, tail);
        PartOfMore(GivenBy(f, Word(word)), Parse(f, more + tail), AttachedGiven(f, more));
      } else if Stops(word) {
        ParseStop(f, word, more + tail);
        NoneAttachedIff(f, more);
      } else {
        ParseUnknown(f, word, more + tail);
      }
    }
  }

  /** What is left is a last part of the positionals, and the tail after it untouched. */
  lemma {:induction false} ParseWordsRest(f: Flags, words: Args, tail: Args) returns (k: nat)
    requires GoodNames(f) && Positionals(f, words) && (tail == [] || !FlagLike(tail[0]))
    requires Parse(f, words + tail).Read?
    ensures k <= |words| && Parse(f, words + tail).rest == words[k..] + tail
    decreases |words|
  {
    k := 0;
    if words == [] {
      assert words + tail == tail;
    } else {
      var word, more := words[0], words[1..];
      assert words == [word] + more;
      Assoc([word], more, tail);
      if Attached(f, word) {
        ParseAttached(f, word, more + tail);
        k := ParseWordsRest(f, more, tail);
        assert words[k + 1..] == more[k..];
        k := k + 1;
      } else if Stops(word) {
        ParseStop(f, word, more + tail);
        k := if word == "--" then 1 else 0;
      } else {
        ParseUnknown(f, word, more + tail);
      }
    }
  }

  // ---- When every recognised flag is read ---------------------------------

  lemma {:induction false} GivenOfWords(f: Flags, words: seq<Item>)
    requires OnlyWords(words)
    ensures AllGiven(f, words) == AttachedGiven(f, Flatten(words))
    decreases |words|
  {
    if words != [] {
      assert words[0].Word? && Flatten(words) == [words[0].text] + Flatten(words[1..]);
      assert Flatten(words)[1..] == Flatten(words[1..]);
      GivenOfWords(f, words[1..]);
    }
  }

  lemma {:induction false} WordsArePositional(f: Flags, words: seq<Item>)
    requires OnlyWords(words) && AllSettled(f, words)
    ensures Positionals(f, Flatten(words))
    decreases |words|
  {
    if words != [] {
      assert words[0].Word? && Settled(f, words[0]) && Flatten(words) == [words[0].text] + Flatten(words[1..]);
      WordsArePositional(f, words[1..]);
    }
  }

  /** What the items give, in any order. */
  ghost function Bag(f: Flags, items: seq<Item>): multiset<Given> { multiset(AllGiven(f, items)) }

  lemma {:induction false} BagCons(f: Flags, x: Item, rest: seq<Item>)
    ensures Bag(f, [x] + rest) == multiset(GivenBy(f, x)) + Bag(f, rest)
  {
    assert ([x] + rest)[1..] == rest;
  }

  /** Sorting the items into flags and positionals loses no flag. */
  lemma {:induction false} SortingKeepsGiven(f: Flags, items: seq<Item>)
    ensures Bag(f, items) == Bag(f, FlagItems(items)) + Bag(f, WordItems(items))
    decreases |items|
  {
    if items != [] {
      var x, rest := items[0], items[1..];
      assert items == [x] + rest;
      SortingKeepsGiven(f, rest);
      ItemsCons(x, rest);
      BagCons(f, x, rest);
      if x.Word? {
        BagCons(f, x, WordItems(rest));
        assert FlagItems(items) == FlagItems(rest);
      } else {
        BagCons(f, x, FlagItems(rest));
        assert WordItems(items) == WordItems(rest);
      }
    }
  }

  /** The FlagSet reads the line without complaint and sets exactly the given flags. */
  ghost predicate ReadsExactly(f: Flags, line: Args, flags: multiset<Given>) {
    Parse(f, line).Read? && multiset(Parse(f, line).given) == flags
  }

  ghost predicate AllAttached(given: seq<Given>) { forall i :: 0 <= i < |given| ==> given[i].attached }

  ghost predicate NotAttached(given: seq<Given>) { forall i :: 0 <= i < |given| ==> !given[i].attached }

  lemma {:induction false} FlagsNotAttached(f: Flags, items: seq<Item>)
    requires OnlyFlags(items)
    ensures NotAttached(AllGiven(f, items)) && |AllGiven(f, items)| == |items|
    decreases |items|
  {
    if items != [] {
      assert !items[0].Word?;
      FlagsNotAttached(f, items[1..]);
    }
  }

  lemma {:induction false} WordsAttached(f: Flags, words: Args)
    ensures AllAttached(AttachedGiven(f, words))
    decreases |words|
  {
    if words != [] {
      WordsAttached(f, words[1..]);
    }
  }

  /** `extra` is set besides `first` and a part of `all`: that comes to exactly `first` and
      `all` only if there is no extra and the part is the whole. */
  lemma {:induction false} BagsAgreeIff(first: seq<Given>, extra: seq<Given>, r: Reading, all: seq<Given>)
    requires PartOf(r, all) && NotAttached(extra) && AllAttached(all)
    ensures var got := Prepend(first + extra, r);
      got.Read? && multiset(got.given) == multiset(first) + multiset(all) <==> extra == [] && AllOf(r, all)
  {
    if r.Read? {
      assert multiset(first + extra + r.given) == multiset(first) + (multiset(extra) + multiset(r.given));
      if extra != [] {
        ExtraShows(multiset(first), extra, multiset(r.given), all);
      } else {
        assert |multiset(extra) + multiset(r.given)| == |r.given| && |multiset(all)| == |all|;
        assert all[..|all|] == all;
      }
    }
  }

  lemma {:induction false} ExtraShows(first: multiset<Given>, extra: seq<Given>, more: multiset<Given>, all: seq<Given>)
    requires extra != [] && NotAttached(extra) && AllAttached(all)
    ensures first + (multiset(extra) + more) != first + multiset(all)
  {
    var x := extra[0];
    assert x in multiset(extra);
    assert x !in all;
    assert (first + (multiset(extra) + more))[x] > first[x] == (first + multiset(all))[x];
  }

  /** The positionals before a `--`, in order. */
  function WordsBefore(f: Flags, args: Args): Args { Flatten(WordItems(Before(Items(f, args)))) }

  lemma {:induction false} SplitAtDash(items: seq<Item>)
    ensures items == Before(items) + Behind(items)
    ensures FlagItems(items) == FlagItems(Before(items)) + FlagItems(Behind(items))
    ensures Flatten(WordItems(items)) == Flatten(WordItems(Before(items))) + Flatten(WordItems(Behind(items)))
    ensures Behind(items) != [] ==>
      Flatten(WordItems(Behind(items))) != [] && Flatten(WordItems(Behind(items)))[0] == "--"
    ensures Behind(items) == [] ==> Flatten(WordItems(Behind(items))) == []
  {
    var b, h := Before(items), Behind(items);
    assert items == b + h;
    PartsAppend(b, h);
    FlattenAppend(WordItems(b), WordItems(h));
    if h != [] {
      assert h[0] == Word("--") && h == [h[0]] + h[1..];
      ItemsCons(h[0], h[1..]);
    }
  }

  lemma {:induction false} AllGivenAppend(f: Flags, a: seq<Item>, b: seq<Item>)
    ensures AllGiven(f, a + b) == AllGiven(f, a) + AllGiven(f, b)
    decreases |a|
  {
    if a == [] {
      assert a + b == b;
    } else {
      assert (a + b)[1..] == a[1..] + b;
      AllGivenAppend(f, a[1..], b);
      Assoc(GivenBy(f, a[0]), AllGiven(f, a[1..]), AllGiven(f, b));
    }
  }

  lemma {:induction false} PartSettled(f: Flags, items: seq<Item>, d: nat)
    requires AllSettled(f, items) && d <= |items|
    ensures AllSettled(f, items[..d])
  {
  }

  /** What a complete line is read as: all hoisted flags, then what the FlagSet makes of the
      positionals. */
  lemma {:induction false} HoistedThenWords(f: Flags, args: Args, tail: Args)
    requires GoodNames(f) && !EndsDangling(Items(f, args))
    ensures var items := Items(f, args); var behind := Flatten(WordItems(Behind(items)));
      && Parse(f, Reorder(f, args) + tail)
        == Prepend(AllGiven(f, FlagItems(Before(items))) + AllGiven(f, FlagItems(Behind(items))),
                   Parse(f, WordsBefore(f, args) + (behind + tail)))
      && Positionals(f, WordsBefore(f, args))
      && AllGiven(f, WordItems(Before(items))) == AttachedGiven(f, WordsBefore(f, args))
  {
    var items := Items(f, args);
    var b, h := Before(items), Behind(items);
    ItemsSettled(f, args);
    assert NoneDangling(items);
    PartsSettled(f, items);
    PartsArePure(items);
    SplitAtDash(items);
    Assoc(FlagTokens(f, args), WordTokens(f, args), tail);
    Assoc(WordsBefore(f, args), Flatten(WordItems(h)), tail);
    ParseFlags(f, FlagItems(items), WordTokens(f, args) + tail);
    AllGivenAppend(f, FlagItems(b), FlagItems(h));
    PartSettled(f, items, DashAt(items));
    WordsBeforeFacts(f, b);
  }

  lemma {:induction false} WordsBeforeFacts(f: Flags, items: seq<Item>)
    requires AllSettled(f, items)
    ensures Positionals(f, Flatten(WordItems(items)))
    ensures AllGiven(f, WordItems(items)) == AttachedGiven(f, Flatten(WordItems(items)))
  {
    WordItemsSettled(f, items);
    PartsArePure(items);
    WordsArePositional(f, WordItems(items));
    GivenOfWords(f, WordItems(items));
  }

  /** No flag is typed after a `--`, and the positionals before it are timely. */
  ghost predicate InTime(f: Flags, args: Args) {
    FlagItems(Behind(Items(f, args))) == [] && Timely(f, WordsBefore(f, args))
  }

  lemma {:induction false} CompleteLineReadsIff(f: Flags, args: Args, tail: Args)
    requires GoodNames(f) && !EndsDangling(Items(f, args)) && (tail == [] || !FlagLike(tail[0]))
    ensures ReadsExactly(f, Reorder(f, args) + tail, multiset(Recognised(f, args))) <==> InTime(f, args)
  {
    var items, words := Items(f, args), WordsBefore(f, args);
    var b, h := Before(items), Behind(items);
    var rest := Flatten(WordItems(h)) + tail;
    HoistedThenWords(f, args, tail);
    SplitAtDash(items);
    ParseWords(f, words, rest);
    SortingKeepsGiven(f, b);
    PartsArePure(h);
    FlagsNotAttached(f, FlagItems(h));
    WordsAttached(f, words);
    BagsAgreeIff(AllGiven(f, FlagItems(b)), AllGiven(f, FlagItems(h)), Parse(f, words + rest), AttachedGiven(f, words));
  }

  /** The FlagSet reads exactly the recognised flags of a line from the reordered one if and
      only if the line does not end in a value flag without a value, no flag is typed after a
      `--`, and every recognised `-name=value` before it comes before the first other
      positional, which is no flag. */
  lemma {:induction false} AllFlagsReadIff(f: Flags, args: Args)
    requires GoodNames(f)
    ensures ReadsExactly(f, Reorder(f, args), multiset(Recognised(f, args))) <==>
      !EndsDangling(Items(f, args)) && InTime(f, args)
  {
    assert Reorder(f, args) + [] == Reorder(f, args);
    if !EndsDangling(Items(f, args)) {
      CompleteLineReadsIff(f, args, []);
    } else if Behind(Items(f, args)) == [] {
      DanglingNotRead(f, args);
    } else {
      DanglingBehindReads(f, args);
    }
  }

  lemma {:induction false} DanglingIsGiven(f: Flags, items: seq<Item>)
    requires EndsDangling(items)
    ensures Given(items[|items| - 1].name, None, false) in AllGiven(f, items)
    decreases |items|
  {
    if |items| > 1 {
      DanglingIsGiven(f, items[1..]);
    }
  }

  lemma {:induction false} DanglingNotRead(f: Flags, args: Args)
    requires GoodNames(f) && EndsDangling(Items(f, args)) && Behind(Items(f, args)) == []
    ensures !ReadsExactly(f, Reorder(f, args), multiset(Recognised(f, args)))
  {
    var items, line := Items(f, args), Reorder(f, args);
    var n := items[|items| - 1].name;
    ItemsSettled(f, args);
    assert Settled(f, items[|items| - 1]);
    PlainName(n);
    DanglingIsGiven(f, items);
    assert Before(items) == items;
    assert Given(n, None, false) in multiset(Recognised(f, args));
    if Parse(f, line).Read? {
      ParseGivesValues(f, line);
      assert Given(n, None, false) !in Parse(f, line).given;
    }
  }

  lemma {:induction false} DashStays(items: seq<Item>, n: nat)
    requires DashAt(items) < n <= |items|
    ensures DashAt(items[..n]) == DashAt(items)
    decreases |items|
  {
    if DashAt(items) > 0 {
      assert items[1..][..n - 1] == items[..n][1..];
      DashStays(items[1..], n - 1);
    }
  }

  lemma {:induction false} TakesFirst(f: Flags, name: Arg, words: Args)
    requires GoodNames(f) && Classify(f, name) == Value && Norm(name) == name && words != []
    ensures Parse(f, [name] + words) == Prepend([Given(name, Some(words[0]), false)], Parse(f, words[1..]))
  {
    var line := [name] + words;
    PlainName(name);
    assert name != "--" && WellFormed(name);
    assert line[2..] == words[1..];
  }

  /** Flags hoisted from behind a `--`, and one more, make the reading differ from what stands
      before it. */
  lemma {:induction false} MoreThanMeant(f: Flags, before: seq<Item>, hoisted: seq<Item>, last: Given, r: Reading)
    requires AllSettled(f, before) && OnlyFlags(hoisted) && !last.attached
    ensures var got := Prepend(AllGiven(f, FlagItems(before)) + AllGiven(f, hoisted), Prepend([last], r));
      !(got.Read? && multiset(got.given) == Bag(f, before))
  {
    var first, more := AllGiven(f, FlagItems(before)), AllGiven(f, hoisted);
    FlagsNotAttached(f, hoisted);
    WordsBeforeFacts(f, before);
    SortingKeepsGiven(f, before);
    WordsAttached(f, Flatten(WordItems(before)));
    if r.Read? {
      var got := (first + more) + ([last] + r.given);
      assert multiset(got) == multiset(first) + (multiset(more + [last]) + multiset(r.given));
      ExtraShows(multiset(first), more + [last], multiset(r.given), AllGiven(f, WordItems(before)));
    }
  }

  /** A value flag typed last, after a `--`: once hoisted it is set from the first positional,
      though no flag was meant. */
  lemma {:induction false} DanglingBehindReads(f: Flags, args: Args)
    requires GoodNames(f) && EndsDangling(Items(f, args)) && Behind(Items(f, args)) != []
    ensures !ReadsExactly(f, Reorder(f, args), multiset(Recognised(f, args)))
  {
    var items := Items(f, args);
    var n := |items| - 1;
    var init, name := items[..n], items[n].name;
    ItemsSettled(f, args);
    assert items[DashAt(items)].Word?;
    DashStays(items, n);
    assert Before(init) == Before(items);
    PartSettled(f, items, n);
    PartSettled(f, items, DashAt(items));
    assert Settled(f, items[n]);
    DanglingLineReads(f, args);
    DanglingBehind(f, init, name);
  }

  lemma {:induction false} DanglingBehind(f: Flags, init: seq<Item>, name: Arg)
    requires GoodNames(f) && AllSettled(f, init) && NoneDangling(init)
    requires Behind(init) != [] && AllSettled(f, Before(init))
    requires Classify(f, name) == Value && Norm(name) == name
    ensures !ReadsExactly(f, Flatten(FlagItems(init)) + ([name] + Flatten(WordItems(init))), Bag(f, Before(init)))
  {
    var b, h, words := Before(init), Behind(init), Flatten(WordItems(init));
    SplitAtDash(init);
    PartsSettled(f, init);
    PartsArePure(init);
    PartsArePure(h);
    ParseFlags(f, FlagItems(init), [name] + words);
    TakesFirst(f, name, words);
    AllGivenAppend(f, FlagItems(b), FlagItems(h));
    MoreThanMeant(f, b, FlagItems(h), Given(name, Some(words[0]), false), Parse(f, words[1..]));
  }

  // ---- Which of several settings wins -------------------------------------

  /** The last setting of a flag, which is the one that counts. */
  function Final(given: seq<Given>, name: Arg): (r: Option<Given>)
    ensures r.Some? ==> r.value.name == name
  {
    if given == [] then None
    else if given[|given| - 1].name == name then Some(given[|given| - 1])
    else Final(given[..|given| - 1], name)
  }

  function FinalValue(given: seq<Given>, name: Arg): Option<Option<Arg>> {
    if Final(given, name).None? then None else Some(Final(given, name).value.value)
  }

  lemma {:induction false} FinalAppend(a: seq<Given>, b: seq<Given>, name: Arg)
    ensures Final(a + b, name) == if Final(b, name).Some? then Final(b, name) else Final(a, name)
    decreases |b|
  {
    if b == [] {
      assert a + b == a;
    } else {
      var n := |b| - 1;
      assert (a + b)[|a| + n] == b[n] && (a + b)[..|a| + n] == a + b[..n];
      FinalAppend(a, b[..n], name);
    }
  }

  lemma {:induction false} FinalOne(f: Flags, x: Item, name: Arg)
    ensures var r := Final(GivenBy(f, x), name); r.Some? ==> (r.value.attached <==> x.Word?)
  {
    if GivenBy(f, x) != [] {
      assert GivenBy(f, x)[..0] == [];
    }
  }

  /** The last setting of a flag in a line is the last hoisted one or the last attached one,
      whichever it is written as. */
  lemma {:induction false} FinalIsEither(f: Flags, items: seq<Item>, name: Arg)
    ensures var last := Final(AllGiven(f, items), name);
      var hoisted, attached := Final(AllGiven(f, FlagItems(items)), name), Final(AllGiven(f, WordItems(items)), name);
      && (last.None? <==> hoisted.None? && attached.None?)
      && (last.Some? ==> last == if last.value.attached then attached else hoisted)
    decreases |items|
  {
    if items != [] {
      var n := |items| - 1;
      var init, x := items[..n], items[n];
      assert items == init + [x];
      FinalIsEither(f, init, name);
      FinalSnoc(f, init, x, name);
      FinalOne(f, x, name);
    }
  }

  lemma {:induction false} FinalSnoc(f: Flags, init: seq<Item>, x: Item, name: Arg)
    ensures var one := Final(GivenBy(f, x), name);
      && Final(AllGiven(f, init + [x]), name) == (if one.Some? then one else Final(AllGiven(f, init), name))
      && Final(AllGiven(f, FlagItems(init + [x])), name)
        == (if one.Some? && !x.Word? then one else Final(AllGiven(f, FlagItems(init)), name))
      && Final(AllGiven(f, WordItems(init + [x])), name)
        == (if one.Some? && x.Word? then one else Final(AllGiven(f, WordItems(init)), name))
  {
    PartsAppend(init, [x]);
    ItemsCons(x, []);
    assert [x] + [] == [x];
    GivenOne(f, x);
    GivenSnoc(f, init, x, name);
    if x.Word? {
      GivenSnoc(f, WordItems(init), x, name);
      assert FlagItems(init) + [] == FlagItems(init);
    } else {
      GivenSnoc(f, FlagItems(init), x, name);
      assert WordItems(init) + [] == WordItems(init);
    }
  }

  lemma {:induction false} GivenOne(f: Flags, x: Item)
    ensures AllGiven(f, [x]) == GivenBy(f, x)
  {
    assert [x][1..] == [];
    assert GivenBy(f, x) + [] == GivenBy(f, x);
  }

  lemma {:induction false} GivenSnoc(f: Flags, init: seq<Item>, x: Item, name: Arg)
    ensures var one := Final(GivenBy(f, x), name);
      Final(AllGiven(f, init + [x]), name) == if one.Some? then one else Final(AllGiven(f, init), name)
  {
    AllGivenAppend(f, init, [x]);
    GivenOne(f, x);
    FinalAppend(AllGiven(f, init), GivenBy(f, x), name);
  }

  /** The flag is set, and last by an attached value. */
  predicate AttachedLast(given: seq<Given>, name: Arg) {
    Final(given, name).Some? && Final(given, name).value.attached
  }

  lemma {:induction false} LastWinsIff(f: Flags, items: seq<Item>, name: Arg)
    ensures var hoisted, attached := AllGiven(f, FlagItems(items)), AllGiven(f, WordItems(items));
      FinalValue(hoisted + attached, name) == FinalValue(AllGiven(f, items), name) <==>
        || Final(attached, name).None? || AttachedLast(AllGiven(f, items), name)
        || FinalValue(hoisted, name) == FinalValue(attached, name)
  {
    FinalAppend(AllGiven(f, FlagItems(items)), AllGiven(f, WordItems(items)), name);
    FinalIsEither(f, items, name);
  }

  /** The hoisted flags that count, and the attached ones. */
  function Hoisted(f: Flags, args: Args): seq<Given> { AllGiven(f, FlagItems(Before(Items(f, args)))) }

  function AttachedFlags(f: Flags, args: Args): seq<Given> { AllGiven(f, WordItems(Before(Items(f, args)))) }

  lemma {:induction false} ReadInOrder(f: Flags, args: Args)
    requires GoodNames(f) && !EndsDangling(Items(f, args)) && InTime(f, args)
    ensures Parse(f, Reorder(f, args)).Read?
    ensures Parse(f, Reorder(f, args)).given == Hoisted(f, args) + AttachedFlags(f, args)
  {
    var items, words := Items(f, args), WordsBefore(f, args);
    assert Reorder(f, args) + [] == Reorder(f, args);
    HoistedThenWords(f, args, []);
    SplitAtDash(items);
    ParseWords(f, words, Flatten(WordItems(Behind(items))) + []);
    var all := AttachedGiven(f, words);
    assert all[..|all|] == all;
    assert Hoisted(f, args) + [] == Hoisted(f, args);
  }

  /** When all flags are read, reordering keeps the value that a flag ends up with, unless it is
      set last by a hoisted flag and before that by an attached value that differs: an attached
      value is read after every hoisted flag. */
  lemma {:induction false} FinalValueKeptIff(f: Flags, args: Args, name: Arg)
    requires GoodNames(f) && !EndsDangling(Items(f, args)) && InTime(f, args)
    ensures Parse(f, Reorder(f, args)).Read?
    ensures FinalValue(Parse(f, Reorder(f, args)).given, name) == FinalValue(Recognised(f, args), name) <==>
      || Final(AttachedFlags(f, args), name).None? || AttachedLast(Recognised(f, args), name)
      || FinalValue(Hoisted(f, args), name) == FinalValue(AttachedFlags(f, args), name)
  {
    ReadInOrder(f, args);
    LastWinsIff(f, Before(Items(f, args)), name);
  }

  /** The failing family: an attached value, and then the same flag with its value apart. The
      later one is meant to win, and the earlier one does. */
  lemma {:induction false} EarlierValueWins(f: Flags, attached: Arg, flag: Arg, value: Arg)
    requires GoodNames(f) && Attached(f, attached) && Classify(f, flag) == Value && Norm(flag) == flag
    ensures Reorder(f, [attached, flag, value]) == [flag, value, attached]
    ensures Recognised(f, [attached, flag, value]) == GivenBy(f, Word(attached)) + [Given(flag, Some(value), false)]
    ensures Parse(f, [flag, value, attached])
      == Read([Given(flag, Some(value), false)] + GivenBy(f, Word(attached)), [])
  {
    var later := Setting(flag, value);
    TwoItems(f, attached, flag, value);
    ItemsCons(Word(attached), [later]);
    SingleItem(later);
    assert [flag, value] + [attached] == [flag, value, attached];
    GivenOne(f, later);
    AllGivenAppend(f, [Word(attached)], [later]);
    GivenOne(f, Word(attached));
    ParseFlag(f, later, [attached]);
    ParseAttached(f, attached, []);
    assert [attached] + [] == [attached] && Parse(f, []) == Read([], []);
  }

  lemma {:induction false} TwoItems(f: Flags, attached: Arg, flag: Arg, value: Arg)
    requires Attached(f, attached) && Classify(f, flag) == Value && Norm(flag) == flag
    ensures var items := [Word(attached)] + [Setting(flag, value)];
      Items(f, [attached, flag, value]) == items && Before(items) == items
  {
    var line, items := [attached, flag, value], [Word(attached)] + [Setting(flag, value)];
    assert line[1..] == [flag, value] && [flag, value][2..] == [];
    assert Items(f, [flag, value]) == [Setting(flag, value)] + [];
    assert items[1..] == [Setting(flag, value)];
    assert DashAt([Setting(flag, value)]) == 1 by {
      assert [Setting(flag, value)][1..] == [];
    }
  }
}
