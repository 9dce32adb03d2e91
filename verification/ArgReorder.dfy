/** Command-line argument reordering: hoisting recognised flags ahead of positionals. */
module ArgReorder {
  import opened Basics

  type Arg = string
  type Args = seq<Arg>

  /** Which flag names the caller's flag set knows. */
  datatype Flags = Flags(isValue: Arg -> bool, isBool: Arg -> bool)

  /** Flag names as the callers' tables have them: one dash and then something else. */
  ghost predicate GoodNames(f: Flags) {
    forall n {:trigger f.isValue(n)} {:trigger f.isBool(n)} ::
      f.isValue(n) || f.isBool(n) ==> |n| >= 2 && n[0] == '-' && n[1] != '-'
  }

  // ---- Reading one argument -----------------------------------------------

  predicate FlagLike(a: Arg) { |a| >= 2 && a[0] == '-' }

  /** A double dash counts as a single one. */
  function Norm(a: Arg): Arg {
    if |a| >= 2 && a[0] == '-' && a[1] == '-' then "-" + a[2..] else a
  }

  /** The part of a flag before any equals sign. */
  function FlagName(a: Arg): Arg {
    if a == [] || a[0] == '=' then [] else [a[0]] + FlagName(a[1..])
  }

  datatype Kind = Positional | Bool | Value

  function Classify(f: Flags, a: Arg): Kind {
    if !FlagLike(a) || '=' in Norm(a) then Positional
    else if f.isValue(Norm(a)) then Value
    else if f.isBool(Norm(a)) then Bool
    else Positional
  }

  lemma {:induction false} ClassifyNorm(f: Flags, a: Arg)
    requires GoodNames(f) && Classify(f, a) != Positional
    ensures Classify(f, Norm(a)) == Classify(f, a) && Norm(Norm(a)) == Norm(a)
  {
  }

  // ---- What a command line says -------------------------------------------

  datatype Item = Word(text: Arg) | Switch(name: Arg) | Setting(name: Arg, value: Arg) | Dangling(name: Arg)

  /** The line as a list of items: a value flag takes the next argument, whatever it is. */
  function Items(f: Flags, args: Args): seq<Item>
    decreases |args|
  {
    if args == [] then []
    else
      match Classify(f, args[0])
      case Positional => [Word(args[0])] + Items(f, args[1..])
      case Bool => [Switch(Norm(args[0]))] + Items(f, args[1..])
      case Value =>
        if |args| == 1 then [Dangling(Norm(args[0]))]
        else [Setting(Norm(args[0]), args[1])] + Items(f, args[2..])
  }

  function Tokens(item: Item): Args {
    match item
    case Word(t) => [t]
    case Switch(n) => [n]
    case Setting(n, v) => [n, v]
    case Dangling(n) => [n]
  }

  function Flatten(items: seq<Item>): Args {
    if items == [] then [] else Tokens(items[0]) + Flatten(items[1..])
  }

  function FlagItems(items: seq<Item>): seq<Item> {
    if items == [] then []
    else (if items[0].Word? then [] else [items[0]]) + FlagItems(items[1..])
  }

  function WordItems(items: seq<Item>): seq<Item> {
    if items == [] then []
    else (if items[0].Word? then [items[0]] else []) + WordItems(items[1..])
  }

  /** All flags with their values first, then all positionals, each in order. */
  function Reorder(f: Flags, args: Args): Args {
    FlagTokens(f, args) + WordTokens(f, args)
  }

  // ---- The loop -----------------------------------------------------------

  function FlagTokens(f: Flags, args: Args): Args { Flatten(FlagItems(Items(f, args))) }

  function WordTokens(f: Flags, args: Args): Args { Flatten(WordItems(Items(f, args))) }

  /** The loop body's tests on one argument. */
  method ReadArg(f: Flags, arg: Arg) returns (kind: Kind)
    ensures kind == Classify(f, arg)
  {
    if !(|arg| > 0 && arg[0] == '-') || arg == "-" {
      return Positional;
    }
    var norm := Norm(arg);
    if '=' in norm {
      return Positional;
    }
    if !f.isValue(norm) && !f.isBool(norm) {
      return Positional;
    }
    return if f.isValue(norm) then Value else Bool;
  }

  /** The loop has read the items `seen` and sorted their tokens; the rest starts at `i`. */
  ghost predicate Gathered(f: Flags, args: Args, i: nat, seen: seq<Item>, flags: Args, positional: Args)
    requires i <= |args|
  {
    && Items(f, args) == seen + Items(f, args[i..])
    && flags == Flatten(FlagItems(seen)) && positional == Flatten(WordItems(seen))
  }

  method ReorderArgs(f: Flags, args: Args) returns (out: Args)
    ensures out == Reorder(f, args)
  {
    var flags: Args, positional: Args := [], [];
    ghost var seen: seq<Item> := [];
    var i := 0;
    assert Gathered(f, args, 0, seen, flags, positional) by { assert args[0..] == args; }
    while i < |args|
      invariant 0 <= i <= |args|
      invariant Gathered(f, args, i, seen, flags, positional)
    {
      i, flags, positional, seen := TakeArg(f, args, i, flags, positional, seen);
    }
    GatheredAll(f, args, seen, flags, positional);
    out := flags + positional;
  }

  /** The loop body: one argument, or a value flag and its value. */
  method TakeArg(f: Flags, args: Args, i: nat, flags: Args, positional: Args, ghost seen: seq<Item>)
      returns (i': nat, flags': Args, positional': Args, ghost seen': seq<Item>)
    requires i < |args| && Gathered(f, args, i, seen, flags, positional)
    ensures i < i' <= |args| && Gathered(f, args, i', seen', flags', positional')
  {
    i', flags', positional' := i + 1, flags, positional;
    var kind := ReadArg(f, args[i]);
    if kind == Positional {
      positional' := positional + [args[i]];
      seen' := seen + [Word(args[i])];
      Gather(f, args, i, seen, flags, positional, Word(args[i]));
    } else if kind == Value && i + 1 < |args| {
      flags' := flags + [Norm(args[i]), args[i + 1]];
      i' := i + 2;
      seen' := seen + [Setting(Norm(args[i]), args[i + 1])];
      Gather(f, args, i, seen, flags, positional, Setting(Norm(args[i]), args[i + 1]));
    } else {
      flags' := flags + [Norm(args[i])];
      ghost var flag := if kind == Bool then Switch(Norm(args[i])) else Dangling(Norm(args[i]));
      seen' := seen + [flag];
      Gather(f, args, i, seen, flags, positional, flag);
    }
  }

  /** The item at `i`, given what kind of argument stands there. */
  ghost predicate ItemAt(f: Flags, args: Args, i: nat, item: Item)
    requires i < |args|
  {
    match Classify(f, args[i])
    case Positional => item == Word(args[i])
    case Bool => item == Switch(Norm(args[i]))
    case Value => item == if i + 1 < |args| then Setting(Norm(args[i]), args[i + 1]) else Dangling(Norm(args[i]))
  }

  lemma {:induction false} Gather(
      f: Flags, args: Args, i: nat, seen: seq<Item>, flags: Args, positional: Args, item: Item)
    requires i < |args| && Gathered(f, args, i, seen, flags, positional) && ItemAt(f, args, i, item)
    ensures i + |Tokens(item)| <= |args|
    ensures item.Word? ==> Gathered(f, args, i + |Tokens(item)|, seen + [item], flags, positional + Tokens(item))
    ensures !item.Word? ==> Gathered(f, args, i + |Tokens(item)|, seen + [item], flags + Tokens(item), positional)
  {
    ReadItem(f, args, i, item);
    TakeItem(seen, item);
    Assoc(seen, [item], Items(f, args[i + |Tokens(item)|..]));
  }

  lemma {:induction false} ReadItem(f: Flags, args: Args, i: nat, item: Item)
    requires i < |args| && ItemAt(f, args, i, item)
    ensures i + |Tokens(item)| <= |args|
    ensures Items(f, args[i..]) == [item] + Items(f, args[i + |Tokens(item)|..])
  {
    assert args[i..][1..] == args[i + 1..];
    if Classify(f, args[i]) == Value && i + 1 < |args| {
      assert args[i..][2..] == args[i + 2..];
    }
  }

  lemma {:induction false} GatheredAll(f: Flags, args: Args, seen: seq<Item>, flags: Args, positional: Args)
    requires Gathered(f, args, |args|, seen, flags, positional)
    ensures flags + positional == Reorder(f, args)
  {
    assert seen + [] == seen;
  }

  lemma {:induction false} TakeItem(seen: seq<Item>, item: Item)
    ensures Flatten(FlagItems(seen + [item])) == Flatten(FlagItems(seen)) + (if item.Word? then [] else Tokens(item))
    ensures Flatten(WordItems(seen + [item])) == Flatten(WordItems(seen)) + (if item.Word? then Tokens(item) else [])
  {
    PartsAppend(seen, [item]);
    SingleItem(item);
    FlattenAppend(FlagItems(seen), FlagItems([item]));
    FlattenAppend(WordItems(seen), WordItems([item]));
  }

  lemma {:induction false} SingleItem(item: Item)
    ensures Flatten(FlagItems([item])) == if item.Word? then [] else Tokens(item)
    ensures Flatten(WordItems([item])) == if item.Word? then Tokens(item) else []
  {
    assert [item][1..] == [];
    assert [item] + [] == [item];
    assert Flatten([item]) == Tokens(item) + [];
  }

  lemma {:induction false} ItemsCons(x: Item, rest: seq<Item>)
    ensures FlagItems([x] + rest) == (if x.Word? then [] else [x]) + FlagItems(rest)
    ensures WordItems([x] + rest) == (if x.Word? then [x] else []) + WordItems(rest)
    ensures Flatten([x] + rest) == Tokens(x) + Flatten(rest)
    ensures Flatten(FlagItems([x] + rest)) == (if x.Word? then [] else Tokens(x)) + Flatten(FlagItems(rest))
    ensures Flatten(WordItems([x] + rest)) == (if x.Word? then Tokens(x) else []) + Flatten(WordItems(rest))
  {
    assert ([x] + rest)[1..] == rest;
    assert ([x] + FlagItems(rest))[1..] == FlagItems(rest);
    assert ([x] + WordItems(rest))[1..] == WordItems(rest);
    assert [] + FlagItems(rest) == FlagItems(rest) && [] + WordItems(rest) == WordItems(rest);
  }

  // ---- Appending ----------------------------------------------------------

  lemma {:induction false} FlattenAppend(a: seq<Item>, b: seq<Item>)
    ensures Flatten(a + b) == Flatten(a) + Flatten(b)
    decreases |a|
  {
    if a == [] {
      assert a + b == b;
    } else {
      assert (a + b)[1..] == a[1..] + b;
      FlattenAppend(a[1..], b);
      Assoc(Tokens(a[0]), Flatten(a[1..]), Flatten(b));
    }
  }

  ghost predicate OnlyFlags(items: seq<Item>) { forall i :: 0 <= i < |items| ==> !items[i].Word? }

  ghost predicate OnlyWords(items: seq<Item>) { forall i :: 0 <= i < |items| ==> items[i].Word? }

  lemma {:induction false} FlagItemsAppend(a: seq<Item>, b: seq<Item>)
    ensures FlagItems(a + b) == FlagItems(a) + FlagItems(b)
    decreases |a|
  {
    if a == [] {
      assert a + b == b;
    } else {
      assert (a + b)[1..] == a[1..] + b;
      FlagItemsAppend(a[1..], b);
      Assoc(if a[0].Word? then [] else [a[0]], FlagItems(a[1..]), FlagItems(b));
    }
  }

  lemma {:induction false} WordItemsAppend(a: seq<Item>, b: seq<Item>)
    ensures WordItems(a + b) == WordItems(a) + WordItems(b)
    decreases |a|
  {
    if a == [] {
      assert a + b == b;
    } else {
      assert (a + b)[1..] == a[1..] + b;
      WordItemsAppend(a[1..], b);
      Assoc(if a[0].Word? then [a[0]] else [], WordItems(a[1..]), WordItems(b));
    }
  }

  lemma {:induction false} PartsAppend(a: seq<Item>, b: seq<Item>)
    ensures FlagItems(a + b) == FlagItems(a) + FlagItems(b)
    ensures WordItems(a + b) == WordItems(a) + WordItems(b)
  {
    FlagItemsAppend(a, b);
    WordItemsAppend(a, b);
  }

  lemma {:induction false} PartsOfParts(items: seq<Item>)
    ensures OnlyFlags(items) ==> FlagItems(items) == items && WordItems(items) == []
    ensures OnlyWords(items) ==> WordItems(items) == items && FlagItems(items) == []
    decreases |items|
  {
    if items != [] {
      PartsOfParts(items[1..]);
      assert items == [items[0]] + items[1..];
    }
  }

  lemma {:induction false} PartsArePure(items: seq<Item>)
    ensures OnlyFlags(FlagItems(items)) && OnlyWords(WordItems(items))
    decreases |items|
  {
    if items != [] {
      PartsArePure(items[1..]);
    }
  }

  lemma {:induction false} PartsLength(items: seq<Item>)
    ensures |Flatten(FlagItems(items))| + |Flatten(WordItems(items))| == |Flatten(items)|
    decreases |items|
  {
    if items != [] {
      PartsLength(items[1..]);
      assert items == [items[0]] + items[1..];
      ItemsCons(items[0], items[1..]);
    }
  }

  lemma {:induction false} ItemsLength(f: Flags, args: Args)
    ensures |Flatten(Items(f, args))| == |args|
    decreases |args|
  {
    if args != [] {
      match Classify(f, args[0])
      case Positional => ItemsLength(f, args[1..]); ItemsCons(Word(args[0]), Items(f, args[1..]));
      case Bool => ItemsLength(f, args[1..]); ItemsCons(Switch(Norm(args[0])), Items(f, args[1..]));
      case Value =>
        if |args| > 1 {
          ItemsLength(f, args[2..]);
          ItemsCons(Setting(Norm(args[0]), args[1]), Items(f, args[2..]));
        }
    }
  }

  /** Reordering neither adds nor loses an argument. */
  lemma {:induction false} ReorderLength(f: Flags, args: Args)
    ensures |Reorder(f, args)| == |args|
  {
    ItemsLength(f, args);
    PartsLength(Items(f, args));
  }

  // ---- Reading the result back --------------------------------------------

  /** An item as reading produces it, not counting on what follows. */
  predicate Settled(f: Flags, x: Item) {
    match x
    case Word(t) => Classify(f, t) == Positional
    case Switch(n) => Classify(f, n) == Bool && Norm(n) == n
    case Setting(n, _) => Classify(f, n) == Value && Norm(n) == n
    case Dangling(n) => Classify(f, n) == Value && Norm(n) == n
  }

  ghost predicate AllSettled(f: Flags, items: seq<Item>) {
    forall i :: 0 <= i < |items| ==> Settled(f, items[i])
  }

  ghost predicate NoneDangling(items: seq<Item>) {
    forall i :: 0 <= i < |items| ==> !items[i].Dangling?
  }

  lemma {:induction false} ItemsSettled(f: Flags, args: Args)
    requires GoodNames(f)
    ensures AllSettled(f, Items(f, args))
    ensures forall i :: 0 <= i < |Items(f, args)| - 1 ==> !Items(f, args)[i].Dangling?
    decreases |args|
  {
    if args != [] {
      if Classify(f, args[0]) != Positional {
        ClassifyNorm(f, args[0]);
      }
      if Classify(f, args[0]) != Value {
        ItemsSettled(f, args[1..]);
      } else if |args| > 1 {
        ItemsSettled(f, args[2..]);
      }
    }
  }

  /** Items that are settled and complete read back as themselves, whatever follows. */
  lemma {:induction false} ReadBack(f: Flags, items: seq<Item>, tail: Args)
    requires AllSettled(f, items) && NoneDangling(items)
    ensures Items(f, Flatten(items) + tail) == items + Items(f, tail)
    decreases |items|
  {
    if items == [] {
      assert Flatten(items) + tail == tail;
    } else {
      ReadBack(f, items[1..], tail);
      var more := Flatten(items[1..]) + tail;
      assert Settled(f, items[0]);
      Assoc(Tokens(items[0]), Flatten(items[1..]), tail);
      ReadOne(f, items[0], more);
      Assoc([items[0]], items[1..], Items(f, tail));
      assert items == [items[0]] + items[1..];
    }
  }

  lemma {:induction false} ReadOne(f: Flags, x: Item, more: Args)
    requires Settled(f, x) && !x.Dangling?
    ensures Items(f, Tokens(x) + more) == [x] + Items(f, more)
  {
    var line := Tokens(x) + more;
    match x
    case Word(_) => assert line[1..] == more;
    case Switch(_) => assert line[1..] == more;
    case Setting(_, _) => assert line[2..] == more;
  }

  lemma {:induction false} FlagItemsSettled(f: Flags, items: seq<Item>)
    requires AllSettled(f, items)
    ensures AllSettled(f, FlagItems(items))
    ensures NoneDangling(items) ==> NoneDangling(FlagItems(items))
    decreases |items|
  {
    if items != [] {
      FlagItemsSettled(f, items[1..]);
      assert Settled(f, items[0]);
    }
  }

  lemma {:induction false} WordItemsSettled(f: Flags, items: seq<Item>)
    requires AllSettled(f, items)
    ensures AllSettled(f, WordItems(items)) && NoneDangling(WordItems(items))
    decreases |items|
  {
    if items != [] {
      WordItemsSettled(f, items[1..]);
      assert Settled(f, items[0]);
    }
  }

  lemma {:induction false} PartsSettled(f: Flags, items: seq<Item>)
    requires AllSettled(f, items)
    ensures AllSettled(f, FlagItems(items)) && AllSettled(f, WordItems(items)) && NoneDangling(WordItems(items))
    ensures NoneDangling(items) ==> NoneDangling(FlagItems(items))
  {
    FlagItemsSettled(f, items);
    WordItemsSettled(f, items);
  }

  ghost predicate EndsDangling(items: seq<Item>) {
    items != [] && items[|items| - 1].Dangling?
  }

  lemma {:induction false} ReadBackTwo(f: Flags, flags: seq<Item>, words: seq<Item>)
    requires AllSettled(f, flags) && NoneDangling(flags) && AllSettled(f, words) && NoneDangling(words)
    ensures Items(f, Flatten(flags) + Flatten(words)) == flags + words
  {
    ReadBack(f, flags, Flatten(words));
    ReadBack(f, words, []);
    assert Flatten(words) + [] == Flatten(words);
    assert words + Items(f, []) == words;
  }

  /** A complete line reads back as its flags, each with its own value, followed by its
      positionals, both in their original order. */
  lemma {:induction false} CompleteLineKeepsItems(f: Flags, args: Args)
    requires GoodNames(f) && !EndsDangling(Items(f, args))
    ensures Items(f, Reorder(f, args)) == FlagItems(Items(f, args)) + WordItems(Items(f, args))
  {
    var items := Items(f, args);
    ItemsSettled(f, args);
    assert NoneDangling(items);
    PartsSettled(f, items);
    ReadBackTwo(f, FlagItems(items), WordItems(items));
  }

  /** A line whose last argument is a value flag without a value: reordering puts that
      flag just before the first positional, which it then swallows. */
  lemma {:induction false} DanglingLineReads(f: Flags, args: Args)
    requires GoodNames(f) && EndsDangling(Items(f, args))
    ensures var items := Items(f, args); var n := |items| - 1;
      var flags, words, name := FlagItems(items[..n]), WordItems(items[..n]), items[n].name;
      && FlagItems(items) == flags + [Dangling(name)] && WordItems(items) == words && OnlyWords(words)
      && Reorder(f, args) == Flatten(flags) + ([name] + Flatten(words))
      && Items(f, Reorder(f, args))
           == flags + (if words == [] then [Dangling(name)] else [Setting(name, words[0].text)] + words[1..])
  {
    var items := Items(f, args);
    var n := |items| - 1;
    var init, name := items[..n], items[n].name;
    var flags, words := FlagItems(init), WordItems(init);
    ItemsSettled(f, args);
    assert items == init + [Dangling(name)];
    SplitDangling(init, name);
    assert AllSettled(f, init) && Settled(f, items[n]);
    PartsSettled(f, init);
    PartsArePure(init);
    FlattenAppend(flags, [Dangling(name)]);
    assert Flatten([Dangling(name)]) == [name];
    Assoc(Flatten(flags), [name], Flatten(words));
    ReadBack(f, flags, [name] + Flatten(words));
    ReadDangling(f, name, words);
  }

  lemma {:induction false} SplitDangling(init: seq<Item>, name: Arg)
    ensures FlagItems(init + [Dangling(name)]) == FlagItems(init) + [Dangling(name)]
    ensures WordItems(init + [Dangling(name)]) == WordItems(init)
  {
    PartsAppend(init, [Dangling(name)]);
    assert [Dangling(name)][1..] == [];
    assert WordItems(init) + [] == WordItems(init);
  }

  lemma {:induction false} ReadDangling(f: Flags, name: Arg, words: seq<Item>)
    requires Classify(f, name) == Value && Norm(name) == name
    requires OnlyWords(words) && AllSettled(f, words)
    ensures Items(f, [name] + Flatten(words))
      == if words == [] then [Dangling(name)] else [Setting(name, words[0].text)] + words[1..]
  {
    var line := [name] + Flatten(words);
    if words != [] {
      assert words[0].Word?;
      assert line == [name, words[0].text] + Flatten(words[1..]);
      assert line[2..] == Flatten(words[1..]);
      ReadBack(f, words[1..], []);
      assert Flatten(words[1..]) + [] == Flatten(words[1..]);
      assert words[1..] + [] == words[1..];
    }
  }

  /** Reordering keeps the items of a line, flag values included, exactly when the line
      does not end in a value flag without a value or has no positional for it to take. */
  lemma {:induction false} ItemsKeptIff(f: Flags, args: Args)
    requires GoodNames(f)
    ensures Items(f, Reorder(f, args)) == FlagItems(Items(f, args)) + WordItems(Items(f, args))
      <==> !EndsDangling(Items(f, args)) || WordItems(Items(f, args)) == []
  {
    var items := Items(f, args);
    if !EndsDangling(items) {
      CompleteLineKeepsItems(f, args);
    } else {
      DanglingLineReads(f, args);
      var n := |items| - 1;
      var flags, words := FlagItems(items[..n]), WordItems(items[..n]);
      var name := items[n].name;
      assert OnlyWords(words);
      if words == [] {
        assert (flags + [Dangling(name)]) + [] == flags + [Dangling(name)];
      } else {
        assert (flags + ([Setting(name, words[0].text)] + words[1..]))[|flags|].Setting?;
        assert ((flags + [Dangling(name)]) + words)[|flags|].Dangling?;
      }
    }
  }

  /** Reordering a reordered line changes nothing. */
  lemma {:induction false} ReorderIdempotent(f: Flags, args: Args)
    requires GoodNames(f)
    ensures Reorder(f, Reorder(f, args)) == Reorder(f, args)
  {
    var items := Items(f, args);
    PartsArePure(items);
    if !EndsDangling(items) || WordItems(items) == [] {
      ItemsKeptIff(f, args);
      Rejoin(FlagItems(items), WordItems(items));
    } else {
      DanglingLineReads(f, args);
      var init := items[..|items| - 1];
      var flags, words, name := FlagItems(init), WordItems(init), items[|items| - 1].name;
      PartsArePure(init);
      RejoinSetting(flags, words, name);
    }
  }

  lemma {:induction false} Rejoin(flags: seq<Item>, words: seq<Item>)
    requires OnlyFlags(flags) && OnlyWords(words)
    ensures FlagItems(flags + words) == flags && WordItems(flags + words) == words
  {
    PartsAppend(flags, words);
    PartsOfParts(flags);
    PartsOfParts(words);
  }

  lemma {:induction false} RejoinSetting(flags: seq<Item>, words: seq<Item>, name: Arg)
    requires OnlyFlags(flags) && OnlyWords(words) && words != []
    ensures var items := flags + ([Setting(name, words[0].text)] + words[1..]);
      Flatten(FlagItems(items)) + Flatten(WordItems(items)) == Flatten(flags) + ([name] + Flatten(words))
  {
    var taken := Setting(name, words[0].text);
    assert flags + ([taken] + words[1..]) == (flags + [taken]) + words[1..];
    Rejoin(flags + [taken], words[1..]);
    FlattenSetting(flags, words, name);
  }

  lemma {:induction false} FlattenSetting(flags: seq<Item>, words: seq<Item>, name: Arg)
    requires words != [] && words[0].Word?
    ensures Flatten(flags + [Setting(name, words[0].text)]) + Flatten(words[1..])
      == Flatten(flags) + ([name] + Flatten(words))
  {
    var text := words[0].text;
    FlattenAppend(flags, [Setting(name, text)]);
    assert Flatten([Setting(name, text)]) == [name, text];
    assert Flatten(words) == [text] + Flatten(words[1..]);
    Assoc(Flatten(flags), [name, text], Flatten(words[1..]));
    Assoc([name], [text], Flatten(words[1..]));
    assert [name] + [text] == [name, text];
  }

  /** The failing family: a value flag typed last, after a positional, takes that positional
      as its value once hoisted. */
  lemma {:induction false} TrailingFlagTakesPositional(f: Flags, flag: Arg, word: Arg)
    requires Classify(f, flag) == Value && Norm(flag) == flag && Classify(f, word) == Positional
    ensures Items(f, [word, flag]) == [Word(word), Dangling(flag)]
    ensures Reorder(f, [word, flag]) == [flag, word]
    ensures Items(f, Reorder(f, [word, flag])) == [Setting(flag, word)]
  {
    assert [word, flag][1..] == [flag];
    assert [flag][1..] == [] && [flag, word][2..] == [];
    assert Items(f, [word, flag]) == [Word(word)] + [Dangling(flag)];
    ItemsCons(Word(word), [Dangling(flag)]);
    SingleItem(Dangling(flag));
    assert [flag] + [word] == [flag, word];
    assert Items(f, [flag, word]) == [Setting(flag, word)] + [];
  }

  // ---- Lines given argument by argument -----------------------------------

  lemma {:induction false} WordThen(f: Flags, word: Arg, rest: Args)
    requires Classify(f, word) == Positional
    ensures Items(f, [word] + rest) == [Word(word)] + Items(f, rest)
    ensures FlagTokens(f, [word] + rest) == FlagTokens(f, rest)
    ensures WordTokens(f, [word] + rest) == [word] + WordTokens(f, rest)
  {
    assert ([word] + rest)[1..] == rest;
    ItemsCons(Word(word), Items(f, rest));
  }

  lemma {:induction false} SettingThen(f: Flags, flag: Arg, value: Arg, rest: Args)
    requires Classify(f, flag) == Value
    ensures Items(f, [flag, value] + rest) == [Setting(Norm(flag), value)] + Items(f, rest)
    ensures FlagTokens(f, [flag, value] + rest) == [Norm(flag), value] + FlagTokens(f, rest)
    ensures WordTokens(f, [flag, value] + rest) == WordTokens(f, rest)
  {
    assert ([flag, value] + rest)[2..] == rest;
    ItemsCons(Setting(Norm(flag), value), Items(f, rest));
  }

  // ---- Names written out --------------------------------------------------

  /** A flag starts with a dash and is more than a dash; a double dash counts as a single one. */
  lemma {:induction false} Dashes(a: Arg, n: Arg)
    requires |n| >= 2 && n[0] == '-' && n[1] != '-'
    ensures FlagLike(a) <==> a != [] && a[0] == '-' && a != "-"
    ensures Norm(a) == n <==> a == n || a == "-" + n
  {
    assert ("-" + n)[1] == '-' && ("-" + n)[2..] == n[1..];
    assert n == "-" + n[1..];
    if Norm(a) == n && a != n {
      assert a == "-" + ("-" + a[2..]);
      assert n[1..] == a[2..];
    }
  }

  /** An argument is hoisted exactly when it is a recognised name with no equals sign in it, with
      one dash or two; it takes a value exactly when that name is a value flag's. */
  lemma {:induction false} ClassifyIff(f: Flags, a: Arg)
    requires GoodNames(f)
    ensures Classify(f, a) == Value <==> exists n :: f.isValue(n) && '=' !in n && (a == n || a == "-" + n)
    ensures Classify(f, a) == Bool <==>
      exists n :: f.isBool(n) && !f.isValue(n) && '=' !in n && (a == n || a == "-" + n)
  {
    forall n | f.isValue(n) || f.isBool(n) ensures Norm(a) == n <==> a == n || a == "-" + n {
      Dashes(a, n);
    }
    forall n | (f.isValue(n) || f.isBool(n)) && (a == n || a == "-" + n) ensures FlagLike(a) {
      Dashes(a, n);
    }
  }

  lemma {:induction false} PlainName(n: Arg)
    requires '=' !in n
    ensures FlagName(n) == n
    decreases |n|
  {
    if n != [] {
      assert n[0] in n && forall i :: 0 < i < |n| ==> n[i] in n;
      PlainName(n[1..]);
      assert n == [n[0]] + n[1..];
    }
  }

  /** A name and a value with an equals sign between them. */
  lemma {:induction false} NameAndValue(name: Arg, value: Arg)
    requires '=' !in name
    ensures FlagName(name + "=" + value) == name
    decreases |name|
  {
    if name == [] {
      assert name + "=" + value == "=" + value;
    } else {
      assert '=' !in name[1..];
      assert (name + "=" + value)[1..] == name[1..] + "=" + value;
      NameAndValue(name[1..], value);
      assert name == [name[0]] + name[1..];
    }
  }

  lemma {:induction false} FlagNameIs(a: Arg)
    ensures '=' !in FlagName(a) && |FlagName(a)| <= |a|
    ensures |FlagName(a)| == |a| ==> FlagName(a) == a
    ensures |FlagName(a)| < |a| ==> a == FlagName(a) + "=" + a[|FlagName(a)| + 1..]
    decreases |a|
  {
    if a != [] && a[0] != '=' {
      FlagNameIs(a[1..]);
      assert a == [a[0]] + a[1..];
    }
  }
}
