/** Reordering for `run` and `dispatch`: only the arguments before the guest command are
    reordered, and the guest command and everything after it are passed on as typed. */
module GuestCommand {
  import opened ArgReorder
  import opened Basics

  predicate NamesImage(a: Arg) { FlagLike(a) && FlagName(Norm(a)) == "-image" }

  /** The image flag is `-image` or `--image`, alone or with a value attached. */
  lemma {:induction false} NamesImageIff(a: Arg)
    ensures NamesImage(a) <==>
      || a == "-image" || a == "--image"
      || (exists v :: a == "-image" + "=" + v) || (exists v :: a == "--image" + "=" + v)
  {
    if NamesImage(a) {
      var n := Norm(a);
      FlagNameIs(n);
      if |FlagName(n)| < |n| {
        var v := n[|FlagName(n)| + 1..];
        assert n == "-image" + "=" + v;
        if a != n {
          assert a == "-" + n && "-" + n == "--image" + "=" + v;
        }
      } else if a != n {
        assert a == "-" + n;
      }
    }
    ImageForms(a);
  }

  lemma {:induction false} ImageForms(a: Arg)
    ensures a == "-image" || a == "--image" ==> NamesImage(a)
    ensures forall v :: a == "-image" + "=" + v || a == "--image" + "=" + v ==> NamesImage(a)
  {
    PlainName("-image");
    if a == "-image" || a == "--image" {
      Dashes(a, "-image");
    }
    forall v | a == "-image" + "=" + v || a == "--image" + "=" + v ensures NamesImage(a) {
      NameAndValue("-image", v);
      DashedValue(a, v);
    }
  }

  lemma {:induction false} DashedValue(a: Arg, v: Arg)
    requires a == "-image" + "=" + v || a == "--image" + "=" + v
    ensures FlagLike(a) && Norm(a) == "-image" + "=" + v
  {
    var n := "-image" + "=" + v;
    assert n[0] == '-' && n[1] == 'i';
    assert "--image" + "=" + v == "-" + n;
    Dashes(a, n);
  }

  /** How many arguments the one at the head of the line takes up. */
  function Width(f: Flags, line: Args): nat
    requires line != []
  {
    if Classify(f, line[0]) == Value && |line| > 1 then 2 else 1
  }

  /** What the scan for the guest command notices. */
  datatype Mark = WordAt(index: nat) | Image

  /** The marks of a line that starts at index `base`. */
  function Marks(f: Flags, line: Args, base: nat): seq<Mark>
    decreases |line|
  {
    if line == [] then []
    else MarkOf(line[0], base) + Marks(f, line[Width(f, line)..], base + Width(f, line))
  }

  function MarkOf(a: Arg, index: nat): seq<Mark> {
    if !FlagLike(a) then [WordAt(index)] else if NamesImage(a) then [Image] else []
  }

  predicate IsGuest(image: bool, before: nat) { (image && before == 0) || (!image && before == 1) }

  /** The first positional once an image flag has been seen, otherwise the second. */
  function FindGuest(marks: seq<Mark>, image: bool, count: nat): Option<nat> {
    if marks == [] then None
    else
      match marks[0]
      case Image => FindGuest(marks[1..], true, count)
      case WordAt(i) =>
        if IsGuest(image, count) then Some(i)
        else FindGuest(marks[1..], image, count + 1)
  }

  /** The guest command's index, scanning a line that starts at `base`. */
  function Found(f: Flags, line: Args, base: nat, image: bool, count: nat): Option<nat> {
    FindGuest(Marks(f, line, base), image, count)
  }

  function Guest(f: Flags, args: Args): Option<nat> { Found(f, args, 0, false, 0) }

  lemma {:induction false} FoundStep(f: Flags, line: Args, base: nat, image: bool, count: nat)
    requires line != []
    ensures !FlagLike(line[0]) && IsGuest(image, count) ==> Found(f, line, base, image, count) == Some(base)
    ensures FlagLike(line[0]) || !IsGuest(image, count) ==>
      Found(f, line, base, image, count) == Found(f, line[Width(f, line)..], base + Width(f, line),
        image || NamesImage(line[0]), if FlagLike(line[0]) then count else count + 1)
  {
    var w := Width(f, line);
    var rest := Marks(f, line[w..], base + w);
    if !FlagLike(line[0]) {
      assert ([WordAt(base)] + rest)[1..] == rest;
    } else if NamesImage(line[0]) {
      assert ([Image] + rest)[1..] == rest;
    } else {
      assert [] + rest == rest;
    }
  }

  ghost predicate Scanning(f: Flags, args: Args, i: nat, image: bool, count: nat)
    requires i <= |args|
  {
    Guest(f, args) == Found(f, args[i..], i, image, count)
  }

  method ReorderArgsStopAtGuestCommand(f: Flags, args: Args) returns (out: Args)
    ensures Guest(f, args).None? ==> out == Reorder(f, args)
    ensures Guest(f, args).Some? ==> Guest(f, args).value < |args|
    ensures Guest(f, args).Some? ==>
      var g := Guest(f, args).value; out == Reorder(f, args[..g]) + args[g..]
  {
    var imageFromFlag, positionals := false, 0;
    var i := 0;
    assert args[0..] == args;
    while i < |args|
      invariant 0 <= i <= |args|
      invariant Scanning(f, args, i, imageFromFlag, positionals)
    {
      if !FlagLike(args[i]) {
        ScanWord(f, args, i, imageFromFlag, positionals);
        positionals := positionals + 1;
        if (imageFromFlag && positionals == 1) || (!imageFromFlag && positionals == 2) {
          var head := ReorderArgs(f, args[..i]);
          return head + args[i..];
        }
      } else {
        imageFromFlag, i := PassFlag(f, args, i, imageFromFlag, positionals);
        continue;
      }
      i := i + 1;
    }
    out := ReorderArgs(f, args);
  }

  /** A flag: whether the image is known after it, and where the scan goes on past its value. */
  method PassFlag(f: Flags, args: Args, i: nat, image: bool, ghost count: nat) returns (image': bool, next: nat)
    requires i < |args| && FlagLike(args[i]) && Scanning(f, args, i, image, count)
    ensures i < next <= |args| && Scanning(f, args, next, image', count)
    ensures image' == (image || NamesImage(args[i])) && next == i + Width(f, args[i..])
  {
    ScanFlag(f, args, i, image, count);
    WidthAt(f, args, i);
    image', next := image || NamesImage(args[i]), i + 1;
    var kind := ReadArg(f, args[i]);
    if kind == Value && i + 1 < |args| {
      next := i + 2;
    }
  }

  lemma {:induction false} WidthAt(f: Flags, args: Args, i: nat)
    requires i < |args|
    ensures Width(f, args[i..]) == if Classify(f, args[i]) == Value && i + 1 < |args| then 2 else 1
  {
  }

  lemma {:induction false} ScanWord(f: Flags, args: Args, i: nat, image: bool, count: nat)
    requires i < |args| && !FlagLike(args[i]) && Scanning(f, args, i, image, count)
    ensures IsGuest(image, count) ==> Guest(f, args) == Some(i)
    ensures !IsGuest(image, count) ==> Scanning(f, args, i + 1, image, count + 1)
  {
    FoundStep(f, args[i..], i, image, count);
    assert args[i..][1..] == args[i + 1..];
  }

  lemma {:induction false} ScanFlag(f: Flags, args: Args, i: nat, image: bool, count: nat)
    requires i < |args| && FlagLike(args[i]) && Scanning(f, args, i, image, count)
    ensures i + Width(f, args[i..]) <= |args|
    ensures Scanning(f, args, i + Width(f, args[i..]), image || NamesImage(args[i]), count)
  {
    FoundStep(f, args[i..], i, image, count);
    assert args[i..][Width(f, args[i..])..] == args[i + Width(f, args[i..])..];
  }

  // ---- The tail is passed on as typed -------------------------------------

  /** Reading the line item by item stops at `g`. */
  predicate Boundary(f: Flags, line: Args, g: nat)
    decreases |line|
  {
    g == 0 || (line != [] && Width(f, line) <= g && Boundary(f, line[Width(f, line)..], g - Width(f, line)))
  }

  /** What finding a guest at `g` says of a line that starts at `base`. */
  ghost predicate GuestAt(f: Flags, line: Args, base: nat, g: nat) {
    base <= g < base + |line| && !FlagLike(line[g - base]) && Boundary(f, line, g - base)
  }

  /** The guest command is a positional, and no flag before it takes it as a value. */
  lemma {:induction false} GuestIsBoundary(f: Flags, line: Args, base: nat, image: bool, count: nat)
    requires Found(f, line, base, image, count).Some?
    ensures GuestAt(f, line, base, Found(f, line, base, image, count).value)
    decreases |line|
  {
    FoundStep(f, line, base, image, count);
    var w := Width(f, line);
    if FlagLike(line[0]) || !IsGuest(image, count) {
      var image' := image || NamesImage(line[0]);
      var count' := if FlagLike(line[0]) then count else count + 1;
      GuestIsBoundary(f, line[w..], base + w, image', count');
      GuestAtSuffix(f, line, base, Found(f, line, base, image, count).value);
    }
  }

  lemma {:induction false} GuestAtSuffix(f: Flags, line: Args, base: nat, g: nat)
    requires line != [] && GuestAt(f, line[Width(f, line)..], base + Width(f, line), g)
    ensures GuestAt(f, line, base, g)
  {
  }

  lemma {:induction false} BoundaryReads(f: Flags, line: Args, g: nat)
    requires g < |line| && Boundary(f, line, g)
    ensures NoneDangling(Items(f, line[..g]))
    decreases |line|
  {
    if g > 0 {
      var w := Width(f, line);
      BoundaryReads(f, line[w..], g - w);
      assert line[w..][..g - w] == line[..g][w..];
      HeadItem(f, line[..g]);
    }
  }

  lemma {:induction false} HeadItem(f: Flags, line: Args)
    requires line != [] && (Classify(f, line[0]) == Value ==> |line| > 1)
    ensures Items(f, line) == [Items(f, line)[0]] + Items(f, line[Width(f, line)..])
    ensures !Items(f, line)[0].Dangling?
  {
  }

  /** From the guest command on, every argument keeps its index and its text. */
  lemma {:induction false} TailVerbatim(f: Flags, args: Args)
    requires Guest(f, args).Some?
    ensures var g := Guest(f, args).value;
      g < |args| && !FlagLike(args[g]) && |Reorder(f, args[..g])| == g
      && (Reorder(f, args[..g]) + args[g..])[g..] == args[g..]
  {
    GuestIsBoundary(f, args, 0, false, 0);
    var g := Guest(f, args).value;
    ReorderLength(f, args[..g]);
    assert (Reorder(f, args[..g]) + args[g..])[g..] == args[g..];
  }

  /** The reordered line reads as the flags before the guest command, each with its own
      value, then the positionals before it, then the guest's line: no hoisted flag takes an
      argument from the guest. */
  lemma {:induction false} GuestLineKeepsItems(f: Flags, args: Args)
    requires GoodNames(f) && Guest(f, args).Some? && Guest(f, args).value < |args|
    ensures var g := Guest(f, args).value; var before := Items(f, args[..g]);
      Items(f, Reorder(f, args[..g]) + args[g..]) == (FlagItems(before) + WordItems(before)) + Items(f, args[g..])
  {
    var g := Guest(f, args).value;
    GuestIsBoundary(f, args, 0, false, 0);
    BoundaryReads(f, args, g);
    ItemsSettled(f, args[..g]);
    ReadBackWithTail(f, Items(f, args[..g]), args[g..]);
  }

  lemma {:induction false} ReadBackWithTail(f: Flags, items: seq<Item>, tail: Args)
    requires AllSettled(f, items) && NoneDangling(items)
    ensures Items(f, (Flatten(FlagItems(items)) + Flatten(WordItems(items))) + tail)
      == (FlagItems(items) + WordItems(items)) + Items(f, tail)
  {
    var flags, words := FlagItems(items), WordItems(items);
    PartsSettled(f, items);
    Assoc(Flatten(flags), Flatten(words), tail);
    ReadBack(f, flags, Flatten(words) + tail);
    ReadBack(f, words, tail);
    Assoc(flags, words, Items(f, tail));
  }

  // ---- Where the guest command is documented to start ---------------------

  /** How many marks come before the next positional. */
  function NextWord(marks: seq<Mark>): (n: nat)
    ensures n <= |marks| && (n < |marks| ==> marks[n].WordAt?)
    ensures forall i :: 0 <= i < n ==> marks[i] == Image
  {
    if marks == [] || marks[0].WordAt? then 0 else 1 + NextWord(marks[1..])
  }

  /** The documented rule: the first positional when the image comes from a flag among those
      before the second positional, otherwise the second positional. */
  function Documented(marks: seq<Mark>): Option<nat> {
    var a := NextWord(marks);
    if a == |marks| then None
    else
      var b := NextWord(marks[a + 1..]);
      if a > 0 || b > 0 then Some(marks[a].index)
      else if a + 1 + b < |marks| then Some(marks[a + 1 + b].index)
      else None
  }

  /** The first image flag comes after the first positional and before the second. */
  predicate LateImage(marks: seq<Mark>) {
    NextWord(marks) == 0 && marks != [] && NextWord(marks[1..]) > 0
  }

  /** The scan finds the documented guest command exactly when no image flag comes first
      between the first positional and the second; otherwise it finds none at all, and the
      whole line is reordered. */
  lemma {:induction false} ScanFindsDocumented(marks: seq<Mark>)
    ensures FindGuest(marks, false, 0) == Documented(marks) <==> !LateImage(marks)
    ensures LateImage(marks) ==> FindGuest(marks, false, 0).None? && Documented(marks).Some?
  {
    var a := NextWord(marks);
    SkipImages(marks, false, 0);
    if a < |marks| && a == 0 {
      var rest := marks[1..];
      SkipImages(rest, false, 1);
      var b := NextWord(rest);
      if b > 0 {
        PastImage(rest[b..], 1);
      }
    }
  }

  lemma {:induction false} SkipImages(marks: seq<Mark>, image: bool, count: nat)
    ensures FindGuest(marks, image, count) == FindGuest(marks[NextWord(marks)..], image || NextWord(marks) > 0, count)
    decreases |marks|
  {
    var n := NextWord(marks);
    if n > 0 {
      SkipImages(marks[1..], true, count);
      assert marks[1..][n - 1..] == marks[n..];
    }
  }

  /** Once a positional and then an image flag have been seen, no guest command is found. */
  lemma {:induction false} PastImage(marks: seq<Mark>, count: nat)
    requires count >= 1
    ensures FindGuest(marks, true, count) == None
    decreases |marks|
  {
    if marks != [] {
      PastImage(marks[1..], count);
      PastImage(marks[1..], count + 1);
    }
  }

  /** The failing family: the image flag is typed after the guest command, so the scan finds
      no guest command and the guest's own flag is hoisted with its value. */
  lemma {:induction false} LateImageLosesTail(
      f: Flags, guest: Arg, image: Arg, from: Arg, word: Arg, flag: Arg, value: Arg)
    requires !FlagLike(guest) && !FlagLike(word)
    requires NamesImage(image) && Classify(f, image) == Value
    requires FlagLike(flag) && !NamesImage(flag) && Classify(f, flag) == Value
    ensures var args := [guest, image, from, word, flag, value];
      && Guest(f, args) == None && Documented(Marks(f, args, 0)) == Some(0)
      && Reorder(f, args) == [Norm(image), from, Norm(flag), value, guest, word]
  {
    var args := [guest, image, from, word, flag, value];
    LateMarks(f, guest, image, from, word, flag, value);
    ScanFindsDocumented([WordAt(0), Image, WordAt(3)]);
    assert [WordAt(0), Image, WordAt(3)][1..] == [Image, WordAt(3)];
    LateItems(f, guest, image, from, word, flag, value);
  }

  lemma {:induction false} LateMarks(f: Flags, guest: Arg, image: Arg, from: Arg, word: Arg, flag: Arg, value: Arg)
    requires !FlagLike(guest) && !FlagLike(word)
    requires NamesImage(image) && Classify(f, image) == Value
    requires FlagLike(flag) && !NamesImage(flag) && Classify(f, flag) == Value
    ensures Marks(f, [guest, image, from, word, flag, value], 0) == [WordAt(0), Image, WordAt(3)]
  {
    var args := [guest, image, from, word, flag, value];
    assert args[1..] == [image, from, word, flag, value];
    assert args[1..][2..] == [word, flag, value];
    assert [word, flag, value][1..] == [flag, value];
    assert [flag, value][2..] == [];
    assert Marks(f, [flag, value], 4) == [];
    assert Marks(f, [word, flag, value], 3) == [WordAt(3)];
    assert Marks(f, args[1..], 1) == [Image, WordAt(3)];
  }

  lemma {:induction false} LateItems(f: Flags, guest: Arg, image: Arg, from: Arg, word: Arg, flag: Arg, value: Arg)
    requires !FlagLike(guest) && !FlagLike(word) && Classify(f, image) == Value && Classify(f, flag) == Value
    ensures Reorder(f, [guest, image, from, word, flag, value]) == [Norm(image), from, Norm(flag), value, guest, word]
  {
    var last := [flag, value] + [];
    SettingThen(f, flag, value, []);
    WordThen(f, word, last);
    SettingThen(f, image, from, [word] + last);
    WordThen(f, guest, [image, from] + ([word] + last));
    Spelled(guest, image, from, word, flag, value);
    Spelled'(Norm(image), from, Norm(flag), value, guest, word);
  }

  lemma {:induction false} Spelled(a: Arg, b: Arg, c: Arg, d: Arg, e: Arg, x: Arg)
    ensures [a] + ([b, c] + ([d] + ([e, x] + []))) == [a, b, c, d, e, x]
  {
  }

  lemma {:induction false} Spelled'(a: Arg, b: Arg, c: Arg, d: Arg, e: Arg, x: Arg)
    ensures ([a, b] + ([c, d] + [])) + ([e] + ([x] + [])) == [a, b, c, d, e, x]
  {
  }
}
