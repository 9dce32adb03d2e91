/** What the FlagSet of `run` and `dispatch` makes of a line whose guest command was found. */
module GuestReading {
  import opened ArgReorder
  import opened Basics
  import opened FlagReading
  import opened GuestCommand

  /** The line that is handed to the FlagSet. */
  function Handed(f: Flags, args: Args, g: nat): Args
    requires g <= |args|
  {
    Reorder(f, args[..g]) + args[g..]
  }

  lemma {:induction false} GuestFacts(f: Flags, args: Args, g: nat)
    requires GoodNames(f) && Guest(f, args) == Some(g)
    ensures g < |args| && !FlagLike(args[g]) && !FlagLike(args[g..][0]) && !EndsDangling(Items(f, args[..g]))
  {
    GuestIsBoundary(f, args, 0, false, 0);
    BoundaryReads(f, args, g);
  }

  /** The FlagSet reads exactly the recognised flags typed before the guest command if and only
      if none is typed after a `--`, and every recognised `-name=value` comes before the image
      and any other positional. */
  lemma {:induction false} GuestFlagsReadIff(f: Flags, args: Args, g: nat)
    requires GoodNames(f) && Guest(f, args) == Some(g) && g <= |args|
    ensures ReadsExactly(f, Handed(f, args, g), multiset(Recognised(f, args[..g]))) <==> InTime(f, args[..g])
  {
    GuestFacts(f, args, g);
    CompleteLineReadsIff(f, args[..g], args[g..]);
  }

  /** The FlagSet never reads into the guest's line: what it leaves is a last part of the
      positionals typed before the guest command, and then that line as typed. */
  lemma {:induction false} GuestLineIsLeft(f: Flags, args: Args, g: nat) returns (k: nat)
    requires GoodNames(f) && Guest(f, args) == Some(g) && g <= |args| && Parse(f, Handed(f, args, g)).Read?
    ensures k <= |WordTokens(f, args[..g])|
    ensures Parse(f, Handed(f, args, g)).rest == WordTokens(f, args[..g])[k..] + args[g..]
  {
    var head, tail := args[..g], args[g..];
    var items := Items(f, head);
    GuestFacts(f, args, g);
    ItemsSettled(f, head);
    assert NoneDangling(items);
    PartsSettled(f, items);
    PartsArePure(items);
    Assoc(FlagTokens(f, head), WordTokens(f, head), tail);
    ParseFlags(f, FlagItems(items), WordTokens(f, head) + tail);
    WordsArePositional(f, WordItems(items));
    k := ParseWordsRest(f, WordTokens(f, head), tail);
  }

  /** The failing family: a recognised `-name=value` typed after the image. It is not read, and
      is handed to the guest as the first word of its command. */
  lemma {:induction false} AttachedAfterImage(f: Flags, image: Arg, flag: Arg, guest: Arg)
    requires GoodNames(f) && !FlagLike(image) && Attached(f, flag) && !NamesImage(flag) && !FlagLike(guest)
    ensures var args := [image, flag, guest];
      && Guest(f, args) == Some(2) && Handed(f, args, 2) == args
      && Recognised(f, args[..2]) == GivenBy(f, Word(flag))
      && Parse(f, Handed(f, args, 2)) == Read([], args)
  {
    var args := [image, flag, guest];
    ImageThenFlag(f, image, flag, guest);
    assert args[..2] == [image, flag] && args[2..] == [guest];
    PairOfWords(f, image, flag);
    assert [image, flag] + [guest] == args;
  }

  lemma {:induction false} ImageThenFlag(f: Flags, image: Arg, flag: Arg, guest: Arg)
    requires !FlagLike(image) && Attached(f, flag) && !NamesImage(flag) && !FlagLike(guest)
    ensures Guest(f, [image, flag, guest]) == Some(2)
  {
    var args := [image, flag, guest];
    FoundStep(f, args, 0, false, 0);
    assert args[1..] == [flag, guest];
    FoundStep(f, [flag, guest], 1, false, 1);
    assert [flag, guest][1..] == [guest];
    FoundStep(f, [guest], 2, false, 1);
  }

  lemma {:induction false} PairOfWords(f: Flags, image: Arg, flag: Arg)
    requires !FlagLike(image) && Attached(f, flag)
    ensures Reorder(f, [image, flag]) == [image, flag]
    ensures Recognised(f, [image, flag]) == GivenBy(f, Word(flag))
  {
    WordThen(f, flag, []);
    WordThen(f, image, [flag] + []);
    assert [image] + ([flag] + []) == [image, flag];
    TwoWords(f, image, flag);
  }

  lemma {:induction false} TwoWords(f: Flags, image: Arg, flag: Arg)
    requires !FlagLike(image) && Attached(f, flag)
    ensures var items := [Word(image)] + ([Word(flag)] + []);
      Before(items) == items && AllGiven(f, items) == GivenBy(f, Word(flag))
  {
    var one, items := [Word(flag)], [Word(image)] + ([Word(flag)] + []);
    assert items[1..] == one && one[1..] == [];
    assert DashAt(one) == 1;
    GivenOne(f, Word(flag));
  }
}
