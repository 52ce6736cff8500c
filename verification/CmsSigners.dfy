/**
 * The -signer and -inkey options of cms: which key file goes with which signer
 * certificate, and which sequences of options are accepted.
 */
module CmsSigners {
  import opened Options
  import opened Sequences

  datatype Arg = Signer(file: string) | InKey(file: string)

  // ----- what a command line may be made of -----

  /** A signer on its own, or a signer with a key before or after it. */
  datatype Block = Own(signer: string) | Keyed(signer: string, key: string, keyFirst: bool) {
    function Args(): seq<Arg> {
      match this
      case Own(s) => [Signer(s)]
      case Keyed(s, k, keyFirst) => if keyFirst then [InKey(k), Signer(s)] else [Signer(s), InKey(k)]
    }

    /** A signer without a key of its own is its own key file. */
    function KeyFile(): string {
      if Own? then signer else key
    }
  }

  function Flatten(blocks: seq<Block>): seq<Arg> {
    if blocks == [] then [] else blocks[0].Args() + Flatten(blocks[1..])
  }

  function Signers(blocks: seq<Block>): (r: seq<string>)
    ensures |r| == |blocks| && forall i :: 0 <= i < |blocks| ==> r[i] == blocks[i].signer
  {
    seq(|blocks|, i requires 0 <= i < |blocks| => blocks[i].signer)
  }

  function Keys(blocks: seq<Block>): (r: seq<string>)
    ensures |r| == |blocks| && forall i :: 0 <= i < |blocks| ==> r[i] == blocks[i].KeyFile()
  {
    seq(|blocks|, i requires 0 <= i < |blocks| => blocks[i].KeyFile())
  }

  function SignerArgs(args: seq<Arg>): seq<string> {
    if args == [] then [] else (if args[0].Signer? then [args[0].file] else []) + SignerArgs(args[1..])
  }

  function InKeyArgs(args: seq<Arg>): seq<string> {
    if args == [] then [] else (if args[0].InKey? then [args[0].file] else []) + InKeyArgs(args[1..])
  }

  /** The keys that came from -inkey, in the order of their signers. */
  function GivenKeys(blocks: seq<Block>): seq<string> {
    if blocks == [] then [] else (if blocks[0].Keyed? then [blocks[0].key] else []) + GivenKeys(blocks[1..])
  }

  /**
   * The grouping the options mean: a key goes to the signer right before it if
   * that one has no key yet, and otherwise to the signer right after it.
   */
  function Grouped(args: seq<Arg>): Option<seq<Block>>
    decreases |args|
  {
    if args == [] then Some([])
    else if args[0].Signer? && |args| >= 2 && args[1].InKey? then
      Prefixed([Keyed(args[0].file, args[1].file, false)], Grouped(args[2..]))
    else if args[0].Signer? then Prefixed([Own(args[0].file)], Grouped(args[1..]))
    else if |args| >= 2 && args[1].Signer? then
      Prefixed([Keyed(args[1].file, args[0].file, true)], Grouped(args[2..]))
    else None
  }

  /** No signer is left without a key that comes right after it. */
  ghost predicate Settled(blocks: seq<Block>) {
    forall i :: 0 <= i < |blocks| - 1 && blocks[i].Own? ==> !(blocks[i + 1].Keyed? && blocks[i + 1].keyFirst)
  }

  // ----- the option loop -----

  /** The pending signer and key, and the two stacks; an empty stack is a null one. */
  datatype State = State(signerfile: Option<string>, keyfile: Option<string>, sksigners: seq<string>,
                         skkeys: seq<string>)

  function Pushed(st: State, signer: string): State {
    State(None, None, st.sksigners + [signer], st.skkeys + [if st.keyfile.Some? then st.keyfile.value else signer])
  }

  /** One option; None when a key has no signer. */
  function Step(st: State, arg: Arg): Option<State> {
    match arg
    case Signer(file) =>
      var st' := if st.signerfile.Some? then Pushed(st, st.signerfile.value) else st;
      Some(st'.(signerfile := Some(file)))
    case InKey(file) =>
      if st.keyfile.None? then Some(st.(keyfile := Some(file)))
      else if st.signerfile.None? then None
      else Some(Pushed(st, st.signerfile.value).(keyfile := Some(file)))
  }

  function Run(st: State, args: seq<Arg>): Option<State>
    decreases |args|
  {
    if args == [] then Some(st) else
      match Step(st, args[0])
      case None => None
      case Some(st') => Run(st', args[1..])
  }

  const START: State := State(None, None, [], [])

  /** The checks after the loop under a signing operation. */
  function Finish(st: State): Option<State> {
    if st.keyfile.Some? && st.signerfile.None? then None else
      var st' := if st.signerfile.Some? then Pushed(st, st.signerfile.value) else st;
      if st'.sksigners == [] then None else Some(st')
  }

  function Accept(args: seq<Arg>): Option<State> {
    match Run(START, args)
    case None => None
    case Some(st) => Finish(st)
  }

  /** The options and the final flush, for signing and for other operations. */
  method ParseSigners(args: seq<Arg>, signing: bool) returns (r: Option<(seq<string>, seq<string>)>)
    ensures signing ==> r == match Accept(args)
                             case None => None
                             case Some(st) => Some((st.sksigners, st.skkeys))
    ensures !signing ==>
              (r.Some? <==>
                 Run(START, args).Some? && Run(START, args).value.sksigners == [] == Run(START, args).value.skkeys)
    ensures !signing && r.Some? ==> r.value == ([], [])
  {
    var signerfile: Option<string>, keyfile: Option<string> := None, None;
    var sksigners: seq<string>, skkeys: seq<string> := [], [];
    var i := 0;
    while i < |args|
      invariant 0 <= i <= |args|
      invariant Run(START, args) == Run(State(signerfile, keyfile, sksigners, skkeys), args[i..])
    {
      assert args[i..][0] == args[i] && args[i..][1..] == args[i + 1..];
      match args[i] {
      case Signer(file) =>
        if signerfile.Some? {
          sksigners := sksigners + [signerfile.value];
          if keyfile.None? {
            keyfile := signerfile;
          }
          skkeys := skkeys + [keyfile.value];
          keyfile := None;
        }
        signerfile := Some(file);
      case InKey(file) =>
        if keyfile.Some? {
          if signerfile.None? {
            return None;
          }
          sksigners := sksigners + [signerfile.value];
          signerfile := None;
          skkeys := skkeys + [keyfile.value];
        }
        keyfile := Some(file);
      }
      i := i + 1;
    }
    assert args[i..] == [];
    if !signing && (skkeys != [] || sksigners != []) {
      return None;
    }
    if signing {
      if keyfile.Some? && signerfile.None? {
        return None;
      }
      if signerfile.Some? {
        sksigners := sksigners + [signerfile.value];
        if keyfile.None? {
          keyfile := signerfile;
        }
        skkeys := skkeys + [keyfile.value];
      }
      if sksigners == [] {
        return None;
      }
    }
    r := Some((sksigners, skkeys));
  }

  // ----- what is accepted, and what comes of it -----

  lemma {:induction false} FlattenCons(a: seq<Block>)
    requires a != []
    ensures Flatten(a) == a[0].Args() + Flatten(a[1..])
  {
  }

  lemma {:induction false} BlocksRun(st: State, blocks: seq<Block>)
    requires st.keyfile.Some? ==> st.signerfile.Some?
    ensures var r := Run(st, Flatten(blocks));
            && r.Some? && (r.value.keyfile.Some? ==> r.value.signerfile.Some?)
            && (blocks != [] ==> r.value.signerfile.Some?)
    decreases |blocks|
  {
    if blocks != [] {
      var args := blocks[0].Args();
      RunAppend(st, args, Flatten(blocks[1..]));
      if |args| == 2 {
        var st1 := Step(st, args[0]).value;
        assert args[1..] == [args[1]];
        assert Run(st1, [args[1]]) == Step(st1, args[1]) by { RunOne(st1, args[1]); }
        assert Run(st, args) == Run(st1, args[1..]);
      } else {
        RunOne(st, args[0]);
        assert args == [args[0]];
      }
      BlocksRun(Run(st, args).value, blocks[1..]);
    }
  }

  lemma RunOne(st: State, arg: Arg)
    ensures Run(st, [arg]) == Step(st, arg)
  {
    assert [arg][1..] == [];
  }

  lemma {:induction false} RunAppend(st: State, a: seq<Arg>, b: seq<Arg>)
    ensures Run(st, a + b) ==
              match Run(st, a)
              case None => None
              case Some(st') => Run(st', b)
    decreases |a|
  {
    if a == [] {
      assert a + b == b;
    } else {
      assert (a + b)[1..] == a[1..] + b;
      if Step(st, a[0]).Some? {
        RunAppend(Step(st, a[0]).value, a[1..], b);
      }
    }
  }

  lemma {:induction false} ConsBlock(b: Block, blocks: seq<Block>)
    ensures Flatten([b] + blocks) == b.Args() + Flatten(blocks)
    ensures Signers([b] + blocks) == [b.signer] + Signers(blocks)
    ensures Keys([b] + blocks) == [b.KeyFile()] + Keys(blocks)
  {
    hide Block.Args, Block.KeyFile, Flatten, Signers, Keys, GivenKeys;
    var all := [b] + blocks;
    assert all[0] == b && all[1..] == blocks;
    FlattenCons(all);
    BlocksCons(all);
    KeysCons(all);
  }

  lemma {:induction false} KeysCons(blocks: seq<Block>)
    requires blocks != []
    ensures Keys(blocks) == [blocks[0].KeyFile()] + Keys(blocks[1..])
  {
  }

  /** Grouped finds the one grouping in which no key passes over a free signer before it. */
  lemma GroupedIff(args: seq<Arg>, blocks: seq<Block>)
    ensures Grouped(args) == Some(blocks) <==> Flatten(blocks) == args && Settled(blocks)
  {
    if Flatten(blocks) == args && Settled(blocks) {
      SettledIsGrouped(blocks);
    }
    if Grouped(args) == Some(blocks) {
      GroupedIsSettled(args);
    }
  }

  lemma {:induction false} SettledIsGrouped(blocks: seq<Block>)
    requires Settled(blocks)
    ensures Grouped(Flatten(blocks)) == Some(blocks)
    decreases |blocks|
  {
    if blocks != [] {
      hide Grouped, Flatten, Block.Args;
      var b, rest := blocks[0], blocks[1..];
      assert forall i :: 0 <= i < |rest| ==> rest[i] == blocks[i + 1];
      SettledIsGrouped(rest);
      FirstArg(rest);
      if rest != [] && b.Own? {
        assert !(blocks[1].Keyed? && blocks[1].keyFirst);
        FirstIsSigner(rest[0]);
      }
      GroupedCons(b, Flatten(rest));
      FlattenCons(blocks);
      assert [b] + rest == blocks;
    } else {
      assert Flatten(blocks) == [];
    }
  }

  lemma FirstIsSigner(b: Block)
    requires !(b.Keyed? && b.keyFirst)
    ensures b.Args()[0].Signer?
  {
  }

  lemma {:induction false} GroupedCons(b: Block, more: seq<Arg>)
    requires b.Own? && more != [] ==> more[0].Signer?
    ensures Grouped(b.Args() + more) == Prefixed([b], Grouped(more))
  {
    assert (b.Args() + more)[|b.Args()|..] == more;
  }

  lemma FirstArg(blocks: seq<Block>)
    ensures blocks == [] ==> Flatten(blocks) == []
    ensures blocks != [] ==> Flatten(blocks) != [] && Flatten(blocks)[0] == blocks[0].Args()[0]
  {
  }

  lemma {:induction false} GroupedIsSettled(args: seq<Arg>)
    requires Grouped(args).Some?
    ensures Flatten(Grouped(args).value) == args && Settled(Grouped(args).value)
    decreases |args|
  {
    if args != [] {
      var n := if args[0].Signer? && (|args| == 1 || args[1].Signer?) then 1 else 2;
      var rest := args[n..];
      GroupedIsSettled(rest);
      var b, more := Grouped(args).value[0], Grouped(rest).value;
      assert Grouped(args).value == [b] + more;
      ConsBlock(b, more);
      FirstArg(more);
      assert b.Args() + rest == args;
      SettledCons(b, more);
    }
  }

  lemma SettledCons(b: Block, blocks: seq<Block>)
    requires Settled(blocks)
    requires b.Own? && blocks != [] ==> !(blocks[0].Keyed? && blocks[0].keyFirst)
    ensures Settled([b] + blocks)
  {
    var all := [b] + blocks;
    assert forall i :: 1 <= i < |all| ==> all[i] == blocks[i - 1];
  }

  /** The options read but not yet pushed. */
  function Waiting(st: State): seq<Arg> {
    match (st.signerfile, st.keyfile)
    case (None, None) => []
    case (Some(s), None) => [Signer(s)]
    case (None, Some(k)) => [InKey(k)]
    case (Some(s), Some(k)) => [Signer(s), InKey(k)]
  }

  function Flushed(st: State): State {
    if st.signerfile.Some? then Pushed(st, st.signerfile.value) else st
  }

  /** The stacks `st`, and upon them the signers and keys of the blocks. */
  ghost predicate Adds(st: State, end: State, blocks: seq<Block>) {
    && end.sksigners == st.sksigners + Signers(blocks)
    && end.skkeys == st.skkeys + Keys(blocks)
  }

  /** What the loop and the flush leave is the grouping of what waits and what is still to come. */
  lemma {:induction false} RunGroups(st: State, args: seq<Arg>)
    ensures var groups, end := Grouped(Waiting(st) + args), Run(st, args);
            && (groups.Some? <==> end.Some? && (end.value.keyfile.Some? ==> end.value.signerfile.Some?))
            && (groups.Some? ==> Adds(st, Flushed(end.value), groups.value))
    decreases |args|
  {
    if args == [] {
      WaitingGroups(st);
      assert Waiting(st) + [] == Waiting(st);
    } else {
      var arg, rest := args[0], args[1..];
      StepGroups(st, arg, rest);
      assert args == [arg] + rest;
      if Step(st, arg).Some? {
        RunGroups(Step(st, arg).value, rest);
      }
    }
  }

  lemma WaitingGroups(st: State)
    ensures var groups := Grouped(Waiting(st));
            && (groups.Some? <==> (st.keyfile.Some? ==> st.signerfile.Some?))
            && (groups.Some? ==> Adds(st, Flushed(st), groups.value))
  {
    var w := Waiting(st);
    assert |w| == 1 ==> w[1..] == [];
    assert |w| == 2 ==> w[2..] == [];
  }

  /** One option: either it waits too, or what waited is a block. */
  lemma StepGroups(st: State, arg: Arg, rest: seq<Arg>)
    ensures var groups, next := Grouped(Waiting(st) + ([arg] + rest)), Step(st, arg);
            && (next.None? ==> groups.None?)
            && (next.Some? ==>
                  && var later := Grouped(Waiting(next.value) + rest);
                  && (groups.Some? <==> later.Some?)
                  && (groups.Some? ==>
                        forall end :: Adds(next.value, end, later.value) ==> Adds(st, end, groups.value)))
  {
    var all, w := Waiting(st) + ([arg] + rest), Waiting(st);
    if st.signerfile.Some? && st.keyfile.Some? {
      assert all[2..] == [arg] + rest;
      PushedBlock(st, Keyed(st.signerfile.value, st.keyfile.value, false), Grouped([arg] + rest));
    } else if st.signerfile.Some? && arg.Signer? {
      assert all[1..] == [arg] + rest;
      PushedBlock(st, Own(st.signerfile.value), Grouped([arg] + rest));
    } else if st.keyfile.Some? && arg.Signer? {
      var turned := [arg, InKey(st.keyfile.value)] + rest;
      assert all[2..] == rest && turned[2..] == rest;
      assert Waiting(Step(st, arg).value) + rest == turned;
      SameStacks(st, Keyed(arg.file, st.keyfile.value, true), Keyed(arg.file, st.keyfile.value, false), Grouped(rest));
    } else if st.keyfile.None? {
      assert Waiting(Step(st, arg).value) + rest == all;
    }
  }

  lemma PushedBlock(st: State, b: Block, more: Option<seq<Block>>)
    requires st.signerfile.Some? && b.signer == st.signerfile.value
    requires b.KeyFile() == if st.keyfile.Some? then st.keyfile.value else b.signer
    ensures more.Some? ==>
              forall end, next: State | next.sksigners == Flushed(st).sksigners && next.skkeys == Flushed(st).skkeys ::
                Adds(next, end, more.value) ==> Adds(st, end, [b] + more.value)
  {
    if more.Some? {
      ConsBlock(b, more.value);
      Associate(st.sksigners, [b.signer], Signers(more.value));
      Associate(st.skkeys, [b.KeyFile()], Keys(more.value));
    }
  }

  lemma SameStacks(st: State, a: Block, b: Block, more: Option<seq<Block>>)
    requires a.signer == b.signer && a.KeyFile() == b.KeyFile()
    ensures more.Some? ==>
              forall end, next: State | next.sksigners == st.sksigners && next.skkeys == st.skkeys ::
                Adds(next, end, [b] + more.value) ==> Adds(st, end, [a] + more.value)
  {
    if more.Some? {
      ConsBlock(a, more.value);
      ConsBlock(b, more.value);
    }
  }

  /**
   * A command line is accepted exactly when it can be grouped into at least one
   * block, and the stacks are that grouping's.
   */
  lemma AcceptIsGrouped(args: seq<Arg>)
    ensures Accept(args).Some? <==> Grouped(args).Some? && Grouped(args).value != []
    ensures Accept(args).Some? ==>
              && Accept(args).value.sksigners == Signers(Grouped(args).value)
              && Accept(args).value.skkeys == Keys(Grouped(args).value)
  {
    hide Run, Grouped, Keys, Signers;
    RunGroups(START, args);
    assert Waiting(START) + args == args;
    if Grouped(args).Some? {
      var blocks := Grouped(args).value;
      assert [] + Signers(blocks) == Signers(blocks) && [] + Keys(blocks) == Keys(blocks);
    }
  }

  /** The machine accepts exactly the command lines made of one or more blocks. */
  lemma AcceptIffBlocks(args: seq<Arg>)
    ensures Accept(args).Some? <==> exists blocks :: blocks != [] && Flatten(blocks) == args
  {
    if Accept(args).Some? {
      AcceptIsGrouped(args);
      GroupedIsSettled(args);
    }
    if blocks :| blocks != [] && Flatten(blocks) == args {
      BlocksRun(START, blocks);
    }
  }

  lemma {:induction false} BlockArgs(blocks: seq<Block>)
    ensures SignerArgs(Flatten(blocks)) == Signers(blocks)
    ensures InKeyArgs(Flatten(blocks)) == GivenKeys(blocks)
    decreases |blocks|
  {
    if blocks != [] {
      hide SignerArgs, InKeyArgs, Block.Args, Flatten, Signers, GivenKeys;
      var b := blocks[0];
      BlockArgs(blocks[1..]);
      OneBlockArgs(b);
      FlattenCons(blocks);
      BlocksCons(blocks);
      ArgsAppend(b.Args(), Flatten(blocks[1..]));
    }
  }

  lemma {:induction false} BlocksCons(blocks: seq<Block>)
    requires blocks != []
    ensures Signers(blocks) == [blocks[0].signer] + Signers(blocks[1..])
    ensures GivenKeys(blocks) == (if blocks[0].Keyed? then [blocks[0].key] else []) + GivenKeys(blocks[1..])
  {
  }

  lemma {:induction false} OneBlockArgs(b: Block)
    ensures SignerArgs(b.Args()) == [b.signer]
    ensures InKeyArgs(b.Args()) == if b.Keyed? then [b.key] else []
  {
    var a := b.Args();
    if |a| == 2 {
      assert a[1..] == [a[1]] && a[1..][1..] == [];
      assert SignerArgs(a[1..]) == if a[1].Signer? then [a[1].file] else [];
      assert InKeyArgs(a[1..]) == if a[1].InKey? then [a[1].file] else [];
    } else {
      assert a[1..] == [];
    }
  }

  lemma {:induction false} ArgsAppend(a: seq<Arg>, b: seq<Arg>)
    ensures SignerArgs(a + b) == SignerArgs(a) + SignerArgs(b)
    ensures InKeyArgs(a + b) == InKeyArgs(a) + InKeyArgs(b)
    decreases |a|
  {
    if a == [] {
      assert a + b == b;
    } else {
      hide SignerArgs, InKeyArgs;
      var first, rest := a[0], a[1..];
      ArgsAppend(rest, b);
      ArgsCons(first, rest);
      ArgsCons(first, rest + b);
      Associate([first], rest, b);
      assert a == [first] + rest;
      Associate([first.file], SignerArgs(rest), SignerArgs(b));
      Associate([first.file], InKeyArgs(rest), InKeyArgs(b));
    }
  }

  lemma {:induction false} ArgsCons(arg: Arg, rest: seq<Arg>)
    ensures SignerArgs([arg] + rest) == if arg.Signer? then [arg.file] + SignerArgs(rest) else SignerArgs(rest)
    ensures InKeyArgs([arg] + rest) == if arg.InKey? then [arg.file] + InKeyArgs(rest) else InKeyArgs(rest)
  {
    assert ([arg] + rest)[1..] == rest;
    assert [] + SignerArgs(rest) == SignerArgs(rest) && [] + InKeyArgs(rest) == InKeyArgs(rest);
  }

  /**
   * Of an accepted command line: the signers are the -signer arguments in
   * order, every signer has a key, which is its own file or an -inkey argument,
   * and each -inkey argument is used once, in order. Which signer a key goes to
   * is fixed by the one grouping in which no key passes over a free signer
   * before it.
   */
  lemma AcceptedPairing(args: seq<Arg>) returns (blocks: seq<Block>, own: seq<bool>)
    requires Accept(args).Some?
    ensures var st := Accept(args).value;
            && st.sksigners == SignerArgs(args)
            && |st.skkeys| == |st.sksigners| == |own|
            && (forall i :: 0 <= i < |own| && own[i] ==> st.skkeys[i] == st.sksigners[i])
            && Selected(st.skkeys, own) == InKeyArgs(args)
            && st.sksigners == Signers(blocks) && st.skkeys == Keys(blocks)
    ensures Flatten(blocks) == args && Settled(blocks)
    ensures forall other :: Flatten(other) == args && Settled(other) ==> other == blocks
  {
    AcceptIsGrouped(args);
    blocks := Grouped(args).value;
    GroupedIsSettled(args);
    forall other | Flatten(other) == args && Settled(other) ensures other == blocks {
      SettledIsGrouped(other);
    }
    BlockArgs(blocks);
    own := seq(|blocks|, i requires 0 <= i < |blocks| => blocks[i].Own?);
    SelectGiven(blocks, own);
  }

  /** The entries not marked as own. */
  function Selected(keys: seq<string>, own: seq<bool>): seq<string>
    requires |keys| == |own|
  {
    if keys == [] then [] else (if own[0] then [] else [keys[0]]) + Selected(keys[1..], own[1..])
  }

  lemma {:induction false} SelectGiven(blocks: seq<Block>, own: seq<bool>)
    requires |own| == |blocks| && forall i :: 0 <= i < |blocks| ==> own[i] == blocks[i].Own?
    ensures Selected(Keys(blocks), own) == GivenKeys(blocks)
    decreases |blocks|
  {
    if blocks != [] {
      SelectGiven(blocks[1..], own[1..]);
      assert Keys(blocks)[1..] == Keys(blocks[1..]);
    }
  }
}
