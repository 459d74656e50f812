/** A command node: a named node of the command tree that owns its declared
    flags and its child commands, collects the flags selected while a token
    list is processed, and dispatches to its handlers. */
module CliNode {
  import opened Common
  import opened Flags
  import Utils
  import opened Scanning
  import opened Dispatching

  /** Where a token list is resolved: the node that runs the flag loop, the
      tokens left for it, its return mode once the mode has been passed
      down, and the nodes whose return mode the pass switches on. */
  datatype Route = Route(node: Cli, tokens: seq<string>, returnValue: bool, raised: set<Cli>)

  /** Each flag of `fs` has gained, since the previous state, the arguments
      its matches in `done` took. */
  ghost predicate Accumulated(fs: seq<Flag>, before: map<Flag, seq<string>>, done: seq<Match>)
    reads fs
  {
    forall g :: g in fs ==> g in before && g.args == before[g] + Appended(done, g)
  }

  /** What processing along route `p` does to object `o` of the tree: a node
      keeps its declared flags, children, handler and footprint, has its
      return mode switched on if the route raised it, and gains selected
      flags only if it is the resolving node; a flag gains arguments only if
      it is declared there. */
  twostate predicate Effect(p: Route, o: object)
    reads o
  {
    var s := old(ScanFrom(p.tokens, p.node.flags, 0));
    if o is Cli then
      var c := o as Cli;
      unchanged(c`flags, c`commands, c`handler, c`Repr) &&
      c.shouldReturnHandler == (old(c.shouldReturnHandler) || c in p.raised) &&
      c.options == if c == p.node then Unshifted(s.matches) + old(c.options) else old(c.options)
    else if o is Flag then
      var f := o as Flag;
      f.args == if f in old(p.node.flags) then old(f.args) + Appended(s.matches, f) else old(f.args)
    else unchanged(o)
  }

  class Cli {
    const name: string
    /** Declared flags, in registration order. */
    var flags: seq<Flag>
    /** Child commands by name. */
    var commands: map<string, Cli>
    /** Selected flags, most recently matched first. */
    var options: seq<Flag>
    var handler: Option<Handler>
    /** Whether processing returns the node handler's value instead of the node. */
    var shouldReturnHandler: bool
    /** Whether processing runs handlers at all. */
    const shouldExecuteHandlers: bool

    /** This node, its flags and its whole subtree. */
    ghost var Repr: set<object>

    /** The node owns its flags and children exclusively, so the commands
        form a tree; each child is keyed by its own name; every selected
        flag is a declared one. */
    ghost predicate Valid()
      reads this, Repr
      ensures Valid() ==> this in Repr
      decreases Repr
    {
      this in Repr && name != "" &&
      (forall f :: f in flags ==> f in Repr) &&
      (forall f :: f in options ==> f in flags) &&
      (forall k :: k in commands ==>
        commands[k] in Repr && commands[k].Repr <= Repr && this !in commands[k].Repr &&
        commands[k].name == k &&
        (forall f :: f in flags ==> f !in commands[k].Repr) &&
        commands[k].Valid()) &&
      (forall k, k' :: k in commands && k' in commands && k != k' ==> commands[k].Repr !! commands[k'].Repr)
    }

    /** A new node with nothing declared, registered or selected. The name
        is checked by `Create`, which is how the source's constructor fails. */
    constructor (name: string, shouldReturnHandler: bool, shouldExecuteHandlers: bool)
      requires name != ""
      ensures Valid() && fresh(Repr)
      ensures this.name == name && this.shouldReturnHandler == shouldReturnHandler
      ensures this.shouldExecuteHandlers == shouldExecuteHandlers
      ensures flags == [] && commands == map[] && options == [] && handler == None
    {
      this.name := name;
      flags := [];
      commands := map[];
      options := [];
      handler := None;
      this.shouldReturnHandler := shouldReturnHandler;
      this.shouldExecuteHandlers := shouldExecuteHandlers;
      Repr := {this};
    }

    /** Construction: an empty name is a type error. */
    static method Create(name: string, shouldReturnHandler: bool, shouldExecuteHandlers: bool) returns (r: Result<Cli>)
      ensures r.Err? <==> name == ""
      ensures r.Err? ==> r.error == TypeError(NameMessage)
      ensures r.Ok? ==> fresh(r.value) && r.value.Valid() && fresh(r.value.Repr) &&
                        r.value.name == name && r.value.shouldReturnHandler == shouldReturnHandler &&
                        r.value.shouldExecuteHandlers == shouldExecuteHandlers &&
                        r.value.flags == [] && r.value.commands == map[] && r.value.options == [] &&
                        r.value.handler == None
    {
      if name == "" {
        return Err(TypeError(NameMessage));
      }
      var c := new Cli(name, shouldReturnHandler, shouldExecuteHandlers);
      return Ok(c);
    }

    /** Registers a child command under its own name. A missing command is a
        type error and a name already taken is an error; neither changes
        anything. */
    method RegisterCommand(command: Cli?) returns (r: Result<Cli>)
      requires Valid()
      requires command != null ==> command.Valid() && command.Repr !! Repr
      modifies this
      ensures Valid()
      ensures flags == old(flags) && options == old(options) && handler == old(handler)
      ensures shouldReturnHandler == old(shouldReturnHandler)
      ensures command == null ==> r == Err(TypeError(CommandMessage)) && commands == old(commands) && Repr == old(Repr)
      ensures command != null && command.name in old(commands) ==>
                r == Err(Error(DuplicateMessage(command.name))) && commands == old(commands) && Repr == old(Repr)
      ensures command != null && command.name !in old(commands) ==>
                r == Ok(this) && commands == old(commands)[command.name := command] && Repr == old(Repr) + command.Repr
    {
      if command == null {
        return Err(TypeError(CommandMessage));
      }
      if command.name in commands {
        return Err(Error(DuplicateMessage(command.name)));
      }
      commands := commands[command.name := command];
      Repr := Repr + command.Repr;
      return Ok(this);
    }

    /** Declares a new flag after the existing ones. */
    method RegisterFlag(flag: string, shortFlag: string, description: string, handler: Option<Handler>) returns (r: Cli)
      requires Valid()
      modifies this
      ensures Valid() && r == this
      ensures |flags| == |old(flags)| + 1 && flags[..|old(flags)|] == old(flags)
      ensures fresh(flags[|old(flags)|]) && Repr == old(Repr) + {flags[|old(flags)|]}
      ensures flags[|old(flags)|].flag == flag && flags[|old(flags)|].shortFlag == shortFlag
      ensures flags[|old(flags)|].description == description && flags[|old(flags)|].handler == handler
      ensures flags[|old(flags)|].args == []
      ensures commands == old(commands) && options == old(options) && this.handler == old(this.handler)
      ensures shouldReturnHandler == old(shouldReturnHandler)
    {
      var f := new Flag(flag, shortFlag, description, handler);
      flags := flags + [f];
      Repr := Repr + {f};
      return this;
    }

    /** Sets (or, with `None`, clears) the node handler. */
    method RegisterHandler(handler: Option<Handler>) returns (r: Cli)
      requires Valid()
      modifies this`handler
      ensures Valid() && r == this && this.handler == handler
    {
      this.handler := handler;
      return this;
    }

    /** The child registered under `cmd`, if any. */
    function FindCommand(cmd: string): (r: Option<Cli>)
      requires Valid()
      reads this, Repr
      ensures r.Some? <==> cmd in commands
      ensures r.Some? ==> r.value == commands[cmd] && r.value.name == cmd && r.value.Valid()
    {
      if cmd in commands then Some(commands[cmd]) else None
    }

    /** The node's own long-or-short lookup agrees with the one in Utils. */
    function FindFlag(arg: string): (r: Utils.Lookup)
      reads this
      ensures r == Utils.FindFlag(arg, flags)
    {
      if !(|arg| >= 2 && arg[..2] == "--") then FindShortFlag(arg)
      else if |arg| < 3 then Utils.Null
      else Utils.Find(flags, Utils.Long(arg[2..]))
    }

    /** The node's own short-form lookup agrees with the one in Utils. */
    function FindShortFlag(arg: string): (r: Utils.Lookup)
      reads this
      ensures r == Utils.FindShortFlag(arg, flags)
    {
      if !(|arg| >= 1 && arg[..1] == "-") then Utils.Undefined
      else if |arg| != 2 then Utils.Undefined
      else Utils.Find(flags, Utils.Short(arg[1]))
    }

    /** The first token names a child command. */
    predicate Delegates(args: seq<string>)
      reads this
    {
      |args| > 0 && args[0] in commands
    }

    /** The resolving node is a valid node of this tree, and everything it
        owns is owned here. */
    lemma {:induction false} ResolveOwned(args: seq<string>, returnValue: bool)
      requires Valid()
      ensures var p := Resolve(args, returnValue);
              p.node.Valid() && p.node.Repr <= Repr && forall f :: f in p.node.flags ==> f in Repr
      decreases Repr
    {
      if Delegates(args) {
        commands[args[0]].ResolveOwned(args[1..], returnValue || shouldReturnHandler);
      }
    }

    /** Where `ProcessArgs(args, returnValue)` resolves, read off the current
        tree. The return mode only ever becomes true on the way down. */
    ghost function Resolve(args: seq<string>, returnValue: bool): (p: Route)
      requires Valid()
      reads Repr
      ensures p.node in Repr
      ensures p.raised <= Repr
      ensures Delegates(args) ==> p.node != this
      ensures !Delegates(args) ==> p.node == this && p.tokens == args
      ensures (returnValue || shouldReturnHandler) ==> p.returnValue
      ensures returnValue <==> this in p.raised
      decreases Repr
    {
      var mode := returnValue || shouldReturnHandler;
      var here: set<Cli> := if returnValue then {this} else {};
      if Delegates(args) then
        var p := commands[args[0]].Resolve(args[1..], mode);
        p.(raised := here + p.raised)
      else Route(this, args, mode, here)
    }

    /** What `ProcessArgs(args, returnValue)` yields, read off the current tree:
        an invalid-flag error naming the first token that denotes no flag,
        or the dispatch of the resolving node on its selected flags, the
        new matches in reverse order in front of those it already held. */
    ghost function Processed(args: seq<string>, returnValue: bool): Outcome<Cli>
      requires Valid()
      reads Repr
    {
      var p := Resolve(args, returnValue);
      var s := ScanFrom(p.tokens, p.node.flags, 0);
      if s.invalid.Some? then Thrown(Error(InvalidFlagMessage(s.invalid.value)))
      else Dispatch(p.node, p.node.handler, p.node.shouldExecuteHandlers, p.returnValue,
                    Unshifted(s.matches) + p.node.options)
    }

    /** Processing in the child registered under `k` keeps the node valid:
        that child stays valid on the same footprint, and nothing else below
        this node changes. */
    twostate lemma DelegationKeepsValid(new k: string)
      requires old(Valid()) && k in old(commands)
      requires unchanged(this`flags, this`commands, this`options, this`Repr)
      requires commands[k].Valid() && commands[k].Repr == old(commands[k].Repr)
      requires forall o :: o in old(Repr) && o != this && o !in old(commands[k].Repr) ==> unchanged(o)
      ensures Valid()
    {
      forall k' | k' in commands && k' != k ensures commands[k'].Valid() {
        var c := commands[k'];
        assert forall o :: o in c.Repr ==> o in old(Repr) && o != this && o !in old(commands[k].Repr);
      }
    }

    /** Selecting flags keeps the node valid: only the selection of this node
        and the arguments of its own flags change, and the selection stays
        within the declared flags. */
    twostate lemma SelectionKeepsValid()
      requires old(Valid())
      requires unchanged(this`flags, this`commands, this`Repr)
      requires forall o :: o in old(Repr) && o != this && o !in old(flags) ==> unchanged(o)
      requires forall f :: f in options ==> f in flags
      ensures Valid()
    {
      forall k | k in commands ensures commands[k].Valid() {
        var c := commands[k];
        assert forall o :: o in c.Repr ==> o in old(Repr) && o != this && o !in old(flags);
      }
    }

    /** The argument loop for flag `f` matched at `args[i]`: appends to
        `f`'s arguments every takeable token after it and returns the index
        of the last token it took (`i` when it took none). */
    static method TakeArgs(f: Flag, args: seq<string>, i: nat) returns (last: nat)
      requires i < |args|
      modifies f`args
      ensures i <= last < |args| && last + 1 == SlurpEnd(args, i + 1)
      ensures f.args == old(f.args) + args[i + 1..last + 1]
    {
      last := i;
      while last + 1 < |args| && args[last + 1] != "" && args[last + 1][0] != '-'
        invariant i <= last < |args|
        invariant forall m :: i + 1 <= m <= last ==> Slurpable(args[m])
        invariant f.args == old(f.args) + args[i + 1..last + 1]
      {
        last := last + 1;
        f.AddArg(args[last]);
      }
      SlurpEndUnique(args, i + 1, last + 1);
    }

    /** The flag loop: selects a flag for each token in flag position and
        gives it the takeable tokens after it, stopping at the first token
        that denotes no flag, which it returns. */
    method SelectFlags(args: seq<string>) returns (invalid: Option<string>)
      requires Valid()
      modifies this`options, flags
      ensures Valid()
      ensures var s := ScanFrom(args, flags, 0);
              invalid == s.invalid &&
              options == Unshifted(s.matches) + old(options) &&
              forall f :: f in flags ==> f.args == old(f.args) + Appended(s.matches, f)
    {
      var selected;
      selected, invalid := MatchFlags(flags, args);
      options := selected + options;
      SelectionKeepsValid();
    }

    /** The loop of `SelectFlags` over the declared flags `flags`, looking
        each token up as `FindFlag` does: returns the flags it selected, most
        recent first, and the token that stopped it, if any. */
    static method MatchFlags(flags: seq<Flag>, args: seq<string>) returns (selected: seq<Flag>, invalid: Option<string>)
      modifies flags
      ensures var s := ScanFrom(args, flags, 0);
              invalid == s.invalid && selected == Unshifted(s.matches) &&
              (forall f :: f in selected ==> f in flags) &&
              forall f :: f in flags ==> f.args == old(f.args) + Appended(s.matches, f)
    {
      var i := 0;
      selected := [];
      ghost var done: seq<Match> := [];
      ghost var total := ScanFrom(args, flags, 0);
      ghost var before: map<Flag, seq<string>> := map g: Flag | g in flags :: g.args;
      invalid := None;
      assert total.matches == done + ScanFrom(args, flags, i).matches by {
        assert done + total.matches == total.matches;
      }
      while i < |args|
        invariant 0 <= i <= |args|
        invariant total.matches == done + ScanFrom(args, flags, i).matches && total.invalid == ScanFrom(args, flags, i).invalid
        invariant selected == Unshifted(done) && forall f :: f in selected ==> f in flags
        invariant Accumulated(flags, before, done)
        invariant invalid == None
      {
        var action := Utils.FindFlag(args[i], flags);
        if !action.Found? {
          invalid := Some(args[i]);
          break;
        }
        var f := action.flag;
        var start := i;
        ghost var m;
        i, m := TakeMatch(f, args, i, flags, before, done);
        ScanAdvance(args, flags, start, i + 1, m, done, total);
        UnshiftedSnoc(done, m);
        selected := [f] + selected;
        done := done + [m];
        i := i + 1;
      }
      assert total.matches == done && total.invalid == invalid by {
        assert done + [] == done;
      }
      forall g | g in flags ensures g.args == old(g.args) + Appended(total.matches, g) {
        assert before[g] == old(g.args);
      }
    }

    /** One round of the flag loop: `f` takes the takeable tokens after
        `args[i]`, which the match `m` records. */
    static method TakeMatch(f: Flag, args: seq<string>, i: nat, ghost fs: seq<Flag>, ghost before: map<Flag, seq<string>>, ghost done: seq<Match>)
        returns (last: nat, ghost m: Match)
      requires i < |args| && f in fs && Accumulated(fs, before, done)
      modifies f`args
      ensures i <= last < |args| && last + 1 == SlurpEnd(args, i + 1)
      ensures m == Match(args[i], f, args[i + 1..last + 1]) && Accumulated(fs, before, done + [m])
    {
      last := TakeArgs(f, args, i);
      m := Match(args[i], f, args[i + 1..last + 1]);
      forall g | g in fs ensures g in before && g.args == before[g] + Appended(done + [m], g) {
        AppendedSnoc(done, m, g);
      }
    }

    /** Processing at this node along route `p`, whose scan is `s`, affects
        only its selection, the arguments of its flags and its return mode. */
    twostate lemma LocalEffect(new p: Route, new s: Scan)
      requires old(allocated(p)) && old(Valid()) && p.node == this && p.raised <= {this}
      requires s == ScanFrom(p.tokens, old(flags), 0)
      requires unchanged(this`flags, this`commands, this`handler, this`Repr)
      requires shouldReturnHandler == (old(shouldReturnHandler) || this in p.raised)
      requires options == Unshifted(s.matches) + old(options)
      requires forall f :: f in flags ==> f.args == old(f.args) + Appended(s.matches, f)
      requires forall o :: o in old(Repr) && o != this && o !in old(flags) ==> unchanged(o)
      ensures forall o :: o in old(Repr) ==> Effect(p, o)
    {
      forall o | o in old(Repr) ensures Effect(p, o) {
        if o != this && o !in old(flags) {
          assert unchanged(o);
        }
      }
    }

    /** Switching the return mode on as processing asks changes neither the
        route nor the outcome. */
    twostate lemma RaisePreserves(new args: seq<string>, new returnValue: bool)
      requires old(Valid())
      requires unchanged(this`flags, this`commands, this`options, this`handler, this`Repr)
      requires shouldReturnHandler == (old(shouldReturnHandler) || returnValue)
      requires forall o :: o in old(Repr) && o != this ==> unchanged(o)
      ensures Valid()
      ensures Resolve(args, returnValue) == old(Resolve(args, returnValue))
      ensures Processed(args, returnValue) == old(Processed(args, returnValue))
    {
      SelectionKeepsValid();
    }

    /** A token list that names a child resolves where the rest resolves in
        that child, in the return mode this node passes down. */
    lemma DelegationRoute(args: seq<string>, returnValue: bool)
      requires Valid() && Delegates(args)
      ensures var q := commands[args[0]].Resolve(args[1..], returnValue || shouldReturnHandler);
              Resolve(args, returnValue) == q.(raised := (if returnValue then {this} else {}) + q.raised) &&
              Processed(args, returnValue) == commands[args[0]].Processed(args[1..], returnValue || shouldReturnHandler)
    {
    }

    /** A token list that names no child resolves at this node. */
    lemma LocalRoute(args: seq<string>, returnValue: bool)
      requires Valid() && !Delegates(args) && (returnValue ==> shouldReturnHandler)
      ensures Resolve(args, returnValue) == Route(this, args, shouldReturnHandler, if returnValue then {this} else {})
      ensures Processed(args, returnValue) == Processed(args, false)
    {
    }

    /** Processing at the node the tokens resolve to: the flag loop, then
        the dispatch on the selected flags in the node's current return mode. */
    method SelectAndDispatch(args: seq<string>) returns (r: Outcome<Cli>)
      requires Valid() && !Delegates(args)
      modifies this`options, flags
      ensures Valid()
      ensures r == old(Processed(args, false))
      ensures var s := old(ScanFrom(args, flags, 0));
              options == Unshifted(s.matches) + old(options) &&
              forall f :: f in flags ==> f.args == old(f.args) + Appended(s.matches, f)
    {
      var invalid := SelectFlags(args);
      if invalid.Some? {
        return Thrown(Error(InvalidFlagMessage(invalid.value)));
      }
      r := Dispatch(this, handler, shouldExecuteHandlers, shouldReturnHandler, options);
    }

    /** Processes a token list. If the first token names a child command, the
        child processes the rest, in return mode if this node is or was asked
        to be; otherwise this node selects flags and dispatches. Either way
        the result and every change are those of the resolving node, read
        off the tree before the call. */
    method ProcessArgs(args: seq<string>, returnValue: bool) returns (r: Outcome<Cli>)
      requires Valid()
      modifies Repr
      ensures Valid() && Repr == old(Repr)
      ensures r == old(Processed(args, returnValue))
      ensures forall o :: o in old(Repr) ==> Effect(old(Resolve(args, returnValue)), o)
      decreases |args|, 1
    {
      ghost var p := Resolve(args, returnValue);
      if returnValue {
        shouldReturnHandler := returnValue;
      }
      RaisePreserves(args, returnValue);
      label Raised:
      r := Proceed(args, returnValue);
      forall o | o in old(Repr) ensures Effect(p, o) {
        assert Effect@Raised(p, o);
      }
    }

    /** The rest of `ProcessArgs` once the return mode is set: delegation to
        the child the first token names, or the flag loop and dispatch here. */
    method Proceed(args: seq<string>, returnValue: bool) returns (r: Outcome<Cli>)
      requires Valid() && (returnValue ==> shouldReturnHandler)
      modifies Repr
      ensures Valid() && Repr == old(Repr)
      ensures r == old(Processed(args, returnValue))
      ensures forall o :: o in old(Repr) ==> Effect(old(Resolve(args, returnValue)), o)
      decreases |args|, 0
    {
      ghost var p := Resolve(args, returnValue);
      var command := if |args| > 0 then FindCommand(args[0]) else None;
      if command.Some? {
        var child := command.value;
        DelegationRoute(args, returnValue);
        child.ResolveOwned(args[1..], shouldReturnHandler);
        r := child.ProcessArgs(args[1..], shouldReturnHandler);
        DelegationKeepsValid(args[0]);
        forall o | o in old(Repr) ensures Effect(p, o) {
          if o != this && o !in child.Repr {
            assert unchanged(o);
          }
        }
        return;
      }
      LocalRoute(args, returnValue);
      ghost var s := ScanFrom(args, flags, 0);
      r := SelectAndDispatch(args);
      LocalEffect(p, s);
    }
  }
}
