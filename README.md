# Command-line resolution of `crossview-software/cli`

This project models the core of a small TypeScript library for command-line
interfaces. A `Cli` node has a name, declared flags, child commands and an
optional handler. `processArgs` resolves a token list against a tree of such
nodes:

- a first token that names a child hands the rest of the list to that child,
  passing the return mode down;
- otherwise every token in flag position must denote a declared flag, in long
  (`--name`) or short (`-n`) form, or processing throws `Invalid flag: <token>`;
- each matched flag greedily takes the following tokens as its arguments,
  up to the end of the list, an empty token or a token starting with `-`;
- each matched flag is put in front of the node's selected flags (`options`),
  and the node then dispatches to its handlers.

The Dafny modules follow the source files:

- `common.dfy` holds the shared datatypes: `Option`, `Result`, handlers as
  opaque identifiers, and the thrown errors with their messages.
- `flag.dfy` is `src/Flag.ts`: a `Flag` class whose `args` field grows in place.
- `utils.dfy` is `src/utils.ts`: the pure flag lookups by long and short form.
- `scan.dfy` is a specification of the flag loop of `processArgs`.
  `ScanFrom` says what the loop computes. `Parses` is an independent grammar of
  a correct scan. Lemmas relate the two, and relate the resulting `options`
  and flag arguments to the matches.
- `dispatch.dfy` is the dispatch policy at the end of `processArgs`, as a
  function from the node's mode bits, its handler and its selected flags to
  the outcome and the handler calls made.
- `cli.dfy` is `src/Cli.ts`: the `Cli` class with its fields, a `Valid()` tree
  invariant and a `Repr` footprint.
  - `ProcessArgs` is imperative. It sets the return mode, delegates
    recursively, runs the flag loop with its nested argument loop, and updates
    `options` and the flags' `args` in place.
  - `ProcessArgs` is proved against two ghost functions. `Resolve` says where
    a token list resolves and which nodes have their return mode switched on.
    `Processed` says what the call yields.
  - The twostate predicate `Effect` states, object by object, what the call
    changes and what it leaves alone.

Handlers are opaque identifiers. An outcome records which handlers were
invoked and on what (`Dispatching.Call`); what a handler computes is not
modelled. A node handler called in return mode yields `HandlerValue(call)`,
which stands for the value that handler returns.

The flag loop looks tokens up with `Utils.FindFlag` on the node's flags.
`Cli.FindFlag` is proved equal to that lookup.

## Model

| member | source | states |
|---|---|---|
| Flags.Flag.constructor | src/Flag.ts:9-20 | stores long name, short name, description and handler as given; `args` starts empty |
| Flags.Flag.AddArg | src/Flag.ts:22-24 | `args` becomes the old `args` with the argument appended; nothing else of the flag changes |
| Utils.Find | src/utils.ts:15 | `Array.find`: yields the first flag in list order with the key, and `undefined` exactly when no flag has it |
| Utils.FindShortFlag | src/utils.ts:21-31 | never `null`; `undefined` for any token that is not a dash followed by exactly one character; a found flag is in the list and its short name is the token's second character |
| Utils.FindShortFlagFirst | src/utils.ts:26-30 | the short lookup yields the first flag in list order that the token names, and `undefined` exactly when it names none |
| Utils.FindFlag | src/utils.ts:6-16 | `null` exactly for the token `--`; `undefined` for a token not starting with `-`, including the empty token; a found flag is in the list and is denoted by the token (long form after `--`, short form otherwise) |
| Utils.FindFlagFirst | src/utils.ts:6-16 | the lookup yields the first flag in list order the token denotes, and `undefined` exactly when the token is not `--` and denotes none |
| Utils.LongFormComplete | src/utils.ts:15 | every declared flag with a non-empty name is found by `--<name>`, and what is found carries that name |
| Utils.ShortFormComplete | src/utils.ts:30 | every declared flag whose short name is one character other than `-` is found by `-<c>`, and what is found carries that short name |
| Scanning.SlurpEnd | src/Cli.ts:52-54 | the argument loop's stopping point: every token before it is non-empty and does not start with `-`, and the token at it (if any) is empty or starts with `-` |
| Scanning.SlurpEndUnique | src/Cli.ts:52-54 | that stopping point is the only index with this property |
| Scanning.ScanFrom | src/Cli.ts:46-57 | every match names a declared flag; an invalid token is one of the scanned tokens and denotes no declared flag |
| Scanning.ScanParses | src/Cli.ts:46-57 | the loop's scan is a correct scan: each match sits at its token, denotes its flag, takes exactly the maximal run of takeable tokens after it, and the scan stops exactly at the first token in flag position that denotes no flag; a token taken as an argument is never looked up |
| Scanning.ParsesUnique | src/Cli.ts:46-57 | a correct scan is unique: any scan satisfying the grammar is the loop's |
| Scanning.ParsesConsumesAll | src/Cli.ts:46-57 | every token is consumed exactly once: a complete scan accounts for all tokens in order, and a failed one for a prefix ending at the invalid token, after which nothing is processed |
| Scanning.AppendedConcat | src/Flag.ts:22-24 | the arguments a flag collects over two runs of matches are those of the first run followed by those of the second |
| Scanning.AppendedUnmatched | src/Cli.ts:52-54 | a flag that was never matched gains no arguments |
| Scanning.AppendedSlurpable | src/Cli.ts:52-54 | every argument a flag gains is non-empty and does not start with `-` |
| Scanning.UnshiftedAt | src/Cli.ts:56 | the selection the loop builds is the match order reversed: position `k` holds the flag of the `k`-th most recent match |
| Scanning.UnshiftedMultiset | src/Cli.ts:56 | the selection holds each matched flag as often as it was matched, so a flag matched twice is selected twice |
| Dispatching.FlagCalls | src/Cli.ts:65-69 | the calls made without a node handler are flag calls on selected flags, each with that flag's own handler |
| Dispatching.FlagCallsComplete | src/Cli.ts:65-69 | every selected flag that has a handler gets it called |
| Dispatching.FlagCallsOrdered | src/Cli.ts:65-69 | flag handlers are called in the order of the selected flags |
| Dispatching.FlagCallsSingle | src/Cli.ts:65-69 | one selected flag contributes exactly its own handler's call, or nothing; with `FlagCallsConcat` this determines the whole call list |
| Dispatching.FlagCallsConcat | src/Cli.ts:65-69 | the calls for two runs of selected flags are those of the first run followed by those of the second |
| Dispatching.FlagCallsCount | src/Cli.ts:65-69 | the call list is exactly one call per selected flag that has a handler, in selection order: no flag is called twice or out of order |
| Dispatching.FlagCallsSkipUnhandled | src/Cli.ts:65-69 | flags without handlers contribute no calls |
| Dispatching.Dispatch | src/Cli.ts:59-74 | never throws; with execution off nothing is called; with execution on, a node handler is the only handler called, once, on the selected flags, and its value is the result exactly when return mode is on; without a node handler the flag handlers run in selection order; otherwise the node is the result |
| CliNode.Cli.constructor | src/Cli.ts:17-27 | a new valid node with the given name and mode bits, no flags, no children, no selection and no handler |
| CliNode.Cli.Create | src/Cli.ts:17-20 | construction fails with the TypeError exactly when the name is empty |
| CliNode.Cli.RegisterCommand | src/Cli.ts:80-90 | a missing command is a TypeError and a taken name is `Command <name> has already been defined`, both leaving `commands` unchanged; otherwise `commands` gains exactly that name mapped to the command, and the node is returned |
| CliNode.Cli.RegisterFlag | src/Cli.ts:95-103 | appends exactly one new flag with the given fields and no arguments at the end of `flags`; earlier flags, children, selection and handler are unchanged |
| CliNode.Cli.RegisterHandler | src/Cli.ts:105-108 | sets the node handler and returns the node |
| CliNode.Cli.FindCommand | src/Cli.ts:115-117 | finds a child exactly when the name is registered, and the child is the one registered under it |
| CliNode.Cli.FindFlag | src/Cli.ts:122-132 | the node's lookup agrees with `Utils.FindFlag` on the node's flags |
| CliNode.Cli.FindShortFlag | src/Cli.ts:137-147 | the node's short lookup agrees with `Utils.FindShortFlag` on the node's flags |
| CliNode.Cli.Resolve | src/Cli.ts:37-44 | a token list naming a child resolves below this node; otherwise it resolves here on the whole list; the return mode passed down is on whenever it was asked for or already on |
| CliNode.Cli.DelegationRoute | src/Cli.ts:41-44 | when the first token names a child, the route and the outcome are those of the child on the remaining tokens, in the return mode this node passes down |
| CliNode.Cli.LocalRoute | src/Cli.ts:37-39 | when no child is named, processing resolves at this node in its own return mode |
| CliNode.Cli.RaisePreserves | src/Cli.ts:37-39 | switching the return mode on as asked changes neither the route nor the outcome |
| CliNode.Cli.TakeArgs | src/Cli.ts:52-54 | the argument loop appends to the flag exactly the maximal run of takeable tokens after the flag token and stops where `SlurpEnd` says |
| CliNode.Cli.MatchFlags | src/Cli.ts:46-57 | the flag loop's result is the scan's: the same invalid token, the matched flags in reverse match order, and each declared flag's arguments extended by exactly what its matches took |
| CliNode.Cli.SelectFlags | src/Cli.ts:46-57 | the selection becomes the matched flags in reverse match order in front of the old selection, which is never cleared, and each declared flag gains its matches' arguments; the node stays valid |
| CliNode.Cli.SelectAndDispatch | src/Cli.ts:46-74 | the result is `Invalid flag: <token>` for the first token in flag position that denotes no flag, and otherwise the dispatch on the new selection |
| CliNode.Cli.ProcessArgs | src/Cli.ts:32-75 | the result is the outcome at the node the tokens resolve to; only that node's selection and its flags' arguments change, return mode is only ever switched on, never off, and every other node and flag is unchanged, so a delegating parent keeps its selection |
| CliNode.Cli.Proceed | src/Cli.ts:41-74 | the same as `ProcessArgs` once the return mode is set: delegation to the named child, or the flag loop and dispatch here |

## Left out

- Defaulting to `process.argv.slice(2)` when no token list is given (src/Cli.ts:33-35) reads process state. The model always takes an explicit list.
- `help()` is an empty stub (src/Cli.ts:149). The branch that calls it with execution off (src/Cli.ts:71-73) therefore behaves as "return the node", and that is how it is modelled.
- What handlers compute. They are opaque identifiers. A node handler's return value in return mode is represented by the call that produced it.
- JavaScript object quirks of `commands` are not modelled; it is a plain map. In the source, `findCommand(args[0])` on an empty list looks up the key `"undefined"`, and prototype keys such as `"constructor"` are found as well.
- Falsy values other than a missing one are not modelled. `registerCommand` checks only for `null`, and a handler is either present or absent.
- CliNode.Cli.RegisterCommand: requires the new child to be a valid node disjoint from this tree. The source accepts any object, including one already in the tree, which would make the command graph cyclic or shared.
- Utils.FindShortFlag: lengths and indices are counted in Unicode code points, not UTF-16 code units. For a short name outside the Basic Multilingual Plane, such as an emoji, the source sees a token of length 3 and finds nothing, where the model finds the flag.
- Utils.ShortFormComplete: its completeness holds for short names of one code point. The source has it only for names of one UTF-16 unit, because it counts lengths in UTF-16 units.
- Utils.FindFlag: it inherits the short-form difference, and so do `CliNode.Cli.FindShortFlag`, `CliNode.Cli.FindFlag`, the scan and `ProcessArgs`. The long form is unaffected: the `--` prefix is two units in either count, and two names are equal as code points exactly when they are equal as UTF-16 units.
- CliNode.Cli.RegisterCommand: a command must be complete before it is registered. Registration updates only the receiver's footprint, not its ancestors' footprints. Adding a flag or a command to a node after it is registered under a parent therefore leaves the parent outside `Valid()`, and the parent can no longer be processed. The source allows any build order.
- CliNode.Cli.RegisterFlag: for the same reason, it keeps only the receiver valid. Declaring a flag on a node that is already a registered child breaks its ancestors' `Valid()`.
- The declared fields of a flag (`flag`, `shortFlag`, `description`, `handler`) and a node's `name` and `shouldExecuteHandlers` are constants here. The source never reassigns them, but they are public mutable fields.
- CliNode.Cli.SelectFlags: the source puts each matched flag in front of `options` as soon as it is matched. The model collects the matched flags in a local list and puts them in front when the loop ends. Nothing reads `options` during the loop, so the final state is the same. This holds even when the loop stops at an invalid token, because the flags matched before it stay selected.
- The unused `argsTaken` field of `Flag` is not modelled.
- `src/Command.ts` is not part of this model. It only forwards to a foreign handler.
