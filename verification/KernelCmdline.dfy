/** `addupgradebootentry.py`: the kernel arguments of the upgrade boot entry, the strings
  * handed to grubby, and what is requested to be taken off the target kernel again.
  */
module KernelCmdline {
  import opened Wrappers
  import opened Seqs
  import opened Strings
  import opened Ordering
  import opened ArgOrder

  // ---------------------------------------------------------------- arguments

  /** The value of an argument in a set handed to the printer: none, a string, or a tuple. */
  datatype Value = NoValue | Text(text: string) | Many(values: seq<string>)

  type Arg = (string, Value)

  function Lift(p: Pair): Arg {
    (p.0, if p.1.None? then NoValue else Text(p.1.value))
  }

  function PairsOf(key: string, values: seq<string>): seq<Pair> {
    if values == [] then [] else [(key, Some(values[0]))] + PairsOf(key, values[1..])
  }

  /** `flatten_arguments` */
  function FlattenOne(a: Arg): seq<Pair> {
    match a.1
    case NoValue => [(a.0, None)]
    case Text(v) => [(a.0, Some(v))]
    case Many(vs) => PairsOf(a.0, vs)
  }

  function Flatten(args: seq<Arg>): seq<Pair> {
    if args == [] then [] else FlattenOne(args[0]) + Flatten(args[1..])
  }

  // ---------------------------------------------------------------- the printer

  /** `fmt_single_arg`: an empty string counts as no value. */
  function Print(p: Pair): string {
    if p.1.None? || p.1.value == "" then p.0 else p.0 + "=" + p.1.value
  }

  function PrintAll(ps: seq<Pair>): seq<string> {
    if ps == [] then [] else [Print(ps[0])] + PrintAll(ps[1..])
  }

  /** `format_grubby_args_from_args_set`, for the arguments in some iteration order; `None` is the
    * `TypeError` of a comparison that `sorted` makes.
    */
  function Format(args: seq<Arg>): Option<string> {
    var sorted := TrySort(Flatten(args));
    if sorted.None? then None else Some(Join(PrintAll(sorted.value), " "))
  }

  /** It raises exactly if some key is there with and without a value. */
  lemma FormatRaisesIff(args: seq<Arg>)
    ensures Format(args).None? <==> Mixed(Flatten(args))
    ensures Format(args).Some? ==> Format(args).value == Join(PrintAll(Sort(Flatten(args), PairLeq)), " ")
  {
    hide Mixed, Sort, TrySort, PairLeq, Flatten;
    TrySortRaisesIffMixed(Flatten(args));
  }

  /** The line, and whether there is one, does not depend on how `sorted` goes about it. */
  lemma FormatOfEverySorter(args: seq<Arg>, sorter: Sorter)
    requires Sorts(sorter, |Flatten(args)|)
    ensures var order := OrderFor(sorter, Flatten(args));
            Format(args) == if order.None? then None else Some(Join(PrintAll(Pick(Flatten(args), order.value)), " "))
  {
    hide Mixed, Sort, TrySort, PairLeq, Flatten, Sorts, OrderFor, Pick;
    TrySortRaisesIffMixed(Flatten(args));
    EverySorterRaisesIffMixed(sorter, Flatten(args));
  }

  /** The printed line, and whether printing raises, depend only on which single arguments
    * there are and how often, not on the order or grouping in which they were given.
    */
  lemma FormatIsCanonical(a: seq<Arg>, b: seq<Arg>)
    requires multiset(Flatten(a)) == multiset(Flatten(b))
    ensures Format(a) == Format(b)
  {
    hide Leq, PairLeq, Mixed, Flatten, Sort, PrintAll, Join, Format;
    FormatRaisesIff(a);
    FormatRaisesIff(b);
    var fa, fb := Flatten(a), Flatten(b);
    MixedOfMembers(fa, fb);
    MixedOfMembers(fb, fa);
    PairLeqTotalOrder();
    SortSorts(fa, PairLeq);
    SortSorts(fb, PairLeq);
    forall x, y | PairLeq(x, y) && PairLeq(y, x) ensures x == y { PairLeqAntisymmetric(x, y); }
    SortedUnique(Sort(fa, PairLeq), Sort(fb, PairLeq), PairLeq);
  }

  // ---------------------------------------------------------------- reading a line back

  /** An argument that survives being printed: spaces separate arguments and the first '='
    * separates key and value.
    */
  predicate Printable(p: Pair) {
    && p.0 != "" && ' ' !in p.0 && '=' !in p.0
    && (p.1.Some? ==> p.1.value != "" && ' ' !in p.1.value)
  }

  ghost predicate AllPrintable(ps: seq<Pair>) {
    forall i :: 0 <= i < |ps| ==> Printable(ps[i])
  }

  function ReadOne(piece: string): Pair {
    var parts := Split(piece, '=');
    if |parts| == 1 then (piece, None) else (parts[0], Some(Join(parts[1..], "=")))
  }

  function ReadAll(pieces: seq<string>): seq<Pair> {
    if pieces == [] then [] else [ReadOne(pieces[0])] + ReadAll(pieces[1..])
  }

  function ReadLine(line: string): seq<Pair> {
    if line == "" then [] else ReadAll(Split(line, ' '))
  }

  lemma ReadOnePrinted(p: Pair)
    requires Printable(p)
    ensures ReadOne(Print(p)) == p && ' ' !in Print(p) && Print(p) != ""
  {
    if p.1.None? {
      SplitOfFree(p.0, '=');
    } else {
      var v := p.1.value;
      SplitAppend(p.0, v, '=');
      SplitOfFree(p.0, '=');
      TailOfCons(p.0, Split(v, '='));
      JoinSplit(v, '=');
    }
  }

  lemma {:induction false} ReadAllPrinted(ps: seq<Pair>)
    requires AllPrintable(ps)
    ensures ReadAll(PrintAll(ps)) == ps && Free(PrintAll(ps), ' ') && |PrintAll(ps)| == |ps|
    ensures ps != [] ==> Join(PrintAll(ps), " ") != ""
  {
    if ps != [] {
      HeadTail(ps);
      ReadOnePrinted(ps[0]);
      ReadAllPrinted(ps[1..]);
      TailOfCons(Print(ps[0]), PrintAll(ps[1..]));
    }
  }

  lemma ReadPrinted(ps: seq<Pair>)
    requires AllPrintable(ps)
    ensures ReadLine(Join(PrintAll(ps), " ")) == ps
  {
    hide Print;
    ReadAllPrinted(ps);
    if ps != [] { SplitJoin(PrintAll(ps), ' '); }
  }

  /** Splitting the printed line recovers the single arguments, in sorted order. */
  lemma FormatRoundTrip(args: seq<Arg>)
    requires AllPrintable(Flatten(args)) && !Mixed(Flatten(args))
    ensures Format(args).Some? && ReadLine(Format(args).value) == Sort(Flatten(args), PairLeq)
    ensures multiset(ReadLine(Format(args).value)) == multiset(Flatten(args))
  {
    hide PairLeq, Print, Format, Mixed, Printable, ReadLine, Sort;
    var flat := Flatten(args);
    var sorted := Sort(flat, PairLeq);
    FormatRaisesIff(args);
    PairLeqTotalOrder();
    SortSorts(flat, PairLeq);
    forall i | 0 <= i < |sorted| ensures Printable(sorted[i]) { assert sorted[i] in flat; }
    ReadPrinted(sorted);
  }

  // ---------------------------------------------------------------- collecting the arguments

  /** `dict.update` with (key, value) pairs in some order: the last one of a key stays. */
  function Update(args: map<string, Option<string>>, pairs: seq<Pair>): map<string, Option<string>>
    decreases |pairs|
  {
    if pairs == [] then args else Update(args[pairs[0].0 := pairs[0].1], pairs[1..])
  }

  ghost predicate Mentioned(key: string, pairs: seq<Pair>) {
    exists i :: 0 <= i < |pairs| && pairs[i].0 == key
  }

  lemma MentionedStep(key: string, pairs: seq<Pair>)
    requires pairs != []
    ensures Mentioned(key, pairs) <==> key == pairs[0].0 || Mentioned(key, pairs[1..])
  {
    if i :| 0 <= i < |pairs| && pairs[i].0 == key {
      if i > 0 { assert pairs[1..][i - 1] == pairs[i]; }
    }
    if i :| 0 <= i < |pairs[1..]| && pairs[1..][i].0 == key {
      assert pairs[i + 1] == pairs[1..][i];
    }
  }

  function Defaults(debug: bool, network: bool): map<string, Option<string>> {
    map["enforcing" := Some("0"), "rd.plymouth" := Some("0"), "plymouth.enable" := Some("0")]
    + (if debug then map["debug" := None] else map[])
    + if network then map["ip" := Some("dhcp"), "rd.neednet" := Some("1")] else map[]
  }

  /** `collect_upgrade_kernel_args`: `livemode` holds the live mode arguments (none if it is not
    * enabled), `requested` the arguments requested by messages. A key occurs once: requests win
    * over live mode, live mode over the defaults.
    */
  method CollectUpgradeKernelArgs(debug: bool, network: bool, livemode: map<string, Option<string>>,
                                  requested: seq<Pair>) returns (args: map<string, Option<string>>)
    ensures forall k :: k in args <==>
              k in Defaults(debug, network) || k in livemode || Mentioned(k, requested)
    ensures forall k :: k in args ==>
              if Mentioned(k, requested) then (k, args[k]) in requested
              else args[k] == if k in livemode then livemode[k] else Defaults(debug, network)[k]
  {
    args := map["enforcing" := Some("0"), "rd.plymouth" := Some("0"), "plymouth.enable" := Some("0")];
    if debug { args := args["debug" := None]; }
    if network {
      args := args["ip" := Some("dhcp")];
      args := args["rd.neednet" := Some("1")];
    }
    assert args == Defaults(debug, network);
    args := args + livemode;
    forall k { UpdateSpec(args, requested, k); }
    args := Update(args, requested);
  }

  lemma {:induction false} UpdateSpec(args: map<string, Option<string>>, pairs: seq<Pair>, k: string)
    ensures var r := Update(args, pairs);
            && (k in r <==> k in args || Mentioned(k, pairs))
            && (k in r ==> if Mentioned(k, pairs) then (k, r[k]) in pairs else r[k] == args[k])
    decreases |pairs|
  {
    if pairs != [] {
      HeadTail(pairs);
      MentionedStep(k, pairs);
      UpdateSpec(args[pairs[0].0 := pairs[0].1], pairs[1..], k);
    }
  }

  /** `set(args.items())`, in some iteration order. */
  ghost predicate ItemsOf(items: seq<Pair>, args: map<string, Option<string>>) {
    NoDup(items) && forall p :: p in items <==> p.0 in args && args[p.0] == p.1
  }

  function LiftAll(ps: seq<Pair>): seq<Arg> {
    if ps == [] then [] else [Lift(ps[0])] + LiftAll(ps[1..])
  }

  lemma {:induction false} FlattenLifted(ps: seq<Pair>)
    ensures Flatten(LiftAll(ps)) == ps
  {
    if ps != [] {
      HeadTail(ps);
      FlattenLifted(ps[1..]);
      TailOfCons(Lift(ps[0]), LiftAll(ps[1..]));
    }
  }

  /** The arguments collected for the upgrade entry can always be printed. */
  lemma CollectedArgsPrint(items: seq<Pair>, args: map<string, Option<string>>)
    requires ItemsOf(items, args)
    ensures Format(LiftAll(items)).Some?
  {
    hide Format;
    FormatRaisesIff(LiftAll(items));
    FlattenLifted(items);
    forall i, j | 0 <= i < |items| && 0 <= j < |items| && items[i].0 == items[j].0 ensures items[i].1 == items[j].1 {
      assert items[i] in items && items[j] in items;
    }
  }

  // ---------------------------------------------------------------- undesired arguments

  /** `collect_undesired_args`: what live mode does not want, with all values of `rd.lvm.lv` in one
    * tuple, and what messages ask to remove.
    */
  function UndesiredArgs(livemodeEnabled: bool, lvmValues: seq<string>, toRemove: set<Pair>): set<Arg> {
    (if livemodeEnabled
     then {("ro", NoValue), ("rhgb", NoValue), ("quiet", NoValue), ("rd.lvm.lv", Many(lvmValues))} else {})
    + set p | p in toRemove :: Lift(p)
  }

  const LIVEMODE_FLAGS := {"ro", "rhgb", "quiet"}

  /** The single arguments among them. */
  predicate Undesired(livemodeEnabled: bool, lvmValues: seq<string>, toRemove: set<Pair>, p: Pair) {
    || p in toRemove
    || (livemodeEnabled && p.1.None? && p.0 in LIVEMODE_FLAGS)
    || (livemodeEnabled && p.1.Some? && p.0 == "rd.lvm.lv" && p.1.value in lvmValues)
  }

  lemma {:induction false} PairsOfSpec(key: string, values: seq<string>, p: Pair)
    ensures p in PairsOf(key, values) <==> p.0 == key && p.1.Some? && p.1.value in values
  {
    if values != [] {
      HeadTail(values);
      PairsOfSpec(key, values[1..], p);
    }
  }

  lemma {:induction false} FlattenSpec(args: seq<Arg>, p: Pair)
    ensures p in Flatten(args) <==> exists a :: a in args && p in FlattenOne(a)
  {
    if args != [] {
      HeadTail(args);
      FlattenSpec(args[1..], p);
      if a :| a in args && p in FlattenOne(a) {
        if a != args[0] { assert a in args[1..]; }
      }
    }
  }

  lemma UndesiredSpec(livemodeEnabled: bool, lvmValues: seq<string>, toRemove: set<Pair>, args: seq<Arg>, p: Pair)
    requires Elements(args) == UndesiredArgs(livemodeEnabled, lvmValues, toRemove)
    ensures p in Flatten(args) <==> Undesired(livemodeEnabled, lvmValues, toRemove, p)
  {
    hide Flatten, FlattenOne, UndesiredArgs;
    FlattenSpec(args, p);
    forall a ensures a in args <==> a in UndesiredArgs(livemodeEnabled, lvmValues, toRemove) {
      assert a in Elements(args) <==> a in args;
    }
    if a :| a in args && p in FlattenOne(a) {
      UndesiredOne(livemodeEnabled, lvmValues, toRemove, a, p);
    }
    if Undesired(livemodeEnabled, lvmValues, toRemove, p) {
      var a := UndesiredFrom(livemodeEnabled, lvmValues, toRemove, p);
      assert a in args;
    }
  }

  lemma UndesiredOne(livemodeEnabled: bool, lvmValues: seq<string>, toRemove: set<Pair>, a: Arg, p: Pair)
    requires a in UndesiredArgs(livemodeEnabled, lvmValues, toRemove) && p in FlattenOne(a)
    ensures Undesired(livemodeEnabled, lvmValues, toRemove, p)
  {
    PairsOfSpec("rd.lvm.lv", lvmValues, p);
    if q :| q in toRemove && a == Lift(q) { assert p == q; }
  }

  lemma UndesiredFrom(livemodeEnabled: bool, lvmValues: seq<string>, toRemove: set<Pair>, p: Pair) returns (a: Arg)
    requires Undesired(livemodeEnabled, lvmValues, toRemove, p)
    ensures a in UndesiredArgs(livemodeEnabled, lvmValues, toRemove) && p in FlattenOne(a)
  {
    PairsOfSpec("rd.lvm.lv", lvmValues, p);
    a := if p in toRemove || p.1.None? then Lift(p) else ("rd.lvm.lv", Many(lvmValues));
  }

  /** No key is asked to be removed with and without a value. */
  ghost predicate Consistent(toRemove: set<Pair>) {
    forall p, q :: p in toRemove && q in toRemove ==> Comparable(p, q)
  }

  /** Exactly when the undesired arguments can be printed, in whatever order the set is iterated:
    * the messages do not contradict each other, and in live mode do not ask to remove a live mode
    * flag with a value, or `rd.lvm.lv` without one while the system has such arguments.
    */
  lemma UndesiredArgsPrintIff(livemodeEnabled: bool, lvmValues: seq<string>, toRemove: set<Pair>, args: seq<Arg>)
    requires Elements(args) == UndesiredArgs(livemodeEnabled, lvmValues, toRemove)
    ensures Format(args).Some? <==>
              && Consistent(toRemove)
              && (livemodeEnabled ==> forall p :: p in toRemove && p.1.Some? ==> p.0 !in LIVEMODE_FLAGS)
              && (livemodeEnabled && lvmValues != [] ==> ("rd.lvm.lv", None) !in toRemove)
  {
    hide Format, Flatten, UndesiredArgs, Mixed, Comparable, Undesired;
    FormatRaisesIff(args);
    MixedIff(Flatten(args));
    forall p { UndesiredSpec(livemodeEnabled, lvmValues, toRemove, args, p); }
    UndesiredComparableIff(livemodeEnabled, lvmValues, toRemove);
  }

  lemma UndesiredComparableIff(livemodeEnabled: bool, lvmValues: seq<string>, toRemove: set<Pair>)
    ensures (forall p, q | Undesired(livemodeEnabled, lvmValues, toRemove, p)
                           && Undesired(livemodeEnabled, lvmValues, toRemove, q) :: Comparable(p, q)) <==>
              && Consistent(toRemove)
              && (livemodeEnabled ==> forall p :: p in toRemove && p.1.Some? ==> p.0 !in LIVEMODE_FLAGS)
              && (livemodeEnabled && lvmValues != [] ==> ("rd.lvm.lv", None) !in toRemove)
  {
    var undesired := (p: Pair) => Undesired(livemodeEnabled, lvmValues, toRemove, p);
    assert forall p :: p in toRemove ==> undesired(p);
    if livemodeEnabled {
      FlagsAreNotLvm();
      forall p: Pair | p in toRemove && p.1.Some? && p.0 in LIVEMODE_FLAGS
        ensures undesired((p.0, None)) && !Comparable(p, (p.0, None))
      {
      }
      if lvmValues != [] {
        var lv: Pair := ("rd.lvm.lv", Some(lvmValues[0]));
        assert undesired(lv) && !Comparable(lv, ("rd.lvm.lv", None));
      }
    }
  }

  lemma FlagsAreNotLvm()
    ensures "rd.lvm.lv" !in LIVEMODE_FLAGS
  {
    assert |"rd.lvm.lv"| == 9 && |"ro"| == 2 && |"rhgb"| == 4 && |"quiet"| == 5;
  }

  /** Live mode removes `quiet` without a value; a message that removes it with a value makes
    * the printer raise.
    */
  lemma LiveModeClash(lvmValues: seq<string>, toRemove: set<Pair>, value: string, args: seq<Arg>)
    requires ("quiet", Some(value)) in toRemove && Elements(args) == UndesiredArgs(true, lvmValues, toRemove)
    ensures Format(args).None?
  {
    hide Format, UndesiredArgs;
    UndesiredArgsPrintIff(true, lvmValues, toRemove, args);
    assert "quiet" in LIVEMODE_FLAGS;
  }

  // ---------------------------------------------------------------- the grubby calls

  type Command = seq<string>

  const GRUBBY := "/usr/sbin/grubby"

  /** `dict(args_to_add).get('root', None)` */
  function RootOf(items: seq<Pair>): Option<string> {
    if items == [] then None
    else if items[|items| - 1].0 == "root" then items[|items| - 1].1
    else RootOf(items[..|items| - 1])
  }

  /** The last `root` argument is the one in force. */
  lemma {:induction false} RootOfSpec(items: seq<Pair>) returns (at: nat)
    ensures (forall i :: 0 <= i < |items| ==> items[i].0 != "root") ==> RootOf(items).None?
    ensures (exists i :: 0 <= i < |items| && items[i].0 == "root") ==>
              && at < |items| && items[at] == ("root", RootOf(items))
              && forall i :: at < i < |items| ==> items[i].0 != "root"
  {
    at := 0;
    if items != [] {
      at := RootOfSpec(items[..|items| - 1]);
      assert forall i :: 0 <= i < |items| - 1 ==> items[i] == items[..|items| - 1][i];
      if items[|items| - 1].0 == "root" { at := |items| - 1; }
    }
  }

  /** An argument is printed as its key, with '=' and the value if it has one that is not empty. */
  lemma PrintSpec(key: string, value: string)
    ensures Print((key, None)) == key && Print((key, Some(""))) == key
    ensures value != "" ==> Print((key, Some(value))) == key + "=" + value
  {
  }

  function AddEntryCommand(kernel: string, initramfs: string, args: string): Command {
    [GRUBBY, "--add-kernel", kernel, "--initrd", initramfs, "--title", "RHEL-Upgrade-Initramfs",
     "--copy-default", "--make-default", "--args", args]
  }

  function UpdateCommand(kernel: string, option: string, args: string): Command {
    [GRUBBY, "--update-kernel", kernel, option, args]
  }

  /** The commands for a printed list to add, the root argument, and a printed list to remove. */
  function Commands(kernel: string, initramfs: string, add: string, root: Option<string>, remove: Option<string>)
    : seq<Command>
  {
    [AddEntryCommand(kernel, initramfs, add)]
    + (if root.Some? && root.value != "" then [UpdateCommand(kernel, "--args", "root=" + root.value)] else [])
    + if remove.Some? then [UpdateCommand(kernel, "--remove-args", remove.value)] else []
  }

  /** `figure_out_commands_needed_to_add_entry`; `None` is the `TypeError` of the printer. */
  method FigureOutCommands(kernel: string, initramfs: string, toAdd: seq<Pair>, toRemove: seq<Arg>)
    returns (commands: Option<seq<Command>>)
    ensures commands.None? <==> Format(LiftAll(toAdd)).None? || (toRemove != [] && Format(toRemove).None?)
    ensures commands.Some? ==>
              commands.value == Commands(kernel, initramfs, Format(LiftAll(toAdd)).value, RootOf(toAdd),
                                         if toRemove == [] then None else Format(toRemove))
    ensures commands.Some? ==>
              && commands.value[0] == ["/usr/sbin/grubby", "--add-kernel", kernel, "--initrd", initramfs, "--title",
                                       "RHEL-Upgrade-Initramfs", "--copy-default", "--make-default", "--args",
                                       Format(LiftAll(toAdd)).value]
              && (forall i :: 1 <= i < |commands.value| ==>
                    && |commands.value[i]| == 5
                    && commands.value[i][..3] == ["/usr/sbin/grubby", "--update-kernel", kernel])
              && (RootOf(toAdd).Some? && RootOf(toAdd).value != "" ==>
                    |commands.value| > 1 && commands.value[1][3..] == ["--args", "root=" + RootOf(toAdd).value])
              && (toRemove != [] ==>
                    |commands.value| > 1
                    && commands.value[|commands.value| - 1][3..] == ["--remove-args", Format(toRemove).value])
              && |commands.value| == 1 + (if RootOf(toAdd).Some? && RootOf(toAdd).value != "" then 1 else 0)
                                     + (if toRemove != [] then 1 else 0)
  {
    hide Format, LiftAll;
    var add := Format(LiftAll(toAdd));
    if add.None? { return None; }
    var result := [AddEntryCommand(kernel, initramfs, add.value)];
    var root := RootOf(toAdd);
    if root.Some? && root.value != "" {
      result := result + [UpdateCommand(kernel, "--args", "root=" + root.value)];
    } else {
      AppendNil(result);
    }
    if toRemove != [] {
      var remove := Format(toRemove);
      if remove.None? { return None; }
      result := result + [UpdateCommand(kernel, "--remove-args", remove.value)];
    } else {
      AppendNil(result);
    }
    commands := Some(result);
  }

  /** What a grubby call does to the arguments of the boot entry it addresses, read off its
    * command line: a new entry starts from the default arguments, `--args` adds the listed
    * arguments and `--remove-args` removes them.
    */
  function RunGrubby(entry: set<Pair>, defaults: set<Pair>, command: Command): set<Pair> {
    if |command| == 11 && command[1] == "--add-kernel" then defaults + Elements(ReadLine(command[10]))
    else if |command| == 5 && command[3] == "--args" then entry + Elements(ReadLine(command[4]))
    else if |command| == 5 && command[3] == "--remove-args" then entry - Elements(ReadLine(command[4]))
    else entry
  }

  function RunAll(entry: set<Pair>, defaults: set<Pair>, commands: seq<Command>): set<Pair>
    decreases |commands|
  {
    if commands == [] then entry else RunAll(RunGrubby(entry, defaults, commands[0]), defaults, commands[1..])
  }

  lemma ElementsOfMultiset(a: seq<Pair>, b: seq<Pair>)
    requires multiset(a) == multiset(b)
    ensures Elements(a) == Elements(b)
  {
    forall p: Pair ensures p in Elements(a) <==> p in Elements(b) {
      assert p in a <==> p in multiset(a);
      assert p in b <==> p in multiset(b);
    }
  }

  lemma FormatElements(args: seq<Arg>)
    requires AllPrintable(Flatten(args)) && !Mixed(Flatten(args))
    ensures Format(args).Some? && Elements(ReadLine(Format(args).value)) == Elements(Flatten(args))
  {
    hide PairLeq, Flatten, Sort, ReadLine, Format, AllPrintable, Mixed;
    FormatRoundTrip(args);
    ElementsOfMultiset(ReadLine(Format(args).value), Flatten(args));
  }

  lemma {:induction false} RootIsListed(items: seq<Pair>)
    ensures RootOf(items).Some? ==> ("root", RootOf(items)) in items
  {
    if items != [] {
      RootIsListed(items[..|items| - 1]);
      assert items == items[..|items| - 1] + [items[|items| - 1]];
    }
  }

  lemma RootArgument(items: seq<Pair>)
    requires AllPrintable(items) && RootOf(items).Some?
    ensures ReadLine("root=" + RootOf(items).value) == [("root", RootOf(items))]
  {
    var p := ("root", RootOf(items));
    RootIsListed(items);
    var i :| 0 <= i < |items| && items[i] == p;
    assert Printable(p);
    assert "root=" + RootOf(items).value == Print(p);
    ReadOnePrinted(p);
    SplitOfFree(Print(p), ' ');
    assert ReadAll([Print(p)]) == [p];
  }

  lemma RunAllAppend(entry: set<Pair>, defaults: set<Pair>, a: seq<Command>, b: seq<Command>)
    ensures RunAll(entry, defaults, a + b) == RunAll(RunAll(entry, defaults, a), defaults, b)
    decreases |a|
  {
    if a == [] {
      AppendNil(b);
    } else {
      TailOfAppend(a, b);
      RunAllAppend(RunGrubby(entry, defaults, a[0]), defaults, a[1..], b);
    }
  }

  lemma RunOne(entry: set<Pair>, defaults: set<Pair>, command: Command)
    ensures RunAll(entry, defaults, [command]) == RunGrubby(entry, defaults, command)
  {
  }

  /** Run through the printed strings, the commands leave an entry with the default arguments
    * and the added ones, without every undesired one.
    */
  lemma EntryArguments(entry: set<Pair>, defaults: set<Pair>, kernel: string, initramfs: string,
                       toAdd: seq<Pair>, toRemove: seq<Arg>)
    requires AllPrintable(toAdd) && !Mixed(toAdd)
    requires AllPrintable(Flatten(toRemove)) && !Mixed(Flatten(toRemove))
    ensures var add, remove := Format(LiftAll(toAdd)), Format(toRemove);
            && add.Some? && remove.Some?
            && RunAll(entry, defaults, Commands(kernel, initramfs, add.value, RootOf(toAdd),
                                                if toRemove == [] then None else remove))
               == defaults + Elements(toAdd) - Elements(Flatten(toRemove))
  {
    hide Format, ReadLine, RunGrubby, Printable, Mixed, AddEntryCommand, UpdateCommand;
    FlattenLifted(toAdd);
    FormatElements(LiftAll(toAdd));
    FormatElements(toRemove);
    var add, remove, root := Format(LiftAll(toAdd)).value, Format(toRemove).value, RootOf(toAdd);
    var c1 := AddEntryCommand(kernel, initramfs, add);
    var c2 := if root.Some? && root.value != "" then [UpdateCommand(kernel, "--args", "root=" + root.value)] else [];
    var c3 := if toRemove != [] then [UpdateCommand(kernel, "--remove-args", remove)] else [];
    RunAllAppend(entry, defaults, [c1] + c2, c3);
    RunAllAppend(entry, defaults, [c1], c2);
    RunOne(entry, defaults, c1);
    AddStep(entry, defaults, kernel, initramfs, add);
    var e1 := defaults + Elements(toAdd);
    if c2 != [] {
      RunOne(e1, defaults, c2[0]);
      UpdateStep(e1, defaults, kernel, "root=" + root.value);
      RootArgument(toAdd);
      RootIsListed(toAdd);
      assert Elements([("root", root)]) == {("root", root)};
    }
    assert RunAll(e1, defaults, c2) == e1;
    if c3 != [] {
      RunOne(e1, defaults, c3[0]);
      UpdateStep(e1, defaults, kernel, remove);
    } else {
      assert Elements(Flatten(toRemove)) == {};
    }
  }

  lemma AddStep(entry: set<Pair>, defaults: set<Pair>, kernel: string, initramfs: string, args: string)
    ensures RunGrubby(entry, defaults, AddEntryCommand(kernel, initramfs, args)) == defaults + Elements(ReadLine(args))
  {
  }

  lemma UpdateStep(entry: set<Pair>, defaults: set<Pair>, kernel: string, args: string)
    ensures RunGrubby(entry, defaults, UpdateCommand(kernel, "--args", args)) == entry + Elements(ReadLine(args))
    ensures RunGrubby(entry, defaults, UpdateCommand(kernel, "--remove-args", args)) == entry - Elements(ReadLine(args))
  {
    assert "--remove-args"[2] != "--args"[2];
  }

  // ---------------------------------------------------------------- the target kernel

  /** `added_cmdline_args - undesired_cmdline_args`, as sets of (key, value) tuples. */
  function EffectiveArgs(added: set<Pair>, undesired: set<Arg>): set<Pair> {
    set p | p in added && Lift(p) !in undesired
  }

  /** What `emit_removal_of_args_meant_only_for_upgrade_kernel` asks to remove. */
  function EmittedRemovals(effective: set<Pair>, source: set<Pair>, targetToAdd: set<Pair>): set<Pair> {
    effective - source - targetToAdd
  }

  lemma {:induction false} FlattenMembers(args: seq<Arg>, p: Pair)
    ensures Lift(p) in args ==> p in Flatten(args)
  {
    if args != [] {
      HeadTail(args);
      FlattenMembers(args[1..], p);
    }
  }

  /** The arguments of the upgrade entry once all commands for it were run. */
  ghost function UpgradeEntry(defaults: set<Pair>, kernel: string, initramfs: string, toAdd: seq<Pair>,
                              toRemove: seq<Arg>): set<Pair>
    requires Format(LiftAll(toAdd)).Some? && Format(toRemove).Some?
  {
    RunAll({}, defaults, Commands(kernel, initramfs, Format(LiftAll(toAdd)).value, RootOf(toAdd),
                                  if toRemove == [] then None else Format(toRemove)))
  }

  /** Those of the target entry, which starts as a copy of the upgrade entry, once the emitted
    * removals were handed to grubby, in any order.
    */
  ghost function TargetEntry(upgrade: set<Pair>, kernel: string, emitted: seq<Pair>): set<Pair> {
    if emitted == [] then upgrade
    else RunGrubby(upgrade, {}, UpdateCommand(kernel, "--remove-args", Join(PrintAll(emitted), " ")))
  }

  /** Upgrade-only arguments do not leak: run through the printed commands, no undesired argument is
    * on the upgrade entry, the emitted removals are added arguments and spare those of the source
    * system and those wanted on the target, and the target entry has exactly the arguments of the
    * upgrade entry that were not added, were on the source system or are wanted on the target.
    */
  lemma NoLeakToTarget(defaults: set<Pair>, kernel: string, initramfs: string, targetKernel: string, toAdd: seq<Pair>,
                       toRemove: seq<Arg>, source: set<Pair>, targetToAdd: set<Pair>, emitted: seq<Pair>)
    requires AllPrintable(toAdd) && !Mixed(toAdd)
    requires AllPrintable(Flatten(toRemove)) && !Mixed(Flatten(toRemove))
    requires Elements(emitted)
             == EmittedRemovals(EffectiveArgs(Elements(toAdd), Elements(toRemove)), source, targetToAdd)
    ensures Format(LiftAll(toAdd)).Some? && Format(toRemove).Some?
    ensures forall p: Pair :: p in Elements(emitted) <==>
              && p in toAdd && p !in source && p !in targetToAdd
              && (p.0, if p.1.None? then NoValue else Text(p.1.value)) !in toRemove
    ensures var upgrade := UpgradeEntry(defaults, kernel, initramfs, toAdd, toRemove);
            var target := TargetEntry(upgrade, targetKernel, emitted);
            && (forall p :: p in Flatten(toRemove) ==> p !in upgrade)
            && Elements(emitted) !! source && Elements(emitted) !! targetToAdd && Elements(emitted) <= Elements(toAdd)
            && (forall p :: p in target <==> p in upgrade && (p !in toAdd || p in source || p in targetToAdd))
  {
    hide Format, ReadLine, RunGrubby, Printable, Mixed, UpdateCommand, Commands, Flatten, Lift;
    EntryArguments({}, defaults, kernel, initramfs, toAdd, toRemove);
    var upgrade := UpgradeEntry(defaults, kernel, initramfs, toAdd, toRemove);
    forall i | 0 <= i < |emitted| ensures Printable(emitted[i]) {
      assert emitted[i] in Elements(emitted) && emitted[i] in toAdd;
    }
    ReadPrinted(emitted);
    UpdateStep(upgrade, {}, targetKernel, Join(PrintAll(emitted), " "));
    forall p: Pair | p in upgrade ensures Lift(p) !in toRemove { FlattenMembers(toRemove, p); }
    forall p: Pair { LiftMeans(p); }
  }

  lemma LiftMeans(p: Pair)
    ensures Lift(p) == (p.0, if p.1.None? then NoValue else Text(p.1.value))
  {
  }
}
