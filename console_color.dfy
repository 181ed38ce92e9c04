/**
  ConsoleColor/Program.cs: the command-line front end of the colour helpers. It shows its
  usage when asked, sets the console colour from three RGB numbers after --rgb, and otherwise
  infers the colour from a title (its free-text arguments, or the current console title),
  optionally setting that title with --setTitle.
*/
module ConsoleColorApp {
  import Text
  import ConsoleHelpers

  /** The switches that ask for the usage text. */
  const HelpSwitches: seq<string> := ["--help", "-h", "/h", "-?", "/?"]

  /** SwitchExists: some argument equals s, ignoring case. */
  function SwitchExists(args: seq<string>, s: string): (found: bool)
    ensures found <==> exists i :: 0 <= i < |args| && Text.EqualsIgnoreCase(args[i], s)
  {
    if args == [] then false
    else Text.EqualsIgnoreCase(args[0], s) || SwitchExists(args[1..], s)
  }

  /** A switch is found whatever the case it is looked up in. */
  lemma {:induction false} SwitchExistsIgnoresCase(args: seq<string>, s: string, t: string)
    requires Text.EqualsIgnoreCase(s, t)
    ensures SwitchExists(args, s) == SwitchExists(args, t)
  {
    Text.EqualsIgnoreCaseIsFoldedEquality(s, t);
    forall a | a in args
      ensures Text.EqualsIgnoreCase(a, s) == Text.EqualsIgnoreCase(a, t)
    {
      Text.EqualsIgnoreCaseIsFoldedEquality(a, s);
      Text.EqualsIgnoreCaseIsFoldedEquality(a, t);
    }
  }

  predicate IsFlag(a: string) { Text.StartsWith(a, "--") }

  /** args.Where(a => !a.StartsWith("--")): the arguments that are not "--" flags, in order. */
  function Operands(args: seq<string>): (ops: seq<string>)
    ensures |ops| <= |args|
    ensures forall i :: 0 <= i < |ops| ==> !IsFlag(ops[i]) && ops[i] in args
  {
    if args == [] then []
    else if IsFlag(args[0]) then Operands(args[1..])
    else [args[0]] + Operands(args[1..])
  }

  /** Filtering keeps the order: the operands of a concatenation are the concatenation of the
      operands. */
  lemma {:induction false} OperandsOfConcat(a: seq<string>, b: seq<string>)
    ensures Operands(a + b) == Operands(a) + Operands(b)
  {
    if a == [] {
      assert a + b == b;
    } else {
      assert (a + b)[1..] == a[1..] + b;
      OperandsOfConcat(a[1..], b);
    }
  }

  /** Only flags are dropped: an argument survives exactly when it is not a flag. */
  lemma {:induction false} OperandsKeepNonFlags(args: seq<string>, x: string)
    ensures x in Operands(args) <==> x in args && !IsFlag(x)
  {
    if args != [] {
      OperandsKeepNonFlags(args[1..], x);
      assert args == [args[0]] + args[1..];
    }
  }

  /** The numbers of SetColorRgb: each operand parsed (0 when it is not an Int32), padded
      with zeros and cut to three. */
  function RgbArguments(args: seq<string>): (c: seq<int>)
    ensures |c| == 3
    ensures forall k :: 0 <= k < 3 ==>
      var ops := Operands(args);
      c[k] == if k < |ops| && Text.TryParseInt(ops[k]).Some? then Text.TryParseInt(ops[k]).value else 0
  {
    var ops := Operands(args);
    var parsed := seq(|ops|, i requires 0 <= i < |ops| => Text.ParsedOrZero(ops[i]));
    (parsed + [0, 0, 0])[..3]
  }

  /** The title of SetColorFromTitle: the operands joined by single spaces, or the current
      console title when there are none. */
  function TitleFor(args: seq<string>, currentTitle: string): (title: string)
    ensures Operands(args) == [] ==> title == currentTitle
  {
    var ops := Operands(args);
    if ops != [] then Text.Join(" ", ops) else currentTitle
  }

  /** The title keeps every operand whole and in order: when no operand contains a space,
      splitting the title at its spaces gives the operands back. */
  lemma TitleSplitsIntoOperands(args: seq<string>, currentTitle: string)
    requires Operands(args) != []
    requires forall i :: 0 <= i < |Operands(args)| ==> ' ' !in Operands(args)[i]
    ensures Text.Split(TitleFor(args, currentTitle), ' ') == Operands(args)
  {
    Text.SplitJoin(Operands(args), ' ');
  }

  /** What the program goes on to do. */
  datatype Action =
    | ShowHelp
    | ApplyRgb(r: int, g: int, b: int)             // SetColorRgb on the console colours
    | ApplyTitle(title: string, setTitle: bool)   // InferColorFromText(title), then maybe set the title

  /** Some help switch is among the arguments. */
  predicate HelpRequested(args: seq<string>)
  {
    exists k :: 0 <= k < |HelpSwitches| && SwitchExists(args, HelpSwitches[k])
  }

  lemma HelpRequestedByOneOfFive(args: seq<string>)
    ensures HelpRequested(args) <==>
      SwitchExists(args, "--help") || SwitchExists(args, "-h") || SwitchExists(args, "/h")
      || SwitchExists(args, "-?") || SwitchExists(args, "/?")
  {
    assert HelpSwitches[0] == "--help" && HelpSwitches[1] == "-h" && HelpSwitches[2] == "/h";
    assert HelpSwitches[3] == "-?" && HelpSwitches[4] == "/?";
  }

  /** Main's choice: any help switch wins, then --rgb, then the title mode. */
  function SelectAction(args: seq<string>, currentTitle: string): (a: Action)
    ensures a.ShowHelp? <==> HelpRequested(args)
    ensures a.ApplyRgb? <==> !a.ShowHelp? && SwitchExists(args, "--rgb")
    ensures a.ApplyRgb? ==> a == ApplyRgb(RgbArguments(args)[0], RgbArguments(args)[1], RgbArguments(args)[2])
    ensures a.ApplyTitle? ==> a.title == TitleFor(args, currentTitle) && a.setTitle == SwitchExists(args, "--setTitle")
  {
    HelpRequestedByOneOfFive(args);
    if SwitchExists(args, "--help") || SwitchExists(args, "-h") || SwitchExists(args, "/h")
       || SwitchExists(args, "-?") || SwitchExists(args, "/?")
    then ShowHelp
    else if SwitchExists(args, "--rgb") then
      var c := RgbArguments(args);
      ApplyRgb(c[0], c[1], c[2])
    else ApplyTitle(TitleFor(args, currentTitle), SwitchExists(args, "--setTitle"))
  }

  /** A one-letter title has a single UTF-16 code unit, too few for InferColorFromText,
      whose indexing of the third colour component then fails. */
  lemma OneLetterTitleCannotBeColored(currentTitle: string)
    ensures SelectAction(["a"], currentTitle) == ApplyTitle("a", false)
    ensures ConsoleHelpers.InferredColor("a").None?
  {
    assert Operands(["a"]) == ["a"] by {
      assert !IsFlag("a");
      assert ["a"][1..] == [];
    }
    assert !SwitchExists(["a"], "--rgb") by { assert !Text.EqualsIgnoreCase("a", "--rgb"); }
  }
}
