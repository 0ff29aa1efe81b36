/**
 * The LaTeX object model of pdftolatex/latex.py: `Text`, `Command`,
 * `Environment`, the default preamble and `TexFile.unpack_content`.
 *
 * The Python objects are never changed after construction, so they become
 * one family of datatypes.  The string a Python `Command` caches in `.text`
 * is `CommandText` here; `make_text` itself keeps its loops as the method
 * `MakeText`, and `unpack_content` keeps its loop and its recursion as the
 * method `UnpackContent`.
 */
module Latex {
  import opened Sequences
  import opened Strings
  import opened Escaping

  /** A command argument, or an option value: a plain string or a nested command. */
  datatype Arg = StrArg(s: string) | CmdArg(cmd: Command)

  /** An option `(o_type, o_val)`; an empty key renders the value alone. */
  datatype Opt = Opt(key: string, val: Arg)

  /** `Command(command_name, arguments, options)`. */
  datatype Command = Command(name: string, args: seq<Arg>, opts: seq<Opt>)

  /** The objects a LaTeX file is made of. */
  datatype Node =
    | TextNode(text: string)
    | CommandNode(cmd: Command)
    | EnvNode(name: string, body: seq<Node>, opts: seq<Opt>)

  datatype Option<T> = None | Some(value: T)

  // ---------------------------------------------------------------------
  // Text

  /** `Text(text)`: the node stores the escaped text, from which the input can be read back. */
  function Text(s: string): (n: Node)
    ensures n.TextNode?
    ensures Unescape(n.text) == s
    ensures |n.text| == |s| + CountSpecial(s)
  {
    UnescapeEscape(s);
    EscapeLength(s);
    TextNode(Escape(s))
  }

  // ---------------------------------------------------------------------
  // Command.make_text

  /** The text an argument or option value contributes: the string, or the command's `.text`. */
  function ArgText(a: Arg): string
    decreases a
  {
    match a
    case StrArg(s) => s
    case CmdArg(c) => CommandText(c)
  }

  /** The arguments, each wrapped in braces, in order. */
  function ArgsText(args: seq<Arg>): string
    decreases args
  {
    if args == [] then ""
    else ArgsText(args[..|args| - 1]) + ("{" + ArgText(args[|args| - 1]) + "}")
  }

  /** One option item: `key=val`, or `val` alone when the key is empty. */
  function OptText(o: Opt): string
    decreases o
  {
    var v := ArgText(o.val);
    if o.key != "" then o.key + "=" + v else v
  }

  /** The option items in order (`ostore`). */
  function OptTexts(opts: seq<Opt>): (items: seq<string>)
    decreases opts
    ensures |items| == |opts|
  {
    if opts == [] then []
    else OptTexts(opts[..|opts| - 1]) + [OptText(opts[|opts| - 1])]
  }

  /** The option block: nothing for no options, else the items comma-joined in brackets. */
  function BracketOptions(items: seq<string>): string {
    if items == [] then "" else "[" + Join(items, ',') + "]"
  }

  /** The `.text` of a command: `\name`, then arguments and options, swapped for `begin`. */
  function CommandText(c: Command): string
    decreases c
  {
    var arguments := ArgsText(c.args);
    var options := BracketOptions(OptTexts(c.opts));
    "\\" + c.name + (if c.name == "begin" then arguments + options else options + arguments)
  }

  /** `Command.make_text`. */
  method MakeText(c: Command) returns (text: string)
    ensures text == CommandText(c)
  {
    text := "\\" + c.name;

    var arguments := "";
    if c.args != [] {
      for i := 0 to |c.args|
        invariant arguments == ArgsText(c.args[..i])
      {
        var arg := c.args[i];
        var argText := if arg.CmdArg? then CommandText(arg.cmd) else arg.s;
        ArgsTextPrefix(c.args, i);
        arguments := arguments + "{" + argText + "}";
      }
      assert c.args[..|c.args|] == c.args;
    }
    assert arguments == ArgsText(c.args);

    var options, ostore := "", [];
    if c.opts != [] {
      for i := 0 to |c.opts|
        invariant ostore == OptTexts(c.opts[..i])
      {
        var o := c.opts[i];
        OptTextsPrefix(c.opts, i);
        var oType := o.key;
        var oVal := if o.val.CmdArg? then CommandText(o.val.cmd) else o.val.s;
        var oText := if oType != "" then oType + "=" + oVal else oVal;
        assert oText == OptText(o);
        ostore := ostore + [oText];
      }
      assert c.opts[..|c.opts|] == c.opts;
      options := "[" + Join(ostore, ',') + "]";
    }
    assert options == BracketOptions(OptTexts(c.opts));

    text := text + (if c.name == "begin" then arguments + options else options + arguments);
  }

  lemma ArgsTextPrefix(args: seq<Arg>, i: nat)
    requires i < |args|
    ensures ArgsText(args[..i + 1]) == ArgsText(args[..i]) + "{" + ArgText(args[i]) + "}"
  {
    assert args[..i + 1][..i] == args[..i];
    var x, t := ArgsText(args[..i]), ArgText(args[i]);
    SeqAssoc(x, "{", t);
    SeqAssoc(x, "{" + t, "}");
  }

  lemma OptTextsPrefix(opts: seq<Opt>, i: nat)
    requires i < |opts|
    ensures OptTexts(opts[..i + 1]) == OptTexts(opts[..i]) + [OptText(opts[i])]
  {
    assert opts[..i + 1][..i] == opts[..i];
  }

  /** A command with neither arguments nor options renders as its bare name, e.g. `\par`. */
  lemma BareCommand(name: string)
    ensures CommandText(Command(name, [], [])) == "\\" + name
  {
  }

  lemma {:induction false} ArgsTextCons(a: Arg, rest: seq<Arg>)
    ensures ArgsText([a] + rest) == "{" + ArgText(a) + "}" + ArgsText(rest)
  {
    if rest != [] {
      var n := |rest| - 1;
      DropLastAppend([a], rest);
      ArgsTextCons(a, rest[..n]);
      var g, y, z := "{" + ArgText(a) + "}", ArgsText(rest[..n]), "{" + ArgText(rest[n]) + "}";
      calc {
        ArgsText([a] + rest);
        ArgsText([a] + rest[..n]) + z;
        g + y + z;
        { SeqAssoc(g, y, z); }
        g + (y + z);
        g + ArgsText(rest);
      }
    } else {
      assert ([a] + rest)[..0] == [];
      AppendEmpty("{" + ArgText(a) + "}");
    }
  }

  /** Index of the first `}` of `t`, or `|t|` when there is none. */
  function CloseIndex(t: string): (k: nat)
    ensures k <= |t|
    ensures forall j :: 0 <= j < k ==> t[j] != '}'
    ensures k < |t| ==> t[k] == '}'
  {
    if t == [] || t[0] == '}' then 0 else 1 + CloseIndex(t[1..])
  }

  /** Reads a string made of `{...}` groups back into the group contents. */
  function ParseGroups(t: string): Option<seq<string>>
    decreases |t|
  {
    if t == [] then Some([])
    else if t[0] != '{' then None
    else
      var k := CloseIndex(t[1..]);
      if k == |t| - 1 then None
      else
        match ParseGroups(t[k + 2..])
        case None => None
        case Some(rest) => Some([t[1..k + 1]] + rest)
  }

  /** The texts of the arguments, in order. */
  function ArgTexts(args: seq<Arg>): (ts: seq<string>)
    ensures |ts| == |args|
    ensures forall i :: 0 <= i < |args| ==> ts[i] == ArgText(args[i])
  {
    seq(|args|, i requires 0 <= i < |args| => ArgText(args[i]))
  }

  lemma ArgTextsCons(args: seq<Arg>)
    requires args != []
    ensures ArgTexts(args) == [ArgText(args[0])] + ArgTexts(args[1..])
  {
    var ts, tr := ArgTexts(args), ArgTexts(args[1..]);
    forall i | 0 <= i < |ts| ensures ts[i] == ([ArgText(args[0])] + tr)[i] {
      if i > 0 {
        assert tr[i - 1] == ArgText(args[1..][i - 1]);
      }
    }
  }

  /** The first `}` after a `}`-free prefix is the one right after it. */
  lemma CloseIndexAfter(x: string, r: string)
    requires '}' !in x
    ensures CloseIndex(x + "}" + r) == |x|
  {
    var u := x + "}" + r;
    assert forall j :: 0 <= j < |x| ==> u[j] == x[j];
    assert u[|x|] == '}';
  }

  lemma GroupSlices(x: string, r: string)
    ensures ("{" + x + "}" + r)[1..] == x + "}" + r
    ensures ("{" + x + "}" + r)[|x| + 2..] == r
    ensures ("{" + x + "}" + r)[1..|x| + 1] == x
  {
  }

  /** One group in front of a parsable rest is read as that group followed by the rest. */
  lemma ParseGroupsCons(x: string, r: string)
    requires '}' !in x
    requires ParseGroups(r).Some?
    ensures ParseGroups("{" + x + "}" + r) == Some([x] + ParseGroups(r).value)
  {
    GroupSlices(x, r);
    CloseIndexAfter(x, r);
  }

  /**
   * Each argument is wrapped in its own pair of braces, in list order: as
   * long as no argument text holds a `}`, the rendered arguments read back
   * into exactly the argument texts (a nested command contributing its own
   * rendered text).
   */
  lemma {:induction false} ArgsTextGroups(args: seq<Arg>)
    requires forall i :: 0 <= i < |args| ==> '}' !in ArgText(args[i])
    ensures ParseGroups(ArgsText(args)) == Some(ArgTexts(args))
  {
    if args != [] {
      var rest := args[1..];
      ConsFirst(args);
      ArgsTextCons(args[0], rest);
      assert forall i :: 0 <= i < |rest| ==> rest[i] == args[i + 1];
      ArgsTextGroups(rest);
      ParseGroupsCons(ArgText(args[0]), ArgsText(rest));
      ArgTextsCons(args);
    }
  }

  /**
   * Options render as `[` + the comma-joined items + `]`, an empty option
   * list renders as nothing, and when no item holds a comma, splitting the
   * bracketed text at commas gives back the items in order.
   */
  lemma OptionsBlock(opts: seq<Opt>)
    ensures opts == [] ==> BracketOptions(OptTexts(opts)) == ""
    ensures opts != [] ==>
      var t := BracketOptions(OptTexts(opts));
      |t| >= 2 && t[0] == '[' && t[|t| - 1] == ']' &&
      ((forall i :: 0 <= i < |opts| ==> ',' !in OptTexts(opts)[i]) ==>
         Split(t[1..|t| - 1], ',') == OptTexts(opts))
  {
    if opts != [] {
      var items := OptTexts(opts);
      var t := BracketOptions(items);
      assert t[1..|t| - 1] == Join(items, ',');
      if forall i :: 0 <= i < |opts| ==> ',' !in items[i] {
        SplitJoin(items, ',');
      }
    }
  }

  /**
   * An option item reads back: for a non-empty key without `=`, the text
   * before the first `=` is the key and the text after it is the value (and
   * splitting at `=` gives exactly the pair when the value has no `=`
   * either); for an empty key the item is the value alone.
   */
  lemma OptionItem(o: Opt)
    ensures o.key != "" && '=' !in o.key ==>
      Split(OptText(o), '=')[0] == o.key && OptText(o)[|o.key| + 1..] == ArgText(o.val)
    ensures o.key != "" && '=' !in o.key && '=' !in ArgText(o.val) ==>
      Split(OptText(o), '=') == [o.key, ArgText(o.val)]
    ensures o.key == "" ==> OptText(o) == ArgText(o.val)
  {
    var v := ArgText(o.val);
    if o.key != "" && '=' !in o.key {
      var t := OptText(o);
      assert t == o.key + ("=" + v);
      SplitAfterPiece(o.key, "=" + v, '=');
      assert Split("=" + v, '=')[0] == "";
      assert t[|o.key| + 1..] == v;
      if '=' !in v {
        assert Join([o.key, v], '=') == t;
        SplitJoin([o.key, v], '=');
      }
    }
  }

  // ---------------------------------------------------------------------
  // Environment.make_content

  function BeginCommand(name: string, opts: seq<Opt>): Command {
    Command("begin", [StrArg(name)], opts)
  }

  function EndCommand(name: string): Command {
    Command("end", [StrArg(name)], [])
  }

  /** `\begin` puts its argument before its options; `\end` has no options. */
  lemma BeginEndText(name: string, opts: seq<Opt>)
    ensures CommandText(BeginCommand(name, opts)) == "\\begin{" + name + "}" + BracketOptions(OptTexts(opts))
    ensures CommandText(EndCommand(name)) == "\\end{" + name + "}"
  {
    var args := [StrArg(name)];
    assert args[..0] == [];
    assert ArgsText(args) == "{" + name + "}";
    var o := BracketOptions(OptTexts(opts));
    assert "\\" + "begin" + ("{" + name + "}" + o) == "\\begin{" + name + "}" + o;
    assert "\\" + "end" + ("" + ("{" + name + "}")) == "\\end{" + name + "}";
  }

  /** `Environment.make_content`: the body, unchanged, between a begin and an end command. */
  function EnvContent(name: string, body: seq<Node>, opts: seq<Opt>): (content: seq<Node>)
    ensures |content| == |body| + 2
    ensures content[0] == CommandNode(BeginCommand(name, opts))
    ensures content[1..|body| + 1] == body
    ensures content[|body| + 1] == CommandNode(EndCommand(name))
  {
    [CommandNode(BeginCommand(name, opts))] + body + [CommandNode(EndCommand(name))]
  }

  // ---------------------------------------------------------------------
  // make_default_preamble

  /** `\\documentclass[a4paper,12pt]{article}`. */
  function DocumentclassCommand(): Command {
    Command("documentclass", [StrArg("article")], [Opt("", StrArg("a4paper")), Opt("", StrArg("12pt"))])
  }

  /** `\\usepackage[options]{pkg}`. */
  function UsepackageCommand(pkg: string, opts: seq<Opt>): Command {
    Command("usepackage", [StrArg(pkg)], opts)
  }

  /** `\\setlength{\\parindent}{0pt}`: the first argument is itself a command. */
  function SetlengthCommand(): Command {
    Command("setlength", [CmdArg(Command("parindent", [], [])), StrArg("0pt")], [])
  }

  /** `make_default_preamble()`. */
  function DefaultPreamble(): seq<Node> {
    [ CommandNode(DocumentclassCommand()),
      CommandNode(UsepackageCommand("amsmath", [])),
      CommandNode(UsepackageCommand("amssymb", [])),
      CommandNode(UsepackageCommand("graphicx", [])),
      CommandNode(UsepackageCommand("geometry", [Opt("margin", StrArg("1in"))])),
      CommandNode(SetlengthCommand()) ]
  }

  // ---------------------------------------------------------------------
  // TexFile.unpack_content

  /** The form-feed character (code 12) that OCR output can contain. */
  const FormFeed: char := 12 as char

  /** `Command('vspace', arguments=['10pt'])`, which replaces each form feed. */
  function Vspace(): Command {
    Command("vspace", [StrArg("10pt")], [])
  }

  lemma VspaceText()
    ensures CommandText(Vspace()) == "\\vspace{10pt}"
  {
    assert Vspace().args[..0] == [];
  }

  /** `s.replace(FormFeed, Command('vspace', arguments=['10pt']).text)`. */
  function Patch(s: string): string {
    ReplaceAll(s, FormFeed, CommandText(Vspace()))
  }

  /** The final list comprehension of `unpack_content`. */
  function PatchAll(lines: seq<string>): (r: seq<string>)
    ensures |r| == |lines|
    ensures forall i :: 0 <= i < |lines| ==> r[i] == Patch(lines[i])
  {
    seq(|lines|, i requires 0 <= i < |lines| => Patch(lines[i]))
  }

  /** The `.text` of a node that is not an environment. */
  function LeafText(n: Node): string
    requires !n.EnvNode?
  {
    match n
    case TextNode(t) => t
    case CommandNode(c) => CommandText(c)
  }

  /**
   * The lines one object contributes: its text, or for an environment the
   * (already patched) unpacking of its content.
   */
  function Item(n: Node): seq<string>
    decreases n
  {
    match n
    case EnvNode(name, body, opts) =>
      PatchAll([CommandText(BeginCommand(name, opts))] + Gather(body) + [CommandText(EndCommand(name))])
    case TextNode(t) => [t]
    case CommandNode(c) => [CommandText(c)]
  }

  /** The `content` list `unpack_content` builds before patching. */
  function Gather(lst: seq<Node>): seq<string>
    decreases lst
  {
    if lst == [] then [] else Gather(lst[..|lst| - 1]) + Item(lst[|lst| - 1])
  }

  /** `unpack_content(lst)`. */
  function Unpack(lst: seq<Node>): seq<string> {
    PatchAll(Gather(lst))
  }

  lemma {:induction false} GatherAppend(a: seq<Node>, b: seq<Node>)
    ensures Gather(a + b) == Gather(a) + Gather(b)
    decreases |b|
  {
    if b == [] {
      assert a + b == a;
    } else {
      var n := |b| - 1;
      DropLastAppend(a, b);
      GatherAppend(a, b[..n]);
      SeqAssoc(Gather(a), Gather(b[..n]), Item(b[n]));
    }
  }

  /** Unpacking the environment's `content` list gives exactly its lines. */
  lemma UnpackEnvContent(name: string, body: seq<Node>, opts: seq<Opt>)
    ensures Unpack(EnvContent(name, body, opts)) == Item(EnvNode(name, body, opts))
  {
    var b := CommandNode(BeginCommand(name, opts));
    var e := CommandNode(EndCommand(name));
    assert [b][..0] == [] && [e][..0] == [];
    GatherAppend([b], body);
    GatherAppend([b] + body, [e]);
  }

  /** Unpacking distributes over concatenation (the preamble and the body unpack separately). */
  lemma UnpackAppend(a: seq<Node>, b: seq<Node>)
    ensures Unpack(a + b) == Unpack(a) + Unpack(b)
  {
    GatherAppend(a, b);
  }

  function NodeSize(n: Node): nat
    decreases n
  {
    match n
    case EnvNode(_, body, _) => 3 + SeqSize(body)
    case _ => 1
  }

  function SeqSize(lst: seq<Node>): nat
    decreases lst
  {
    if lst == [] then 0 else NodeSize(lst[0]) + SeqSize(lst[1..])
  }

  lemma {:induction false} SeqSizeAppend(a: seq<Node>, b: seq<Node>)
    ensures SeqSize(a + b) == SeqSize(a) + SeqSize(b)
  {
    if a == [] {
      assert a + b == b;
    } else {
      assert (a + b)[1..] == a[1..] + b;
      SeqSizeAppend(a[1..], b);
    }
  }

  lemma {:induction false} SeqSizeElem(lst: seq<Node>, i: nat)
    requires i < |lst|
    ensures NodeSize(lst[i]) <= SeqSize(lst)
  {
    if i > 0 {
      SeqSizeElem(lst[1..], i - 1);
    }
  }

  /** An environment's content is smaller than the environment. */
  lemma EnvContentSmaller(lst: seq<Node>, i: nat)
    requires i < |lst| && lst[i].EnvNode?
    ensures SeqSize(EnvContent(lst[i].name, lst[i].body, lst[i].opts)) < SeqSize(lst)
  {
    var n := lst[i];
    var b := CommandNode(BeginCommand(n.name, n.opts));
    var e := CommandNode(EndCommand(n.name));
    SeqSizeAppend([b], n.body);
    SeqSizeAppend([b] + n.body, [e]);
    assert [b][1..] == [] && [e][1..] == [];
    SeqSizeElem(lst, i);
  }

  /** `TexFile.unpack_content(lst)`. */
  method UnpackContent(lst: seq<Node>) returns (lines: seq<string>)
    ensures lines == Unpack(lst)
    decreases SeqSize(lst)
  {
    var content: seq<string> := [];
    for i := 0 to |lst|
      invariant content == Gather(lst[..i])
    {
      var obj := lst[i];
      assert lst[..i + 1][..i] == lst[..i];
      if obj.EnvNode? {
        EnvContentSmaller(lst, i);
        var envContent := UnpackContent(EnvContent(obj.name, obj.body, obj.opts));
        UnpackEnvContent(obj.name, obj.body, obj.opts);
        content := content + envContent;
      } else if obj.TextNode? {
        content := content + [obj.text];
      } else {
        var text := MakeText(obj.cmd);
        content := content + [text];
      }
    }
    assert lst[..|lst|] == lst;
    lines := seq(|content|, k requires 0 <= k < |content| => ReplaceAll(content[k], FormFeed, CommandText(Vspace())));
  }

  // ---------------------------------------------------------------------
  // What unpack_content produces

  lemma {:induction false} ReplaceRemoves(s: string, c: char, rep: string)
    requires c !in rep
    ensures c !in ReplaceAll(s, c, rep)
  {
    if s != [] {
      ReplaceRemoves(s[1..], c, rep);
    }
  }

  /** A patched line holds no form feed, and patching it again changes nothing. */
  lemma PatchClean(s: string)
    ensures FormFeed !in Patch(s)
    ensures Patch(Patch(s)) == Patch(s)
  {
    VspaceText();
    ReplaceRemoves(s, FormFeed, CommandText(Vspace()));
    ReplaceAbsent(Patch(s), FormFeed, CommandText(Vspace()));
  }

  /** No line of the output holds a form feed. */
  lemma UnpackNoFormFeed(lst: seq<Node>)
    ensures forall i :: 0 <= i < |Unpack(lst)| ==> FormFeed !in Unpack(lst)[i]
  {
    forall i | 0 <= i < |Unpack(lst)| ensures FormFeed !in Unpack(lst)[i] {
      PatchClean(Gather(lst)[i]);
    }
  }

  /** The lines of one object with nothing patched yet. */
  function FlatItem(n: Node): seq<string>
    decreases n
  {
    match n
    case EnvNode(name, body, opts) =>
      [CommandText(BeginCommand(name, opts))] + Flat(body) + [CommandText(EndCommand(name))]
    case TextNode(t) => [t]
    case CommandNode(c) => [CommandText(c)]
  }

  /** All lines, environments expanded in place, nothing patched. */
  function Flat(lst: seq<Node>): seq<string>
    decreases lst
  {
    if lst == [] then [] else Flat(lst[..|lst| - 1]) + FlatItem(lst[|lst| - 1])
  }

  lemma PatchAllAppend(a: seq<string>, b: seq<string>)
    ensures PatchAll(a + b) == PatchAll(a) + PatchAll(b)
  {
  }

  lemma PatchAllTwice(a: seq<string>)
    ensures PatchAll(PatchAll(a)) == PatchAll(a)
  {
    forall i | 0 <= i < |a| ensures Patch(Patch(a[i])) == Patch(a[i]) {
      PatchClean(a[i]);
    }
  }

  lemma {:induction false} ItemFlat(n: Node)
    ensures PatchAll(Item(n)) == PatchAll(FlatItem(n))
    decreases n
  {
    match n
    case EnvNode(name, body, opts) =>
      var b := CommandText(BeginCommand(name, opts));
      var e := CommandText(EndCommand(name));
      GatherFlat(body);
      PatchAllTwice([b] + Gather(body) + [e]);
      PatchAllAppend([b] + Gather(body), [e]);
      PatchAllAppend([b], Gather(body));
      PatchAllAppend([b] + Flat(body), [e]);
      PatchAllAppend([b], Flat(body));
    case TextNode(_) =>
    case CommandNode(_) =>
  }

  lemma {:induction false} GatherFlat(lst: seq<Node>)
    ensures PatchAll(Gather(lst)) == PatchAll(Flat(lst))
    decreases lst
  {
    if lst != [] {
      var n := |lst| - 1;
      GatherFlat(lst[..n]);
      ItemFlat(lst[n]);
      PatchAllAppend(Gather(lst[..n]), Item(lst[n]));
      PatchAllAppend(Flat(lst[..n]), FlatItem(lst[n]));
    }
  }

  /**
   * Patching at every level of the recursion gives the same lines as
   * expanding every environment first and replacing the form feeds once.
   */
  lemma UnpackIsPatchedFlat(lst: seq<Node>)
    ensures Unpack(lst) == PatchAll(Flat(lst))
  {
    GatherFlat(lst);
  }

  predicate NoEnvs(lst: seq<Node>) {
    forall i :: 0 <= i < |lst| ==> !lst[i].EnvNode?
  }

  /** Without environments there is one line per object, in order. */
  lemma {:induction false} FlatLeaves(lst: seq<Node>)
    requires NoEnvs(lst)
    ensures |Flat(lst)| == |lst|
    ensures forall i :: 0 <= i < |lst| ==> Flat(lst)[i] == LeafText(lst[i])
  {
    if lst != [] {
      var n := |lst| - 1;
      var init := lst[..n];
      assert NoEnvs(init) by {
        forall i | 0 <= i < n ensures !init[i].EnvNode? {
          assert init[i] == lst[i];
        }
      }
      FlatLeaves(init);
      assert Flat(lst) == Flat(init) + [LeafText(lst[n])];
      forall i | 0 <= i < |lst| ensures Flat(lst)[i] == LeafText(lst[i]) {
        if i < n {
          assert init[i] == lst[i];
        }
      }
    }
  }

  /** Objects other than environments give one patched line each, in order. */
  lemma UnpackLeaves(lst: seq<Node>)
    requires NoEnvs(lst)
    ensures |Unpack(lst)| == |lst|
    ensures forall i :: 0 <= i < |lst| ==> Unpack(lst)[i] == Patch(LeafText(lst[i]))
  {
    UnpackIsPatchedFlat(lst);
    FlatLeaves(lst);
  }

  /**
   * An environment whose body holds N objects, none an environment, gives
   * N + 2 lines: its begin line, one line per body object, its end line
   * (`BeginEndText` gives the begin and end lines).
   */
  lemma UnpackEnv(name: string, body: seq<Node>, opts: seq<Opt>)
    requires NoEnvs(body)
    ensures var r := Unpack([EnvNode(name, body, opts)]);
      |r| == |body| + 2 &&
      r[0] == Patch(CommandText(BeginCommand(name, opts))) &&
      (forall i :: 0 <= i < |body| ==> r[i + 1] == Patch(LeafText(body[i]))) &&
      r[|body| + 1] == Patch(CommandText(EndCommand(name)))
  {
    UnpackSingleEnv(name, body, opts);
    FlatLeaves(body);
    var r := Unpack([EnvNode(name, body, opts)]);
    var m := PatchAll(Flat(body));
    assert r == [Patch(CommandText(BeginCommand(name, opts)))] + m + [Patch(CommandText(EndCommand(name)))];
    assert |r| == |body| + 2;
    forall i | 0 <= i < |body| ensures r[i + 1] == Patch(LeafText(body[i])) {
      assert r[i + 1] == m[i];
    }
  }

  lemma UnpackSingleEnv(name: string, body: seq<Node>, opts: seq<Opt>)
    ensures Unpack([EnvNode(name, body, opts)]) ==
      [Patch(CommandText(BeginCommand(name, opts)))] + PatchAll(Flat(body)) + [Patch(CommandText(EndCommand(name)))]
  {
    var env := EnvNode(name, body, opts);
    UnpackIsPatchedFlat([env]);
    FlatSingle(env);
  }

  lemma FlatSingle(n: Node)
    ensures Flat([n]) == FlatItem(n)
  {
    assert [n][..0] == [];
  }

  /** The lines the default preamble is expected to produce. */
  function PreambleLines(): seq<string> {
    [
    "\\documentclass[a4paper,12pt]{article}",
    "\\usepackage{amsmath}",
    "\\usepackage{amssymb}",
    "\\usepackage{graphicx}",
    "\\usepackage[margin=1in]{geometry}",
    "\\setlength{\\parindent}{0pt}"]
  }

  /** The default preamble unpacks into exactly `PreambleLines()`. */
  lemma DefaultPreambleLines()
    ensures Unpack(DefaultPreamble()) == PreambleLines()
  {
    PreambleFlat();
    PreambleNoFormFeed();
    UnpackIsPatchedFlat(DefaultPreamble());
    forall i | 0 <= i < |PreambleLines()| ensures Patch(PreambleLines()[i]) == PreambleLines()[i] {
      ReplaceAbsent(PreambleLines()[i], FormFeed, CommandText(Vspace()));
    }
  }

  lemma PreambleNoFormFeed()
    ensures forall i :: 0 <= i < |PreambleLines()| ==> FormFeed !in PreambleLines()[i]
  {
    assert FormFeed !in PreambleLines()[0];
    assert FormFeed !in PreambleLines()[1];
    assert FormFeed !in PreambleLines()[2];
    assert FormFeed !in PreambleLines()[3];
    assert FormFeed !in PreambleLines()[4];
    assert FormFeed !in PreambleLines()[5];
  }

  /** Each preamble command renders as its expected line. */
  lemma PreambleTexts()
    ensures [CommandText(DocumentclassCommand()),
             CommandText(UsepackageCommand("amsmath", [])),
             CommandText(UsepackageCommand("amssymb", [])),
             CommandText(UsepackageCommand("graphicx", [])),
             CommandText(UsepackageCommand("geometry", [Opt("margin", StrArg("1in"))])),
             CommandText(SetlengthCommand())] == PreambleLines()
  {
    RenderDocumentclass();
    RenderUsepackage("amsmath");
    RenderUsepackage("amssymb");
    RenderUsepackage("graphicx");
    UsepackageLines();
    RenderGeometry();
    RenderSetlength();
  }

  /** Proof helper: the concatenated literal pieces of the three `\\usepackage` lines form that line. */
  lemma UsepackageLines()
    ensures "\\usepackage{" + "amsmath" + "}" == "\\usepackage{amsmath}"
    ensures "\\usepackage{" + "amssymb" + "}" == "\\usepackage{amssymb}"
    ensures "\\usepackage{" + "graphicx" + "}" == "\\usepackage{graphicx}"
  {
  }

  /** Expanding the default preamble gives its expected lines. */
  lemma PreambleFlat()
    ensures Flat(DefaultPreamble()) == PreambleLines()
  {
    var p := DefaultPreamble();
    assert NoEnvs(p);
    FlatSix(p);
    PreambleTexts();
  }

  lemma FlatSix(p: seq<Node>)
    requires |p| == 6 && NoEnvs(p)
    ensures Flat(p) == [LeafText(p[0]), LeafText(p[1]), LeafText(p[2]), LeafText(p[3]), LeafText(p[4]), LeafText(p[5])]
  {
    FlatLeaves(p);
  }

  /** A single string argument renders as that string in braces. */
  lemma RenderOneArg(x: string)
    ensures ArgsText([StrArg(x)]) == "{" + x + "}"
  {
    assert [StrArg(x)][..0] == [];
  }

  /** A command other than `begin` with one string argument: name, options, then the argument. */
  lemma RenderOneArgCommand(name: string, x: string, opts: seq<Opt>)
    requires name != "begin"
    ensures CommandText(Command(name, [StrArg(x)], opts)) == "\\" + name + BracketOptions(OptTexts(opts)) + "{" + x + "}"
  {
    RenderOneArg(x);
  }

  /** Two unkeyed options are comma-joined in one pair of brackets, before the argument. */
  lemma RenderTwoValues(name: string, x: string, v1: string, v2: string)
    requires name != "begin"
    ensures CommandText(Command(name, [StrArg(x)], [Opt("", StrArg(v1)), Opt("", StrArg(v2))]))
      == "\\" + name + "[" + v1 + "," + v2 + "]" + "{" + x + "}"
  {
    var o1, o2 := Opt("", StrArg(v1)), Opt("", StrArg(v2));
    RenderOneArgCommand(name, x, [o1, o2]);
    OptTextsPair(o1, o2);
    var items := [v1, v2];
    assert items[1..] == [v2];
    assert Join(items, ',') == v1 + "," + v2;
    assert BracketOptions(items) == "[" + v1 + "," + v2 + "]";
  }

  /** A keyed option renders as `key=value` in brackets, before the argument. */
  lemma RenderKeyedOption(name: string, x: string, key: string, v: string)
    requires name != "begin" && key != ""
    ensures CommandText(Command(name, [StrArg(x)], [Opt(key, StrArg(v))]))
      == "\\" + name + "[" + key + "=" + v + "]" + "{" + x + "}"
  {
    var o := Opt(key, StrArg(v));
    RenderOneArgCommand(name, x, [o]);
    OptTextsSingle(o);
  }

  lemma OptTextsSingle(o: Opt)
    ensures OptTexts([o]) == [OptText(o)]
  {
    assert [o][..0] == [];
  }

  lemma OptTextsPair(o1: Opt, o2: Opt)
    ensures OptTexts([o1, o2]) == [OptText(o1), OptText(o2)]
  {
    assert [o1, o2][..1] == [o1];
    OptTextsSingle(o1);
  }

  /** Two arguments and no options: each argument in its own braces, in order. */
  lemma RenderTwoArgs(name: string, a1: Arg, a2: Arg)
    requires name != "begin"
    ensures CommandText(Command(name, [a1, a2], [])) == "\\" + name + "{" + ArgText(a1) + "}" + "{" + ArgText(a2) + "}"
  {
    var t1, t2 := "{" + ArgText(a1) + "}", "{" + ArgText(a2) + "}";
    assert [a1] + [a2] == [a1, a2];
    ArgsTextCons(a1, [a2]);
    ArgsTextCons(a2, []);
    AppendEmpty(t2);
    AppendEmpty(t1 + t2);
  }

  lemma RenderDocumentclass()
    ensures CommandText(DocumentclassCommand()) == "\\documentclass[a4paper,12pt]{article}"
  {
    RenderTwoValues("documentclass", "article", "a4paper", "12pt");
    DocumentclassLine();
  }

  /** Proof helper: the concatenated literal pieces of the `\\documentclass` line form that line. */
  lemma DocumentclassLine()
    ensures "\\" + "documentclass" + "[" + "a4paper" + "," + "12pt" + "]" + "{" + "article" + "}"
      == "\\documentclass[a4paper,12pt]{article}"
  {
  }

  lemma RenderUsepackage(pkg: string)
    ensures CommandText(UsepackageCommand(pkg, [])) == "\\usepackage{" + pkg + "}"
  {
    RenderOneArgCommand("usepackage", pkg, []);
  }

  lemma RenderGeometry()
    ensures CommandText(UsepackageCommand("geometry", [Opt("margin", StrArg("1in"))])) == "\\usepackage[margin=1in]{geometry}"
  {
    RenderKeyedOption("usepackage", "geometry", "margin", "1in");
    GeometryLine();
  }

  /** Proof helper: the concatenated literal pieces of the geometry line form that line. */
  lemma GeometryLine()
    ensures "\\" + "usepackage" + "[" + "margin" + "=" + "1in" + "]" + "{" + "geometry" + "}"
      == "\\usepackage[margin=1in]{geometry}"
  {
  }

  lemma RenderSetlength()
    ensures CommandText(SetlengthCommand()) == "\\setlength{\\parindent}{0pt}"
  {
    RenderTwoArgs("setlength", CmdArg(Command("parindent", [], [])), StrArg("0pt"));
    BareCommand("parindent");
    SetlengthLine();
  }

  /** Proof helper: the concatenated literal pieces of the `\\setlength` line form that line. */
  lemma SetlengthLine()
    ensures "\\" + "setlength" + "{" + ("\\" + "parindent") + "}" + "{" + "0pt" + "}" == "\\setlength{\\parindent}{0pt}"
  {
  }
}
