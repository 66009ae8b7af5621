/**
 From a command line to argc and argv: peachos_parse_command
 (programs/stdlib/src/peachos.c) and process_inject_arguments (src/task/process.c).
 A budget says how many allocations succeed before the first that fails.
 */
module Command {
  import opened Common
  import opened CString
  import opened LinkedList

  const SPACE: string := " "

  /** The arguments of a command line: its words, each cut to what 512 bytes hold. */
  function Arguments(line: string): seq<string> {
    CutAll(Tokens(Cut(line, 1025), SPACE))
  }

  function CutAll(ts: seq<string>): (r: seq<string>)
    ensures |r| == |ts| && forall i :: 0 <= i < |ts| ==> r[i] == Cut(ts[i], 512)
  {
    seq(|ts|, i requires 0 <= i < |ts| => Cut(ts[i], 512))
  }

  /** struct command_argument; the characters of its 512-byte buffer are kept as a string. */
  type CommandArgument = Node<string>

  /** A copy of a C string in a fresh 512-byte buffer. */
  method CopyArgument(b: array<char>, start: nat) returns (s: string)
    requires Terminated(b[..], start)
    ensures s == Cut(CStr(b[..], start), 512)
  {
    var copy := new char[512];
    var token := CStr(b[..], start);
    Strncpy(copy, token, 512);
    s := CStr(copy[..], 0);
  }

  /**
   peachos_parse_command, with a clean cursor.  The list holds the words of the
   line, as many as could be allocated, and the cursor is clean again exactly when
   all of them were.
   */
  method ParseCommand(tk: Tokenizer, command: string, max: int, budget: nat)
    returns (root: Node?<string>, ghost nodes: seq<CommandArgument>)
    requires tk.buffer == null && NUL !in command
    modifies tk
    ensures Chain(root, nodes) && tk.Valid()
    ensures max >= 1025 ==> nodes == [] && tk.buffer == null
    ensures max < 1025 ==>
              var args := Arguments(command);
              && |nodes| == (if budget < |args| then budget else |args|)
              && Values(nodes) == args[..|nodes|]
              && (tk.buffer == null <==> |args| <= budget)
  {
    root, nodes := null, [];
    if max >= 1025 {
      return;
    }
    var scommand := new char[1025];
    Strncpy(scommand, command, 1025);
    hide CStr, Tokens;
    ghost var ts := Tokens(CStr(scommand[..], 0), SPACE);
    var token, start := tk.Strtok(scommand, SPACE);
    if token == null {
      return;
    }
    if budget == 0 {
      return;
    }
    var text := CopyArgument(scommand, start);
    root := new Node(text);
    nodes := RestOfList(tk, scommand, ts, root, budget);
  }

  /** The state of the token loop: the tokens from k on are still to come. */
  ghost predicate Pending(tk: Tokenizer, b: array<char>, ts: seq<string>, k: nat, token: array?<char>, start: nat)
    reads tk, tk.buffer, b
  {
    && tk.Valid()
    && if token == null then k == |ts| && tk.buffer == null
       else token == b && tk.buffer == b && k < |ts|
            && Terminated(b[..], start) && CStr(b[..], start) == ts[k]
            && Tokens(tk.Left(), SPACE) == ts[k + 1..]
  }

  method NextToken(tk: Tokenizer, b: array<char>, ghost ts: seq<string>, ghost k: nat)
    returns (token: array?<char>, start: nat)
    requires tk.Valid() && tk.buffer == b && k <= |ts| && Tokens(tk.Left(), SPACE) == ts[k..]
    modifies tk, b
    ensures Pending(tk, b, ts, k, token, start)
  {
    hide CStr, Tokens;
    token, start := tk.Strtok(null, SPACE);
  }

  /** The loop of peachos_parse_command, after the first argument. */
  method RestOfList(tk: Tokenizer, b: array<char>, ghost ts: seq<string>, root: CommandArgument, budget: nat)
    returns (ghost nodes: seq<CommandArgument>)
    requires tk.Valid() && tk.buffer == b && |ts| >= 1 && Tokens(tk.Left(), SPACE) == ts[1..] && budget >= 1
    requires root.next == null && root.value == Cut(ts[0], 512)
    modifies tk, b, root
    ensures Chain(root, nodes) && tk.Valid()
    ensures |nodes| == (if budget < |ts| then budget else |ts|) && Values(nodes) == CutAll(ts)[..|nodes|]
    ensures tk.buffer == null <==> |ts| <= budget
  {
    ghost var all := CutAll(ts);
    hide CStr, Tokens, Chain, Cut, Values, Pending;
    ListOfOne(root, all);
    nodes := [root];
    var current := root;
    var made := 1;
    var token, start := NextToken(tk, b, ts, 1);
    while token != null
      invariant 1 <= made == |nodes| <= |ts| && made <= budget && Pending(tk, b, ts, made, token, start)
      invariant current == root || fresh(current)
      invariant Chain(root, nodes) && current == nodes[made - 1]
      invariant Values(nodes) == all[..made]
      decreases |ts| - made, token != null
    {
      PendingToken(tk, b, ts, made, token, start);
      if made == budget {
        break;
      }
      current, token, start := AddArgument(tk, b, ts, made, root, nodes, current, start);
      nodes := nodes + [current];
      made := made + 1;
    }
    PendingToken(tk, b, ts, made, token, start);
  }

  /** One turn of the loop: a node for the current token, then the next token. */
  method AddArgument(tk: Tokenizer, b: array<char>, ghost ts: seq<string>, ghost made: nat,
                     root: CommandArgument, ghost nodes: seq<CommandArgument>, current: CommandArgument, start: nat)
    returns (n: CommandArgument, token: array?<char>, start': nat)
    requires nodes != [] && |nodes| == made && Chain(root, nodes) && current == nodes[made - 1]
    requires Pending(tk, b, ts, made, b, start) && Values(nodes) == CutAll(ts)[..made]
    modifies tk, b, current
    ensures fresh(n) && Chain(root, nodes + [n]) && Values(nodes + [n]) == CutAll(ts)[..made + 1]
    ensures Pending(tk, b, ts, made + 1, token, start')
  {
    hide CStr, Tokens, Chain, Cut, Values, Pending;
    PendingToken(tk, b, ts, made, b, start);
    var text := CopyArgument(b, start);
    n := Append(root, nodes, current, text);
    ValuesGrow(nodes, n, CutAll(ts));
    token, start' := NextToken(tk, b, ts, made + 1);
  }

  lemma PendingToken(tk: Tokenizer, b: array<char>, ts: seq<string>, k: nat, token: array?<char>, start: nat)
    requires Pending(tk, b, ts, k, token, start)
    ensures tk.Valid()
    ensures token == null ==> k == |ts| && tk.buffer == null
    ensures token != null ==> token == b && tk.buffer == b && k < |ts| && Terminated(b[..], start) && CStr(b[..], start) == ts[k]
                              && Tokens(tk.Left(), SPACE) == ts[k + 1..]
  {
  }

  // ---------- the kernel side ----------

  /** process->arguments; argv holds the strings its pointers lead to. */
  class ProcessArguments {
    var argc: int
    var argv: seq<string>

    constructor ()
      ensures argc == 0 && argv == []
    {
      argc, argv := 0, [];
    }
  }

  method CountArguments(root: Node?<string>, ghost nodes: seq<CommandArgument>) returns (i: int)
    requires Chain(root, nodes)
    ensures i == |nodes|
  {
    var current := root;
    i := 0;
    while current != null
      invariant 0 <= i <= |nodes| && current == if i < |nodes| then nodes[i] else null
      decreases |nodes| - i
    {
      i := i + 1;
      current := current.next;
    }
  }

  /** The sizes asked of process_malloc for n arguments: the pointers of argv, then a buffer for each argument. */
  function Requests(n: nat): (r: seq<nat>)
    ensures |r| == n + 1
  {
    [4 * n] + seq(n, _ => 512)
  }

  /**
   process_inject_arguments: one allocation for argv and one for each argument.
   When they all succeed argc and argv describe the list, each argument copied
   through a 512-byte buffer; otherwise nothing is set.  The allocations granted
   stay recorded with the process, also those made before one fails.
   */
  method InjectArguments(process: ProcessArguments, root: Node?<string>, ghost nodes: seq<CommandArgument>, budget: nat)
    returns (res: int, granted: seq<nat>)
    requires Chain(root, nodes) && forall i :: 0 <= i < |nodes| ==> NUL !in nodes[i].value
    modifies process
    ensures res == if nodes == [] then -EIO else if budget <= |nodes| then -ENOMEM else 0
    ensures res == 0 ==> process.argc == |nodes| && process.argv == CutAll(Values(nodes))
    ensures res != 0 ==> process.argc == old(process.argc) && process.argv == old(process.argv)
    ensures granted == if nodes == [] then [] else Requests(|nodes|)[..if budget <= |nodes| then budget else |nodes| + 1]
  {
    res, granted := 0, [];
    var current := root;
    var i := 0;
    var argc := CountArguments(root, nodes);
    if argc == 0 {
      return -EIO, [];
    }
    if budget == 0 {
      return -ENOMEM, [];
    }
    granted := [4 * argc];
    var argv: seq<string> := [];
    while current != null
      invariant 0 <= i == |argv| <= |nodes| && i < budget && current == if i < |nodes| then nodes[i] else null
      invariant argv == CutAll(Values(nodes))[..i] && granted == Requests(|nodes|)[..i + 1]
      invariant process.argc == old(process.argc) && process.argv == old(process.argv)
      decreases |nodes| - i
    {
      if i + 1 == budget {
        return -ENOMEM, granted;
      }
      var argument_str := new char[512];
      granted := granted + [512];
      Strncpy(argument_str, current.value, 512);
      argv := argv + [CStr(argument_str[..], 0)];
      current := current.next;
      i := i + 1;
    }
    process.argc := argc;
    process.argv := argv;
  }

  /**
   The whole way: with enough memory, a program started from a command line gets
   exactly the words of the line, and the tokeniser is clean for the next command.
   */
  method CommandLine(tk: Tokenizer, process: ProcessArguments, command: string, max: int, user_budget: nat, kernel_budget: nat)
    returns (res: int)
    requires tk.buffer == null && NUL !in command && max < 1025
    requires |Arguments(command)| <= user_budget && |Arguments(command)| < kernel_budget
    modifies tk, process
    ensures tk.buffer == null
    ensures res == if Arguments(command) == [] then -EIO else 0
    ensures res == 0 ==> process.argc == |Arguments(command)| && process.argv == Arguments(command)
  {
    var root, nodes := ParseCommand(tk, command, max, user_budget);
    ghost var args := Arguments(command);
    ArgumentsFit(command);
    assert Values(nodes) == args;
    assert forall i :: 0 <= i < |nodes| ==> nodes[i].value == Values(nodes)[i];
    var r, _ := InjectArguments(process, root, nodes, kernel_budget);
    res := r;
  }

  /** Arguments are non-empty, free of spaces and NULs, at most 511 characters, and survive a second cut. */
  lemma ArgumentsFit(line: string)
    requires NUL !in line
    ensures forall i :: 0 <= i < |Arguments(line)| ==>
              Arguments(line)[i] != "" && |Arguments(line)[i]| < 512 && NUL !in Arguments(line)[i] && ' ' !in Arguments(line)[i]
    ensures CutAll(Arguments(line)) == Arguments(line)
  {
    var ts, args := Tokens(Cut(line, 1025), SPACE), Arguments(line);
    forall i | 0 <= i < |args|
      ensures args[i] != "" && |args[i]| < 512 && NUL !in args[i] && ' ' !in args[i]
    {
      TokensAreWords(Cut(line, 1025), SPACE, i);
      CutIsPrefix(ts[i], 512);
    }
  }

  lemma CutIsPrefix(s: string, count: nat)
    requires count > 1
    ensures |Cut(s, count)| < count && (s != "" ==> Cut(s, count) != "")
    ensures forall c :: c in Cut(s, count) ==> c in s
  {
  }

  /** Arguments separated by spaces come back as they were, up to the limits of the buffers. */
  lemma ArgumentsRoundTrip(ss: seq<string>)
    requires forall i :: 0 <= i < |ss| ==> ss[i] != "" && ' ' !in ss[i] && |ss[i]| < 512
    requires |Joined(ss)| < 1025
    ensures Arguments(Joined(ss)) == ss
  {
    TokensOfJoined(ss);
  }
}
