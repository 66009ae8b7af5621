/** Paths of the form 0:/dir/file, src/fs/pparser.c. */
module PathParser {
  import opened Common
  import opened CString
  import opened LinkedList

  /** MAEROS_MAX_PATH: the longest path, and the size of a part buffer. */
  const MAX_PATH: nat := 108
  const SLASH: string := "/"

  // ---------- what a path means ----------

  /** A drive digit, a colon and a slash, in a string of at most 108 characters. */
  predicate Accepted(path: string) {
    3 <= |path| <= 108 && '0' <= path[0] <= '9' && path[1] == ':' && path[2] == '/'
  }

  function DriveOf(path: string): int
    requires |path| > 0
  {
    path[0] as int - '0' as int
  }

  /** All pieces between slashes, empty ones included. */
  function Split(s: string): (r: seq<string>)
    ensures |r| >= 1
    decreases |s|
  {
    var w := Word(s, SLASH);
    if |w| == |s| then [s] else [w] + Split(s[|w| + 1..])
  }

  /** The pieces before the first empty one. */
  function BeforeEmpty(ps: seq<string>): seq<string> {
    if ps == [] || ps[0] == "" then [] else [ps[0]] + BeforeEmpty(ps[1..])
  }

  /** The parts of the text after the drive. */
  function Parts(s: string): seq<string> {
    BeforeEmpty(Split(s))
  }

  /** How the parser consumes its input: one piece and the slash behind it. */
  lemma PartsStep(s: string)
    ensures var w := Word(s, SLASH);
            Parts(s) == if w == "" then [] else [w] + (if |w| == |s| then [] else Parts(s[|w| + 1..]))
  {
    var w := Word(s, SLASH);
    if |w| == |s| {
      var rest := Split(s)[1..];
      assert w == s && rest == [] && BeforeEmpty(rest) == [];
    } else {
      assert Split(s)[1..] == Split(s[|w| + 1..]);
    }
  }

  // ---------- printing ----------

  function Join(parts: seq<string>): string {
    if parts == [] then "" else if |parts| == 1 then parts[0] else parts[0] + SLASH + Join(parts[1..])
  }

  function Print(drive: nat, parts: seq<string>): string
    requires drive < 10
  {
    ['0' + drive as char] + ":/" + Join(parts)
  }

  predicate PlainPart(p: string) {
    p != "" && '/' !in p
  }

  lemma {:induction false} WordBeforeSlash(p: string, rest: string)
    requires '/' !in p && (rest == "" || rest[0] == '/')
    ensures Word(p + rest, SLASH) == p
  {
    if p == "" {
      assert p + rest == rest;
    } else {
      assert (p + rest)[1..] == p[1..] + rest;
      WordBeforeSlash(p[1..], rest);
    }
  }

  lemma {:induction false} PartsOfJoin(parts: seq<string>)
    requires forall i :: 0 <= i < |parts| ==> PlainPart(parts[i])
    ensures Parts(Join(parts)) == parts
  {
    hide Parts, Word;
    if parts == [] {
      PartsStep("");
    } else {
      var p, s := parts[0], Join(parts);
      PartsStep(s);
      if |parts| == 1 {
        assert p + "" == p;
        WordBeforeSlash(p, "");
      } else {
        var rest := Join(parts[1..]);
        assert s == p + (SLASH + rest);
        WordBeforeSlash(p, SLASH + rest);
        assert s[|p| + 1..] == rest;
        PartsOfJoin(parts[1..]);
      }
    }
  }

  lemma {:induction false} PartsArePlain(s: string, i: nat)
    requires i < |Parts(s)|
    ensures PlainPart(Parts(s)[i])
    decreases |s|
  {
    var w := Word(s, SLASH);
    PartsStep(s);
    if i > 0 {
      PartsArePlain(s[|w| + 1..], i - 1);
    }
  }

  /** Parsing a printed path gives back the drive and the parts exactly when every part is a plain name. */
  lemma PrintParse(drive: nat, parts: seq<string>)
    requires drive < 10 && |Print(drive, parts)| <= MAX_PATH
    ensures Accepted(Print(drive, parts)) && DriveOf(Print(drive, parts)) == drive
    ensures Parts(Print(drive, parts)[3..]) == parts <==> forall i :: 0 <= i < |parts| ==> PlainPart(parts[i])
  {
    var path := Print(drive, parts);
    assert path[3..] == Join(parts);
    if forall i :: 0 <= i < |parts| ==> PlainPart(parts[i]) {
      PartsOfJoin(parts);
    }
    if Parts(Join(parts)) == parts {
      forall i: nat | i < |parts|
        ensures PlainPart(parts[i])
      {
        PartsArePlain(Join(parts), i);
      }
    }
  }

  // ---------- the parser ----------

  /** The character at a pointer into the C string; NUL at its end. */
  function CharAt(path: string, i: nat): char {
    if i < |path| then path[i] else NUL
  }

  method GetDriveByPath(path: string) returns (drive: int, cursor: nat)
    requires NUL !in path && |path| <= MAX_PATH
    ensures drive == if Accepted(path) then DriveOf(path) else -EBADPATH
    ensures Accepted(path) ==> cursor == 3
  {
    cursor := 0;
    var len := 0;
    while len < MAX_PATH && CharAt(path, len) != NUL
      invariant 0 <= len <= |path|
    {
      len := len + 1;
    }
    if !(len >= 3 && IsDigit(CharAt(path, 0)) && CharAt(path, 1) == ':' && CharAt(path, 2) == '/') {
      return -EBADPATH, 0;
    }
    return CharAt(path, 0) as int - 48, 3;
  }

  /** pathparser_get_path_part: one piece into a zeroed buffer, which it fits with its terminator. */
  method GetPathPart(path: string, cursor: nat) returns (part: string, next: nat)
    requires NUL !in path && 3 <= cursor <= |path| <= MAX_PATH
    ensures part == Word(path[cursor..], SLASH)
    ensures next == if cursor + |part| == |path| then |path| else cursor + |part| + 1
    ensures |part| + 1 <= 108
  {
    var buffer := new char[108](_ => NUL);
    next := cursor;
    var i := 0;
    while CharAt(path, next) != '/' && CharAt(path, next) != NUL
      invariant 0 <= i && next == cursor + i <= |path|
      invariant buffer[..i] == path[cursor..next]
      invariant forall k :: 0 <= k < 108 ==> (buffer[k] == NUL <==> i <= k)
      invariant forall k :: cursor <= k < next ==> path[k] !in SLASH
      decreases |path| - next
    {
      buffer[i] := CharAt(path, next);
      next := next + 1;
      i := i + 1;
    }
    WordEnds(path[cursor..], SLASH, i);
    assert path[cursor..next] == path[cursor..][..i];
    CStrIs(buffer[..], 0, i);
    part := CStr(buffer[..], 0);
    if CharAt(path, next) == '/' {
      next := next + 1;
    }
  }

  class PathRoot {
    const drive_no: int
    var first: Node?<string>

    constructor (drive: int)
      ensures drive_no == drive && first == null
    {
      drive_no := drive;
      first := null;
    }
  }

  /**
   pathparser_parse: null exactly for the strings that are not paths, and otherwise
   the drive and the list of the components before the first empty one.
   */
  method Parse(path: string) returns (root: PathRoot?, ghost nodes: seq<Node<string>>)
    requires NUL !in path
    ensures root != null <==> Accepted(path)
    ensures root != null ==>
              && root.drive_no == DriveOf(path) && Chain(root.first, nodes)
              && Values(nodes) == Parts(path[3..])
  {
    root, nodes := null, [];
    if |path| > MAX_PATH {
      return;
    }
    var drive, cursor := GetDriveByPath(path);
    if drive < 0 {
      return;
    }
    root := new PathRoot(drive);
    PartsStep(path[3..]);
    var part, next := GetPathPart(path, cursor);
    if part == "" {
      return;
    }
    var first_part := new Node(part);
    root.first := first_part;
    PartsAt(path, 3, next, part);
    nodes := RestOfParts(path, next, first_part);
  }

  /** The loop of pathparser_parse, after the first part. */
  method RestOfParts(path: string, cursor: nat, first_part: Node<string>) returns (ghost nodes: seq<Node<string>>)
    requires NUL !in path && 3 <= cursor <= |path| <= MAX_PATH && first_part.next == null
    modifies first_part
    ensures Chain(first_part, nodes) && Values(nodes) == [first_part.value] + Parts(path[cursor..])
  {
    hide Chain, Values, Word, BeforeEmpty, Split;
    ghost var all := [first_part.value] + Parts(path[cursor..]);
    ListOfOne(first_part, all);
    nodes := [first_part];
    var last, at := first_part, cursor;
    assert all[1..] == Parts(path[at..]);
    var part, next := GetPathPart(path, at);
    while part != ""
      invariant 3 <= at <= |path| && part == Word(path[at..], SLASH)
      invariant next == if at + |part| == |path| then |path| else at + |part| + 1
      invariant 1 <= |nodes| <= |all| && last == nodes[|nodes| - 1] && (last == first_part || fresh(last))
      invariant Chain(first_part, nodes) && Values(nodes) == all[..|nodes|]
      invariant all[|nodes|..] == Parts(path[at..])
      decreases |path| - at
    {
      PartsAt(path, at, next, part);
      assert all[|nodes|] == part && all[|nodes| + 1..] == Parts(path[next..]);
      last := Append(first_part, nodes, last, part);
      ValuesGrow(nodes, last, all);
      nodes := nodes + [last];
      at := next;
      part, next := GetPathPart(path, at);
    }
    PartsStep(path[at..]);
    assert all[..|nodes|] == all;
  }

  /** Parts from a position that starts with a non-empty piece. */
  lemma PartsAt(path: string, at: nat, next: nat, part: string)
    requires at <= |path| && part == Word(path[at..], SLASH) && part != ""
    requires next == if at + |part| == |path| then |path| else at + |part| + 1
    ensures at < next <= |path| && Parts(path[at..]) == [part] + Parts(path[next..])
  {
    PartsStep(path[at..]);
    if at + |part| == |path| {
      assert path[next..] == "";
      PartsStep("");
    } else {
      assert path[at..][|part| + 1..] == path[next..];
    }
  }
}
