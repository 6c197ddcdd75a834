/** The command node (`command_t`) and the argument descriptor
    (`arg_node_t`), with the operations of struct_funcs.c that read a single
    node: its hash and its equality. */
module Commands {
  import opened CStrings
  import opened Hashing

  /** An argument descriptor: its tag, its conversion format and the width
      of the converted value in bytes. */
  datatype ArgNode = ArgNode(key: string, format: string, size: nat)

  /** A handler function pointer, named by an identifier. */
  type Handler = nat

  datatype Option<T> = None | Some(value: T)

  /** `cmd_proc_t`, which may be NULL. */
  type Action = Option<Handler>

  /** A command node. `syntax` holds `argCnt` descriptors (the empty
      sequence stands for the NULL `syntax` pointer) and `subcommands` is the
      content of the node's child list. */
  datatype Cmd = Cmd(
    name: string,
    argCnt: nat,
    syntax: seq<ArgNode>,
    action: Action,
    subcommands: seq<Cmd>)

  /** A name the hash can fold: a C string shorter than 256 characters. */
  predicate GoodName(s: string) {
    NUL !in s && |s| < 256
  }

  /** `cmd_hash`: only the name is hashed; the argument descriptors never
      influence which slot a command lands in. */
  method CmdHash(cmd: Cmd) returns (h: bv32)
    requires GoodName(cmd.name)
    ensures h == HashOf(cmd.name)
  {
    CStrOfPlain(cmd.name);
    h := Hash(cmd.name);
  }

  /** `cmd_eq`: equal names, equal argument counts, and the same descriptor
      at every position. Descriptors live in one static table whose keys are
      pairwise distinct, so comparing key pointers is comparing keys. */
  method CmdEq(cmd1: Cmd, cmd2: Cmd) returns (r: bool)
    requires NUL !in cmd1.name && NUL !in cmd2.name
    requires |cmd1.syntax| == cmd1.argCnt && |cmd2.syntax| == cmd2.argCnt
    ensures r <==> cmd1.name == cmd2.name && cmd1.argCnt == cmd2.argCnt
                   && forall i :: 0 <= i < cmd1.argCnt ==> cmd1.syntax[i].key == cmd2.syntax[i].key
  {
    CStrOfPlain(cmd1.name);
    CStrOfPlain(cmd2.name);
    if !(StrEq(cmd1.name, cmd2.name) && cmd1.argCnt == cmd2.argCnt) {
      return false;
    }
    for i := 0 to cmd1.argCnt
      invariant forall k :: 0 <= k < i ==> cmd1.syntax[k].key == cmd2.syntax[k].key
    {
      if cmd1.syntax[i].key != cmd2.syntax[i].key {
        return false;
      }
    }
    return true;
  }

  // ---------------------------------------------------------------------
  // Paths through the command tree (what a `command_t *` into it denotes)

  /** `path` names a node reachable from `c` through child indices. */
  predicate ValidPath(c: Cmd, path: seq<nat>)
    decreases |path|
  {
    path == [] || (path[0] < |c.subcommands| && ValidPath(c.subcommands[path[0]], path[1..]))
  }

  /** The node `path` leads to. */
  function Follow(c: Cmd, path: seq<nat>): Cmd
    requires ValidPath(c, path)
    decreases |path|
  {
    if path == [] then c else Follow(c.subcommands[path[0]], path[1..])
  }

  /** One more step down a valid path, to the child at index `j`. */
  lemma {:induction false} PathExtend(c: Cmd, path: seq<nat>, j: nat)
    requires ValidPath(c, path) && j < |Follow(c, path).subcommands|
    ensures ValidPath(c, path + [j])
    ensures Follow(c, path + [j]) == Follow(c, path).subcommands[j]
    decreases |path|
  {
    if path != [] {
      PathExtend(c.subcommands[path[0]], path[1..], j);
      assert (path + [j])[1..] == path[1..] + [j];
    }
  }

  /** Every name in the tree is a C string. */
  predicate WellNamed(c: Cmd)
    decreases c
  {
    NUL !in c.name && forall k :: 0 <= k < |c.subcommands| ==> WellNamed(c.subcommands[k])
  }

  lemma {:induction false} FollowWellNamed(c: Cmd, path: seq<nat>)
    requires WellNamed(c) && ValidPath(c, path)
    ensures WellNamed(Follow(c, path))
    decreases |path|
  {
    if path != [] {
      FollowWellNamed(c.subcommands[path[0]], path[1..]);
    }
  }

  /** The same node, seen without its child list. */
  predicate SameHeader(a: Cmd, b: Cmd) {
    a.name == b.name && a.argCnt == b.argCnt && a.syntax == b.syntax && a.action == b.action
  }

  /** The tree `c` after `arraylist_push(&parent->subcommands, child)` for
      the parent at `path`. */
  function AppendAt(c: Cmd, path: seq<nat>, child: Cmd): (r: Cmd)
    requires ValidPath(c, path)
    ensures SameHeader(r, c)
    ensures ValidPath(r, path)
    ensures Follow(r, path).subcommands == Follow(c, path).subcommands + [child]
    ensures SameHeader(Follow(r, path), Follow(c, path))
    decreases |path|
  {
    if path == [] then c.(subcommands := c.subcommands + [child])
    else
      var k := path[0];
      var sub := AppendAt(c.subcommands[k], path[1..], child);
      var r := c.(subcommands := c.subcommands[k := sub]);
      assert r.subcommands[k] == sub;
      r
  }

  /** Appending below one parent changes no node other than that parent,
      and that one only by its new last child: every path of the old tree
      still leads to a node with the same name, arguments and handler, and
      every node other than the parent keeps its number of children. */
  lemma {:induction false} AppendAtChangesOnlyParent(c: Cmd, path: seq<nat>, child: Cmd, q: seq<nat>)
    requires ValidPath(c, path) && ValidPath(c, q)
    ensures ValidPath(AppendAt(c, path, child), q)
    ensures SameHeader(Follow(AppendAt(c, path, child), q), Follow(c, q))
    ensures |Follow(AppendAt(c, path, child), q).subcommands|
            == |Follow(c, q).subcommands| + (if q == path then 1 else 0)
    decreases |q|
  {
    var r := AppendAt(c, path, child);
    if q == [] {
    } else if path == [] {
      assert r.subcommands[q[0]] == c.subcommands[q[0]];
    } else if q[0] == path[0] {
      AppendAtChangesOnlyParent(c.subcommands[q[0]], path[1..], child, q[1..]);
      assert q[1..] == path[1..] <==> q == path;
    } else {
      assert r.subcommands[q[0]] == c.subcommands[q[0]];
    }
  }

  /** Appending a well-named child keeps every name a C string. */
  lemma {:induction false} AppendAtWellNamed(c: Cmd, path: seq<nat>, child: Cmd)
    requires WellNamed(c) && WellNamed(child) && ValidPath(c, path)
    ensures WellNamed(AppendAt(c, path, child))
    decreases |path|
  {
    var r := AppendAt(c, path, child);
    if path == [] {
      assert forall k :: 0 <= k < |r.subcommands| ==>
        r.subcommands[k] == if k < |c.subcommands| then c.subcommands[k] else child;
    } else {
      AppendAtWellNamed(c.subcommands[path[0]], path[1..], child);
      assert forall k :: 0 <= k < |r.subcommands| && k != path[0] ==> r.subcommands[k] == c.subcommands[k];
    }
  }
}
