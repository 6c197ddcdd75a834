/** cmd_main.c: registration. A spec line is duplicated and preprocessed;
    the words that already name a chain of registered commands (a root of
    the table, then a child, a grandchild, ...) are skipped; the rest of
    the line is parsed as one new command, which becomes either a new root
    of the table or the new last child of the deepest command matched. */
module Registry {
  import opened CStrings
  import opened Commands
  import opened Storage
  import opened CmdMaps
  import opened ArrayLists

  // ---------------------------------------------------------------------
  // find_subcommand

  /** Index of the first command of `list` named `key`: the lowest such
      index, and none exactly when no command of the list has that name. */
  function FirstNamed(list: seq<Cmd>, key: string): (r: Option<nat>)
    ensures r.None? <==> forall j :: 0 <= j < |list| ==> list[j].name != key
    ensures r.Some? ==>
      r.value < |list| && list[r.value].name == key
      && forall i :: 0 <= i < r.value ==> list[i].name != key
    decreases |list|
  {
    if list == [] then None
    else if list[0].name == key then Some(0)
    else
      match FirstNamed(list[1..], key)
      case None =>
        assert forall j :: 1 <= j < |list| ==> list[j] == list[1..][j - 1];
        None
      case Some(j) =>
        assert forall i :: 1 <= i <= j ==> list[i] == list[1..][i - 1];
        Some(j + 1)
  }

  /** `find_subcommand(key, list)`: scan the child list in order and stop
      at the first child whose name `str_eq`s the key. */
  method FindSubcommand(key: string, list: seq<Cmd>) returns (r: Option<nat>)
    requires NUL !in key && forall j :: 0 <= j < |list| ==> NUL !in list[j].name
    ensures r == FirstNamed(list, key)
  {
    CStrOfPlain(key);
    for j := 0 to |list|
      invariant forall i :: 0 <= i < j ==> list[i].name != key
    {
      CStrOfPlain(list[j].name);
      if StrEq(key, list[j].name) {
        return Some(j);
      }
    }
    return None;
  }

  // ---------------------------------------------------------------------
  // The walk of cmd_skip_existent, on words

  /** Where a walk below a root ended: at the first word no child is named
      by (its index, and the path of the node whose children were searched),
      or after every word matched (the path of the node whose child the last
      word named, none if there were no words). */
  datatype Walked = Unmatched(index: nat, at: seq<nat>) | AllMatched(parent: Option<seq<nat>>)

  /** The walk from word `k` on, standing at `cur` with `parent` the node
      `cur` was reached from. */
  function WalkFrom(tree: Cmd, ws: seq<string>, k: nat, cur: seq<nat>, parent: Option<seq<nat>>): (r: Walked)
    requires k <= |ws| && ValidPath(tree, cur)
    ensures r.Unmatched? ==> k <= r.index < |ws| && ValidPath(tree, r.at)
    ensures r.AllMatched? && r.parent.Some? && parent.None? ==> k < |ws|
    ensures r.AllMatched? && r.parent.Some? && k < |ws| ==> ValidPath(tree, r.parent.value)
    ensures r.AllMatched? && r.parent.Some? && parent.Some? && k == |ws| ==> r.parent == parent
    decreases |ws| - k
  {
    if k == |ws| then AllMatched(parent)
    else
      match FirstNamed(Follow(tree, cur).subcommands, ws[k])
      case None => Unmatched(k, cur)
      case Some(j) =>
        PathExtend(tree, cur, j);
        WalkFrom(tree, ws, k + 1, cur + [j], Some(cur))
  }

  /** A word that names a child moves the walk one level down, with the
      current node as the parent. */
  lemma WalkStep(tree: Cmd, ws: seq<string>, k: nat, cur: seq<nat>, parent: Option<seq<nat>>, j: nat)
    requires k < |ws| && ValidPath(tree, cur)
    requires FirstNamed(Follow(tree, cur).subcommands, ws[k]) == Some(j)
    ensures ValidPath(tree, cur + [j])
    ensures WalkFrom(tree, ws, k + 1, cur + [j], Some(cur)) == WalkFrom(tree, ws, k, cur, parent)
  {
    PathExtend(tree, cur, j);
  }

  /** The walk below the root `tree` over the words `ws`. */
  function Walk(tree: Cmd, ws: seq<string>): Walked {
    WalkFrom(tree, ws, 0, [], None)
  }

  /** `path` leads from `c` through children named by `ws`, in order. */
  predicate Spells(c: Cmd, path: seq<nat>, ws: seq<string>)
    decreases |path|
  {
    |path| == |ws|
    && (path == [] ||
        (path[0] < |c.subcommands| && c.subcommands[path[0]].name == ws[0]
         && Spells(c.subcommands[path[0]], path[1..], ws[1..])))
  }

  lemma {:induction false} SpellsExtend(c: Cmd, path: seq<nat>, ws: seq<string>, j: nat, w: string)
    requires ValidPath(c, path) && Spells(c, path, ws)
    requires j < |Follow(c, path).subcommands| && Follow(c, path).subcommands[j].name == w
    ensures Spells(c, path + [j], ws + [w])
    decreases |path|
  {
    if path != [] {
      SpellsExtend(c.subcommands[path[0]], path[1..], ws[1..], j, w);
      assert (path + [j])[1..] == path[1..] + [j];
      assert (ws + [w])[1..] == ws[1..] + [w];
    }
  }

  /** From word `k` on, the walk stops at the first word no child is named
      by, having matched every word before it; or it matches every word and
      reports the node whose child the last word named. */
  lemma {:induction false} WalkFromSpec(tree: Cmd, ws: seq<string>, k: nat, cur: seq<nat>,
                                        parent: Option<seq<nat>>)
    requires k <= |ws| && ValidPath(tree, cur) && Spells(tree, cur, ws[..k])
    requires parent.None? <==> k == 0
    requires parent.Some? ==>
      ValidPath(tree, parent.value) && Spells(tree, parent.value, ws[..k - 1])
      && FirstNamed(Follow(tree, parent.value).subcommands, ws[k - 1]).Some?
    ensures var r := WalkFrom(tree, ws, k, cur, parent);
      (r.Unmatched? ==>
        r.index < |ws| && ValidPath(tree, r.at) && Spells(tree, r.at, ws[..r.index])
        && FirstNamed(Follow(tree, r.at).subcommands, ws[r.index]).None?)
      && (r == AllMatched(None) ==> ws == [])
      && (r.AllMatched? && r.parent.Some? ==>
        ws != [] && ValidPath(tree, r.parent.value)
        && Spells(tree, r.parent.value, ws[..|ws| - 1])
        && FirstNamed(Follow(tree, r.parent.value).subcommands, ws[|ws| - 1]).Some?)
    decreases |ws| - k
  {
    if k < |ws| {
      var node := Follow(tree, cur);
      match FirstNamed(node.subcommands, ws[k])
      case None =>
      case Some(j) =>
        PathExtend(tree, cur, j);
        SpellsExtend(tree, cur, ws[..k], j, ws[k]);
        assert ws[..k] + [ws[k]] == ws[..k + 1];
        assert ws[..k + 1][..k] == ws[..k];
        WalkFromSpec(tree, ws, k + 1, cur + [j], Some(cur));
    }
  }

  /** The walk below a root matches a prefix of the words along a chain of
      children; it ends at the first word not found, or, when every word was
      found, at the parent of the last one; only an empty word list leaves
      no parent. */
  lemma WalkSpec(tree: Cmd, ws: seq<string>)
    ensures var r := Walk(tree, ws);
      (r.Unmatched? ==>
        r.index < |ws| && ValidPath(tree, r.at) && Spells(tree, r.at, ws[..r.index])
        && FirstNamed(Follow(tree, r.at).subcommands, ws[r.index]).None?)
      && (r == AllMatched(None) <==> ws == [])
      && (r.AllMatched? && r.parent.Some? ==>
        ws != [] && ValidPath(tree, r.parent.value)
        && Spells(tree, r.parent.value, ws[..|ws| - 1])
        && FirstNamed(Follow(tree, r.parent.value).subcommands, ws[|ws| - 1]).Some?)
  {
    assert ws[..0] == [];
    WalkFromSpec(tree, ws, 0, [], None);
  }

  // ---------------------------------------------------------------------
  // cmd_skip_existent

  /** A `command_t *` into the table: the slot of the root and the path
      from it. */
  datatype NodeRef = NodeRef(slot: nat, path: seq<nat>)

  /** `cmd_tree_location_t`: the offset of the first word to parse (or
      NULL) and the node to attach it to (or NULL for a new root). */
  datatype Location = Location(ptr: Option<nat>, parent: Option<NodeRef>)

  /** The location `cmd_skip_existent` returns for the preprocessed line
      `buf` and the table `slots`: the first word is looked up in the
      table; a root found there is descended from. */
  function SkipSpec(buf: seq<char>, slots: Slots): (loc: Location)
    requires WellTerminated(buf) && 0 < |slots|
    ensures loc.parent.Some? ==>
      var r := loc.parent.value;
      r.slot < |slots| && slots[r.slot].Some? && ValidPath(slots[r.slot].value, r.path)
    ensures loc.ptr.Some? && |buf| >= 3 ==> ParseReady(buf, loc.ptr.value)
    ensures loc.parent.None? && loc.ptr.Some? ==> loc.ptr.value == 0
  {
    var key := CStr(buf, 0);
    FindResult(slots, key);
    match FindSlot(slots, key)
    case None => Location(Some(0), None)
    case Some(s) =>
      DescentHasParent(buf, s, slots[s].value);
      DescentSpec(buf, s, slots[s].value)
  }

  /** The location found below the root `tree`, stored in slot `s`: every
      word after the first is looked up among the children of the node the
      previous word led to. */
  function DescentSpec(buf: seq<char>, s: nat, tree: Cmd): (loc: Location)
    requires WellTerminated(buf)
    ensures loc.parent.Some? ==> loc.parent.value.slot == s && ValidPath(tree, loc.parent.value.path)
    ensures loc.ptr.Some? ==> ParseReady(buf, loc.ptr.value)
  {
    NextNulBefore(buf, 0, |buf| - 2);
    var a := NextNul(buf, 0) + 1;
    var ws := Words(buf, a);
    match Walk(tree, ws)
    case Unmatched(k, p) =>
      WordStartSpec(buf, a, k);
      WordStartAtEnd(buf, a, k);
      Location(Some(WordStart(buf, a, k)), Some(NodeRef(s, p)))
    case AllMatched(parent) =>
      Location(None, if parent.None? then None else Some(NodeRef(s, parent.value)))
  }

  /** Below a root, a word to parse always comes with its parent. */
  lemma DescentHasParent(buf: seq<char>, s: nat, tree: Cmd)
    requires WellTerminated(buf)
    ensures DescentSpec(buf, s, tree).ptr.Some? ==> DescentSpec(buf, s, tree).parent.Some?
  {
  }

  /** The `i`-th word offset holds a NUL exactly when it is the end of the
      word list. */
  lemma {:induction false} WordStartAtEnd(buf: seq<char>, x: nat, i: nat)
    requires WellTerminated(buf) && x <= |buf| - 1 && i <= |Words(buf, x)|
    ensures WordStart(buf, x, i) <= |buf| - 1
    ensures buf[WordStart(buf, x, i)] == NUL <==> i == |Words(buf, x)|
    decreases i
  {
    if buf[x] != NUL {
      WordsStep(buf, x);
      if i > 0 {
        WordStartAtEnd(buf, NextNul(buf, x) + 1, i - 1);
      }
    }
  }

  /** What `cmd_skip_existent` finds, stated on the words of the line: a
      first word the table does not hold gives no parent and the start of
      the line; otherwise the parent is a node of the root's tree reached by
      children named by the words after the first, and `ptr` is the first
      word none of its children is named by, or NULL when every word names
      one. */
  lemma SkipLocation(buf: seq<char>, slots: Slots)
    requires WellTerminated(buf) && 0 < |slots|
    ensures NextNul(buf, 0) <= |buf| - 2
    ensures var loc := SkipSpec(buf, slots); var ws := Words(buf, NextNul(buf, 0) + 1);
      (FindSlot(slots, CStr(buf, 0)).None? ==> loc == Location(Some(0), None))
      && (loc.parent.None? && FindSlot(slots, CStr(buf, 0)).Some? ==> loc.ptr.None? && ws == [])
      && (loc.parent.Some? ==>
        var s := loc.parent.value.slot; var p := loc.parent.value.path;
        FindSlot(slots, CStr(buf, 0)) == Some(s) && |p| < |ws|
        && Spells(slots[s].value, p, ws[..|p|])
        && (loc.ptr.Some? ==>
              CStr(buf, loc.ptr.value) == ws[|p|]
              && FirstNamed(Follow(slots[s].value, p).subcommands, ws[|p|]).None?)
        && (loc.ptr.None? ==>
              |p| + 1 == |ws|
              && FirstNamed(Follow(slots[s].value, p).subcommands, ws[|p|]).Some?))
  {
    NextNulBefore(buf, 0, |buf| - 2);
    var key := CStr(buf, 0);
    FindResult(slots, key);
    if FindSlot(slots, key).Some? {
      var s := FindSlot(slots, key).value;
      var a := NextNul(buf, 0) + 1;
      var ws := Words(buf, a);
      WalkSpec(slots[s].value, ws);
      match Walk(slots[s].value, ws)
      case Unmatched(k, p) =>
        SpellsLength(slots[s].value, p, ws[..k]);
        WordStartSpec(buf, a, k);
      case AllMatched(parent) =>
        if parent.Some? {
          SpellsLength(slots[s].value, parent.value, ws[..|ws| - 1]);
        }
    }
  }

  lemma SpellsLength(c: Cmd, path: seq<nat>, ws: seq<string>)
    requires Spells(c, path, ws)
    ensures |path| == |ws|
  {
  }

  /** Every command stored in the table has C strings for names, all the
      way down. */
  ghost predicate TreesWellNamed(slots: Slots) {
    forall x :: Copies(slots, x) > 0 ==> WellNamed(x)
  }

  /** A command stored in a slot is counted among the copies. */
  lemma {:induction false} StoredIsCopied(slots: Slots, j: nat)
    requires j < |slots| && slots[j].Some?
    ensures Copies(slots, slots[j].value) > 0
    decreases |slots|
  {
    if j < |slots| - 1 {
      StoredIsCopied(slots[..|slots| - 1], j);
    }
  }

  /** `cmd_skip_existent(cmd_str, cmd_map)`: both fields NULL for a NULL
      string or map; otherwise the first word is looked up in the table,
      and a root found there is descended from. */
  method SkipExistent(str: array?<char>, table: CmdMap?) returns (loc: Location)
    requires str != null ==> WellTerminated(str[..]) && |CStr(str[..], 0)| < 256
    requires table != null ==> table.Valid() && TreesWellNamed(table.slots[..])
    ensures str == null || table == null ==> loc == Location(None, None)
    ensures str != null && table != null ==> loc == SkipSpec(str[..], table.slots[..])
  {
    if str == null || table == null {
      return Location(None, None);
    }
    FindResult(table.slots[..], CStr(str[..], 0));
    var root := table.Find(CStr(str[..], 0));
    if root.None? {
      return Location(Some(0), None);
    }
    var s := root.value;
    StoredIsCopied(table.slots[..], s);
    var i := StrLen(str);
    loc := Descend(str[..], i, s, table.slots[s].value);
  }

  /** The loop of `cmd_skip_existent`, from the terminator of the first
      word on: at every NUL not followed by the end marker, the current
      node becomes the parent and the word after the NUL is looked up among
      its children; a word not found ends the walk there. The source records
      the current node as the parent before the lookup; here it is recorded
      after it, which returns the same location, since a failed lookup
      returns the node itself as the parent. */
  method Descend(buf: seq<char>, first: nat, s: nat, tree: Cmd) returns (loc: Location)
    requires WellTerminated(buf) && first == NextNul(buf, 0) && WellNamed(tree)
    ensures loc == DescentSpec(buf, s, tree)
  {
    NextNulBefore(buf, 0, |buf| - 2);
    var i: nat := first;
    ghost var a := i + 1;
    ghost var ws := Words(buf, a);
    var cur: seq<nat> := [];
    var parent: Option<seq<nat>> := None;
    ghost var k := 0;
    WordStartAtEnd(buf, a, 0);
    while buf[i + 1] != NUL
      invariant k <= |ws| && i + 1 == WordStart(buf, a, k) && i + 1 <= |buf| - 1
      invariant ValidPath(tree, cur)
      invariant buf[i + 1] == NUL <==> k == |ws|
      invariant WalkFrom(tree, ws, k, cur, parent) == Walk(tree, ws)
      decreases |ws| - k
    {
      var child, next := VisitWord(buf, a, k, i, tree, cur, parent);
      if child.None? {
        DescentStops(buf, a, s, tree, k, cur, parent);
        return Location(Some(i + 1), Some(NodeRef(s, cur)));
      }
      i := next;
      parent := Some(cur);
      cur := cur + [child.value];
      k := k + 1;
    }
    DescentEnds(buf, a, s, tree, cur, parent);
    return Location(None, if parent.None? then None else Some(NodeRef(s, parent.value)));
  }

  /** The word whose NUL sits just before `i + 1` is the `k`-th one, and
      its own NUL is the one before the next word. */
  lemma WordAfter(buf: seq<char>, a: nat, k: nat, i: nat)
    requires WellTerminated(buf) && a <= |buf| - 1 && k < |Words(buf, a)|
    requires i + 1 == WordStart(buf, a, k)
    ensures i + 1 <= |buf| - 1 && NextNul(buf, i + 1) <= |buf| - 2
    ensures CStr(buf, i + 1) == Words(buf, a)[k]
    ensures NextNul(buf, i + 1) + 1 == WordStart(buf, a, k + 1)
    ensures buf[NextNul(buf, i + 1) + 1] == NUL <==> k + 1 == |Words(buf, a)|
  {
    WordStartSpec(buf, a, k);
    WordStartAtEnd(buf, a, k + 1);
  }

  /** One round of the loop of `cmd_skip_existent`, at the NUL before the
      `k`-th word: look the word up among the current node's children and,
      if it is there, step to the NUL that ends it. */
  method VisitWord(buf: seq<char>, ghost a: nat, ghost k: nat, i: nat, tree: Cmd, cur: seq<nat>,
                   ghost parent: Option<seq<nat>>)
    returns (child: Option<nat>, next: nat)
    requires WellTerminated(buf) && a <= |buf| - 1 && k < |Words(buf, a)|
    requires i + 1 == WordStart(buf, a, k)
    requires WellNamed(tree) && ValidPath(tree, cur)
    ensures child == FirstNamed(Follow(tree, cur).subcommands, Words(buf, a)[k])
    ensures child.None? ==> next == i
    ensures child.Some? ==>
      next + 1 == WordStart(buf, a, k + 1) && next + 1 <= |buf| - 1
      && (buf[next + 1] == NUL <==> k + 1 == |Words(buf, a)|)
    ensures child.Some? ==>
      ValidPath(tree, cur + [child.value])
      && WalkFrom(tree, Words(buf, a), k + 1, cur + [child.value], Some(cur))
         == WalkFrom(tree, Words(buf, a), k, cur, parent)
  {
    WordAfter(buf, a, k, i);
    var node := Follow(tree, cur);
    FollowWellNamed(tree, cur);
    child := FindSubcommand(CStr(buf, i + 1), node.subcommands);
    next := i;
    if child.Some? {
      var n := SkipWord(buf, i + 1, 0);
      next := i + n;
      WalkStep(tree, Words(buf, a), k, cur, parent, child.value);
    }
  }

  /** A word no child is named by ends the descent there. */
  lemma DescentStops(buf: seq<char>, a: nat, s: nat, tree: Cmd, k: nat, cur: seq<nat>,
                      parent: Option<seq<nat>>)
    requires WellTerminated(buf) && NextNul(buf, 0) <= |buf| - 2 && a == NextNul(buf, 0) + 1
    requires k < |Words(buf, a)| && ValidPath(tree, cur)
    requires FirstNamed(Follow(tree, cur).subcommands, Words(buf, a)[k]).None?
    requires WalkFrom(tree, Words(buf, a), k, cur, parent) == Walk(tree, Words(buf, a))
    ensures DescentSpec(buf, s, tree) == Location(Some(WordStart(buf, a, k)), Some(NodeRef(s, cur)))
  {
  }

  /** Running out of words ends the descent with no word left to parse. */
  lemma DescentEnds(buf: seq<char>, a: nat, s: nat, tree: Cmd, cur: seq<nat>, parent: Option<seq<nat>>)
    requires WellTerminated(buf) && NextNul(buf, 0) <= |buf| - 2 && a == NextNul(buf, 0) + 1
    requires ValidPath(tree, cur)
    requires WalkFrom(tree, Words(buf, a), |Words(buf, a)|, cur, parent) == Walk(tree, Words(buf, a))
    ensures DescentSpec(buf, s, tree)
      == Location(None, if parent.None? then None else Some(NodeRef(s, parent.value)))
  {
  }

  // ---------------------------------------------------------------------
  // cmd_register

  /** Every word of a buffer is a C string. */
  lemma {:induction false} WordsNulFree(buf: seq<char>, x: nat)
    requires WellTerminated(buf) && x <= |buf| - 1
    ensures forall k :: 0 <= k < |Words(buf, x)| ==> NUL !in Words(buf, x)[k]
    decreases |buf| - x
  {
    if buf[x] != NUL {
      WordsStep(buf, x);
      WordsNulFree(buf, NextNul(buf, x) + 1);
    }
  }

  /** A command parsed from C-string words has C strings for names all the
      way down. */
  lemma {:induction false} ParseWordsWellNamed(name: string, ws: seq<string>, proc: Action)
    requires NUL !in name && forall k :: 0 <= k < |ws| ==> NUL !in ws[k]
    ensures WellNamed(ParseWords(name, ws, proc))
    decreases |ws|
  {
    if HasMarker(ws) {
      ParseWordsWellNamed(ws[0], ws[1..], proc);
    }
  }

  /** The command parsed anywhere in a line has C strings for names all
      the way down. */
  lemma ParsedWellNamed(buf: seq<char>, p: nat, proc: Action)
    requires ParseReady(buf, p)
    ensures WellNamed(ParseSpec(buf, p, proc))
  {
    ParseSpecAt(buf, p, proc);
    WordsWellNamed(buf, NextNul(buf, p + 1) + 1, CStr(buf, p), proc);
  }

  /** A C-string name followed by the words of a buffer parses to a
      well-named command. */
  lemma WordsWellNamed(buf: seq<char>, x: nat, name: string, proc: Action)
    requires WellTerminated(buf) && x <= |buf| - 1 && NUL !in name
    ensures WellNamed(ParseWords(name, Words(buf, x), proc))
  {
    WordsNulFree(buf, x);
    ParseWordsWellNamed(name, Words(buf, x), proc);
  }

  /** A command parsed from a word shorter than 256 characters has a name
      the hash can fold. */
  lemma ParsedNameFits(buf: seq<char>, p: nat, proc: Action)
    requires ParseReady(buf, p) && |CStr(buf, p)| < 256
    ensures GoodName(ParseSpec(buf, p, proc).name)
  {
    ParseSpecAt(buf, p, proc);
    ParseWordsShape(CStr(buf, p), Words(buf, NextNul(buf, p + 1) + 1), proc);
  }

  /** The working copy `cmd_register` builds: the spec with its terminator,
      duplicated and preprocessed. */
  function Line(spec: string): (buf: seq<char>)
    requires ValidSpec(spec)
    ensures WellTerminated(buf) && |buf| == |spec| + 1 && 3 <= |buf|
    ensures |CStr(buf, 0)| < 256
  {
    PreprocessedSpec(spec);
    Preprocessed(spec + [NUL])
  }

  /** The root slots after `arraylist_push(&parent->subcommands, child)` for
      the parent `r`: the parent, inside the tree of slot `r.slot`, gets the
      child as its new last child, and no other slot changes. */
  function AttachAt(slots: Slots, r: NodeRef, child: Cmd): (s: Slots)
    requires r.slot < |slots| && slots[r.slot].Some? && ValidPath(slots[r.slot].value, r.path)
    ensures |s| == |slots| && Occupied(s) == Occupied(slots)
    ensures forall j :: 0 <= j < |s| && j != r.slot ==> s[j] == slots[j]
    ensures s[r.slot].Some? && SameHeader(s[r.slot].value, slots[r.slot].value)
    ensures ValidPath(s[r.slot].value, r.path)
    ensures Follow(s[r.slot].value, r.path).subcommands
            == Follow(slots[r.slot].value, r.path).subcommands + [child]
  {
    var t := AppendAt(slots[r.slot].value, r.path, child);
    SlotUpdate(slots, r.slot, Some(t));
    slots[r.slot := Some(t)]
  }

  /** Attaching a well-named child to a table of well-named trees keeps
      every tree well named. */
  lemma AttachWellNamed(slots: Slots, r: NodeRef, child: Cmd)
    requires r.slot < |slots| && slots[r.slot].Some? && ValidPath(slots[r.slot].value, r.path)
    requires TreesWellNamed(slots) && WellNamed(child)
    ensures TreesWellNamed(AttachAt(slots, r, child))
  {
    var t := AppendAt(slots[r.slot].value, r.path, child);
    StoredIsCopied(slots, r.slot);
    AppendAtWellNamed(slots[r.slot].value, r.path, child);
    SlotUpdate(slots, r.slot, Some(t));
    assert AttachAt(slots, r, child) == slots[r.slot := Some(t)];
  }

  /** Adding a well-named root to a table of well-named trees keeps every
      tree well named. */
  lemma AddWellNamed(slots: Slots, c: Cmd)
    requires 0 < |slots| && TreesWellNamed(slots) && WellNamed(c)
    ensures TreesWellNamed(AddSlots(slots, c))
  {
    AddStoresOneMore(slots, c);
  }

  /** A child appended under a name no earlier child has is the one
      `find_subcommand` finds for that name. */
  lemma {:induction false} AppendedIsFound(list: seq<Cmd>, child: Cmd)
    requires FirstNamed(list, child.name).None?
    ensures FirstNamed(list + [child], child.name) == Some(|list|)
    decreases |list|
  {
    if list != [] {
      assert (list + [child])[1..] == list[1..] + [child];
      assert list[0].name != child.name;
      AppendedIsFound(list[1..], child);
    }
  }

  /** After a child is attached at the location `cmd_skip_existent` found,
      looking its word up among the parent's children finds the new last
      child: the word named no child before. */
  lemma AttachedIsFound(buf: seq<char>, slots: Slots, action: Action)
    requires WellTerminated(buf) && 3 <= |buf| && 0 < |slots|
    requires SkipSpec(buf, slots).ptr.Some? && SkipSpec(buf, slots).parent.Some?
    ensures var loc := SkipSpec(buf, slots); var r := loc.parent.value;
      var cmd := ParseSpec(buf, loc.ptr.value, action);
      var after := AttachAt(slots, r, cmd)[r.slot].value;
      cmd.name == CStr(buf, loc.ptr.value)
      && FirstNamed(Follow(after, r.path).subcommands, cmd.name)
         == Some(|Follow(slots[r.slot].value, r.path).subcommands|)
  {
    var loc := SkipSpec(buf, slots);
    var r := loc.parent.value;
    var p := loc.ptr.value;
    SkipLocation(buf, slots);
    ParseSpecAt(buf, p, action);
    ParsedArguments(CStr(buf, p), Words(buf, NextNul(buf, p + 1) + 1), action);
    var cmd := ParseSpec(buf, p, action);
    AppendedIsFound(Follow(slots[r.slot].value, r.path).subcommands, cmd);
  }

  /** The process-wide registry, `global_command_map`: no slot array at all
      until the first registration creates one. */
  class Registry {
    var table: CmdMap?

    /** The table, once there, is consistent and every name in its trees is
        a C string. */
    ghost predicate Valid()
      reads this, table, if table != null then {table.slots} else {}
    {
      table != null ==> table.Valid() && TreesWellNamed(table.slots[..])
    }

    /** The root slots; before the first registration, the two empty slots
        `cmd_map_make` would create. */
    ghost function Roots(): (s: Slots)
      requires Valid()
      reads this, table, if table != null then {table.slots} else {}
      ensures 0 < |s|
    {
      if table == null then EmptySlots(InitSize) else table.slots[..]
    }

    /** The zero-initialised global: no table. */
    constructor ()
      ensures Valid() && table == null
    {
      table := null;
    }

    /** `cmd_register(spec, action)`: create the table on first use,
        duplicate and preprocess the spec, skip the words that name
        registered commands, then parse the rest of the line from the first
        unmatched word and make it a new root or the new last child of the
        deepest command matched. A spec whose whole path is registered
        already is excluded. */
    method Register(spec: string, action: Action) returns (ok: bool)
      requires Valid() && ValidSpec(spec)
      requires SkipSpec(Line(spec), Roots()).ptr.Some?
      modifies this, table, if table != null then {table.slots} else {}
      ensures Valid() && ok && table != null
      ensures old(table) != null ==> table == old(table)
      ensures old(table) == null ==> fresh(table)
      ensures var buf := Line(spec); var loc := SkipSpec(buf, old(Roots()));
        var cmd := ParseSpec(buf, loc.ptr.value, action);
        Roots() == if loc.parent.None? then AddSlots(old(Roots()), cmd)
                   else AttachAt(old(Roots()), loc.parent.value, cmd)
    {
      EnsureTable();
      var buf, loc := Locate(spec);
      ParsedWellNamed(buf, loc.ptr.value, action);
      var cmd := Parse(buf, loc.ptr.value, action);
      if loc.parent.None? {
        ParsedNameFits(buf, 0, action);
        AddRoot(cmd);
      } else {
        AttachChild(loc.parent.value, cmd);
      }
      ok := true;
    }

    /** `if (global_command_map.map == NULL) global_command_map = cmd_map_make();` */
    method EnsureTable()
      requires Valid()
      modifies this
      ensures Valid() && table != null && Roots() == old(Roots())
      ensures old(table) != null ==> table == old(table)
      ensures old(table) == null ==> fresh(table) && fresh(table.slots)
    {
      if table == null {
        table := new CmdMap();
        assert table.slots[..] == EmptySlots(InitSize);
      }
    }

    /** The `_strdup`, `cmd_preprocess` and `cmd_skip_existent` steps of
        `cmd_register`, on a fresh copy of the spec. */
    method Locate(spec: string) returns (buf: seq<char>, loc: Location)
      requires Valid() && table != null && ValidSpec(spec)
      ensures buf == Line(spec) && loc == SkipSpec(buf, table.slots[..])
    {
      var str := new char[|spec| + 1](i requires 0 <= i <= |spec| =>
        if i < |spec| then spec[i] else NUL);
      assert str[..] == spec + [NUL];
      Preprocess(str);
      buf := str[..];
      assert buf == Line(spec);
      loc := SkipExistent(str, table);
    }

    /** `cmd_map_add(&global_command_map, &cmd)` for a new root. */
    method AddRoot(cmd: Cmd)
      requires Valid() && table != null && WellNamed(cmd) && GoodName(cmd.name)
      modifies table, table.slots
      ensures Valid() && table == old(table)
      ensures table.slots[..] == AddSlots(old(table.slots[..]), cmd)
    {
      AddWellNamed(table.slots[..], cmd);
      table.Add(cmd);
    }

    /** `arraylist_push(&loc.parent->subcommands, cmd)`: the parent's child
        list lives inside the tree stored in its slot, so the push rewrites
        that slot. */
    method AttachChild(r: NodeRef, cmd: Cmd)
      requires Valid() && table != null && WellNamed(cmd)
      requires r.slot < table.size && table.slots[r.slot].Some?
      requires ValidPath(table.slots[r.slot].value, r.path)
      modifies table.slots
      ensures Valid()
      ensures table.slots[..] == AttachAt(old(table.slots[..]), r, cmd)
    {
      ghost var before := table.slots[..];
      AttachWellNamed(before, r, cmd);
      table.slots[r.slot] := Some(AppendAt(table.slots[r.slot].value, r.path, cmd));
      assert table.slots[..] == AttachAt(before, r, cmd);
    }
  }

  // ---------------------------------------------------------------------
  // What cmd_register hands to cmd_make as written

  /** The string `cmd_make(loc.ptr, ...)` and `cmd_alloc(loc.ptr, ...)`
      duplicate: `_strdup` stops at the first NUL, so it is the located word
      alone, cut off from the argument words the preprocessing separated
      from it. */
  function CopiedInput(buf: seq<char>, loc: Location): (input: string)
    requires loc.ptr.Some? && loc.ptr.value <= |buf|
    ensures NUL !in input && |input| <= |buf| - loc.ptr.value
  {
    CStr(buf, loc.ptr.value)
  }

  /** Registering `go x ` into an empty table: the copy handed on is just
      `go`, which does not end in a blank, so `cmd_parse` on its preprocessed
      copy scans past the copy's end for the double NUL; the line itself
      parses to `go` with one argument and the subcommand `x`. */
  lemma {:induction false} RootArgumentsLost()
    ensures var spec := ['g', 'o', ' ', 'x', ' '];
      var buf := Line(spec); var loc := SkipSpec(buf, EmptySlots(InitSize));
      loc == Location(Some(0), None)
      && CopiedInput(buf, loc) == ['g', 'o'] && !Parsable(CopiedInput(buf, loc))
      && ParseSpec(buf, 0, None).name == ['g', 'o'] && ParseSpec(buf, 0, None).argCnt == 1
      && ParseSpec(buf, 0, None).subcommands == [Cmd(['x'], 0, [], None, [])]
  {
    var buf := ['g', 'o', NUL, 'x', NUL, NUL];
    ExampleLine();
    ExampleWords();
    var slots := EmptySlots(InitSize);
    assert FindSlot(slots, CStr(buf, 0)).None? by { FindResult(slots, CStr(buf, 0)); }
    ParseAtWord(buf, 0, None);
    var ws: seq<string> := [['x']];
    assert ArgCount(ws) == 1 && HasMarker(ws) && ws[1..] == [];
  }

  /** The line `go x ` preprocesses to. */
  lemma ExampleLine()
    ensures Line(['g', 'o', ' ', 'x', ' ']) == ['g', 'o', NUL, 'x', NUL, NUL]
  {
    var spec := ['g', 'o', ' ', 'x', ' '];
    var s := spec + [NUL];
    assert s == ['g', 'o', ' ', 'x', ' ', NUL];
    NextNulIsFirst(s, 0, 5);
    assert TrimEnd(s, 4) == 4 && TrimEnd(s, 5) == 4;
    var buf := Preprocessed(s);
    assert |buf| == 6;
    assert buf[0] == 'g' && buf[1] == 'o' && buf[2] == NUL;
    assert buf[3] == 'x' && buf[4] == NUL && buf[5] == NUL;
    assert buf == ['g', 'o', NUL, 'x', NUL, NUL];
    assert Line(spec) == buf;
  }

  /** The words of that line. */
  lemma ExampleWords()
    ensures var buf := ['g', 'o', NUL, 'x', NUL, NUL];
      CStr(buf, 0) == ['g', 'o'] && Words(buf, 0) == [['g', 'o'], ['x']]
  {
    var buf := ['g', 'o', NUL, 'x', NUL, NUL];
    NextNulIsFirst(buf, 0, 2);
    NextNulIsFirst(buf, 3, 4);
    assert CStr(buf, 3) == ['x'];
    assert Words(buf, 5) == [];
    WordsStep(buf, 3);
    WordsStep(buf, 0);
  }

  // ---------------------------------------------------------------------
  // What cmd_skip_existent does with a full table, as written

  /** A full table makes `cmd_map_find` answer a slot for every word, so
      `cmd_skip_existent` never reports a word to parse without a parent:
      `cmd_register` never adds a root to a full table, and the table never
      grows through registration. */
  lemma FullTableNeverAddsRoot(buf: seq<char>, slots: Slots)
    requires WellTerminated(buf) && 0 < |slots| && Occupied(slots) == |slots|
    ensures SkipSpec(buf, slots).parent.None? ==> SkipSpec(buf, slots).ptr.None?
  {
    OccupiedBound(slots);
  }

  /** A first word that a full table lacks leads `cmd_skip_existent` into
      the tree in that word's home slot, which is named otherwise: the words
      after the first are matched against that command's children, and the
      new command is attached below it. With no word after the first, both
      fields are NULL, and `cmd_register` hands NULL to `cmd_make`. */
  lemma GraftedUnderForeignRoot(buf: seq<char>, slots: Slots)
    requires WellTerminated(buf) && 0 < |slots| && Occupied(slots) == |slots|
    requires forall i :: 0 <= i < |slots| && slots[i].Some? ==> slots[i].value.name != CStr(buf, 0)
    ensures NextNul(buf, 0) <= |buf| - 2
    ensures var loc := SkipSpec(buf, slots); var ws := Words(buf, NextNul(buf, 0) + 1);
      (ws == [] ==> loc == Location(None, None))
      && (ws != [] ==>
            loc.parent.Some? && loc.parent.value.slot == Home(CStr(buf, 0), |slots|)
            && slots[loc.parent.value.slot].value.name != CStr(buf, 0))
  {
    FullTableMiss(slots, CStr(buf, 0));
    SkipLocation(buf, slots);
  }

  /** With the roots `a` and `b` filling both slots, the line `c x ` is
      attached below `a` or `b`: `x` becomes a child of a command that is
      not `c`. */
  lemma ForeignRootExample()
    ensures var slots := [Some(Named('a')), Some(Named('b'))];
      var buf := Line(['c', ' ', 'x', ' ']); var loc := SkipSpec(buf, slots);
      loc.parent.Some? && loc.parent.value.path == []
      && slots[loc.parent.value.slot].value.name != ['c']
      && loc.ptr.Some? && CStr(buf, loc.ptr.value) == ['x']
  {
    ForeignLine();
    ForeignDescent();
  }

  /** The same on the preprocessed line. */
  lemma ForeignDescent()
    ensures var slots := [Some(Named('a')), Some(Named('b'))];
      var buf := ['c', NUL, 'x', NUL, NUL]; var loc := SkipSpec(buf, slots);
      loc.parent.Some? && loc.parent.value.path == []
      && slots[loc.parent.value.slot].value.name != ['c']
      && loc.ptr.Some? && CStr(buf, loc.ptr.value) == ['x']
  {
    var slots := [Some(Named('a')), Some(Named('b'))];
    var buf := ['c', NUL, 'x', NUL, NUL];
    NextNulIsFirst(buf, 0, 1);
    NextNulIsFirst(buf, 2, 3);
    assert CStr(buf, 0) == ['c'] && CStr(buf, 2) == ['x'];
    assert Words(buf, 4) == [];
    WordsStep(buf, 2);
    assert Occupied(slots) == 2 by { assert slots[..1] == [Some(Named('a'))]; }
    GraftedUnderForeignRoot(buf, slots);
    SkipLocation(buf, slots);
  }

  /** The line `c x ` preprocesses to. */
  lemma ForeignLine()
    ensures Line(['c', ' ', 'x', ' ']) == ['c', NUL, 'x', NUL, NUL]
  {
    var spec := ['c', ' ', 'x', ' '];
    var s := spec + [NUL];
    assert s == ['c', ' ', 'x', ' ', NUL];
    NextNulIsFirst(s, 0, 4);
    assert TrimEnd(s, 3) == 3 && TrimEnd(s, 4) == 3;
    var buf := Preprocessed(s);
    assert |buf| == 5;
    assert buf[0] == 'c' && buf[1] == NUL;
    assert buf[2] == 'x' && buf[3] == NUL && buf[4] == NUL;
    assert buf == ['c', NUL, 'x', NUL, NUL];
    assert Line(spec) == buf;
  }

  // ---------------------------------------------------------------------
  // cmd_skip_existent as evidently intended

  /** The location `cmd_skip_existent` evidently means to find: the same
      descent, started only from a root that holds the first word. */
  function IntendedSkip(buf: seq<char>, slots: Slots): (loc: Location)
    requires WellTerminated(buf) && 0 < |slots|
  {
    match FindKey(slots, CStr(buf, 0))
    case None => Location(Some(0), None)
    case Some(s) => DescentSpec(buf, s, slots[s].value)
  }

  /** The intended descent only ever enters the root named by the first
      word; with every root reachable, a first word stored nowhere always
      starts a new root; and while the table is not full it finds what
      `cmd_skip_existent` finds. */
  lemma IntendedSkipSpec(buf: seq<char>, slots: Slots)
    requires WellTerminated(buf) && 0 < |slots|
    ensures var loc := IntendedSkip(buf, slots);
      (loc.parent.Some? ==>
        loc.parent.value.slot < |slots| && slots[loc.parent.value.slot].Some?
        && slots[loc.parent.value.slot].value.name == CStr(buf, 0))
      && (ProbeInvariant(slots)
          && (forall i :: 0 <= i < |slots| && slots[i].Some? ==> slots[i].value.name != CStr(buf, 0))
          ==> loc == Location(Some(0), None))
      && (Occupied(slots) < |slots| ==> loc == SkipSpec(buf, slots))
  {
    FindKeySpec(slots, CStr(buf, 0));
    FindResult(slots, CStr(buf, 0));
  }
}
