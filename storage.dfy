/** cmd_storage.c: the argument descriptor table and the parser that turns
    a preprocessed spec line into a command node. A preprocessed line is a
    run of NUL-separated words ending in a double NUL; a command is its
    first word, followed by the `<TAG>` words that describe its arguments
    and, optionally, one bare word that starts a nested subcommand. */
module Storage {
  import opened CStrings
  import opened Commands

  // ---------------------------------------------------------------------
  // size_node_get

  /** The static descriptor table, in its declared order. Widths are those
      of a 64-bit Windows target: `long` is 4 bytes and pointers are 8. */
  const Nodes: seq<ArgNode> := [
    ArgNode("<SUBCMD>", ">", 0),
    ArgNode("<VOID>", "$null", 0),
    ArgNode("<CHAR>", "%c", 1),
    ArgNode("<BYTE>", "%hh", 1),
    ArgNode("<UBYTE>", "%hhu", 1),
    ArgNode("<SHORT>", "%h", 2),
    ArgNode("<USHORT>", "%hu", 2),
    ArgNode("<INT>", "%d", 4),
    ArgNode("<UINT>", "%u", 4),
    ArgNode("<LONG>", "%ld", 4),
    ArgNode("<ULONG>", "%lu", 4),
    ArgNode("<LLONG>", "%lld", 8),
    ArgNode("<ULLONG>", "%llu", 8),
    ArgNode("<STRING>", "%s", 8),
    ArgNode("<PTR>", "%p", 8),
    ArgNode("<CMD>", "$cmd", 8)
  ]

  /** Every key is a NUL-free word of at least five characters that starts
      with `<`. */
  lemma NodeKeysShape()
    ensures forall i :: 0 <= i < |Nodes| ==>
      5 <= |Nodes[i].key| && Nodes[i].key[0] == '<'
      && (forall k :: 0 <= k < |Nodes[i].key| ==> Nodes[i].key[k] != NUL)
  {
  }

  /** The keys are pairwise distinct. */
  lemma NodeKeysDistinct()
    ensures forall i, j :: 0 <= i < j < |Nodes| ==> Nodes[i].key != Nodes[j].key
  {
  }

  /** The table has sixteen entries with pairwise distinct, NUL-free keys
      that all start with `<`, and non-empty formats of which only the first
      starts with `>`. */
  lemma NodesWellFormed()
    ensures |Nodes| == 16
    ensures forall i, j :: 0 <= i < j < |Nodes| ==> Nodes[i].key != Nodes[j].key
    ensures forall i :: 0 <= i < |Nodes| ==>
      NUL !in Nodes[i].key && |Nodes[i].key| > 0 && Nodes[i].key[0] == '<'
      && |Nodes[i].format| > 0 && (Nodes[i].format[0] == '>' <==> i == 0)
  {
    NodeKeysShape();
    NodeKeysDistinct();
    forall i | 0 <= i < |Nodes|
      ensures NUL !in Nodes[i].key
    {
      assert forall k :: 0 <= k < |Nodes[i].key| ==> Nodes[i].key[k] != NUL;
    }
  }

  /** A `<TAG>` word: one whose first character is `<`. */
  predicate Tagged(w: string) {
    w != [] && w[0] == '<'
  }

  /** The scan of `size_node_get` from entry `i` on: at entry 0 the check
      for a bare word, then the first entry whose key equals `key`, or the
      `<VOID>` fallback. */
  function Lookup(key: string, i: nat): ArgNode
    requires i <= |Nodes|
    decreases |Nodes| - i
  {
    if i == 0 then (if !Tagged(key) then Nodes[0] else Lookup(key, 1))
    else if i == |Nodes| then Nodes[1]
    else if Nodes[i].key == key then Nodes[i]
    else Lookup(key, i + 1)
  }

  /** From entry 1 on, the scan yields an entry at index 1 or above: the
      one whose key matches, if there is one among the entries it visits,
      and `<VOID>` otherwise. */
  lemma {:induction false} LookupSpec(key: string, i: nat)
    requires 1 <= i <= |Nodes|
    ensures exists j :: 1 <= j < |Nodes| && Lookup(key, i) == Nodes[j]
    ensures forall j :: i <= j < |Nodes| && Nodes[j].key == key ==> Lookup(key, i) == Nodes[j]
    ensures (forall j :: i <= j < |Nodes| ==> Nodes[j].key != key) ==> Lookup(key, i) == Nodes[1]
    decreases |Nodes| - i
  {
    NodesWellFormed();
    if i == |Nodes| {
      assert Lookup(key, i) == Nodes[1];
    } else if Nodes[i].key == key {
      assert Lookup(key, i) == Nodes[i];
    } else {
      LookupSpec(key, i + 1);
    }
  }

  /** The descriptor `size_node_get` returns for a word. */
  function Descriptor(key: string): ArgNode
  {
    Lookup(key, 0)
  }

  /** Every word resolves to one of the sixteen entries: a bare word to
      entry 0, a `<TAG>` word to the entry at index 1 or above with that
      key, and any other `<`-word to `<VOID>`. */
  lemma DescriptorSpec(key: string)
    ensures Descriptor(key) in Nodes
    ensures !Tagged(key) ==> Descriptor(key) == Nodes[0]
    ensures Tagged(key) ==>
      (exists j :: 1 <= j < |Nodes| && Descriptor(key) == Nodes[j])
      && (forall j :: 1 <= j < |Nodes| && Nodes[j].key == key ==> Descriptor(key) == Nodes[j])
      && ((forall j :: 1 <= j < |Nodes| ==> Nodes[j].key != key) ==> Descriptor(key) == Nodes[1])
  {
    if Tagged(key) {
      LookupSpec(key, 1);
    }
  }

  /** The subcommand marker is what every bare word (and only a bare word)
      resolves to. */
  lemma MarkerIffBare(key: string)
    ensures |Descriptor(key).format| > 0
    ensures Descriptor(key).format[0] == '>' <==> !Tagged(key)
  {
    NodesWellFormed();
    DescriptorSpec(key);
  }

  /** The scan starts at entry 1, so the literal tag `<SUBCMD>` is not
      recognised and falls back to `<VOID>`; a known tag at index 1 or
      above resolves to its own entry. */
  lemma SubcmdTagIsVoid()
    ensures Descriptor("<SUBCMD>") == Nodes[1]
    ensures forall j :: 1 <= j < |Nodes| ==> Descriptor(Nodes[j].key) == Nodes[j]
  {
    NodesWellFormed();
    DescriptorSpec("<SUBCMD>");
    assert Nodes[0].key == "<SUBCMD>";
    forall j | 1 <= j < |Nodes|
      ensures Descriptor(Nodes[j].key) == Nodes[j]
    {
      DescriptorSpec(Nodes[j].key);
    }
  }

  /** `size_node_get(key)`: a word not starting with `<` gives entry 0;
      otherwise entries 1 to 15 are compared in order with `str_eq`, and
      entry 1 is the fallback. */
  method SizeNodeGet(key: string) returns (d: ArgNode)
    requires NUL !in key
    ensures d == Descriptor(key)
  {
    NodesWellFormed();
    if key == [] || key[0] != '<' {
      return Nodes[0];
    }
    CStrOfPlain(key);
    for i := 1 to |Nodes|
      invariant Lookup(key, i) == Lookup(key, 1)
    {
      CStrOfPlain(Nodes[i].key);
      if StrEq(key, Nodes[i].key) {
        return Nodes[i];
      }
    }
    return Nodes[1];
  }

  // ---------------------------------------------------------------------
  // Words of a preprocessed buffer

  /** A buffer `cmd_parse` can be started on at offset `p`: it carries the
      double NUL, and there is room for a name and its terminator before it. */
  predicate ParseReady(buf: seq<char>, p: nat) {
    WellTerminated(buf) && p + 3 <= |buf|
  }

  /** The NUL-separated words from offset `x` up to the first empty word,
      which the double NUL at the end guarantees. */
  function Words(buf: seq<char>, x: nat): (ws: seq<string>)
    requires WellTerminated(buf) && x <= |buf| - 1
    decreases |buf| - x
  {
    if buf[x] == NUL then []
    else
      var e := NextNul(buf, x);
      assert e <= |buf| - 2 by { NextNulBefore(buf, x, |buf| - 2); }
      [CStr(buf, x)] + Words(buf, e + 1)
  }

  /** The terminator of a word comes no later than any NUL after it. */
  lemma NextNulBefore(buf: seq<char>, x: nat, y: nat)
    requires x <= y < |buf| && buf[y] == NUL
    ensures NextNul(buf, x) <= y
  {
    NextNulSkips(buf, x);
  }

  /** At a non-empty word, the word list is that word followed by the words
      after its terminator. */
  lemma WordsStep(buf: seq<char>, x: nat)
    requires WellTerminated(buf) && x <= |buf| - 1 && buf[x] != NUL
    ensures NextNul(buf, x) <= |buf| - 2 && x + 3 <= |buf|
    ensures Words(buf, x) == [CStr(buf, x)] + Words(buf, NextNul(buf, x) + 1)
  {
    NextNulBefore(buf, x, |buf| - 2);
  }

  // ---------------------------------------------------------------------
  // The parse, on words

  /** How many argument words `cmd_parse` counts: the `<TAG>` words in
      front, plus the first bare word if one follows them. */
  function ArgCount(ws: seq<string>): (n: nat)
    ensures n <= |ws|
    decreases |ws|
  {
    if ws == [] then 0
    else if !Tagged(ws[0]) then 1
    else 1 + ArgCount(ws[1..])
  }

  /** The counted arguments end in a bare word: a subcommand follows. */
  predicate HasMarker(ws: seq<string>) {
    ArgCount(ws) > 0 && !Tagged(ws[ArgCount(ws) - 1])
  }

  /** The descriptors of the counted argument words. */
  function SyntaxOf(ws: seq<string>): seq<ArgNode>
    decreases |ws|
  {
    if ws == [] then []
    else [Descriptor(ws[0])] + (if Tagged(ws[0]) then SyntaxOf(ws[1..]) else [])
  }

  /** One descriptor per counted word, in order. */
  lemma {:induction false} SyntaxOfSpec(ws: seq<string>)
    ensures |SyntaxOf(ws)| == ArgCount(ws)
    ensures forall i :: 0 <= i < ArgCount(ws) ==> SyntaxOf(ws)[i] == Descriptor(ws[i])
    decreases |ws|
  {
    if ws != [] && Tagged(ws[0]) {
      SyntaxOfSpec(ws[1..]);
      forall i | 1 <= i < ArgCount(ws)
        ensures SyntaxOf(ws)[i] == Descriptor(ws[i])
      {
        assert ws[i] == ws[1..][i - 1];
      }
    }
  }

  /** The command `cmd_parse` builds for the name `name` followed by the
      words `ws`: the counted arguments give the count and the descriptors;
      a trailing bare word takes the handler away and hands it to one child,
      parsed from the first argument word on. */
  function ParseWords(name: string, ws: seq<string>, proc: Action): (c: Cmd)
    decreases |ws|
  {
    if HasMarker(ws) then
      Cmd(name, ArgCount(ws), SyntaxOf(ws), None, [ParseWords(ws[0], ws[1..], proc)])
    else
      Cmd(name, ArgCount(ws), SyntaxOf(ws), proc, [])
  }

  /** `ParseWords` unfolded into one equation. */
  lemma ParseWordsShape(name: string, ws: seq<string>, proc: Action)
    ensures ParseWords(name, ws, proc) == Cmd(name, ArgCount(ws), SyntaxOf(ws),
      if HasMarker(ws) then None else proc,
      if HasMarker(ws) then [ParseWords(ws[0], ws[1..], proc)] else [])
  {
  }

  /** `cmd_parse` started at offset `p`: the name is the C string there;
      the argument scan starts one character further, so it begins after
      the first NUL past `p + 1`. */
  function ParseSpec(buf: seq<char>, p: nat, proc: Action): Cmd
    requires ParseReady(buf, p)
  {
    var a := NextNul(buf, p + 1);
    assert a <= |buf| - 2 by { NextNulBefore(buf, p + 1, |buf| - 2); }
    ParseWords(CStr(buf, p), Words(buf, a + 1), proc)
  }

  /** The parse spec with its argument offset spelled out. */
  lemma ParseSpecAt(buf: seq<char>, p: nat, proc: Action)
    requires ParseReady(buf, p)
    ensures NextNul(buf, p + 1) <= |buf| - 2
    ensures ParseSpec(buf, p, proc)
      == ParseWords(CStr(buf, p), Words(buf, NextNul(buf, p + 1) + 1), proc)
  {
    NextNulBefore(buf, p + 1, |buf| - 2);
  }

  /** Started on a non-empty word, the parse reads that word as the name
      and the words after it as the arguments. */
  lemma ParseAtWord(buf: seq<char>, x: nat, proc: Action)
    requires WellTerminated(buf) && x <= |buf| - 1 && buf[x] != NUL
    ensures ParseReady(buf, x)
    ensures ParseSpec(buf, x, proc) == ParseWords(Words(buf, x)[0], Words(buf, x)[1..], proc)
  {
    WordsStep(buf, x);
    var e := NextNul(buf, x);
    assert NextNul(buf, x + 1) == e by {
      NextNulSkips(buf, x);
      NextNulIsFirst(buf, x + 1, e);
    }
    var ws := Words(buf, x);
    assert ws[0] == CStr(buf, x) && ws[1..] == Words(buf, e + 1);
    ParseSpecAt(buf, x, proc);
  }

  // ---------------------------------------------------------------------
  // The argument count, as the scan of cmd_parse computes it

  /** What the counting loop of `cmd_parse` adds from position `q` on: one
      per NUL, stopping after a NUL followed by a bare word and at the
      double NUL. */
  function CountFrom(buf: seq<char>, q: nat): nat
    requires WellTerminated(buf) && q <= |buf| - 2
    decreases |buf| - q
  {
    if buf[q] == NUL && buf[q + 1] == NUL then 0
    else if buf[q] == NUL && buf[q + 1] != '<' then 1
    else (if buf[q] == NUL then 1 else 0) + CountFrom(buf, q + 1)
  }

  lemma {:induction false} CountSkipsWord(buf: seq<char>, x: nat, n: nat)
    requires WellTerminated(buf) && x <= n <= |buf| - 2
    requires forall j :: x <= j < n ==> buf[j] != NUL
    ensures CountFrom(buf, x) == CountFrom(buf, n)
    decreases n - x
  {
    if x < n {
      CountSkipsWord(buf, x + 1, n);
    }
  }

  /** The character-level count from a NUL is the number of argument words
      after it. */
  lemma {:induction false} CountIsArgs(buf: seq<char>, q: nat)
    requires WellTerminated(buf) && q <= |buf| - 2 && buf[q] == NUL
    ensures CountFrom(buf, q) == ArgCount(Words(buf, q + 1))
    decreases |buf| - q
  {
    if buf[q + 1] != NUL {
      WordsStep(buf, q + 1);
      var n := NextNul(buf, q + 1);
      if buf[q + 1] == '<' {
        CountSkipsWord(buf, q + 1, n);
        CountIsArgs(buf, n);
      }
    }
  }

  // ---------------------------------------------------------------------
  // cmd_parse, cmd_syntax_parse, cmd_make

  /** `cmd_parse(str, proc)`: step `args` to the NUL ending the name, count
      the argument words, allocate the descriptor array and let
      `cmd_syntax_parse` fill it from the word after that NUL. */
  method Parse(buf: seq<char>, p: nat, proc: Action) returns (c: Cmd)
    requires ParseReady(buf, p)
    ensures c == ParseSpec(buf, p, proc)
    decreases |buf| - p, 0
  {
    var args := SkipName(buf, p);
    var cnt := CountArgs(buf, args);
    var syntax := new ArgNode[cnt](_ => Nodes[0]);
    var action, children := SyntaxParse(buf, args + 1, syntax, proc);
    c := Cmd(CStr(buf, p), cnt, syntax[..], action, children);
    ParseSpecAt(buf, p, proc);
    ParseWordsShape(CStr(buf, p), Words(buf, args + 1), proc);
  }

  /** `while (*++args);`: the NUL ending the name, searched from one past
      the start of the name. */
  method SkipName(buf: seq<char>, p: nat) returns (args: nat)
    requires ParseReady(buf, p)
    ensures args == NextNul(buf, p + 1) && args <= |buf| - 2
  {
    args := p + 1;
    ghost var a := NextNul(buf, p + 1);
    NextNulBefore(buf, p + 1, |buf| - 2);
    NextNulSkips(buf, p + 1);
    while buf[args] != NUL
      invariant p + 1 <= args <= a
      decreases a - args
    {
      args := args + 1;
    }
  }

  /** The counting loop of `cmd_parse`: one per NUL from `args` on, up to
      the double NUL or past a NUL followed by a bare word. */
  method CountArgs(buf: seq<char>, args: nat) returns (cnt: nat)
    requires WellTerminated(buf) && args <= |buf| - 2 && buf[args] == NUL
    ensures cnt == ArgCount(Words(buf, args + 1))
  {
    cnt := 0;
    var i := 0;
    while buf[args + i] != NUL || buf[args + i + 1] != NUL
      invariant args + i <= |buf| - 2
      invariant cnt + CountFrom(buf, args + i) == CountFrom(buf, args)
      decreases |buf| - args - i
    {
      if buf[args + i] == NUL {
        cnt := cnt + 1;
        if buf[args + i + 1] != '<' {
          break;
        }
      }
      i := i + 1;
    }
    CountIsArgs(buf, args);
  }

  /** `cmd_syntax_parse(args, cmd)`: walk the argument words, storing each
      one's descriptor; at the subcommand marker, take the handler off the
      command and push one child parsed from `args` with that handler. */
  method SyntaxParse(buf: seq<char>, args: nat, syntax: array<ArgNode>, action: Action)
    returns (newAction: Action, children: seq<Cmd>)
    requires WellTerminated(buf) && args <= |buf| - 1
    requires syntax.Length == ArgCount(Words(buf, args))
    modifies syntax
    ensures syntax[..] == SyntaxOf(Words(buf, args))
    ensures HasMarker(Words(buf, args)) ==>
      newAction == None
      && children == [ParseWords(Words(buf, args)[0], Words(buf, args)[1..], action)]
    ensures !HasMarker(Words(buf, args)) ==> newAction == action && children == []
    decreases |buf| - args, 3
  {
    ghost var ws := Words(buf, args);
    ghost var n := ArgCount(ws);
    newAction, children := action, [];
    var i := 0;
    var j := 0;
    while i < syntax.Length
      invariant i <= n && args + j == WordStart(buf, args, i)
      invariant forall k :: 0 <= k < i ==> syntax[k] == Descriptor(ws[k])
      invariant if i == n && HasMarker(ws)
                then newAction == None && children == [ParseWords(ws[0], ws[1..], action)]
                else newAction == action && children == []
    {
      var pushed;
      j, newAction, pushed := ParseArgument(buf, args, syntax, i, j, newAction);
      children := children + pushed;
      i := i + 1;
    }
    SyntaxOfSpec(ws);
    assert syntax[..] == SyntaxOf(ws);
  }

  /** One round of the loop of `cmd_syntax_parse`: store the descriptor of
      the `i`-th argument word and step past it; at the subcommand marker,
      take the handler away and return the child parsed from `args` with
      it. */
  method ParseArgument(buf: seq<char>, args: nat, syntax: array<ArgNode>, i: nat, j: nat,
                       action: Action)
    returns (next: nat, newAction: Action, pushed: seq<Cmd>)
    requires WellTerminated(buf) && args <= |buf| - 1
    requires i < syntax.Length == ArgCount(Words(buf, args))
    requires args + j == WordStart(buf, args, i)
    modifies syntax
    ensures args + next == WordStart(buf, args, i + 1)
    ensures syntax[i] == Descriptor(Words(buf, args)[i])
    ensures forall k :: 0 <= k < syntax.Length && k != i ==> syntax[k] == old(syntax[k])
    ensures if i + 1 == syntax.Length && HasMarker(Words(buf, args))
            then newAction == None
              && pushed == [ParseWords(Words(buf, args)[0], Words(buf, args)[1..], action)]
            else newAction == action && pushed == []
    decreases |buf| - args, 2
  {
    ghost var ws := Words(buf, args);
    WordStartSpec(buf, args, i);
    var d := SizeNodeGet(CStr(buf, args + j));
    syntax[i] := d;
    next := SkipWord(buf, args, j);
    MarkerIffBare(ws[i]);
    BareOnlyLast(ws, i);
    newAction, pushed := action, [];
    if d.format[0] == '>' {
      newAction := None;
      var sub := ParseSubcommand(buf, args, action);
      pushed := [sub];
    }
  }

  /** Among the counted words only the last can be bare, and it is bare
      exactly when a subcommand follows. */
  lemma BareOnlyLast(ws: seq<string>, i: nat)
    requires i < ArgCount(ws)
    ensures !Tagged(ws[i]) <==> i + 1 == ArgCount(ws) && HasMarker(ws)
  {
    ArgCountShape(ws);
  }

  /** Offset of the `i`-th word of the list read from `x`. */
  function WordStart(buf: seq<char>, x: nat, i: nat): nat
    requires WellTerminated(buf) && x <= |buf| - 1 && i <= |Words(buf, x)|
    decreases i
  {
    if i == 0 then x
    else
      WordsStep(buf, x);
      WordStart(buf, NextNul(buf, x) + 1, i - 1)
  }

  /** The `i`-th word starts at `WordStart(buf, x, i)`, and the next one
      just past its terminator. */
  lemma {:induction false} WordStartSpec(buf: seq<char>, x: nat, i: nat)
    requires WellTerminated(buf) && x <= |buf| - 1 && i < |Words(buf, x)|
    ensures WordStart(buf, x, i) <= |buf| - 1
    ensures NextNul(buf, WordStart(buf, x, i)) <= |buf| - 2
    ensures CStr(buf, WordStart(buf, x, i)) == Words(buf, x)[i]
    ensures WordStart(buf, x, i + 1) == NextNul(buf, WordStart(buf, x, i)) + 1
    decreases i
  {
    WordsStep(buf, x);
    if i > 0 {
      WordStartSpec(buf, NextNul(buf, x) + 1, i - 1);
    }
  }

  /** `*subcommand = cmd_parse(args, action)`: the child is parsed from the
      first argument word, which is therefore its name. */
  method ParseSubcommand(buf: seq<char>, args: nat, action: Action) returns (sub: Cmd)
    requires WellTerminated(buf) && args <= |buf| - 1 && Words(buf, args) != []
    ensures sub == ParseWords(Words(buf, args)[0], Words(buf, args)[1..], action)
    decreases |buf| - args, 1
  {
    ParseAtWord(buf, args, action);
    sub := Parse(buf, args, action);
  }

  /** `while (args[j++] != '\0');`: the index just past the terminator
      of the word at `args + j`. */
  method SkipWord(buf: seq<char>, args: nat, j: nat) returns (k: nat)
    requires args + j <= |buf| && NextNul(buf, args + j) < |buf|
    ensures args + k == NextNul(buf, args + j) + 1
  {
    NextNulSkips(buf, args + j);
    k := j;
    while buf[args + k] != NUL
      invariant j <= k && args + k <= NextNul(buf, args + j)
      decreases NextNul(buf, args + j) - k
    {
      k := k + 1;
    }
    k := k + 1;
  }

  /** `cmd_make(input, proc)`: duplicate the spec, preprocess the copy and
      parse it from its start. */
  method CmdMake(input: string, proc: Action) returns (c: Cmd)
    requires Parsable(input)
    ensures c == ParseSpec(Preprocessed(input + [NUL]), 0, proc)
  {
    var str := new char[|input| + 1](i requires 0 <= i <= |input| =>
      if i < |input| then input[i] else NUL);
    assert str[..] == input + [NUL];
    Preprocess(str);
    PreprocessedSpec(input);
    c := Parse(str[..], 0, proc);
  }

  // ---------------------------------------------------------------------
  // What a parsed command looks like

  /** The counted words are the `<TAG>` words in front and, if a word
      follows them, that one word; there are none exactly when there are
      no words. */
  lemma {:induction false} ArgCountShape(ws: seq<string>)
    ensures ArgCount(ws) == 0 <==> ws == []
    ensures forall i :: 0 <= i < ArgCount(ws) - 1 ==> Tagged(ws[i])
    ensures ArgCount(ws) < |ws| ==> ArgCount(ws) > 0 && !Tagged(ws[ArgCount(ws) - 1])
    decreases |ws|
  {
    if ws != [] && Tagged(ws[0]) {
      ArgCountShape(ws[1..]);
      forall i | 0 <= i < ArgCount(ws) - 1
        ensures Tagged(ws[i])
      {
        if i > 0 {
          assert ws[i] == ws[1..][i - 1];
        }
      }
      if ArgCount(ws) < |ws| {
        assert ws[ArgCount(ws) - 1] == ws[1..][ArgCount(ws[1..]) - 1];
      }
    }
  }

  /** The handler sits at the end of the chain of nested subcommands: every
      node above it has exactly one child and no handler. */
  predicate HandlerOnlyAtLeaf(c: Cmd, proc: Action)
    decreases c
  {
    if c.subcommands == [] then c.action == proc
    else |c.subcommands| == 1 && c.action.None? && HandlerOnlyAtLeaf(c.subcommands[0], proc)
  }

  /** Parsing pushes the handler down to the deepest node. */
  lemma {:induction false} HandlerPushedToLeaf(name: string, ws: seq<string>, proc: Action)
    ensures HandlerOnlyAtLeaf(ParseWords(name, ws, proc), proc)
    decreases |ws|
  {
    if HasMarker(ws) {
      HandlerPushedToLeaf(ws[0], ws[1..], proc);
    }
  }

  /** The parsed command is named by the word it starts at; its argument
      count is the number of `<TAG>` words after the name plus one when a
      bare word follows them, zero exactly when the name is the last word;
      its descriptors are those of the counted words, one per argument. */
  lemma ParsedArguments(name: string, ws: seq<string>, proc: Action)
    ensures ParseWords(name, ws, proc).name == name
    ensures |ParseWords(name, ws, proc).syntax| == ParseWords(name, ws, proc).argCnt
    ensures ParseWords(name, ws, proc).argCnt == 0 <==> ws == []
    ensures forall i :: 0 <= i < ParseWords(name, ws, proc).argCnt - 1 ==> Tagged(ws[i])
    ensures ParseWords(name, ws, proc).argCnt < |ws| ==>
      !Tagged(ws[ParseWords(name, ws, proc).argCnt - 1])
    ensures forall i :: 0 <= i < ParseWords(name, ws, proc).argCnt ==>
      ParseWords(name, ws, proc).syntax[i] == Descriptor(ws[i])
  {
    ArgCountShape(ws);
    SyntaxOfSpec(ws);
  }

  /** The nested subcommand is parsed from the first argument word, not
      from the bare word that triggered it; the two coincide exactly when
      the bare word is the only argument. */
  lemma ChildNamedByFirstArgument(name: string, ws: seq<string>, proc: Action)
    ensures |ParseWords(name, ws, proc).subcommands| == 1 <==> HasMarker(ws)
    ensures HasMarker(ws) ==>
      ParseWords(name, ws, proc).subcommands[0].name == ws[0]
      && (ws[0] == ws[ArgCount(ws) - 1] <==> ArgCount(ws) == 1)
  {
    ArgCountShape(ws);
    if HasMarker(ws) && ArgCount(ws) > 1 {
      assert Tagged(ws[0]);
    }
  }
}
