# cmd-processor: command registration, modelled in Dafny

cmd-processor keeps a registry of console commands. A command is declared
by a one-line spec such as `set <INT> ` (a name, then `<TAG>` words
describing its arguments, then optionally one bare word that starts a
nested subcommand), together with a handler. This project models the
registration half of the library:

- **C strings and preprocessing** (`cstrings.dfy`): `str_eq`, and
  `cmd_preprocess`, which overwrites the trailing blanks and every space of
  a spec with NUL. It works in place on a `char` array, with C's signed
  `char` comparison `str[i] <= ' '`.
- **The hash** (`hashing.dfy`): `rol` and the rotate-and-xor `hash` in
  32-bit bit-vectors.
- **Command nodes** (`commands.dfy`): `command_t` as a value, `cmd_hash`,
  `cmd_eq`, and paths into a command tree (what a `command_t *` into the
  tree denotes).
- **The root table** (`cmdmap.dfy`): `cmd_map_t` as a class over an array
  of slots, with `cmd_map_make`, `cmd_map_add` and `cmd_map_find`.
  - Insertion uses linear probing and doubles a full table by re-adding
    every entry.
  - Lookup gives up after one full turn. On a full table without the key it
    answers with the key's home slot, which holds some other command. The
    model keeps this quirk.
  - `cmd_map_add` computes the probe start before it grows the table. After
    a growth, the command just added can sit where its lookup never probes;
    `CmdMaps.AddedButLost` states this.
  - Both quirks are listed under "## Findings", each next to the
    corrected operation (`CmdMaps.FindKey`, `CmdMaps.RehomedAddSlots`) and
    what is proved about it.
- **Growable lists** (`arraylist.dfy`): `ptr_arraylist_t` as a class with
  `arraylist_make`, `arraylist_push` and `arraylist_destroy`.
- **The tokenizer** (`tokenizer.dfy`): `tok_str_make` and `tok_str_get`,
  proved against a reference split of the string at the delimiter.
- **The parser** (`storage.dfy`): `size_node_get`'s descriptor table,
  `cmd_parse`, `cmd_syntax_parse` and `cmd_make`.
  - The character scans are proved against a word-level specification. A
    preprocessed line is a run of NUL-separated words ending in a double
    NUL.
  - A command is its first word, followed by its `<TAG>` arguments. A
    trailing bare word moves the handler into one nested child, which is
    parsed from the first argument word on.
- **Registration** (`registry.dfy`): `find_subcommand`,
  `cmd_skip_existent` and `cmd_register`.
  - The descent loop is proved against a walk over the words of the line.
  - When `cmd_map_find` answers NULL for the first word, registration adds
    the parsed command as a new root. Otherwise it appends the command as
    the last child of the deepest command matched in the tree at the slot
    `cmd_map_find` answered.
  - The table starts with two slots and grows only inside an add, so two
    roots fill it. From then on `cmd_map_find` never answers NULL, and a
    new first word leads into the tree at its home slot, which holds
    another command. That command gets the new child, and no root is added
    again (`Registry.GraftedUnderForeignRoot`,
    `Registry.FullTableNeverAddsRoot`).

Command trees are values (`Commands.Cmd`). A `command_t *` into a tree is
a slot index plus a path of child indices (`Registry.NodeRef`). Pushing
onto a parent's child list rewrites the tree held in that slot.

## Model

| member | source | states |
|---|---|---|
| `CStrings.StrEq` | cmd_main.c:18-20 | equal exactly when the two C strings (up to their first NUL) are equal |
| `CStrings.Preprocess` | cmd_main.c:22-32 | NULL is left alone; otherwise the array afterwards equals `Preprocessed` of the array before |
| `CStrings.StrLen` | cmd_main.c:26 | the length is the index of the first NUL |
| `CStrings.TrimTrailing` | cmd_main.c:28 | exactly the trailing run of bytes `<= ' '` (signed) before the terminator becomes NUL; every other byte is unchanged |
| `CStrings.BlankSpaces` | cmd_main.c:29-31 | after the trim, every space within the original length becomes NUL, giving `Preprocessed` |
| `CStrings.TrimEnd` | cmd_main.c:28 | the start of the trailing blank run: every byte from it to the end is blank, and the byte before it is not |
| `CStrings.PreprocessedSpec` | cmd_main.c:22-32 | a spec that ends in a blank preprocesses to a buffer one longer, with the double-NUL end marker and no space left; every byte not blanked is the spec's own |
| `Hashing.RolMovesBits` | struct_funcs.c:9-11 | `rol` is a rotation: bit i lands at bit i + dist, wrapping past bit 31 |
| `Hashing.Hash` | struct_funcs.c:13-23 | the loop computes the left fold of the round function over the characters before the first NUL |
| `Hashing.HashIgnoresTail` | struct_funcs.c:16 | the hash of a buffer holding a name, its NUL and any tail is the hash of the name: bytes after the first NUL never reach it |
| `Commands.CmdHash` | struct_funcs.c:25-31 | only the name is hashed |
| `Commands.CmdEq` | struct_funcs.c:33-41 | true exactly when the names are equal, the argument counts are equal and every descriptor key is equal |
| `Commands.AppendAt` | cmd_main.c:93 | pushing onto the parent at a path keeps every header and path, and the parent's child list becomes the old list plus the new child |
| `Commands.AppendAtChangesOnlyParent` | cmd_main.c:93 | after the push, every old path still leads to a node with the same header; only the parent gains a child, exactly one |
| `CmdMaps.CmdMap.constructor` | struct_funcs.c:43-51 | two slots, all empty, count 0 |
| `CmdMaps.EmptySlots` | struct_funcs.c:47 | a zeroed slot array holds nothing: no occupied slot and no copy of any command |
| `CmdMaps.CmdMap.Add` | struct_funcs.c:66-94 | the slots afterwards are `AddSlots` of the slots before; the count goes up by one; the array is replaced only when the table was full |
| `CmdMaps.CmdMap.Grow` | struct_funcs.c:72-84 | a fresh array of twice the size into which every old entry is re-added in index order; same count |
| `CmdMaps.CmdMap.FreeSlotFrom` | struct_funcs.c:87-88 | the probe stops at the first empty slot going forward from the start, with wrap-around |
| `CmdMaps.CmdMap.Store` | struct_funcs.c:90-91 | the chosen empty slot receives the command and the count goes up by one; nothing else changes |
| `CmdMaps.InsertPos` | struct_funcs.c:87-88 | the slot the probe writes is empty, and every slot probed before it is occupied |
| `CmdMaps.Insert` | struct_funcs.c:87-91 | storing through the probe adds exactly one copy of the command and fills one more slot; every other slot is unchanged |
| `CmdMaps.Rehashed` | struct_funcs.c:78-81 | after re-adding the first i old slots, the doubled table holds exactly the commands of those slots |
| `CmdMaps.RehashedStep` | struct_funcs.c:79-80 | each re-add is an add into a table that is not full, and an empty old slot adds nothing |
| `CmdMaps.Grown` | struct_funcs.c:72-84 | the grown table is twice as large and holds the same commands, the same number of times |
| `CmdMaps.AddBase` | struct_funcs.c:72-85 | the table the probe runs in is the grown table exactly when the old one was full, and it always has room |
| `CmdMaps.AddStoresOneMore` | struct_funcs.c:66-94 | an add stores exactly one more copy of the command and of nothing else, doubles the size exactly when the table was full, and puts the command at the probed slot |
| `CmdMaps.AddToRoomyTable` | struct_funcs.c:87-91 | into a table that is not full, the add fills the first empty slot on the probe from the command's home and leaves every other slot alone |
| `CmdMaps.CmdMap.Find` | struct_funcs.c:96-107 | the lookup loop returns `FindSlot` of the slots |
| `CmdMaps.FindResult` | struct_funcs.c:96-107 | the answer is NULL or an occupied slot; a slot holding another name comes back only from a full table that lacks the key, and it is the key's home |
| `CmdMaps.FullTableMiss` | struct_funcs.c:101-103 | on a full table without the key, the probe comes back round and answers with the key's home |
| `CmdMaps.FindReachable` | struct_funcs.c:96-107 | a key stored where its probe can reach it is found; the answer is that very slot when no slot probed before it holds the key |
| `CmdMaps.FindNoneMeansAbsent` | struct_funcs.c:106 | in a table where every command is reachable, NULL means the key is stored nowhere |
| `CmdMaps.RehashedInvariant` | struct_funcs.c:78-81 | re-adding into the doubled table keeps every command reachable |
| `CmdMaps.AddKeepsReachable` | struct_funcs.c:66-94 | an add keeps every command that was stored reachable; the new one is reachable too unless the table grew and its home moved |
| `CmdMaps.AddedButLost` | struct_funcs.c:67 | when the add doubled the table and the key's new home slot is still empty, the command just added is stored but cannot be looked up |
| `CmdMaps.StaleIndexExample` | struct_funcs.c:67 | adding `d` and then `e` to a fresh table fills it; adding `a` then stores `a` in slot 1 of the grown table, and looking `a` up answers NULL |
| `CmdMaps.RehomedAddSlots` | struct_funcs.c:67 | the add with the probe started from the home in the table probed stores exactly one more copy of the command |
| `CmdMaps.RehomedAddFinds` | struct_funcs.c:67 | that add keeps every command reachable, and the command added is found afterwards |
| `CmdMaps.FindKey` | struct_funcs.c:100-106 | the lookup that answers NULL when the probe comes back round: any slot it answers holds the key |
| `CmdMaps.FindKeySpec` | struct_funcs.c:100-106 | it differs from `cmd_map_find` only where that answers a slot of another name; with every command reachable it answers NULL exactly when the key is stored nowhere |
| `ArrayLists.ArrayList.constructor` | struct_funcs.c:109-118 | capacity 2, no items, and the destructor flag as given |
| `ArrayLists.ArrayList.Push` | struct_funcs.c:120-132 | fails exactly when the capacity is 0; on success the items gain the new item at the end, and a full list doubles its capacity |
| `ArrayLists.ArrayList.Destroy` | struct_funcs.c:134-145 | the destructor is applied to the stored items in order (or to none without one); both counters become 0 |
| `Tokenizer.TokenizedStr.constructor` | struct_funcs.c:147-165 | the copy holds the string with every delimiter replaced by NUL; one offset per part; each offset read as a C string is exactly that part of the split |
| `Tokenizer.Tokenize` | struct_funcs.c:156-162 | the scan writes the replaced buffer and pushes exactly the part offsets |
| `Tokenizer.TokStrGet` | struct_funcs.c:167-172 | NULL exactly for a NULL tokenizer or an index past the last part; otherwise that part's offset |
| `Tokenizer.JoinSplit` | struct_funcs.c:157-161 | joining the parts with the delimiter gives the string back |
| `Tokenizer.SplitCount` | struct_funcs.c:157-161 | there is one more part than there are delimiters |
| `Tokenizer.SplitPartsFree` | struct_funcs.c:158-159 | no part contains the delimiter |
| `Tokenizer.TokensAreParts` | struct_funcs.c:156-161 | the offsets, read from the rewritten buffer, give the parts of the split, in order |
| `Tokenizer.PartStartsIncrease` | struct_funcs.c:160 | the offsets strictly increase |
| `Tokenizer.PartEndsAtDelimiter` | struct_funcs.c:158-160 | every part but the last ends at a delimiter, and the next offset is just past it |
| `Tokenizer.LastPartIsTail` | struct_funcs.c:157 | the last part is everything after the last delimiter |
| `Storage.NodesWellFormed` | cmd_storage.c:10-27 | sixteen entries with distinct, NUL-free keys that start with `<`; only the first entry's format starts with `>` |
| `Storage.LookupSpec` | cmd_storage.c:32-36 | from entry 1 on, the scan returns the first entry whose key matches, or `<VOID>` when none does |
| `Storage.DescriptorSpec` | cmd_storage.c:29-36 | a bare word gets entry 0; a `<`-word gets its own entry at index 1 or above, or `<VOID>` |
| `Storage.MarkerIffBare` | cmd_storage.c:29-30 | the subcommand marker `>` comes back exactly for a bare word |
| `Storage.SubcmdTagIsVoid` | cmd_storage.c:32 | the literal `<SUBCMD>` tag falls back to `<VOID>`, since the scan starts at entry 1; every other tag finds its own entry |
| `Storage.SizeNodeGet` | cmd_storage.c:9-37 | returns the descriptor `Descriptor` gives for the word |
| `Storage.WordsStep` | cmd_storage.c:93-94 | at a non-empty word, the words are that word followed by the words after its terminator |
| `Storage.SyntaxOfSpec` | cmd_storage.c:63-64 | one descriptor per counted word, in order |
| `Storage.ParseSpecAt` | cmd_storage.c:93-106 | the argument words start just past the first NUL after the name's first character |
| `Storage.ParseAtWord` | cmd_storage.c:86-109 | started on a non-empty word, the parse takes that word as the name and the words after it as arguments |
| `Storage.CountIsArgs` | cmd_storage.c:94-100 | the character-level count from a NUL is the number of argument words after it |
| `Storage.Parse` | cmd_storage.c:86-109 | the command built equals the word-level `ParseSpec` |
| `Storage.SkipName` | cmd_storage.c:93 | `while (*++args);` stops at the first NUL after the name's first character |
| `Storage.CountArgs` | cmd_storage.c:94-100 | the count is `ArgCount` of the words after the name |
| `Storage.SyntaxParse` | cmd_storage.c:61-76 | the descriptor array holds the descriptors of the counted words; with a subcommand marker the handler moves to one child parsed from the first argument word, and otherwise nothing changes |
| `Storage.ParseArgument` | cmd_storage.c:63-74 | stores one descriptor, steps past its word, and at the marker takes the handler away and yields the child |
| `Storage.ParseSubcommand` | cmd_storage.c:72 | the child is parsed from the first argument word, which is therefore its name |
| `Storage.SkipWord` | cmd_storage.c:65 | steps to just past the terminator of the current word |
| `Storage.WordStartSpec` | cmd_storage.c:64-65 | the i-th word starts at `WordStart`, and the next word just past its terminator |
| `Storage.CmdMake` | cmd_storage.c:78-84 | the command is the parse of the preprocessed copy from its start |
| `Storage.BareOnlyLast` | cmd_storage.c:66 | among the counted words only the last can be bare, and it is bare exactly when a subcommand follows |
| `Storage.ArgCountShape` | cmd_storage.c:94-100 | the counted words are the `<TAG>` words in front plus, if any word follows them, that one word; none exactly when there are no words |
| `Storage.HandlerPushedToLeaf` | cmd_storage.c:66-72 | the handler ends up at the deepest node of the chain of nested subcommands; every node above it has one child and no handler |
| `Storage.ParsedArguments` | cmd_storage.c:86-109 | the parsed command is named by its first word, has one descriptor per counted argument, and has no arguments exactly when the name is the last word |
| `Storage.ChildNamedByFirstArgument` | cmd_storage.c:72 | there is a child exactly when a marker is counted; it is named by the first argument word, which is the marker word only when that is the sole argument |
| `Registry.FirstNamed` | cmd_main.c:34-43 | the lowest index whose name is the key; none exactly when no entry has that name |
| `Registry.FindSubcommand` | cmd_main.c:34-43 | the scan returns `FirstNamed` |
| `Registry.AppendedIsFound` | cmd_main.c:34-43 | a child appended under a name no earlier child has is the one the lookup finds |
| `Registry.WalkFrom` | cmd_main.c:58-69 | an unmatched word lies between k and the end, along a valid path; a reported parent is a valid path |
| `Registry.WalkStep` | cmd_main.c:60-62 | a word that names a child moves the walk one level down, with the current node as the parent |
| `Registry.WalkFromSpec` | cmd_main.c:58-69 | from word k on, the walk stops at the first word no child is named by, having matched every earlier word; or it matches all of them and reports the parent of the last |
| `Registry.WalkSpec` | cmd_main.c:58-69 | the walk from the root matches a prefix of the words along a chain of children; only an empty word list leaves no parent |
| `Registry.SkipSpec` | cmd_main.c:45-70 | a reported parent is a valid node of a stored tree, and a reported word offset is one the parser can start at |
| `Registry.DescentSpec` | cmd_main.c:58-69 | a reported parent is a valid path below this root, and a reported offset can be parsed from |
| `Registry.WordStartAtEnd` | cmd_main.c:58 | the loop condition meets the double NUL exactly at the end of the word list |
| `Registry.SkipLocation` | cmd_main.c:45-70 | when `cmd_map_find` answers NULL for the first word, the location is the start of the line with no parent. Otherwise the parent lies in the tree at the slot it answered, which on a full table lacking the word holds another command. The parent is reached through children named by the words after the first. The offset is the first word that names none of its children, or NULL when every word names one |
| `Registry.SkipExistent` | cmd_main.c:45-70 | both fields NULL for a NULL string or map; otherwise the location is `SkipSpec` |
| `Registry.Descend` | cmd_main.c:58-69 | the loop returns `DescentSpec` |
| `Registry.VisitWord` | cmd_main.c:60-66 | the lookup result is `FirstNamed` on the current node's children; when found, the index moves to the next word's NUL |
| `Registry.DescentStops` | cmd_main.c:63-66 | a word no child is named by ends the descent, at that word, under the current node |
| `Registry.DescentEnds` | cmd_main.c:69 | running out of words returns no offset and the last recorded parent |
| `Registry.ParsedWellNamed` | cmd_storage.c:102 | every name in a parsed command is a C string |
| `Registry.ParsedNameFits` | struct_funcs.c:16 | a command parsed from a word shorter than 256 characters has a name the hash can fold |
| `Registry.Line` | cmd_main.c:78-79 | the duplicated and preprocessed spec is one character longer, has the double NUL end marker, and its first word is shorter than 256 characters |
| `Registry.AttachAt` | cmd_main.c:93 | only the slot of the parent's root changes, and it keeps its header; the parent's child list gains the child at its end |
| `Registry.AttachWellNamed` | cmd_main.c:93 | attaching keeps every stored name a C string |
| `Registry.AddWellNamed` | cmd_main.c:87 | adding a root keeps every stored name a C string |
| `Registry.AttachedIsFound` | cmd_main.c:89-93 | after the child is attached, looking up its word among the parent's children finds the new last child |
| `Registry.Registry.constructor` | cmd_main.c:11 | the global starts with no table |
| `Registry.Registry.Register` | cmd_main.c:72-95 | the table exists afterwards. When `cmd_map_find` answers NULL for the first word, the parsed command becomes a new root (`AddSlots`). Otherwise it becomes the new last child of the deepest command matched in the tree at the slot `cmd_map_find` answered (`AttachAt`). On a full table lacking the first word, that tree belongs to another command. The command is parsed from the first unmatched word to the end of the line |
| `Registry.Registry.EnsureTable` | cmd_main.c:73-74 | creates the two-slot table when there is none and leaves the roots as they were |
| `Registry.Registry.Locate` | cmd_main.c:78-80 | duplicating, preprocessing and skipping give the preprocessed line and `SkipSpec` of it |
| `Registry.Registry.AddRoot` | cmd_main.c:83-87 | the slots afterwards are `AddSlots` of the slots before |
| `Registry.Registry.AttachChild` | cmd_main.c:89-93 | the slots afterwards are `AttachAt` of the slots before |
| `Registry.CopiedInput` | cmd_main.c:84 | the string `cmd_make(loc.ptr, ...)` duplicates holds no NUL: it is the located word alone |
| `Registry.FullTableNeverAddsRoot` | cmd_main.c:51-56 | on a full table, `cmd_skip_existent` never reports a word to parse without a parent, so registration never adds a root |
| `Registry.GraftedUnderForeignRoot` | cmd_main.c:51-66 | on a full table lacking the first word, a line with more words is attached below the root in that word's home slot, which is named otherwise; a line with no other word gives NULL for both fields |
| `Registry.ForeignRootExample` | cmd_main.c:51-66 | with roots `a` and `b` filling the table, `c x ` gets a parent that is a root not named `c`, and `x` is the word to parse |
| `Registry.IntendedSkipSpec` | cmd_main.c:51-56 | the corrected descent enters only the root named by the first word; with every root reachable, a first word stored nowhere starts a new root; while the table is not full it agrees with `cmd_skip_existent` |
| `Registry.RootArgumentsLost` | cmd_main.c:84 | for `go x ` into an empty table, the copy handed on is `go`, which cannot be parsed; the line itself parses to `go` with one argument and the child `x` |

## Left out

- Allocation failures are not modelled: `calloc`, `malloc`, `realloc` and `_strdup` always succeed.
  - The `false` results of `cmd_map_add` (struct_funcs.c:69-70, 74-75) are therefore never produced.
  - So are `arraylist_push`'s `realloc` failure, `tok_str_make`'s NULL copy and `cmd_syntax_parse`'s NULL child.
- Registry.Registry.Register: always returns true, because `cmd_map_add` and `arraylist_push` never fail here.
- Registry.Registry.Register: requires that `cmd_skip_existent` reports a word to parse. When it reports none, the source calls `cmd_make(NULL, ...)`, and `_strdup(NULL)` is undefined.
  - This happens when the line's whole path is registered already.
  - It also happens on a full table for a one-word line whose word is not registered (`Registry.GraftedUnderForeignRoot`).
- Registry.Registry.Register: requires a spec that ends in a blank, and whose first word is shorter than 256 characters.
  - Without the trailing blank, the preprocessed copy has a single NUL, and the scans of `cmd_skip_existent` and `cmd_parse` read past it.
  - `hash` runs over the first word, in `cmd_map_find` and for a new root in `cmd_map_add`. Its `unsigned char` counter never ends the loop on a word of 256 characters or more. Later words are only compared, never hashed, and are not bounded.
- Storage.CmdMake: requires a spec that ends in a blank, for the same reason.
- Hashing.Hash: requires a string shorter than 256 characters. Its `unsigned char` counter wraps at 256, so the loop would restart and not end.
- Storage.Parse: does not model `cmd_parse(NULL)` returning a zeroed command. A NULL only reaches it from a failed `_strdup`.
- `free`, `cmd_map_destroy`, `cmd_destroy` and `tok_str_destroy` are not modelled: memory is not modelled.
- Names pointing into the duplicated buffers are not modelled either; names are values.
- `debug_only` output and the `printf` in `cmd_merge_subcmd` are left out.
- `cmd_merge_subcmd` is modelled as the plain push it performs.
- `cmd_alloc` is not part of this model. The parent branch of `cmd_register` uses the same parse as the root branch.
- The duplicate `cmd_preprocess` in cmd_storage.c:47-54 differs from cmd_main.c:22-32 only in lacking the NULL check. `CStrings.Preprocess` models the one with the check.
- The empty `cmd_skip_existent` stub in cmd_storage.c:39-45 does nothing and is not modelled.
- Command trees are values. The model does not capture aliasing between a `command_t *` into the table and the table itself; pushing onto a child list is modelled as rewriting the tree in its slot.
- CmdMaps.CmdMap.Add: the `uint` size and count are unbounded integers, so doubling never wraps at 2^32.
- ArrayLists.ArrayList.Push: the `uint` capacity is an unbounded integer, so doubling never wraps; only a capacity of 0 fails.
- The rest of the library (argument bundles, command lookup at run time, the input loop, printing the tree) is outside this model.

## Findings

| source | as written | input that shows it | evidently intended | confidence | as-written member | corrected member |
|---|---|---|---|---|---|---|
| struct_funcs.c:100-106 | `cmd_map_find` gives up when its probe comes back to the home slot, and then answers that slot if it is occupied. On a full table without the key, that slot holds another command, so `cmd_skip_existent` (cmd_main.c:51) descends into another command's tree | table holding the roots `a` and `b` (full at its initial two slots), then registering `c x `: `x` becomes a child of `a` or `b`. Registering `c ` instead hands NULL to `cmd_make` | answer NULL when the probe comes back round, so a new first word becomes a new root | not executed | `Registry.ForeignRootExample` | `Registry.IntendedSkipSpec` |
| struct_funcs.c:67 | `map_index` is taken modulo the size before a full table is doubled, and the probe in the doubled table starts from that stale index | add `d`, then `e`, to a fresh table, then add `a`: `a` lands in slot 1 of the four-slot table while its home there is the empty slot 2, so `cmd_map_find("a")` answers NULL | take the index modulo the size after the growth | not executed | `CmdMaps.StaleIndexExample` | `CmdMaps.RehomedAddFinds` |
| cmd_main.c:84 | `cmd_make(loc.ptr, action)` (and `cmd_alloc(loc.ptr, action)` at line 90) is handed a pointer into the already preprocessed line, and `_strdup` copies only the located word up to its NUL. The copy has no double NUL, so `cmd_parse`'s scans read past its end, and the argument words never reach the parser | `go x ` registered into an empty table: the copy is `go`, while the line parses to `go` with one argument and the nested child `x` | parse the rest of the preprocessed line, starting at the located word | not executed | `Registry.RootArgumentsLost` | `Registry.Registry.Register` |

`Registry.Registry.Register` parses the line in place, as the first row
intends. It keeps `cmd_map_find` and `cmd_map_add` as written, so its
contract shows what registration does to the table, quirks included. The
corrected lookup and add stand beside them with their own proofs.
