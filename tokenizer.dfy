/** `tokenized_str_t`: one owned copy of a string in which every delimiter
    has been overwritten with NUL, plus the list of offsets at which the
    resulting parts start. */
module Tokenizer {
  import opened CStrings
  import opened Commands
  import opened ArrayLists

  // ---------------------------------------------------------------------
  // The parts, as values

  /** The parts of `s` between delimiters, in order; `k` delimiters give
      `k + 1` parts, some possibly empty. */
  function Split(s: string, d: char): (parts: seq<string>)
    ensures |parts| >= 1
    decreases |s|
  {
    if s == [] then [[]]
    else
      var init := Split(s[..|s| - 1], d);
      if s[|s| - 1] == d then init + [[]]
      else init[..|init| - 1] + [init[|init| - 1] + [s[|s| - 1]]]
  }

  /** The parts glued back together with the delimiter between them. */
  function Join(parts: seq<string>, d: char): string
    requires |parts| >= 1
    decreases |parts|
  {
    if |parts| == 1 then parts[0]
    else Join(parts[..|parts| - 1], d) + [d] + parts[|parts| - 1]
  }

  /** Number of occurrences of `d` in `s`. */
  function Occurrences(s: string, d: char): nat
    decreases |s|
  {
    if s == [] then 0
    else Occurrences(s[..|s| - 1], d) + (if s[|s| - 1] == d then 1 else 0)
  }

  /** Joining the parts with the delimiter gives back the input. */
  lemma {:induction false} JoinSplit(s: string, d: char)
    ensures Join(Split(s, d), d) == s
    decreases |s|
  {
    if s != [] {
      var init := s[..|s| - 1];
      var c := s[|s| - 1];
      var p := Split(init, d);
      var q := Split(s, d);
      JoinSplit(init, d);
      assert s == init + [c];
      if c == d {
        assert q == p + [[]];
        assert q[..|q| - 1] == p;
        assert Join(q, d) == Join(p, d) + [d] + [];
      } else {
        assert q == p[..|p| - 1] + [p[|p| - 1] + [c]];
        JoinLastGrows(p, d, c);
      }
    }
  }

  lemma {:induction false} JoinLastGrows(p: seq<string>, d: char, c: char)
    requires |p| >= 1
    ensures Join(p[..|p| - 1] + [p[|p| - 1] + [c]], d) == Join(p, d) + [c]
  {
    var q := p[..|p| - 1] + [p[|p| - 1] + [c]];
    if |p| > 1 {
      assert q[..|q| - 1] == p[..|p| - 1];
    }
  }

  /** One part more than there are delimiters. */
  lemma {:induction false} SplitCount(s: string, d: char)
    ensures |Split(s, d)| == Occurrences(s, d) + 1
    decreases |s|
  {
    if s != [] {
      SplitCount(s[..|s| - 1], d);
    }
  }

  /** No part contains the delimiter. */
  lemma {:induction false} SplitPartsFree(s: string, d: char)
    ensures forall k :: 0 <= k < |Split(s, d)| ==> d !in Split(s, d)[k]
    decreases |s|
  {
    if s != [] {
      SplitPartsFree(s[..|s| - 1], d);
    }
  }

  // ---------------------------------------------------------------------
  // The parts, as a buffer and offsets

  /** The duplicated string with every delimiter overwritten by NUL. */
  function Replaced(s: string, d: char): seq<char>
  {
    seq(|s|, i requires 0 <= i < |s| => if s[i] == d then NUL else s[i])
  }

  /** Where the parts start: offset 0, then one past every delimiter. */
  function PartStarts(s: string, d: char): (starts: seq<nat>)
    ensures |starts| >= 1 && starts[0] == 0
    ensures forall k :: 0 <= k < |starts| ==> starts[k] <= |s|
    decreases |s|
  {
    if s == [] then [0]
    else PartStarts(s[..|s| - 1], d) + (if s[|s| - 1] == d then [|s|] else [])
  }

  /** Read as C strings from the rewritten buffer, the recorded offsets
      give exactly the parts of the split, in order. */
  lemma TokensAreParts(s: string, d: char)
    requires NUL !in s
    ensures |PartStarts(s, d)| == |Split(s, d)|
    ensures forall k :: 0 <= k < |Split(s, d)| ==>
      CStr(Replaced(s, d) + [NUL], PartStarts(s, d)[k]) == Split(s, d)[k]
  {
    SplitCountsMatch(s, d);
    forall k | 0 <= k < |Split(s, d)|
      ensures CStr(Replaced(s, d) + [NUL], PartStarts(s, d)[k]) == Split(s, d)[k]
    {
      TokenIsPart(s, d, k);
    }
  }

  lemma TokenIsPart(s: string, d: char, k: nat)
    requires NUL !in s && k < |Split(s, d)|
    ensures |PartStarts(s, d)| == |Split(s, d)|
    ensures CStr(Replaced(s, d) + [NUL], PartStarts(s, d)[k]) == Split(s, d)[k]
  {
    SplitCountsMatch(s, d);
    SplitPartsFree(s, d);
    var st := PartStarts(s, d);
    var part := Split(s, d)[k];
    assert d !in part;
    if k + 1 < |st| {
      PartEndsAtDelimiter(s, d, k);
      ReplacedSegment(s, d, st[k], st[k + 1] - 1);
    } else {
      LastPartIsTail(s, d);
      ReplacedSegment(s, d, st[k], |s|);
    }
  }

  /** A delimiter-free stretch of the input that ends at a delimiter or at
      the end reads back, from the rewritten buffer, as itself. */
  lemma ReplacedSegment(s: string, d: char, a: nat, b: nat)
    requires NUL !in s && a <= b <= |s|
    requires d !in s[a..b] && (b < |s| ==> s[b] == d)
    ensures CStr(Replaced(s, d) + [NUL], a) == s[a..b]
  {
    var buf := Replaced(s, d) + [NUL];
    forall j | a <= j < b
      ensures buf[j] == s[j]
    {
      assert s[j] == s[a..b][j - a];
    }
    NextNulIsFirst(buf, a, b);
  }

  /** Offsets are strictly increasing. */
  lemma {:induction false} PartStartsIncrease(s: string, d: char, k: nat)
    requires k < |PartStarts(s, d)|
    ensures forall j :: k < j < |PartStarts(s, d)| ==> PartStarts(s, d)[k] < PartStarts(s, d)[j]
    decreases |s|
  {
    if s != [] {
      var init := s[..|s| - 1];
      if k < |PartStarts(init, d)| {
        PartStartsIncrease(init, d, k);
      }
    }
  }

  /** Every part but the last ends at a delimiter of the input. */
  lemma {:induction false} PartEndsAtDelimiter(s: string, d: char, k: nat)
    requires k + 1 < |PartStarts(s, d)|
    ensures |PartStarts(s, d)| == |Split(s, d)|
    ensures PartStarts(s, d)[k + 1] == PartStarts(s, d)[k] + |Split(s, d)[k]| + 1
    ensures s[PartStarts(s, d)[k + 1] - 1] == d
    ensures s[PartStarts(s, d)[k]..PartStarts(s, d)[k + 1] - 1] == Split(s, d)[k]
    decreases |s|
  {
    var init := s[..|s| - 1];
    var c := s[|s| - 1];
    var st0 := PartStarts(init, d);
    var p := Split(init, d);
    var st := PartStarts(s, d);
    var q := Split(s, d);
    SplitCountsMatch(init, d);
    SplitCountsMatch(s, d);
    if k + 1 < |st0| {
      PartEndsAtDelimiter(init, d, k);
      assert st[k] == st0[k] && st[k + 1] == st0[k + 1];
      assert q[k] == p[k];
      assert s[st[k]..st[k + 1] - 1] == init[st0[k]..st0[k + 1] - 1];
    } else {
      assert c == d;
      LastPartIsTail(init, d);
      assert st[k] == st0[k] && st[k + 1] == |s|;
      assert q[k] == p[k];
      assert s[st[k]..st[k + 1] - 1] == init[st0[k]..];
    }
  }

  lemma {:induction false} SplitCountsMatch(s: string, d: char)
    ensures |PartStarts(s, d)| == |Split(s, d)|
    decreases |s|
  {
    if s != [] {
      SplitCountsMatch(s[..|s| - 1], d);
    }
  }

  /** The last part is everything after the last delimiter. */
  lemma {:induction false} LastPartIsTail(s: string, d: char)
    ensures |PartStarts(s, d)| == |Split(s, d)|
    ensures var st := PartStarts(s, d);
      st[|st| - 1] <= |s| && s[st[|st| - 1]..] == Split(s, d)[|Split(s, d)| - 1]
    decreases |s|
  {
    SplitCountsMatch(s, d);
    if s != [] {
      var init := s[..|s| - 1];
      LastPartIsTail(init, d);
      var st := PartStarts(init, d);
      if s[|s| - 1] != d {
        assert s[st[|st| - 1]..] == init[st[|st| - 1]..] + [s[|s| - 1]];
      }
    }
  }

  // ---------------------------------------------------------------------
  // The tokenizer object

  class TokenizedStr {
    var str: array<char>
    var parts: ArrayList<nat>

    ghost predicate Valid()
      reads this, parts
    {
      parts.Valid()
    }

    /** `tok_str_make(str, delim)`: duplicate the string, then scan it up
        to its terminator, overwriting every delimiter with NUL and recording
        the offset just past it. */
    constructor (s: string, delim: char)
      requires NUL !in s
      ensures Valid() && fresh(str) && fresh(parts) && fresh(parts.arr)
      ensures str[..] == Replaced(s, delim) + [NUL]
      ensures parts.Items() == PartStarts(s, delim)
      ensures parts.count == |Split(s, delim)|
      ensures forall k :: 0 <= k < parts.count ==>
        CStr(str[..], parts.Items()[k]) == Split(s, delim)[k]
    {
      var buf := new char[|s| + 1](i requires 0 <= i <= |s| => if i < |s| then s[i] else NUL);
      var list := new ArrayList<nat>(false);
      var _ := list.Push(0);
      Tokenize(buf, list, s, delim);
      str := buf;
      parts := list;
      new;
      TokensAreParts(s, delim);
    }
  }

  /** The scan of `tok_str_make` over the duplicated string: every
      delimiter before the terminator becomes NUL and the offset just past
      it is pushed. */
  method Tokenize(buf: array<char>, list: ArrayList<nat>, s: string, delim: char)
    requires NUL !in s && buf.Length == |s| + 1
    requires forall j :: 0 <= j < buf.Length ==> buf[j] == if j < |s| then s[j] else NUL
    requires list.Valid() && list.Items() == [0] && list.size > 0
    modifies buf, list, list.arr
    ensures buf[..] == Replaced(s, delim) + [NUL]
    ensures list.Valid() && list.Items() == PartStarts(s, delim)
    ensures list.arr == old(list.arr) || fresh(list.arr)
  {
    var i := 0;
    while buf[i] != NUL
      invariant i <= |s|
      invariant forall j :: 0 <= j < i ==> buf[j] == (if s[j] == delim then NUL else s[j])
      invariant forall j :: i <= j < buf.Length ==> buf[j] == if j < |s| then s[j] else NUL
      invariant list.Valid() && list.size > 0
      invariant list.arr == old(list.arr) || fresh(list.arr)
      invariant list.Items() == PartStarts(s[..i], delim)
      decreases |s| - i
    {
      assert s[..i + 1][..i] == s[..i];
      if buf[i] == delim {
        buf[i] := NUL;
        var _ := list.Push(i + 1);
      }
      i := i + 1;
    }
    assert s[..i] == s;
    assert buf[..] == Replaced(s, delim) + [NUL];
  }

  /** `tok_str_get`: NULL for a NULL tokenizer or an index past the last
      part; otherwise the offset at which that part starts. */
  method TokStrGet(t: TokenizedStr?, index: nat) returns (r: Option<nat>)
    requires t != null ==> t.Valid()
    ensures r.None? <==> t == null || index >= t.parts.count
    ensures r.Some? ==> t != null && r.value == t.parts.Items()[index]
  {
    if t == null || index >= t.parts.count {
      return None;
    }
    return Some(t.parts.arr[index]);
  }
}
