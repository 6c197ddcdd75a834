/** C strings as the command processor sees them: a region of memory (a
    sequence of characters) read from a given offset up to the first NUL.
    The end of a region acts as a terminator, so every offset names a
    well-defined string. */
module CStrings {

  const NUL: char := '\0'

  /** Index of the first NUL at or after p, or |buf| if there is none. */
  function NextNul(buf: seq<char>, p: nat): (q: nat)
    requires p <= |buf|
    ensures p <= q <= |buf|
    ensures q < |buf| ==> buf[q] == NUL
    decreases |buf| - p
  {
    if p == |buf| || buf[p] == NUL then p else NextNul(buf, p + 1)
  }

  /** No NUL comes before the one `NextNul` finds. */
  lemma {:induction false} NextNulSkips(buf: seq<char>, p: nat)
    requires p <= |buf|
    ensures forall j :: p <= j < NextNul(buf, p) ==> buf[j] != NUL
    decreases |buf| - p
  {
    if p < |buf| && buf[p] != NUL {
      NextNulSkips(buf, p + 1);
    }
  }

  /** The string a `char *` pointing at buf[p] denotes. */
  function CStr(buf: seq<char>, p: nat): (s: string)
    requires p <= |buf|
    ensures NUL !in s
  {
    NextNulSkips(buf, p);
    buf[p..NextNul(buf, p)]
  }

  lemma CStrOfPlain(s: string)
    requires NUL !in s
    ensures CStr(s, 0) == s && CStr(s + [NUL], 0) == s
  {
    NextNulIsFirst(s, 0, |s|);
    NextNulIsFirst(s + [NUL], 0, |s|);
  }

  /** A C `char` is a signed byte: the low eight bits of the character,
      read as a two's-complement number. */
  function SignedChar(c: char): (v: int)
    ensures -128 <= v < 128
  {
    var b := (c as int) % 256;
    if b < 128 then b else b - 256
  }

  /** The test `str[i] <= ' '` on a signed `char`: blanks, control
      characters, and every byte of 128 or more. */
  predicate IsBlank(c: char) {
    SignedChar(c) <= 32
  }

  /** `str_eq`: `strcmp(s1, s2) == 0`, compared character by character. */
  function StrEq(a: seq<char>, b: seq<char>): (r: bool)
    ensures r <==> CStr(a, 0) == CStr(b, 0)
    decreases |a|
  {
    var ca := if a == [] then NUL else a[0];
    var cb := if b == [] then NUL else b[0];
    if ca != cb then
      assert a != [] ==> CStr(a, 0) == [] || CStr(a, 0)[0] == ca;
      assert b != [] ==> CStr(b, 0) == [] || CStr(b, 0)[0] == cb;
      false
    else if ca == NUL then true
    else
      CStrCons(a);
      CStrCons(b);
      StrEq(a[1..], b[1..])
  }

  lemma CStrCons(a: seq<char>)
    requires a != [] && a[0] != NUL
    ensures CStr(a, 0) == [a[0]] + CStr(a[1..], 0)
  {
    NextNulShift(a, 1);
  }

  lemma {:induction false} NextNulShift(a: seq<char>, p: nat)
    requires 1 <= p <= |a|
    ensures NextNul(a, p) == NextNul(a[1..], p - 1) + 1
    decreases |a| - p
  {
    if p < |a| && a[p] != NUL {
      NextNulShift(a, p + 1);
    }
  }

  // ---------------------------------------------------------------------
  // cmd_preprocess: blanks to terminators, in place

  /** Start of the trailing run of blank bytes of buf[..n]. */
  function TrimEnd(buf: seq<char>, n: nat): (t: nat)
    requires n <= |buf|
    ensures t <= n
    ensures forall j :: t <= j < n ==> IsBlank(buf[j])
    ensures t > 0 ==> !IsBlank(buf[t - 1])
    decreases n
  {
    if n > 0 && IsBlank(buf[n - 1]) then TrimEnd(buf, n - 1) else n
  }

  /** The buffer `cmd_preprocess` leaves behind: within the C string,
      the trailing blank run and every remaining space become NUL. */
  function Preprocessed(buf: seq<char>): seq<char>
  {
    var len := NextNul(buf, 0);
    var t := TrimEnd(buf, len);
    seq(|buf|, i requires 0 <= i < |buf| =>
      if i < len && (t <= i || buf[i] == ' ') then NUL else buf[i])
  }

  /** `cmd_preprocess(str)`: a no-op on NULL; otherwise the trailing bytes
      `<= ' '` are overwritten with NUL from the end backwards, then every
      space of the original length is overwritten with NUL. */
  method Preprocess(str: array?<char>)
    modifies str
    ensures str != null ==> str[..] == Preprocessed(old(str[..]))
  {
    if str == null {
      return;
    }
    ghost var orig := str[..];
    var len := StrLen(str);
    TrimTrailing(str, len);
    BlankSpaces(str, len, orig);
  }

  /** `strlen(str)`. */
  method StrLen(str: array<char>) returns (len: nat)
    ensures len == NextNul(str[..], 0)
  {
    len := 0;
    while len < str.Length && str[len] != NUL
      invariant len <= str.Length
      invariant forall j :: 0 <= j < len ==> str[j] != NUL
    {
      len := len + 1;
    }
    NextNulIsFirst(str[..], 0, len);
  }

  /** The backwards loop of `cmd_preprocess`: the trailing blank run of
      str[..len] becomes NUL, nothing else changes. */
  method TrimTrailing(str: array<char>, len: nat)
    requires len <= str.Length
    modifies str
    ensures forall j :: 0 <= j < str.Length ==>
      str[j] == if TrimEnd(old(str[..]), len) <= j < len then NUL else old(str[j])
  {
    ghost var orig := str[..];
    ghost var t := TrimEnd(orig, len);
    var i := len - 1;
    while i >= 0 && IsBlank(str[i])
      invariant t - 1 <= i < len
      invariant forall j :: 0 <= j < str.Length && (j <= i || len <= j) ==> str[j] == orig[j]
      invariant forall j :: i < j < len ==> str[j] == NUL
    {
      str[i] := NUL;
      i := i - 1;
    }
  }

  /** The forward loop of `cmd_preprocess`: every space of str[..len]
      becomes NUL. */
  method BlankSpaces(str: array<char>, len: nat, ghost orig: seq<char>)
    requires len == NextNul(orig, 0) && |orig| == str.Length
    requires forall j :: 0 <= j < str.Length ==>
      str[j] == if TrimEnd(orig, len) <= j < len then NUL else orig[j]
    modifies str
    ensures str[..] == Preprocessed(orig)
  {
    ghost var t := TrimEnd(orig, len);
    var i := 0;
    while i < len
      invariant 0 <= i <= len
      invariant forall j :: 0 <= j < str.Length ==>
        str[j] == (if j < i && (t <= j || orig[j] == ' ') then NUL
                   else if t <= j < len then NUL
                   else orig[j])
    {
      if str[i] == ' ' {
        str[i] := NUL;
      }
      i := i + 1;
    }
  }

  lemma {:induction false} NextNulIsFirst(buf: seq<char>, p: nat, q: nat)
    requires p <= q <= |buf|
    requires q < |buf| ==> buf[q] == NUL
    requires forall j :: p <= j < q ==> buf[j] != NUL
    ensures NextNul(buf, p) == q
    decreases q - p
  {
    if p < q {
      NextNulIsFirst(buf, p + 1, q);
    }
  }

  /** A buffer whose scan for the word list ends in bounds: its last two
      bytes are NUL (the "double NUL" end marker). */
  predicate WellTerminated(buf: seq<char>) {
    |buf| >= 2 && buf[|buf| - 1] == NUL && buf[|buf| - 2] == NUL
  }

  /** A spec `cmd_make` can parse: a C string of at least two characters
      whose last character is a blank, so that preprocessing leaves the
      double-NUL end marker the word scans stop at. */
  predicate Parsable(spec: string) {
    NUL !in spec && 2 <= |spec| && IsBlank(spec[|spec| - 1])
  }

  /** A spec `cmd_register` can take: parsable, and with a first word
      shorter than 256 characters, since `hash` runs over that word with an
      8-bit index. The other words are only compared, never hashed. */
  predicate ValidSpec(spec: string) {
    Parsable(spec) && |CStr(Preprocessed(spec + [NUL]), 0)| < 256
  }

  /** The duplicated and preprocessed spec carries the double-NUL end
      marker, keeps its length (plus the terminator), holds no space inside
      the C string any more, and agrees with the spec on every character it
      did not blank out. */
  lemma {:induction false} PreprocessedSpec(spec: string)
    requires Parsable(spec)
    ensures var buf := Preprocessed(spec + [NUL]);
      |buf| == |spec| + 1 && WellTerminated(buf) && |buf| >= 3
      && (forall i :: 0 <= i < |buf| ==> buf[i] != ' ')
      && (forall i :: 0 <= i < |spec| && buf[i] != NUL ==> buf[i] == spec[i])
  {
    var s := spec + [NUL];
    assert NextNul(s, 0) == |spec| by { NextNulIsFirst(s, 0, |spec|); }
    var t := TrimEnd(s, |spec|);
    assert t <= |spec| - 1;
  }
}
