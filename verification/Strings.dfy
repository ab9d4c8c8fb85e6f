/** The string routines of str.c. A string is a position p in a byte sequence; it ends at
    the first zero byte from p on. */
module Strings {
  import opened Bytes

  predicate Terminated(s: seq<byte>, p: nat) {
    exists k :: p <= k < |s| && s[k] == 0
  }

  /** Where the string at p ends. */
  function End(s: seq<byte>, p: nat): (e: nat)
    requires Terminated(s, p)
    ensures p <= e < |s| && s[e] == 0
    ensures forall k :: p <= k < e ==> s[k] != 0
    decreases |s| - p
  {
    if s[p] == 0 then p else End(s, p + 1)
  }

  lemma EndFrom(s: seq<byte>, p: nat, q: nat)
    requires Terminated(s, p) && p <= q <= End(s, p)
    ensures Terminated(s, q) && End(s, q) == End(s, p)
  {
    assert s[End(s, p)] == 0;
    assert !(End(s, q) < End(s, p));
  }

  /** How often a occurs between p and e. */
  function Count(s: seq<byte>, p: nat, e: nat, a: byte): nat
    requires p <= e <= |s|
    decreases e - p
  {
    if p == e then 0 else (if s[p] == a then 1 else 0) + Count(s, p + 1, e, a)
  }

  lemma {:induction false} CountZero(s: seq<byte>, p: nat, e: nat, a: byte)
    requires p <= e <= |s|
    ensures Count(s, p, e, a) == 0 <==> forall k :: p <= k < e ==> s[k] != a
    decreases e - p
  {
    if p < e {
      CountZero(s, p + 1, e, a);
    }
  }

  lemma {:induction false} CountSkip(s: seq<byte>, p: nat, q: nat, e: nat, a: byte)
    requires p <= q < e <= |s| && s[q] == a && forall k :: p <= k < q ==> s[k] != a
    ensures Count(s, p, e, a) == 1 + Count(s, q + 1, e, a)
    decreases q - p
  {
    if p < q {
      CountSkip(s, p + 1, q, e, a);
    }
  }

  /** strsize */
  method StrSize(s: seq<byte>, p: nat) returns (n: nat)
    requires Terminated(s, p)
    ensures n == End(s, p) - p
  {
    n := 0;
    while s[p + n] != 0
      invariant p + n <= End(s, p)
      decreases End(s, p) - p - n
    {
      n := n + 1;
    }
  }

  /** findfirstsprt */
  method FindFirst(s: seq<byte>, p: nat, separator: byte) returns (r: int)
    requires Terminated(s, p) && separator != 0
    ensures r == -1 ==> forall k :: p <= k < End(s, p) ==> s[k] != separator
    ensures r != -1 ==> r >= 0 && p + r < End(s, p) && s[p + r] == separator && forall k :: p <= k < p + r ==> s[k] != separator
  {
    var i: nat := 0;
    while s[p + i] != separator && s[p + i] != 0
      invariant p + i <= End(s, p) && forall k :: p <= k < p + i ==> s[k] != separator
      decreases End(s, p) - p - i
    {
      i := i + 1;
    }
    if s[p + i] == 0 {
      return -1;
    }
    r := i;
  }

  /** findlastsprt */
  method FindLast(s: seq<byte>, p: nat, separator: byte) returns (r: int)
    requires Terminated(s, p) && separator != 0
    ensures r == -1 ==> forall k :: p <= k < End(s, p) ==> s[k] != separator
    ensures r != -1 ==> r >= 0 && p + r < End(s, p) && s[p + r] == separator && forall k :: p + r < k < End(s, p) ==> s[k] != separator
  {
    var size := StrSize(s, p);
    var at := p + size;
    while s[at] != separator && at != p
      invariant p <= at <= End(s, p) && forall k :: at < k < End(s, p) ==> s[k] != separator
      decreases at
    {
      at := at - 1;
    }
    if at == p && s[p] != separator {
      return -1;
    }
    r := at - p;
  }

  /** strcount */
  method StrCount(s: seq<byte>, p: nat, a: byte) returns (count: nat)
    requires Terminated(s, p)
    ensures count == Count(s, p, End(s, p), a)
  {
    count := 0;
    var start := p;
    while s[start] != 0
      invariant p <= start <= End(s, p)
      invariant count + Count(s, start, End(s, p), a) == Count(s, p, End(s, p), a)
      decreases End(s, p) - start
    {
      if s[start] == a {
        count := count + 1;
      }
      start := start + 1;
    }
  }

  /** Where strcut stops: at the first separator or at the end of the string. */
  function CutAt(s: seq<byte>, p: nat, separator: byte): (i: nat)
    requires Terminated(s, p)
    ensures p <= i <= End(s, p) && (s[i] == separator || i == End(s, p))
    ensures forall k :: p <= k < i ==> s[k] != separator
    decreases |s| - p
  {
    if s[p] == separator || s[p] == 0 then p else CutAt(s, p + 1, separator)
  }

  /** strcut copies the byte it stops at as well. If that is the terminator, the result is
      the string; if it is the separator, the result is not terminated by strcut, and where
      it ends depends on what the result buffer held before. */
  method StrCut(s: seq<byte>, p: nat, separator: byte, result: array<byte>)
    requires Terminated(s, p) && CutAt(s, p, separator) - p < result.Length
    modifies result
    ensures var n := CutAt(s, p, separator) - p + 1;
      result[..n] == s[p..p + n] && result[n..] == old(result[n..])
  {
    var i := 0;
    while s[p + i] != separator && s[p + i] != 0
      invariant p + i <= CutAt(s, p, separator)
      decreases End(s, p) - p - i
    {
      i := i + 1;
    }
    assert p + i == CutAt(s, p, separator);
    ghost var before := result[..];
    for k := 0 to i + 1
      invariant forall j :: 0 <= j < k ==> result[j] == s[p + j]
      invariant forall j :: k <= j < result.Length ==> result[j] == before[j]
    {
      result[k] := s[p + k];
    }
  }

  predicate DifferFirst(s: seq<byte>, p: nat, t: seq<byte>, q: nat, k: nat) {
    p + k < |s| && q + k < |t| && s[p + k] != t[q + k] && s[p..p + k] == t[q..q + k]
  }

  /** The value of a plain char, which is signed on the i386. */
  function Signed(b: byte): (c: int)
    ensures -128 <= c < 128 && (c - b) % 256 == 0
  {
    if b < 128 then b else b - 256
  }

  /** strcmpa: 0 when the two agree on size bytes, otherwise the order of the two chars at
      the first difference. */
  method StrCmp(s: seq<byte>, p: nat, t: seq<byte>, q: nat, size: nat) returns (r: int)
    requires p + size <= |s| && q + size <= |t|
    ensures r == 0 <==> s[p..p + size] == t[q..q + size]
    ensures r != 0 ==> exists k: nat :: DifferFirst(s, p, t, q, k) && k < size && r == if Signed(s[p + k]) > Signed(t[q + k]) then 1 else -1
  {
    var k := 0;
    while k < size
      invariant k <= size && s[p..p + k] == t[q..q + k]
    {
      if s[p + k] != t[q + k] {
        assert s[p..p + size][k] != t[q..q + size][k] && DifferFirst(s, p, t, q, k);
        return if Signed(s[p + k]) > Signed(t[q + k]) then 1 else -1;
      }
      assert s[p..p + (k + 1)] == s[p..p + k] + [s[p + k]] && t[q..q + (k + 1)] == t[q..q + k] + [t[q + k]];
      k := k + 1;
    }
    return 0;
  }

  // ----- the two ways a path is split

  /** The position behind the last separator before e, or 0. */
  function NamePos(s: seq<byte>, e: nat, separator: byte): (p: nat)
    requires e <= |s|
    ensures p <= e && (p > 0 ==> s[p - 1] == separator)
    ensures forall k :: p <= k < e ==> s[k] != separator
  {
    if e == 0 || s[e - 1] == separator then e else NamePos(s, e - 1, separator)
  }

  lemma NamePosUnique(s: seq<byte>, e: nat, separator: byte, p: nat)
    requires p <= e <= |s| && (p > 0 ==> s[p - 1] == separator) && forall k :: p <= k < e ==> s[k] != separator
    ensures p == NamePos(s, e, separator)
  {
  }

  /** The walk in writeDirectory: as many times as there are separators, step behind the
      next one. */
  method NameStart(s: seq<byte>, separator: byte) returns (p: nat)
    requires Terminated(s, 0) && separator != 0
    ensures p == NamePos(s, End(s, 0), separator)
    ensures Terminated(s, p) && End(s, p) == End(s, 0)
  {
    ghost var e := End(s, 0);
    p := 0;
    var count := StrCount(s, 0, separator);
    for i := 0 to count
      invariant p <= e && Count(s, p, e, separator) == count - i
      invariant p > 0 ==> s[p - 1] == separator
    {
      EndFrom(s, 0, p);
      var a := FindFirst(s, p, separator);
      CountZero(s, p, e, separator);
      if a != -1 {
        CountSkip(s, p, p + a, e, separator);
        p := p + (a + 1);
      } else {
        break;
      }
    }
    CountZero(s, p, e, separator);
    EndFrom(s, 0, p);
    NamePosUnique(s, e, separator, p);
  }

  /** seekBaseDirectory cuts the path from the back, writeDirectory finds the name from
      the front: they cut at the same separator, so the base, the separator and the name
      give the path back. */
  method SplitPath(s: seq<byte>, separator: byte) returns (last: int, name: nat)
    requires Terminated(s, 0) && separator != 0
    ensures last == -1 <==> separator !in s[..End(s, 0)]
    ensures name == last + 1
    ensures last != -1 ==> 0 <= last < End(s, 0) && s[..last] + [separator] + s[name..End(s, 0)] == s[..End(s, 0)]
    ensures separator !in s[name..End(s, 0)]
  {
    last := FindLast(s, 0, separator);
    name := NameStart(s, separator);
    if last != -1 {
      assert s[..End(s, 0)][last] == separator;
    }
  }

  // ----- strmatch

  /** The n bytes of name occur in t at offset o, as far as strmatch compares them: it
      always looks at the first byte, even of an empty name. */
  predicate Occurs(name: seq<byte>, n: nat, t: seq<byte>, o: nat)
    requires n < |name| && o + n < |t|
  {
    t[o] == name[0] && t[o..o + n] == name[..n]
  }

  datatype Match = Found(offset: nat) | NotFound | NoReturnValue

  /** The inner loop of strmatch: on to the next byte c below size. */
  method NextByte(t: seq<byte>, from: nat, size: nat, c: byte) returns (offset: nat)
    requires from < size < |t|
    ensures from <= offset <= size && forall o: nat :: from <= o < offset ==> t[o] != c
    ensures offset < size ==> t[offset] == c
  {
    offset := from;
    while t[offset] != c && offset < size
      invariant from <= offset <= size && forall o: nat :: from <= o < offset ==> t[o] != c
      decreases size - offset
    {
      offset := offset + 1;
    }
  }

  /** strmatch: the least offset below size at which name occurs. If there is none the
      result is -1, except when the very last byte looked at starts like the name: the
      function then ends without a return value. Bytes behind the first size may be read. */
  method StrMatch(name: seq<byte>, t: seq<byte>, size: nat) returns (r: Match)
    requires Terminated(name, 0) && size + End(name, 0) < |t|
    ensures r.Found? ==> r.offset < size && Occurs(name, End(name, 0), t, r.offset)
    ensures r.Found? ==> forall o: nat :: o < r.offset ==> !Occurs(name, End(name, 0), t, o)
    ensures !r.Found? ==> forall o: nat :: o < size ==> !Occurs(name, End(name, 0), t, o)
    ensures !r.Found? ==> (r.NoReturnValue? <==> size == 0 || t[size - 1] == name[0])
  {
    var n := StrSize(name, 0);
    var offset := 0;
    while offset < size
      invariant offset <= size
      invariant forall o: nat :: o < offset ==> !Occurs(name, n, t, o)
      invariant offset == size ==> size == 0 || t[size - 1] == name[0]
    {
      offset := NextByte(t, offset, size, name[0]);
      if offset == size {
        return NotFound;
      }
      var result := StrCmp(name, 0, t, offset, n);
      if result == 0 {
        return Found(offset);
      } else {
        offset := offset + 1;
      }
    }
    return NoReturnValue;
  }
}
