/**
 * The growable byte buffer with a read cursor (`buf_t`).
 *
 * A buffer owns an array `buf` of `alloc` bytes (or, while nothing is
 * allocated, a one-byte array holding only the terminating NUL), of which
 * the first `len` are the content and `buf[len]` is always NUL. `pos` is a
 * read cursor into the content, used by the character-stream functions.
 */
module Buffers {
  import opened Bytes
  import opened Wrappers

  /** GROW_N: the capacity that follows n when a buffer must grow. */
  function GrowN(n: nat): nat {
    (n + 16) * 3 / 2
  }

  /** The capacity GROW leaves when `want` bytes are needed and `cur` are allocated. */
  function Grown(cur: nat, want: nat): (r: nat)
    ensures r >= cur && r >= want
    ensures want <= cur ==> r == cur
  {
    if want > cur then (if GrowN(cur) < want then want else GrowN(cur)) else cur
  }

  /** The bytes with their leading whitespace removed. */
  function LTrimmed(s: seq<Byte>): seq<Byte> {
    if s != [] && IsSpaceByte(s[0]) then LTrimmed(s[1..]) else s
  }

  /** The bytes with their trailing whitespace removed. */
  function RTrimmed(s: seq<Byte>): seq<Byte> {
    if s != [] && IsSpaceByte(s[|s| - 1]) then RTrimmed(s[..|s| - 1]) else s
  }

  /** LTrimmed drops a prefix made only of whitespace, and what it keeps
      does not start with whitespace. */
  lemma {:induction false} LTrimmedDropsSpaces(s: seq<Byte>)
    ensures var r := LTrimmed(s);
      |r| <= |s| && r == s[|s| - |r|..]
      && (forall i | 0 <= i < |s| - |r| :: IsSpaceByte(s[i]))
      && (r != [] ==> !IsSpaceByte(r[0]))
  {
    if s != [] && IsSpaceByte(s[0]) {
      var t := s[1..];
      LTrimmedDropsSpaces(t);
      var r := LTrimmed(t);
      assert LTrimmed(s) == r;
      assert t[|t| - |r|..] == s[|s| - |r|..];
      forall i | 0 <= i < |s| - |r| ensures IsSpaceByte(s[i]) {
        if i > 0 {
          assert s[i] == t[i - 1];
        }
      }
    }
  }

  /** RTrimmed drops a suffix made only of whitespace, and what it keeps
      does not end with whitespace. */
  lemma {:induction false} RTrimmedDropsSpaces(s: seq<Byte>)
    ensures var r := RTrimmed(s);
      |r| <= |s| && r == s[..|r|]
      && (forall i | |r| <= i < |s| :: IsSpaceByte(s[i]))
      && (r != [] ==> !IsSpaceByte(r[|r| - 1]))
  {
    if s != [] && IsSpaceByte(s[|s| - 1]) {
      var t := s[..|s| - 1];
      RTrimmedDropsSpaces(t);
      var r := RTrimmed(t);
      assert RTrimmed(s) == r;
      assert t[..|r|] == s[..|r|];
      forall i | |r| <= i < |s| ensures IsSpaceByte(s[i]) {
        if i < |s| - 1 {
          assert s[i] == t[i];
        }
      }
    }
  }

  /** Any split into leading whitespace and a rest that does not start with
      whitespace is the one LTrimmed finds. */
  lemma {:induction false} LTrimmedUnique(w: seq<Byte>, t: seq<Byte>)
    requires forall i | 0 <= i < |w| :: IsSpaceByte(w[i])
    requires t != [] ==> !IsSpaceByte(t[0])
    ensures LTrimmed(w + t) == t
  {
    if w != [] {
      assert (w + t)[1..] == w[1..] + t;
      LTrimmedUnique(w[1..], t);
    }
  }

  /** Any split into a rest that does not end in whitespace and trailing
      whitespace is the one RTrimmed finds. */
  lemma {:induction false} RTrimmedUnique(t: seq<Byte>, w: seq<Byte>)
    requires forall i | 0 <= i < |w| :: IsSpaceByte(w[i])
    requires t != [] ==> !IsSpaceByte(t[|t| - 1])
    ensures RTrimmed(t + w) == t
  {
    if w != [] {
      assert (t + w)[..|t + w| - 1] == t + w[..|w| - 1];
      RTrimmedUnique(t, w[..|w| - 1]);
    } else {
      assert t + w == t;
    }
  }

  /** Trimming twice trims no more than trimming once. */
  lemma TrimIdempotent(s: seq<Byte>)
    ensures LTrimmed(LTrimmed(s)) == LTrimmed(s)
    ensures RTrimmed(RTrimmed(s)) == RTrimmed(s)
  {
    LTrimmedDropsSpaces(s);
    RTrimmedDropsSpaces(s);
  }

  /** memmove: copies a[src..src+n] to a[dst..dst+n]; overlapping ranges
      are read before anything is written. */
  method Move(a: array<Byte>, dst: nat, src: nat, n: nat)
    requires dst + n <= a.Length && src + n <= a.Length
    modifies a
    ensures forall i | 0 <= i < a.Length && !(dst <= i < dst + n) :: a[i] == old(a[i])
    ensures a[dst..dst + n] == old(a[src..src + n])
  {
    forall i | 0 <= i < n {
      a[dst + i] := a[src + i];
    }
  }

  /** memcpy from a byte string: writes data at a[dst..]. */
  method CopyIn(a: array<Byte>, dst: nat, data: seq<Byte>)
    requires dst + |data| <= a.Length
    modifies a
    ensures forall i | 0 <= i < a.Length && !(dst <= i < dst + |data|) :: a[i] == old(a[i])
    ensures a[dst..dst + |data|] == data
  {
    forall i | 0 <= i < |data| {
      a[dst + i] := data[i];
    }
  }

  /** The two copies of buf_splice: the tail after the replaced range moves
      to its new place (only when the length changes), then the data is
      copied in. */
  method ReplaceRange(a: array<Byte>, len: nat, o: nat, n: nat, data: seq<Byte>)
    requires o + n <= len < a.Length && len - n + |data| < a.Length
    modifies a
    ensures a[..len - n + |data|] == old(a[..o]) + data + old(a[o + n..len])
  {
    ghost var s := a[..];
    var m := len - n + |data|;
    if |data| != n {
      Move(a, o + |data|, o + n, len - o - n);
      forall i | o + |data| <= i < m ensures a[i] == s[i - |data| + n] {
        assert a[i] == a[o + |data|..m][i - o - |data|];
      }
    }
    ghost var t := a[..];
    CopyIn(a, o, data);
    Spliced(s, t, a[..], len, o, n, data);
  }

  /** The two copies of ReplaceRange put together: s before, t after the
      move, u after the copy. */
  lemma Spliced(s: seq<Byte>, t: seq<Byte>, u: seq<Byte>, len: nat, o: nat, n: nat, data: seq<Byte>)
    requires |t| == |s| && |u| == |s| && o + n <= len < |s| && len - n + |data| < |s|
    requires forall i | 0 <= i < |s| && !(o + |data| <= i < len - n + |data|) :: t[i] == s[i]
    requires forall i | o + |data| <= i < len - n + |data| :: t[i] == s[i - |data| + n]
    requires forall i | 0 <= i < |s| && !(o <= i < o + |data|) :: u[i] == t[i]
    requires u[o..o + |data|] == data
    ensures u[..len - n + |data|] == s[..o] + data + s[o + n..len]
  {
    var m := len - n + |data|;
    forall i | 0 <= i < m ensures u[i] == (s[..o] + data + s[o + n..len])[i] {
      if o <= i < o + |data| {
        assert u[i] == u[o..o + |data|][i - o];
      }
    }
  }

  class Buffer {
    var buf: array<Byte>
    var alloc: nat
    var len: nat
    var pos: nat

    /** The shape of the fields, without the NUL terminator. */
    ghost predicate Allocated()
      reads this
    {
      buf.Length == (if alloc == 0 then 1 else alloc) && len < buf.Length && pos <= len
    }

    /** The buffer invariant: `alloc == 0` forces `len == 0`, otherwise
        `len < alloc`; the content is NUL-terminated; the cursor is in range. */
    ghost predicate Valid()
      reads this, buf
    {
      Allocated() && buf[len] == '\0'
    }

    /** The content: the `len` bytes before the terminator. */
    function Contents(): (s: seq<Byte>)
      reads this, buf
      requires Valid()
      ensures |s| == len
    {
      buf[..len]
    }

    /** buf_avail: how many bytes fit after the content without growing. */
    function Avail(): (r: nat)
      reads this, buf
      requires Valid()
      ensures len + r + 1 <= buf.Length
      ensures alloc > 0 ==> len + r + 1 == alloc
    {
      if alloc > 0 then alloc - len - 1 else 0
    }

    /** buf_ftell: the read cursor, an offset into the content. */
    function FTell(): (r: nat)
      reads this, buf
      requires Valid()
      ensures r <= |Contents()|
    {
      pos
    }

    /** buf_init: an empty buffer, grown by `hint` bytes when hint is non-zero. */
    constructor Init(hint: nat)
      ensures Valid() && fresh(buf)
      ensures Contents() == [] && pos == 0
      ensures alloc == (if hint == 0 then 0 else Grown(0, hint + 1))
      ensures Avail() >= hint
    {
      buf := new Byte[1](_ => '\0');
      alloc, len, pos := 0, 0, 0;
      new;
      if hint > 0 {
        Grow(hint);
      }
    }

    /** buf_release: drops the storage and leaves the buffer empty. */
    method Release()
      requires Valid()
      modifies this
      ensures Valid() && Contents() == [] && pos == 0 && alloc == 0
      ensures old(alloc) == 0 ==> buf == old(buf)
      ensures old(alloc) > 0 ==> fresh(buf)
    {
      if alloc > 0 {
        buf := new Byte[1](_ => '\0');
        alloc, len, pos := 0, 0, 0;
      }
    }

    /** buf_detach: hands the content to the caller and leaves the buffer
        empty and unallocated. */
    method Detach() returns (s: seq<Byte>)
      requires Valid()
      modifies this
      ensures s == old(Contents())
      ensures Valid() && fresh(buf) && Contents() == [] && pos == 0 && alloc == 0
    {
      Grow(0);
      s := buf[..len];
      buf := new Byte[1](_ => '\0');
      alloc, len, pos := 0, 0, 0;
    }

    /** buf_grow: makes room for `extra` more bytes, keeping the content. */
    method Grow(extra: nat)
      requires Valid()
      modifies this
      ensures Valid()
      ensures len == old(len) && pos == old(pos) && Contents() == old(Contents())
      ensures alloc == Grown(old(alloc), old(len) + extra + 1)
      ensures Avail() >= extra && alloc > 0
      ensures alloc == old(alloc) ==> buf == old(buf)
      ensures buf == old(buf) || fresh(buf)
    {
      var want := len + extra + 1;
      if want > alloc {
        var cur := if GrowN(alloc) < want then want else GrowN(alloc);
        var a := new Byte[cur](_ => '\0');
        forall i | 0 <= i <= len {
          a[i] := buf[i];
        }
        buf, alloc := a, cur;
      }
    }

    /** buf_setlen: truncates or extends the content to n bytes of what the
        array holds, terminates it and pulls the cursor back into range. */
    method SetLen(n: nat)
      requires Allocated()
      requires if alloc > 0 then n < alloc else n == 0
      modifies this, buf
      ensures Valid() && buf == old(buf) && alloc == old(alloc) && len == n
      ensures Contents() == old(buf[..n])
      ensures pos == if old(pos) > n then n else old(pos)
    {
      len := n;
      buf[n] := '\0';
      if pos > len {
        pos := len;
      }
    }

    /** buf_addch: appends the byte `(char) c`. */
    method AddCh(c: int)
      requires Valid()
      modifies this, buf
      ensures Valid() && Contents() == old(Contents()) + [ToByte(c)] && pos == old(pos)
      ensures alloc == Grown(old(alloc), old(len) + 2)
      ensures buf == old(buf) || fresh(buf)
    {
      Grow(1);
      buf[len] := ToByte(c);
      len := len + 1;
      buf[len] := '\0';
    }

    /** buf_add: appends the given bytes. */
    method Add(data: seq<Byte>)
      requires Valid()
      modifies this, buf
      ensures Valid() && Contents() == old(Contents()) + data && pos == old(pos)
      ensures alloc == Grown(old(alloc), old(len) + |data| + 1)
      ensures buf == old(buf) || fresh(buf)
    {
      Grow(|data|);
      ghost var before := buf[..len];
      CopyIn(buf, len, data);
      assert buf[..len + |data|] == buf[..len] + buf[len..len + |data|];
      SetLen(len + |data|);
    }

    /** buf_addstr: appends a C string. */
    method AddStr(s: CStr)
      requires Valid()
      modifies this, buf
      ensures Valid() && Contents() == old(Contents()) + s && pos == old(pos)
      ensures alloc == Grown(old(alloc), old(len) + |s| + 1)
      ensures buf == old(buf) || fresh(buf)
    {
      Add(s);
    }

    /** The number of whitespace bytes at the start of the content. */
    method LeadingSpaces() returns (b: nat)
      requires Valid()
      ensures b <= len && forall j | 0 <= j < b :: IsSpaceByte(buf[j])
      ensures b < len ==> !IsSpaceByte(buf[b])
    {
      b := 0;
      while b < len && IsSpaceByte(buf[b])
        invariant 0 <= b <= len
        invariant forall j | 0 <= j < b :: IsSpaceByte(buf[j])
      {
        b := b + 1;
      }
    }

    /** buf_ltrim: removes leading whitespace; a cursor inside the removed
        prefix goes to 0, any other moves left with the content. */
    method LTrim()
      requires Valid()
      modifies this, buf
      ensures Valid() && buf == old(buf) && alloc == old(alloc)
      ensures Contents() == LTrimmed(old(Contents()))
      ensures var k := old(len) - len; pos == if old(pos) < k then 0 else old(pos) - k
    {
      ghost var s := buf[..len];
      var b := LeadingSpaces();
      ghost var kept := s[b..];
      assert s == s[..b] + kept;
      LTrimmedUnique(s[..b], kept);
      if pos < b {
        pos := 0;
      } else {
        pos := pos - b;
      }
      Move(buf, 0, b, len - b);
      assert buf[0..len - b] == kept;
      SetLen(len - b);
    }

    /** buf_rtrim: removes trailing whitespace, clamping the cursor. */
    method RTrim()
      requires Valid()
      modifies this, buf
      ensures Valid() && buf == old(buf) && alloc == old(alloc)
      ensures Contents() == RTrimmed(old(Contents()))
      ensures pos == if old(pos) > len then len else old(pos)
    {
      ghost var s := buf[..len];
      var n := len;
      while n > 0 && IsSpaceByte(buf[n - 1])
        invariant 0 <= n <= len
        invariant forall j | n <= j < len :: IsSpaceByte(s[j])
      {
        n := n - 1;
      }
      assert s == s[..n] + s[n..];
      RTrimmedUnique(s[..n], s[n..]);
      SetLen(n);
    }

    /** buf_splice: replaces the `n` bytes at offset `off` (counted from the
        end when negative) by `data`. */
    method Splice(off: int, n: nat, data: seq<Byte>)
      requires Valid()
      requires var o := if off < 0 then len + off else off; 0 <= o <= len && o + n <= len
      modifies this, buf
      ensures Valid()
      ensures var o := if off < 0 then old(len) + off else off;
        Contents() == old(Contents())[..o] + data + old(Contents())[o + n..]
      ensures pos == if old(pos) > len then len else old(pos)
      ensures buf == old(buf) || fresh(buf)
    {
      var o := if off < 0 then len + off else off;
      var delta := |data| - n;
      ghost var c := Contents();
      if delta > 0 {
        Grow(delta);
      }
      assert buf[..o] == c[..o] && buf[o + n..len] == c[o + n..] by {
        assert buf[..len] == c;
      }
      ReplaceRange(buf, len, o, n, data);
      ghost var want := c[..o] + data + c[o + n..];
      assert buf[..len + delta] == want;
      SetLen(len + delta);
    }

    /** buf_splicestr: buf_splice with a C string, where a null string inserts nothing. */
    method SpliceStr(off: int, n: nat, str: Option<CStr>)
      requires Valid()
      requires var o := if off < 0 then len + off else off; 0 <= o <= len && o + n <= len
      modifies this, buf
      ensures Valid()
      ensures var o := if off < 0 then old(len) + off else off;
        var data := if str.Some? then str.value else [];
        Contents() == old(Contents())[..o] + data + old(Contents())[o + n..]
      ensures pos == if old(pos) > len then len else old(pos)
      ensures buf == old(buf) || fresh(buf)
    {
      Splice(off, n, if str.Some? then str.value else []);
    }

    /** buf_fgetc: the byte under the cursor, as a signed char, advancing
        the cursor; EOF at the end of the content. */
    method FGetC() returns (c: int)
      requires Valid()
      modifies this`pos
      ensures Valid()
      ensures old(pos) < len ==> c == Signed(buf[old(pos)]) && pos == old(pos) + 1
      ensures old(pos) == len ==> c == EOF && pos == old(pos)
    {
      if pos < len {
        c := Signed(buf[pos]);
        pos := pos + 1;
      } else {
        c := EOF;
      }
    }

    /** buf_ungetc: steps the cursor back and overwrites that byte with
        `(char) c`, returning it; EOF when the cursor is at the start. */
    method UngetC(c: int) returns (r: int)
      requires Valid()
      modifies this`pos, buf
      ensures Valid()
      ensures old(pos) > 0 ==>
        pos == old(pos) - 1 && r == Signed(ToByte(c)) && Contents() == old(Contents())[pos := ToByte(c)]
      ensures old(pos) == 0 ==> pos == 0 && r == EOF && Contents() == old(Contents())
    {
      if pos > 0 {
        pos := pos - 1;
        buf[pos] := ToByte(c);
        r := Signed(ToByte(c));
      } else {
        r := EOF;
      }
    }

    /** buf_rewind: puts the cursor back at the start. */
    method Rewind()
      requires Valid()
      modifies this`pos
      ensures Valid() && pos == 0
    {
      pos := 0;
    }
  }
}
