/** The packed history of readline.c (term_hist_add, term_up_char, term_down_char):
    zero-terminated lines one after the other in a fixed buffer. */
module PackedHistory {
  import opened Utf8

  /** A line as stored: not empty and free of the terminator. */
  predicate IsLine(s: seq<byte>) {
    |s| > 0 && 0 !in s
  }

  predicate Distinct(lines: seq<seq<byte>>) {
    forall i, j :: 0 <= i < j < |lines| ==> lines[i] != lines[j]
  }

  predicate AllLines(lines: seq<seq<byte>>) {
    forall i :: 0 <= i < |lines| ==> IsLine(lines[i])
  }

  /** The buffer contents for a list of lines. */
  function Pack(lines: seq<seq<byte>>): seq<byte> {
    if |lines| == 0 then [] else lines[0] + [0] + Pack(lines[1..])
  }

  lemma {:induction false} PackConcat(a: seq<seq<byte>>, b: seq<seq<byte>>)
    ensures Pack(a + b) == Pack(a) + Pack(b)
  {
    if |a| == 0 {
      assert a + b == b;
    } else {
      assert (a + b)[1..] == a[1..] + b;
      PackConcat(a[1..], b);
    }
  }

  lemma PackOne(line: seq<byte>)
    ensures Pack([line]) == line + [0]
  {
    assert [line][1..] == [];
    assert line + [0] + [] == line + [0];
  }

  /** Where line i starts. */
  function Offset(lines: seq<seq<byte>>, i: nat): nat
    requires i <= |lines|
  {
    |Pack(lines[..i])|
  }

  /** Line i, its terminator and what surrounds them. */
  lemma PackAt(lines: seq<seq<byte>>, i: nat)
    requires i < |lines|
    ensures Pack(lines) == Pack(lines[..i]) + (lines[i] + [0]) + Pack(lines[i + 1..])
    ensures Offset(lines, i + 1) == Offset(lines, i) + |lines[i]| + 1
  {
    hide Pack;
    var a, b := lines[..i], lines[i + 1..];
    assert lines == a + [lines[i]] + b;
    assert lines[..i + 1] == a + [lines[i]];
    PackConcat(a + [lines[i]], b);
    PackConcat(a, [lines[i]]);
    PackOne(lines[i]);
  }

  lemma OffsetEnds(lines: seq<seq<byte>>)
    ensures Offset(lines, 0) == 0 && Offset(lines, |lines|) == |Pack(lines)|
  {
    assert lines[..0] == [] && lines[..|lines|] == lines;
  }

  // ----- what adding a line means

  /** The list without the line. */
  function Without(lines: seq<seq<byte>>, line: seq<byte>): seq<seq<byte>> {
    if |lines| == 0 then []
    else if lines[0] == line then lines[1..]
    else [lines[0]] + Without(lines[1..], line)
  }

  /** The longest end of the list that packs into room bytes. */
  function Evict(lines: seq<seq<byte>>, room: nat): seq<seq<byte>> {
    if |lines| == 0 || |Pack(lines)| <= room then lines else Evict(lines[1..], room)
  }

  /** term_hist_add as a list operation. */
  function AddLine(lines: seq<seq<byte>>, line: seq<byte>, capacity: nat): seq<seq<byte>> {
    if |line| == 0 then lines
    else if |line| + 1 > capacity then Without(lines, line)
    else Evict(Without(lines, line), capacity - |line| - 1) + [line]
  }

  lemma AddNothing(lines: seq<seq<byte>>, capacity: nat)
    ensures AddLine(lines, [], capacity) == lines
  {}

  lemma {:induction false} WithoutIs(lines: seq<seq<byte>>, line: seq<byte>)
    requires Distinct(lines)
    ensures line !in Without(lines, line) && Distinct(Without(lines, line))
    ensures forall x :: x in Without(lines, line) <==> x in lines && x != line
    ensures line !in lines ==> Without(lines, line) == lines
  {
    if |lines| > 0 {
      WithoutIs(lines[1..], line);
      if lines[0] == line {
        assert line !in lines[1..];
      } else {
        var rest := Without(lines[1..], line);
        assert lines[0] !in lines[1..];
        assert forall x :: x in lines <==> x == lines[0] || x in lines[1..];
      }
      if line !in lines {
        assert [lines[0]] + lines[1..] == lines;
      }
    }
  }

  lemma {:induction false} EvictIsEnd(lines: seq<seq<byte>>, room: nat) returns (k: nat)
    ensures k <= |lines| && Evict(lines, room) == lines[k..] && |Pack(lines[k..])| <= room
    ensures forall i :: 0 <= i < k ==> |Pack(lines[i..])| > room
  {
    assert lines[0..] == lines;
    if |lines| == 0 || |Pack(lines)| <= room {
      k := 0;
    } else {
      var k' := EvictIsEnd(lines[1..], room);
      k := k' + 1;
      assert lines[1..][k'..] == lines[k..];
      forall i | 0 <= i < k
        ensures |Pack(lines[i..])| > room
      {
        if i > 0 { assert lines[1..][i - 1..] == lines[i..]; }
      }
    }
  }

  /** Adding keeps a bounded list of distinct lines and puts the line last. */
  lemma AddLineKeeps(lines: seq<seq<byte>>, line: seq<byte>, capacity: nat)
    requires AllLines(lines) && Distinct(lines) && |Pack(lines)| <= capacity && IsLine(line)
    ensures var new_ := AddLine(lines, line, capacity);
            && AllLines(new_) && Distinct(new_) && |Pack(new_)| <= capacity
            && (|line| < capacity ==> |new_| > 0 && new_[|new_| - 1] == line)
            && (forall x :: x in new_ ==> x in lines || x == line)
  {
    hide Pack, Evict, Without;
    var w := Without(lines, line);
    WithoutIs(lines, line);
    WithoutShorter(lines, line);
    LinesOf(lines, w);
    if |line| + 1 <= capacity {
      var k := EvictIsEnd(w, capacity - |line| - 1);
      PackConcat(w[k..], [line]);
      PackOne(line);
      AppendDistinct(w[k..], line);
      DistinctEnd(w, k);
    }
  }

  /** What survives: w is the old list without the line, in order. If the line can be
      stored at all, it follows the longest end of w that leaves room for it, so that
      every line of a longer end would have been one too many. */
  lemma AddLineIs(lines: seq<seq<byte>>, line: seq<byte>, capacity: nat) returns (w: seq<seq<byte>>, k: nat)
    requires AllLines(lines) && Distinct(lines) && |Pack(lines)| <= capacity && IsLine(line)
    ensures line !in lines ==> w == lines
    ensures forall i :: 0 <= i < |lines| && lines[i] == line ==> w == lines[..i] + lines[i + 1..]
    ensures |line| + 1 > capacity ==> AddLine(lines, line, capacity) == w
    ensures |line| + 1 <= capacity ==>
              && k <= |w| && AddLine(lines, line, capacity) == w[k..] + [line]
              && |Pack(w[k..])| + |line| + 1 <= capacity
              && (forall i :: 0 <= i < k ==> |Pack(w[i..])| + |line| + 1 > capacity)
    ensures line !in lines && |Pack(lines)| + |line| + 1 <= capacity ==> AddLine(lines, line, capacity) == lines + [line]
  {
    hide Pack, Evict, Without;
    w, k := Without(lines, line), 0;
    WithoutIs(lines, line);
    forall i | 0 <= i < |lines| && lines[i] == line ensures w == lines[..i] + lines[i + 1..] {
      WithoutAt(lines, i);
    }
    if |line| + 1 <= capacity {
      k := EvictIsEnd(w, capacity - |line| - 1);
      assert w[0..] == w;
      assert k > 0 ==> |Pack(w[0..])| + |line| + 1 > capacity;
    }
  }

  /** Two different lines that fit together end up next to each other. */
  lemma AddTwo(lines: seq<seq<byte>>, a: seq<byte>, b: seq<byte>, capacity: nat)
    requires AllLines(lines) && Distinct(lines) && |Pack(lines)| <= capacity && IsLine(a) && IsLine(b) && a != b
    requires |a| + |b| + 2 <= capacity
    ensures var new_ := AddLine(AddLine(lines, a, capacity), b, capacity);
            && |new_| >= 2 && new_[|new_| - 2] == a && new_[|new_| - 1] == b
  {
    hide Pack, AddLine;
    AddLineKeeps(lines, a, capacity);
    var first := AddLine(lines, a, capacity);
    var w, k := AddLineIs(first, b, capacity);
    AddLast(first, a, b, w);
    PackOne(a);
    assert w[|w| - 1..] == [a];
    assert k <= |w| - 1;
    assert (w[k..] + [b])[|w| - k - 1] == a;
  }

  lemma AddLast(first: seq<seq<byte>>, a: seq<byte>, b: seq<byte>, w: seq<seq<byte>>)
    requires |first| > 0 && first[|first| - 1] == a && a != b
    requires b !in first ==> w == first
    requires forall i :: 0 <= i < |first| && first[i] == b ==> w == first[..i] + first[i + 1..]
    ensures |w| > 0 && w[|w| - 1] == a
  {
    if b in first {
      var i :| 0 <= i < |first| && first[i] == b;
      assert i < |first| - 1;
    }
  }

  lemma LinesOf(lines: seq<seq<byte>>, w: seq<seq<byte>>)
    requires AllLines(lines) && forall x :: x in w ==> x in lines
    ensures AllLines(w)
  {
    hide IsLine;
    forall i | 0 <= i < |w| ensures IsLine(w[i]) {
      assert w[i] in w;
    }
  }

  lemma DistinctEnd(w: seq<seq<byte>>, k: nat)
    requires k <= |w| && Distinct(w)
    ensures Distinct(w[k..]) && forall x :: x in w[k..] ==> x in w
  {}

  lemma AppendDistinct(w: seq<seq<byte>>, line: seq<byte>)
    ensures Distinct(w) && line !in w ==> Distinct(w + [line])
    ensures AllLines(w) && IsLine(line) ==> AllLines(w + [line])
  {}

  lemma {:induction false} WithoutShorter(lines: seq<seq<byte>>, line: seq<byte>)
    ensures |Pack(Without(lines, line))| <= |Pack(lines)|
  {
    if |lines| > 0 && lines[0] != line {
      WithoutShorter(lines[1..], line);
      var rest := Without(lines[1..], line);
      assert ([lines[0]] + rest)[1..] == rest;
    }
  }

  // ----- the buffer

  /** Taking out line i of the list takes its bytes out of the buffer. */
  lemma WithoutAt(lines: seq<seq<byte>>, i: nat)
    requires i < |lines| && Distinct(lines)
    ensures Without(lines, lines[i]) == lines[..i] + lines[i + 1..]
    ensures Pack(Without(lines, lines[i])) == Pack(lines[..i]) + Pack(lines[i + 1..])
  {
    WithoutSplit(lines, i);
    PackConcat(lines[..i], lines[i + 1..]);
  }

  lemma {:induction false} WithoutSplit(lines: seq<seq<byte>>, i: nat)
    requires i < |lines| && Distinct(lines)
    ensures Without(lines, lines[i]) == lines[..i] + lines[i + 1..]
  {
    if i > 0 {
      WithoutSplit(lines[1..], i - 1);
      assert lines[1..][..i - 1] == lines[1..i] && lines[1..][i..] == lines[i + 1..];
      assert [lines[0]] + (lines[1..i] + lines[i + 1..]) == lines[..i] + lines[i + 1..];
    }
  }

  /** Where the bytes of line i lie, seen from the whole buffer. */
  lemma LineAt(lines: seq<seq<byte>>, i: nat, bytes: seq<byte>, p: nat)
    requires i < |lines| && AllLines(lines) && bytes == Pack(lines) && p == Offset(lines, i)
    ensures p + |lines[i]| + 1 <= |bytes| && |lines[i]| > 0
    ensures bytes[..p] == Pack(lines[..i]) && bytes[p + |lines[i]| + 1..] == Pack(lines[i + 1..])
    ensures bytes[p..p + |lines[i]|] == lines[i] && bytes[p + |lines[i]|] == 0
    ensures forall j :: p <= j < p + |lines[i]| ==> bytes[j] != 0
    ensures i == 0 ==> p == 0
    ensures i > 0 ==> p > 0 && bytes[p - 1] == 0
  {
    hide Pack, Offset;
    PackAt(lines, i);
    LineSplit(Pack(lines[..i]), lines[i], Pack(lines[i + 1..]), bytes, p) by {
      assert p == |Pack(lines[..i])| by { OffsetIs(lines, i); }
    }
    OffsetEnds(lines);
    assert IsLine(lines[i]);
    if i > 0 {
      PackAt(lines, i - 1);
      LineSplit(Pack(lines[..i - 1]), lines[i - 1], Pack(lines[i..]), bytes, p - |lines[i - 1]| - 1) by {
        OffsetIs(lines, i - 1);
      }
    }
  }

  /** The same, in terms of the buffer. */
  lemma LineIn(lines: seq<seq<byte>>, i: nat, a: array<byte>, size: nat, p: nat)
    requires i < |lines| && AllLines(lines) && size <= a.Length && a[..size] == Pack(lines) && p == Offset(lines, i)
    ensures p + |lines[i]| + 1 <= size && size == |Pack(lines)|
    ensures 0 !in lines[i] && a[p..p + |lines[i]|] == lines[i] && a[p + |lines[i]|] == 0
    ensures forall j :: p <= j < p + |lines[i]| ==> a[j] != 0
    ensures p == 0 || a[p - 1] == 0
    ensures p + |lines[i]| + 1 == Offset(lines, i + 1)
    ensures p + |lines[i]| + 1 < size <==> i + 1 < |lines|
  {
    hide Pack, Offset;
    var bytes := a[..size];
    LineAt(lines, i, bytes, p);
    AfterEntry(lines, i, p);
    assert IsLine(lines[i]);
    assert bytes[p..p + |lines[i]|] == a[p..p + |lines[i]|];
    forall j | p <= j < p + |lines[i]| ensures a[j] != 0 {
      assert bytes[j] != 0;
    }
  }

  lemma OffsetIs(lines: seq<seq<byte>>, i: nat)
    requires i <= |lines|
    ensures Offset(lines, i) == |Pack(lines[..i])|
  {}

  lemma LineSplit(a: seq<byte>, line: seq<byte>, b: seq<byte>, bytes: seq<byte>, p: nat)
    requires bytes == a + (line + [0]) + b && p == |a|
    ensures p + |line| + 1 <= |bytes|
    ensures bytes[..p] == a && bytes[p + |line| + 1..] == b
    ensures bytes[p..p + |line|] == line && bytes[p + |line|] == 0
    ensures 0 !in line ==> forall j :: p <= j < p + |line| ==> bytes[j] != 0
  {
    assert forall j :: p <= j < p + |line| ==> bytes[j] == line[j - p];
  }

  /** strlen: the distance to the terminator. */
  method Strlen(a: array<byte>, p: nat, ghost n: nat) returns (k: nat)
    requires p + n < a.Length && a[p + n] == 0 && forall j :: p <= j < p + n ==> a[j] != 0
    ensures k == n
  {
    k := 0;
    while a[p + k] != 0
      invariant k <= n
      decreases n - k
    {
      k := k + 1;
    }
  }

  /** memmove towards the front. */
  method MoveDown(a: array<byte>, to: nat, from: nat, n: nat)
    requires to <= from && from + n <= a.Length
    modifies a
    ensures a[..] == old(a[..])[..to] + old(a[..])[from..from + n] + old(a[..])[to + n..]
  {
    ghost var was := a[..];
    forall i | 0 <= i < n {
      a[to + i] := a[from + i];
    }
    Moved(was, to, was[from..from + n], a[..]);
  }

  /** Overwriting a stretch of a buffer, position by position. */
  lemma Moved(was: seq<byte>, to: nat, s: seq<byte>, now: seq<byte>)
    requires to + |s| <= |was| == |now|
    requires forall i :: 0 <= i < |s| ==> now[to + i] == s[i]
    requires forall i :: 0 <= i < to || to + |s| <= i < |was| ==> now[i] == was[i]
    ensures now == was[..to] + s + was[to + |s|..]
  {
    forall i | to <= i < to + |s| ensures now[i] == s[i - to] {
      assert now[to + (i - to)] == s[i - to];
    }
  }

  /** memcpy into another buffer. */
  method CopyTo(a: array<byte>, to: nat, src: array<byte>, from: nat, n: nat)
    requires a != src && to + n <= a.Length && from + n <= src.Length
    modifies a
    ensures a[..] == old(a[..])[..to] + src[from..from + n] + old(a[..])[to + n..]
  {
    ghost var was := a[..];
    forall i | 0 <= i < n {
      a[to + i] := src[from + i];
    }
    Moved(was, to, src[from..from + n], a[..]);
  }

  /** The walk of term_up_char back to the start of a line. */
  method LineStart(a: array<byte>, from: nat, ghost start: nat) returns (idx: nat)
    requires start <= from <= a.Length
    requires forall j :: start <= j < from ==> a[j] != 0
    requires start == 0 || a[start - 1] == 0
    ensures idx == start
  {
    idx := from;
    while idx > 0 && a[idx - 1] != 0
      invariant start <= idx <= from
    {
      idx := idx - 1;
    }
  }

  /** The history fields of ReadlineState. */
  class History {
    const buf: array<byte>
    var size: nat
    var entry: int
    ghost var lines: seq<seq<byte>>
    ghost var at: nat

    ghost predicate Valid()
      reads this, buf
    {
      && size <= buf.Length && 0 < buf.Length
      && buf[..size] == Pack(lines) && AllLines(lines) && Distinct(lines)
      && (|lines| == 0 ==> buf[0] == 0)
      && (entry == -1 || (Browsing(|lines|, at) && entry == Offset(lines, at)))
    }

    /** A zeroed buffer, as static storage is. */
    constructor (capacity: nat)
      requires capacity > 0
      ensures Valid() && lines == [] && entry == -1 && buf.Length == capacity && fresh(buf)
    {
      buf := new byte[capacity](i => 0);
      size, entry := 0, -1;
      lines, at := [], 0;
    }

    /** readline_start: no entry is being browsed. */
    method Reset()
      requires Valid()
      modifies this`entry
      ensures Valid() && entry == -1
    {
      entry := -1;
    }

    /** The index of the line being browsed, or -1. */
    ghost function Pos(): int
      reads this
    {
      if entry == -1 then -1 else at
    }

    /** The line being browsed lies at p and has n bytes. */
    ghost predicate Found(p: nat, n: nat)
      reads this, buf
    {
      0 <= Pos() < |lines| && n == |lines[Pos()]| && p + n < buf.Length && buf[p..p + n] == lines[Pos()]
    }

    /** term_up_char: to the line before, if there is one. */
    method Up() returns (moved: bool, p: nat, n: nat)
      requires Valid()
      modifies this`entry, this`at
      ensures Valid() && Pos() == PosUp(|lines|, old(Pos()))
      ensures moved == GoesUp(|lines|, old(Pos())) && (moved ==> Found(p, n))
    {
      hide Pack, Offset, AllLines, Distinct;
      OffsetEnds(lines);
      if entry == -1 {
        entry, at := size, |lines|;
      }
      moved, p, n := false, 0, 0;
      if entry == 0 {
        AtStart(lines, at);
        at := 0;
        return;
      }
      ghost var i := at - 1;
      BeforeEntry(lines, at, entry, buf[..size]);
      ghost var start := Offset(lines, i);
      LineIn(lines, i, buf, size, start);
      var idx := LineStart(buf, entry - 1, start);
      entry, at := idx, i;
      moved, p := true, idx;
      n := Strlen(buf, idx, |lines[i]|);
    }

    /** term_down_char: to the line after, if there is one, else out of the list. */
    method Down() returns (moved: bool, p: nat, n: nat)
      requires Valid()
      modifies this`entry, this`at
      ensures Valid() && Pos() == PosDown(|lines|, old(Pos()))
      ensures moved == (0 <= Pos()) && (moved ==> Found(p, n))
    {
      hide Pack, Offset, AllLines, Distinct;
      moved, p, n := false, 0, 0;
      if entry == -1 {
        return;
      }
      ghost var here := 0;
      OffsetEnds(lines);
      if |lines| > 0 {
        here := |lines[at]|;
        LineIn(lines, at, buf, size, entry);
      }
      var skip := Strlen(buf, entry, here);
      if entry + (skip + 1) < size {
        entry, at := entry + (skip + 1), at + 1;
        LineIn(lines, at, buf, size, entry);
        moved, p := true, entry;
        n := Strlen(buf, entry, |lines[at]|);
      } else {
        entry := -1;
      }
    }

    /** The list part of the invariant, which holds also while a line is added. */
    ghost predicate Holds()
      reads this, buf
    {
      size <= buf.Length && buf[..size] == Pack(lines) && AllLines(lines) && Distinct(lines)
    }

    /** Whether the zero-terminated string s at idx is the n bytes of cmd. */
    method Same(idx: nat, cmd: array<byte>, n: nat, ghost s: seq<byte>) returns (same: bool, h: nat)
      requires idx + |s| < buf.Length && buf[idx..idx + |s|] == s && buf[idx + |s|] == 0 && 0 !in s
      requires 0 < n <= cmd.Length && 0 !in cmd[..n - 1] && cmd[n - 1] == 0
      ensures h == |s| + 1 && (same <==> s == cmd[..n - 1])
    {
      assert forall j :: idx <= j < idx + |s| ==> buf[j] == s[j - idx];
      h := Strlen(buf, idx, |s|);
      h := h + 1;
      assert cmd[..n] == cmd[..n - 1] + [0];
      assert buf[idx..idx + h] == s + [0];
      same := h == n && buf[idx..idx + h] == cmd[..n];
      if same {
        assert s == (s + [0])[..n - 1] == cmd[..n][..n - 1];
      }
    }

    /** The search of term_hist_add: first the line being browsed, then all lines. */
    method Find(cmd: array<byte>, n: nat) returns (found: bool, idx: nat, h: nat, ghost i: nat)
      requires Valid() && 1 < n <= cmd.Length && 0 !in cmd[..n - 1] && cmd[n - 1] == 0
      ensures found ==> i < |lines| && lines[i] == cmd[..n - 1] && idx == Offset(lines, i) && h == n
      ensures !found ==> cmd[..n - 1] !in lines
    {
      hide Pack, Offset, AllLines, Distinct;
      OffsetEnds(lines);
      if entry != -1 {
        ghost var s := [];
        if |lines| > 0 {
          LineIn(lines, at, buf, size, entry);
          s := lines[at];
        }
        idx, i := entry, at;
        found, h := Same(idx, cmd, n, s);
        if found {
          return;
        }
      }
      idx, i, found, h := 0, 0, false, 0;
      while idx < size
        invariant i <= |lines| && idx == Offset(lines, i)
        invariant forall j :: 0 <= j < i ==> lines[j] != cmd[..n - 1]
        decreases |lines| - i
      {
        LineIn(lines, i, buf, size, idx);
        found, h := Same(idx, cmd, n, lines[i]);
        if found {
          return;
        }
        idx, i := idx + h, i + 1;
      }
      AtEnd(lines, i);
    }

    /** Closing the gap over line i. */
    method Remove(idx: nat, h: nat, ghost i: nat)
      requires Holds() && i < |lines| && idx == Offset(lines, i) && h == |lines[i]| + 1
      modifies this`size, this`lines, buf
      ensures Holds() && lines == Without(old(lines), old(lines)[i]) && size == old(size) - h
    {
      hide Pack, Offset, AllLines, Distinct, Without;
      LineAt(lines, i, buf[..size], idx);
      WithoutAt(lines, i);
      WithoutIs(lines, lines[i]);
      LinesOf(lines, Without(lines, lines[i]));
      ghost var was := buf[..];
      ghost var all := buf[..size];
      MoveDown(buf, idx, idx + h, size - (idx + h));
      lines := Without(lines, lines[i]);
      size := size - h;
      assert buf[..size] == was[..idx] + was[idx + h..size + h];
      assert was[..idx] == all[..idx] && was[idx + h..size + h] == all[idx + h..];
    }

    /** term_hist_add: the list operation AddLine. */
    method Add(cmd: array<byte>, ghost line: seq<byte>)
      requires Valid() && cmd != buf && 0 !in line
      requires |line| < cmd.Length && cmd[..|line|] == line && cmd[|line|] == 0
      modifies this, buf
      ensures Valid() && lines == AddLine(old(lines), line, buf.Length)
      ensures Pos() == if |line| == 0 then old(Pos()) else -1
    {
      hide Pack, Offset, AllLines, Distinct, Without, Evict;
      if cmd[0] == 0 {
        return;
      }
      var n := Strlen(cmd, 0, |line|);
      n := n + 1;
      var found, idx, h, i := Find(cmd, n);
      WithoutIs(lines, line);
      if found {
        Remove(idx, h, i);
      }
      AddLineKeeps(old(lines), line, buf.Length);
      if n <= buf.Length {
        EvictLines(n);
        assert cmd[..n] == line + [0];
        Append(cmd, n, line);
      }
      entry := -1;
    }

    /** The line and its terminator go to the end. */
    method Append(cmd: array<byte>, n: nat, ghost line: seq<byte>)
      requires size <= size + n <= buf.Length && buf[..size] == Pack(lines)
      requires cmd != buf && n <= cmd.Length && cmd[..n] == line + [0]
      modifies this`size, this`lines, buf
      ensures size <= buf.Length && buf[..size] == Pack(lines) && lines == old(lines) + [line]
      ensures n > 0 && size > 0
    {
      hide Pack;
      ghost var was := buf[..];
      CopyTo(buf, size, cmd, 0, n);
      assert buf[..size + n] == was[..size] + cmd[..n];
      PackConcat(lines, [line]);
      PackOne(line);
      lines := lines + [line];
      size := size + n;
    }

    /** Oldest lines go until n more bytes fit. */
    method EvictLines(n: nat)
      requires Holds() && n <= buf.Length
      modifies this`size, this`lines, buf
      ensures Holds() && lines == Evict(old(lines), buf.Length - n) && size + n <= buf.Length
    {
      hide Pack, Offset, AllLines, Distinct, Without;
      while size + n > buf.Length
        invariant Holds() && Evict(lines, buf.Length - n) == Evict(old(lines), buf.Length - n)
        decreases size
      {
        OffsetEnds(lines);
        ghost var before := lines;
        LineIn(lines, 0, buf, size, 0);
        var h := Strlen(buf, 0, |lines[0]|);
        WithoutAt(lines, 0);
        Remove(0, h + 1, 0);
        assert before[..0] + before[1..] == before[1..];
      }
    }
  }

  /** Where "up" and "down" lead from position pos in a list of n lines; -1 is the
      line being edited. */
  function PosUp(n: nat, pos: int): int {
    if pos == -1 then (if n > 0 then n - 1 else 0) else if pos > 0 then pos - 1 else 0
  }

  predicate GoesUp(n: nat, pos: int) {
    if pos == -1 then n > 0 else pos > 0
  }

  function PosDown(n: nat, pos: int): int {
    if pos != -1 && pos + 1 < n then pos + 1 else -1
  }

  /** The line after line at is the next in the buffer, unless at is the last. */
  lemma AfterEntry(lines: seq<seq<byte>>, at: nat, entry: nat)
    requires at < |lines| && entry == Offset(lines, at)
    ensures entry + |lines[at]| + 1 == Offset(lines, at + 1)
    ensures entry + |lines[at]| + 1 <= |Pack(lines)|
    ensures entry + |lines[at]| + 1 < |Pack(lines)| <==> at + 1 < |lines|
  {
    hide Pack, Offset;
    PackAt(lines, at);
    OffsetEnds(lines);
    OffsetIs(lines, at + 1);
    if at + 1 < |lines| {
      PackAt(lines, at + 1);
    }
  }

  /** While browsing, the position is that of a line, or 0 in an empty list. */
  predicate Browsing(n: nat, at: nat) {
    at < n || (at == 0 && n == 0)
  }

  lemma AtStart(lines: seq<seq<byte>>, at: nat)
    requires at <= |lines| && Offset(lines, at) == 0
    ensures at == 0
  {}

  lemma AtEnd(lines: seq<seq<byte>>, i: nat)
    requires i <= |lines| && Offset(lines, i) >= |Pack(lines)|
    ensures i == |lines|
  {
    hide Pack, Offset;
    if i < |lines| { AfterEntry(lines, i, Offset(lines, i)); }
  }

  /** A position past the start is right behind the terminator of the line before. */
  lemma BeforeEntry(lines: seq<seq<byte>>, at: nat, entry: nat, bytes: seq<byte>)
    requires at <= |lines| && entry == Offset(lines, at) && entry > 0 && AllLines(lines) && bytes == Pack(lines)
    ensures at > 0 && entry == Offset(lines, at - 1) + |lines[at - 1]| + 1
  {
    hide Pack, Offset;
    OffsetEnds(lines);
    PackAt(lines, at - 1);
  }
}
