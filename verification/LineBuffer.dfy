/** The line buffer of readline.c: bytes in place, with every operation proved to be
    the one of EditText on code points. */
module LineBuffer {
  import opened Utf8
  import opened EditText
  import opened PackedHistory

  /** unicode_to_utf8: writes the encoding of c and returns its length. */
  method UnicodeToUtf8(buf: array<byte>, c: nat) returns (n: nat)
    requires buf.Length >= 4
    modifies buf
    ensures n == |Encode(c)| <= buf.Length && buf[..n] == Encode(c)
  {
    n := 0;
    if c < 0x80 {
      buf[0] := c;
      return 1;
    }
    if c < 0x800 {
      buf[n] := 0xc0 + c / 0x40; n := n + 1;
    } else {
      if c < 0x1_0000 {
        buf[n] := 0xe0 + c / 0x1000; n := n + 1;
      } else {
        if c < CODE_LIMIT {
          buf[n] := 0xf0 + c / 0x4_0000; n := n + 1;
        } else {
          return 0;
        }
        buf[n] := 0x80 + c / 0x1000 % 0x40; n := n + 1;
      }
      buf[n] := 0x80 + c / 0x40 % 0x40; n := n + 1;
    }
    buf[n] := 0x80 + c % 0x40; n := n + 1;
  }

  /** The two moves of term_insert_region. */
  method InsertBytes(a: array<byte>, len: nat, pos: nat, src: array<byte>, n: nat)
    requires pos <= len && len + n <= a.Length && src != a && n <= src.Length
    modifies a
    ensures a[..len + n] == old(a[..len])[..pos] + src[..n] + old(a[..len])[pos..]
  {
    ghost var was := a[..];
    var nchars := len - pos;
    if nchars > 0 {
      forall i | 0 <= i < nchars {
        a[pos + n + i] := a[pos + i];
      }
    }
    forall i | 0 <= i < n {
      a[pos + i] := src[i];
    }
    Opened(was, src[..n], pos, len, a[..]);
    assert was[..len] == old(a[..len]);
  }

  /** The three parts of a line after an insertion of s. */
  lemma Opened(was: seq<byte>, s: seq<byte>, pos: nat, n: nat, now: seq<byte>)
    requires pos <= n && n + |s| <= |was| == |now|
    requires forall i :: 0 <= i < pos ==> now[i] == was[i]
    requires forall i :: 0 <= i < |s| ==> now[pos + i] == s[i]
    requires forall j :: pos + |s| <= j < n + |s| ==> now[j] == was[j - |s|]
    ensures now[..n + |s|] == was[..n][..pos] + s + was[..n][pos..]
  {
    assert now[..pos] == was[..pos] && now[pos..pos + |s|] == s;
    assert now[pos + |s|..n + |s|] == was[pos..n];
    assert now[..n + |s|] == now[..pos] + now[pos..pos + |s|] + now[pos + |s|..n + |s|];
  }

  /** The line and kill-buffer fields of ReadlineState. */
  class EditBuffer {
    const buf: array<byte>
    const kill: array<byte>
    var len: nat
    var index: nat
    var killLen: nat
    ghost var line: Line

    ghost predicate Valid()
      reads this, buf, kill
    {
      && buf != kill && kill.Length == buf.Length && len < buf.Length && killLen <= kill.Length
      && Sound(line)
      && buf[..len] == EncodeAll(line.text) && index == Pos(line.text, line.cur)
      && kill[..killLen] == EncodeAll(line.kill)
    }

    constructor (size: nat)
      requires size > 0
      ensures Valid() && fresh(buf) && fresh(kill) && buf.Length == size && line == Line([], 0, [])
    {
      buf, kill := new byte[size](i => 0), new byte[size](i => 0);
      len, index, killLen := 0, 0, 0;
      line := Line([], 0, []);
    }

    /** readline_start: an empty line; the kill buffer stays. */
    method Clear()
      requires Valid()
      modifies this`len, this`index, this`line
      ensures Valid() && line == Line([], 0, old(line).kill)
    {
      len, index := 0, 0;
      line := Line([], 0, line.kill);
    }

    /** term_kill_region up to byte position to, where code point k starts. */
    method KillRegion(to: nat, save: bool, ghost k: nat)
      requires Valid() && k <= |line.text| && to == Pos(line.text, k)
      modifies this, buf, kill
      ensures Valid() && line == KillTo(old(line), k, save)
    {
      hide EncodeAll, Typed, Pos;
      ghost var t, a, b := line.text, if k < line.cur then k else line.cur, if k < line.cur then line.cur else k;
      Cut2(t, a, b, buf[..len]);
      TypedValid(t);
      if a < b { PosGrows(t, a, b); }
      var start, end := index, index;
      if to < start {
        start := to;
      } else {
        end := to;
      }
      if end > len {
        end := len;
      }
      assert start == Pos(t, a) && end == Pos(t, b);
      if start < end {
        var n := end - start;
        ghost var bytes := buf[..len];
        if save {
          SaveKilled(start, n);
        }
        CloseGap(start, end);
        Spliced(t, a, b, [], bytes);
        assert t[..a] + [] + t[b..] == t[..a] + t[b..];
        index := start;
        KillSound(line, k, save);
        line := KillTo(line, k, save);
      }
    }

    /** The kill buffer takes n bytes of the line. */
    method SaveKilled(start: nat, n: nat)
      requires buf != kill && start + n <= len <= buf.Length == kill.Length
      modifies this`killLen, kill
      ensures killLen == n && kill[..n] == buf[..len][start..start + n]
    {
      CopyTo(kill, 0, buf, start, n);
      killLen := n;
    }

    /** The bytes between start and end go. */
    method CloseGap(start: nat, end: nat)
      requires start < end <= len <= buf.Length
      modifies this`len, buf
      ensures len == old(len) - (end - start)
      ensures buf[..len] == old(buf[..len])[..start] + EncodeAll([]) + old(buf[..len])[end..]
    {
      ghost var was := buf[..];
      MoveDown(buf, start, end, len - end);
      assert buf[..len - (end - start)] == was[..start] + [] + was[end..len];
      len := len - (end - start);
    }

    /** term_insert_region. The check compares the cursor, not the length, with the
        size; the text must fit whenever the check passes. */
    method InsertRegion(src: array<byte>, n: nat, ghost u: seq<nat>)
      requires Valid() && src != buf && n <= src.Length && src[..n] == EncodeAll(u) && Typed(u)
      requires index + n < buf.Length ==> len + n < buf.Length
      modifies this`len, this`index, this`line, buf
      ensures Valid() && line == InsertIf(old(line), u, buf.Length)
    {
      hide EncodeAll, Typed, Pos;
      Cut(line.text, line.cur, buf[..len]);
      if index + n < buf.Length {
        ghost var bytes := buf[..len];
        OpenGap(src, n, index);
        Spliced(line.text, line.cur, line.cur, u, bytes);
        index := index + n;
        InsertSound(line, u);
        line := Insert(line, u);
      }
    }

    /** n bytes of src go in at pos, and the bytes behind it move up. */
    method OpenGap(src: array<byte>, n: nat, pos: nat)
      requires pos <= len && len + n < buf.Length && src != buf && n <= src.Length
      modifies this`len, buf
      ensures len == old(len) + n
      ensures buf[..len] == old(buf[..len])[..pos] + src[..n] + old(buf[..len])[pos..]
    {
      InsertBytes(buf, len, pos, src, n);
      len := len + n;
    }

    /** term_insert_char. */
    method InsertChar(c: nat)
      requires Valid() && Typable(c)
      requires index + |Encode(c)| < buf.Length ==> len + |Encode(c)| < buf.Length
      modifies this`len, this`index, this`line, buf
      ensures Valid() && line == InsertIf(old(line), [c], buf.Length)
    {
      var bytes := new byte[5];
      var n := UnicodeToUtf8(bytes, c);
      EncodeOne(c);
      InsertRegion(bytes, n, [c]);
    }

    /** term_yank. */
    method Yank()
      requires Valid()
      requires index + killLen < buf.Length ==> len + killLen < buf.Length
      modifies this`len, this`index, this`line, buf
      ensures Valid() && line == InsertIf(old(line), old(line).kill, buf.Length)
    {
      InsertRegion(kill, killLen, line.kill);
    }

    /** term_backward_char: back to the first byte that is no continuation byte. */
    method Backward()
      requires Valid()
      modifies this`index, this`line
      ensures Valid() && line == Left(old(line))
    {
      hide EncodeAll, Encode, Typed, Pos, CharLen;
      Bounds();
      if index > 0 {
        ghost var start := Pos(line.text, line.cur - 1);
        Locate(line.cur - 1);
        index := index - 1;
        while index > 0 && IsExt(buf[index])
          invariant line == old(line) && start <= index < old(index)
        {
          index := index - 1;
        }
        line := Left(line);
      }
    }

    /** The ends of the line, in bytes and in code points. */
    lemma Bounds()
      requires Valid()
      ensures index <= len && Pos(line.text, 0) == 0 && Pos(line.text, |line.text|) == len
      ensures (index == 0 <==> line.cur == 0) && (index == len <==> line.cur == |line.text|)
    {
      hide EncodeAll, Pos;
      TypedValid(line.text);
      PosEnds(line.text);
      if line.cur > 0 { PosGrows(line.text, 0, line.cur); }
      if line.cur < |line.text| { PosGrows(line.text, line.cur, |line.text|); }
    }

    /** CharAt, in terms of the buffer. */
    lemma Locate(k: nat)
      requires Valid() && k < |line.text|
      ensures var t := line.text; var p, q := Pos(t, k), Pos(t, k + 1);
              && p < q <= len && CharLen(buf[p]) == q - p && !IsExt(buf[p])
              && (forall j :: p < j < q ==> IsExt(buf[j]))
              && (forall j :: p <= j < q ==> IsSpace(buf[j]) == IsSpace(t[k]))
              && (IsSpace(t[k]) ==> q == p + 1)
    {
      hide EncodeAll, Encode, Pos, CharLen, IsExt, IsSpace;
      TypedValid(line.text);
      CharAt(line.text, k, buf[..len]);
    }

    /** term_forward_char. */
    method Forward()
      requires Valid()
      modifies this`index, this`line
      ensures Valid() && line == Right(old(line))
    {
      hide EncodeAll, Encode, Typed, Pos, CharLen;
      Bounds();
      if index < len {
        Locate(line.cur);
        index := index + CharLen(buf[index]);
        line := Right(line);
      }
    }

    /** term_delete_char. */
    method DeleteChar()
      requires Valid()
      modifies this, buf, kill
      ensures Valid() && line == Delete(old(line))
    {
      hide EncodeAll, Encode, Typed, Pos, CharLen;
      Bounds();
      if index < len {
        Locate(line.cur);
        KillRegion(index + CharLen(buf[index]), false, line.cur + 1);
      }
    }

    /** term_backspace. */
    method BackspaceChar()
      requires Valid()
      modifies this, buf, kill
      ensures Valid() && line == Backspace(old(line))
    {
      hide EncodeAll, Typed, Pos;
      Bounds();
      if index > 0 {
        Backward();
        DeleteChar();
      }
    }

    /** One loop of skip_word_backward: back over spaces, or over other bytes. */
    method SkipBack(from: nat, spaces: bool, ghost k: nat) returns (pos: nat, ghost r: nat)
      requires Valid() && k <= |line.text| && from == Pos(line.text, k)
      ensures r == LeftWhile(line.text, k, spaces) && pos == Pos(line.text, r)
    {
      hide EncodeAll, Encode, Typed, Pos, CharLen, IsExt;
      Bounds();
      TypedValid(line.text);
      ghost var t := line.text;
      pos, r := from, k;
      Before(r);
      while pos > 0 && IsSpace(buf[pos - 1]) == spaces
        invariant r <= k && LeftWhile(t, r, spaces) == LeftWhile(t, k, spaces)
        invariant pos <= Pos(t, r) <= len
        invariant r == 0 ==> pos == 0
        invariant r > 0 ==> Pos(t, r - 1) < pos && forall j :: Pos(t, r - 1) <= j < Pos(t, r) ==> IsSpace(buf[j]) == IsSpace(t[r - 1])
        invariant pos < Pos(t, r) ==> r > 0 && IsSpace(t[r - 1]) == spaces
        decreases pos
      {
        pos := pos - 1;
        if pos == Pos(t, r - 1) {
          r := r - 1;
          Before(r);
        }
      }
    }

    /** What lies before code point r. */
    lemma Before(r: nat)
      requires Valid() && r <= |line.text|
      ensures Pos(line.text, r) <= len && (r == 0 ==> Pos(line.text, r) == 0)
      ensures r > 0 ==> Pos(line.text, r - 1) < Pos(line.text, r)
      ensures r > 0 ==> forall j :: Pos(line.text, r - 1) <= j < Pos(line.text, r) ==> IsSpace(buf[j]) == IsSpace(line.text[r - 1])
    {
      hide EncodeAll, Encode, Typed, Pos, CharLen, IsExt, IsSpace;
      Bounds();
      if r > 0 { Locate(r - 1); }
    }

    /** One loop of skip_word_forward. */
    method SkipOn(from: nat, spaces: bool, ghost k: nat) returns (pos: nat, ghost r: nat)
      requires Valid() && k <= |line.text| && from == Pos(line.text, k)
      ensures r == RightWhile(line.text, k, spaces) && pos == Pos(line.text, r)
    {
      hide EncodeAll, Encode, Typed, Pos, CharLen, IsExt;
      ghost var t := line.text;
      pos, r := from, k;
      After(r);
      while pos < len && IsSpace(buf[pos]) == spaces
        invariant k <= r <= |t| && RightWhile(t, r, spaces) == RightWhile(t, k, spaces)
        invariant Pos(t, r) <= pos <= len
        invariant r == |t| ==> pos == len
        invariant r < |t| ==> pos < Pos(t, r + 1) <= len && forall j :: Pos(t, r) <= j < Pos(t, r + 1) ==> IsSpace(buf[j]) == IsSpace(t[r])
        invariant Pos(t, r) < pos ==> r < |t| && IsSpace(t[r]) == spaces
        decreases len - pos
      {
        pos := pos + 1;
        if pos == Pos(t, r + 1) {
          r := r + 1;
          After(r);
        }
      }
    }

    /** What lies at code point r. */
    lemma After(r: nat)
      requires Valid() && r <= |line.text|
      ensures Pos(line.text, r) <= len && (r == |line.text| ==> Pos(line.text, r) == len)
      ensures r < |line.text| ==> Pos(line.text, r) < Pos(line.text, r + 1) <= len
      ensures r < |line.text| ==> forall j :: Pos(line.text, r) <= j < Pos(line.text, r + 1) ==> IsSpace(buf[j]) == IsSpace(line.text[r])
    {
      hide EncodeAll, Encode, Typed, Pos, CharLen, IsExt, IsSpace;
      Bounds();
      if r < |line.text| { Locate(r); }
    }

    /** skip_word_backward. */
    method SkipWordBackward() returns (pos: nat)
      requires Valid()
      ensures pos == Pos(line.text, WordLeft(line.text, line.cur))
    {
      ghost var k;
      pos, k := SkipBack(index, true, line.cur);
      pos, k := SkipBack(pos, false, k);
    }

    /** skip_word_forward. */
    method SkipWordForward() returns (pos: nat)
      requires Valid()
      ensures pos == Pos(line.text, WordRight(line.text, line.cur))
    {
      ghost var k;
      pos, k := SkipOn(index, true, line.cur);
      pos, k := SkipOn(pos, false, k);
    }

    /** The cursor moves to byte position pos, where code point k starts. */
    method MoveTo(pos: nat, ghost k: nat)
      requires Valid() && k <= |line.text| && pos == Pos(line.text, k)
      modifies this`index, this`line
      ensures Valid() && line == old(line).(cur := k)
    {
      index := pos;
      line := line.(cur := k);
    }

    /** term_bol and term_eol. */
    method Bol()
      requires Valid()
      modifies this`index, this`line
      ensures Valid() && line == old(line).(cur := 0)
    {
      hide EncodeAll, Pos, Typed;
      PosEnds(line.text);
      MoveTo(0, 0);
    }

    method Eol()
      requires Valid()
      modifies this`index, this`line
      ensures Valid() && line == old(line).(cur := |line.text|)
    {
      hide EncodeAll, Pos, Typed;
      PosEnds(line.text);
      MoveTo(len, |line.text|);
    }

    /** The terminator that term_return writes. */
    method Terminate()
      requires Valid()
      modifies buf
      ensures Valid() && buf[len] == 0
    {
      hide EncodeAll, Pos, Typed;
      ghost var was := buf[..len];
      buf[len] := 0;
      assert buf[..len] == was;
    }

    /** update_cmdline_from_history: the n bytes at p of the history replace the line. */
    method Load(src: array<byte>, p: nat, n: nat, ghost t: seq<nat>)
      requires Valid() && src != buf && src != kill && p + n <= src.Length && n < buf.Length
      requires Typed(t) && src[p..p + n] == EncodeAll(t)
      modifies this`len, this`index, this`line, buf
      ensures Valid() && line == Line(t, |t|, old(line).kill)
    {
      hide EncodeAll, Typed, Pos;
      CopyTo(buf, 0, src, p, n);
      len, index := n, n;
      PosEnds(t);
      line := Line(t, |t|, line.kill);
      assert buf[..n] == src[p..p + n];
    }
  }
}
