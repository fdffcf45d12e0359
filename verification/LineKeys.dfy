/** What the editing keys do, over runs of bytes: each law gives the text, the cursor
    and the kill buffer that a run of keys leaves, as slices of the text before. */
module LineKeys {
  import opened Utf8
  import opened EditText
  import opened LineEditor
  import opened LineRuns

  /** The keys, arriving as their bytes, lead to the line l and the history position
      pos, with the history as it was. */
  predicate Reaches(s: Edit, keys: seq<nat>, c: Setup, l: Line, pos: int)
    requires Good(s, c)
  {
    && RunFits(s, EncodeAll(keys), c)
    && (var r := Run(s, EncodeAll(keys), c);
        r.line == l && r.mode == Norm && r.hist == s.hist && r.pos == pos)
  }

  /** They leave the line l, and the history position as it was. */
  predicate Leaves(s: Edit, keys: seq<nat>, c: Setup, l: Line)
    requires Good(s, c)
  {
    Reaches(s, keys, c, l, s.pos)
  }

  // ----- runs one after the other

  lemma {:induction false} RunConcat(s: Edit, a: seq<byte>, b: seq<byte>, c: Setup)
    requires Good(s, c) && RunFits(s, a, c) && Good(Run(s, a, c), c)
    ensures RunFits(s, a + b, c) == RunFits(Run(s, a, c), b, c)
    ensures RunFits(s, a + b, c) ==> Run(s, a + b, c) == Run(Run(s, a, c), b, c)
    decreases |a|
  {
    hide Good, ByteFits, HandleByte;
    GoodLine(s, c);
    if |a| == 0 {
      assert a + b == b;
    } else {
      ByteGood(s, a[0], c);
      RunConcat(HandleByte(s, a[0], c).0, a[1..], b, c);
      assert (a + b)[1..] == a[1..] + b;
    }
  }

  /** The state after a run of keys, of which Reaches speaks. */
  lemma After(s: Edit, keys: seq<nat>, c: Setup, l: Line, pos: int) returns (r: Edit)
    requires Good(s, c) && Reaches(s, keys, c, l, pos)
    ensures RunFits(s, EncodeAll(keys), c) && r == Run(s, EncodeAll(keys), c) && Good(r, c)
    ensures r.line == l && r.mode == Norm && r.hist == s.hist && r.pos == pos
  {
    hide Good, Run, RunFits, EncodeAll;
    r := Run(s, EncodeAll(keys), c);
    RunGood(s, EncodeAll(keys), c);
  }

  lemma Then(s: Edit, a: seq<nat>, b: seq<nat>, c: Setup, r: Edit, l: Line, pos: int)
    requires Good(s, c) && RunFits(s, EncodeAll(a), c) && r == Run(s, EncodeAll(a), c)
    requires Good(r, c) && Reaches(r, b, c, l, pos) && r.hist == s.hist
    ensures Reaches(s, a + b, c, l, pos)
  {
    hide Good, Run, RunFits, EncodeAll;
    EncodeConcat(a, b);
    RunConcat(s, EncodeAll(a), EncodeAll(b), c);
  }

  // ----- from bytes to characters

  /** The bytes of the keys do what the keys do one by one. */
  lemma FromChars(s: Edit, keys: seq<nat>, c: Setup, r: Edit)
    requires Good(s, c) && ValidText(keys) && CharsFit(s, keys, c) && r == RunChars(s, keys, c)
    requires r.mode == Norm && r.hist == s.hist
    ensures Reaches(s, keys, c, r.line, r.pos)
  {
    hide Good, Run, RunFits, EncodeAll, RunChars, CharsFit, TakeAll, ValidText;
    TakeText(s.dec, keys);
    RunIsChars(s, EncodeAll(keys), c);
  }

  /** One key. */
  lemma OneKey(s: Edit, ch: nat, c: Setup, r: Edit)
    requires Good(s, c) && ch < CODE_LIMIT && CharFits(s, ch, c) && r == HandleChar(s, ch, c).0
    requires r.mode == Norm && r.hist == s.hist
    ensures Reaches(s, [ch], c, r.line, r.pos)
  {
    hide Good, HandleChar, CharFits, Reaches;
    CharGood(s, ch, c);
    assert [ch][1..] == [];
    FromChars(s, [ch], c, r);
  }

  lemma {:induction false} CharsConcat(s: Edit, a: seq<nat>, b: seq<nat>, c: Setup, m: Edit)
    requires Good(s, c) && ValidText(a) && ValidText(b) && CharsFit(s, a, c) && m == RunChars(s, a, c) && Good(m, c)
    ensures CharsFit(s, a + b, c) == CharsFit(m, b, c)
    ensures CharsFit(s, a + b, c) ==> RunChars(s, a + b, c) == RunChars(m, b, c)
    decreases |a|
  {
    hide Good, CharFits, HandleChar;
    GoodLine(s, c);
    if |a| == 0 {
      assert a + b == b;
    } else {
      CharGood(s, a[0], c);
      CharsConcat(HandleChar(s, a[0], c).0, a[1..], b, c, m);
      assert (a + b)[1..] == a[1..] + b;
    }
  }

  /** One more key. */
  lemma CharsSnoc(s: Edit, a: seq<nat>, ch: nat, c: Setup, m: Edit)
    requires Good(s, c) && ValidText(a) && ch < CODE_LIMIT && CharsFit(s, a, c) && m == RunChars(s, a, c) && Good(m, c)
    requires CharFits(m, ch, c)
    ensures CharsFit(s, a + [ch], c) && RunChars(s, a + [ch], c) == HandleChar(m, ch, c).0
  {
    hide Good, CharFits, HandleChar;
    CharGood(m, ch, c);
    CharsConcat(s, a, [ch], c, m);
    assert [ch][1..] == [];
  }

  // ----- control sequences

  /** ESC [, ESC O or the code point 155. */
  predicate Opens(intro: seq<nat>) {
    intro == [27, '[' as int] || intro == [27, 'O' as int] || intro == [155]
  }

  /** Digits and semicolons. */
  predicate Parameters(ps: seq<nat>) {
    forall i :: 0 <= i < |ps| ==> ps[i] == ';' as int || '0' as int <= ps[i] <= '9' as int
  }

  /** The number after the last semicolon, or at the end of digits that follow n. */
  function Number(n: nat, ps: seq<nat>): nat
    requires Parameters(ps)
  {
    if |ps| == 0 then n
    else
      var rest := ps[..|ps| - 1];
      if ps[|ps| - 1] == ';' as int then 0 else Number(n, rest) * 10 + (ps[|ps| - 1] - '0' as int)
  }

  lemma ValidKeys(intro: seq<nat>, ps: seq<nat>)
    requires Opens(intro) && Parameters(ps)
    ensures ValidText(intro) && ValidText(ps) && ValidText(intro + ps)
  {}

  /** After its opening a control sequence is being read, its numbers 0 unless it was
      opened by the code point 155. */
  lemma Opened(s: Edit, intro: seq<nat>, c: Setup)
    requires Good(s, c) && s.mode == Norm && Opens(intro)
    ensures ValidText(intro) && CharsFit(s, intro, c)
    ensures var p := if intro == [155] then s.params else Params(0, 0, 0);
            var r := RunChars(s, intro, c); r == s.(mode := Csi, params := p) && Good(r, c)
  {
    hide Good;
    GoodLine(s, c);
    DecSane(s, c);
    ModeGood(s, Csi, s.params, s.dec, c);
    ModeGood(s, Csi, Params(0, 0, 0), s.dec, c);
    if intro == [155] {
      assert [155][1..] == [];
    } else {
      var s1, first := s.(mode := Esc), [27];
      ModeGood(s, Esc, s.params, s.dec, c);
      GoodLine(s1, c);
      assert first[1..] == [];
      CharsSnoc(s, first, intro[1], c, s1);
      assert intro == first + [intro[1]];
    }
  }

  /** Parameters only add up to numbers. */
  lemma {:induction false} Numbers(s: Edit, ps: seq<nat>, c: Setup) returns (p: Params)
    requires Good(s, c) && s.mode == Csi && Parameters(ps)
    ensures ValidText(ps) && CharsFit(s, ps, c) && RunChars(s, ps, c) == s.(params := p) && Good(s.(params := p), c)
    ensures p.now == Number(s.params.now, ps)
  {
    hide Good, CharsFit, RunChars;
    GoodLine(s, c);
    DecSane(s, c);
    if |ps| == 0 {
      p := s.params;
      NoChars(s, c);
    } else {
      var rest, ch := ps[..|ps| - 1], ps[|ps| - 1];
      var q := Numbers(s, rest, c);
      var m := s.(params := q);
      p := if ch == ';' as int then Params(0, q.now, q.last) else q.(now := q.now * 10 + (ch - '0' as int));
      ModeGood(s, Csi, p, s.dec, c);
      CharsSnoc(s, rest, ch, c, m);
      assert ps == rest + [ch];
      assert HandleChar(m, ch, c).0 == s.(params := p);
    }
  }

  lemma NoChars(s: Edit, c: Setup)
    requires Good(s, c)
    ensures CharsFit(s, [], c) && RunChars(s, [], c) == s
  {}

  /** A whole control sequence acts by its last character. */
  lemma ControlSequence(s: Edit, intro: seq<nat>, ps: seq<nat>, key: nat, c: Setup) returns (m: Edit)
    requires Good(s, c) && s.mode == Norm && Opens(intro) && Parameters(ps) && key < 128
    ensures m == s.(mode := Csi, params := m.params) && Good(m, c) && Sound(m.line) && AtLine(m)
    ensures intro != [155] ==> m.params.now == Number(0, ps)
    ensures var r := CsiKey(m, key).0;
            r.mode == Norm && r.hist == s.hist ==> Reaches(s, intro + ps + [key], c, r.line, r.pos)
  {
    hide Good, CharsFit, RunChars, CsiKey, Opens, Parameters, Reaches;
    GoodLine(s, c);
    ValidKeys(intro, ps);
    Opened(s, intro, c);
    var s1 := RunChars(s, intro, c);
    var p := Numbers(s1, ps, c);
    m := s1.(params := p);
    CharsConcat(s, intro, ps, c, s1);
    GoodLine(m, c);
    CharsSnoc(s, intro + ps, key, c, m);
    var r := CsiKey(m, key).0;
    if r.mode == Norm && r.hist == s.hist {
      KeyValid(intro + ps, key);
      FromChars(s, intro + ps + [key], c, r);
    }
  }

  lemma KeyValid(a: seq<nat>, key: nat)
    requires ValidText(a) && key < CODE_LIMIT
    ensures ValidText(a + [key])
  {}

  // ----- moving

  /** The arrow keys move by one code point, Home and End to the ends, whatever
      parameters the control sequence carries. */
  lemma MoveKeys(s: Edit, intro: seq<nat>, ps: seq<nat>, c: Setup)
    requires Good(s, c) && s.mode == Norm && Opens(intro) && Parameters(ps)
    ensures var Line(t, k, y) := s.line;
            && Leaves(s, intro + ps + ['D' as int], c, Line(t, if k > 0 then k - 1 else 0, y))
            && Leaves(s, intro + ps + ['C' as int], c, Line(t, if k < |t| then k + 1 else |t|, y))
            && Leaves(s, intro + ps + ['H' as int], c, Line(t, 0, y))
            && Leaves(s, intro + ps + ['F' as int], c, Line(t, |t|, y))
  {
    hide Good, Reaches, Opens, Parameters;
    GoodLine(s, c);
    var a := ControlSequence(s, intro, ps, 'D' as int, c);
    a := ControlSequence(s, intro, ps, 'C' as int, c);
    a := ControlSequence(s, intro, ps, 'H' as int, c);
    a := ControlSequence(s, intro, ps, 'F' as int, c);
  }

  /** ^A and ^E. */
  lemma MoveControls(s: Edit, c: Setup)
    requires Good(s, c) && s.mode == Norm
    ensures Leaves(s, [1], c, Line(s.line.text, 0, s.line.kill))
    ensures Leaves(s, [5], c, Line(s.line.text, |s.line.text|, s.line.kill))
  {
    hide Good, Reaches;
    GoodLine(s, c);
    OneKey(s, 1, c, HandleChar(s, 1, c).0);
    OneKey(s, 5, c, HandleChar(s, 5, c).0);
  }

  /** The keys that a number tells apart: 1 is Home, 3 Delete and 4 End. */
  lemma TildeKeys(s: Edit, intro: seq<nat>, ps: seq<nat>, c: Setup)
    requires Good(s, c) && s.mode == Norm && Opens(intro) && intro != [155] && Parameters(ps)
    ensures var Line(t, k, y) := s.line; var n := Number(0, ps);
            && k <= |t|
            && Leaves(s, intro + ps + ['~' as int], c,
                 if n == 1 then Line(t, 0, y)
                 else if n == 4 then Line(t, |t|, y)
                 else if n == 3 && k < |t| then Line(t[..k] + t[k + 1..], k, y)
                 else s.line)
  {
    hide Good, Reaches, Opens, Parameters, Number;
    GoodLine(s, c);
    var m := ControlSequence(s, intro, ps, '~' as int, c);
  }

  /** The two keys of ESC followed by a letter. */
  lemma EscapeKey(s: Edit, key: nat, c: Setup) returns (m: Edit)
    requires Good(s, c) && s.mode == Norm && key < 128
    ensures m == s.(mode := Esc) && Good(m, c) && Sound(m.line)
    ensures var r := EscKey(m, key, c).0;
            r.mode == Norm && r.hist == s.hist ==> Reaches(s, [27, key], c, r.line, r.pos)
  {
    hide Good, EscKey, Reaches;
    GoodLine(s, c);
    DecSane(s, c);
    m := s.(mode := Esc);
    ModeGood(s, Esc, s.params, s.dec, c);
    GoodLine(m, c);
    var first := [27];
    assert first[1..] == [];
    CharsSnoc(s, first, key, c, m);
    assert [27, key] == first + [key];
    var r := EscKey(m, key, c).0;
    if r.mode == Norm && r.hist == s.hist {
      FromChars(s, [27, key], c, r);
    }
  }

  /** The other control characters, the tabulator among them, leave the line alone. */
  lemma OtherKeys(s: Edit, ch: nat, c: Setup)
    requires Good(s, c) && s.mode == Norm && ch < 32
    requires ch !in {1, 4, 5, 8, 10, 11, 13, 21, 23, 25, 27}
    ensures Leaves(s, [ch], c, s.line)
  {
    hide Good, Reaches;
    GoodLine(s, c);
    OneKey(s, ch, c, HandleChar(s, ch, c).0);
  }

  // ----- deleting and killing

  /** ^D and ESC [ 3 ~ delete the code point after the cursor, ^H and DEL the one
      before it. */
  lemma DeleteKeys(s: Edit, c: Setup)
    requires Good(s, c) && s.mode == Norm
    ensures var Line(t, k, y) := s.line;
            && k <= |t|
            && (k < |t| ==> (var less := Line(t[..k] + t[k + 1..], k, y);
                             Leaves(s, [4], c, less) && Leaves(s, [27, '[' as int, '3' as int, '~' as int], c, less)))
            && (k == |t| ==> Leaves(s, [4], c, s.line) && Leaves(s, [27, '[' as int, '3' as int, '~' as int], c, s.line))
            && (k > 0 ==> (var less := Line(t[..k - 1] + t[k..], k - 1, y);
                           Leaves(s, [8], c, less) && Leaves(s, [127], c, less)))
            && (k == 0 ==> Leaves(s, [8], c, s.line) && Leaves(s, [127], c, s.line))
  {
    hide Good, Reaches;
    GoodLine(s, c);
    var intro: seq<nat> := [27, '[' as int];
    TildeKeys(s, intro, ['3' as int], c);
    assert intro + ['3' as int] + ['~' as int] == [27, '[' as int, '3' as int, '~' as int];
    OneKey(s, 4, c, HandleChar(s, 4, c).0);
    OneKey(s, 8, c, HandleChar(s, 8, c).0);
    OneKey(s, 127, c, HandleChar(s, 127, c).0);
  }

  /** ^K kills what lies after the cursor, ^U what lies before it. */
  lemma KillKeys(s: Edit, c: Setup)
    requires Good(s, c) && s.mode == Norm
    ensures var Line(t, k, y) := s.line;
            && k <= |t|
            && Leaves(s, [11], c, Line(t[..k], k, if k < |t| then t[k..] else y))
            && Leaves(s, [21], c, Line(t[k..], 0, if k > 0 then t[..k] else y))
  {
    hide Good, Reaches;
    GoodLine(s, c);
    var Line(t, k, y) := s.line;
    assert t[..k] + t[|t|..] == t[..k] && t[k..|t|] == t[k..] && (k == |t| ==> t[..k] == t);
    assert t[..0] + t[k..] == t[k..] && t[0..k] == t[..k] && (k == 0 ==> t[k..] == t);
    OneKey(s, 11, c, HandleChar(s, 11, c).0);
    OneKey(s, 21, c, HandleChar(s, 21, c).0);
  }

  /** Yanking puts the kill buffer in at the cursor if it fits. */
  lemma YankKey(s: Edit, c: Setup)
    requires Good(s, c) && s.mode == Norm
    requires |EncodeAll(s.line.text)| + |EncodeAll(s.line.kill)| < c.size
    ensures var Line(t, k, y) := s.line;
            k <= |t| && Leaves(s, [25], c, Line(t[..k] + y + t[k..], k + |y|, y))
  {
    hide Good, Reaches, EncodeAll;
    GoodLine(s, c);
    Spliced(s.line.text, s.line.cur, s.line.cur, [], EncodeAll(s.line.text));
    OneKey(s, 25, c, HandleChar(s, 25, c).0);
  }

  /** A killed end or beginning comes back with ^Y. */
  lemma KilledComesBack(s: Edit, c: Setup)
    requires Good(s, c) && s.mode == Norm
    ensures var Line(t, k, y) := s.line;
            && k <= |t|
            && (k < |t| ==> Leaves(s, [11] + [25], c, Line(t, |t|, t[k..])))
            && (k > 0 ==> Leaves(s, [21] + [25], c, Line(t, k, t[..k])))
  {
    hide Good, Reaches, EncodeAll;
    GoodLine(s, c);
    KillKeys(s, c);
    var Line(t, k, y) := s.line;
    assert t[..k] + t[k..] == t;
    EncodeConcat(t[..k], t[k..]);
    if k < |t| {
      var r := After(s, [11], c, Line(t[..k], k, t[k..]), s.pos);
      YankKey(r, c);
      assert t[..k][..k] + t[k..] + t[..k][k..] == t;
      Then(s, [11], [25], c, r, Line(t, |t|, t[k..]), s.pos);
    }
    if k > 0 {
      var r := After(s, [21], c, Line(t[k..], 0, t[..k]), s.pos);
      YankKey(r, c);
      assert t[k..][..0] + t[..k] + t[k..][0..] == t;
      Then(s, [21], [25], c, r, Line(t, k, t[..k]), s.pos);
    }
  }

  // ----- words

  /** Going back over a word: over spaces, then over at least one other code point
      if there is one, up to a space or the start. */
  lemma WordStart(t: seq<nat>, k: nat) returns (m: nat)
    requires Typed(t) && k <= |t|
    ensures WordLeft(t, k) <= m <= k
    ensures forall i :: m <= i < k ==> t[i] == 32
    ensures forall i :: WordLeft(t, k) <= i < m ==> t[i] != 32
    ensures m > 0 ==> WordLeft(t, k) < m
    ensures WordLeft(t, k) > 0 ==> t[WordLeft(t, k) - 1] == 32
  {
    m := LeftWhile(t, k, true);
    LeftWhileIs(t, k, true);
    LeftWhileIs(t, m, false);
  }

  /** Going on over a word, in the same way. */
  lemma WordEnd(t: seq<nat>, k: nat) returns (m: nat)
    requires Typed(t) && k <= |t|
    ensures k <= m <= WordRight(t, k) <= |t|
    ensures forall i :: k <= i < m ==> t[i] == 32
    ensures forall i :: m <= i < WordRight(t, k) ==> t[i] != 32
    ensures m < |t| ==> m < WordRight(t, k)
    ensures WordRight(t, k) < |t| ==> t[WordRight(t, k)] == 32
  {
    m := RightWhile(t, k, true);
    RightWhileIs(t, k, true);
    RightWhileIs(t, m, false);
  }

  /** ESC b moves to the start of the word before the cursor; ^W, ESC ^H and ESC DEL
      kill back to it. */
  lemma WordBackKeys(s: Edit, c: Setup) returns (r: nat, m: nat)
    requires Good(s, c) && s.mode == Norm
    ensures var Line(t, k, y) := s.line;
            && r <= m <= k <= |t|
            && (forall i :: m <= i < k ==> t[i] == 32) && (forall i :: r <= i < m ==> t[i] != 32)
            && (m > 0 ==> r < m) && (r > 0 ==> t[r - 1] == 32)
            && Leaves(s, [27, 'b' as int], c, Line(t, r, y))
            && (var killed := Line(t[..r] + t[k..], r, if r < k then t[r..k] else y);
                Leaves(s, [23], c, killed) && Leaves(s, [27, 8], c, killed) && Leaves(s, [27, 127], c, killed))
  {
    hide Good, Reaches, WordLeft, Typed;
    GoodLine(s, c);
    var Line(t, k, y) := s.line;
    m := WordStart(t, k);
    r := WordLeft(t, k);
    assert t[..k] + t[k..] == t;
    OneKey(s, 23, c, HandleChar(s, 23, c).0);
    var a := EscapeKey(s, 'b' as int, c);
    a := EscapeKey(s, 8, c);
    a := EscapeKey(s, 127, c);
  }

  /** ESC f moves to the end of the word after the cursor; ESC d kills up to it. */
  lemma WordOnKeys(s: Edit, c: Setup) returns (r: nat, m: nat)
    requires Good(s, c) && s.mode == Norm
    ensures var Line(t, k, y) := s.line;
            && k <= m <= r <= |t|
            && (forall i :: k <= i < m ==> t[i] == 32) && (forall i :: m <= i < r ==> t[i] != 32)
            && (m < |t| ==> m < r) && (r < |t| ==> t[r] == 32)
            && Leaves(s, [27, 'f' as int], c, Line(t, r, y))
            && Leaves(s, [27, 'd' as int], c, Line(t[..k] + t[r..], k, if k < r then t[k..r] else y))
  {
    hide Good, Reaches, WordRight, Typed;
    GoodLine(s, c);
    var Line(t, k, y) := s.line;
    m := WordEnd(t, k);
    r := WordRight(t, k);
    assert t[..k] + t[k..] == t;
    var a := EscapeKey(s, 'f' as int, c);
    a := EscapeKey(s, 'd' as int, c);
  }

  // ----- moving and typing

  /** Typing inserts at the cursor. */
  lemma Typing(s: Edit, u: seq<nat>, c: Setup)
    requires Good(s, c) && s.mode == Norm && Typed(u)
    requires |EncodeAll(s.line.text)| + |EncodeAll(u)| < c.size
    ensures var Line(t, k, y) := s.line;
            k <= |t| && Leaves(s, u, c, Line(t[..k] + u + t[k..], k + |u|, y))
  {
    hide Good, EncodeAll, Typed, Run, RunFits;
    GoodLine(s, c);
    TypeText(s, u, c);
  }

  function Repeat(keys: seq<nat>, n: nat): seq<nat> {
    if n == 0 then [] else Repeat(keys, n - 1) + keys
  }

  /** n times left or right. */
  lemma {:induction false} Steps(s: Edit, n: nat, c: Setup)
    requires Good(s, c) && s.mode == Norm
    ensures var Line(t, k, y) := s.line;
            && k <= |t|
            && Leaves(s, Repeat([27, '[' as int, 'D' as int], n), c, Line(t, if n < k then k - n else 0, y))
            && Leaves(s, Repeat([27, '[' as int, 'C' as int], n), c, Line(t, if k + n < |t| then k + n else |t|, y))
  {
    hide Good, Reaches;
    GoodLine(s, c);
    var left, right: seq<nat> := [27, '[' as int, 'D' as int], [27, '[' as int, 'C' as int];
    var Line(t, k, y) := s.line;
    if n == 0 {
      NoKeys(s, c);
    } else {
      Steps(s, n - 1, c);
      var a := After(s, Repeat(left, n - 1), c, Line(t, if n - 1 < k then k - (n - 1) else 0, y), s.pos);
      Arrows(a, c);
      Then(s, Repeat(left, n - 1), left, c, a, Line(t, if n < k then k - n else 0, y), s.pos);
      a := After(s, Repeat(right, n - 1), c, Line(t, if k + n - 1 < |t| then k + n - 1 else |t|, y), s.pos);
      Arrows(a, c);
      Then(s, Repeat(right, n - 1), right, c, a, Line(t, if k + n < |t| then k + n else |t|, y), s.pos);
    }
  }

  lemma NoKeys(s: Edit, c: Setup)
    requires Good(s, c) && s.mode == Norm
    ensures Leaves(s, [], c, s.line)
  {
    hide Good;
  }

  lemma Arrows(s: Edit, c: Setup)
    requires Good(s, c) && s.mode == Norm
    ensures var Line(t, k, y) := s.line;
            && Leaves(s, [27, '[' as int, 'D' as int], c, Line(t, if k > 0 then k - 1 else 0, y))
            && Leaves(s, [27, '[' as int, 'C' as int], c, Line(t, if k < |t| then k + 1 else |t|, y))
  {
    hide Good, Reaches;
    MoveKeys(s, [27, '[' as int], [], c);
    var intro: seq<nat> := [27, '[' as int];
    assert intro + [] + ['D' as int] == [27, '[' as int, 'D' as int];
    assert intro + [] + ['C' as int] == [27, '[' as int, 'C' as int];
  }

  /** From the end of the line, n lefts and then typing u put u in n code points before
      the end. */
  lemma LeftsThenType(s: Edit, n: nat, u: seq<nat>, c: Setup)
    requires Good(s, c) && s.mode == Norm && s.line.cur == |s.line.text| && n <= |s.line.text|
    requires Typed(u) && |EncodeAll(s.line.text)| + |EncodeAll(u)| < c.size
    ensures var Line(t, k, y) := s.line;
            Leaves(s, Repeat([27, '[' as int, 'D' as int], n) + u, c, Line(t[..|t| - n] + u + t[|t| - n..], |t| - n + |u|, y))
  {
    hide Good, Reaches, EncodeAll, Typed, Repeat;
    Steps(s, n, c);
    var Line(t, k, y) := s.line;
    var left: seq<nat> := [27, '[' as int, 'D' as int];
    var r := After(s, Repeat(left, n), c, Line(t, |t| - n, y), s.pos);
    Typing(r, u, c);
    Then(s, Repeat(left, n), u, c, r, Line(t[..|t| - n] + u + t[|t| - n..], |t| - n + |u|, y), s.pos);
  }

  /** Right undoes left and left undoes right, away from the ends. */
  lemma LeftAndRight(s: Edit, n: nat, c: Setup)
    requires Good(s, c) && s.mode == Norm
    ensures var left, right := Repeat([27, '[' as int, 'D' as int], n), Repeat([27, '[' as int, 'C' as int], n);
            && (n <= s.line.cur ==> Leaves(s, left + right, c, s.line))
            && (s.line.cur + n <= |s.line.text| ==> Leaves(s, right + left, c, s.line))
  {
    hide Good, Reaches, Repeat;
    GoodLine(s, c);
    Steps(s, n, c);
    var Line(t, k, y) := s.line;
    var left, right := Repeat([27, '[' as int, 'D' as int], n), Repeat([27, '[' as int, 'C' as int], n);
    if n <= k {
      var r := After(s, left, c, Line(t, k - n, y), s.pos);
      Steps(r, n, c);
      Then(s, left, right, c, r, s.line, s.pos);
    }
    if k + n <= |t| {
      var r := After(s, right, c, Line(t, k + n, y), s.pos);
      Steps(r, n, c);
      Then(s, right, left, c, r, s.line, s.pos);
    }
  }

  /** The keys that go to the start of the line, and those that go to its end. */
  const HOME: set<seq<nat>> := {[1], [27, '[' as int, 'H' as int], [27, 'O' as int, 'H' as int], [27, '[' as int, '1' as int, '~' as int]}
  const END: set<seq<nat>> := {[5], [27, '[' as int, 'F' as int], [27, 'O' as int, 'F' as int], [27, '[' as int, '4' as int, '~' as int]}

  lemma HomeEnd(s: Edit, keys: seq<nat>, c: Setup)
    requires Good(s, c) && s.mode == Norm
    ensures keys in HOME ==> Leaves(s, keys, c, Line(s.line.text, 0, s.line.kill))
    ensures keys in END ==> Leaves(s, keys, c, Line(s.line.text, |s.line.text|, s.line.kill))
  {
    hide Good, Reaches;
    MoveControls(s, c);
    var a, b: seq<nat> := [27, '[' as int], [27, 'O' as int];
    MoveKeys(s, a, [], c);
    MoveKeys(s, b, [], c);
    TildeKeys(s, a, ['1' as int], c);
    TildeKeys(s, a, ['4' as int], c);
    assert a + [] + ['H' as int] == [27, '[' as int, 'H' as int] && a + [] + ['F' as int] == [27, '[' as int, 'F' as int];
    assert b + [] + ['H' as int] == [27, 'O' as int, 'H' as int] && b + [] + ['F' as int] == [27, 'O' as int, 'F' as int];
    assert a + ['1' as int] + ['~' as int] == [27, '[' as int, '1' as int, '~' as int];
    assert a + ['4' as int] + ['~' as int] == [27, '[' as int, '4' as int, '~' as int];
  }

  /** Typing after Home puts u before the text, after End behind it. */
  lemma HomeEndThenType(s: Edit, keys: seq<nat>, u: seq<nat>, c: Setup)
    requires Good(s, c) && s.mode == Norm && Typed(u) && |EncodeAll(s.line.text)| + |EncodeAll(u)| < c.size
    ensures keys in HOME ==> Leaves(s, keys + u, c, Line(u + s.line.text, |u|, s.line.kill))
    ensures keys in END ==> Leaves(s, keys + u, c, Line(s.line.text + u, |s.line.text| + |u|, s.line.kill))
  {
    hide Good, Reaches, EncodeAll, Typed;
    HomeEnd(s, keys, c);
    var Line(t, k, y) := s.line;
    assert t[..0] + u + t[0..] == u + t && t[..|t|] + u + t[|t|..] == t + u;
    if keys in HOME {
      var r := After(s, keys, c, Line(t, 0, y), s.pos);
      Typing(r, u, c);
      Then(s, keys, u, c, r, Line(u + t, |u|, y), s.pos);
    }
    if keys in END {
      var r := After(s, keys, c, Line(t, |t|, y), s.pos);
      Typing(r, u, c);
      Then(s, keys, u, c, r, Line(t + u, |t| + |u|, y), s.pos);
    }
  }
}
