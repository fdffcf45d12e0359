/** What the keys do to the history, and what the calls return. */
module HistoryKeys {
  import opened Utf8
  import opened EditText
  import opened PackedHistory
  import opened LineEditor
  import opened LineRuns
  import opened LineKeys

  // ----- browsing

  /** Line i of the history on the edit line, the cursor at its end. */
  function Shown(s: Edit, i: nat): Line
    requires i < |s.hist|
  {
    var t := DecodeAll(s.hist[i]);
    Line(t, |t|, s.line.kill)
  }

  /** Up goes to the line before, from the line being edited to the last; at the oldest
      line it stays. */
  lemma UpKeys(s: Edit, intro: seq<nat>, ps: seq<nat>, c: Setup)
    requires Good(s, c) && s.mode == Norm && Opens(intro) && Parameters(ps)
    ensures var n := |s.hist|; var up := intro + ps + ['A' as int];
            && (s.pos == -1 && n > 0 ==> Reaches(s, up, c, Shown(s, n - 1), n - 1))
            && (0 < s.pos < n ==> Reaches(s, up, c, Shown(s, s.pos - 1), s.pos - 1))
            && (s.pos == 0 || n == 0 ==> Reaches(s, up, c, s.line, 0))
  {
    hide Good, Reaches, Opens, Parameters, DecodeAll;
    GoodLine(s, c);
    var m := ControlSequence(s, intro, ps, 'A' as int, c);
  }

  /** Down goes to the line after; behind the last line it goes back to editing what is
      shown, with the cursor at its end. */
  lemma DownKeys(s: Edit, intro: seq<nat>, ps: seq<nat>, c: Setup)
    requires Good(s, c) && s.mode == Norm && Opens(intro) && Parameters(ps)
    ensures var n := |s.hist|;
            forall key :: key == 'B' as int || key == 'E' as int ==>
              var down := intro + ps + [key];
              && (s.pos == -1 ==> Reaches(s, down, c, s.line, -1))
              && (0 <= s.pos && s.pos + 1 < n ==> Reaches(s, down, c, Shown(s, s.pos + 1), s.pos + 1))
              && (0 <= s.pos && s.pos + 1 >= n ==> Reaches(s, down, c, Line(s.line.text, |s.line.text|, s.line.kill), -1))
  {
    hide Good, Reaches, Opens, Parameters, DecodeAll;
    GoodLine(s, c);
    var m := ControlSequence(s, intro, ps, 'B' as int, c);
    m := ControlSequence(s, intro, ps, 'E' as int, c);
  }

  /** The keys up and down as most terminals send them. */
  lemma Verticals(s: Edit, c: Setup)
    requires Good(s, c) && s.mode == Norm
    ensures var n := |s.hist|; var up, down := [27, '[' as int, 'A' as int], [27, '[' as int, 'B' as int];
            && (s.pos == -1 && n > 0 ==> Reaches(s, up, c, Shown(s, n - 1), n - 1))
            && (0 < s.pos < n ==> Reaches(s, up, c, Shown(s, s.pos - 1), s.pos - 1))
            && (s.pos == 0 || n == 0 ==> Reaches(s, up, c, s.line, 0))
            && (0 <= s.pos && s.pos + 1 < n ==> Reaches(s, down, c, Shown(s, s.pos + 1), s.pos + 1))
  {
    hide Good, Reaches, DecodeAll;
    var intro: seq<nat> := [27, '[' as int];
    assert intro + [] + ['A' as int] == [27, '[' as int, 'A' as int];
    assert intro + [] + ['B' as int] == [27, '[' as int, 'B' as int];
    UpKeys(s, intro, [], c);
    DownKeys(s, intro, [], c);
  }

  /** k times up from the line being edited shows the k-th line from the end; more than
      there are lines, the oldest. */
  lemma {:induction false} UpRun(s: Edit, k: nat, c: Setup)
    requires Good(s, c) && s.mode == Norm && s.pos == -1 && k > 0 && |s.hist| > 0
    ensures var at := if k <= |s.hist| then |s.hist| - k else 0;
            Reaches(s, Repeat([27, '[' as int, 'A' as int], k), c, Shown(s, at), at)
    decreases k
  {
    hide Good, Reaches, Shown;
    var up: seq<nat> := [27, '[' as int, 'A' as int];
    var n := |s.hist|;
    var at := if k <= n then n - k else 0;
    if k == 1 {
      Verticals(s, c);
      assert Repeat(up, 0) + up == up;
    } else {
      UpRun(s, k - 1, c);
      var was := if k - 1 <= n then n - (k - 1) else 0;
      var r := After(s, Repeat(up, k - 1), c, Shown(s, was), was);
      Verticals(r, c);
      ShownSame(s, r, was, at);
      Then(s, Repeat(up, k - 1), up, c, r, Shown(s, at), at);
    }
  }

  lemma ShownSame(s: Edit, r: Edit, was: nat, at: nat)
    requires s.hist == r.hist && was < |s.hist| && at < |s.hist| && r.line == Shown(s, was)
    ensures Shown(r, at) == Shown(s, at) && Shown(r, was) == r.line
  {
    hide DecodeAll;
  }

  /** j times down from a line of the history shows the j-th line after it. */
  lemma {:induction false} DownRun(s: Edit, j: nat, c: Setup)
    requires Good(s, c) && s.mode == Norm && j > 0 && 0 <= s.pos && s.pos + j < |s.hist|
    ensures Reaches(s, Repeat([27, '[' as int, 'B' as int], j), c, Shown(s, s.pos + j), s.pos + j)
    decreases j
  {
    hide Good, Reaches, Shown;
    var down: seq<nat> := [27, '[' as int, 'B' as int];
    if j == 1 {
      Verticals(s, c);
      assert Repeat(down, 0) + down == down;
    } else {
      DownRun(s, j - 1, c);
      var was := s.pos + (j - 1);
      var r := After(s, Repeat(down, j - 1), c, Shown(s, was), was);
      Verticals(r, c);
      ShownSame(s, r, was, s.pos + j);
      Then(s, Repeat(down, j - 1), down, c, r, Shown(s, s.pos + j), s.pos + j);
    }
  }

  // ----- accepting lines

  /** Typing a line, return and a restart: the line is in the history as AddLine puts it
      there. */
  function Accept(s: Edit, t: seq<nat>, c: Setup): Edit
    requires Good(s, c) && RunFits(s, EncodeAll(t + [13]), c)
  {
    Start(Run(s, EncodeAll(t + [13]), c))
  }

  lemma Accepted(s: Edit, t: seq<nat>, c: Setup)
    requires Good(s, c) && s.mode == Norm && s.line.text == [] && s.pos == -1 && !c.password
    requires Typed(t) && |t| > 0 && |EncodeAll(t)| < c.size
    ensures RunFits(s, EncodeAll(t + [13]), c)
    ensures var r := Accept(s, t, c);
            && Good(r, c) && r.mode == Norm && r.line == Line([], 0, s.line.kill) && r.pos == -1
            && r.hist == AddLine(s.hist, EncodeAll(t), c.historySize)
  {
    hide Good, EncodeAll, Typed, Run, RunFits, HandleByte, ByteFits, AddLine;
    GoodLine(s, c);
    EmptyCode();
    Typing(s, t, c);
    assert [] + t + [] == t;
    var m := After(s, t, c, Line(t, |t|, s.line.kill), s.pos);
    ReturnAccepts(m, c);
    PlainKey(m, 13, c);
    RunOne(m, 13, c);
    EncodeConcat(t, [13]);
    ReturnCode();
    RunConcat(s, EncodeAll(t), [13], c);
    StartGood(HandleByte(m, 13, c).0, c);
  }

  lemma ReturnCode()
    ensures EncodeAll([13]) == [13]
  {
    EncodeOne(13);
  }

  /** Two different lines are accepted one after the other, and both are still there:
      up shows the second, up again the first. */
  lemma AcceptTwo(s: Edit, t: seq<nat>, u: seq<nat>, c: Setup)
    requires Good(s, c) && s.mode == Norm && s.line.text == [] && s.pos == -1 && !c.password
    requires Typed(t) && |t| > 0 && |EncodeAll(t)| < c.size && Typed(u) && |u| > 0 && |EncodeAll(u)| < c.size
    requires t != u && |EncodeAll(t)| + |EncodeAll(u)| + 2 <= c.historySize
    ensures RunFits(s, EncodeAll(t + [13]), c)
    ensures var one := Accept(s, t, c); Good(one, c) && RunFits(one, EncodeAll(u + [13]), c)
    ensures var two := Accept(Accept(s, t, c), u, c); var up := [27, '[' as int, 'A' as int];
            && Good(two, c) && |two.hist| >= 2
            && Reaches(two, up, c, Line(u, |u|, s.line.kill), |two.hist| - 1)
            && Reaches(two, up + up, c, Line(t, |t|, s.line.kill), |two.hist| - 2)
  {
    hide *;
    BothAccepted(s, t, u, c);
    var two := Accept(Accept(s, t, c), u, c);
    var up: seq<nat> := [27, '[' as int, 'A' as int];
    UpRun(two, 1, c);
    UpRun(two, 2, c);
    RepeatTwice(up);
    LineCoded(t, c.size);
    LineCoded(u, c.size);
    ShownIs(two, |two.hist| - 1, u);
    ShownIs(two, |two.hist| - 2, t);
  }

  lemma BothAccepted(s: Edit, t: seq<nat>, u: seq<nat>, c: Setup)
    requires Good(s, c) && s.mode == Norm && s.line.text == [] && s.pos == -1 && !c.password
    requires Typed(t) && |t| > 0 && |EncodeAll(t)| < c.size && Typed(u) && |u| > 0 && |EncodeAll(u)| < c.size
    requires t != u && |EncodeAll(t)| + |EncodeAll(u)| + 2 <= c.historySize
    ensures RunFits(s, EncodeAll(t + [13]), c)
    ensures var one := Accept(s, t, c); Good(one, c) && RunFits(one, EncodeAll(u + [13]), c)
    ensures var two := Accept(Accept(s, t, c), u, c); var n := |two.hist|;
            && Good(two, c) && two.mode == Norm && two.pos == -1 && two.line == Line([], 0, s.line.kill)
            && n >= 2 && two.hist[n - 1] == EncodeAll(u) && two.hist[n - 2] == EncodeAll(t)
  {
    hide *;
    Accepted(s, t, c);
    Accepted(Accept(s, t, c), u, c);
    DifferentCodes(t, u, c);
    GoodHistory(s, c);
    AddTwo(s.hist, EncodeAll(t), EncodeAll(u), c.historySize);
  }

  lemma DifferentCodes(t: seq<nat>, u: seq<nat>, c: Setup)
    requires Typed(t) && |t| > 0 && |EncodeAll(t)| < c.size && Typed(u) && |u| > 0 && |EncodeAll(u)| < c.size && t != u
    ensures IsLine(EncodeAll(t)) && IsLine(EncodeAll(u)) && EncodeAll(t) != EncodeAll(u)
  {
    hide *;
    LineCoded(t, c.size);
    LineCoded(u, c.size);
    TypedValid(t);
    TypedValid(u);
    if EncodeAll(t) == EncodeAll(u) { EncodeInjective(t, u); }
  }

  lemma RepeatTwice(keys: seq<nat>)
    ensures Repeat(keys, 1) == keys && Repeat(keys, 2) == keys + keys
  {
    assert Repeat(keys, 0) == [] && [] + keys == keys;
    assert Repeat(keys, 1) == keys;
  }

  lemma ShownIs(s: Edit, i: nat, t: seq<nat>)
    requires i < |s.hist| && DecodeAll(s.hist[i]) == t
    ensures Shown(s, i) == Line(t, |t|, s.line.kill)
  {}

  lemma LineCoded(t: seq<nat>, size: nat)
    requires Typed(t) && |t| > 0 && |EncodeAll(t)| < size
    ensures IsLine(EncodeAll(t)) && DecodeAll(EncodeAll(t)) == t
  {
    hide EncodeAll, DecodeAll, Typed;
    LineStored(t, size);
    TypedValid(t);
    NotEmpty(t);
  }

  lemma GoodHistory(s: Edit, c: Setup)
    requires Good(s, c)
    ensures AllLines(s.hist) && Distinct(s.hist) && |Pack(s.hist)| <= c.historySize
  {}

  // ----- what the calls return

  /** -1 asks to leave and comes for ^D on an empty line alone; 2 accepts the line and
      comes for return alone; 0 is for characters that mean nothing here; every other
      byte is handled. */
  lemma Returns(s: Edit, b: byte, c: Setup)
    requires Good(s, c)
    ensures Sound(s.line) && AtLine(s)
    ensures var (r, ret) := HandleByte(s, b, c); var o := Take(s.dec, b).1;
            && ret in {-1, 0, 1, 2}
            && (ret == -1 <==> s.mode == Norm && s.line.text == [] && o == Some(4))
            && (ret == 2 <==> s.mode == Norm && (o == Some(10) || o == Some(13)))
            && (ret == 0 <==> o.Some? && match s.mode
                  case Norm => o.c < 32 && o.c !in {1, 4, 5, 8, 9, 10, 11, 13, 21, 23, 25, 27}
                  case Esc => o.c !in {8, 13, 127, '[' as int, 'O' as int, 'b' as int, 'd' as int, 'f' as int}
                  case Csi =>
                    && !('A' as int <= o.c <= 'F' as int || o.c == 'H' as int || '0' as int <= o.c <= '9' as int || o.c == ';' as int)
                    && (o.c == '~' as int ==> s.params.now !in {1, 3, 4}))
            && (ret == 0 || ret == -1 || o == None ==>
                  r.line == s.line && r.hist == s.hist && r.pos == s.pos)
  {
    hide Good, Take, Sound, AtLine, KillTo, Delete, Backspace, InsertIf, WordLeft, WordRight, UpKey, DownKey, ReturnKey;
    GoodLine(s, c);
  }

  /** After an escape, return does what it always does, but the line is not reported as
      accepted. */
  lemma EscapeReturn(s: Edit, c: Setup)
    requires Good(s, c) && s.mode == Norm
    ensures RunFits(s, [27, 13], c) && RunFits(s, [13], c) && Run(s, [27, 13], c) == Run(s, [13], c)
    ensures var m := Run(s, [27], c); Good(m, c) && Sound(m.line) && AtLine(m) && HandleByte(m, 13, c).1 == 1
  {
    hide Good, EncodeAll, AddLine, Run, RunFits, ByteFits;
    GoodLine(s, c);
    PlainKey(s, 13, c);
    PlainKey(s, 27, c);
    RunOne(s, 13, c);
    RunOne(s, 27, c);
    var m := HandleByte(s, 27, c).0;
    GoodLine(m, c);
    PlainKey(m, 13, c);
    RunOne(m, 13, c);
    RunCons(s, 27, [13], c);
    assert [27] + [13] == [27, 13];
  }
}
