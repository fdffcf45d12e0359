/** readline_handle_byte as a state machine: what each key means for the line, the
    history position and the escape state, and laws over whole runs of bytes. */
module LineEditor {
  import opened Utf8
  import opened EditText
  import opened PackedHistory

  const EXIT: int := -1
  const NOT_HANDLED: int := 0
  const HANDLED: int := 1
  const ACCEPTED: int := 2

  /** term_esc_state. */
  datatype Mode = Norm | Esc | Csi

  /** Numeric parameters of a control sequence: the current one and the two before. */
  datatype Params = Params(now: nat, last: nat, older: nat)

  /** Everything in ReadlineState that bytes act upon; pos is the history line being
      browsed, or -1. */
  datatype Edit = Edit(line: Line, mode: Mode, params: Params, dec: Decoder, hist: seq<seq<byte>>, pos: int)

  /** What does not change while a line is edited. */
  datatype Setup = Setup(size: nat, historySize: nat, password: bool)

  /** A history line is an encoded text that fits the edit buffer. */
  predicate Stored(bytes: seq<byte>, size: nat) {
    |bytes| < size && Typed(DecodeAll(bytes)) && EncodeAll(DecodeAll(bytes)) == bytes
  }

  predicate AllStored(lines: seq<seq<byte>>, size: nat) {
    forall i :: 0 <= i < |lines| ==> Stored(lines[i], size)
  }

  /** The history position is -1 or that of a line (0 in an empty history). */
  predicate AtLine(s: Edit) {
    s.pos == -1 || (s.pos >= 0 && Browsing(|s.hist|, s.pos))
  }

  /** The invariant of the editor. */
  predicate Good(s: Edit, c: Setup) {
    && Sound(s.line) && |EncodeAll(s.line.text)| < c.size
    && AllLines(s.hist) && Distinct(s.hist) && |Pack(s.hist)| <= c.historySize && AllStored(s.hist, c.size)
    && AtLine(s)
    && Sane(s.dec)
  }

  /** readline_start. */
  function Start(s: Edit): Edit {
    s.(line := Line([], 0, s.line.kill), mode := Norm, dec := s.dec.(state := 0), pos := -1)
  }

  // ----- actions

  function SetLine(s: Edit, l: Line): Edit {
    s.(line := l)
  }

  function MoveTo(s: Edit, k: nat): Edit {
    s.(line := s.line.(cur := k))
  }

  /** update_cmdline_from_history. */
  function LoadAt(s: Edit, pos: nat): Edit
    requires pos < |s.hist|
  {
    var t := DecodeAll(s.hist[pos]);
    s.(line := Line(t, |t|, s.line.kill), pos := pos)
  }

  /** term_up_char. */
  function UpKey(s: Edit): Edit
    requires AtLine(s)
  {
    if GoesUp(|s.hist|, s.pos) then LoadAt(s, PosUp(|s.hist|, s.pos)) else s.(pos := 0)
  }

  /** term_down_char. */
  function DownKey(s: Edit): Edit {
    if s.pos < 0 then s
    else if s.pos + 1 < |s.hist| then LoadAt(s, s.pos + 1)
    else MoveTo(s.(pos := -1), |s.line.text|)
  }

  /** term_return. */
  function ReturnKey(s: Edit, c: Setup): Edit {
    var bytes := EncodeAll(s.line.text);
    var added := if c.password || |bytes| == 0 then s else s.(hist := AddLine(s.hist, bytes, c.historySize), pos := -1);
    MoveTo(added, |s.line.text|)
  }

  // ----- keys

  function NormKey(s: Edit, ch: nat, c: Setup): (Edit, int)
    requires Sound(s.line)
  {
    var l := s.line;
    if ch == 1 then (MoveTo(s, 0), HANDLED)
    else if ch == 4 then (if |l.text| == 0 then (s, EXIT) else (SetLine(s, Delete(l)), HANDLED))
    else if ch == 5 then (MoveTo(s, |l.text|), HANDLED)
    else if ch == 9 then (s, HANDLED)
    else if ch == 10 || ch == 13 then (ReturnKey(s, c), ACCEPTED)
    else if ch == 11 then (SetLine(s, KillTo(l, |l.text|, true)), HANDLED)
    else if ch == 21 then (SetLine(s, KillTo(l, 0, true)), HANDLED)
    else if ch == 23 then (SetLine(s, KillTo(l, WordLeft(l.text, l.cur), true)), HANDLED)
    else if ch == 25 then (SetLine(s, InsertIf(l, l.kill, c.size)), HANDLED)
    else if ch == 27 then (s.(mode := Esc), HANDLED)
    else if ch == 127 || ch == 8 then (SetLine(s, Backspace(l)), HANDLED)
    else if ch == 155 then (s.(mode := Csi), HANDLED)
    else if ch >= 32 then (SetLine(s, InsertIf(l, [ch], c.size)), HANDLED)
    else (s, NOT_HANDLED)
  }

  function EscKey(s: Edit, ch: nat, c: Setup): (Edit, int)
    requires Sound(s.line)
  {
    var l, n := s.line, s.(mode := Norm);
    if ch == '[' as int || ch == 'O' as int then (n.(mode := Csi, params := Params(0, 0, 0)), HANDLED)
    else if ch == 13 then (ReturnKey(n, c), HANDLED)
    else if ch == 8 || ch == 127 then (SetLine(n, KillTo(l, WordLeft(l.text, l.cur), true)), HANDLED)
    else if ch == 'b' as int then (MoveTo(n, WordLeft(l.text, l.cur)), HANDLED)
    else if ch == 'd' as int then (SetLine(n, KillTo(l, WordRight(l.text, l.cur), true)), HANDLED)
    else if ch == 'f' as int then (MoveTo(n, WordRight(l.text, l.cur)), HANDLED)
    else (n, NOT_HANDLED)
  }

  function CsiKey(s: Edit, ch: nat): (Edit, int)
    requires Sound(s.line) && AtLine(s)
  {
    var l, n := s.line, s.(mode := Norm);
    if ch == 'A' as int then (UpKey(n), HANDLED)
    else if ch == 'B' as int || ch == 'E' as int then (DownKey(n), HANDLED)
    else if ch == 'D' as int then (SetLine(n, Left(l)), HANDLED)
    else if ch == 'C' as int then (SetLine(n, Right(l)), HANDLED)
    else if ch == 'F' as int then (MoveTo(n, |l.text|), HANDLED)
    else if ch == 'H' as int then (MoveTo(n, 0), HANDLED)
    else if ch == ';' as int then (s.(params := Params(0, s.params.now, s.params.last)), HANDLED)
    else if '0' as int <= ch <= '9' as int then
      (s.(params := s.params.(now := s.params.now * 10 + (ch - '0' as int))), HANDLED)
    else if ch == '~' as int then
      if s.params.now == 1 then (MoveTo(n, 0), HANDLED)
      else if s.params.now == 3 then (SetLine(n, Delete(l)), HANDLED)
      else if s.params.now == 4 then (MoveTo(n, |l.text|), HANDLED)
      else (n, NOT_HANDLED)
    else (n, NOT_HANDLED)
  }

  /** readline_handle_char. */
  function HandleChar(s: Edit, ch: nat, c: Setup): (Edit, int)
    requires Sound(s.line) && AtLine(s)
  {
    match s.mode
    case Norm => NormKey(s, ch, c)
    case Esc => EscKey(s, ch, c)
    case Csi => CsiKey(s, ch)
  }

  /** readline_handle_byte. */
  function HandleByte(s: Edit, b: byte, c: Setup): (Edit, int)
    requires Sound(s.line) && AtLine(s)
  {
    var (dec, o) := Take(s.dec, b);
    var t := s.(dec := dec);
    if o.None? then (t, HANDLED) else HandleChar(t, o.c, c)
  }

  // ----- capacity

  /** Inserting n bytes is safe: they fit, or the check on the cursor refuses them. */
  predicate Fits(l: Line, n: nat, size: nat)
    requires Sound(l)
  {
    Pos(l.text, l.cur) + n < size ==> |EncodeAll(l.text)| + n < size
  }

  /** What the next character may not overrun. */
  predicate CharFits(s: Edit, ch: nat, c: Setup)
    requires Sound(s.line)
  {
    s.mode == Norm ==>
      && (Typable(ch) ==> Fits(s.line, |Encode(ch)|, c.size))
      && (ch == 25 ==> Fits(s.line, |EncodeAll(s.line.kill)|, c.size))
  }

  predicate ByteFits(s: Edit, b: byte, c: Setup)
    requires Sound(s.line)
  {
    var o := Take(s.dec, b).1;
    o.Some? ==> CharFits(s, o.c, c)
  }

  // ----- the invariant

  /** An insertion keeps the line inside the buffer exactly when it fits. */
  lemma InsertFits(l: Line, u: seq<nat>, size: nat)
    requires Sound(l) && Typed(u) && |EncodeAll(l.text)| < size
    ensures Sound(InsertIf(l, u, size))
    ensures |EncodeAll(InsertIf(l, u, size).text)| < size <==> Fits(l, |EncodeAll(u)|, size)
  {
    hide EncodeAll, Typed, Pos;
    InsertSound(l, u);
    Spliced(l.text, l.cur, l.cur, u, EncodeAll(l.text));
  }

  /** The check on the cursor alone lets a full line overrun: 'a' typed in front of "aa"
      in a buffer of three bytes leaves no room for the terminator. */
  lemma CursorCheckOverruns()
    ensures var l := Line([97, 97], 0, []);
            && Sound(l) && |EncodeAll(l.text)| < 3
            && !Fits(l, |Encode(97)|, 3) && |EncodeAll(InsertIf(l, [97], 3).text)| == 3
  {
    var l := Line([97, 97], 0, []);
    assert EncodeAll([97]) == [97] by { EncodeOne(97); }
    assert l.text == [97] + [97];
    EncodeConcat([97], [97]);
    PosEnds(l.text);
    Spliced(l.text, 0, 0, [97], EncodeAll(l.text));
  }

  /** Killing never makes the line longer. */
  lemma KillFits(l: Line, k: nat, save: bool)
    requires Sound(l) && k <= |l.text|
    ensures Sound(KillTo(l, k, save)) && |EncodeAll(KillTo(l, k, save).text)| <= |EncodeAll(l.text)|
  {
    hide EncodeAll, Typed, Pos;
    KillSound(l, k, save);
    var a, b := if k < l.cur then k else l.cur, if k < l.cur then l.cur else k;
    Spliced(l.text, a, b, [], EncodeAll(l.text));
    assert EncodeAll([]) == [] by { EmptyCode(); }
    assert l.text[..a] + [] + l.text[b..] == l.text[..a] + l.text[b..];
  }

  lemma EmptyCode()
    ensures EncodeAll([]) == []
  {}

  lemma DeleteFits(l: Line)
    requires Sound(l)
    ensures Sound(Delete(l)) && |EncodeAll(Delete(l).text)| <= |EncodeAll(l.text)|
    ensures Sound(Backspace(l)) && |EncodeAll(Backspace(l).text)| <= |EncodeAll(l.text)|
  {
    hide EncodeAll, Typed, Pos, KillTo;
    DeleteSound(l);
    if l.cur < |l.text| { KillFits(l, l.cur + 1, false); }
    if l.cur > 0 { KillFits(Left(l), l.cur, false); }
  }

  /** An accepted line can be stored, and being stored can be read back. */
  lemma LineStored(t: seq<nat>, size: nat)
    requires Typed(t) && |EncodeAll(t)| < size
    ensures Stored(EncodeAll(t), size) && DecodeAll(EncodeAll(t)) == t && 0 !in EncodeAll(t)
  {
    hide EncodeAll, DecodeAll, Typed;
    TypedValid(t);
    DecodeEncodeAll(t);
    NoZero(t);
  }

  lemma ReturnGood(s: Edit, c: Setup)
    requires Good(s, c)
    ensures Good(ReturnKey(s, c), c)
  {
    hide EncodeAll, DecodeAll, Typed, Pack, AllLines, Distinct, AddLine, Stored;
    var bytes := EncodeAll(s.line.text);
    LineStored(s.line.text, c.size);
    if !c.password && |bytes| > 0 {
      AddLineKeeps(s.hist, bytes, c.historySize);
      var new_ := AddLine(s.hist, bytes, c.historySize);
      forall i | 0 <= i < |new_| ensures Stored(new_[i], c.size) {
        assert new_[i] in new_;
      }
    }
  }

  lemma LoadGood(s: Edit, pos: nat, c: Setup)
    requires Good(s, c) && pos < |s.hist|
    ensures Good(LoadAt(s, pos), c)
  {
    hide EncodeAll, DecodeAll, Typed, Pack, AllLines, Distinct;
    assert Stored(s.hist[pos], c.size);
  }

  lemma LineGood(s: Edit, l: Line, c: Setup)
    requires Good(s, c) && Sound(l) && |EncodeAll(l.text)| < c.size
    ensures Good(SetLine(s, l), c)
  {}

  lemma MoveGood(s: Edit, k: nat, c: Setup)
    requires Good(s, c) && k <= |s.line.text|
    ensures Good(MoveTo(s, k), c)
  {}

  lemma NormGood(s: Edit, ch: nat, c: Setup)
    requires Good(s, c) && s.mode == Norm && ch < CODE_LIMIT && CharFits(s, ch, c)
    ensures Good(NormKey(s, ch, c).0, c)
  {
    hide Good, EncodeAll, Typed, Pos, Encode, KillTo, Delete, Backspace, InsertIf, WordLeft, ReturnKey, MoveTo, SetLine, Fits;
    GoodLine(s, c);
    DecSane(s, c);
    var l := s.line;
    ReturnGood(s, c);
    MoveGood(s, 0, c);
    MoveGood(s, |l.text|, c);
    DeleteFits(l);
    LineGood(s, Delete(l), c);
    LineGood(s, Backspace(l), c);
    KillFits(l, |l.text|, true);
    KillFits(l, 0, true);
    KillFits(l, WordLeft(l.text, l.cur), true);
    LineGood(s, KillTo(l, |l.text|, true), c);
    LineGood(s, KillTo(l, 0, true), c);
    LineGood(s, KillTo(l, WordLeft(l.text, l.cur), true), c);
    ModeGood(s, Esc, s.params, s.dec, c);
    ModeGood(s, Csi, s.params, s.dec, c);
    if ch == 25 {
      InsertFits(l, l.kill, c.size);
      LineGood(s, InsertIf(l, l.kill, c.size), c);
    } else if Typable(ch) {
      EncodeOne(ch);
      TypedOne(ch);
      InsertFits(l, [ch], c.size);
      LineGood(s, InsertIf(l, [ch], c.size), c);
    }
  }

  lemma TypedOne(c: nat)
    ensures Typable(c) ==> Typed([c])
  {}

  lemma GoodLine(s: Edit, c: Setup)
    requires Good(s, c)
    ensures Sound(s.line) && |EncodeAll(s.line.text)| < c.size
    ensures AtLine(s)
  {}

  lemma ModeGood(s: Edit, m: Mode, p: Params, d: Decoder, c: Setup)
    requires Good(s, c) && Sane(d)
    ensures Sane(s.dec) && Good(s.(mode := m), c) && Good(s.(params := p), c) && Good(s.(mode := m, params := p), c) && Good(s.(dec := d), c)
  {}

  lemma EscGood(s: Edit, ch: nat, c: Setup)
    requires Good(s, c)
    ensures Good(EscKey(s, ch, c).0, c)
  {
    hide Good, EncodeAll, Typed, KillTo, WordLeft, WordRight, ReturnKey, MoveTo, SetLine;
    GoodLine(s, c);
    DecSane(s, c);
    var l, n := s.line, s.(mode := Norm);
    ModeGood(s, Norm, s.params, s.dec, c);
    ModeGood(s, Csi, Params(0, 0, 0), s.dec, c);
    ReturnGood(n, c);
    KillFits(l, WordLeft(l.text, l.cur), true);
    KillFits(l, WordRight(l.text, l.cur), true);
    LineGood(n, KillTo(l, WordLeft(l.text, l.cur), true), c);
    LineGood(n, KillTo(l, WordRight(l.text, l.cur), true), c);
    MoveGood(n, WordLeft(l.text, l.cur), c);
    MoveGood(n, WordRight(l.text, l.cur), c);
  }

  lemma DecSane(s: Edit, c: Setup)
    requires Good(s, c)
    ensures Sane(s.dec)
  {}

  lemma UpDownGood(s: Edit, c: Setup)
    requires Good(s, c)
    ensures Good(UpKey(s), c) && Good(DownKey(s), c)
  {
    hide EncodeAll, DecodeAll, Typed, Pack, AllLines, Distinct, AllStored, LoadAt, Sane;
    if GoesUp(|s.hist|, s.pos) { LoadGood(s, PosUp(|s.hist|, s.pos), c); }
    if 0 <= s.pos && s.pos + 1 < |s.hist| { LoadGood(s, s.pos + 1, c); }
  }

  lemma CsiGood(s: Edit, ch: nat, c: Setup)
    requires Good(s, c)
    ensures Good(CsiKey(s, ch).0, c)
  {
    hide Good, EncodeAll, Typed, Delete, UpKey, DownKey, MoveTo, SetLine;
    GoodLine(s, c);
    DecSane(s, c);
    var l, n := s.line, s.(mode := Norm);
    ModeGood(s, Norm, s.params, s.dec, c);
    ModeGood(s, Norm, Params(0, s.params.now, s.params.last), s.dec, c);
    if '0' as int <= ch <= '9' as int {
      ModeGood(s, Norm, s.params.(now := s.params.now * 10 + (ch - '0' as int)), s.dec, c);
    }
    UpDownGood(n, c);
    DeleteFits(l);
    DeleteSound(l);
    LineGood(n, Delete(l), c);
    LineGood(n, Left(l), c);
    LineGood(n, Right(l), c);
    MoveGood(n, 0, c);
    MoveGood(n, |l.text|, c);
  }

  /** Every character keeps the invariant. */
  lemma CharGood(s: Edit, ch: nat, c: Setup)
    requires Good(s, c) && ch < CODE_LIMIT && CharFits(s, ch, c)
    ensures Good(HandleChar(s, ch, c).0, c)
  {
    hide Good, NormKey, EscKey, CsiKey, Sound, CharFits;
    GoodLine(s, c);
    match s.mode {
      case Norm => NormGood(s, ch, c);
      case Esc => EscGood(s, ch, c);
      case Csi => CsiGood(s, ch, c);
    }
  }

  /** Every byte keeps the invariant. */
  lemma ByteGood(s: Edit, b: byte, c: Setup)
    requires Good(s, c) && ByteFits(s, b, c)
    ensures Good(HandleByte(s, b, c).0, c)
  {
    hide Good, Take, HandleChar, Sane, Sound, CharFits;
    GoodLine(s, c);
    DecSane(s, c);
    TakeSane(s.dec, b);
    var (dec, o) := Take(s.dec, b);
    var t := s.(dec := dec);
    ModeGood(s, s.mode, s.params, dec, c);
    if o.Some? {
      CharFitsSame(s, t, o.c, c);
      CharGood(t, o.c, c);
    }
  }

  lemma CharFitsSame(s: Edit, t: Edit, ch: nat, c: Setup)
    requires Sound(s.line) && t.line == s.line && t.mode == s.mode
    ensures CharFits(s, ch, c) == CharFits(t, ch, c)
  {}

  // ----- runs

  /** A run of bytes, and whether every step is safe. */
  function Run(s: Edit, bytes: seq<byte>, c: Setup): Edit
    requires Good(s, c) && RunFits(s, bytes, c)
    decreases |bytes|
  {
    if |bytes| == 0 then s
    else
      ByteGood(s, bytes[0], c);
      Run(HandleByte(s, bytes[0], c).0, bytes[1..], c)
  }

  predicate RunFits(s: Edit, bytes: seq<byte>, c: Setup)
    requires Good(s, c)
    decreases |bytes|
  {
    |bytes| == 0 ||
    (ByteFits(s, bytes[0], c) &&
     (ByteGood(s, bytes[0], c);
      RunFits(HandleByte(s, bytes[0], c).0, bytes[1..], c)))
  }

  /** Over every run the line is a text of whole code points inside its buffer with
      the cursor on one of them, and the history a bounded list of distinct lines. */
  lemma {:induction false} RunGood(s: Edit, bytes: seq<byte>, c: Setup)
    requires Good(s, c) && RunFits(s, bytes, c)
    ensures Good(Run(s, bytes, c), c)
    decreases |bytes|
  {
    hide Good, ByteFits, HandleByte;
    GoodLine(s, c);
    if |bytes| > 0 {
      ByteGood(s, bytes[0], c);
      RunGood(HandleByte(s, bytes[0], c).0, bytes[1..], c);
    }
  }
}
