/** readline_handle_byte on the mutable editor state, proved to be the state machine
    of LineEditor step by step and over every run of bytes. */
module Readline {
  import opened Utf8
  import opened EditText
  import opened PackedHistory
  import opened LineEditor
  import opened LineBuffer

  class Readline {
    const cmd: EditBuffer
    const hist: History
    var password: bool
    var utf8State: nat
    var utf8Val: nat
    var mode: Mode
    var params: Params

    ghost predicate Valid()
      reads this, cmd, cmd.buf, cmd.kill, hist, hist.buf
    {
      && cmd.Valid() && hist.Valid() && hist.buf != cmd.buf && hist.buf != cmd.kill
      && AllStored(hist.lines, cmd.buf.Length)
      && Sane(Decoder(utf8State, utf8Val))
    }

    /** The abstract state. */
    ghost function State(): Edit
      reads this, cmd, hist
    {
      Edit(cmd.line, mode, params, Decoder(utf8State, utf8Val), hist.lines, hist.Pos())
    }

    ghost function Config(): Setup
      reads this
    {
      Setup(cmd.buf.Length, hist.buf.Length, password)
    }

    constructor (size: nat, historySize: nat)
      requires size > 0 && historySize > 0
      ensures Valid() && Config() == Setup(size, historySize, false)
      ensures State() == Edit(Line([], 0, []), Norm, Params(0, 0, 0), Decoder(0, 0), [], -1)
    {
      cmd := new EditBuffer(size);
      hist := new History(historySize);
      password, utf8State, utf8Val, mode, params := false, 0, 0, Norm, Params(0, 0, 0);
    }

    /** The abstract state of a valid editor meets the invariant of the state machine. */
    lemma ValidGood()
      requires Valid()
      ensures Good(State(), Config())
    {
      hide EncodeAll, Pack, Offset, AllLines, Distinct, AllStored, Typed, Pos;
    }

    /** readline_start. */
    method Start(isPassword: bool)
      requires Valid()
      modifies this, cmd, hist
      ensures Valid() && State() == LineEditor.Start(old(State())) && Config() == old(Config()).(password := isPassword)
    {
      hide EncodeAll, Pack, Offset, AllLines, Distinct, AllStored, Typed, Pos;
      password := isPassword;
      hist.Reset();
      cmd.Clear();
      mode, utf8State := Norm, 0;
    }

    /** term_return. */
    method Return()
      requires Valid()
      modifies cmd`index, cmd`line, cmd.buf, hist, hist.buf
      ensures Valid() && State() == ReturnKey(old(State()), Config())
    {
      hide EncodeAll, DecodeAll, Pack, Offset, AllLines, Distinct, Typed, Pos, AddLine, Stored, Sane;
      ValidGood();
      ghost var t, s := cmd.line.text, State();
      LineStored(t, cmd.buf.Length);
      ReturnGood(s, Config());
      AddNothing(s.hist, hist.buf.Length);
      cmd.Terminate();
      if !password {
        hist.Add(cmd.buf, EncodeAll(t));
      }
      cmd.Eol();
    }

    /** term_up_char. */
    method Up()
      requires Valid()
      modifies cmd`index, cmd`len, cmd`line, cmd.buf, hist`entry, hist`at
      ensures Valid() && State() == UpKey(old(State()))
    {
      hide EncodeAll, DecodeAll, Pack, Offset, AllLines, Distinct, Typed, Pos, Sane;
      ValidGood();
      var moved, p, n := hist.Up();
      if moved {
        assert Stored(hist.lines[hist.Pos()], cmd.buf.Length);
        cmd.Load(hist.buf, p, n, DecodeAll(hist.lines[hist.Pos()]));
      }
    }

    /** term_down_char. */
    method Down()
      requires Valid()
      modifies cmd`index, cmd`len, cmd`line, cmd.buf, hist`entry, hist`at
      ensures Valid() && State() == DownKey(old(State()))
    {
      hide EncodeAll, DecodeAll, Pack, Offset, AllLines, Distinct, Typed, Pos, Sane;
      ValidGood();
      if hist.entry == -1 {
        return;
      }
      var moved, p, n := hist.Down();
      if moved {
        assert Stored(hist.lines[hist.Pos()], cmd.buf.Length);
        cmd.Load(hist.buf, p, n, DecodeAll(hist.lines[hist.Pos()]));
      } else {
        cmd.Eol();
      }
    }

    /** readline_handle_char in the normal state. */
    method HandleNorm(ch: nat) returns (ret: int)
      requires Valid() && mode == Norm && ch < CODE_LIMIT && CharFits(State(), ch, Config())
      modifies this`mode, cmd, cmd.buf, cmd.kill, hist, hist.buf
      ensures Valid() && (State(), ret) == NormKey(old(State()), ch, Config())
    {
      hide EncodeAll, Encode, DecodeAll, Pack, Offset, AllLines, Distinct, Typed, Pos, Sane, KillTo, Delete, Backspace, InsertIf, WordLeft, ReturnKey;
      ghost var before := cmd.line;
      ret := HANDLED;
      match ch {
        case 1 => cmd.Bol();
        case 4 =>
          cmd.Bounds();
          if cmd.len == 0 {
            return EXIT;
          }
          cmd.DeleteChar();
        case 5 => cmd.Eol();
        case 9 =>
        case 10 =>
          Return();
          ret := ACCEPTED;
        case 13 =>
          Return();
          ret := ACCEPTED;
        case 11 =>
          PosEnds(cmd.line.text);
          cmd.KillRegion(cmd.len, true, |cmd.line.text|);
        case 21 =>
          PosEnds(cmd.line.text);
          cmd.KillRegion(0, true, 0);
        case 23 =>
          var pos := cmd.SkipWordBackward();
          cmd.KillRegion(pos, true, WordLeft(cmd.line.text, cmd.line.cur));
        case 25 => cmd.Yank();
        case 27 => mode := Esc;
        case 127 => cmd.BackspaceChar();
        case 8 => cmd.BackspaceChar();
        case 155 => mode := Csi;
        case _ =>
          if ch >= 32 {
            cmd.InsertChar(ch);
          } else {
            ret := NOT_HANDLED;
          }
      }
    }

    /** readline_handle_char after an escape. */
    method HandleEsc(ch: nat) returns (ret: int)
      requires Valid() && mode == Esc
      modifies this`mode, this`params, cmd, cmd.buf, cmd.kill, hist, hist.buf
      ensures Valid() && (State(), ret) == EscKey(old(State()), ch, Config())
    {
      hide EncodeAll, Encode, DecodeAll, Pack, Offset, AllLines, Distinct, Typed, Pos, Sane, KillTo, WordLeft, WordRight, ReturnKey;
      ret, mode := HANDLED, Norm;
      if ch == '[' as int || ch == 'O' as int {
        mode, params := Csi, Params(0, 0, 0);
      } else if ch == 13 {
        Return();
      } else if ch == 8 || ch == 127 {
        var pos := cmd.SkipWordBackward();
        cmd.KillRegion(pos, true, WordLeft(cmd.line.text, cmd.line.cur));
      } else if ch == 'b' as int {
        var pos := cmd.SkipWordBackward();
        cmd.MoveTo(pos, WordLeft(cmd.line.text, cmd.line.cur));
      } else if ch == 'd' as int {
        var pos := cmd.SkipWordForward();
        cmd.KillRegion(pos, true, WordRight(cmd.line.text, cmd.line.cur));
      } else if ch == 'f' as int {
        var pos := cmd.SkipWordForward();
        cmd.MoveTo(pos, WordRight(cmd.line.text, cmd.line.cur));
      } else {
        ret := NOT_HANDLED;
      }
    }

    /** readline_handle_char in a control sequence. */
    method HandleCsi(ch: nat) returns (ret: int)
      requires Valid() && mode == Csi
      modifies this`mode, this`params, cmd, cmd.buf, cmd.kill, hist`entry, hist`at
      ensures Valid() && AtLine(old(State())) && (State(), ret) == CsiKey(old(State()), ch)
    {
      hide EncodeAll, Encode, DecodeAll, Pack, Offset, AllLines, Distinct, Typed, Pos, Sane, Delete, UpKey, DownKey;
      ValidGood();
      ret, mode := HANDLED, Norm;
      if ch == 'A' as int {
        Up();
      } else if ch == 'B' as int || ch == 'E' as int {
        Down();
      } else if ch == 'D' as int {
        cmd.Backward();
      } else if ch == 'C' as int {
        cmd.Forward();
      } else if ch == 'F' as int {
        cmd.Eol();
      } else if ch == 'H' as int {
        cmd.Bol();
      } else if ch == ';' as int {
        params := Params(0, params.now, params.last);
        mode := Csi;
      } else if '0' as int <= ch <= '9' as int {
        params := params.(now := params.now * 10 + (ch - '0' as int));
        mode := Csi;
      } else if ch == '~' as int {
        match params.now {
          case 1 => cmd.Bol();
          case 3 => cmd.DeleteChar();
          case 4 => cmd.Eol();
          case _ => ret := NOT_HANDLED;
        }
      } else {
        ret := NOT_HANDLED;
      }
    }

    /** readline_handle_char. */
    method HandleChar(ch: nat) returns (ret: int)
      requires Valid() && ch < CODE_LIMIT && CharFits(State(), ch, Config())
      modifies this`mode, this`params, cmd, cmd.buf, cmd.kill, hist, hist.buf
      ensures Valid() && AtLine(old(State())) && (State(), ret) == LineEditor.HandleChar(old(State()), ch, Config())
    {
      hide EncodeAll, Encode, DecodeAll, Pack, Offset, AllLines, Distinct, Typed, Pos, Sane, NormKey, EscKey, CsiKey;
      ValidGood();
      match mode {
        case Norm => ret := HandleNorm(ch);
        case Esc => ret := HandleEsc(ch);
        case Csi => ret := HandleCsi(ch);
      }
    }

    /** readline_handle_byte. */
    method HandleByte(b: byte) returns (ret: int)
      requires Valid() && ByteFits(State(), b, Config())
      modifies this`mode, this`params, this`utf8State, this`utf8Val, cmd, cmd.buf, cmd.kill, hist, hist.buf
      ensures Valid() && AtLine(old(State())) && (State(), ret) == LineEditor.HandleByte(old(State()), b, Config())
    {
      hide EncodeAll, Encode, DecodeAll, Pack, Offset, AllLines, Distinct, AllStored, Typed, Pos, CharFits, LineEditor.HandleChar;
      ValidGood();
      TakeSane(Decoder(utf8State, utf8Val), b);
      var c: nat := b;
      if b >= 0xc0 && b < 0xf8 {
        utf8State := 1 + (if b >= 0xe0 then 1 else 0) + (if b >= 0xf0 then 1 else 0);
        utf8Val := b % (if utf8State == 1 then 0x20 else if utf8State == 2 then 0x10 else 8);
        return HANDLED;
      }
      if utf8State != 0 {
        if b >= 0x80 && b < 0xc0 {
          utf8Val := utf8Val * 0x40 + b % 0x40;
          utf8State := utf8State - 1;
          if utf8State != 0 {
            return HANDLED;
          }
          c := utf8Val;
        }
        utf8State := 0;
      }
      CharFitsSame(old(State()), State(), c, Config());
      ret := HandleChar(c);
    }

    /** A run of bytes, as the caller's loop feeds them in. */
    method Feed(bytes: seq<byte>)
      requires Valid() && Good(State(), Config()) && RunFits(State(), bytes, Config())
      modifies this`mode, this`params, this`utf8State, this`utf8Val, cmd, cmd.buf, cmd.kill, hist, hist.buf
      ensures Valid() && State() == Run(old(State()), bytes, Config())
      ensures var l := State().line;
              && cmd.buf[..cmd.len] == EncodeAll(l.text) && l.cur <= |l.text| && cmd.index == |EncodeAll(l.text[..l.cur])|
              && cmd.kill[..cmd.killLen] == EncodeAll(l.kill) && hist.buf[..hist.size] == Pack(State().hist)
    {
      hide EncodeAll, Pack, Offset, AllLines, Distinct, AllStored, Typed, Pos, ByteFits, LineEditor.HandleByte;
      var i := 0;
      ghost var s, c := State(), Config();
      while i < |bytes|
        invariant 0 <= i <= |bytes|
        invariant Valid() && Config() == c && Good(State(), c)
        invariant RunFits(State(), bytes[i..], c) && Run(State(), bytes[i..], c) == Run(s, bytes, c)
      {
        ghost var now := State();
        RunStep(now, bytes[i..], c);
        var ret := HandleByte(bytes[i]);
        assert bytes[i..][1..] == bytes[i + 1..];
        i := i + 1;
      }
      PosMeans(cmd.line.text, cmd.line.cur);
    }
  }

  lemma PosMeans(t: seq<nat>, k: nat)
    requires k <= |t|
    ensures Pos(t, k) == |EncodeAll(t[..k])|
  {}

  /** The first step of a run. */
  lemma RunStep(s: Edit, bytes: seq<byte>, c: Setup)
    requires |bytes| > 0 && Good(s, c) && RunFits(s, bytes, c)
    ensures ByteFits(s, bytes[0], c)
    ensures var s1 := HandleByte(s, bytes[0], c).0;
            && Good(s1, c) && RunFits(s1, bytes[1..], c) && Run(s, bytes, c) == Run(s1, bytes[1..], c)
  {
    hide Good, ByteFits, HandleByte;
    GoodLine(s, c);
    ByteGood(s, bytes[0], c);
  }
}
