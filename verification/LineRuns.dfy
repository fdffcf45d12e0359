/** Laws of the line editor over whole runs of bytes. */
module LineRuns {
  import opened Utf8
  import opened EditText
  import opened PackedHistory
  import opened LineEditor

  /** A run of characters, and whether every step is safe. */
  function RunChars(s: Edit, cs: seq<nat>, c: Setup): Edit
    requires Good(s, c) && ValidText(cs) && CharsFit(s, cs, c)
    decreases |cs|
  {
    if |cs| == 0 then s
    else
      CharGood(s, cs[0], c);
      RunChars(HandleChar(s, cs[0], c).0, cs[1..], c)
  }

  predicate CharsFit(s: Edit, cs: seq<nat>, c: Setup)
    requires Good(s, c) && ValidText(cs)
    decreases |cs|
  {
    |cs| == 0 ||
    (CharFits(s, cs[0], c) &&
     (CharGood(s, cs[0], c);
      CharsFit(HandleChar(s, cs[0], c).0, cs[1..], c)))
  }

  /** A character acts the same whatever the decoder holds, and leaves it alone. */
  lemma CharIgnoresDecoder(s: Edit, d: Decoder, ch: nat, c: Setup)
    requires Sound(s.line) && AtLine(s)
    ensures HandleChar(s.(dec := d), ch, c).0 == HandleChar(s, ch, c).0.(dec := d)
  {
    hide NormKey, EscKey, CsiKey, Sound;
    match s.mode {
      case Norm => NormIgnoresDecoder(s, d, ch, c);
      case Esc => EscIgnoresDecoder(s, d, ch, c);
      case Csi => CsiIgnoresDecoder(s, d, ch);
    }
  }

  lemma NormIgnoresDecoder(s: Edit, d: Decoder, ch: nat, c: Setup)
    requires Sound(s.line)
    ensures NormKey(s.(dec := d), ch, c).0 == NormKey(s, ch, c).0.(dec := d)
  {
    hide EncodeAll, Sound, KillTo, Delete, Backspace, InsertIf, WordLeft, AddLine;
  }

  lemma EscIgnoresDecoder(s: Edit, d: Decoder, ch: nat, c: Setup)
    requires Sound(s.line)
    ensures EscKey(s.(dec := d), ch, c).0 == EscKey(s, ch, c).0.(dec := d)
  {
    hide EncodeAll, Sound, KillTo, WordLeft, WordRight, AddLine;
  }

  lemma CsiIgnoresDecoder(s: Edit, d: Decoder, ch: nat)
    requires Sound(s.line) && AtLine(s)
    ensures CsiKey(s.(dec := d), ch).0 == CsiKey(s, ch).0.(dec := d)
  {
    hide DecodeAll, Sound, Delete, Left, Right;
  }

  lemma {:induction false} CharsIgnoreDecoder(s: Edit, d: Decoder, cs: seq<nat>, c: Setup)
    requires Good(s, c) && Sane(d) && ValidText(cs)
    ensures Good(s.(dec := d), c)
    ensures CharsFit(s.(dec := d), cs, c) == CharsFit(s, cs, c)
    ensures CharsFit(s, cs, c) ==> RunChars(s.(dec := d), cs, c) == RunChars(s, cs, c).(dec := d)
    decreases |cs|
  {
    hide Good, CharFits, HandleChar, Sane, Sound;
    GoodLine(s, c);
    var s' := s.(dec := d);
    ModeGood(s, s.mode, s.params, d, c);
    if |cs| > 0 {
      CharFitsSame(s, s', cs[0], c);
      CharIgnoresDecoder(s, d, cs[0], c);
      if CharFits(s, cs[0], c) {
        CharGood(s, cs[0], c);
        CharsIgnoreDecoder(HandleChar(s, cs[0], c).0, d, cs[1..], c);
      }
    }
  }

  /** Bytes act through the characters they complete and in no other way. */
  lemma {:induction false} RunIsChars(s: Edit, bytes: seq<byte>, c: Setup)
    requires Good(s, c)
    ensures var (d, cs) := TakeAll(s.dec, bytes);
            && ValidText(cs) && RunFits(s, bytes, c) == CharsFit(s, cs, c)
            && (RunFits(s, bytes, c) ==> Run(s, bytes, c) == RunChars(s, cs, c).(dec := d))
    decreases |bytes|
  {
    hide Good, CharFits, HandleChar, Sane, Sound, Take;
    GoodLine(s, c);
    DecSane(s, c);
    TakeAllSane(s.dec, bytes);
    if |bytes| > 0 {
      var b, rest := bytes[0], bytes[1..];
      var (d1, o) := Take(s.dec, b);
      TakeSane(s.dec, b);
      ModeGood(s, s.mode, s.params, d1, c);
      var (d, cs) := TakeAll(d1, rest);
      if o.None? {
        RunIsChars(s.(dec := d1), rest, c);
        CharsIgnoreDecoder(s, d1, cs, c);
      } else {
        CharFitsSame(s, s.(dec := d1), o.c, c);
        CharIgnoresDecoder(s, d1, o.c, c);
        assert ([o.c] + cs)[1..] == cs;
        if CharFits(s, o.c, c) {
          CharGood(s, o.c, c);
          var s1 := HandleChar(s, o.c, c).0;
          ModeGood(s1, s1.mode, s1.params, d1, c);
          RunIsChars(s1.(dec := d1), rest, c);
          CharsIgnoreDecoder(s1, d1, cs, c);
        }
      }
    }
  }

  // ----- what keys do to a session

  /** Typing one character after the other inserts them all at the cursor. */
  lemma {:induction false} CharsInsert(s: Edit, t: seq<nat>, c: Setup)
    requires Good(s, c) && s.mode == Norm && Typed(t)
    requires |EncodeAll(s.line.text)| + |EncodeAll(t)| < c.size
    ensures ValidText(t) && CharsFit(s, t, c)
    ensures RunChars(s, t, c) == s.(line := Insert(s.line, t))
    decreases |t|
  {
    hide Good, EncodeAll, Encode, Pos, Typable;
    GoodLine(s, c);
    TypedValid(t);
    var l := s.line;
    if |t| == 0 {
      assert l.text[..l.cur] + t + l.text[l.cur..] == l.text;
    } else {
      var ch, rest := t[0], t[1..];
      assert [ch] + rest == t;
      EncodeConcat([ch], rest);
      EncodeOne(ch);
      CharInserts(s, ch, c);
      var s1 := s.(line := Insert(l, [ch]));
      CharGood(s, ch, c);
      CharsInsert(s1, rest, c);
      InsertTwice(l, [ch], rest);
    }
  }

  /** A typed character goes in at the cursor. */
  lemma CharInserts(s: Edit, ch: nat, c: Setup)
    requires Sound(s.line) && AtLine(s) && s.mode == Norm && Typable(ch)
    requires |EncodeAll(s.line.text)| + |Encode(ch)| < c.size
    ensures CharFits(s, ch, c) && HandleChar(s, ch, c).0 == s.(line := Insert(s.line, [ch]))
    ensures |EncodeAll(Insert(s.line, [ch]).text)| == |EncodeAll(s.line.text)| + |Encode(ch)|
  {
    hide EncodeAll, Encode, Pos, Typed;
    EncodeOne(ch);
    Spliced(s.line.text, s.line.cur, s.line.cur, [ch], EncodeAll(s.line.text));
  }

  /** The bytes of a text, typed in the normal state, insert exactly that text at the
      cursor, whatever broken sequence came before, and change nothing else but the
      decoder. */
  lemma TypeText(s: Edit, t: seq<nat>, c: Setup)
    requires Good(s, c) && s.mode == Norm && Typed(t)
    requires |EncodeAll(s.line.text)| + |EncodeAll(t)| < c.size
    ensures RunFits(s, EncodeAll(t), c)
    ensures Run(s, EncodeAll(t), c) == s.(line := Insert(s.line, t), dec := TakeAll(s.dec, EncodeAll(t)).0)
  {
    hide Good, EncodeAll, TakeAll, Insert, Typed;
    GoodLine(s, c);
    TypedValid(t);
    TakeText(s.dec, t);
    RunIsChars(s, EncodeAll(t), c);
    CharsInsert(s, t, c);
  }

  lemma {:induction false} RunCons(s: Edit, b: byte, rest: seq<byte>, c: Setup)
    requires Good(s, c) && ByteFits(s, b, c) && Good(HandleByte(s, b, c).0, c)
    ensures RunFits(s, [b] + rest, c) == RunFits(HandleByte(s, b, c).0, rest, c)
    ensures RunFits(s, [b] + rest, c) ==> Run(s, [b] + rest, c) == Run(HandleByte(s, b, c).0, rest, c)
  {
    hide Good, HandleByte, ByteFits;
    assert ([b] + rest)[1..] == rest;
  }

  /** A control byte below 128 acts at once. */
  lemma PlainKey(s: Edit, b: byte, c: Setup)
    requires Good(s, c) && (b < 32 || (b < 128 && s.mode != Norm))
    requires b != 25
    ensures ByteFits(s, b, c)
    ensures HandleByte(s, b, c) == HandleChar(s.(dec := Decoder(0, s.dec.val)), b, c)
    ensures Good(HandleByte(s, b, c).0, c)
  {
    hide Good, NormKey, EscKey, CsiKey;
    GoodLine(s, c);
    TakePlain(s.dec, b);
    ByteGood(s, b, c);
  }

  /** Return accepts the line: it becomes the last line of the history. */
  lemma ReturnAccepts(s: Edit, c: Setup)
    requires Good(s, c) && s.mode == Norm
    ensures ByteFits(s, 13, c) && HandleByte(s, 13, c).1 == ACCEPTED
    ensures var r := HandleByte(s, 13, c).0;
            && r.line == Line(s.line.text, |s.line.text|, s.line.kill)
            && (r.hist, r.pos) == (if c.password || |s.line.text| == 0 then (s.hist, s.pos)
                                   else (AddLine(s.hist, EncodeAll(s.line.text), c.historySize), -1))
            && (!c.password && 0 < |EncodeAll(s.line.text)| < c.historySize ==>
                  |r.hist| > 0 && r.hist[|r.hist| - 1] == EncodeAll(s.line.text))
            && (c.password ==> r.hist == s.hist)
            && (forall x :: x in r.hist ==> x in s.hist || x == EncodeAll(s.line.text))
  {
    hide EncodeAll, DecodeAll, Typed, Pack, Distinct, AddLine, AllStored, AllLines;
    PlainKey(s, 13, c);
    LineStored(s.line.text, c.size);
    EmptyCode();
    if |s.line.text| > 0 {
      TypedValid(s.line.text);
      NotEmpty(s.line.text);
    }
    if !c.password && |EncodeAll(s.line.text)| > 0 {
      AddLineKeeps(s.hist, EncodeAll(s.line.text), c.historySize);
    }
  }

  /** An accepted line comes back: after a restart, the up key (ESC [ A) shows the line
      last accepted, with the cursor at its end. */
  lemma AcceptThenUp(s: Edit, c: Setup)
    requires Good(s, c) && s.mode == Norm && !c.password
    requires 0 < |EncodeAll(s.line.text)| < c.historySize
    ensures var again := Start(HandleByte(s, 13, c).0);
            && Good(again, c) && RunFits(again, [27, '[' as int, 'A' as int], c)
            && Run(again, [27, '[' as int, 'A' as int], c).line == Line(s.line.text, |s.line.text|, s.line.kill)
  {
    hide Good, EncodeAll, DecodeAll, Typed, HandleByte, Run, RunFits, ByteFits;
    GoodLine(s, c);
    ReturnAccepts(s, c);
    PlainKey(s, 13, c);
    var r := HandleByte(s, 13, c).0;
    assert r.line.kill == s.line.kill by { ReturnKeeps(s, c); }
    var again := Start(r);
    StartGood(r, c);
    UpSequence(again, c);
    LineStored(s.line.text, c.size);
  }

  lemma ReturnKeeps(s: Edit, c: Setup)
    requires Good(s, c) && s.mode == Norm
    ensures HandleByte(s, 13, c).0.line.kill == s.line.kill
  {
    hide EncodeAll, AddLine, Good;
    PlainKey(s, 13, c);
  }

  lemma StartGood(s: Edit, c: Setup)
    requires Good(s, c)
    ensures Good(Start(s), c)
  {
    EmptyCode();
  }

  /** The bytes of the up key. */
  lemma UpSequence(s: Edit, c: Setup)
    requires Good(s, c) && s.mode == Norm && s.pos == -1 && |s.hist| > 0
    ensures RunFits(s, [27, '[' as int, 'A' as int], c)
    ensures var t := DecodeAll(s.hist[|s.hist| - 1]);
            Run(s, [27, '[' as int, 'A' as int], c).line == Line(t, |t|, s.line.kill)
  {
    hide Good, EncodeAll, DecodeAll, Run, RunFits, ByteFits;
    GoodLine(s, c);
    PlainKey(s, 27, c);
    var s1 := HandleByte(s, 27, c).0;
    GoodLine(s1, c);
    PlainKey(s1, '[' as int, c);
    var s2 := HandleByte(s1, '[' as int, c).0;
    GoodLine(s2, c);
    PlainKey(s2, 'A' as int, c);
    RunOne(s2, 'A' as int, c);
    RunCons(s1, '[' as int, ['A' as int], c);
    RunCons(s, 27, ['[' as int] + ['A' as int], c);
    assert [27] + (['[' as int] + ['A' as int]) == [27, '[' as int, 'A' as int];
  }

  lemma RunOne(s: Edit, b: byte, c: Setup)
    requires Good(s, c) && ByteFits(s, b, c)
    ensures RunFits(s, [b], c) && Run(s, [b], c) == HandleByte(s, b, c).0
  {
    hide Good, ByteFits, HandleByte;
    ByteGood(s, b, c);
    assert [b][1..] == [];
  }

  /** k times up. */
  function Ups(s: Edit, k: nat): (r: Edit)
    requires AtLine(s)
    ensures AtLine(r) && r.hist == s.hist
  {
    if k == 0 then s else UpKey(Ups(s, k - 1))
  }

  /** From a line being edited, k times up shows the k-th line from the end of the
      history; more than there are lines, the oldest. */
  lemma {:induction false} UpsShow(s: Edit, k: nat)
    requires s.pos == -1 && k >= 1 && |s.hist| > 0
    ensures AtLine(s)
    ensures var n := |s.hist|; var at := if k <= n then n - k else 0;
            Ups(s, k).pos == at && Ups(s, k).line == LoadAt(s, at).line
    decreases k
  {
    hide DecodeAll;
    if k > 1 {
      UpsShow(s, k - 1);
    }
  }

  /** Down undoes up between lines of the history. */
  lemma UpThenDown(s: Edit)
    requires 0 < s.pos < |s.hist|
    ensures AtLine(s) && DownKey(UpKey(s)) == LoadAt(s, s.pos)
  {
    hide DecodeAll;
  }
}
