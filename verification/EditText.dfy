/** The edit line of readline.c as text: what each editing operation means for the
    code points on the line, the cursor and the kill buffer, and where code points
    lie in the encoded line. */
module EditText {
  import opened Utf8

  /** A code point that can get into the line. */
  predicate Typable(c: nat) {
    32 <= c < CODE_LIMIT && c != 127 && c != 155
  }

  predicate Typed(t: seq<nat>) {
    forall i :: 0 <= i < |t| ==> Typable(t[i])
  }

  /** isspace in the "C" locale. */
  predicate IsSpace(c: nat) {
    c == 32 || 9 <= c <= 13
  }

  /** The text, the cursor as a position in it, and what was last killed. */
  datatype Line = Line(text: seq<nat>, cur: nat, kill: seq<nat>)

  predicate Sound(l: Line) {
    l.cur <= |l.text| && Typed(l.text) && Typed(l.kill)
  }

  // ----- the operations

  /** The text between the cursor and position k goes, into the kill buffer if save. */
  function KillTo(l: Line, k: nat, save: bool): Line
    requires Sound(l) && k <= |l.text|
  {
    var a, b := if k < l.cur then k else l.cur, if k < l.cur then l.cur else k;
    if a == b then l
    else Line(l.text[..a] + l.text[b..], a, if save then l.text[a..b] else l.kill)
  }

  /** u goes in at the cursor, which ends up behind it. */
  function Insert(l: Line, u: seq<nat>): Line
    requires Sound(l)
  {
    Line(l.text[..l.cur] + u + l.text[l.cur..], l.cur + |u|, l.kill)
  }

  /** The insertion that readline.c makes if the cursor stays inside a buffer of that
      capacity. */
  function InsertIf(l: Line, u: seq<nat>, capacity: nat): Line
    requires Sound(l)
  {
    if Pos(l.text, l.cur) + |EncodeAll(u)| < capacity then Insert(l, u) else l
  }

  function Left(l: Line): Line {
    if l.cur > 0 then l.(cur := l.cur - 1) else l
  }

  function Right(l: Line): Line {
    if l.cur < |l.text| then l.(cur := l.cur + 1) else l
  }

  function Delete(l: Line): Line
    requires Sound(l)
  {
    if l.cur < |l.text| then KillTo(l, l.cur + 1, false) else l
  }

  function Backspace(l: Line): Line
    requires Sound(l)
  {
    if l.cur > 0 then Delete(Left(l)) else l
  }

  /** Back over spaces, or over other characters. */
  function LeftWhile(t: seq<nat>, k: nat, spaces: bool): (r: nat)
    requires k <= |t|
    ensures r <= k
  {
    if k > 0 && IsSpace(t[k - 1]) == spaces then LeftWhile(t, k - 1, spaces) else k
  }

  function RightWhile(t: seq<nat>, k: nat, spaces: bool): (r: nat)
    requires k <= |t|
    ensures k <= r <= |t|
    decreases |t| - k
  {
    if k < |t| && IsSpace(t[k]) == spaces then RightWhile(t, k + 1, spaces) else k
  }

  /** The start of the word before position k, and the end of the word after it. */
  function WordLeft(t: seq<nat>, k: nat): (r: nat)
    requires k <= |t|
    ensures r <= k
  {
    LeftWhile(t, LeftWhile(t, k, true), false)
  }

  function WordRight(t: seq<nat>, k: nat): (r: nat)
    requires k <= |t|
    ensures k <= r <= |t|
  {
    RightWhile(t, RightWhile(t, k, true), false)
  }

  // ----- laws of the operations

  lemma KillSound(l: Line, k: nat, save: bool)
    requires Sound(l) && k <= |l.text|
    ensures Sound(KillTo(l, k, save))
  {}

  lemma InsertSound(l: Line, u: seq<nat>)
    requires Sound(l) && Typed(u)
    ensures Sound(Insert(l, u))
  {}

  lemma DeleteSound(l: Line)
    requires Sound(l)
    ensures Sound(Delete(l)) && Sound(Backspace(l)) && Sound(Left(l)) && Sound(Right(l))
  {
    hide Typed;
    if l.cur < |l.text| { KillSound(l, l.cur + 1, false); }
    if l.cur > 0 { KillSound(Left(l), l.cur, false); }
  }

  /** Yanking what was just killed restores the text; the cursor ends up behind it. */
  lemma KillThenYank(l: Line, k: nat)
    requires Sound(l) && k <= |l.text| && k != l.cur
    ensures var killed := KillTo(l, k, true);
            Insert(killed, killed.kill) == Line(l.text, if k < l.cur then l.cur else k, killed.kill)
  {
    var killed := KillTo(l, k, true);
    var a, b := if k < l.cur then k else l.cur, if k < l.cur then l.cur else k;
    assert killed.text[..a] == l.text[..a] && killed.text[a..] == l.text[b..];
    assert l.text[..a] + l.text[a..b] + l.text[b..] == l.text;
  }

  /** Killing back over an insertion undoes it. */
  lemma InsertThenKill(l: Line, u: seq<nat>)
    requires Sound(l) && Typed(u) && |u| > 0
    ensures KillTo(Insert(l, u), l.cur, false) == l
    ensures |u| == 1 ==> Backspace(Insert(l, u)) == l
  {
    InsertSound(l, u);
    var m := Insert(l, u);
    assert m.text[..l.cur] == l.text[..l.cur] && m.text[m.cur..] == l.text[l.cur..];
    assert l.text[..l.cur] + l.text[l.cur..] == l.text;
  }

  /** Insertions one after the other are one insertion. */
  lemma InsertTwice(l: Line, u: seq<nat>, v: seq<nat>)
    requires Sound(l) && Typed(u)
    ensures Sound(Insert(l, u)) && Insert(Insert(l, u), v) == Insert(l, u + v)
  {
    InsertSound(l, u);
    var m := Insert(l, u);
    assert m.text[..m.cur] == l.text[..l.cur] + u && m.text[m.cur..] == l.text[l.cur..];
    assert l.text[..l.cur] + u + v + l.text[l.cur..] == l.text[..l.cur] + (u + v) + l.text[l.cur..];
  }

  /** Between a word's start and position k lie no spaces and then only spaces, and
      before the start is nothing or a space. */
  lemma {:induction false} LeftWhileIs(t: seq<nat>, k: nat, spaces: bool)
    requires k <= |t|
    ensures var r := LeftWhile(t, k, spaces);
            && (forall i :: r <= i < k ==> IsSpace(t[i]) == spaces)
            && (r > 0 ==> IsSpace(t[r - 1]) != spaces)
  {
    if k > 0 && IsSpace(t[k - 1]) == spaces {
      LeftWhileIs(t, k - 1, spaces);
    }
  }

  lemma {:induction false} RightWhileIs(t: seq<nat>, k: nat, spaces: bool)
    requires k <= |t|
    ensures var r := RightWhile(t, k, spaces);
            && (forall i :: k <= i < r ==> IsSpace(t[i]) == spaces)
            && (r < |t| ==> IsSpace(t[r]) != spaces)
    decreases |t| - k
  {
    if k < |t| && IsSpace(t[k]) == spaces {
      RightWhileIs(t, k + 1, spaces);
    }
  }

  // ----- positions in the encoded line

  /** Where code point k starts in the encoding. */
  function Pos(t: seq<nat>, k: nat): nat
    requires k <= |t|
  {
    |EncodeAll(t[..k])|
  }

  lemma TypedValid(t: seq<nat>)
    requires Typed(t)
    ensures ValidText(t)
  {}

  lemma PosEnds(t: seq<nat>)
    ensures Pos(t, 0) == 0 && Pos(t, |t|) == |EncodeAll(t)|
  {
    assert t[..0] == [] && t[..|t|] == t;
  }

  /** Cutting the encoding at the start of a code point cuts the text there. */
  lemma Cut(t: seq<nat>, k: nat, bytes: seq<byte>)
    requires k <= |t| && bytes == EncodeAll(t)
    ensures Pos(t, k) <= |bytes|
    ensures bytes[..Pos(t, k)] == EncodeAll(t[..k]) && bytes[Pos(t, k)..] == EncodeAll(t[k..])
  {
    hide EncodeAll;
    assert t == t[..k] + t[k..];
    EncodeConcat(t[..k], t[k..]);
  }

  lemma Cut2(t: seq<nat>, a: nat, b: nat, bytes: seq<byte>)
    requires a <= b <= |t| && bytes == EncodeAll(t)
    ensures Pos(t, a) <= Pos(t, b) <= |bytes|
    ensures bytes[..Pos(t, a)] == EncodeAll(t[..a])
    ensures bytes[Pos(t, a)..Pos(t, b)] == EncodeAll(t[a..b])
    ensures bytes[Pos(t, b)..] == EncodeAll(t[b..])
  {
    hide EncodeAll;
    Cut(t, a, bytes);
    Cut(t, b, bytes);
    assert t[..b] == t[..a] + t[a..b];
    EncodeConcat(t[..a], t[a..b]);
    assert bytes[..Pos(t, b)] == bytes[..Pos(t, a)] + EncodeAll(t[a..b]);
  }

  /** Further along the text is further along the encoding. */
  lemma PosGrows(t: seq<nat>, a: nat, b: nat)
    requires ValidText(t) && a < b <= |t|
    ensures Pos(t, a) < Pos(t, b)
  {
    hide EncodeAll;
    Cut2(t, a, b, EncodeAll(t));
    NotEmpty(t[a..b]);
  }

  lemma NotEmpty(t: seq<nat>)
    requires ValidText(t) && |t| > 0
    ensures |EncodeAll(t)| > 0
  {}

  /** Code point k in the encoding: its bytes, by which the cursor finds its way. */
  lemma CharAt(t: seq<nat>, k: nat, bytes: seq<byte>)
    requires ValidText(t) && k < |t| && bytes == EncodeAll(t)
    ensures Pos(t, k + 1) == Pos(t, k) + |Encode(t[k])| <= |bytes| && |Encode(t[k])| > 0
    ensures CharLen(bytes[Pos(t, k)]) == |Encode(t[k])| && !IsExt(bytes[Pos(t, k)])
    ensures forall j :: Pos(t, k) < j < Pos(t, k + 1) ==> IsExt(bytes[j])
    ensures forall j :: Pos(t, k) <= j < Pos(t, k + 1) ==> IsSpace(bytes[j]) == IsSpace(t[k])
    ensures IsSpace(t[k]) ==> Pos(t, k + 1) == Pos(t, k) + 1
  {
    hide EncodeAll, Encode, CharLen, IsExt, IsSpace;
    Cut2(t, k, k + 1, bytes);
    assert t[k..k + 1] == [t[k]];
    EncodeOne(t[k]);
    EncodeShape(t[k]);
    EncodeSpaces(t[k]);
    var p, e := Pos(t, k), Encode(t[k]);
    var q := Pos(t, k + 1);
    assert bytes[p..q] == e;
    assert forall j :: p <= j < q ==> bytes[j] == e[j - p];
  }

  /** A space is one byte, and no byte of another code point is one. */
  lemma EncodeSpaces(c: nat)
    requires c < CODE_LIMIT
    ensures forall j :: 0 <= j < |Encode(c)| ==> IsSpace(Encode(c)[j]) == IsSpace(c)
    ensures IsSpace(c) ==> |Encode(c)| == 1
  {}

  /** Typed text has no zero byte, so it can be a zero-terminated string. */
  lemma {:induction false} NoZero(t: seq<nat>)
    requires Typed(t)
    ensures 0 !in EncodeAll(t)
  {
    if |t| > 0 {
      NoZero(t[1..]);
      EncodeNoZero(t[0]);
    }
  }

  lemma EncodeNoZero(c: nat)
    requires Typable(c)
    ensures 0 !in Encode(c)
  {}

  /** Taking text out of the middle. */
  lemma Spliced(t: seq<nat>, a: nat, b: nat, u: seq<nat>, bytes: seq<byte>)
    requires a <= b <= |t| && bytes == EncodeAll(t)
    ensures Pos(t, a) <= Pos(t, b) <= |bytes|
    ensures var t' := t[..a] + u + t[b..];
            && EncodeAll(t') == bytes[..Pos(t, a)] + EncodeAll(u) + bytes[Pos(t, b)..]
            && Pos(t', a) == Pos(t, a) && Pos(t', a + |u|) == Pos(t, a) + |EncodeAll(u)|
  {
    hide EncodeAll;
    Cut2(t, a, b, bytes);
    EncodeConcat(t[..a] + u, t[b..]);
    EncodeConcat(t[..a], u);
    var t' := t[..a] + u + t[b..];
    assert t'[..a] == t[..a] && t'[..a + |u|] == t[..a] + u;
  }
}
