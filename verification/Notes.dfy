// The notes editor: a bounded text buffer, line moves with a preferred column, and a bounded
// undo and redo log of edits.
module Notes {
  import opened Bytes

  const CAPACITY: nat := 2048
  const HISTORY: nat := 8
  const PAYLOAD: nat := 4

  datatype EditKind = Insert | Erase
  datatype Edit = Edit(kind: EditKind, position: nat, cursorBefore: nat, cursorAfter: nat, bytes: seq<char>,
    dirtyBefore: bool, dirtyAfter: bool)

  // ---- texts ----

  function Inserted(t: seq<char>, p: nat, bytes: seq<char>): (r: seq<char>)
    requires p <= |t|
  {
    t[..p] + bytes + t[p..]
  }

  function Erased(t: seq<char>, p: nat, n: nat): (r: seq<char>)
    requires p + n <= |t|
  {
    t[..p] + t[p + n..]
  }

  lemma EraseInserted(t: seq<char>, p: nat, bytes: seq<char>)
    requires p <= |t|
    ensures |Inserted(t, p, bytes)| == |t| + |bytes| && Inserted(t, p, bytes)[p..p + |bytes|] == bytes
    ensures Erased(Inserted(t, p, bytes), p, |bytes|) == t
  {
  }

  // A gap opened by moving the tail up, then filled.
  lemma InsertedInPlace(a: seq<char>, b: seq<char>, c: seq<char>, n: nat, p: nat, bytes: seq<char>)
    requires p <= n && n + |bytes| < |a| == |b| == |c|
    requires b[..p + |bytes|] == a[..p + |bytes|] && b[p + |bytes|..n + |bytes| + 1] == a[p..n + 1]
    requires c[..p] == b[..p] && c[p..p + |bytes|] == bytes && c[p + |bytes|..] == b[p + |bytes|..]
    ensures c[..n + |bytes|] == Inserted(a[..n], p, bytes)
  {
    var k := |bytes|;
    assert c[..p] == a[..p] by { assert b[..p] == b[..p + k][..p]; }
    assert c[p + k..n + k] == a[p..n] by {
      assert c[p + k..n + k] == c[p + k..][..n - p] && b[p + k..n + k] == b[p + k..][..n - p];
      assert b[p + k..n + k] == b[p + k..n + k + 1][..n - p] && a[p..n] == a[p..n + 1][..n - p];
    }
    assert c[..n + k] == c[..p] + c[p..p + k] + c[p + k..n + k];
  }

  lemma InsertErased(t: seq<char>, p: nat, n: nat)
    requires p + n <= |t|
    ensures |Erased(t, p, n)| == |t| - n && Inserted(Erased(t, p, n), p, t[p..p + n]) == t
  {
  }

  // ---- history ----

  // What a run has shown: the text and its dirty flag.
  datatype Snapshot = Snapshot(text: seq<char>, dirty: bool)

  // The edit `e` led from `a` to `b`.
  ghost predicate Links(a: Snapshot, e: Edit, b: Snapshot) {
    && 0 < |e.bytes| <= PAYLOAD && |a.text| < CAPACITY && |b.text| < CAPACITY
    && e.cursorBefore <= |a.text| && e.cursorAfter <= |b.text|
    && e.dirtyBefore == a.dirty && e.dirtyAfter == b.dirty
    && match e.kind {
         case Insert => e.position <= |a.text| && b.text == Inserted(a.text, e.position, e.bytes)
         case Erase => e.position <= |b.text| && a.text == Inserted(b.text, e.position, e.bytes)
       }
  }

  lemma InsertLinks(a: Snapshot, c: nat, bytes: seq<char>)
    requires 0 < |bytes| <= PAYLOAD && |a.text| + |bytes| < CAPACITY && c <= |a.text|
    ensures Links(a, Edit(Insert, c, c, c + |bytes|, bytes, a.dirty, true), Snapshot(Inserted(a.text, c, bytes), true))
  {
    EraseInserted(a.text, c, bytes);
  }

  lemma EraseLinks(a: Snapshot, c: nat, p: nat)
    requires |a.text| < CAPACITY && p <= c <= |a.text| && p < |a.text|
    ensures Links(a, Edit(Erase, p, c, p, [a.text[p]], a.dirty, true), Snapshot(Erased(a.text, p, 1), true))
  {
    InsertErased(a.text, p, 1);
    assert a.text[p..p + 1] == [a.text[p]];
  }

  // The timeline of the current branch: the undo log covers the steps just before `now`, the
  // redo log (top first) every step after it.
  ghost predicate History(timeline: seq<Snapshot>, now: nat, undo: seq<Edit>, redo: seq<Edit>) {
    && |undo| + |redo| <= HISTORY && |undo| <= now && |timeline| == now + 1 + |redo|
    && (forall i :: 0 <= i < |undo| ==> Links(timeline[now - |undo| + i], undo[i], timeline[now - |undo| + i + 1]))
    && (forall i :: 0 <= i < |redo| ==> Links(timeline[now + |redo| - 1 - i], redo[i], timeline[now + |redo| - i]))
  }

  lemma LinksBounds(a: Snapshot, e: Edit, b: Snapshot)
    requires Links(a, e, b)
    ensures e.cursorBefore <= |a.text| && e.cursorAfter <= |b.text| && e.dirtyBefore == a.dirty &&
      e.dirtyAfter == b.dirty
  {
  }

  // `push`: a full log drops its oldest edit.
  function Pushed(s: seq<Edit>, e: Edit): (r: seq<Edit>)
    ensures |s| <= HISTORY ==> |r| == Min(|s| + 1, HISTORY)
    ensures |r| > 0 && r[|r| - 1] == e
  {
    if |s| == HISTORY then s[1..] + [e] else s + [e]
  }

  lemma HistoryEdit(timeline: seq<Snapshot>, now: nat, undo: seq<Edit>, redo: seq<Edit>, e: Edit, b: Snapshot)
    requires History(timeline, now, undo, redo) && Links(timeline[now], e, b)
    ensures History(timeline[..now + 1] + [b], now + 1, Pushed(undo, e), [])
  {
    hide Links;
    var t, u := timeline[..now + 1] + [b], Pushed(undo, e);
    var d := |undo| + 1 - |u|;
    forall i | 0 <= i < |u|
      ensures Links(t[now + 1 - |u| + i], u[i], t[now + 2 - |u| + i])
    {
      if i < |u| - 1 {
        assert u[i] == undo[i + d];
        assert Links(timeline[now - |undo| + (i + d)], undo[i + d], timeline[now - |undo| + (i + d) + 1]);
      }
    }
  }

  lemma HistoryUndo(timeline: seq<Snapshot>, now: nat, undo: seq<Edit>, redo: seq<Edit>)
    requires History(timeline, now, undo, redo) && |undo| > 0
    ensures 0 < now < |timeline| && Pushed(redo, undo[|undo| - 1]) == redo + [undo[|undo| - 1]]
    ensures var e := undo[|undo| - 1];
      Links(timeline[now - 1], e, timeline[now]) && History(timeline, now - 1, undo[..|undo| - 1], Pushed(redo, e))
  {
    hide Links;
    var n := |undo| - 1;
    var e := undo[n];
    assert Links(timeline[now - |undo| + n], undo[n], timeline[now - |undo| + n + 1]);
    var u, r := undo[..n], Pushed(redo, e);
    forall i | 0 <= i < n
      ensures Links(timeline[now - 1 - n + i], u[i], timeline[now - 1 - n + i + 1])
    {
      assert Links(timeline[now - |undo| + i], undo[i], timeline[now - |undo| + i + 1]);
    }
    forall i | 0 <= i < |r|
      ensures Links(timeline[now - 1 + |r| - 1 - i], r[i], timeline[now - 1 + |r| - i])
    {
      if i < |redo| {
        assert Links(timeline[now + |redo| - 1 - i], redo[i], timeline[now + |redo| - i]);
      }
    }
  }

  lemma HistoryRedo(timeline: seq<Snapshot>, now: nat, undo: seq<Edit>, redo: seq<Edit>)
    requires History(timeline, now, undo, redo) && |redo| > 0
    ensures now + 1 < |timeline| && Pushed(undo, redo[|redo| - 1]) == undo + [redo[|redo| - 1]]
    ensures var e := redo[|redo| - 1];
      Links(timeline[now], e, timeline[now + 1]) && History(timeline, now + 1, Pushed(undo, e), redo[..|redo| - 1])
  {
    hide Links;
    var n := |redo| - 1;
    assert Links(timeline[now + |redo| - 1 - n], redo[n], timeline[now + |redo| - n]);
    var u := Pushed(undo, redo[n]);
    forall i | 0 <= i < |u|
      ensures Links(timeline[now + 1 - |u| + i], u[i], timeline[now + 1 - |u| + i + 1])
    {
      if i < |undo| {
        assert Links(timeline[now - |undo| + i], undo[i], timeline[now - |undo| + i + 1]);
      }
    }
  }

  // ---- lines ----

  function StartOf(t: seq<char>, o: nat): (s: nat)
    requires o <= |t|
    ensures s <= o
  {
    if o == 0 || t[o - 1] == '\n' then o else StartOf(t, o - 1)
  }

  function EndOf(t: seq<char>, o: nat): (e: nat)
    requires o <= |t|
    ensures o <= e <= |t|
    decreases |t| - o
  {
    if o == |t| || t[o] == '\n' then o else EndOf(t, o + 1)
  }

  // `s` and `e` bound one line.
  ghost predicate Line(t: seq<char>, s: nat, e: nat) {
    && s <= e <= |t| && (s == 0 || t[s - 1] == '\n') && (e == |t| || t[e] == '\n')
    && forall i :: s <= i < e ==> t[i] != '\n'
  }

  lemma {:induction false} StartIs(t: seq<char>, o: nat, s: nat)
    requires s <= o <= |t| && (s == 0 || t[s - 1] == '\n') && forall i :: s <= i < o ==> t[i] != '\n'
    ensures StartOf(t, o) == s
    decreases o
  {
    if o > s {
      StartIs(t, o - 1, s);
    }
  }

  lemma {:induction false} EndIs(t: seq<char>, o: nat, e: nat)
    requires o <= e <= |t| && (e == |t| || t[e] == '\n') && forall i :: o <= i < e ==> t[i] != '\n'
    ensures EndOf(t, o) == e
    decreases e - o
  {
    if o < e {
      EndIs(t, o + 1, e);
    }
  }

  lemma {:induction false} StartStops(t: seq<char>, o: nat)
    requires o <= |t|
    ensures var s := StartOf(t, o); (s == 0 || t[s - 1] == '\n') && forall i :: s <= i < o ==> t[i] != '\n'
  {
    if o != 0 && t[o - 1] != '\n' {
      StartStops(t, o - 1);
    }
  }

  lemma {:induction false} EndStops(t: seq<char>, o: nat)
    requires o <= |t|
    ensures var e := EndOf(t, o); (e == |t| || t[e] == '\n') && forall i :: o <= i < e ==> t[i] != '\n'
    decreases |t| - o
  {
    if o != |t| && t[o] != '\n' {
      EndStops(t, o + 1);
    }
  }

  // An offset lies on exactly one line, the one between its start and its end.
  lemma OnLine(t: seq<char>, o: nat, s: nat, e: nat)
    requires s <= o <= e
    ensures Line(t, s, e) <==> o <= |t| && s == StartOf(t, o) && e == EndOf(t, o)
  {
    if Line(t, s, e) {
      StartIs(t, o, s);
      EndIs(t, o, e);
    }
    if o <= |t| && s == StartOf(t, o) && e == EndOf(t, o) {
      StartStops(t, o);
      EndStops(t, o);
    }
  }

  // The cursor stands at the preferred column, or at the end of a shorter line.
  ghost predicate AtColumn(t: seq<char>, c: nat, p: nat) {
    c <= |t| && c == StartOf(t, c) + Min(p, EndOf(t, c) - StartOf(t, c))
  }

  function Down(t: seq<char>, c: nat, p: nat): (r: nat)
    requires c <= |t|
    ensures r <= |t|
  {
    if EndOf(t, c) == |t| then c else
      var s := EndOf(t, c) + 1;
      s + Min(p, EndOf(t, s) - s)
  }

  function Up(t: seq<char>, c: nat, p: nat): (r: nat)
    requires c <= |t|
    ensures r <= |t|
  {
    if StartOf(t, c) == 0 then c else
      var s := StartOf(t, StartOf(t, c) - 1);
      s + Min(p, EndOf(t, s) - s)
  }

  lemma DownKeepsColumn(t: seq<char>, c: nat, p: nat)
    requires AtColumn(t, c, p)
    ensures AtColumn(t, Down(t, c, p), p)
  {
    if EndOf(t, c) < |t| {
      EndStops(t, c);
      var s := EndOf(t, c) + 1;
      var e := EndOf(t, s);
      OnLine(t, s, s, e);
      OnLine(t, Down(t, c, p), s, e);
    }
  }

  lemma UpKeepsColumn(t: seq<char>, c: nat, p: nat)
    requires AtColumn(t, c, p)
    ensures AtColumn(t, Up(t, c, p), p)
  {
    var s := StartOf(t, c);
    if s > 0 {
      var before := StartOf(t, s - 1);
      var e := EndOf(t, s - 1);
      OnLine(t, s - 1, before, e);
      OnLine(t, before, before, e);
      OnLine(t, Up(t, c, p), before, e);
    }
  }

  // Moving down a line and up again comes back, through lines of any length.
  lemma UpAfterDown(t: seq<char>, c: nat, p: nat)
    requires AtColumn(t, c, p) && EndOf(t, c) < |t|
    ensures Up(t, Down(t, c, p), p) == c
  {
    var s, e := StartOf(t, c), EndOf(t, c);
    OnLine(t, c, s, e);
    var next := e + 1;
    OnLine(t, next, next, EndOf(t, next));
    OnLine(t, Down(t, c, p), next, EndOf(t, next));
    OnLine(t, e, s, e);
    OnLine(t, s, s, e);
  }

  lemma DownAfterUp(t: seq<char>, c: nat, p: nat)
    requires AtColumn(t, c, p) && StartOf(t, c) > 0
    ensures Down(t, Up(t, c, p), p) == c
  {
    hide StartOf, EndOf;
    var s, e := StartOf(t, c), EndOf(t, c);
    OnLine(t, c, s, e);
    var before := StartOf(t, s - 1);
    StartStops(t, s - 1);
    assert Line(t, before, s - 1);
    OnLine(t, before, before, s - 1);
    OnLine(t, Up(t, c, p), before, s - 1);
    OnLine(t, s, s, e);
  }

  // ---- the editor ----

  class Editor {
    const text: array<char>
    var size: nat
    var cursor: nat
    var preferredColumn: nat
    var preferredValid: bool
    var dirty: bool
    const undo: array<Edit>
    const redo: array<Edit>
    var undoCount: nat
    var redoCount: nat
    ghost var timeline: seq<Snapshot>
    ghost var now: nat

    ghost predicate Bounds()
      reads this
    {
      && text.Length == CAPACITY && size < CAPACITY
      && undo.Length == HISTORY && redo.Length == HISTORY && undo != redo
      && undoCount <= HISTORY && redoCount <= HISTORY
    }

    function Value(): (t: seq<char>)
      requires Bounds()
      reads this, text
      ensures |t| == size
    {
      text[..size]
    }

    function Undos(): (s: seq<Edit>)
      requires Bounds()
      reads this, undo
      ensures |s| == undoCount
    {
      undo[..undoCount]
    }

    function Redos(): (s: seq<Edit>)
      requires Bounds()
      reads this, redo
      ensures |s| == redoCount
    {
      redo[..redoCount]
    }

    ghost predicate Recorded()
      requires Bounds()
      reads this, undo, redo
    {
      History(timeline, now, Undos(), Redos())
    }

    // What every public call keeps.
    ghost predicate Valid()
      reads this, text, undo, redo
    {
      && Bounds() && text[size] == '\0' && cursor <= size && Recorded()
      && now < |timeline| && timeline[now] == Snapshot(Value(), dirty)
      && (preferredValid ==> AtColumn(Value(), cursor, preferredColumn))
    }

    constructor (initial: seq<char>)
      requires |initial| < CAPACITY
      ensures Valid() && Value() == initial && cursor == |initial| && !dirty
      ensures timeline == [Snapshot(initial, false)] && now == 0
      ensures fresh(text) && fresh(undo) && fresh(redo)
    {
      text := new char[CAPACITY](i => if 0 <= i < |initial| then initial[i] else '\0');
      size, cursor := |initial|, |initial|;
      preferredColumn, preferredValid, dirty := 0, false, false;
      var none := Edit(Insert, 0, 0, 0, [], false, false);
      undo := new Edit[HISTORY](_ => none);
      redo := new Edit[HISTORY](_ => none);
      undoCount, redoCount := 0, 0;
      timeline, now := [Snapshot(initial, false)], 0;
      new;
      assert text[..size] == initial;
    }

    // memmove within the buffer, and memcpy into it.
    static method Move(text: array<char>, to: nat, from: nat, n: nat)
      requires to + n <= text.Length && from + n <= text.Length
      modifies text
      ensures text[to..to + n] == old(text[from..from + n])
      ensures text[..to] == old(text[..to]) && text[to + n..] == old(text[to + n..])
    {
      forall i | 0 <= i < n {
        text[to + i] := text[from + i];
      }
    }

    static method Fill(text: array<char>, to: nat, bytes: seq<char>)
      requires to + |bytes| <= text.Length
      modifies text
      ensures text[to..to + |bytes|] == bytes
      ensures text[..to] == old(text[..to]) && text[to + |bytes|..] == old(text[to + |bytes|..])
    {
      forall i | 0 <= i < |bytes| {
        text[to + i] := bytes[i];
      }
    }

    // `raw_insert`.
    method RawInsert(position: nat, bytes: seq<char>) returns (ok: bool)
      requires Bounds() && text[size] == '\0'
      modifies this`size, text
      ensures Bounds() && text[size] == '\0'
      ensures ok <==> 0 < |bytes| <= PAYLOAD && position <= old(size) && old(size) + |bytes| < CAPACITY
      ensures Value() == if ok then Inserted(old(Value()), position, bytes) else old(Value())
    {
      var count := |bytes|;
      if count == 0 || count > PAYLOAD || position > size || size + count >= CAPACITY {
        return false;
      }
      var tail := size - position;
      Move(text, position + count, position, tail + 1);
      ghost var moved := text[..];
      Fill(text, position, bytes);
      InsertedInPlace(old(text[..]), moved, text[..], size, position, bytes);
      size := size + count;
      assert Value() == text[..][..size];
      text[size] := '\0';
      return true;
    }

    // `raw_erase`, with the bytes it expects to find.
    method RawErase(position: nat, expected: seq<char>) returns (ok: bool)
      requires Bounds() && text[size] == '\0'
      modifies this`size, text
      ensures Bounds() && text[size] == '\0'
      ensures ok <==>
                && 0 < |expected| <= PAYLOAD && position + |expected| <= old(size)
                && old(Value())[position..position + |expected|] == expected
      ensures Value() == if ok then Erased(old(Value()), position, |expected|) else old(Value())
    {
      var count := |expected|;
      if count == 0 || count > PAYLOAD || position > size || count > size - position {
        return false;
      }
      if text[position..position + count] != expected {
        return false;
      }
      var tail := size - position - count;
      Move(text, position, position + count, tail + 1);
      size := size - count;
      text[size] := '\0';
      assert text[..size] == text[..position] + text[position..size];
      return true;
    }

    // `push` onto one of the two logs.
    static method Push(stack: array<Edit>, count: nat, edit: Edit) returns (n: nat)
      requires stack.Length == HISTORY && count <= HISTORY
      modifies stack
      ensures n == Min(count + 1, HISTORY) && stack[..n] == Pushed(old(stack[..count]), edit)
    {
      n := count;
      if n == HISTORY {
        forall i | 0 <= i < HISTORY - 1 {
          stack[i] := stack[i + 1];
        }
        n := HISTORY - 1;
      }
      stack[n] := edit;
      n := n + 1;
    }

    // `finish`: an applied edit enters the undo log and empties the redo log.
    method Finish(edit: Edit, ghost before: Snapshot)
      requires Bounds() && text[size] == '\0' && Recorded() && now < |timeline| && timeline[now] == before
      requires Links(before, edit, Snapshot(Value(), edit.dirtyAfter))
      modifies this`cursor, this`preferredValid, this`dirty, this`undoCount, this`redoCount, this`timeline, this`now,
        undo
      ensures Valid() && cursor == edit.cursorAfter && dirty == edit.dirtyAfter && !preferredValid
      ensures timeline == old(timeline)[..old(now) + 1] + [Snapshot(Value(), dirty)] && now == old(now) + 1
      ensures Undos() == Pushed(old(Undos()), edit) && Redos() == []
    {
      hide Links, History, AtColumn, Pushed;
      ghost var value := Value();
      HistoryEdit(timeline, now, Undos(), Redos(), edit, Snapshot(value, edit.dirtyAfter));
      LinksBounds(before, edit, Snapshot(value, edit.dirtyAfter));
      undoCount := Push(undo, undoCount, edit);
      redoCount := 0;
      cursor := Min(edit.cursorAfter, size);
      dirty := edit.dirtyAfter;
      preferredValid := false;
      timeline, now := timeline[..now + 1] + [Snapshot(value, dirty)], now + 1;
    }

    // The state an edit call leaves alone when it refuses.
    twostate predicate Same()
      reads this, text, undo, redo
    {
      && Bounds() && old(Bounds()) && Value() == old(Value()) && Undos() == old(Undos()) && Redos() == old(Redos())
      && cursor == old(cursor) && dirty == old(dirty) && timeline == old(timeline) && now == old(now)
      && preferredValid == old(preferredValid) && preferredColumn == old(preferredColumn)
    }

    // The timeline after an edit: later steps are forgotten, the new text is the last one.
    twostate predicate Stepped()
      requires Bounds() && old(now) < |old(timeline)|
      reads this, text, undo
    {
      && timeline == old(timeline)[..old(now) + 1] + [Snapshot(Value(), true)] && now == old(now) + 1
      && undoCount == Min(old(undoCount) + 1, HISTORY) && redoCount == 0
      && undo[undoCount - 1].cursorBefore == old(cursor)
    }

    // `insert`.
    method InsertBytes(bytes: seq<char>) returns (ok: bool)
      requires Valid()
      modifies this, text, undo
      ensures Valid() && (ok <==> 0 < |bytes| <= PAYLOAD && old(size) + |bytes| < CAPACITY)
      ensures !ok ==> Same()
      ensures ok ==> Stepped() && cursor == old(cursor) + |bytes|
      ensures ok ==> Value() == Inserted(old(Value()), old(cursor), bytes)
    {
      hide History, Links, AtColumn, Pushed, Inserted;
      if |bytes| == 0 || |bytes| > PAYLOAD || size + |bytes| >= CAPACITY {
        return false;
      }
      ghost var before := Snapshot(Value(), dirty);
      var edit := Edit(Insert, cursor, cursor, cursor + |bytes|, bytes, dirty, true);
      ok := RawInsert(edit.position, edit.bytes);
      InsertLinks(before, edit.position, bytes);
      Finish(edit, before);
    }

    // `backspace`.
    method Backspace() returns (ok: bool)
      requires Valid()
      modifies this, text, undo
      ensures Valid() && (ok <==> old(cursor) > 0)
      ensures !ok ==> Same()
      ensures ok ==> Stepped() && Value() == Erased(old(Value()), old(cursor) - 1, 1) && cursor == old(cursor) - 1
    {
      if cursor == 0 || size == 0 {
        return false;
      }
      EraseByte(cursor - 1);
      return true;
    }

    // `erase_forward`.
    method EraseForward() returns (ok: bool)
      requires Valid()
      modifies this, text, undo
      ensures Valid() && (ok <==> old(cursor) < old(size))
      ensures !ok ==> Same()
      ensures ok ==> Stepped() && Value() == Erased(old(Value()), old(cursor), 1) && cursor == old(cursor)
    {
      if cursor >= size {
        return false;
      }
      EraseByte(cursor);
      return true;
    }

    // The part the two erasing calls share.
    method EraseByte(position: nat)
      requires Valid() && position < size && position <= cursor
      modifies this, text, undo
      ensures Valid() && Stepped() && Value() == Erased(old(Value()), position, 1) && cursor == position
    {
      hide History, Links, AtColumn, Pushed, Erased;
      ghost var before := Snapshot(Value(), dirty);
      var edit := Edit(Erase, position, cursor, position, [text[position]], dirty, true);
      assert before.text[position..position + 1] == edit.bytes;
      EraseLinks(before, cursor, position);
      var ok := RawErase(edit.position, edit.bytes);
      Finish(edit, before);
    }

    // An edit taken back from the text it led to.
    method Revert(edit: Edit, ghost a: Snapshot, ghost b: Snapshot) returns (ok: bool)
      requires Bounds() && text[size] == '\0' && Links(a, edit, b) && Value() == b.text
      modifies this`size, text
      ensures ok && Bounds() && text[size] == '\0' && Value() == a.text
    {
      if edit.kind == Insert {
        EraseInserted(a.text, edit.position, edit.bytes);
        ok := RawErase(edit.position, edit.bytes);
      } else {
        ok := RawInsert(edit.position, edit.bytes);
      }
    }

    // An edit made again on the text it started from.
    method Replay(edit: Edit, ghost a: Snapshot, ghost b: Snapshot) returns (ok: bool)
      requires Bounds() && text[size] == '\0' && Links(a, edit, b) && Value() == a.text
      modifies this`size, text
      ensures ok && Bounds() && text[size] == '\0' && Value() == b.text
    {
      if edit.kind == Insert {
        ok := RawInsert(edit.position, edit.bytes);
      } else {
        EraseInserted(b.text, edit.position, edit.bytes);
        ok := RawErase(edit.position, edit.bytes);
      }
    }

    // `undo_once`: succeeds whenever the log holds an edit, and goes back one step in time.
    method UndoOnce() returns (ok: bool)
      requires Valid()
      modifies this`size, this`cursor, this`preferredValid, this`dirty, this`undoCount, this`redoCount, this`now,
        text, redo
      ensures Valid() && (ok <==> old(undoCount) > 0)
      ensures !ok ==> Same()
      ensures ok ==> timeline == old(timeline) && now == old(now) - 1
      ensures ok ==> Undos() + [old(Undos())[old(undoCount) - 1]] == old(Undos())
      ensures ok ==> Redos() == old(Redos()) + [old(Undos())[old(undoCount) - 1]]
      ensures ok ==> cursor == old(Undos())[old(undoCount) - 1].cursorBefore
    {
      hide Links, History, AtColumn, Pushed;
      if undoCount == 0 {
        return false;
      }
      ghost var undos, redos := Undos(), Redos();
      var edit := undo[undoCount - 1];
      HistoryUndo(timeline, now, undos, redos);
      LinksBounds(timeline[now - 1], edit, timeline[now]);
      ok := Revert(edit, timeline[now - 1], timeline[now]);
      if !ok {
        return false;
      }
      ShiftBack(edit);
    }

    method ShiftBack(edit: Edit)
      requires Bounds() && undoCount > 0 && now > 0
      modifies this`cursor, this`preferredValid, this`dirty, this`undoCount, this`redoCount, this`now, redo
      ensures Bounds() && now == old(now) - 1 && cursor == Min(edit.cursorBefore, size) &&
        dirty == edit.dirtyBefore && !preferredValid
      ensures Undos() == old(Undos())[..old(undoCount) - 1] && Redos() == Pushed(old(Redos()), edit)
    {
      hide Pushed;
      undoCount := undoCount - 1;
      redoCount := Push(redo, redoCount, edit);
      cursor := Min(edit.cursorBefore, size);
      dirty := edit.dirtyBefore;
      preferredValid := false;
      now := now - 1;
    }

    // `redo_once`.
    method RedoOnce() returns (ok: bool)
      requires Valid()
      modifies this`size, this`cursor, this`preferredValid, this`dirty, this`undoCount, this`redoCount, this`now,
        text, undo
      ensures Valid() && (ok <==> old(redoCount) > 0)
      ensures !ok ==> Same()
      ensures ok ==> timeline == old(timeline) && now == old(now) + 1
      ensures ok ==> Redos() + [old(Redos())[old(redoCount) - 1]] == old(Redos())
      ensures ok ==> Undos() == old(Undos()) + [old(Redos())[old(redoCount) - 1]]
      ensures ok ==> cursor == old(Redos())[old(redoCount) - 1].cursorAfter
    {
      hide Links, History, AtColumn, Pushed;
      if redoCount == 0 {
        return false;
      }
      ghost var undos, redos := Undos(), Redos();
      var edit := redo[redoCount - 1];
      HistoryRedo(timeline, now, undos, redos);
      LinksBounds(timeline[now], edit, timeline[now + 1]);
      ok := Replay(edit, timeline[now], timeline[now + 1]);
      if !ok {
        return false;
      }
      ShiftForward(edit);
    }

    method ShiftForward(edit: Edit)
      requires Bounds() && redoCount > 0
      modifies this`cursor, this`preferredValid, this`dirty, this`undoCount, this`redoCount, this`now, undo
      ensures Bounds() && now == old(now) + 1 && cursor == Min(edit.cursorAfter, size) && dirty == edit.dirtyAfter &&
        !preferredValid
      ensures Redos() == old(Redos())[..old(redoCount) - 1] && Undos() == Pushed(old(Undos()), edit)
    {
      hide Pushed;
      redoCount := redoCount - 1;
      undoCount := Push(undo, undoCount, edit);
      cursor := Min(edit.cursorAfter, size);
      dirty := edit.dirtyAfter;
      preferredValid := false;
      now := now + 1;
    }

    // `line_start` and `line_end`.
    method LineStart(offset: nat) returns (position: nat)
      requires Bounds()
      ensures position == StartOf(Value(), Min(offset, size))
    {
      position := Min(offset, size);
      while position > 0 && text[position - 1] != '\n'
        invariant position <= size && StartOf(Value(), position) == StartOf(Value(), Min(offset, size))
      {
        position := position - 1;
      }
    }

    method LineEnd(offset: nat) returns (position: nat)
      requires Bounds()
      ensures position == EndOf(Value(), Min(offset, size))
    {
      position := Min(offset, size);
      while position < size && text[position] != '\n'
        invariant position <= size && EndOf(Value(), position) == EndOf(Value(), Min(offset, size))
        decreases size - position
      {
        position := position + 1;
      }
    }

    // The moves change the cursor and the preferred column only.
    method Home()
      requires Valid()
      modifies this`cursor, this`preferredValid
      ensures Valid() && !preferredValid && cursor == StartOf(Value(), old(cursor))
    {
      cursor := LineStart(cursor);
      preferredValid := false;
    }

    method End()
      requires Valid()
      modifies this`cursor, this`preferredValid
      ensures Valid() && !preferredValid && cursor == EndOf(Value(), old(cursor))
    {
      cursor := LineEnd(cursor);
      preferredValid := false;
    }

    method Left()
      requires Valid()
      modifies this`cursor, this`preferredValid
      ensures Valid() && !preferredValid && cursor == if old(cursor) > 0 then old(cursor) - 1 else 0
    {
      if cursor > 0 {
        cursor := cursor - 1;
      }
      preferredValid := false;
    }

    method Right()
      requires Valid()
      modifies this`cursor, this`preferredValid
      ensures Valid() && !preferredValid && cursor == Min(old(cursor) + 1, size)
    {
      if cursor < size {
        cursor := cursor + 1;
      }
      preferredValid := false;
    }

    // `vertical`.
    method Vertical(down: bool)
      requires Valid()
      modifies this`cursor, this`preferredValid, this`preferredColumn
      ensures Valid() && preferredValid
      ensures preferredColumn == if old(preferredValid) then old(preferredColumn)
        else old(cursor) - StartOf(Value(), old(cursor))
      ensures cursor == if down then Down(Value(), old(cursor), preferredColumn)
        else Up(Value(), old(cursor), preferredColumn)
    {
      hide History, StartOf, EndOf, Down, Up;
      if !preferredValid {
        var currentStart := LineStart(cursor);
        preferredColumn := cursor - currentStart;
        preferredValid := true;
      }
      DownKeepsColumn(Value(), cursor, preferredColumn);
      UpKeepsColumn(Value(), cursor, preferredColumn);
      cursor := Target(down);
    }

    // Where `vertical` puts the cursor: the next or previous line, the last or first line being
    // left alone.
    method Target(down: bool) returns (target: nat)
      requires Bounds() && cursor <= size
      ensures target == if down then Down(Value(), cursor, preferredColumn) else Up(Value(), cursor, preferredColumn)
    {
      hide StartOf, EndOf;
      var currentStart := LineStart(cursor);
      var targetStart := currentStart;
      if down {
        var currentEnd := LineEnd(cursor);
        if currentEnd >= size {
          return cursor;
        }
        targetStart := currentEnd + 1;
      } else {
        if currentStart == 0 {
          return cursor;
        }
        targetStart := LineStart(currentStart - 1);
      }
      var targetEnd := LineEnd(targetStart);
      return targetStart + Min(preferredColumn, targetEnd - targetStart);
    }
  }

  // ---- over runs of calls ----

  // Undoing `k` times shows the text and the dirty flag of `k` edits ago, for every retained `k`.
  method UndoMany(editor: Editor, k: nat)
    requires editor.Valid() && k <= editor.undoCount
    modifies editor, editor.text, editor.undo, editor.redo
    ensures editor.Valid() && editor.timeline == old(editor.timeline) && editor.now == old(editor.now) - k
    ensures Snapshot(editor.Value(), editor.dirty) == old(editor.timeline[editor.now - k])
    ensures editor.undoCount == old(editor.undoCount) - k && editor.redoCount == old(editor.redoCount) + k
  {
    for i := 0 to k
      invariant editor.Valid() && editor.timeline == old(editor.timeline) && editor.now == old(editor.now) - i
      invariant editor.undoCount == old(editor.undoCount) - i && editor.redoCount == old(editor.redoCount) + i
    {
      var ok := editor.UndoOnce();
    }
  }

  // Undo then redo restores the text, the dirty flag and both logs.
  method UndoRedo(editor: Editor)
    requires editor.Valid() && editor.undoCount > 0
    modifies editor, editor.text, editor.undo, editor.redo
    ensures editor.Valid() && editor.Value() == old(editor.Value()) && editor.dirty == old(editor.dirty)
    ensures editor.Undos() == old(editor.Undos()) && editor.Redos() == old(editor.Redos())
    ensures editor.timeline == old(editor.timeline) && editor.now == old(editor.now)
  {
    var undone := editor.UndoOnce();
    var redone := editor.RedoOnce();
  }

  // An undo right after an edit restores what the edit changed, the cursor included.
  method EditUndo(editor: Editor, bytes: seq<char>) returns (ok: bool)
    requires editor.Valid()
    modifies editor, editor.text, editor.undo, editor.redo
    ensures editor.Valid() && editor.Value() == old(editor.Value()) && editor.dirty == old(editor.dirty)
    ensures editor.cursor == old(editor.cursor)
  {
    ok := editor.InsertBytes(bytes);
    if ok {
      ok := editor.UndoOnce();
    }
  }
}
