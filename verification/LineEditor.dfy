/** The shell's line editor: a buffer edited in place, an echoing terminal line and a history ring. */
module LineEditor {
  import opened Bytes

  const HIST_MAX: nat := 16
  const LINE_MAX: nat := 1000
  const BACKSPACE: Byte := 8
  const BLANK: Byte := 0x20

  /** A character that is inserted as it is. */
  type Char = c: Byte | 0 < c < 128 && c != BACKSPACE && c != 10 witness 65

  datatype Key = Enter | Backspace | Del | Left | Right | Home | End | Up | Down | Ignored | Insert(c: Char)

  // ----- the editor as a sequence with a cursor

  datatype Session = Session(line: seq<Byte>, cur: nat, browse: nat, saved: seq<Byte>)

  function Oldest(hist: seq<seq<Byte>>): nat {
    if |hist| > HIST_MAX then |hist| - HIST_MAX else 0
  }

  function Cut(s: seq<Byte>, size: nat): seq<Byte>
    requires size > 0
  {
    if |s| >= size then s[..size - 1] else s
  }

  /** The line is replaced by the one that is browsed: a command of the history, or the saved draft. */
  function Recalled(hist: seq<seq<Byte>>, size: nat, s: Session): Session
    requires size > 0 && s.browse <= |hist|
  {
    var line := Cut(if s.browse == |hist| then s.saved else hist[s.browse], size);
    s.(line := line, cur := |line|)
  }

  function Step(hist: seq<seq<Byte>>, size: nat, s: Session, key: Key): (r: Session)
    requires size > 0 && s.cur <= |s.line| && s.browse <= |hist|
    ensures r.cur <= |r.line| && r.browse <= |hist|
  {
    var (line, cur) := (s.line, s.cur);
    match key
    case Enter => s
    case Ignored => s
    case Backspace => if cur > 0 then s.(line := line[..cur - 1] + line[cur..], cur := cur - 1) else s
    case Del => if cur < |line| then s.(line := line[..cur] + line[cur + 1..]) else s
    case Left => if cur > 0 then s.(cur := cur - 1) else s
    case Right => if cur < |line| then s.(cur := cur + 1) else s
    case Home => s.(cur := 0)
    case End => s.(cur := |line|)
    case Up =>
      if s.browse <= Oldest(hist) then s
      else Recalled(hist, size, s.(browse := s.browse - 1, saved := if s.browse == |hist| then line else s.saved))
    case Down => if s.browse >= |hist| then s else Recalled(hist, size, s.(browse := s.browse + 1))
    case Insert(c) => if |line| >= size - 1 then s else s.(line := line[..cur] + [c] + line[cur..], cur := cur + 1)
  }

  /** The keys of one call: it ends at Enter, or as soon as the line is full. */
  function Run(hist: seq<seq<Byte>>, size: nat, s: Session, keys: seq<Key>): (r: Session)
    requires size > 0 && s.cur <= |s.line| && s.browse <= |hist|
    ensures r.cur <= |r.line| && r.browse <= |hist|
    decreases |keys|
  {
    if keys == [] || |s.line| >= size - 1 || keys[0] == Enter then s
    else Run(hist, size, Step(hist, size, s, keys[0]), keys[1..])
  }

  // ----- the keys on the text before and behind the cursor

  /** What a key other than the history keys does to the characters before and behind the cursor. */
  function Moved(before: seq<Byte>, after: seq<Byte>, size: nat, key: Key): (r: (seq<Byte>, seq<Byte>))
    ensures |r.0| + |r.1| <= |before| + |after| + 1
  {
    match key
    case Left => if before == [] then (before, after) else (before[..|before| - 1], before[|before| - 1..] + after)
    case Right => if after == [] then (before, after) else (before + after[..1], after[1..])
    case Home => ([], before + after)
    case End => (before + after, [])
    case Backspace => if before == [] then (before, after) else (before[..|before| - 1], after)
    case Del => if after == [] then (before, after) else (before, after[1..])
    case Insert(c) => if |before| + |after| + 1 < size then (before + [c], after) else (before, after)
    case _ => (before, after)
  }

  /** Every key but the history keys moves characters across the cursor, drops one beside it or puts one before it; what
      is browsed and the draft stay. */
  lemma StepIsMove(hist: seq<seq<Byte>>, size: nat, s: Session, key: Key, before: seq<Byte>, after: seq<Byte>)
    requires size > 0 && s.line == before + after && s.cur == |before| && s.browse <= |hist| && key != Up && key != Down
    ensures var (b, a) := Moved(before, after, size, key);
            Step(hist, size, s, key) == Session(b + a, |b|, s.browse, s.saved)
  {
    Halves(s.line, before, after);
    if key == Left || key == Right || key == Home || key == End { CursorMoves(before, after, size, key); }
  }

  /** The cursor keys leave the text alone. */
  lemma CursorMoves(before: seq<Byte>, after: seq<Byte>, size: nat, key: Key)
    requires key == Left || key == Right || key == Home || key == End
    ensures var (b, a) := Moved(before, after, size, key);
            && b + a == before + after
            && |b| == (match key case Left => if before == [] then 0 else |before| - 1
                                 case Right => if after == [] then |before| else |before| + 1
                                 case Home => 0
                                 case _ => |before| + |after|)
  {
    var n := |before|;
    if key == Left && n > 0 { MoveOver(before[..n - 1], before[n - 1..], before, after); }
    if key == Right && after != [] { MoveOver(before, after[..1], before + after[..1], after[1..]); }
  }

  lemma Halves(line: seq<Byte>, before: seq<Byte>, after: seq<Byte>)
    requires line == before + after
    ensures var n := |before|;
            && line[..n] == before && line[n..] == after && (n > 0 ==> line[..n - 1] == before[..n - 1])
            && (after != [] ==> line[n + 1..] == after[1..] && after[..1] + after[1..] == after)
  {
  }

  lemma MoveOver(a: seq<Byte>, b: seq<Byte>, ab: seq<Byte>, c: seq<Byte>)
    requires a + b == ab
    ensures a + (b + c) == ab + c
  {
  }

  function Begin(hist: seq<seq<Byte>>): Session { Session([], 0, |hist|, []) }

  // ----- walking the history

  function Presses(k: nat, key: Key): (r: seq<Key>)
    ensures |r| == k
  {
    seq(k, i => key)
  }

  /** No command from position `lo` up to `hi` fills the line. */
  ghost predicate RoomIn(hist: seq<seq<Byte>>, size: nat, lo: int, hi: int) {
    forall i :: 0 <= i < |hist| && lo <= i < hi ==> |hist[i]| < size - 1
  }

  lemma {:induction false} RunAppend(hist: seq<seq<Byte>>, size: nat, s: Session, a: seq<Key>, b: seq<Key>)
    requires size > 0 && s.cur <= |s.line| && s.browse <= |hist| && Enter !in a
    ensures Run(hist, size, s, a + b) == Run(hist, size, Run(hist, size, s, a), b)
    decreases |a|
  {
    if a == [] {
      assert a + b == b;
    } else if |s.line| < size - 1 {
      assert (a + b)[1..] == a[1..] + b;
      RunAppend(hist, size, Step(hist, size, s, a[0]), a[1..], b);
    } else {
      RunFull(hist, size, s, b);
    }
  }

  lemma RunFull(hist: seq<seq<Byte>>, size: nat, s: Session, b: seq<Key>)
    requires size > 0 && s.cur <= |s.line| && s.browse <= |hist| && |s.line| >= size - 1
    ensures Run(hist, size, s, b) == s
  {
  }

  function Typed(text: seq<Char>): (keys: seq<Key>)
    ensures |keys| == |text|
  {
    seq(|text|, i requires 0 <= i < |text| => Insert(text[i]))
  }

  /** Typing a text gives that text, cut where the line is full, with the cursor behind it. */
  lemma {:induction false} TypedText(hist: seq<seq<Byte>>, size: nat, text: seq<Char>)
    requires size > 0
    ensures var s := Run(hist, size, Begin(hist), Typed(text)); s.line == Cut(text, size) && s.cur == |s.line|
  {
    if text != [] {
      var n := |text| - 1;
      var init := text[..n];
      assert Typed(text) == Typed(init) + [Insert(text[n])];
      TypedText(hist, size, init);
      RunAppend(hist, size, Begin(hist), Typed(init), [Insert(text[n])]);
      assert text == init + [text[n]];
    }
  }

  /** The session that shows history position `i`, or the draft. */
  function At(hist: seq<seq<Byte>>, draft: seq<Byte>, i: nat): Session
    requires i <= |hist|
  {
    var line := if i == |hist| then draft else hist[i];
    Session(line, |line|, i, draft)
  }

  /** The same as the buffer holds it: a command that is too long is cut. */
  function Shown(hist: seq<seq<Byte>>, size: nat, draft: seq<Byte>, i: nat): Session
    requires size > 0 && i < |hist|
  {
    var line := Cut(hist[i], size);
    Session(line, |line|, i, draft)
  }

  /** How far `k` ups from position `b` go, if nothing stops them. */
  function Back(hist: seq<seq<Byte>>, b: nat, k: nat): (i: nat)
    requires Oldest(hist) <= b
    ensures Oldest(hist) <= i <= b
  {
    if b - k >= Oldest(hist) then b - k else Oldest(hist)
  }

  /** The position at which `k` ups from position `b` stop: a command that fills the line ends the call. */
  function Stop(hist: seq<seq<Byte>>, size: nat, b: nat, k: nat): (i: nat)
    requires b < |hist|
    ensures i <= b
    decreases k
  {
    if k == 0 || |hist[b]| >= size - 1 then b
    else Stop(hist, size, if b > Oldest(hist) then b - 1 else b, k - 1)
  }

  lemma {:induction false} UpsRun(hist: seq<seq<Byte>>, size: nat, draft: seq<Byte>, b: nat, k: nat)
    requires size > 0 && Oldest(hist) <= b < |hist|
    ensures Run(hist, size, Shown(hist, size, draft, b), Presses(k, Up)) == Shown(hist, size, draft, Stop(hist, size, b, k))
    decreases k
  {
    if k > 0 && |hist[b]| < size - 1 {
      UpOne(hist, size, draft, b, k);
      UpsRun(hist, size, draft, if b > Oldest(hist) then b - 1 else b, k - 1);
    }
  }

  /** It is the latest command on the way that fills the line, or the end of the way. */
  lemma {:induction false} StopLaw(hist: seq<seq<Byte>>, size: nat, b: nat, k: nat)
    requires Oldest(hist) <= b < |hist|
    ensures var i, lo := Stop(hist, size, b, k), Back(hist, b, k);
            && lo <= i && RoomIn(hist, size, i + 1, b + 1) && (i > lo ==> |hist[i]| >= size - 1)
    decreases k
  {
    if k > 0 && |hist[b]| < size - 1 { StopLaw(hist, size, if b > Oldest(hist) then b - 1 else b, k - 1); }
  }

  /** Ups from a recalled command go back until a command fills the line, which ends the call. */
  lemma UpsFrom(hist: seq<seq<Byte>>, size: nat, draft: seq<Byte>, b: nat, k: nat)
    requires size > 0 && Oldest(hist) <= b < |hist|
    ensures StopsAt(hist, size, draft, b, Back(hist, b, k), Run(hist, size, Shown(hist, size, draft, b), Presses(k, Up)))
  {
    UpsRun(hist, size, draft, b, k);
    StopLaw(hist, size, b, k);
  }

  /** One up from a recalled command. */
  lemma UpOne(hist: seq<seq<Byte>>, size: nat, draft: seq<Byte>, b: nat, k: nat)
    requires size > 0 && Oldest(hist) <= b < |hist| && |hist[b]| < size - 1 && k > 0
    ensures Run(hist, size, Shown(hist, size, draft, b), Presses(k, Up))
         == Run(hist, size, Shown(hist, size, draft, if b > Oldest(hist) then b - 1 else b), Presses(k - 1, Up))
  {
    RunOne(hist, size, Shown(hist, size, draft, b), Up, k);
  }

  /** One down from a recalled command, or from the draft. */
  lemma DownOne(hist: seq<seq<Byte>>, size: nat, draft: seq<Byte>, i: nat, k: nat)
    requires size > 0 && i <= |hist| && RoomIn(hist, size, i, |hist|) && |draft| < size - 1 && k > 0
    ensures Run(hist, size, At(hist, draft, i), Presses(k, Down))
         == Run(hist, size, At(hist, draft, if i < |hist| then i + 1 else i), Presses(k - 1, Down))
  {
    RunOne(hist, size, At(hist, draft, i), Down, k);
  }

  /** The session `r` shows the first command on the way back from `b` to `lo` that fills the line, or `lo`. */
  ghost predicate StopsAt(hist: seq<seq<Byte>>, size: nat, draft: seq<Byte>, b: nat, lo: nat, r: Session)
    requires size > 0 && b < |hist|
  {
    && lo <= r.browse <= b && r == Shown(hist, size, draft, r.browse)
    && RoomIn(hist, size, r.browse + 1, b + 1) && (r.browse > lo ==> |hist[r.browse]| >= size - 1)
  }

  lemma RunOne(hist: seq<seq<Byte>>, size: nat, s: Session, key: Key, k: nat)
    requires size > 0 && s.cur <= |s.line| < size - 1 && s.browse <= |hist| && k > 0 && key != Enter
    ensures Run(hist, size, s, Presses(k, key)) == Run(hist, size, Step(hist, size, s, key), Presses(k - 1, key))
  {
    assert Presses(k, key)[1..] == Presses(k - 1, key);
  }

  /** From the draft: the command at which `k` ups stop is the latest one that fills the line, if there is one on the way. */
  lemma UpsReach(hist: seq<seq<Byte>>, size: nat, s: Session, k: nat)
    requires size > 0 && |s.line| < size - 1 && s.cur <= |s.line| && s.browse == |hist| > 0 && k > 0
    ensures var r, lo := Run(hist, size, s, Presses(k, Up)), Back(hist, |hist|, k);
            && lo <= r.browse < |hist| && r == Shown(hist, size, s.line, r.browse)
            && RoomIn(hist, size, r.browse + 1, |hist|) && (r.browse > lo ==> |hist[r.browse]| >= size - 1)
  {
    RunOne(hist, size, s, Up, k);
    assert Step(hist, size, s, Up) == Shown(hist, size, s.line, |hist| - 1);
    UpsFrom(hist, size, s.line, |hist| - 1, k - 1);
  }

  /** `k` ups show the `k`-th last command, or the oldest of the last sixteen, in full: exactly if no command on the way
      there fills the line and that one fits it. */
  lemma UpsWalk(hist: seq<seq<Byte>>, size: nat, s: Session, k: nat)
    requires size > 0 && |s.line| < size - 1 && s.cur <= |s.line| && s.browse == |hist| > 0 && k > 0
    ensures var lo := Back(hist, |hist|, k);
            && lo < |hist| && lo == (if k <= 16 && k <= |hist| then |hist| - k else if |hist| <= 16 then 0 else |hist| - 16)
            && (Run(hist, size, s, Presses(k, Up)) == At(hist, s.line, lo) <==>
                  RoomIn(hist, size, lo + 1, |hist|) && |hist[lo]| < size)
  {
    UpsReach(hist, size, s, k);
    var lo := Back(hist, |hist|, k);
    if |hist[lo]| >= size { assert |Shown(hist, size, s.line, lo).line| < |At(hist, s.line, lo).line|; }
  }

  /** From history position `i`, `k` downs go forward `k` positions, at most to the draft. */
  lemma {:induction false} DownsWalk(hist: seq<seq<Byte>>, size: nat, draft: seq<Byte>, i: nat, k: nat)
    requires size > 0 && RoomIn(hist, size, i, |hist|) && |draft| < size - 1 && i <= |hist|
    ensures Run(hist, size, At(hist, draft, i), Presses(k, Down)) == At(hist, draft, if i + k <= |hist| then i + k else |hist|)
    decreases k
  {
    if k > 0 {
      DownOne(hist, size, draft, i, k);
      DownsWalk(hist, size, draft, if i < |hist| then i + 1 else i, k - 1);
    }
  }

  /** `k` ups and `k` downs, without edits in between, bring the draft back with the cursor at its end, exactly if no
      command on the way fills the line. */
  lemma UpsAndDowns(hist: seq<seq<Byte>>, size: nat, s: Session, k: nat)
    requires size > 0 && |s.line| < size - 1 && s.cur <= |s.line| && s.browse == |hist| > 0 && k > 0
    ensures Run(hist, size, s, Presses(k, Up) + Presses(k, Down)) == At(hist, s.line, |hist|)
       <==> RoomIn(hist, size, Back(hist, |hist|, k), |hist|)
  {
    UpsReach(hist, size, s, k);
    RunAppend(hist, size, s, Presses(k, Up), Presses(k, Down));
    DownsAfter(hist, size, s.line, k, Run(hist, size, s, Presses(k, Up)));
  }

  /** The downs, from the session `r` at which `k` ups stopped. */
  lemma DownsAfter(hist: seq<seq<Byte>>, size: nat, draft: seq<Byte>, k: nat, r: Session)
    requires size > 0 && |draft| < size - 1 && |hist| > 0 && k > 0
    requires var lo := Back(hist, |hist|, k);
             && lo <= r.browse < |hist| && r == Shown(hist, size, draft, r.browse)
             && RoomIn(hist, size, r.browse + 1, |hist|) && (r.browse > lo ==> |hist[r.browse]| >= size - 1)
    ensures Run(hist, size, r, Presses(k, Down)) == At(hist, draft, |hist|) <==> RoomIn(hist, size, Back(hist, |hist|, k), |hist|)
  {
    if RoomIn(hist, size, Back(hist, |hist|, k), |hist|) {
      DownsWalk(hist, size, draft, r.browse, k);
    } else {
      assert |hist[r.browse]| >= size - 1;
      RunFull(hist, size, r, Presses(k, Down));
    }
  }

  /** Otherwise the latest command that fills the line has ended the call, and is submitted as it stands. */
  lemma FullRecall(hist: seq<seq<Byte>>, size: nat, s: Session, k: nat, j: nat)
    requires size > 0 && |s.line| < size - 1 && s.cur <= |s.line| && s.browse == |hist| > 0
    requires Back(hist, |hist|, k) <= j < |hist| && |hist[j]| >= size - 1 && RoomIn(hist, size, j + 1, |hist|)
    ensures Run(hist, size, s, Presses(k, Up) + Presses(k, Down)).line == hist[j][..size - 1]
  {
    UpsReach(hist, size, s, k);
    var r := Run(hist, size, s, Presses(k, Up));
    RunAppend(hist, size, s, Presses(k, Up), Presses(k, Down));
    assert r.browse == j;
    RunFull(hist, size, r, Presses(k, Down));
  }

  // ----- the terminal line

  /** A line of cells that does not wrap; cells beyond the text are blank. */
  datatype Screen = Screen(text: seq<Byte>, pos: nat)

  function Put(s: Screen, c: Byte): Screen {
    if c == BACKSPACE then s.(pos := if s.pos > 0 then s.pos - 1 else 0)
    else if s.pos < |s.text| then Screen(s.text[s.pos := c], s.pos + 1)
    else Screen(s.text + [c], |s.text| + 1)
  }

  /** The text with `r` written over it from position `p` on. */
  function Over(text: seq<Byte>, p: nat, r: seq<Byte>): seq<Byte>
    requires p <= |text|
  {
    text[..p] + r + if p + |r| <= |text| then text[p + |r|..] else []
  }

  function Blanks(n: nat): (r: seq<Byte>)
    ensures |r| == n
  {
    seq(n, i => BLANK)
  }

  /** The terminal shows exactly the line, with its cursor at `cur`. */
  ghost predicate Shows(s: Screen, line: seq<Byte>, cur: nat) {
    s.pos == cur <= |line| <= |s.text| && s.text == line + Blanks(|s.text| - |line|)
  }

  class Terminal {
    var screen: Screen

    constructor ()
      ensures screen == Screen([], 0)
    {
      screen := Screen([], 0);
    }

    method PutChar(c: Byte)
      modifies this
      ensures screen == Put(old(screen), c)
    {
      screen := Put(screen, c);
    }

    method PutSlice(buf: array<Byte>, a: nat, b: nat)
      requires a <= b <= buf.Length && screen.pos <= |screen.text| && BACKSPACE !in buf[a..b]
      modifies this
      ensures screen == Screen(Over(old(screen.text), old(screen.pos), buf[a..b]), old(screen.pos) + (b - a))
    {
      ghost var t, p := screen.text, screen.pos;
      assert Over(t, p, []) == t;
      for j := a to b
        invariant screen == Screen(Over(t, p, buf[a..j]), p + (j - a))
      {
        assert buf[j] == buf[a..b][j - a];
        assert buf[a..j + 1] == buf[a..j] + [buf[j]];
        OverSnoc(t, p, buf[a..j], buf[j]);
        PutChar(buf[j]);
      }
    }

    method PutBacks(n: nat)
      requires n <= screen.pos
      modifies this
      ensures screen == old(screen).(pos := old(screen.pos) - n)
    {
      for j := 0 to n
        invariant screen == old(screen).(pos := old(screen.pos) - j)
      {
        PutChar(BACKSPACE);
      }
    }

    /** Takes a line of `n` characters off the screen, from its end to its start. */
    method EraseBack(n: nat, ghost line: seq<Byte>)
      requires n == |line| <= |screen.text| && screen == Screen(line + Blanks(|screen.text| - n), n)
      modifies this
      ensures screen == Screen(Blanks(|old(screen.text)|), 0)
    {
      ghost var width := |screen.text|;
      assert line[..n] == line;
      for j := 0 to n
        invariant screen == Screen(line[..n - j] + Blanks(width - (n - j)), n - j)
      {
        EraseStep(line, n - j, width);
        PutChar(BACKSPACE);
        PutChar(BLANK);
        PutChar(BACKSPACE);
      }
    }
  }

  lemma OverSnoc(t: seq<Byte>, p: nat, r: seq<Byte>, c: Byte)
    requires p <= |t| && c != BACKSPACE
    ensures Put(Screen(Over(t, p, r), p + |r|), c) == Screen(Over(t, p, r + [c]), p + |r| + 1)
  {
    var o, w := Over(t, p, r), Over(t, p, r + [c]);
    var q := p + |r|;
    if q < |o| { assert o[q := c] == w; } else { assert o + [c] == w; }
  }

  /** Writing a tail over the text that showed a line with the same head. */
  lemma OverTail(text: seq<Byte>, line: seq<Byte>, line': seq<Byte>, c: nat)
    requires c <= |line| <= |text| && c <= |line'| && text == line + Blanks(|text| - |line|) && line'[..c] == line[..c]
    requires |line'| >= |line|
    ensures var o := Over(text, c, line'[c..]);
            |o| >= |line'| && o == line' + Blanks(|o| - |line'|)
  {
    var o := Over(text, c, line'[c..]);
    assert o[..c] == line'[..c] && o[c..|line'|] == line'[c..];
    assert o == o[..c] + o[c..|line'|] + o[|line'|..];
    assert o[|line'|..] == Blanks(|o| - |line'|);
    assert line' == line'[..c] + line'[c..];
  }

  /** After a deletion: the shortened tail and one blank over the longer line. */
  lemma OverShorter(text: seq<Byte>, line: seq<Byte>, line': seq<Byte>, c: nat)
    requires c <= |line'| && |line'| + 1 == |line| <= |text| && text == line + Blanks(|text| - |line|) && line'[..c] == line[..c]
    ensures var o := Over(text, c, line'[c..] + [BLANK]);
            |o| == |text| && o == line' + Blanks(|o| - |line'|)
  {
    var o := Over(text, c, line'[c..] + [BLANK]);
    OverTail(text, line, line' + [BLANK], c);
    assert (line' + [BLANK])[c..] == line'[c..] + [BLANK];
    assert o == line' + [BLANK] + Blanks(|o| - |line|);
    assert [BLANK] + Blanks(|o| - |line|) == Blanks(|o| - |line'|);
  }

  /** Backspace, blank, backspace takes the last character of the line off the screen. */
  lemma EraseStep(line: seq<Byte>, p: nat, n: nat)
    requires 0 < p <= |line| <= n
    ensures var s := Screen(line[..p] + Blanks(n - p), p);
            Put(Put(Put(s, BACKSPACE), BLANK), BACKSPACE) == Screen(line[..p - 1] + Blanks(n - p + 1), p - 1)
  {
    assert (line[..p] + Blanks(n - p))[p - 1 := BLANK] == line[..p - 1] + Blanks(n - p + 1);
  }

  predicate Clean(s: seq<Byte>) { BACKSPACE !in s }

  /** The ring holds the last sixteen commands. */
  ghost predicate RingHolds(ring: seq<seq<Byte>>, hist: seq<seq<Byte>>) {
    |ring| == HIST_MAX && forall i :: Oldest(hist) <= i < |hist| ==> ring[i % HIST_MAX] == hist[i]
  }

  /** Storing a command overwrites the oldest one. */
  lemma RingAppend(ring: seq<seq<Byte>>, hist: seq<seq<Byte>>, line: seq<Byte>)
    requires RingHolds(ring, hist)
    ensures RingHolds(ring[|hist| % HIST_MAX := line], hist + [line])
  {
    var h, r := hist + [line], ring[|hist| % HIST_MAX := line];
    forall i | Oldest(h) <= i < |h| ensures r[i % HIST_MAX] == h[i] {
      if i < |hist| { assert i % HIST_MAX != |hist| % HIST_MAX; }
    }
  }

  class Editor {
    const buf: array<Byte>
    const ring: array<seq<Byte>>
    const term: Terminal
    var total: nat
    var len: nat
    var cur: nat
    var browse: nat
    var saved: seq<Byte>
    ghost var hist: seq<seq<Byte>>

    /** The history between calls. */
    ghost predicate Remembers()
      reads this, ring
    {
      && 0 < buf.Length <= LINE_MAX && RingHolds(ring[..], hist) && total == |hist|
      && forall i :: 0 <= i < |hist| ==> Clean(hist[i]) && |hist[i]| < LINE_MAX
    }

    ghost predicate Valid()
      reads this, buf, ring, term
    {
      && Remembers()
      && cur <= len < buf.Length && Oldest(hist) <= browse <= total && |saved| < LINE_MAX
      && Clean(buf[..len]) && Clean(saved)
      && Shows(term.screen, buf[..len], cur)
    }

    ghost function View(): Session
      requires len <= buf.Length
      reads this, buf
    {
      Session(buf[..len], cur, browse, saved)
    }

    constructor (size: nat)
      requires 0 < size <= LINE_MAX
      ensures Valid() && hist == [] && View() == Begin(hist) && fresh(buf) && fresh(ring) && fresh(term)
    {
      buf := new Byte[size](i => 0);
      ring := new seq<Byte>[HIST_MAX](i => []);
      term := new Terminal();
      total, len, cur, browse, saved, hist := 0, 0, 0, 0, [], [];
    }

    /** Prints the line from the cursor on, then a blank if asked to, and moves back to the cursor. */
    method RedrawTail(blank: bool)
      requires cur <= len <= buf.Length && Clean(buf[..len]) && term.screen.pos == cur <= |term.screen.text|
      modifies term
      ensures term.screen == Screen(Over(old(term.screen.text), cur, buf[cur..len] + if blank then [BLANK] else []), cur)
    {
      ghost var t := term.screen.text;
      assert BACKSPACE !in buf[cur..len] by { assert forall i :: cur <= i < len ==> buf[i] == buf[..len][i]; }
      term.PutSlice(buf, cur, len);
      if blank {
        OverSnoc(t, cur, buf[cur..len], BLANK);
        term.PutChar(BLANK);
      } else {
        assert buf[cur..len] + [] == buf[cur..len];
      }
      term.PutBacks(len - cur + if blank then 1 else 0);
    }

    /** Moves the characters after position `c` down by one. */
    method CloseGap(c: nat)
      requires c < len <= buf.Length
      modifies buf, this`len
      ensures len == old(len) - 1 && buf[..len] == old(buf[..c]) + old(buf[c + 1..len])
    {
      var n := len - 1;
      for j := c to n
        invariant len == n + 1
        invariant forall k :: 0 <= k < buf.Length ==> buf[k] == if c <= k < j then old(buf[k + 1]) else old(buf[k])
      {
        buf[j] := buf[j + 1];
      }
      len := n;
    }

    method PressBack()
      requires Valid()
      modifies this`len, this`cur, buf, term
      ensures Valid() && View() == Step(hist, buf.Length, old(View()), Backspace)
    {
      if cur > 0 {
        ghost var line, text := buf[..len], term.screen.text;
        cur := cur - 1;
        CloseGap(cur);
        assert buf[..len] == line[..cur] + line[cur + 1..];
        term.PutChar(BACKSPACE);
        RedrawTail(true);
        assert buf[cur..len] == buf[..len][cur..];
        OverShorter(text, line, buf[..len], cur);
      }
    }

    method PressDel()
      requires Valid()
      modifies this`len, buf, term
      ensures Valid() && View() == Step(hist, buf.Length, old(View()), Del)
    {
      if cur < len {
        ghost var line, text := buf[..len], term.screen.text;
        CloseGap(cur);
        assert buf[..len] == line[..cur] + line[cur + 1..];
        RedrawTail(true);
        assert buf[cur..len] == buf[..len][cur..];
        OverShorter(text, line, buf[..len], cur);
      }
    }

    method PressInsert(c: Char)
      requires Valid()
      modifies this`len, this`cur, buf, term
      ensures Valid() && View() == Step(hist, buf.Length, old(View()), Insert(c))
    {
      if len >= buf.Length - 1 { return; }
      ghost var line, text := buf[..len], term.screen.text;
      OpenGap(cur, c);
      assert buf[..len] == line[..cur] + [c] + line[cur..];
      assert buf[cur..len] == buf[..len][cur..];
      OverTail(text, line, buf[..len], cur);
      EchoInsert();
    }

    lemma GapFilled(s: seq<Byte>, c: nat, ch: Byte, r: seq<Byte>)
      requires c <= |s| && |r| == |s| + 1 && r[c] == ch
      requires (forall k :: 0 <= k < c ==> r[k] == s[k]) && forall k :: c < k < |r| ==> r[k] == s[k - 1]
      ensures r == s[..c] + [ch] + s[c..]
    {
    }

    /** Moves the characters from position `c` on up by one and puts the new one there. */
    method OpenGap(c: nat, ch: Byte)
      requires c <= len < buf.Length
      modifies buf, this`len
      ensures len == old(len) + 1 && buf[..len] == old(buf[..c]) + [ch] + old(buf[c..len])
    {
      ghost var s := buf[..len];
      var j := len;
      while j > c
        invariant c <= j <= len == |s|
        invariant forall k :: 0 <= k < j ==> buf[k] == s[k]
        invariant forall k :: j < k <= len ==> buf[k] == s[k - 1]
      {
        buf[j] := buf[j - 1];
        j := j - 1;
      }
      buf[c] := ch;
      len := len + 1;
      GapFilled(s, c, ch, buf[..len]);
    }

    /** Prints the new character and the rest, then moves back behind the new character. */
    method EchoInsert()
      requires cur < len <= buf.Length && Clean(buf[..len]) && term.screen.pos == cur <= |term.screen.text|
      modifies this`cur, term
      ensures cur == old(cur) + 1
      ensures term.screen == Screen(Over(old(term.screen.text), old(cur), buf[old(cur)..len]), cur)
    {
      assert BACKSPACE !in buf[cur..len] by { assert forall i :: cur <= i < len ==> buf[i] == buf[..len][i]; }
      cur := cur + 1;
      term.PutSlice(buf, cur - 1, len);
      term.PutBacks(len - cur);
    }

    /** Moving over characters echoes them, and moving back prints backspaces: the text does not change. */
    method MoveTo(target: nat)
      requires Valid() && target <= len
      modifies this`cur, term
      ensures Valid() && View() == old(View()).(cur := target)
    {
      ghost var text := term.screen.text;
      while cur > target
        invariant cur <= old(cur) && (target <= cur || cur == old(cur)) && term.screen == Screen(text, cur)
      {
        cur := cur - 1;
        term.PutChar(BACKSPACE);
      }
      while cur < target
        invariant cur <= target && term.screen == Screen(text, cur)
      {
        assert buf[cur] == buf[..len][cur] == text[cur];
        term.PutChar(buf[cur]);
        cur := cur + 1;
      }
    }

    /** Goes to the end of the line and blanks it backwards. */
    method EraseLine()
      requires Valid()
      modifies term
      ensures term.screen == Screen(Blanks(|old(term.screen.text)|), 0)
    {
      ghost var line, text := buf[..len], term.screen.text;
      assert BACKSPACE !in buf[cur..len] by { assert forall i :: cur <= i < len ==> buf[i] == line[i]; }
      term.PutSlice(buf, cur, len);
      assert buf[cur..len] == line[cur..];
      assert Over(text, cur, line[cur..]) == text;
      term.EraseBack(len, line);
    }

    method CopyIn(src: seq<Byte>, m: nat)
      requires m <= buf.Length && m <= |src|
      modifies buf
      ensures buf[..m] == src[..m]
    {
      for i := 0 to m
        invariant forall k :: 0 <= k < i ==> buf[k] == src[k]
      {
        buf[i] := src[i];
      }
    }

    /** Replaces the line by another one, on the screen and in the buffer. */
    method Replace(src: seq<Byte>)
      requires Valid() && Clean(src)
      modifies this`len, this`cur, buf, term
      ensures Valid() && View() == old(View()).(line := Cut(src, buf.Length), cur := |Cut(src, buf.Length)|)
    {
      ghost var line := Cut(src, buf.Length);
      EraseLine();
      ghost var n := |term.screen.text|;
      var m := if |src| >= buf.Length then buf.Length - 1 else |src|;
      CopyIn(src, m);
      len, cur := m, m;
      assert buf[..len] == buf[0..len] == line;
      assert Blanks(n) == [] + Blanks(n);
      OverTail(Blanks(n), [], line, 0);
      assert line[0..] == line;
      term.PutSlice(buf, 0, len);
    }

    method PressUp()
      requires Valid()
      modifies this`len, this`cur, this`browse, this`saved, buf, term
      ensures Valid() && View() == Step(hist, buf.Length, old(View()), Up)
    {
      var oldest := if total > HIST_MAX then total - HIST_MAX else 0;
      if browse <= oldest { return; }
      if browse == total { saved := buf[..len]; }
      browse := browse - 1;
      Replace(ring[browse % HIST_MAX]);
    }

    method PressDown()
      requires Valid()
      modifies this`len, this`cur, this`browse, buf, term
      ensures Valid() && View() == Step(hist, buf.Length, old(View()), Down)
    {
      if browse >= total { return; }
      browse := browse + 1;
      Replace(if browse == total then saved else ring[browse % HIST_MAX]);
    }

    method Press(key: Key)
      requires Valid()
      modifies this`len, this`cur, this`browse, this`saved, buf, term
      ensures Valid() && View() == Step(hist, buf.Length, old(View()), key)
    {
      match key {
        case Enter =>
        case Ignored =>
        case Backspace => PressBack();
        case Del => PressDel();
        case Left => MoveTo(if cur > 0 then cur - 1 else 0);
        case Right => MoveTo(if cur < len then cur + 1 else len);
        case Home => MoveTo(0);
        case End => MoveTo(len);
        case Up => PressUp();
        case Down => PressDown();
        case Insert(c) => PressInsert(c);
      }
    }

    /** `shell_readline`: an empty line to start with, keys until Enter or a full line, then the command is remembered. */
    method ReadLine(keys: seq<Key>) returns (line: seq<Byte>)
      requires Remembers() && term.screen == Screen([], 0)
      modifies this, buf, ring, term
      ensures Remembers() && line == Run(old(hist), buf.Length, Begin(old(hist)), keys).line
      ensures Shows(term.screen, line, cur)
      ensures hist == old(hist) + if |line| > 0 then [line] else []
    {
      len, cur, browse, saved := 0, 0, total, [];
      var i := 0;
      assert keys[0..] == keys;
      while len < buf.Length - 1 && i < |keys| && keys[i] != Enter
        invariant i <= |keys| && Valid() && hist == old(hist)
        invariant Run(hist, buf.Length, Begin(hist), keys) == Run(hist, buf.Length, View(), keys[i..])
        decreases |keys| - i
      {
        assert keys[i..][1..] == keys[i + 1..];
        Press(keys[i]);
        i := i + 1;
      }
      line := buf[..len];
      if len > 0 {
        RingAppend(ring[..], hist, line);
        ring[total % HIST_MAX] := line;
        total := total + 1;
        hist := hist + [line];
      }
    }
  }
}
