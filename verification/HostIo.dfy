/**
 * The console between the target (hostio.c) and the debugger (openocd.py): two rings in shared memory, no locks.
 * Each step below is one access to shared memory, or one decision between accesses; runs are any interleaving.
 */
module HostIo {

  const SIZE: nat := 1024

  function Slot(k: int): nat { k % SIZE }

  // ---------------------------------------------------------------- the ring

  /** The characters lo .. hi of s are in their slots. */
  ghost predicate Window(buf: seq<char>, s: seq<char>, lo: nat, hi: nat) {
    |buf| == SIZE && lo <= hi <= |s| && forall k :: lo <= k < hi ==> buf[Slot(k)] == s[k]
  }

  lemma SlotsDiffer(j: nat, k: nat)
    requires j < k < j + SIZE
    ensures Slot(j) != Slot(k)
  {
    assert k - j == (k / SIZE - j / SIZE) * SIZE + (Slot(k) - Slot(j));
  }

  /** Writing the next character leaves a window of fewer than SIZE characters. */
  lemma WindowWrite(buf: seq<char>, s: seq<char>, lo: nat, hi: nat, c: char)
    requires Window(buf, s, lo, hi) && hi - lo < SIZE && |s| == hi + 1 && s[hi] == c
    ensures Window(buf[Slot(hi) := c], s, lo, hi + 1)
  {
    forall k | lo <= k < hi ensures Slot(k) != Slot(hi) { SlotsDiffer(k, hi); }
  }

  // ---------------------------------------------------------------- output: the target prints

  /** obuf_putc: what it does next, and what it has read. */
  datatype Target =
    | Idle
    | ReadW(c: char)                         // about to read obuf_widx for the occupancy
    | ReadR(c: char, w: nat)                 // about to read obuf_ridx
    | ReadIndex(c: char)                     // there is room: about to read obuf_widx again
    | Store(c: char, widx: nat)              // about to write the character
    | Publish(c: char, widx: nat)            // about to write obuf_widx

  /** hostio_read: what it does next. */
  datatype Debugger =
    | Poll                                   // about to read OBUF_WIDX
    | Print(widx: nat, last: int, word: seq<char>)   // in the loop, with the last word read
    | Acknowledge                            // about to write OBUF_RIDX

  /**
   * Shared memory, both programs (own is the debugger's obuf_ridx), and the history: the characters sent by obuf_putc
   * calls that have returned and those printed, how many of them the target knows to be printed, and how many sent
   * ones the debugger knows of.
   */
  datatype Out = Out(obuf: seq<char>, widx: nat, ridx: nat, target: Target, debugger: Debugger, own: nat,
                     sent: seq<char>, printed: seq<char>, acked: nat, seen: nat)

  function Init(obuf: seq<char>): Out { Out(obuf, 0, 0, Idle, Poll, 0, [], [], 0, 0) }

  /** The characters passed to obuf_putc: those sent, and the one in hand. */
  function Passed(s: Out): seq<char> { s.sent + if s.target == Idle then [] else [s.target.c] }

  /** (w - r) & (OBUF_SIZE - 1) */
  function Enqueued(w: nat, r: nat): nat { Slot(w - r) }

  /** One step of the target; an idle one is passed the character c. */
  function TargetStep(s: Out, c: char): Out
    requires |s.obuf| == SIZE && (s.target.Store? ==> s.target.widx < SIZE)
  {
    match s.target
    case Idle => s.(target := ReadW(c))
    case ReadW(ch) => s.(target := ReadR(ch, s.widx))
    case ReadR(ch, w) => s.(target := if Enqueued(w, s.ridx) >= SIZE - 1 then ReadW(ch) else ReadIndex(ch))
    case ReadIndex(ch) => s.(target := Store(ch, s.widx))
    case Store(ch, w) => s.(target := Publish(ch, w), obuf := s.obuf[w := ch])
    case Publish(ch, w) => s.(target := Idle, widx := Slot(w + 1), sent := s.sent + [ch])
  }

  /** Where the word of slot i starts. */
  function WordOf(i: nat): nat { i - i % 4 }

  /** One step of the debugger. */
  function DebuggerStep(s: Out): Out
    requires |s.obuf| == SIZE && s.own < SIZE
    requires s.debugger.Print? && s.debugger.last == WordOf(s.own) ==> |s.debugger.word| == 4
  {
    match s.debugger
    case Poll => s.(debugger := Print(s.widx, -1, []), seen := |s.sent|)
    case Print(widx, last, word) =>
      var a := WordOf(s.own);
      if widx == s.own then s.(debugger := Acknowledge)
      else if last != a then s.(debugger := Print(widx, a, s.obuf[a..a + 4]))
      else s.(own := Slot(s.own + 1), printed := s.printed + [word[s.own % 4]])
    case Acknowledge => s.(debugger := Poll, ridx := s.own, acked := |s.printed|)
  }

  // ---------------------------------------------------------------- what every step keeps

  /** Indices are counts modulo SIZE; acknowledged <= printed <= seen <= sent, less than SIZE apart. */
  ghost predicate Counts(s: Out) {
    && s.acked <= |s.printed| <= s.seen <= |s.sent| < s.acked + SIZE
    && s.widx == Slot(|s.sent|) && s.own == Slot(|s.printed|) && s.ridx == Slot(s.acked)
  }

  /** There is room for one more character. */
  ghost predicate Room(s: Out) { |s.sent| + 1 < s.acked + SIZE }

  /** What the target knows: the room it has found stays, and the character it has stored. */
  ghost predicate TargetKnows(s: Out) {
    match s.target
    case ReadR(c, w) => w == s.widx
    case ReadIndex(c) => Room(s)
    case Store(c, w) => w == s.widx && Room(s)
    case Publish(c, w) => w == s.widx && Room(s) && w < |s.obuf| && s.obuf[w] == c
    case _ => true
  }

  /** The word the debugger has read holds what is still to be printed from it, up to the index it polled. */
  ghost predicate DebuggerKnows(s: Out) {
    s.debugger.Print? ==>
      && s.debugger.widx == Slot(s.seen)
      && (s.debugger.last == WordOf(s.own) ==> Cached(s.debugger.word, s.own % 4, s.sent, |s.printed|, s.seen))
  }

  ghost predicate Cached(word: seq<char>, j: nat, sent: seq<char>, printed: nat, seen: nat) {
    |word| == 4 && forall i :: j <= i < 4 && printed + i - j < seen && printed + i - j < |sent| ==> word[i] == sent[printed + i - j]
  }

  ghost predicate Inv(s: Out) {
    && Counts(s) && Window(s.obuf, s.sent, |s.printed|, |s.sent|) && TargetKnows(s) && DebuggerKnows(s)
    && s.printed <= s.sent
  }

  lemma InitInv(obuf: seq<char>)
    requires |obuf| == SIZE
    ensures Inv(Init(obuf))
  {}

  /** The occupancy the target computes from the index it knows is the number of characters not acknowledged. */
  lemma EnqueuedIs(w: nat, r: nat)
    requires r <= w < r + SIZE
    ensures Enqueued(Slot(w), Slot(r)) == w - r
  {
    assert Slot(w) - Slot(r) == (w - r) - (w / SIZE - r / SIZE) * SIZE;
    SlotShift(w - r, -(w / SIZE - r / SIZE));
  }

  lemma SlotShift(k: int, q: int)
    ensures Slot(k + q * SIZE) == Slot(k)
  {}

  lemma SlotNext(k: nat)
    ensures Slot(Slot(k) + 1) == Slot(k + 1)
  {
    SlotShift(k + 1, -(k / SIZE));
  }

  lemma TargetKeeps(s: Out, c: char)
    requires Inv(s)
    ensures Inv(TargetStep(s, c))
  {
    var t := TargetStep(s, c);
    match s.target
    case ReadR(ch, w) => EnqueuedIs(|s.sent|, s.acked);
    case Store(ch, w) => StoreKeeps(s);
    case Publish(ch, w) => SlotNext(|s.sent|);
    case _ =>
  }

  /** Storing the character overwrites nothing that is still to be printed. */
  lemma StoreKeeps(s: Out)
    requires Inv(s) && s.target.Store?
    ensures Inv(TargetStep(s, s.target.c))
  {
    WindowWrite(s.obuf, s.sent + [s.target.c], |s.printed|, |s.sent|, s.target.c);
  }

  /** Two counts less than SIZE apart are equal when their slots are. */
  lemma SameSlot(j: nat, k: nat)
    requires j <= k < j + SIZE
    ensures Slot(j) == Slot(k) <==> j == k
  {
    if j < k { SlotsDiffer(j, k); }
  }

  /** A word read from the ring holds the characters from its slot on that have been sent. */
  lemma WordCached(buf: seq<char>, sent: seq<char>, printed: nat, seen: nat, own: nat)
    requires Window(buf, sent, printed, |sent|) && own == Slot(printed) && seen <= |sent|
    ensures WordOf(own) + 4 <= SIZE && Cached(buf[WordOf(own)..WordOf(own) + 4], own % 4, sent, printed, seen)
  {
    var a, j := WordOf(own), own % 4;
    var w := buf[a..a + 4];
    forall i | j <= i < 4 && printed + i - j < seen && printed + i - j < |sent| ensures w[i] == sent[printed + i - j] {
      assert Slot(printed + i - j) == own + (i - j) by { SlotShift(own + (i - j), printed / SIZE); }
    }
  }

  lemma DebuggerKeeps(s: Out)
    requires Inv(s)
    ensures Inv(DebuggerStep(s))
  {
    match s.debugger
    case Poll =>
    case Acknowledge =>
    case Print(widx, last, word) =>
      SameSlot(|s.printed|, s.seen);
      if widx != s.own {
        if last != WordOf(s.own) {
          WordCached(s.obuf, s.sent, |s.printed|, s.seen, s.own);
        } else {
          PrintKeeps(s);
        }
      }
  }

  /** Printing the next character from the cached word; the rest of the word stays good, a new word is read anew. */
  lemma PrintKeeps(s: Out)
    requires Inv(s) && s.debugger.Print? && s.debugger.widx != s.own && s.debugger.last == WordOf(s.own)
    requires |s.printed| < s.seen
    ensures Inv(DebuggerStep(s))
  {
    SlotNext(|s.printed|);
    CachedNext(s.debugger.word, s.own % 4, s.sent, |s.printed|, s.seen);
    var t := DebuggerStep(s);
    assert t.own == if s.own + 1 == SIZE then 0 else s.own + 1;
  }

  lemma CachedNext(word: seq<char>, j: nat, sent: seq<char>, printed: nat, seen: nat)
    requires Cached(word, j, sent, printed, seen) && j < 4 && printed < seen && printed < |sent|
    ensures word[j] == sent[printed] && Cached(word, j + 1, sent, printed + 1, seen)
  {
    assert word[j] == sent[printed + j - j];
  }

  // ---------------------------------------------------------------- runs

  /** One turn of the schedule: the target, with the character it is passed if it is idle, or the debugger. */
  datatype Turn = TargetTurn(c: char) | DebuggerTurn

  lemma InvSteps(s: Out)
    requires Inv(s)
    ensures |s.obuf| == SIZE && s.own < SIZE && (s.target.Store? ==> s.target.widx < SIZE)
    ensures s.debugger.Print? && s.debugger.last == WordOf(s.own) ==> |s.debugger.word| == 4
  {}

  /** The state after a schedule. */
  ghost function Run(s: Out, turns: seq<Turn>): (t: Out)
    requires Inv(s)
    ensures Inv(t)
    decreases |turns|
  {
    if turns == [] then s
    else
      InvSteps(s);
      match turns[0]
      case TargetTurn(c) => TargetKeeps(s, c); Run(TargetStep(s, c), turns[1..])
      case DebuggerTurn => DebuggerKeeps(s); Run(DebuggerStep(s), turns[1..])
  }

  /** In every interleaving, what is printed is a prefix of what was passed to obuf_putc, and misses at most SIZE characters. */
  lemma PrintedIsPrefix(obuf: seq<char>, turns: seq<Turn>)
    requires |obuf| == SIZE
    ensures Inv(Init(obuf))
    ensures var s := Run(Init(obuf), turns); s.printed <= Passed(s) && |Passed(s)| <= |s.printed| + SIZE
  {
    InitInv(obuf);
  }

  /** Left alone, the debugger prints everything that was sent. */
  lemma {:induction false} CatchesUp(s: Out) returns (turns: seq<Turn>)
    requires Inv(s)
    ensures (forall t :: t in turns ==> t == DebuggerTurn)
    ensures var t := Run(s, turns); t.printed == s.sent == t.sent && t.acked == |s.sent| && t.target == s.target
    decreases |s.sent| - |s.printed|, Distance(s)
  {
    if s.debugger == Poll && |s.printed| == |s.sent| && s.acked == |s.sent| {
      turns := [];
    } else {
      DebuggerKeeps(s);
      DebuggerCloser(s);
      InvSteps(s);
      var rest := CatchesUp(DebuggerStep(s));
      turns := [DebuggerTurn] + rest;
      assert turns[1..] == rest;
    }
  }

  /** How many steps the debugger may take until it prints, or is done. */
  ghost function Distance(s: Out): nat {
    match s.debugger
    case Acknowledge => 1 + (if |s.printed| == |s.sent| then 0 else 10)
    case Poll => if |s.printed| == |s.sent| && s.acked == |s.sent| then 0 else if |s.printed| == |s.sent| then 3 else 5
    case Print(widx, last, word) =>
      if |s.printed| == s.seen then 2 + (if |s.printed| == |s.sent| then 0 else 10)
      else if last != WordOf(s.own) then 4 else 3
  }

  lemma DebuggerCloser(s: Out)
    requires Inv(s) && !(s.debugger == Poll && |s.printed| == |s.sent| && s.acked == |s.sent|)
    ensures var t := DebuggerStep(s);
      t.sent == s.sent && (|t.printed| > |s.printed| || (t.printed == s.printed && Distance(t) < Distance(s)))
  {
    if s.debugger.Print? { SameSlot(|s.printed|, s.seen); }
  }

  /** obuf_putc waits exactly when SIZE - 1 characters are not acknowledged. */
  lemma WaitsIff(s: Out, c: char)
    requires Inv(s) && s.target.ReadR?
    ensures TargetStep(s, c).target == if |s.sent| - s.acked == SIZE - 1 then ReadW(s.target.c) else ReadIndex(s.target.c)
  {
    EnqueuedIs(|s.sent|, s.acked);
  }

  /** What has been passed to obuf_putc grows by each call and never shrinks. */
  lemma PassedGrows(s: Out, c: char)
    requires Inv(s)
    ensures Passed(TargetStep(s, c)) == Passed(s) + if s.target == Idle then [c] else []
    ensures Passed(DebuggerStep(s)) == Passed(s)
  {}

  /** How many steps obuf_putc may take until it returns, if it need not wait. */
  function ToGo(t: Target): nat {
    match t
    case Idle => 0
    case ReadW(c) => 5
    case ReadR(c, w) => 4
    case ReadIndex(c) => 3
    case Store(c, w) => 2
    case Publish(c, w) => 1
  }

  /** With room in the ring, the target alone sends the character in hand. */
  lemma {:induction false} Sends(s: Out) returns (turns: seq<Turn>)
    requires Inv(s) && (s.target == Idle || Room(s))
    ensures forall t :: t in turns ==> t.TargetTurn?
    ensures var t := Run(s, turns); t.target == Idle && t.sent == Passed(s) && t.printed == s.printed
    decreases ToGo(s.target)
  {
    if s.target == Idle {
      turns := [];
    } else {
      var c := s.target.c;
      TargetKeeps(s, c);
      if s.target.ReadR? { WaitsIff(s, c); }
      InvSteps(s);
      var rest := Sends(TargetStep(s, c));
      turns := [TargetTurn(c)] + rest;
      assert turns[1..] == rest;
    }
  }

  lemma {:induction false} RunJoins(s: Out, a: seq<Turn>, b: seq<Turn>)
    requires Inv(s)
    ensures Run(s, a + b) == Run(Run(s, a), b)
    decreases |a|
  {
    if a == [] {
      assert a + b == b;
    } else {
      assert (a + b)[1..] == a[1..] + b;
      match a[0]
      case TargetTurn(c) => TargetKeeps(s, c); RunJoins(TargetStep(s, c), a[1..], b);
      case DebuggerTurn => DebuggerKeeps(s); RunJoins(DebuggerStep(s), a[1..], b);
    }
  }

  /** Nothing is stuck: from every state the two programs can go on until everything that was passed is printed. */
  lemma PrintsAll(s: Out) returns (turns: seq<Turn>)
    requires Inv(s)
    ensures var t := Run(s, turns); t.printed == Passed(s) == t.sent && t.target == Idle
  {
    var drain := CatchesUp(s);
    var s1 := Run(s, drain);
    var send := Sends(s1);
    var s2 := Run(s1, send);
    var again := CatchesUp(s2);
    RunJoins(s, drain, send);
    RunJoins(s, drain + send, again);
    turns := drain + send + again;
  }

  // ---------------------------------------------------------------- input: the debugger types

  /** hostio_write, one character: the word that holds its slot is read, changed and written, then the index. */
  datatype Typist = Ready | Write(c: char, word: seq<char>) | Advance(c: char)

  /** ibuf_getc */
  datatype Reader = Wait | Fetch | Release(c: char)

  /** Shared memory, both programs (own is the debugger's ibuf_widx), and the characters typed and got. */
  datatype In = In(ibuf: seq<char>, widx: nat, ridx: nat, typist: Typist, reader: Reader, own: nat,
                   typed: seq<char>, got: seq<char>)

  function InitIn(ibuf: seq<char>): In { In(ibuf, 0, 0, Ready, Wait, 0, [], []) }

  /** The test hostio_write waits for. */
  predicate Full(widx: nat, ridx: nat) { Enqueued(widx, ridx) >= SIZE }

  /** The masked count never reaches the size: the debugger never waits. */
  lemma NeverFull(widx: nat, ridx: nat)
    ensures !Full(widx, ridx)
  {}

  function TypistStep(s: In, c: char): In
    requires |s.ibuf| == SIZE && s.own < SIZE && (s.typist.Write? ==> |s.typist.word| == 4)
  {
    var a, b := WordOf(s.own), s.own % 4;
    match s.typist
    case Ready => if Full(s.own, s.ridx) then s else s.(typist := Write(c, s.ibuf[a..a + 4]))
    case Write(ch, word) => s.(typist := Advance(ch), ibuf := s.ibuf[..a] + word[b := ch] + s.ibuf[a + 4..])
    case Advance(ch) => s.(typist := Ready, own := Slot(s.own + 1), widx := Slot(s.own + 1), typed := s.typed + [ch])
  }

  function ReaderStep(s: In): In
    requires |s.ibuf| == SIZE && s.ridx < SIZE
  {
    match s.reader
    case Wait => if Enqueued(s.widx, s.ridx) == 0 then s else s.(reader := Fetch)
    case Fetch => s.(reader := Release(s.ibuf[s.ridx]))
    case Release(ch) => s.(reader := Wait, ridx := Slot(s.ridx + 1), got := s.got + [ch])
  }

  /** The start of what the ring still holds when n characters have been stored. */
  function Oldest(n: nat): nat { if n < SIZE then 0 else n - SIZE }

  /** The characters stored: those typed, and one that has no index yet. */
  function Stored(s: In): seq<char> { s.typed + if s.typist.Advance? then [s.typist.c] else [] }

  /** What holds in every run: the ring has the last SIZE characters stored, and the indices are counts. */
  ghost predicate InInv(s: In) {
    (Window(s.ibuf, Stored(s), Oldest(|Stored(s)|), |Stored(s)|)
    && s.own == s.widx == Slot(|s.typed|) && s.ridx == Slot(|s.got|)
    && (s.typist.Write? ==> s.typist.word == s.ibuf[WordOf(s.own)..WordOf(s.own) + 4])) == true  // kept whole in proofs
  }

  /** Storing a character in its word stores it in its slot. */
  lemma WriteIs(buf: seq<char>, i: nat, c: char)
    requires |buf| == SIZE && i < SIZE
    ensures WordOf(i) + 4 <= SIZE
    ensures var a := WordOf(i); buf[..a] + buf[a..a + 4][i % 4 := c] + buf[a + 4..] == buf[i := c]
  {}

  /** The ring keeps the last SIZE characters. */
  lemma WindowRolls(buf: seq<char>, s: seq<char>, c: char)
    requires Window(buf, s, Oldest(|s|), |s|)
    ensures Window(buf[Slot(|s|) := c], s + [c], Oldest(|s| + 1), |s| + 1)
  {
    forall k | Oldest(|s| + 1) <= k < |s| ensures Slot(k) != Slot(|s|) { SlotsDiffer(k, |s|); }
  }

  lemma TypistKeeps(s: In, c: char)
    requires InInv(s)
    ensures InInv(TypistStep(s, c))
  {
    WriteIs(s.ibuf, s.own, if s.typist.Write? then s.typist.c else c);
    match s.typist
    case Write(ch, word) => WindowRolls(s.ibuf, s.typed, ch);
    case Advance(ch) => SlotNext(|s.typed|);
    case Ready =>
  }

  lemma ReaderKeeps(s: In)
    requires InInv(s)
    ensures InInv(ReaderStep(s))
  {
    SlotNext(|s.got|);
  }

  /** While the occupancy is below the size, what has been got is right, and so is what is about to be. */
  ghost predicate RightSoFar(s: In) {
    && s.got <= s.typed && |Stored(s)| - |s.got| < SIZE
    && (s.reader != Wait ==> |s.got| < |s.typed|)
    && (s.reader.Release? ==> s.reader.c == s.typed[|s.got|])
  }

  lemma TypistRight(s: In, c: char)
    requires InInv(s) && RightSoFar(s) && (s.typist.Write? ==> |s.typed| + 1 - |s.got| < SIZE)
    ensures RightSoFar(TypistStep(s, c))
  {}

  lemma ReaderRight(s: In)
    requires InInv(s) && RightSoFar(s)
    ensures RightSoFar(ReaderStep(s))
  {
    if s.reader == Wait { EnqueuedIs(|s.typed|, |s.got|); }
    if s.reader == Fetch { assert Stored(s)[|s.got|] == s.typed[|s.got|]; }
  }

  datatype InTurn = Type(c: char) | Read

  /** The occupancy stays below the size throughout. */
  ghost predicate Within(s: In, turns: seq<InTurn>)
    requires InInv(s)
    decreases |turns|
  {
    turns == [] || match turns[0]
      case Type(c) => TypistKeeps(s, c); (s.typist.Write? ==> |s.typed| + 1 - |s.got| < SIZE) && Within(TypistStep(s, c), turns[1..])
      case Read => ReaderKeeps(s); Within(ReaderStep(s), turns[1..])
  }

  ghost function RunIn(s: In, turns: seq<InTurn>): (t: In)
    requires InInv(s)
    ensures InInv(t)
    decreases |turns|
  {
    if turns == [] then s
    else match turns[0]
      case Type(c) => TypistKeeps(s, c); RunIn(TypistStep(s, c), turns[1..])
      case Read => ReaderKeeps(s); RunIn(ReaderStep(s), turns[1..])
  }

  /** If the occupancy stays below the size, the target gets a prefix of what is typed. */
  lemma {:induction false} GotIsPrefix(s: In, turns: seq<InTurn>)
    requires InInv(s) && RightSoFar(s) && Within(s, turns)
    ensures RightSoFar(RunIn(s, turns))
    decreases |turns|
  {
    if turns != [] {
      match turns[0]
      case Type(c) =>
        TypistKeeps(s, c);
        TypistRight(s, c);
        GotIsPrefix(TypistStep(s, c), turns[1..]);
      case Read =>
        ReaderKeeps(s);
        ReaderRight(s);
        GotIsPrefix(ReaderStep(s), turns[1..]);
    }
  }

  /** What the next ibuf_getc returns if nothing more is typed; None if it waits. */
  function Next(s: In): seq<char>
    requires |s.ibuf| == SIZE && s.ridx < SIZE
  {
    if Enqueued(s.widx, s.ridx) == 0 then [] else [s.ibuf[s.ridx]]
  }

  /** Between calls, with o > 0 characters outstanding, what the target gets next; the right one for certain only if o < SIZE. */
  lemma NextIs(s: In)
    requires InInv(s) && s.typist == Ready && s.reader == Wait && |s.got| < |s.typed|
    ensures var o := |s.typed| - |s.got|;
      Next(s) == if o % SIZE == 0 then [] else [s.typed[|s.got| + o / SIZE * SIZE]]
    ensures var o := |s.typed| - |s.got|;
      Next(s) == [s.typed[|s.got|]] <==> o < SIZE || (o % SIZE != 0 && s.typed[|s.got| + o / SIZE * SIZE] == s.typed[|s.got|])
  {
    var o := |s.typed| - |s.got|;
    var q := o / SIZE;
    var k := |s.got| + q * SIZE;
    SlotShift(|s.got|, q);
    assert Slot(|s.typed|) - Slot(|s.got|) == o - (|s.typed| / SIZE - |s.got| / SIZE) * SIZE;
    SlotShift(o, -(|s.typed| / SIZE - |s.got| / SIZE));
    if o % SIZE != 0 { assert s.ibuf[Slot(k)] == Stored(s)[k]; }
  }

  /** Three turns of the target get that character; if there is none its turns change nothing. */
  lemma GetsNext(s: In)
    requires InInv(s) && s.reader == Wait
    ensures if Next(s) == [] then ReaderStep(s) == s
            else var t := RunIn(s, [Read, Read, Read]); t.got == s.got + Next(s) && t.reader == Wait && t.typed == s.typed
  {
    if Next(s) != [] {
      var s1 := ReadOne(s, [Read, Read]);
      var s2 := ReadOne(s1, [Read]);
      var s3 := ReadOne(s2, []);
    }
  }

  /** While the occupancy is below the size, turns of the target alone get everything that was typed. */
  lemma {:induction false} GetsAll(s: In) returns (turns: seq<InTurn>)
    requires InInv(s) && RightSoFar(s)
    ensures forall t :: t in turns ==> t == Read
    ensures var t := RunIn(s, turns); t.got == s.typed == t.typed && t.reader == Wait
    decreases |s.typed| - |s.got|, match s.reader case Wait => 2 case Fetch => 1 case Release(_) => 0
  {
    if s.reader == Wait && |s.got| == |s.typed| {
      turns := [];
    } else {
      ReaderKeeps(s);
      ReaderRight(s);
      if s.reader == Wait { EnqueuedIs(|s.typed|, |s.got|); }
      var rest := GetsAll(ReaderStep(s));
      turns := [Read] + rest;
      assert turns[1..] == rest;
    }
  }

  lemma ReadOne(s: In, rest: seq<InTurn>) returns (t: In)
    requires InInv(s)
    ensures t == ReaderStep(s) && InInv(t) && RunIn(s, [Read] + rest) == RunIn(t, rest)
  {
    ReaderKeeps(s);
    t := ReaderStep(s);
    assert ([Read] + rest)[1..] == rest;
  }

  /** The turns that type data with no turn of the target in between. */
  function TypeAll(data: seq<char>): seq<InTurn> {
    if data == [] then [] else [Type(data[0])] + ([Type(data[0])] + ([Type(data[0])] + TypeAll(data[1..])))
  }

  lemma RunOne(s: In, c: char, rest: seq<InTurn>) returns (t: In)
    requires InInv(s)
    ensures t == TypistStep(s, c) && InInv(t) && RunIn(s, [Type(c)] + rest) == RunIn(t, rest)
  {
    TypistKeeps(s, c);
    t := TypistStep(s, c);
    assert ([Type(c)] + rest)[1..] == rest;
  }

  /** Three turns type one character. */
  lemma TypesOne(s: In, c: char, rest: seq<InTurn>) returns (t: In)
    requires InInv(s) && s.typist == Ready
    ensures InInv(t) && t.typist == Ready && t.typed == s.typed + [c] && t.got == s.got && t.reader == s.reader
    ensures RunIn(s, [Type(c)] + ([Type(c)] + ([Type(c)] + rest))) == RunIn(t, rest)
  {
    var s1 := RunOne(s, c, [Type(c)] + ([Type(c)] + rest));
    var s2 := RunOne(s1, c, [Type(c)] + rest);
    t := RunOne(s2, c, rest);
  }

  lemma RunNone(s: In)
    requires InInv(s)
    ensures RunIn(s, []) == s
  {}

  lemma {:induction false} AfterTyping(s: In, data: seq<char>)
    requires InInv(s) && s.typist == Ready
    ensures var t := RunIn(s, TypeAll(data));
      t.typed == s.typed + data && t.got == s.got && t.reader == s.reader && t.typist == Ready
    decreases |data|
  {
    hide InInv, TypistStep, ReaderStep, RunIn;
    if data == [] {
      RunNone(s);
      assert s.typed + data == s.typed;
    } else {
      var rest := data[1..];
      var t := TypesOne(s, data[0], TypeAll(rest));
      AfterTyping(t, rest);
      assert t.typed + rest == s.typed + data;
    }
  }

  /** One character more than the ring holds, with none got: the target gets the newest. */
  lemma OneTooMany(s: In)
    requires InInv(s) && s.typist == Ready && s.reader == Wait && s.got == [] && |s.typed| == SIZE + 1
    ensures Next(s) == [s.typed[SIZE]]
  {
    NextIs(s);
  }

  /** The masked count lets the debugger overrun the ring: of 1025 characters typed at once the target gets the last one first. */
  lemma Overrun(ibuf: seq<char>, data: seq<char>)
    requires |ibuf| == SIZE && |data| == SIZE + 1
    ensures InInv(InitIn(ibuf))
    ensures var s := RunIn(InitIn(ibuf), TypeAll(data)); s.typed == data && s.got == [] && Next(s) == [data[SIZE]]
  {
    AfterTyping(InitIn(ibuf), data);
    OneTooMany(RunIn(InitIn(ibuf), TypeAll(data)));
  }
}
