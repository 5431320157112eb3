/**
 The keyboard: a ring of CIRCULAR_SIZE characters filled by the interrupt, drained by reads of any size
 (zeos/interrupt.c keyboard_routine, zeos/devices.c sys_read_keyboard and copy_from_circ_buffer).
 */
module Keyboard {
  import opened Division

  /** Any positive size will do; the kernel is built with 5. */
  const CIRCULAR_SIZE: Size

  const EPERM: int := 1

  /** A blocked read: `pending` keys are missing, `size` characters are still to be copied, `got` were copied. */
  datatype Reader = Reader(pid: int, wanted: nat, pending: int, size: int, got: seq<char>)

  /** A completed read. */
  datatype Delivery = Delivery(pid: int, wanted: nat, data: seq<char>)

  datatype Kbd = Kbd(circular: seq<char>, p: nat, start: nat, chars: nat, readers: seq<Reader>, done: seq<Delivery>)

  datatype Op = Key(c: char) | Read(pid: int, n: nat)

  /** The slot that is i steps from the first one, round the ring. */
  function Slot(i: nat): (slot: nat)
    ensures slot < CIRCULAR_SIZE
  {
    i % CIRCULAR_SIZE
  }

  lemma SlotIsIndex(i: nat)
    requires i < CIRCULAR_SIZE
    ensures Slot(i) == i
  {
    Below(CIRCULAR_SIZE, i);
  }

  lemma SlotAfter(i: nat, j: nat)
    ensures Slot(Slot(i) + j) == Slot(i + j)
  {
    RemainderOfSum(CIRCULAR_SIZE, i, j);
  }

  /** copy_from_circ_buffer: n characters from the start on, round the ring. */
  function Copy(circular: seq<char>, start: nat, n: nat): (r: seq<char>)
    requires |circular| == CIRCULAR_SIZE
    ensures |r| == n && forall i :: 0 <= i < n ==> r[i] == circular[Slot(start + i)]
  {
    seq(n, i requires 0 <= i => circular[Slot(start + i)])
  }

  predicate Shape(k: Kbd) {
    |k.circular| == CIRCULAR_SIZE && k.p < CIRCULAR_SIZE && k.start < CIRCULAR_SIZE
  }

  /** sys_read_keyboard */
  function ReadKeys(k: Kbd, pid: int, n: nat): Kbd
    requires Shape(k)
  {
    var pending := if n > k.chars then n - k.chars else 0;
    if pending <= 0 && k.readers == [] then
      k.(chars := k.chars - n, start := Slot(k.start + n),
         done := k.done + [Delivery(pid, n, Copy(k.circular, k.start, n))])
    else if pid != 0 then k.(start := k.p, readers := k.readers + [Reader(pid, n, pending, n, [])])
    else k
  }

  /** The key goes into the ring. */
  function Typed(k: Kbd, c: char): (k': Kbd)
    requires Shape(k)
    ensures Shape(k')
  {
    k.(circular := k.circular[k.p := c], p := Slot(k.p + 1), chars := k.chars + 1)
  }

  /** The first reader lacks one key less: it is complete, or a full ring is emptied into its memory, or it waits on. */
  function ServeFirst(k: Kbd): Kbd
    requires Shape(k) && k.readers != []
  {
    var r := k.readers[0].(pending := k.readers[0].pending - 1);
    if r.pending <= 0 then
      k.(chars := 0, start := k.p, readers := k.readers[1..],
         done := k.done + [Delivery(r.pid, r.wanted,
           r.got + Copy(k.circular, k.start, if r.size < 0 then 0 else r.size))])
    else if k.chars >= CIRCULAR_SIZE then
      k.(chars := 0, start := k.p,
         readers := k.readers[0 :=
           r.(size := r.size - k.chars, got := r.got + Copy(k.circular, k.start, CIRCULAR_SIZE))])
    else k.(readers := k.readers[0 := r])
  }

  /** keyboard_routine for a pressed key */
  function PressKey(k: Kbd, c: char): Kbd
    requires Shape(k)
  {
    if k.readers == [] then Typed(k, c) else ServeFirst(Typed(k, c))
  }

  function Step(k: Kbd, op: Op): Kbd
    requires Shape(k)
  {
    match op
    case Key(c) => PressKey(k, c)
    case Read(pid, n) => ReadKeys(k, pid, n)
  }

  // ---------------------------------------------------------------- what the ring promises

  /** Characters typed and not yet copied to anybody. */
  function Unread(k: Kbd): seq<char>
    requires Shape(k)
  {
    Copy(k.circular, k.start, k.chars)
  }

  function AllData(done: seq<Delivery>): seq<char> {
    if done == [] then [] else AllData(done[..|done| - 1]) + done[|done| - 1].data
  }

  function Partial(k: Kbd): seq<char> {
    if k.readers == [] then [] else k.readers[0].got
  }

  /** The first reader lacks as many keys as its count says; the others have nothing yet. */
  predicate ReadersOk(k: Kbd) {
    && (k.readers != [] ==>
          var r := k.readers[0];
          r.pending > 0 && r.size == r.pending + k.chars && |r.got| + r.size == r.wanted && k.chars < CIRCULAR_SIZE)
    && (forall i :: 1 <= i < |k.readers| ==>
          var r := k.readers[i]; r.got == [] && r.pending == r.size == r.wanted && r.wanted > 0)
  }

  /** A read, as it was asked for. */
  datatype Request = Request(pid: int, n: nat)

  function Asked(done: seq<Delivery>, readers: seq<Reader>): (r: seq<Request>)
    ensures |r| == |done| + |readers|
  {
    seq(|done| + |readers|, i requires 0 <= i < |done| + |readers| =>
      if i < |done| then Request(done[i].pid, done[i].wanted)
      else Request(readers[i - |done|].pid, readers[i - |done|].wanted))
  }

  predicate RingOk(k: Kbd) {
    Shape(k) && k.chars <= CIRCULAR_SIZE && k.p == Slot(k.start + k.chars)
  }

  /**
   Every key typed so far is in a completed read, with the first blocked reader, or in the ring, in the order
   of typing.
  */
  predicate Accounted(k: Kbd, typed: seq<char>)
    requires Shape(k)
  {
    typed == AllData(k.done) + Partial(k) + Unread(k)
  }

  /** Each completed read has exactly the characters it asked for. */
  predicate Complete(done: seq<Delivery>) {
    forall i :: 0 <= i < |done| ==> |done[i].data| == done[i].wanted
  }

  predicate Inv(k: Kbd, typed: seq<char>, asked: seq<Request>) {
    && RingOk(k) && ReadersOk(k) && Accounted(k, typed) && Complete(k.done)
    && asked == Asked(k.done, k.readers)
  }

  /** Room in the ring for a key nobody waits for; a read that must block finds the ring empty. */
  predicate Enabled(k: Kbd, op: Op) {
    match op
    case Key(_) => k.readers != [] || k.chars < CIRCULAR_SIZE
    case Read(pid, n) => (k.readers == [] && n <= k.chars) || pid == 0 || (k.chars == 0 && n > 0)
  }

  function TypedAfter(typed: seq<char>, op: Op): seq<char> {
    if op.Key? then typed + [op.c] else typed
  }

  /** Task 0 is never queued; its read counts only if it can be served at once. */
  function AskedAfter(k: Kbd, asked: seq<Request>, op: Op): seq<Request> {
    if op.Read? && ((k.readers == [] && op.n <= k.chars) || op.pid != 0) then asked + [Request(op.pid, op.n)] else asked
  }

  lemma AllDataPush(done: seq<Delivery>, d: Delivery)
    ensures AllData(done + [d]) == AllData(done) + d.data
  {
    assert (done + [d])[..|done|] == done;
  }

  /** The ring with one more key: the unread characters grow by it. */
  lemma UnreadGrows(k: Kbd, c: char)
    requires Shape(k) && k.chars < CIRCULAR_SIZE && k.p == Slot(k.start + k.chars)
    ensures Copy(k.circular[k.p := c], k.start, k.chars + 1) == Unread(k) + [c]
    ensures Slot(k.p + 1) == Slot(k.start + (k.chars + 1))
  {
    hide Slot;
    var after := Copy(k.circular[k.p := c], k.start, k.chars + 1);
    forall i | 0 <= i < k.chars + 1 ensures after[i] == (Unread(k) + [c])[i] {
      if i < k.chars {
        SlotsApart(k.start + i, k.start + k.chars);
      }
    }
    SlotAfter(k.start + k.chars, 1);
  }

  lemma SlotsApart(i: nat, j: nat)
    requires i < j < i + CIRCULAR_SIZE
    ensures Slot(i) != Slot(j)
  {
    Apart(CIRCULAR_SIZE, i, j);
  }

  lemma KeyReaders(k: Kbd, c: char)
    requires RingOk(k) && ReadersOk(k) && Complete(k.done) && Enabled(k, Key(c))
    ensures RingOk(PressKey(k, c)) && ReadersOk(PressKey(k, c)) && Complete(PressKey(k, c).done)
  {
    hide Copy, Slot;
    UnreadGrows(k, c);
    SlotIsIndex(Slot(k.p + 1));
  }

  /** Three pieces of text, one more character at the end. */
  lemma Longer(a: seq<char>, b: seq<char>, c: seq<char>, x: char)
    ensures a + b + (c + [x]) == (a + b + c) + [x]
    ensures (a + (b + (c + [x]))) + [] + [] == (a + b + c) + [x]
    ensures a + (b + (c + [x])) + [] == (a + b + c) + [x]
  {
  }

  lemma KeyAccounted(k: Kbd, typed: seq<char>, c: char)
    requires RingOk(k) && ReadersOk(k) && Accounted(k, typed) && Enabled(k, Key(c))
    ensures Shape(PressKey(k, c)) && Accounted(PressKey(k, c), typed + [c])
  {
    hide Copy;
    UnreadGrows(k, c);
    KeyShape(k, c);
    var k' := PressKey(k, c);
    var unread := Unread(k) + [c];
    Longer(AllData(k.done), Partial(k), Unread(k), c);
    if k.readers != [] && k.readers[0].pending == 1 {
      var r := k.readers[0];
      var d := Delivery(r.pid, r.wanted, r.got + unread);
      AllDataPush(k.done, d);
      assert k'.done == k.done + [d] && Partial(k') == [] && Unread(k') == [];
      hide AllData, Unread;
    } else if k.readers != [] && k.chars + 1 >= CIRCULAR_SIZE {
      assert k'.done == k.done && Partial(k') == k.readers[0].got + unread && Unread(k') == [];
      hide AllData, Unread;
    } else {
      assert k'.done == k.done && Partial(k') == Partial(k) && Unread(k') == unread;
      hide AllData, Unread;
    }
  }

  lemma KeyShape(k: Kbd, c: char)
    requires Shape(k)
    ensures Shape(PressKey(k, c))
  {
    hide Copy;
  }

  lemma KeyOrdered(k: Kbd, c: char)
    requires Shape(k)
    ensures Asked(PressKey(k, c).done, PressKey(k, c).readers) == Asked(k.done, k.readers)
  {
    hide Copy;
  }

  lemma KeyInv(k: Kbd, typed: seq<char>, asked: seq<Request>, c: char)
    requires Inv(k, typed, asked) && Enabled(k, Key(c))
    ensures Inv(PressKey(k, c), typed + [c], asked)
  {
    KeyReaders(k, c);
    KeyAccounted(k, typed, c);
    KeyOrdered(k, c);
    hide RingOk, ReadersOk, Accounted, Complete, PressKey, Asked;
  }

  /** A key is accounted for exactly if somebody waits for it or the ring has room for it. */
  lemma KeyInvIff(k: Kbd, typed: seq<char>, asked: seq<Request>, c: char)
    requires Inv(k, typed, asked)
    ensures Inv(PressKey(k, c), typed + [c], asked) <==> Enabled(k, Key(c))
  {
    if Enabled(k, Key(c)) {
      KeyInv(k, typed, asked, c);
    } else {
      hide Copy;
      assert PressKey(k, c).chars == CIRCULAR_SIZE + 1;
    }
  }

  /** On a full ring with no reader the new key takes the place of the oldest one: the next read delivers it first. */
  lemma FullRingLosesTheOldest(k: Kbd, typed: seq<char>, asked: seq<Request>, c: char, pid: int)
    requires Inv(k, typed, asked) && k.readers == [] && k.chars == CIRCULAR_SIZE
    ensures var k' := ReadKeys(PressKey(k, c), pid, 1);
            && k'.done == k.done + [Delivery(pid, 1, [c])]
            && (Unread(k)[0] != c ==> k'.done[|k.done|].data != Unread(k)[..1])
  {
    var k1 := PressKey(k, c);
    Turn(k.start);
    SlotIsIndex(k.start);
    hide Slot;
    assert Copy(k1.circular, k1.start, 1) == [c];
  }

  /** Once round the ring. */
  lemma Turn(start: nat)
    ensures Slot(start + CIRCULAR_SIZE) == Slot(start)
  {
    Below(CIRCULAR_SIZE, CIRCULAR_SIZE);
    SlotAfter(CIRCULAR_SIZE, start);
    SlotAfter(start, 0);
    hide Slot;
  }

  lemma ReadInv(k: Kbd, typed: seq<char>, asked: seq<Request>, pid: int, n: nat)
    requires Inv(k, typed, asked) && Enabled(k, Read(pid, n))
    ensures Inv(ReadKeys(k, pid, n), typed, AskedAfter(k, asked, Read(pid, n)))
  {
    hide Copy;
    if k.readers == [] && n <= k.chars {
      TakeFirst(k, pid, n);
    } else if pid != 0 {
      JoinQueue(k, pid, n);
    }
  }

  lemma TakeFirst(k: Kbd, pid: int, n: nat)
    requires RingOk(k) && k.readers == [] && n <= k.chars
    ensures var k' := ReadKeys(k, pid, n);
            && RingOk(k') && k'.readers == []
            && AllData(k'.done) + Partial(k') + Unread(k') == AllData(k.done) + Partial(k) + Unread(k)
            && Asked(k'.done, k'.readers) == Asked(k.done, k.readers) + [Request(pid, n)]
  {
    hide Copy, Asked, AllData, Slot;
    TakeRing(k, pid, n);
    var k' := ReadKeys(k, pid, n);
    var data := Copy(k.circular, k.start, n);
    var d := Delivery(pid, n, data);
    AllDataPush(k.done, d);
    TakeOrdered(k, d);
    Regroup(AllData(k.done), data, Unread(k'));
  }

  /** The ring after a read that is served at once: the unread characters split where it stopped. */
  lemma TakeRing(k: Kbd, pid: int, n: nat)
    requires RingOk(k) && k.readers == [] && n <= k.chars
    ensures var k' := ReadKeys(k, pid, n);
            && RingOk(k') && k'.readers == [] && k'.done == k.done + [Delivery(pid, n, Copy(k.circular, k.start, n))]
            && Unread(k) == Copy(k.circular, k.start, n) + Unread(k')
  {
    hide Copy, Slot;
    CopySplit(k.circular, k.start, n, k.chars);
    SlotAfter(k.start + n, k.chars - n);
  }

  lemma Regroup(a: seq<char>, b: seq<char>, c: seq<char>)
    ensures (a + b) + [] + c == a + [] + (b + c)
  {
  }

  lemma TakeOrdered(k: Kbd, d: Delivery)
    requires k.readers == []
    ensures Asked(k.done + [d], []) == Asked(k.done, k.readers) + [Request(d.pid, d.wanted)]
  {
  }

  lemma CopySplit(circular: seq<char>, start: nat, n: nat, chars: nat)
    requires |circular| == CIRCULAR_SIZE && n <= chars
    ensures Copy(circular, start, chars) == Copy(circular, start, n) + Copy(circular, Slot(start + n), chars - n)
  {
    hide Slot;
    var a, b := Copy(circular, start, n), Copy(circular, Slot(start + n), chars - n);
    forall i | 0 <= i < chars ensures Copy(circular, start, chars)[i] == (a + b)[i] {
      if i >= n {
        SlotAfter(start + n, i - n);
      }
    }
  }

  lemma JoinQueue(k: Kbd, pid: int, n: nat)
    requires RingOk(k) && ReadersOk(k) && pid != 0 && k.chars == 0 && n > 0
    ensures var k' := ReadKeys(k, pid, n);
            && RingOk(k') && ReadersOk(k') && Partial(k') == Partial(k) && Unread(k') == Unread(k) && k'.done == k.done
            && Asked(k'.done, k'.readers) == Asked(k.done, k.readers) + [Request(pid, n)]
  {
    hide Slot;
    assert Unread(k) == [];
    SlotIsIndex(k.p);
  }

  /** Only an enabled call keeps the promise: a read that blocks on typed-ahead characters breaks the ring. */
  lemma ReadInvIff(k: Kbd, typed: seq<char>, asked: seq<Request>, pid: int, n: nat)
    requires Inv(k, typed, asked)
    ensures Inv(ReadKeys(k, pid, n), typed, AskedAfter(k, asked, Read(pid, n))) <==> Enabled(k, Read(pid, n))
  {
    if Enabled(k, Read(pid, n)) {
      ReadInv(k, typed, asked, pid, n);
    } else {
      LateReadBreaks(k, pid, n);
      hide ReadKeys, ReadersOk, RingOk, Accounted, Complete;
    }
  }

  /** Either the ring no longer ends at the write index, or a reader lacks fewer keys than it will be given. */
  lemma LateReadBreaks(k: Kbd, pid: int, n: nat)
    requires RingOk(k) && ReadersOk(k) && !Enabled(k, Read(pid, n))
    ensures !RingOk(ReadKeys(k, pid, n)) || !ReadersOk(ReadKeys(k, pid, n))
  {
    hide Copy, Slot;
    var k' := ReadKeys(k, pid, n);
    assert k'.readers[|k.readers|] == Reader(pid, n, if n > k.chars then n - k.chars else 0, n, []);
    if k.readers == [] && k.chars < CIRCULAR_SIZE {
      SlotIsIndex(k.p);
      SlotsApart(k.p, k.p + k.chars);
    }
  }

  /** Typed-ahead characters are skipped: such a reader gets the key typed after its call first. */
  lemma TypeAheadIsLost(k: Kbd, typed: seq<char>, asked: seq<Request>, pid: int, c: char)
    requires Inv(k, typed, asked) && k.readers == [] && 0 < k.chars < CIRCULAR_SIZE && pid != 0
    ensures var n := k.chars + 1;
            var k' := PressKey(ReadKeys(k, pid, n), c);
            && |k'.done| == |k.done| + 1 && |k'.done[|k.done|].data| == n && k'.done[|k.done|].data[0] == c
            && (Unread(k)[0] != c ==> k'.done[|k.done|].data != Unread(k) + [c])
  {
    var k1 := ReadKeys(k, pid, k.chars + 1);
    SlotIsIndex(k.p);
    hide Slot;
    var data := [] + Copy(k1.circular[k1.p := c], k1.start, k.chars + 1);
    assert PressKey(k1, c).done == k.done + [Delivery(pid, k.chars + 1, data)];
    assert data[0] == c;
  }

  /** init_keyboard */
  function Boot(circular: seq<char>): Kbd {
    Kbd(circular, 0, 0, 0, [], [])
  }

  lemma BootInv(circular: seq<char>)
    requires |circular| == CIRCULAR_SIZE
    ensures Inv(Boot(circular), [], [])
  {
  }

  // ---------------------------------------------------------------- the staging buffer

  /** How many characters keyboard_routine copies through its buffer when c is pressed. */
  function CopySize(k: Kbd, c: char): int
    requires Shape(k)
  {
    if k.readers == [] then 0
    else if k.readers[0].pending <= 1 then k.readers[0].size
    else if k.chars + 1 >= CIRCULAR_SIZE then CIRCULAR_SIZE
    else 0
  }

  /** Wherever the account holds, what a key or a read copies fits in the buffer. */
  lemma CopyFits(k: Kbd, typed: seq<char>, asked: seq<Request>, c: char)
    requires Inv(k, typed, asked)
    ensures 0 <= CopySize(k, c) <= CIRCULAR_SIZE && k.chars <= CIRCULAR_SIZE
  {
    hide Copy;
  }

  /** Some key of `keys` makes a copy longer than the buffer. */
  predicate Overruns(k: Kbd, keys: seq<char>)
    requires Shape(k)
    decreases |keys|
  {
    && keys != []
    && (CopySize(k, keys[0]) > CIRCULAR_SIZE || (KeyShape(k, keys[0]); Overruns(PressKey(k, keys[0]), keys[1..])))
  }

  /** Keys until a reader is complete. */
  function Need(r: Reader): nat {
    if r.pending <= 1 then 1 else r.pending
  }

  function NeedAll(readers: seq<Reader>): nat {
    if readers == [] then 0 else Need(readers[0]) + NeedAll(readers[1..])
  }

  /** What is left to copy to a first reader when its last key comes: a full ring was copied whenever there was one. */
  function LastCopy(chars: nat, r: Reader): int {
    if r.pending <= 1 then r.size else r.size - r.pending - chars + Slot(chars + r.pending - 1) + 1
  }

  /** The same question asked of the counts alone, for n keys. */
  predicate QueueOverruns(chars: nat, readers: seq<Reader>, n: nat) {
    && readers != [] && n >= Need(readers[0])
    && (LastCopy(chars, readers[0]) > CIRCULAR_SIZE || QueueOverruns(0, readers[1..], n - Need(readers[0])))
  }

  lemma {:induction false} OverrunsByCount(k: Kbd, keys: seq<char>)
    requires Shape(k) && k.chars < CIRCULAR_SIZE
    ensures Overruns(k, keys) <==> QueueOverruns(k.chars, k.readers, |keys|)
    decreases |keys|
  {
    hide Copy, Slot;
    if keys != [] {
      KeyShape(k, keys[0]);
      var k' := PressKey(k, keys[0]);
      if k.readers == [] {
        NobodyOverruns(k', keys[1..]);
      } else {
        OverrunsByCount(k', keys[1..]);
        if k.readers[0].pending > 1 {
          LastCopyStays(k.chars, k.readers[0]);
          assert k'.readers[1..] == k.readers[1..];
        }
      }
    }
  }

  lemma {:induction false} NobodyOverruns(k: Kbd, keys: seq<char>)
    requires Shape(k) && k.readers == []
    ensures !Overruns(k, keys)
    decreases |keys|
  {
    hide Copy, Slot;
    if keys != [] {
      KeyShape(k, keys[0]);
      NobodyOverruns(PressKey(k, keys[0]), keys[1..]);
    }
  }

  /** A key that does not complete the first reader leaves the length of its last copy as it is. */
  lemma LastCopyStays(chars: nat, r: Reader)
    requires chars < CIRCULAR_SIZE && r.pending > 1
    ensures var r1 := r.(pending := r.pending - 1);
            if chars + 1 >= CIRCULAR_SIZE then LastCopy(0, r1.(size := r.size - (chars + 1))) == LastCopy(chars, r)
            else LastCopy(chars + 1, r1) == LastCopy(chars, r)
  {
    SlotIsIndex(0);
    if chars + 1 >= CIRCULAR_SIZE {
      Turn(r.pending - 2);
      if r.pending == 2 {
        Turn(0);
      }
    } else if r.pending == 2 {
      SlotIsIndex(chars + 1);
    }
    hide Slot;
  }

  /** Readers that the account is right for never overrun; one more behind them does exactly if its last copy does. */
  lemma {:induction false} QueueOverrunsIff(chars: nat, readers: seq<Reader>, late: Reader, n: nat)
    requires forall i :: 0 <= i < |readers| ==> LastCopy(if i == 0 then chars else 0, readers[i]) <= CIRCULAR_SIZE
    ensures QueueOverruns(chars, readers + [late], n)
            <==> && n >= NeedAll(readers) + Need(late)
                 && LastCopy(if readers == [] then chars else 0, late) > CIRCULAR_SIZE
    ensures !QueueOverruns(chars, readers, n)
    decreases |readers|
  {
    hide LastCopy;
    if readers == [] {
      assert (readers + [late])[1..] == [];
    } else {
      assert (readers + [late])[1..] == readers[1..] + [late];
      if n >= Need(readers[0]) {
        QueueOverrunsIff(0, readers[1..], late, n - Need(readers[0]));
      }
    }
  }

  /** The read is the first one and finds a full ring, or its keys come to a late read and leave too long a rest. */
  predicate LateOverrun(k: Kbd, n: nat) {
    if k.readers == [] then k.chars == CIRCULAR_SIZE && n == CIRCULAR_SIZE + 1
    else n > k.chars && k.chars + Slot(n - k.chars - 1) + 1 > CIRCULAR_SIZE
  }

  /** A read overruns the buffer exactly under that condition, with the key that completes it and not before. */
  lemma ReadOverrunsIff(k: Kbd, typed: seq<char>, asked: seq<Request>, pid: int, n: nat, keys: seq<char>)
    requires Inv(k, typed, asked)
    ensures Shape(ReadKeys(k, pid, n))
    ensures Overruns(ReadKeys(k, pid, n), keys)
            <==> && pid != 0 && LateOverrun(k, n)
                 && |keys| >= NeedAll(k.readers) + if n > k.chars then n - k.chars else 1
  {
    hide Copy, Slot, Overruns, QueueOverruns;
    var k' := ReadKeys(k, pid, n);
    var late := Reader(pid, n, if n > k.chars then n - k.chars else 0, n, []);
    WaitingFit(k);
    SlotIsIndex(0);
    if k'.readers == [] {
      NobodyOverruns(k', keys);
    } else if k.readers == [] && k.chars == CIRCULAR_SIZE {
      FullRingOverrunsIff(k, pid, n, keys);
    } else {
      OverrunsByCount(k', keys);
      QueueOverrunsIff(k.chars, k.readers, late, |keys|);
    }
  }

  lemma WaitingFit(k: Kbd)
    requires ReadersOk(k)
    ensures forall i :: 0 <= i < |k.readers| ==> LastCopy(if i == 0 then k.chars else 0, k.readers[i]) <= CIRCULAR_SIZE
  {
    hide Slot;
  }

  lemma FullRingOverrunsIff(k: Kbd, pid: int, n: nat, keys: seq<char>)
    requires Shape(k) && k.readers == [] && k.chars == CIRCULAR_SIZE && pid != 0 && n > k.chars
    ensures Shape(ReadKeys(k, pid, n))
    ensures Overruns(ReadKeys(k, pid, n), keys) <==> n == CIRCULAR_SIZE + 1 && keys != []
  {
    hide Copy, Slot;
    var k1 := ReadKeys(k, pid, n);
    if keys != [] && n > CIRCULAR_SIZE + 1 {
      KeyShape(k1, keys[0]);
      OverrunsByCount(PressKey(k1, keys[0]), keys[1..]);
    }
  }

  /** It happens from boot: a reader of two keys gets one, and another asks for one more than the ring holds. */
  lemma BufferIsOverrun(circular: seq<char>, a: char, keys: seq<char>)
    requires |circular| == CIRCULAR_SIZE && CIRCULAR_SIZE > 1 && |keys| == CIRCULAR_SIZE + 1
    ensures var k := PressKey(ReadKeys(Boot(circular), 1, 2), a);
            && Shape(k) && Shape(ReadKeys(k, 2, CIRCULAR_SIZE + 1)) && Overruns(ReadKeys(k, 2, CIRCULAR_SIZE + 1), keys)
  {
    hide Copy, Slot, Overruns;
    BootInv(circular);
    ReadInv(Boot(circular), [], [], 1, 2);
    var k1 := ReadKeys(Boot(circular), 1, 2);
    var asked := AskedAfter(Boot(circular), [], Read(1, 2));
    KeyInv(k1, [], asked, a);
    var k := PressKey(k1, a);
    assert k.readers == [Reader(1, 2, 1, 2, [])] && k.chars == 1;
    SlotIsIndex(CIRCULAR_SIZE - 1);
    assert NeedAll(k.readers) == 1;
    ReadOverrunsIff(k, [] + [a], asked, 2, CIRCULAR_SIZE + 1, keys);
  }

  // ---------------------------------------------------------------- runs

  predicate AllEnabled(k: Kbd, ops: seq<Op>)
    requires Shape(k)
    decreases |ops|
  {
    ops != [] ==> Enabled(k, ops[0]) && (StepShape(k, ops[0]); AllEnabled(Step(k, ops[0]), ops[1..]))
  }

  function Run(k: Kbd, asked: seq<Request>, ops: seq<Op>): (Kbd, seq<Request>)
    requires Shape(k)
    decreases |ops|
  {
    if ops == [] then (k, asked)
    else
      StepShape(k, ops[0]);
      Run(Step(k, ops[0]), AskedAfter(k, asked, ops[0]), ops[1..])
  }

  lemma StepShape(k: Kbd, op: Op)
    requires Shape(k)
    ensures Shape(Step(k, op))
  {
    hide Copy;
    if op.Key? {
      KeyShape(k, op.c);
    }
  }

  function Keys(ops: seq<Op>): seq<char> {
    if ops == [] then [] else (if ops[0].Key? then [ops[0].c] else []) + Keys(ops[1..])
  }

  /** Exactly the enabled steps keep the account. */
  lemma StepInvIff(k: Kbd, typed: seq<char>, asked: seq<Request>, op: Op)
    requires Inv(k, typed, asked)
    ensures Shape(k) && Shape(Step(k, op))
    ensures Inv(Step(k, op), TypedAfter(typed, op), AskedAfter(k, asked, op)) <==> Enabled(k, op)
  {
    StepShape(k, op);
    match op
    case Key(c) => KeyInvIff(k, typed, asked, c);
    case Read(pid, n) => ReadInvIff(k, typed, asked, pid, n);
  }

  lemma {:induction false} KeysOfRun(typed: seq<char>, ops: seq<Op>)
    requires ops != []
    ensures typed + Keys(ops) == TypedAfter(typed, ops[0]) + Keys(ops[1..])
  {
    var rest := Keys(ops[1..]);
    if ops[0].Key? {
      assert typed + ([ops[0].c] + rest) == (typed + [ops[0].c]) + rest;
    } else {
      assert [] + rest == rest;
    }
  }

  /** After every run, all the keys of the run have gone, in order, to the readers in the order of their calls. */
  lemma {:induction false} KeysAreDelivered(k: Kbd, typed: seq<char>, asked: seq<Request>, ops: seq<Op>)
    requires Shape(k) && Inv(k, typed, asked) && AllEnabled(k, ops)
    ensures Inv(Run(k, asked, ops).0, typed + Keys(ops), Run(k, asked, ops).1)
    decreases |ops|
  {
    hide Inv, Step, TypedAfter, AskedAfter, Shape, Keys, Enabled;
    if ops == [] {
      assert typed + Keys(ops) == typed by { NoKeys(typed); }
    } else {
      StepInvIff(k, typed, asked, ops[0]);
      KeysAreDelivered(Step(k, ops[0]), TypedAfter(typed, ops[0]), AskedAfter(k, asked, ops[0]), ops[1..]);
      KeysOfRun(typed, ops);
    }
  }

  /** The account holds before and after every step of the run. */
  predicate Kept(k: Kbd, typed: seq<char>, asked: seq<Request>, ops: seq<Op>)
    decreases |ops|
  {
    && Inv(k, typed, asked)
    && (ops != [] ==> Kept(Step(k, ops[0]), TypedAfter(typed, ops[0]), AskedAfter(k, asked, ops[0]), ops[1..]))
  }

  /** Over runs too the condition is exact: the account is kept throughout exactly if every step is enabled. */
  lemma {:induction false} KeptIff(k: Kbd, typed: seq<char>, asked: seq<Request>, ops: seq<Op>)
    requires Shape(k) && Inv(k, typed, asked)
    ensures Kept(k, typed, asked, ops) <==> AllEnabled(k, ops)
    decreases |ops|
  {
    hide Inv, Step, TypedAfter, AskedAfter, Shape, Enabled;
    if ops != [] {
      StepInvIff(k, typed, asked, ops[0]);
      var k', typed', asked' := Step(k, ops[0]), TypedAfter(typed, ops[0]), AskedAfter(k, asked, ops[0]);
      if Inv(k', typed', asked') {
        KeptIff(k', typed', asked', ops[1..]);
      }
    }
  }

  lemma NoKeys(typed: seq<char>)
    ensures typed + Keys([]) == typed
  {
  }

  // ---------------------------------------------------------------- the code

  class Device {
    const circular: array<char>
    var p: nat
    var start: nat
    var circChars: nat
    var queue: seq<Reader>
    var done: seq<Delivery>

    ghost function View(): Kbd
      reads this, circular
    {
      Kbd(circular[..], p, start, circChars, queue, done)
    }

    constructor ()
      ensures Shape(View()) && fresh(circular) && View() == Boot(circular[..])
    {
      circular := new char[CIRCULAR_SIZE];
      p, start, circChars := 0, 0, 0;
      queue, done := [], [];
    }

    /** step_circ_buffer: one slot on, round the ring. */
    method StepCircBuffer()
      requires p < CIRCULAR_SIZE
      modifies this`p
      ensures p == (old(p) + 1) % CIRCULAR_SIZE == Slot(old(p) + 1)
    {
      Below(CIRCULAR_SIZE, p + 1);
      if p == CIRCULAR_SIZE - 1 { p := 0; } else { p := p + 1; }
    }

    /** copy_from_circ_buffer: through a buffer of CIRCULAR_SIZE bytes into the reader's own memory. */
    method CopyFromCircBuffer(size: nat) returns (copied: seq<char>)
      requires circular.Length == CIRCULAR_SIZE && size <= CIRCULAR_SIZE
      ensures copied == Copy(circular[..], start, size)
    {
      hide Slot;
      var buff := new char[CIRCULAR_SIZE];
      var i, temp := 0, size;
      while temp > 0
        invariant 0 <= i && i + temp == size
        invariant forall k :: 0 <= k < i ==> buff[k] == circular[Slot(start + k)]
      {
        buff[i] := circular[Slot(start + i)];
        i, temp := i + 1, temp - 1;
      }
      return buff[..size];
    }

    /**
     sys_read_keyboard; a blocked caller waits in the queue, and the answer it will find is the size that
     SchedSpec.BlockOnKbd saves for it.
    */
    method ReadKeyboard(pid: int, size: nat, ghost typed: seq<char>, ghost asked: seq<Request>) returns (r: int)
      requires Inv(View(), typed, asked)
      modifies this`start, this`circChars, this`queue, this`done
      ensures View() == ReadKeys(old(View()), pid, size)
      ensures Inv(View(), typed, AskedAfter(old(View()), asked, Read(pid, size)))
              <==> Enabled(old(View()), Read(pid, size))
      ensures r == if old(queue) == [] && size <= old(circChars) then size else -EPERM
      ensures r >= 0 ==> |done| == |old(done)| + 1 && |done[|old(done)|].data| == r
    {
      ReadInvIff(View(), typed, asked, pid, size);
      hide ReadersOk, Accounted, Complete, Copy, Slot;
      var pending := 0;
      if size > circChars { pending := size - circChars; }
      if pending <= 0 && queue == [] {
        var buff := CopyFromCircBuffer(size);
        done := done + [Delivery(pid, size, buff)];
        circChars := circChars - size;
        start := Slot(start + size);
        return size;
      } else if pid != 0 {
        start := p;
        queue := queue + [Reader(pid, size, pending, size, [])];
      }
      return -EPERM;
    }

    /** keyboard_routine, for a key that was pressed */
    method KeyboardRoutine(c: char, ghost typed: seq<char>, ghost asked: seq<Request>)
      requires Inv(View(), typed, asked)
      modifies this, circular
      ensures View() == PressKey(old(View()), c)
      ensures Inv(View(), typed + [c], asked) <==> Enabled(old(View()), Key(c))
    {
      ghost var k := View();
      KeyInvIff(k, typed, asked, c);
      CopyFits(k, typed, asked, c);
      assert Shape(k);
      hide Inv, Enabled, Copy, Slot;
      circular[p] := c;
      StepCircBuffer();
      circChars := circChars + 1;
      assert View() == Typed(k, c);
      if queue != [] {
        Serve();
      }
    }

    /** The part of keyboard_routine that serves the first blocked reader. */
    method Serve()
      requires Shape(View()) && queue != [] && (queue[0].pending <= 1 ==> 0 <= queue[0].size <= CIRCULAR_SIZE)
      modifies this`start, this`circChars, this`queue, this`done
      ensures View() == ServeFirst(old(View()))
    {
      hide Copy, Slot;
      var blocked := queue[0];
      blocked := blocked.(pending := blocked.pending - 1);
      queue := queue[0 := blocked];
      if blocked.pending <= 0 {
        var buff := CopyFromCircBuffer(blocked.size);
        done := done + [Delivery(blocked.pid, blocked.wanted, blocked.got + buff)];
        circChars := 0;
        start := p;
        queue := queue[1..];
      } else if circChars >= CIRCULAR_SIZE {
        var buff := CopyFromCircBuffer(CIRCULAR_SIZE);
        queue := queue[0 := blocked.(size := blocked.size - circChars, got := blocked.got + buff)];
        circChars := 0;
        start := p;
      }
    }
  }
}
