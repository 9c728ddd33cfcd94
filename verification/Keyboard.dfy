/**
 The keyboard ring buffer (kernel/drivers/keyboard.c:9-62): the interrupt handler produces,
 `keyboard_getchar` consumes, and the handler may fire between any two steps of the consumer.
 */
module Keyboard {
  import opened Types

  const SIZE: int := 256

  // US layout, as the four lines of the table; 0 stands for a key without a character
  const DIGITS: seq<Byte> := [0, 0, 49, 50, 51, 52, 53, 54, 55, 56, 57, 48, 45, 61, 8]
  const TOP: seq<Byte> := [9, 113, 119, 101, 114, 116, 121, 117, 105, 111, 112, 91, 93, 10]
  const HOME: seq<Byte> := [0, 97, 115, 100, 102, 103, 104, 106, 107, 108, 59, 39, 96, 0]
  const BOTTOM: seq<Byte> := [92, 122, 120, 99, 118, 98, 110, 109, 44, 46, 47, 0, 42, 0, 32]
  const SCANCODES: seq<Byte> := DIGITS + TOP + HOME + BOTTOM

  /** The character of a key press; 0 for a release and for keys without one. */
  function Ascii(scancode: Byte): Byte {
    if scancode < 0x80 && scancode < |SCANCODES| then SCANCODES[scancode] else 0
  }

  /** The keys from `first` on have the characters of `keys`. */
  predicate KeyRow(first: int, keys: string)
    requires 0 <= first && first + |keys| <= 0x80
  {
    forall k | 0 <= k < |keys| :: Ascii(first + k) as int == keys[k] as int
  }

  // The US layout, row by row

  lemma DigitRow()
    ensures KeyRow(2, "1234567890-=") && Ascii(14) == 8
  {
    assert SCANCODES[..15] == DIGITS;
    assert forall k | 0 <= k < 15 :: SCANCODES[k] == DIGITS[k];
  }

  lemma TopRow()
    ensures KeyRow(16, "qwertyuiop[]") && Ascii(15) == 9 && Ascii(28) == 10
  {
    forall k | 0 <= k < 14 ensures Ascii(15 + k) == TOP[k] { InTop(k); }
    forall k | 0 <= k < 12 ensures Ascii(16 + k) as int == "qwertyuiop[]"[k] as int { InTop(k + 1); }
  }

  lemma InTop(k: int)
    requires 0 <= k < |TOP|
    ensures Ascii(15 + k) == TOP[k]
  {
    assert SCANCODES[15 + k] == TOP[k];
  }

  lemma HomeRow()
    ensures KeyRow(30, "asdfghjkl;'`")
  {
    forall k | 0 <= k < 12 ensures Ascii(30 + k) as int == "asdfghjkl;'`"[k] as int { InHome(k + 1); }
  }

  lemma InHome(k: int)
    requires 0 <= k < |HOME|
    ensures Ascii(29 + k) == HOME[k]
  {
    assert SCANCODES[29 + k] == HOME[k];
  }

  lemma BottomRow()
    ensures KeyRow(43, "\\zxcvbnm,./") && Ascii(55) as int == '*' as int && Ascii(57) as int == ' ' as int
  {
    assert forall k | 0 <= k < 15 :: SCANCODES[43 + k] == BOTTOM[k];
  }

  /** No other key has a character. */
  lemma SilentKeys(scancode: Byte)
    ensures Ascii(scancode) == 0 <==> scancode in {0, 1, 29, 42, 54, 56} || scancode >= 58
  {
    if scancode < 15 {
      assert SCANCODES[scancode] == DIGITS[scancode];
    } else if scancode < 29 {
      assert SCANCODES[scancode] == TOP[scancode as int - 15];
    } else if scancode < 43 {
      assert SCANCODES[scancode] == HOME[scancode as int - 29];
    } else if scancode < 58 {
      assert SCANCODES[scancode] == BOTTOM[scancode as int - 43];
    }
  }

  // Where the consumer is inside `keyboard_getchar`
  datatype Place = Idle | Checked | Fetched(c: Byte) | Advanced(c: Byte)

  datatype State = State(buffer: seq<Byte>, head: int, tail: int, place: Place,
                         accepted: seq<Byte>, returned: seq<Byte>)

  // The handler fires for a key with character `c` (0 if it has none), or the consumer takes a step
  datatype Action = Key(c: Byte) | Consume

  function Start(buffer: seq<Byte>): State {
    State(buffer, 0, 0, Idle, [], [])
  }

  /** Characters in the ring. */
  function Pending(s: State): int { (s.head - s.tail) % SIZE }

  /** The handler, which runs to its end. */
  function Handle(s: State, c: Byte): State
    requires 0 <= s.head < |s.buffer|
  {
    var next := (s.head + 1) % SIZE;
    if c == 0 || next == s.tail then s
    else s.(buffer := s.buffer[s.head := c], head := next, accepted := s.accepted + [c])
  }

  /** One step of `keyboard_getchar`: test, fetch, advance, return. */
  function Step(s: State): State
    requires 0 <= s.tail < |s.buffer|
  {
    match s.place
    case Idle => if s.head == s.tail then s else s.(place := Checked)
    case Checked => s.(place := Fetched(s.buffer[s.tail]))
    case Fetched(c) => s.(tail := (s.tail + 1) % SIZE, place := Advanced(c))
    case Advanced(c) => s.(returned := s.returned + [c], place := Idle)
  }

  function Next(s: State, a: Action): State
    requires InRange(s)
  {
    match a
    case Key(c) => Handle(s, c)
    case Consume => Step(s)
  }

  predicate InRange(s: State) {
    |s.buffer| == SIZE && 0 <= s.head < SIZE && 0 <= s.tail < SIZE
  }

  /** Characters taken out of the ring so far, including one that is about to be returned. */
  function Taken(s: State): seq<Byte> {
    if s.place.Advanced? then s.returned + [s.place.c] else s.returned
  }

  /** The slot of the `k`-th unread character. */
  function Slot(s: State, k: int): int { (s.tail + k) % SIZE }

  ghost predicate Holds(s: State, k: int) {
    InRange(s) && 0 <= |Taken(s)| + k < |s.accepted| && s.buffer[Slot(s, k)] == s.accepted[|Taken(s)| + k]
  }

  /** The ring holds exactly the accepted characters that were not taken, in order. */
  ghost predicate Inv(s: State) {
    && InRange(s)
    && Taken(s) <= s.accepted && |s.accepted| == |Taken(s)| + Pending(s)
    && (forall k | 0 <= k < Pending(s) :: Holds(s, k))
    && (s.place.Checked? || s.place.Fetched? ==> Pending(s) >= 1)
    && (s.place.Fetched? ==> s.place.c == s.accepted[|Taken(s)|])
  }

  // The remainders by cases

  lemma PendingCases(s: State)
    requires InRange(s)
    ensures Pending(s) == if s.tail <= s.head then s.head - s.tail else s.head - s.tail + SIZE
  {
  }

  lemma NextCases(i: int)
    requires 0 <= i < SIZE
    ensures (i + 1) % SIZE == if i + 1 < SIZE then i + 1 else 0
  {
  }

  lemma SlotCases(s: State, k: int)
    requires InRange(s) && 0 <= k <= SIZE
    ensures Slot(s, k) == if s.tail + k < SIZE then s.tail + k else s.tail + k - SIZE
  {
  }

  /** The free slot the handler writes is not the slot of an unread character. */
  lemma SlotFree(s: State, k: int)
    requires InRange(s) && 0 <= k < Pending(s)
    ensures 0 <= Slot(s, k) < SIZE && Slot(s, k) != s.head
  {
    PendingCases(s);
    SlotCases(s, k);
  }

  lemma HandlePending(s: State, c: Byte)
    requires InRange(s) && c != 0
    ensures Pending(s) < SIZE - 1 <==> (s.head + 1) % SIZE != s.tail
    ensures Pending(s) < SIZE - 1 ==> Pending(Handle(s, c)) == Pending(s) + 1 && Slot(s, Pending(s)) == s.head
  {
    PendingCases(s);
    NextCases(s.head);
    SlotCases(s, Pending(s));
    PendingCases(Handle(s, c));
  }

  /** The handler accepts a character exactly when fewer than 255 are pending, and overwrites no unread slot. */
  lemma HandleKeeps(s: State, c: Byte)
    requires Inv(s)
    ensures Inv(Handle(s, c))
    ensures Handle(s, c).accepted == s.accepted + if c != 0 && Pending(s) < 255 then [c] else []
    ensures forall k | 0 <= k < Pending(s) :: Handle(s, c).buffer[Slot(s, k)] == s.buffer[Slot(s, k)]
  {
    var r := Handle(s, c);
    forall k | 0 <= k < Pending(s)
      ensures r.buffer[Slot(s, k)] == s.buffer[Slot(s, k)]
    {
      SlotFree(s, k);
    }
    if c != 0 {
      HandlePending(s, c);
      forall k | 0 <= k < Pending(r)
        ensures Holds(r, k)
      {
        if k < Pending(s) {
          assert Holds(s, k);
          SlotFree(s, k);
        }
      }
    }
  }

  /** Advancing the tail drops the first unread character and shifts the others. */
  lemma AdvancePending(s: State, k: int)
    requires InRange(s) && Pending(s) >= 1
    ensures var r := s.(tail := (s.tail + 1) % SIZE);
            Pending(r) == Pending(s) - 1 && Slot(s, 0) == s.tail && Slot(r, k) == Slot(s, k + 1)
  {
    PendingCases(s);
    NextCases(s.tail);
    PendingCases(s.(tail := (s.tail + 1) % SIZE));
  }

  /** Taking the character that was fetched keeps the ring in order. */
  lemma AdvanceKeeps(s: State)
    requires Inv(s) && s.place.Fetched?
    ensures Inv(Step(s))
  {
    var r := Step(s);
    AdvancePending(s, 0);
    assert Holds(s, 0);
    assert Taken(r) == Taken(s) + [s.accepted[|Taken(s)|]];
    forall k | 0 <= k < Pending(r)
      ensures Holds(r, k)
    {
      AdvancePending(s, k);
      assert Holds(s, k + 1);
    }
  }

  /** Every step of the consumer keeps the invariant. */
  lemma StepKeeps(s: State)
    requires Inv(s)
    ensures Inv(Step(s)) && Step(s).accepted == s.accepted && Step(s).buffer == s.buffer
  {
    var r := Step(s);
    if s.place.Fetched? {
      AdvanceKeeps(s);
    } else {
      if s.place.Checked? {
        AdvancePending(s, 0);
        assert Holds(s, 0);
      }
      forall k | 0 <= k < Pending(r)
        ensures Holds(r, k)
      {
        assert Holds(s, k);
      }
    }
  }

  // ---------- runs ----------

  ghost function Run(s: State, actions: seq<Action>): (r: State)
    requires Inv(s)
    ensures Inv(r)
  {
    if actions == [] then s else
      var t := Run(s, actions[..|actions| - 1]);
      NextKeeps(t, actions[|actions| - 1]);
      Next(t, actions[|actions| - 1])
  }

  lemma NextKeeps(s: State, a: Action)
    requires Inv(s)
    ensures Inv(Next(s, a))
  {
    match a
    case Key(c) => HandleKeeps(s, c);
    case Consume => StepKeeps(s);
  }

  /** The characters of the key presses, in order. */
  ghost function Typed(actions: seq<Action>): seq<Byte> {
    if actions == [] then [] else
      var a := actions[|actions| - 1];
      Typed(actions[..|actions| - 1]) + if a.Key? && a.c != 0 then [a.c] else []
  }

  ghost predicate Subsequence(s: seq<Byte>, t: seq<Byte>) {
    s == [] || (t != [] && (Subsequence(s, t[..|t| - 1]) ||
                            (s[|s| - 1] == t[|t| - 1] && Subsequence(s[..|s| - 1], t[..|t| - 1]))))
  }

  /**
   However the handler and the consumer interleave: what `keyboard_getchar` has returned is a
   prefix of what was accepted, which is a subsequence of what was typed; at most 255 characters
   are pending, and they are the accepted ones not yet taken.
   */
  lemma InOrder(buffer: seq<Byte>, actions: seq<Action>)
    requires |buffer| == SIZE
    ensures var s := Run(Start(buffer), actions);
            && s.returned <= s.accepted && Subsequence(s.accepted, Typed(actions))
            && 0 <= Pending(s) <= 255 && |s.accepted| == |Taken(s)| + Pending(s)
  {
    AcceptedWereTyped(buffer, actions);
  }

  lemma {:induction false} AcceptedWereTyped(buffer: seq<Byte>, actions: seq<Action>)
    requires |buffer| == SIZE
    ensures Subsequence(Run(Start(buffer), actions).accepted, Typed(actions))
  {
    if actions != [] {
      var init, a := actions[..|actions| - 1], actions[|actions| - 1];
      var prev := Run(Start(buffer), init);
      AcceptedWereTyped(buffer, init);
      match a {
        case Key(c) =>
          HandleKeeps(prev, c);
          SubsequenceGrows(prev.accepted, Typed(init), c);
        case Consume =>
          StepKeeps(prev);
          SubsequenceGrows(prev.accepted, Typed(init), 0);
      }
    }
  }

  lemma SubsequenceGrows(s: seq<Byte>, t: seq<Byte>, c: Byte)
    requires Subsequence(s, t)
    ensures Subsequence(s, t + [c]) && Subsequence(s + [c], t + [c]) && t + [] == t && s + [] == s
  {
    assert (t + [c])[..|t + [c]| - 1] == t && (s + [c])[..|s + [c]| - 1] == s;
  }

  // ---------- the driver ----------

  class Driver {
    var buffer: array<Byte>
    var head: int
    var tail: int
    ghost var accepted: seq<Byte>
    ghost var returned: seq<Byte>

    ghost function View(): State
      reads this, buffer
    {
      State(buffer[..], head, tail, Idle, accepted, returned)
    }

    ghost predicate Valid()
      reads this, buffer
    {
      Inv(View())
    }

    constructor ()
      ensures Valid() && fresh(buffer) && View() == Start(buffer[..])
    {
      buffer := new Byte[SIZE](_ => 0);
      head, tail, accepted, returned := 0, 0, [], [];
    }

    method HasInput() returns (r: bool)
      requires Valid()
      ensures r <==> returned < accepted
    {
      r := head != tail;
    }

    /** `keyboard_handler`. */
    method Handler(scancode: Byte)
      requires Valid()
      modifies this`head, this`accepted, buffer
      ensures Valid() && View() == Next(old(View()), Key(Ascii(scancode)))
    {
      HandleKeeps(View(), Ascii(scancode));
      if scancode < 0x80 {
        if scancode < |SCANCODES| {
          var c := SCANCODES[scancode];
          if c != 0 {
            var nextHead := (head + 1) % SIZE;
            if nextHead != tail {
              buffer[head] := c;
              head := nextHead;
              accepted := accepted + [c];
            }
          }
        }
      }
    }

    /** `keyboard_getchar` without an interrupt: four consumer steps, or one that finds nothing. */
    method GetChar() returns (c: Byte)
      requires Valid()
      modifies this`tail, this`returned
      ensures Valid()
      ensures old(returned) == old(accepted) ==> c == 0 && View() == old(View()) == Step(old(View()))
      ensures old(returned) < old(accepted) ==>
                && c == accepted[|old(returned)|] && returned == old(returned) + [c]
                && var s1 := Step(old(View())); var s2 := Step(s1); var s3 := Step(s2); View() == Step(s3)
    {
      StepKeeps(View());
      var some := HasInput();
      if !some {
        return 0;
      }
      FourSteps(View());
      c := buffer[tail];
      tail := (tail + 1) % SIZE;
      returned := returned + [c];
    }
  }

  /** The four steps of a call that finds a character. */
  lemma FourSteps(s: State)
    requires Inv(s) && s.place.Idle? && s.head != s.tail
    ensures Inv(Step(s)) && Inv(Step(Step(s))) && Inv(Step(Step(Step(s)))) && Inv(Step(Step(Step(Step(s)))))
    ensures var c := s.buffer[s.tail];
            && |s.returned| < |s.accepted| && c == s.accepted[|s.returned|]
            && Step(Step(Step(Step(s)))) == s.(tail := (s.tail + 1) % SIZE, returned := s.returned + [c])
  {
    var s1 := Step(s);
    StepKeeps(s);
    StepKeeps(s1);
    StepKeeps(Step(s1));
    StepKeeps(Step(Step(s1)));
    assert Holds(s, 0);
  }
}
