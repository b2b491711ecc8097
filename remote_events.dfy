/** Input translation of the RISC-V port (`I_GetRemoteEvent`).

    Each call drains the host's event queue. Key events are forwarded to the
    engine at once, in order, after host codes for arrow, modifier, pause and
    function keys (codes with bit 30 set) are replaced by the engine's key
    constants. Mouse button events update a byte of button bits (`s_btn`) that
    persists across calls; mouse motion is summed over the batch. If any mouse
    event was seen, one aggregated mouse event is posted at the end.

    The host queue (`PollEvent`) is the input sequence of a call, and posting
    (`D_PostEvent`) appends to the engine's queue, a field of the state. */
module RemoteEvents {
  import opened Bits

  /** `uint8_t` and `uint32_t` fields of the host event record. */
  type U8 = x: int | 0 <= x < 0x100
  type U32 = x: int | 0 <= x < 0x1_0000_0000

  /** A record type other than KEY_EVENT (0), MOUSE_MOTION_EVENT (1) and
      MOUSE_BUTTON_EVENT (2). */
  type OtherKind = x: int | 3 <= x < 0x1_0000_0000 witness 3

  /** An event as the host delivers it. `Unhandled` stands for a record whose
      type is none of the three handled ones; it is drained and ignored. */
  datatype HostEvent =
    | KeyEvent(keycode: U32, keyState: U8)
    | MouseMotion(xrel: Int32, yrel: Int32)
    | MouseButton(button: U8, buttonState: U8)
    | Unhandled(kind: OtherKind)

  predicate IsMouse(e: HostEvent) {
    e.MouseMotion? || e.MouseButton?
  }

  /** The engine keys the host codes are remapped to (the `KEY_*` constants;
      their numeric values are not part of this model). */
  datatype EngineKey =
    | LeftArrow | RightArrow | DownArrow | UpArrow
    | RShift | RCtrl | RAlt | Pause
    | F1 | F2 | F3 | F4 | F5 | F6 | F7 | F8 | F9 | F10 | F11 | F12

  /** The host code each engine key is mapped from (the case labels). */
  function HostCodeOf(k: EngineKey): U32 {
    match k
    case LeftArrow => 0x4000_0050
    case RightArrow => 0x4000_004F
    case DownArrow => 0x4000_0051
    case UpArrow => 0x4000_0052
    case RShift => 0x4000_00E5
    case RCtrl => 0x4000_00E4
    case RAlt => 0x4000_00E6
    case Pause => 0x4000_0048
    case F1 => 0x4000_003A
    case F2 => 0x4000_003B
    case F3 => 0x4000_003C
    case F4 => 0x4000_003D
    case F5 => 0x4000_003E
    case F6 => 0x4000_003F
    case F7 => 0x4000_0040
    case F8 => 0x4000_0041
    case F9 => 0x4000_0042
    case F10 => 0x4000_0043
    case F11 => 0x4000_0044
    case F12 => 0x4000_0045
  }

  /** The key in an engine key event's `data1`: an engine key constant, or the
      host code passed through unchanged. */
  datatype KeyCode = Host(code: U32) | Engine(key: EngineKey)

  /** The key-code switch, entered only for codes with bit 0x40000000 set. */
  function RemapKey(code: U32): KeyCode {
    if And(code, 0x4000_0000) == 0 then Host(code) else Switch(code)
  }

  /** The switch itself: the listed codes become engine keys, every other code
      is left unchanged (the switch has no default). */
  function Switch(code: U32): KeyCode {
    match code
    case 0x4000_0050 => Engine(LeftArrow)
    case 0x4000_004F => Engine(RightArrow)
    case 0x4000_0051 => Engine(DownArrow)
    case 0x4000_0052 => Engine(UpArrow)
    case 0x4000_00E5 => Engine(RShift)
    case 0x4000_00E4 => Engine(RCtrl)
    case 0x4000_00E6 => Engine(RAlt)
    case 0x4000_0048 => Engine(Pause)
    case 0x4000_003A => Engine(F1)
    case 0x4000_003B => Engine(F2)
    case 0x4000_003C => Engine(F3)
    case 0x4000_003D => Engine(F4)
    case 0x4000_003E => Engine(F5)
    case 0x4000_003F => Engine(F6)
    case 0x4000_0040 => Engine(F7)
    case 0x4000_0041 => Engine(F8)
    case 0x4000_0042 => Engine(F9)
    case 0x4000_0043 => Engine(F10)
    case 0x4000_0044 => Engine(F11)
    case 0x4000_0045 => Engine(F12)
    case _ => Host(code)
  }

  /** An event posted to the engine: `ev_keydown`/`ev_keyup` with the key in
      `data1`, or `ev_mouse` with the button bits, x motion and y motion in
      `data1`..`data3`. */
  datatype Event =
    | KeyDown(key: KeyCode)
    | KeyUp(key: KeyCode)
    | Mouse(buttons: U8, dx: int, dy: int)

  /** The engine event for one host key event: key down for a nonzero state. */
  function KeyEventOf(code: U32, state: U8): Event {
    if state != 0 then KeyDown(RemapKey(code)) else KeyUp(RemapKey(code))
  }

  /** Button numbers for which `1 << (button - 1)` is a defined, positive
      `int`. */
  predicate ButtonInRange(button: int) {
    1 <= button <= 31
  }

  /** The host events on which the translation is defined: every button number
      is in range. */
  predicate Defined(evs: seq<HostEvent>) {
    forall i | 0 <= i < |evs| :: evs[i].MouseButton? ==> ButtonInRange(evs[i].button)
  }

  /** `s_btn |= (1 << (button - 1))` or `s_btn &= ~(1 << (button - 1))`, with
      the `int` result stored back into the byte. `0xffff_ffff - 2^k` is the
      bit pattern of `~(1 << k)`. */
  function SetButton(btn: U8, button: int, pressed: bool): U8
    requires ButtonInRange(button)
  {
    var bit := Pow2(button - 1);
    MaskBitInRange(button - 1);
    if pressed then Or(btn, bit) % 0x100
    else And(btn, 0xffff_ffff - bit) % 0x100
  }

  lemma MaskBitInRange(k: nat)
    requires k <= 30
    ensures Pow2(k) <= 0x4000_0000
  {
    Pow2Constants();
    if k < 30 {
      Pow2Increasing(k, 30);
    }
  }

  // ---------------------------------------------------------------------------
  // The batch, one event at a time

  /** The button byte after a batch of host events. */
  function ButtonsAfter(btn: U8, evs: seq<HostEvent>): U8
    requires Defined(evs)
  {
    if |evs| == 0 then btn
    else
      var b := ButtonsAfter(btn, evs[..|evs| - 1]);
      match evs[|evs| - 1]
      case MouseButton(button, state) => SetButton(b, button, state != 0)
      case _ => b
  }

  /** The key events a batch posts while it is drained. */
  function KeysPosted(evs: seq<HostEvent>): seq<Event> {
    if |evs| == 0 then []
    else
      KeysPosted(evs[..|evs| - 1]) +
        match evs[|evs| - 1]
        case KeyEvent(code, state) => [KeyEventOf(code, state)]
        case _ => []
  }

  /** The summed x and y motion of a batch. */
  function SumX(evs: seq<HostEvent>): int {
    if |evs| == 0 then 0
    else SumX(evs[..|evs| - 1]) + match evs[|evs| - 1] case MouseMotion(x, _) => x case _ => 0
  }

  function SumY(evs: seq<HostEvent>): int {
    if |evs| == 0 then 0
    else SumY(evs[..|evs| - 1]) + match evs[|evs| - 1] case MouseMotion(_, y) => y case _ => 0
  }

  /** `mupd`: some mouse event was drained. */
  predicate MouseSeen(evs: seq<HostEvent>) {
    |evs| > 0 && (IsMouse(evs[|evs| - 1]) || MouseSeen(evs[..|evs| - 1]))
  }

  /** Everything one call posts, given the button byte before the call: the key
      events, then at most one mouse event. The y motion is negated because the
      engine's y axis points the other way. */
  function Translate(btn: U8, evs: seq<HostEvent>): seq<Event>
    requires Defined(evs)
  {
    KeysPosted(evs) +
      if MouseSeen(evs) then [Mouse(ButtonsAfter(btn, evs), SumX(evs) * 4, -SumY(evs) * 4)] else []
  }

  /** The state of I_GetRemoteEvent: the persistent button byte and the
      engine's event queue, to which posting appends. */
  class RemoteInput {
    var sBtn: U8
    var posted: seq<Event>

    constructor()
      ensures sBtn == 0 && posted == []
    {
      sBtn := 0;
      posted := [];
    }

    /** One call: drain the polled host events, then post the mouse event. */
    method GetRemoteEvent(polled: seq<HostEvent>)
      requires Defined(polled)
      modifies this
      ensures sBtn == ButtonsAfter(old(sBtn), polled)
      ensures posted == old(posted) + Translate(old(sBtn), polled)
    {
      var mupd := false;
      var mdx, mdy := 0, 0;
      var i := 0;
      while i < |polled|
        invariant 0 <= i <= |polled|
        invariant Defined(polled[..i])
        invariant sBtn == ButtonsAfter(old(sBtn), polled[..i])
        invariant posted == old(posted) + KeysPosted(polled[..i])
        invariant mdx == SumX(polled[..i]) && mdy == SumY(polled[..i])
        invariant mupd == MouseSeen(polled[..i])
      {
        assert polled[..i + 1][..i] == polled[..i];
        match polled[i] {
          case KeyEvent(code, state) =>
            posted := posted + [KeyEventOf(code, state)];
          case MouseButton(button, state) =>
            sBtn := SetButton(sBtn, button, state != 0);
            mupd := true;
          case MouseMotion(xrel, yrel) =>
            mdx := mdx + xrel;
            mdy := mdy + yrel;
            mupd := true;
          case Unhandled(_) =>
        }
        i := i + 1;
      }
      assert polled[..i] == polled;
      if mupd {
        posted := posted + [Mouse(sBtn, mdx * 4, -mdy * 4)];
      }
    }
  }

  // ---------------------------------------------------------------------------
  // Key-code remap

  /** The switch is entered exactly when bit 30 of the code is set. */
  lemma MaskTestIsBit30(code: U32)
    ensures And(code, 0x4000_0000) != 0 <==> Bit(code, 30)
  {
    Pow2Constants();
    AndSingleBit(code, 30);
  }

  /** Every listed host code is remapped to its engine key. */
  lemma RemapListedCodes(k: EngineKey)
    ensures RemapKey(HostCodeOf(k)) == Engine(k)
  {
    CodesWithBit30(HostCodeOf(k));
    SwitchSelects(k);
  }

  lemma SwitchSelects(k: EngineKey)
    ensures Switch(HostCodeOf(k)) == Engine(k)
  {
  }

  lemma CodesWithBit30(code: U32)
    requires 0x4000_0000 <= code < 0x8000_0000
    ensures And(code, 0x4000_0000) != 0
  {
    Pow2Constants();
    TopBit(code, 30);
    MaskTestIsBit30(code);
  }

  /** The converse: a code that becomes an engine key is that key's listed
      code, and a code passed through (in particular every code without bit
      30) is posted unchanged. */
  lemma RemapKeyCases(code: U32)
    ensures RemapKey(code).Engine? ==> HostCodeOf(RemapKey(code).key) == code
    ensures RemapKey(code).Host? ==> RemapKey(code) == Host(code)
    ensures !Bit(code, 30) ==> RemapKey(code) == Host(code)
  {
    MaskTestIsBit30(code);
  }

  // ---------------------------------------------------------------------------
  // Key events: one posted event per host key event, in poll order

  /** The number of key events in a batch. */
  function KeyCount(evs: seq<HostEvent>): nat {
    if |evs| == 0 then 0
    else KeyCount(evs[..|evs| - 1]) + if evs[|evs| - 1].KeyEvent? then 1 else 0
  }

  lemma {:induction false} KeysPostedAppend(a: seq<HostEvent>, b: seq<HostEvent>)
    ensures KeysPosted(a + b) == KeysPosted(a) + KeysPosted(b)
    ensures KeyCount(a + b) == KeyCount(a) + KeyCount(b)
  {
    if |b| == 0 {
      assert a + b == a;
    } else {
      var b' := b[..|b| - 1];
      assert (a + b)[..|a + b| - 1] == a + b';
      KeysPostedAppend(a, b');
    }
  }

  /** The batch posts one key event per host key event and nothing else
      while it is drained. */
  lemma {:induction false} KeysPostedAreKeys(evs: seq<HostEvent>)
    ensures |KeysPosted(evs)| == KeyCount(evs)
    ensures forall j | 0 <= j < |KeysPosted(evs)| :: !KeysPosted(evs)[j].Mouse?
  {
    if |evs| > 0 {
      KeysPostedAreKeys(evs[..|evs| - 1]);
    }
  }

  /** The host key event at position i is posted after exactly the key events
      that precede it, with its remapped code and key down for a nonzero
      state. */
  lemma KeyEventPosition(evs: seq<HostEvent>, i: nat)
    requires i < |evs| && evs[i].KeyEvent?
    ensures KeyCount(evs[..i]) < |KeysPosted(evs)|
    ensures KeysPosted(evs)[KeyCount(evs[..i])] == KeyEventOf(evs[i].keycode, evs[i].keyState)
  {
    var front, rest := evs[..i + 1], evs[i + 1..];
    assert evs == front + rest;
    assert front[..i] == evs[..i];
    KeysPostedAppend(front, rest);
    KeysPostedAreKeys(evs[..i]);
  }

  // ---------------------------------------------------------------------------
  // The mouse event

  /** `mupd` is set exactly when the batch holds a mouse event. */
  lemma {:induction false} MouseSeenIff(evs: seq<HostEvent>)
    ensures MouseSeen(evs) <==> exists i | 0 <= i < |evs| :: IsMouse(evs[i])
  {
    if |evs| > 0 {
      var p := evs[..|evs| - 1];
      MouseSeenIff(p);
      if exists i | 0 <= i < |evs| :: IsMouse(evs[i]) {
        var i :| 0 <= i < |evs| && IsMouse(evs[i]);
        if i < |p| {
          assert IsMouse(p[i]);
        }
      }
      if MouseSeen(p) {
        var i :| 0 <= i < |p| && IsMouse(p[i]);
        assert IsMouse(evs[i]);
      }
    }
  }

  /** A call posts the key events and then, exactly when a mouse event was
      seen, one mouse event as the last event, carrying the button byte after
      the batch and the motion sums scaled by 4 (y negated). */
  lemma TranslateShape(btn: U8, evs: seq<HostEvent>)
    requires Defined(evs)
    ensures |Translate(btn, evs)| == KeyCount(evs) + if MouseSeen(evs) then 1 else 0
    ensures forall j | 0 <= j < |Translate(btn, evs)| ::
      Translate(btn, evs)[j].Mouse? <==> MouseSeen(evs) && j == KeyCount(evs)
    ensures MouseSeen(evs) ==>
      Translate(btn, evs)[KeyCount(evs)] == Mouse(ButtonsAfter(btn, evs), 4 * SumX(evs), -4 * SumY(evs))
  {
    KeysPostedAreKeys(evs);
  }

  /** The motion sums of two batches add up. */
  lemma {:induction false} SumsAppend(a: seq<HostEvent>, b: seq<HostEvent>)
    ensures SumX(a + b) == SumX(a) + SumX(b)
    ensures SumY(a + b) == SumY(a) + SumY(b)
  {
    if |b| == 0 {
      assert a + b == a;
    } else {
      var b' := b[..|b| - 1];
      assert (a + b)[..|a + b| - 1] == a + b';
      SumsAppend(a, b');
    }
  }

  // ---------------------------------------------------------------------------
  // The button byte

  /** Pressing sets bit button-1 and releasing clears it; the other bits of
      the byte are unchanged. */
  lemma SetButtonBits(btn: U8, button: int, pressed: bool, j: nat)
    requires ButtonInRange(button) && j < 8
    ensures Bit(SetButton(btn, button, pressed), j) == if j == button - 1 then pressed else Bit(btn, j)
  {
    var k := button - 1;
    MaskBitInRange(k);
    if pressed {
      PressBit(btn, k, j);
    } else {
      ReleaseBit(btn, k, j);
    }
  }

  lemma PressBit(btn: U8, k: nat, j: nat)
    requires k <= 30 && j < 8
    ensures Bit(Or(btn, Pow2(k)) % 0x100, j) == (j == k || Bit(btn, j))
  {
    ByteAndWordModuli();
    BitOfMod(Or(btn, Pow2(k)), 8, j);
    BitOr(btn, Pow2(k), j);
    BitOfPow2(k, j);
  }

  lemma ReleaseBit(btn: U8, k: nat, j: nat)
    requires k <= 30 && j < 8
    ensures Pow2(k) <= 0xffff_ffff
    ensures Bit(And(btn, 0xffff_ffff - Pow2(k)) % 0x100, j) == (j != k && Bit(btn, j))
  {
    ByteAndWordModuli();
    BitOfMaskWithout(32, k, j);
    BitOfMod(And(btn, 0xffff_ffff - Pow2(k)), 8, j);
    BitAnd(btn, 0xffff_ffff - Pow2(k), j);
  }

  lemma ByteAndWordModuli()
    ensures Pow2(8) == 0x100 && Pow2(32) - 1 == 0xffff_ffff
  {
    Pow2Constants();
  }

  /** The byte holds buttons 1 to 8 only: an event for a higher button leaves
      it unchanged. */
  lemma ButtonAboveByteIgnored(btn: U8, button: int, pressed: bool)
    requires ButtonInRange(button) && button > 8
    ensures SetButton(btn, button, pressed) == btn
  {
    var r := SetButton(btn, button, pressed);
    forall j | 0 <= j < 8
      ensures Bit(r, j) == Bit(btn, j)
    {
      SetButtonBits(btn, button, pressed, j);
    }
    ByteAndWordModuli();
    BitsDetermine(r, btn, 8);
  }

  /** The button byte persists across calls: two batches drained by two calls
      leave the byte one call on the joined batch would. */
  lemma {:induction false} ButtonsCompose(btn: U8, a: seq<HostEvent>, b: seq<HostEvent>)
    requires Defined(a) && Defined(b)
    ensures Defined(a + b)
    ensures ButtonsAfter(btn, a + b) == ButtonsAfter(ButtonsAfter(btn, a), b)
  {
    if |b| == 0 {
      assert a + b == a;
    } else {
      var b' := b[..|b| - 1];
      assert (a + b)[..|a + b| - 1] == a + b';
      ButtonsCompose(btn, a, b');
    }
  }

  /** The position of the last event for the given button in a batch, or -1
      when there is none. */
  function LastButtonEvent(evs: seq<HostEvent>, button: int): (r: int)
    ensures -1 <= r < |evs|
    ensures r >= 0 ==> evs[r].MouseButton? && evs[r].button == button
    ensures forall i | r < i < |evs| :: !(evs[i].MouseButton? && evs[i].button == button)
  {
    if |evs| == 0 then -1
    else if evs[|evs| - 1].MouseButton? && evs[|evs| - 1].button == button then |evs| - 1
    else LastButtonEvent(evs[..|evs| - 1], button)
  }

  /** Bit j of the byte after a batch is the state of the batch's last event
      for button j+1, or the bit before the batch if there is none. */
  lemma {:induction false} ButtonBitAfter(btn: U8, evs: seq<HostEvent>, j: nat)
    requires Defined(evs) && j < 8
    ensures Bit(ButtonsAfter(btn, evs), j) ==
      var r := LastButtonEvent(evs, j + 1);
      if r < 0 then Bit(btn, j) else evs[r].buttonState != 0
  {
    if |evs| > 0 {
      var p := evs[..|evs| - 1];
      ButtonBitAfter(btn, p, j);
      match evs[|evs| - 1] {
        case MouseButton(button, state) =>
          SetButtonBits(ButtonsAfter(btn, p), button, state != 0, j);
        case _ =>
      }
    }
  }
}
