/** The keyboard driver of src/drivers/keyboard.c: the decoder with its static variables, the ring
    of 24 events, and the delivery of events to a callback. */
module Keyboard {
  import opened BitMath
  import opened Scancodes

  const CAPACITY: nat := 24

  datatype Delivery = Nothing | Delivered(event: Event)

  /** A bounded queue that drops its oldest element when it is full. */
  function PushDroppingOldest<T>(q: seq<T>, e: T): (r: seq<T>)
    requires |q| <= CAPACITY
    ensures |r| == Min(|q| + 1, CAPACITY)
  {
    (if |q| == CAPACITY then q[1..] else q) + [e]
  }

  /** Slot arithmetic: `back` steps behind slot i of the ring. */
  function Slot(i: nat, back: nat): (s: nat)
    requires i < CAPACITY && back <= CAPACITY
    ensures s < CAPACITY
    ensures s == if back <= i then i - back else i + CAPACITY - back
  {
    (i - back + CAPACITY) % CAPACITY
  }

  /** The events of the ring, oldest first. */
  function RingOf(buffer: seq<Event>, buffIdx: nat, count: nat): (q: seq<Event>)
    requires |buffer| == CAPACITY && buffIdx < CAPACITY && count <= CAPACITY
    ensures |q| == count
  {
    seq(count, k requires 0 <= k < count => buffer[Slot(buffIdx, count - k)])
  }

  lemma RingPush(buffer: seq<Event>, buffIdx: nat, count: nat, e: Event)
    requires |buffer| == CAPACITY && buffIdx < CAPACITY && count <= CAPACITY
    ensures RingOf(buffer[buffIdx := e], (buffIdx + 1) % CAPACITY,
                   if count < CAPACITY then count + 1 else CAPACITY)
            == PushDroppingOldest(RingOf(buffer, buffIdx, count), e)
  {
    var next, count' := (buffIdx + 1) % CAPACITY, if count < CAPACITY then count + 1 else CAPACITY;
    var q, want := RingOf(buffer[buffIdx := e], next, count'), PushDroppingOldest(RingOf(buffer, buffIdx, count), e);
    forall k | 0 <= k < count'
      ensures q[k] == want[k]
    {
      assert q[k] == buffer[buffIdx := e][Slot(next, count' - k)];
      if k < count' - 1 {
        assert Slot(next, count' - k) == Slot(buffIdx, count' - 1 - k) != buffIdx;
      }
    }
  }

  lemma RingPop(buffer: seq<Event>, buffIdx: nat, count: nat)
    requires |buffer| == CAPACITY && buffIdx < CAPACITY && 0 < count <= CAPACITY
    ensures RingOf(buffer, buffIdx, count)[0] == buffer[(buffIdx - count + CAPACITY) % CAPACITY]
    ensures RingOf(buffer, buffIdx, count - 1) == RingOf(buffer, buffIdx, count)[1..]
  {
    var q, rest := RingOf(buffer, buffIdx, count), RingOf(buffer, buffIdx, count - 1);
    assert q[0] == buffer[Slot(buffIdx, count)];
    forall k | 0 <= k < count - 1
      ensures rest[k] == q[1..][k]
    {
      assert rest[k] == buffer[Slot(buffIdx, count - 1 - k)] == q[k + 1];
    }
  }

  /** RUN LAW.  With m events before the callback was last installed, `pending` of them in the ring:
      the ring holds the latest events, and event i delivered since then is event
      m + i - min(pending, 23) of the history (both counted from 0), in order. */
  ghost predicate RunLaw(history: seq<Event>, m: nat, pending: nat, hasCallback: bool,
                         delivered: seq<Event>, ring: seq<Event>)
  {
    && pending <= Min(m, CAPACITY) && m <= |history|
    && |ring| <= |history| && ring == history[|history| - |ring|..]
    && |ring| == (if hasCallback && |history| > m then Min(pending, CAPACITY - 1) else pending)
    && (!hasCallback ==> m == |history|)
    && |delivered| == |history| - m
    && forall i :: 0 <= i < |delivered| ==>
         delivered[i] == history[m + i - Min(pending, CAPACITY - 1)]
  }

  lemma RunLawBefore(history: seq<Event>, m: nat, pending: nat, ring: seq<Event>, e: Event)
    requires RunLaw(history, m, pending, false, [], ring)
    ensures RunLaw(history + [e], m + 1, Min(pending + 1, CAPACITY), false, [], PushDroppingOldest(ring, e))
  {
  }

  lemma RunLawAfter(history: seq<Event>, m: nat, pending: nat, delivered: seq<Event>, ring: seq<Event>,
                    e: Event)
    requires RunLaw(history, m, pending, true, delivered, ring)
    ensures var q := PushDroppingOldest(ring, e);
            RunLaw(history + [e], m, pending, true, delivered + [q[0]], q[1..])
  {
    var q, h := PushDroppingOldest(ring, e), history + [e];
    assert q == h[|h| - |q|..];
    assert q[0] == h[|h| - |q|];
  }

  class Driver {
    // the static variables of keyboard_translate_scancode
    var isExtended: bool
    var isReleased: bool
    var pauseIdx: nat
    var pressedPending: bool
    var releasedPending: bool

    const keymap: Keymap
    const buffer: array<Event>
    var buffIdx: nat
    var count: int
    var hasCallback: bool

    /** All recognised events so far; how many of them arrived before the callback was last installed,
        and how many of those were then in the ring; what the callback was given since; and whether a
        callback was ever taken away. */
    ghost var history: seq<Event>
    ghost var installedAt: nat
    ghost var pending: nat
    ghost var delivered: seq<Event>
    ghost var uninstalled: bool

    function DecoderState(): Decoder
      reads this
    {
      Decoder(isExtended, isReleased, pauseIdx, pressedPending, releasedPending)
    }

    ghost predicate Shape()
      reads this
    {
      buffer.Length == CAPACITY && buffIdx < CAPACITY && count <= CAPACITY && Reachable(DecoderState())
    }

    ghost function Contents(): seq<Event>
      requires Shape() && count >= 0
      reads this, buffer
    {
      RingOf(buffer[..], buffIdx, count)
    }

    /** The invariant of every run in which only the handler reads events. */
    ghost predicate Valid()
      reads this, buffer
    {
      && Shape() && count >= 0
      && RunLaw(history, installedAt, pending, hasCallback, delivered, Contents())
      && (!uninstalled ==> pending == Min(installedAt, CAPACITY))
    }

    /** The static initial state. */
    constructor (keymap: Keymap)
      ensures Valid() && history == [] && !hasCallback && DecoderState() == IDLE && fresh(buffer)
      ensures !uninstalled
      ensures this.keymap == keymap
    {
      this.keymap := keymap;
      isExtended, isReleased, pauseIdx, pressedPending, releasedPending := false, false, 0, false, false;
      buffer := new Event[CAPACITY](_ => NO_EVENT);
      buffIdx, count, hasCallback := 0, 0, false;
      history, installedAt, pending, delivered, uninstalled := [], 0, 0, [], false;
      new;
      assert Contents() == [];
    }

    /** `keyboard_translate_scancode`. */
    method TranslateScancode(scancode: Byte) returns (event: Event)
      requires pauseIdx < 8
      modifies this`isExtended, this`isReleased, this`pauseIdx, this`pressedPending, this`releasedPending
      ensures (DecoderState(), event) == DecodeByte(keymap, old(DecoderState()), scancode)
    {
      event := NO_EVENT;
      if scancode == 0xE0 {
        isExtended := true;
        return;
      }
      if scancode == 0xF0 {
        isReleased := true;
        return;
      }
      if pressedPending && scancode == PRINT_SCREEN_PRESS {
        pressedPending := false;
        return Event(KeyPrintScreen, false);
      }
      if releasedPending && scancode == PRINT_SCREEN_RELEASE {
        releasedPending := false;
        return Event(KeyPrintScreen, true);
      }
      if pauseIdx > 0 || scancode == 0xE1 {
        if pauseIdx == 0 && scancode == 0xE1 {
          pauseIdx := 1;
          return;
        } else if scancode == PauseByte(pauseIdx) {
          pauseIdx := pauseIdx + 1;
          if pauseIdx == 8 {
            pauseIdx := 0;
            isExtended := false;
            isReleased := false;
            return Event(KeyPlayPause, false);
          }
          return;
        } else {
          pauseIdx := 0;
        }
      }
      if isExtended {
        if scancode == PRINT_SCREEN_RELEASE {
          pressedPending := true;
        } else if scancode == PRINT_SCREEN_PRESS {
          releasedPending := true;
        }
        event := Event(keymap.extended(scancode), isReleased);
      } else {
        event := Event(keymap.normal(scancode), isReleased);
      }
      isExtended := false;
      isReleased := false;
    }

    /** The ring part of `keyboard_irq_handler`. */
    method Push(event: Event)
      requires Shape() && count >= 0
      modifies this`buffIdx, this`count, buffer
      ensures Shape() && 1 <= count
      ensures Contents() == PushDroppingOldest(old(Contents()), event)
    {
      RingPush(buffer[..], buffIdx, count, event);
      buffer[buffIdx] := event;
      buffIdx := (buffIdx + 1) % CAPACITY;
      count := if count < CAPACITY then count + 1 else CAPACITY;
    }

    /** `keyboard_get_event`.  Nothing stops a caller from reading an empty ring: it is given an old
        slot, and the count becomes negative. */
    method GetEvent() returns (event: Event)
      requires Shape()
      modifies this`count
      ensures Shape() && count == old(count) - 1
      ensures old(count) > 0 ==> event == old(Contents())[0] && Contents() == old(Contents())[1..]
      ensures old(count) <= 0 ==> event == buffer[(buffIdx - old(count)) % CAPACITY]
    {
      if count > 0 {
        RingPop(buffer[..], buffIdx, count);
      }
      var idx := ((buffIdx - count) + CAPACITY) % CAPACITY;
      event := buffer[idx];
      count := count - 1;
    }

    /** `keyboard_install_event_callback`; a null callback takes the installed one away. */
    method InstallCallback(callback: bool)
      requires Valid()
      modifies this`hasCallback, this`installedAt, this`pending, this`delivered, this`uninstalled
      ensures Valid() && hasCallback == callback
      ensures uninstalled <==> old(uninstalled) || (old(hasCallback) && !callback)
      ensures hasCallback == old(hasCallback) || !old(hasCallback) ==>
                installedAt == old(installedAt) && pending == old(pending) && delivered == old(delivered)
      ensures old(hasCallback) && !callback ==>
                installedAt == |history| && pending == count && delivered == []
    {
      if hasCallback && !callback {
        installedAt, pending, delivered, uninstalled := |history|, count, [], true;
      }
      hasCallback := callback;
    }

    /** `keyboard_irq_handler`, for the byte that was read from the controller. */
    method HandleByte(scancode: Byte) returns (d: Delivery)
      requires Valid()
      modifies this`isExtended, this`isReleased, this`pauseIdx, this`pressedPending, this`releasedPending
      modifies this`buffIdx, this`count, this`history, this`installedAt, this`pending, this`delivered, buffer
      ensures Valid() && (hasCallback ==> installedAt == old(installedAt) && pending == old(pending))
      ensures var (s, e) := DecodeByte(keymap, old(DecoderState()), scancode);
              && DecoderState() == s && history == old(history) + Kept(e)
              && (d.Delivered? <==> hasCallback && Recognised(e))
              && delivered == old(delivered) + (if d.Delivered? then [d.event] else [])
    {
      DecoderStaysInBounds(keymap, DecoderState(), scancode);
      var event := TranslateScancode(scancode);
      if event.keycode == KeyNone || event.keycode == KeyUnknown {
        return Nothing;
      }
      d := Accept(event);
    }

    /** The part of the handler for a recognised event. */
    method Accept(event: Event) returns (d: Delivery)
      requires Valid()
      modifies this`buffIdx, this`count, this`history, this`installedAt, this`pending, this`delivered, buffer
      ensures Valid() && history == old(history) + [event]
      ensures hasCallback ==> installedAt == old(installedAt) && pending == old(pending)
      ensures d.Delivered? <==> hasCallback
      ensures delivered == old(delivered) + (if d.Delivered? then [d.event] else [])
    {
      if hasCallback {
        RunLawAfter(history, installedAt, pending, delivered, Contents(), event);
      } else {
        RunLawBefore(history, installedAt, pending, Contents(), event);
      }
      Push(event);
      history := history + [event];
      if !hasCallback {
        installedAt, pending := |history|, Min(pending + 1, CAPACITY);
        return Nothing;
      }
      var oldest := GetEvent();
      delivered := delivered + [oldest];
      d := Delivered(oldest);
    }

    /** The next byte of a stream that began with the decoder state d0 and the history h0. */
    method HandleNext(bytes: seq<Byte>, i: nat, ghost d0: Decoder, ghost h0: seq<Event>)
      requires Valid() && i < |bytes|
      requires DecoderState() == Decode(keymap, d0, bytes[..i]).0
      requires history == h0 + Decode(keymap, d0, bytes[..i]).1
      modifies this`isExtended, this`isReleased, this`pauseIdx, this`pressedPending, this`releasedPending
      modifies this`buffIdx, this`count, this`history, this`installedAt, this`pending, this`delivered, buffer
      ensures Valid() && (hasCallback ==> installedAt == old(installedAt) && pending == old(pending))
      ensures DecoderState() == Decode(keymap, d0, bytes[..i + 1]).0
      ensures history == h0 + Decode(keymap, d0, bytes[..i + 1]).1
    {
      RunOneMore(MachineOf(keymap), d0, bytes, i);
      var d := HandleByte(bytes[i]);
    }

    /** A stream of bytes, one interrupt after the other. */
    method HandleStream(bytes: seq<Byte>)
      requires Valid()
      modifies this, buffer
      ensures Valid() && hasCallback == old(hasCallback)
      ensures hasCallback ==> installedAt == old(installedAt) && pending == old(pending)
      ensures var (s, es) := Decode(keymap, old(DecoderState()), bytes);
              DecoderState() == s && history == old(history) + es
    {
      var i := 0;
      ghost var d0, h0 := DecoderState(), history;
      assert bytes[..0] == [];
      while i < |bytes|
        invariant 0 <= i <= |bytes| && Valid() && hasCallback == old(hasCallback)
        invariant hasCallback ==> installedAt == old(installedAt) && pending == old(pending)
        invariant DecoderState() == Decode(keymap, d0, bytes[..i]).0
        invariant history == h0 + Decode(keymap, d0, bytes[..i]).1
      {
        HandleNext(bytes, i, d0, h0);
        i := i + 1;
      }
      assert bytes[..i] == bytes;
    }

    /** END TO END.  A driver that is idle and whose ring was empty when the callback was installed
        gives the callback exactly the events of the strokes that the keyboard sends. */
    method TypeStrokes(strokes: seq<Stroke>)
      requires Valid() && hasCallback && pending == 0 && DecoderState() == IDLE
      requires forall s :: s in strokes ==> Ordinary(keymap, s)
      modifies this, buffer
      ensures Valid() && DecoderState() == IDLE
      ensures delivered == old(delivered) + EventsOf(keymap, strokes)
    {
      RoundTrip(keymap, strokes);
      HandleStream(EncodeAll(strokes));
    }
  }

  /** Decoding one more byte of a stream. */
  lemma RunOneMore(f: Machine, d: Decoder, bytes: seq<Byte>, i: nat)
    requires i < |bytes|
    ensures var (d', es) := Run(f, d, bytes[..i]);
            Run(f, d, bytes[..i + 1]) == (f(d', bytes[i]).0, es + Kept(f(d', bytes[i]).1))
  {
    var d', b := Run(f, d, bytes[..i]).0, bytes[i];
    RunAppend(f, d, bytes[..i], [b]);
    assert bytes[..i + 1] == bytes[..i] + [b];
    RunCons(f, d', b, []);
    assert [b] + [] == [b];
    assert Kept(f(d', b).1) + [] == Kept(f(d', b).1);
  }
}
