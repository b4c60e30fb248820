/** Scan Code Set 2: the key tables and the decoder of src/drivers/keyboard.c. */
module Scancodes {
  import opened BitMath

  datatype Key =
    | KeyNone | KeyUnknown | KeyF1 | KeyF2 | KeyF3 | KeyF4 | KeyF5 | KeyF6 | KeyF7 | KeyF8 | KeyF9
    | KeyF10 | KeyF11 | KeyF12 | KeyLeftShift | KeyRightShift | KeyLeftCtrl | KeyRightCtrl
    | KeyLeftAlt | KeyRightAlt | KeyLeftGui | KeyRightGui | KeyA | KeyB | KeyC | KeyD | KeyE | KeyF
    | KeyG | KeyH | KeyI | KeyJ | KeyK | KeyL | KeyM | KeyN | KeyO | KeyP | KeyQ | KeyR | KeyS
    | KeyT | KeyU | KeyV | KeyW | KeyX | KeyY | KeyZ | Key1 | Key2 | Key3 | Key4 | Key5 | Key6
    | Key7 | Key8 | Key9 | KeyZero | KeyMinus | KeyEqual | KeyLeftBracket | KeyRightBracket
    | KeyBackslash | KeySemicolon | KeyApostrophe | KeyGrave | KeyComma | KeyPeriod | KeySlash
    | KeyCapslock | KeyNumlock | KeyScrolllock | KeyTab | KeyEnter | KeySpace | KeyBackspace
    | KeyEscape | KeyCursorLeft | KeyCursorRight | KeyCursorUp | KeyCursorDown | KeyHome | KeyEnd
    | KeyInsert | KeyDelete | KeyPageUp | KeyPageDown | KeyPrintScreen | KeyKp0 | KeyKp1 | KeyKp2
    | KeyKp3 | KeyKp4 | KeyKp5 | KeyKp6 | KeyKp7 | KeyKp8 | KeyKp9 | KeyKpPeriod | KeyKpPlus
    | KeyKpMinus | KeyKpAsterisk | KeyKpSlash | KeyKpEnter | KeyPlayPause | KeyStop
    | KeyPreviousTrack | KeyNextTrack | KeyMute | KeyVolumeDown | KeyVolumeUp | KeyCalculator
    | KeyMediaSelect | KeySleep | KeyWake | KeyPower | KeyMyComputer | KeyEmail | KeyWwwHome
    | KeyWwwBack | KeyWwwForward | KeyWwwRefresh | KeyWwwSearch | KeyWwwStop | KeyWwwFavorites
    | KeyApps

  datatype Event = Event(keycode: Key, isReleased: bool)

  const NO_EVENT: Event := Event(KeyNone, false)

  const PRINT_SCREEN_PRESS: Byte := 0x7C
  const PRINT_SCREEN_RELEASE: Byte := 0x12

  /** The switch over a scancode without prefix, cut into ranges. */
  function NormalKey(scancode: Byte): Key {
    if scancode < 0x10 then NormalKeyFrom00(scancode)
    else if scancode < 0x20 then NormalKeyFrom10(scancode)
    else if scancode < 0x30 then NormalKeyFrom20(scancode)
    else if scancode < 0x40 then NormalKeyFrom30(scancode)
    else if scancode < 0x50 then NormalKeyFrom40(scancode)
    else if scancode < 0x70 then NormalKeyFrom50(scancode)
    else NormalKeyFrom70(scancode)
  }

  function NormalKeyFrom00(scancode: Byte): Key {
    match scancode
    case 0x01 => KeyF9
    case 0x03 => KeyF5
    case 0x04 => KeyF3
    case 0x05 => KeyF1
    case 0x06 => KeyF2
    case 0x07 => KeyF12
    case 0x09 => KeyF10
    case 0x0A => KeyF8
    case 0x0B => KeyF6
    case 0x0C => KeyF4
    case 0x0D => KeyTab
    case 0x0E => KeyGrave
    case _ => KeyUnknown
  }

  function NormalKeyFrom10(scancode: Byte): Key {
    match scancode
    case 0x11 => KeyLeftAlt
    case 0x12 => KeyLeftShift
    case 0x14 => KeyLeftCtrl
    case 0x15 => KeyQ
    case 0x16 => Key1
    case 0x1A => KeyZ
    case 0x1B => KeyS
    case 0x1C => KeyA
    case 0x1D => KeyW
    case 0x1E => Key2
    case _ => KeyUnknown
  }

  function NormalKeyFrom20(scancode: Byte): Key {
    match scancode
    case 0x21 => KeyC
    case 0x22 => KeyX
    case 0x23 => KeyD
    case 0x24 => KeyE
    case 0x25 => Key4
    case 0x26 => Key3
    case 0x29 => KeySpace
    case 0x2A => KeyV
    case 0x2B => KeyF
    case 0x2C => KeyT
    case 0x2D => KeyR
    case 0x2E => Key5
    case _ => KeyUnknown
  }

  function NormalKeyFrom30(scancode: Byte): Key {
    match scancode
    case 0x31 => KeyN
    case 0x32 => KeyB
    case 0x33 => KeyH
    case 0x34 => KeyG
    case 0x35 => KeyY
    case 0x36 => Key6
    case 0x3A => KeyM
    case 0x3B => KeyJ
    case 0x3C => KeyU
    case 0x3D => Key7
    case 0x3E => Key8
    case _ => KeyUnknown
  }

  function NormalKeyFrom40(scancode: Byte): Key {
    match scancode
    case 0x41 => KeyComma
    case 0x42 => KeyK
    case 0x43 => KeyI
    case 0x44 => KeyO
    case 0x45 => KeyZero
    case 0x46 => Key9
    case 0x49 => KeyPeriod
    case 0x4A => KeySlash
    case 0x4B => KeyL
    case 0x4C => KeySemicolon
    case 0x4D => KeyP
    case 0x4E => KeyMinus
    case _ => KeyUnknown
  }

  function NormalKeyFrom50(scancode: Byte): Key {
    match scancode
    case 0x52 => KeyApostrophe
    case 0x54 => KeyLeftBracket
    case 0x55 => KeyEqual
    case 0x58 => KeyCapslock
    case 0x59 => KeyRightShift
    case 0x5A => KeyEnter
    case 0x5B => KeyRightBracket
    case 0x5D => KeyBackslash
    case 0x66 => KeyBackspace
    case 0x69 => KeyKp1
    case 0x6B => KeyKp4
    case 0x6C => KeyKp7
    case _ => KeyUnknown
  }

  function NormalKeyFrom70(scancode: Byte): Key {
    match scancode
    case 0x70 => KeyKp0
    case 0x71 => KeyKpPeriod
    case 0x72 => KeyKp2
    case 0x73 => KeyKp5
    case 0x74 => KeyKp6
    case 0x75 => KeyKp8
    case 0x76 => KeyEscape
    case 0x77 => KeyNumlock
    case 0x78 => KeyF11
    case 0x79 => KeyKpPlus
    case 0x7A => KeyKp3
    case 0x7B => KeyKpMinus
    case 0x7C => KeyKpAsterisk
    case 0x7D => KeyKp9
    case 0x7E => KeyScrolllock
    case 0x83 => KeyF7
    case _ => KeyUnknown
  }

  /** The switch over a scancode after E0, cut into ranges. */
  function ExtendedKey(scancode: Byte): Key {
    if scancode < 0x20 then ExtendedKeyFrom00(scancode)
    else if scancode < 0x38 then ExtendedKeyFrom20(scancode)
    else if scancode < 0x60 then ExtendedKeyFrom38(scancode)
    else ExtendedKeyFrom60(scancode)
  }

  function ExtendedKeyFrom00(scancode: Byte): Key {
    match scancode
    case 0x10 => KeyWwwSearch
    case 0x11 => KeyRightAlt
    case 0x12 => KeyNone
    case 0x14 => KeyRightCtrl
    case 0x15 => KeyPreviousTrack
    case 0x18 => KeyWwwFavorites
    case 0x1F => KeyLeftGui
    case _ => KeyUnknown
  }

  function ExtendedKeyFrom20(scancode: Byte): Key {
    match scancode
    case 0x20 => KeyWwwRefresh
    case 0x21 => KeyVolumeDown
    case 0x23 => KeyMute
    case 0x27 => KeyRightGui
    case 0x28 => KeyWwwStop
    case 0x2B => KeyCalculator
    case 0x2F => KeyApps
    case 0x30 => KeyWwwForward
    case 0x32 => KeyVolumeUp
    case 0x34 => KeyPlayPause
    case 0x37 => KeyPower
    case _ => KeyUnknown
  }

  function ExtendedKeyFrom38(scancode: Byte): Key {
    match scancode
    case 0x38 => KeyWwwBack
    case 0x3A => KeyWwwHome
    case 0x3B => KeyStop
    case 0x3F => KeySleep
    case 0x40 => KeyMyComputer
    case 0x48 => KeyEmail
    case 0x4A => KeyKpSlash
    case 0x4D => KeyNextTrack
    case 0x50 => KeyMediaSelect
    case 0x5A => KeyKpEnter
    case 0x5E => KeyWake
    case _ => KeyUnknown
  }

  function ExtendedKeyFrom60(scancode: Byte): Key {
    match scancode
    case 0x69 => KeyEnd
    case 0x6B => KeyCursorLeft
    case 0x6C => KeyHome
    case 0x70 => KeyInsert
    case 0x71 => KeyDelete
    case 0x72 => KeyCursorDown
    case 0x74 => KeyCursorRight
    case 0x75 => KeyCursorUp
    case 0x7A => KeyPageDown
    case 0x7C => KeyNone
    case 0x7D => KeyPageUp
    case _ => KeyUnknown
  }

  /** The scancode that a key has without prefix, or -1. */
  function NormalCodeOf(key: Key): int {
    if NormalCodeFrom00(key) >= 0 then NormalCodeFrom00(key)
    else if NormalCodeFrom10(key) >= 0 then NormalCodeFrom10(key)
    else if NormalCodeFrom20(key) >= 0 then NormalCodeFrom20(key)
    else if NormalCodeFrom30(key) >= 0 then NormalCodeFrom30(key)
    else if NormalCodeFrom40(key) >= 0 then NormalCodeFrom40(key)
    else if NormalCodeFrom50(key) >= 0 then NormalCodeFrom50(key)
    else NormalCodeFrom70(key)
  }

  function NormalCodeFrom00(key: Key): int {
    if key.KeyF9? then 0x01
    else if key.KeyF5? then 0x03
    else if key.KeyF3? then 0x04
    else if key.KeyF1? then 0x05
    else if key.KeyF2? then 0x06
    else if key.KeyF12? then 0x07
    else if key.KeyF10? then 0x09
    else if key.KeyF8? then 0x0A
    else if key.KeyF6? then 0x0B
    else if key.KeyF4? then 0x0C
    else if key.KeyTab? then 0x0D
    else if key.KeyGrave? then 0x0E
    else -1
  }

  function NormalCodeFrom10(key: Key): int {
    if key.KeyLeftAlt? then 0x11
    else if key.KeyLeftShift? then 0x12
    else if key.KeyLeftCtrl? then 0x14
    else if key.KeyQ? then 0x15
    else if key.Key1? then 0x16
    else if key.KeyZ? then 0x1A
    else if key.KeyS? then 0x1B
    else if key.KeyA? then 0x1C
    else if key.KeyW? then 0x1D
    else if key.Key2? then 0x1E
    else -1
  }

  function NormalCodeFrom20(key: Key): int {
    if key.KeyC? then 0x21
    else if key.KeyX? then 0x22
    else if key.KeyD? then 0x23
    else if key.KeyE? then 0x24
    else if key.Key4? then 0x25
    else if key.Key3? then 0x26
    else if key.KeySpace? then 0x29
    else if key.KeyV? then 0x2A
    else if key.KeyF? then 0x2B
    else if key.KeyT? then 0x2C
    else if key.KeyR? then 0x2D
    else if key.Key5? then 0x2E
    else -1
  }

  function NormalCodeFrom30(key: Key): int {
    if key.KeyN? then 0x31
    else if key.KeyB? then 0x32
    else if key.KeyH? then 0x33
    else if key.KeyG? then 0x34
    else if key.KeyY? then 0x35
    else if key.Key6? then 0x36
    else if key.KeyM? then 0x3A
    else if key.KeyJ? then 0x3B
    else if key.KeyU? then 0x3C
    else if key.Key7? then 0x3D
    else if key.Key8? then 0x3E
    else -1
  }

  function NormalCodeFrom40(key: Key): int {
    if key.KeyComma? then 0x41
    else if key.KeyK? then 0x42
    else if key.KeyI? then 0x43
    else if key.KeyO? then 0x44
    else if key.KeyZero? then 0x45
    else if key.Key9? then 0x46
    else if key.KeyPeriod? then 0x49
    else if key.KeySlash? then 0x4A
    else if key.KeyL? then 0x4B
    else if key.KeySemicolon? then 0x4C
    else if key.KeyP? then 0x4D
    else if key.KeyMinus? then 0x4E
    else -1
  }

  function NormalCodeFrom50(key: Key): int {
    if key.KeyApostrophe? then 0x52
    else if key.KeyLeftBracket? then 0x54
    else if key.KeyEqual? then 0x55
    else if key.KeyCapslock? then 0x58
    else if key.KeyRightShift? then 0x59
    else if key.KeyEnter? then 0x5A
    else if key.KeyRightBracket? then 0x5B
    else if key.KeyBackslash? then 0x5D
    else if key.KeyBackspace? then 0x66
    else if key.KeyKp1? then 0x69
    else if key.KeyKp4? then 0x6B
    else if key.KeyKp7? then 0x6C
    else -1
  }

  function NormalCodeFrom70(key: Key): int {
    if key.KeyKp0? then 0x70
    else if key.KeyKpPeriod? then 0x71
    else if key.KeyKp2? then 0x72
    else if key.KeyKp5? then 0x73
    else if key.KeyKp6? then 0x74
    else if key.KeyKp8? then 0x75
    else if key.KeyEscape? then 0x76
    else if key.KeyNumlock? then 0x77
    else if key.KeyF11? then 0x78
    else if key.KeyKpPlus? then 0x79
    else if key.KeyKp3? then 0x7A
    else if key.KeyKpMinus? then 0x7B
    else if key.KeyKpAsterisk? then 0x7C
    else if key.KeyKp9? then 0x7D
    else if key.KeyScrolllock? then 0x7E
    else if key.KeyF7? then 0x83
    else -1
  }

  /** The scancode that a key has after E0, or -1. */
  function ExtendedCodeOf(key: Key): int {
    if ExtendedCodeFrom00(key) >= 0 then ExtendedCodeFrom00(key)
    else if ExtendedCodeFrom20(key) >= 0 then ExtendedCodeFrom20(key)
    else if ExtendedCodeFrom38(key) >= 0 then ExtendedCodeFrom38(key)
    else ExtendedCodeFrom60(key)
  }

  function ExtendedCodeFrom00(key: Key): int {
    if key.KeyWwwSearch? then 0x10
    else if key.KeyRightAlt? then 0x11
    else if key.KeyRightCtrl? then 0x14
    else if key.KeyPreviousTrack? then 0x15
    else if key.KeyWwwFavorites? then 0x18
    else if key.KeyLeftGui? then 0x1F
    else -1
  }

  function ExtendedCodeFrom20(key: Key): int {
    if key.KeyWwwRefresh? then 0x20
    else if key.KeyVolumeDown? then 0x21
    else if key.KeyMute? then 0x23
    else if key.KeyRightGui? then 0x27
    else if key.KeyWwwStop? then 0x28
    else if key.KeyCalculator? then 0x2B
    else if key.KeyApps? then 0x2F
    else if key.KeyWwwForward? then 0x30
    else if key.KeyVolumeUp? then 0x32
    else if key.KeyPlayPause? then 0x34
    else if key.KeyPower? then 0x37
    else -1
  }

  function ExtendedCodeFrom38(key: Key): int {
    if key.KeyWwwBack? then 0x38
    else if key.KeyWwwHome? then 0x3A
    else if key.KeyStop? then 0x3B
    else if key.KeySleep? then 0x3F
    else if key.KeyMyComputer? then 0x40
    else if key.KeyEmail? then 0x48
    else if key.KeyKpSlash? then 0x4A
    else if key.KeyNextTrack? then 0x4D
    else if key.KeyMediaSelect? then 0x50
    else if key.KeyKpEnter? then 0x5A
    else if key.KeyWake? then 0x5E
    else -1
  }

  function ExtendedCodeFrom60(key: Key): int {
    if key.KeyEnd? then 0x69
    else if key.KeyCursorLeft? then 0x6B
    else if key.KeyHome? then 0x6C
    else if key.KeyInsert? then 0x70
    else if key.KeyDelete? then 0x71
    else if key.KeyCursorDown? then 0x72
    else if key.KeyCursorRight? then 0x74
    else if key.KeyCursorUp? then 0x75
    else if key.KeyPageDown? then 0x7A
    else if key.KeyPageUp? then 0x7D
    else -1
  }

  predicate Recognised(e: Event) {
    !e.keycode.KeyNone? && !e.keycode.KeyUnknown?
  }

  lemma CodeOfNormalKeyFrom00(scancode: Byte)
    ensures var k := NormalKeyFrom00(scancode);
            k.KeyUnknown?
            || (NormalCodeFrom00(k) == scancode)
  {
  }

  lemma CodeOfNormalKeyFrom10(scancode: Byte)
    ensures var k := NormalKeyFrom10(scancode);
            k.KeyUnknown?
            || (NormalCodeFrom00(k) < 0 && NormalCodeFrom10(k) == scancode)
  {
  }

  lemma CodeOfNormalKeyFrom20(scancode: Byte)
    ensures var k := NormalKeyFrom20(scancode);
            k.KeyUnknown?
            || (NormalCodeFrom00(k) < 0 && NormalCodeFrom10(k) < 0 && NormalCodeFrom20(k) == scancode)
  {
  }

  lemma CodeOfNormalKeyFrom30(scancode: Byte)
    ensures var k := NormalKeyFrom30(scancode);
            k.KeyUnknown?
            || (NormalCodeFrom00(k) < 0 && NormalCodeFrom10(k) < 0 && NormalCodeFrom20(k) < 0 &&
                NormalCodeFrom30(k) == scancode)
  {
  }

  lemma CodeOfNormalKeyFrom40(scancode: Byte)
    ensures var k := NormalKeyFrom40(scancode);
            k.KeyUnknown?
            || (NormalCodeFrom00(k) < 0 && NormalCodeFrom10(k) < 0 && NormalCodeFrom20(k) < 0 &&
                NormalCodeFrom30(k) < 0 && NormalCodeFrom40(k) == scancode)
  {
  }

  lemma CodeOfNormalKeyFrom50(scancode: Byte)
    ensures var k := NormalKeyFrom50(scancode);
            k.KeyUnknown?
            || (NormalCodeFrom00(k) < 0 && NormalCodeFrom10(k) < 0 && NormalCodeFrom20(k) < 0 &&
                NormalCodeFrom30(k) < 0 && NormalCodeFrom40(k) < 0 && NormalCodeFrom50(k) == scancode)
  {
  }

  lemma CodeOfNormalKeyFrom70(scancode: Byte)
    ensures var k := NormalKeyFrom70(scancode);
            k.KeyUnknown?
            || (NormalCodeFrom00(k) < 0 && NormalCodeFrom10(k) < 0 && NormalCodeFrom20(k) < 0 &&
                NormalCodeFrom30(k) < 0 && NormalCodeFrom40(k) < 0 && NormalCodeFrom50(k) < 0 &&
                NormalCodeFrom70(k) == scancode)
  {
  }

  lemma CodeOfNormalKey(scancode: Byte)
    ensures NormalKey(scancode).KeyUnknown? || NormalCodeOf(NormalKey(scancode)) == scancode
  {
    CodeOfNormalKeyFrom00(scancode);
    CodeOfNormalKeyFrom10(scancode);
    CodeOfNormalKeyFrom20(scancode);
    CodeOfNormalKeyFrom30(scancode);
    CodeOfNormalKeyFrom40(scancode);
    CodeOfNormalKeyFrom50(scancode);
    CodeOfNormalKeyFrom70(scancode);
  }

  lemma CodeOfExtendedKeyFrom00(scancode: Byte)
    ensures var k := ExtendedKeyFrom00(scancode);
            k.KeyUnknown? || k.KeyNone?
            || (ExtendedCodeFrom00(k) == scancode)
  {
  }

  lemma CodeOfExtendedKeyFrom20(scancode: Byte)
    ensures var k := ExtendedKeyFrom20(scancode);
            k.KeyUnknown? || k.KeyNone?
            || (ExtendedCodeFrom00(k) < 0 && ExtendedCodeFrom20(k) == scancode)
  {
  }

  lemma CodeOfExtendedKeyFrom38(scancode: Byte)
    ensures var k := ExtendedKeyFrom38(scancode);
            k.KeyUnknown? || k.KeyNone?
            || (ExtendedCodeFrom00(k) < 0 && ExtendedCodeFrom20(k) < 0 && ExtendedCodeFrom38(k) == scancode)
  {
  }

  lemma CodeOfExtendedKeyFrom60(scancode: Byte)
    ensures var k := ExtendedKeyFrom60(scancode);
            k.KeyUnknown? || k.KeyNone?
            || (ExtendedCodeFrom00(k) < 0 && ExtendedCodeFrom20(k) < 0 && ExtendedCodeFrom38(k) < 0 &&
                ExtendedCodeFrom60(k) == scancode)
  {
  }

  lemma CodeOfExtendedKey(scancode: Byte)
    ensures ExtendedKey(scancode).KeyUnknown? || ExtendedKey(scancode).KeyNone?
            || ExtendedCodeOf(ExtendedKey(scancode)) == scancode
  {
    CodeOfExtendedKeyFrom00(scancode);
    CodeOfExtendedKeyFrom20(scancode);
    CodeOfExtendedKeyFrom38(scancode);
    CodeOfExtendedKeyFrom60(scancode);
  }

  /** No key has a scancode in both tables. */
  lemma TablesAreDisjoint(scancode: Byte)
    ensures ExtendedCodeOf(NormalKey(scancode)) == -1
  {
  }

  lemma PrefixesAreNoKeys(scancode: Byte)
    requires scancode in {0xE0, 0xF0, 0xE1}
    ensures NormalKey(scancode) == KeyUnknown && ExtendedKey(scancode) == KeyUnknown
  {
  }

  /** The two tables of the decoder. */
  datatype Keymap = Keymap(normal: Byte -> Key, extended: Byte -> Key)

  const SET2: Keymap := Keymap((b: Byte) => NormalKey(b), (b: Byte) => ExtendedKey(b))

  // ----- the decoder

  /** The static variables of `keyboard_translate_scancode`. */
  datatype Decoder = Decoder(isExtended: bool, isReleased: bool, pauseIdx: nat,
                             pressedPending: bool, releasedPending: bool)

  const IDLE: Decoder := Decoder(false, false, 0, false, false)

  /** The eight bytes of the pause sequence. */
  function PauseByte(i: nat): Byte
    requires i < 8
  {
    match i
    case 0 => 0xE1
    case 1 => 0x14
    case 2 => 0x77
    case 3 => 0xE1
    case 4 => 0xF0
    case 5 => 0x14
    case 6 => 0xF0
    case 7 => 0x77
  }

  /** The last part of the decoder: a byte that is a scancode. */
  function LookUp(k: Keymap, d: Decoder, b: Byte): (Decoder, Event) {
    if d.isExtended then
      (Decoder(false, false, 0, d.pressedPending || b == PRINT_SCREEN_RELEASE,
               d.releasedPending || b == PRINT_SCREEN_PRESS),
       Event(k.extended(b), d.isReleased))
    else (Decoder(false, false, 0, d.pressedPending, d.releasedPending), Event(k.normal(b), d.isReleased))
  }

  /** One byte through `keyboard_translate_scancode`. */
  function DecodeByte(k: Keymap, d: Decoder, b: Byte): (Decoder, Event) {
    if b == 0xE0 then (d.(isExtended := true), NO_EVENT)
    else if b == 0xF0 then (d.(isReleased := true), NO_EVENT)
    else if d.pressedPending && b == PRINT_SCREEN_PRESS then
      (d.(pressedPending := false), Event(KeyPrintScreen, false))
    else if d.releasedPending && b == PRINT_SCREEN_RELEASE then
      (d.(releasedPending := false), Event(KeyPrintScreen, true))
    else if d.pauseIdx == 0 && b == 0xE1 then (d.(pauseIdx := 1), NO_EVENT)
    else if 0 < d.pauseIdx < 8 && b == PauseByte(d.pauseIdx) then
      if d.pauseIdx + 1 == 8 then
        (Decoder(false, false, 0, d.pressedPending, d.releasedPending), Event(KeyPlayPause, false))
      else (d.(pauseIdx := d.pauseIdx + 1), NO_EVENT)
    else LookUp(k, d, b)
  }

  /** F0 is taken as the release prefix before it is compared with the pause sequence, so a pause
      sequence never gets past its fourth byte. */
  ghost predicate Reachable(d: Decoder) {
    d.pauseIdx <= 4
  }

  lemma DecoderStaysInBounds(k: Keymap, d: Decoder, b: Byte)
    requires Reachable(d)
    ensures Reachable(DecodeByte(k, d, b).0)
  {
  }

  /** `keyboard_irq_handler` drops what is not recognised. */
  function Kept(e: Event): seq<Event> {
    if Recognised(e) then [e] else []
  }

  /** A decoder over a byte stream: its state, and the recognised events. */
  type Machine = (Decoder, Byte) -> (Decoder, Event)

  function Run(f: Machine, d: Decoder, bytes: seq<Byte>): (Decoder, seq<Event>)
    decreases |bytes|
  {
    if bytes == [] then (d, [])
    else
      var (d', e) := f(d, bytes[0]);
      var (d'', es) := Run(f, d', bytes[1..]);
      (d'', Kept(e) + es)
  }

  lemma RunCons(f: Machine, d: Decoder, b: Byte, rest: seq<Byte>)
    ensures var (d', e) := f(d, b);
            var (d'', es) := Run(f, d', rest);
            Run(f, d, [b] + rest) == (d'', Kept(e) + es)
  {
    assert ([b] + rest)[1..] == rest;
  }

  /** What comes later in the stream does not change what has been decoded. */
  lemma {:induction false} RunAppend(f: Machine, d: Decoder, a: seq<Byte>, b: seq<Byte>)
    ensures var (d', es) := Run(f, d, a);
            var (d'', fs) := Run(f, d', b);
            Run(f, d, a + b) == (d'', es + fs)
    decreases |a|
  {
    if a == [] {
      assert a + b == b;
      assert [] + Run(f, d, b).1 == Run(f, d, b).1;
    } else {
      var (d', e) := f(d, a[0]);
      assert a + b == [a[0]] + (a[1..] + b);
      RunCons(f, d, a[0], a[1..] + b);
      RunAppend(f, d', a[1..], b);
      var (m, es) := Run(f, d', a[1..]);
      assert Kept(e) + (es + Run(f, m, b).1) == (Kept(e) + es) + Run(f, m, b).1;
    }
  }

  function MachineOf(k: Keymap): Machine {
    (d: Decoder, b: Byte) => DecodeByte(k, d, b)
  }

  function Decode(k: Keymap, d: Decoder, bytes: seq<Byte>): (Decoder, seq<Event>) {
    Run(MachineOf(k), d, bytes)
  }

  /** Over any byte stream the index into the pause sequence stays within its bounds. */
  lemma {:induction false} PauseIndexInBounds(k: Keymap, d: Decoder, bytes: seq<Byte>)
    requires Reachable(d)
    ensures Reachable(Decode(k, d, bytes).0)
    decreases |bytes|
  {
    if bytes != [] {
      DecoderStaysInBounds(k, d, bytes[0]);
      PauseIndexInBounds(k, DecodeByte(k, d, bytes[0]).0, bytes[1..]);
    }
  }

  /** One step of the decoder, with its outcome. */
  lemma Reads(k: Keymap, d: Decoder, b: Byte, rest: seq<Byte>, d': Decoder, e: Event)
    requires DecodeByte(k, d, b) == (d', e)
    ensures Decode(k, d, [b] + rest) == (Decode(k, d', rest).0, Kept(e) + Decode(k, d', rest).1)
  {
    RunCons(MachineOf(k), d, b, rest);
  }

  /** A step that yields no event. */
  lemma Absorbs(k: Keymap, d: Decoder, b: Byte, rest: seq<Byte>, d': Decoder)
    requires DecodeByte(k, d, b) == (d', NO_EVENT)
    ensures Decode(k, d, [b] + rest) == Decode(k, d', rest)
  {
    Reads(k, d, b, rest, d', NO_EVENT);
    assert [] + Decode(k, d', rest).1 == Decode(k, d', rest).1;
  }

  // ----- what a keyboard sends

  /** The make or break of the key with a scancode. */
  datatype Stroke = Stroke(isExtended: bool, scancode: Byte, isReleased: bool)

  function EventOf(k: Keymap, s: Stroke): Event {
    Event(if s.isExtended then k.extended(s.scancode) else k.normal(s.scancode), s.isReleased)
  }

  /** The tables know the scancode, and it is neither a prefix nor a piece of Print Screen. */
  predicate Ordinary(k: Keymap, s: Stroke) {
    && Recognised(EventOf(k, s)) && s.scancode !in {0xE0, 0xF0, 0xE1}
    && !(s.isExtended && s.scancode in {PRINT_SCREEN_PRESS, PRINT_SCREEN_RELEASE})
  }

  /** The bytes a Set 2 keyboard sends for a stroke. */
  function Encode(s: Stroke): seq<Byte> {
    (if s.isExtended then [0xE0] else []) + ((if s.isReleased then [0xF0] else []) + [s.scancode])
  }

  function EncodeAll(strokes: seq<Stroke>): seq<Byte> {
    if strokes == [] then [] else Encode(strokes[0]) + EncodeAll(strokes[1..])
  }

  function EventsOf(k: Keymap, strokes: seq<Stroke>): (es: seq<Event>)
    ensures |es| == |strokes| && forall i :: 0 <= i < |es| ==> es[i] == EventOf(k, strokes[i])
  {
    seq(|strokes|, i requires 0 <= i < |strokes| => EventOf(k, strokes[i]))
  }

  lemma DecodeScancode(k: Keymap, s: Stroke)
    requires Ordinary(k, s)
    ensures Decode(k, Decoder(s.isExtended, s.isReleased, 0, false, false), [s.scancode])
            == (IDLE, [EventOf(k, s)])
  {
    Reads(k, Decoder(s.isExtended, s.isReleased, 0, false, false), s.scancode, [], IDLE, EventOf(k, s));
    assert [s.scancode] + [] == [s.scancode];
    assert [EventOf(k, s)] + [] == [EventOf(k, s)];
  }

  lemma DecodeStroke(k: Keymap, s: Stroke)
    requires Ordinary(k, s)
    ensures Decode(k, IDLE, Encode(s)) == (IDLE, [EventOf(k, s)])
  {
    DecodeScancode(k, s);
    var d := Decoder(s.isExtended, false, 0, false, false);
    var tail := (if s.isReleased then [0xF0] else []) + [s.scancode];
    if s.isReleased {
      Absorbs(k, d, 0xF0, [s.scancode], d.(isReleased := true));
    } else {
      assert tail == [s.scancode];
    }
    if s.isExtended {
      Absorbs(k, IDLE, 0xE0, tail, d);
    } else {
      assert Encode(s) == tail;
    }
  }

  /** ROUND TRIP.  The bytes of any sequence of ordinary strokes decode to exactly their events, and
      leave the decoder idle. */
  lemma {:induction false} RoundTrip(k: Keymap, strokes: seq<Stroke>)
    requires forall s :: s in strokes ==> Ordinary(k, s)
    ensures Decode(k, IDLE, EncodeAll(strokes)) == (IDLE, EventsOf(k, strokes))
    decreases |strokes|
  {
    if strokes == [] {
      assert EventsOf(k, strokes) == [];
    } else {
      DecodeStroke(k, strokes[0]);
      RoundTrip(k, strokes[1..]);
      RunAppend(MachineOf(k), IDLE, Encode(strokes[0]), EncodeAll(strokes[1..]));
      assert EventsOf(k, strokes) == [EventOf(k, strokes[0])] + EventsOf(k, strokes[1..]);
    }
  }

  /** In Scan Code Set 2 every stroke of a recognised key is ordinary, and none is a piece of Print
      Screen. */
  lemma RecognisedStrokesAreOrdinary(s: Stroke)
    requires Recognised(EventOf(SET2, s))
    ensures Ordinary(SET2, s)
  {
    if s.scancode in {0xE0, 0xF0, 0xE1} {
      PrefixesAreNoKeys(s.scancode);
    }
  }

  /** Over both tables together no recognised event has two strokes. */
  lemma EventsDetermineStrokes(s: Stroke, t: Stroke)
    requires EventOf(SET2, s) == EventOf(SET2, t) && Recognised(EventOf(SET2, s))
    ensures s == t
  {
    SameKeySameCode(s.isExtended, s.scancode, t.isExtended, t.scancode);
  }

  lemma SameKeySameCode(extA: bool, a: Byte, extB: bool, b: Byte)
    requires (if extA then ExtendedKey(a) else NormalKey(a)) == (if extB then ExtendedKey(b) else NormalKey(b))
    requires Recognised(Event(if extA then ExtendedKey(a) else NormalKey(a), false))
    ensures extA == extB && a == b
  {
    CodeOfNormalKey(a);
    CodeOfNormalKey(b);
    CodeOfExtendedKey(a);
    CodeOfExtendedKey(b);
    TablesAreDisjoint(a);
    TablesAreDisjoint(b);
  }

  /** The Pause key is never reported: its sequence ends in the release of two other keys. */
  lemma PauseIsMisread(k: Keymap)
    ensures Decode(k, IDLE, [0xE1, 0x14, 0x77, 0xE1] + [0xF0, 0x14, 0xF0, 0x77])
            == (IDLE, Kept(Event(k.normal(0x14), true)) + Kept(Event(k.normal(0x77), true)))
  {
    PauseStart(k);
    PauseEnd(k);
    RunAppend(MachineOf(k), IDLE, [0xE1, 0x14, 0x77, 0xE1], [0xF0, 0x14, 0xF0, 0x77]);
    var es := Kept(Event(k.normal(0x14), true)) + Kept(Event(k.normal(0x77), true));
    assert [] + es == es;
  }

  lemma PauseStart(k: Keymap)
    ensures Decode(k, IDLE, [0xE1, 0x14, 0x77, 0xE1]) == (IDLE.(pauseIdx := 4), [])
  {
    var d1, d2, d3 := IDLE.(pauseIdx := 1), IDLE.(pauseIdx := 2), IDLE.(pauseIdx := 3);
    Absorbs(k, d3, 0xE1, [], IDLE.(pauseIdx := 4));
    Absorbs(k, d2, 0x77, [0xE1], d3);
    Absorbs(k, d1, 0x14, [0x77, 0xE1], d2);
    Absorbs(k, IDLE, 0xE1, [0x14, 0x77, 0xE1], d1);
    assert [0xE1, 0x14, 0x77, 0xE1] == [0xE1] + [0x14, 0x77, 0xE1];
    assert [0x14, 0x77, 0xE1] == [0x14] + [0x77, 0xE1];
    assert [0x77, 0xE1] == [0x77] + [0xE1];
    assert [0xE1] == [0xE1] + [];
  }

  lemma PauseEnd(k: Keymap)
    ensures Decode(k, IDLE.(pauseIdx := 4), [0xF0, 0x14, 0xF0, 0x77])
            == (IDLE, Kept(Event(k.normal(0x14), true)) + Kept(Event(k.normal(0x77), true)))
  {
    var d4, r := IDLE.(pauseIdx := 4), IDLE.(isReleased := true);
    Reads(k, r, 0x77, [], IDLE, Event(k.normal(0x77), true));
    Absorbs(k, IDLE, 0xF0, [0x77], r);
    Reads(k, d4.(isReleased := true), 0x14, [0xF0, 0x77], IDLE, Event(k.normal(0x14), true));
    Absorbs(k, d4, 0xF0, [0x14, 0xF0, 0x77], d4.(isReleased := true));
    assert [0xF0, 0x14, 0xF0, 0x77] == [0xF0] + [0x14, 0xF0, 0x77];
    assert [0x14, 0xF0, 0x77] == [0x14] + [0xF0, 0x77];
    assert [0xF0, 0x77] == [0xF0] + [0x77];
    assert [0x77] == [0x77] + [];
    assert Kept(Event(k.normal(0x77), true)) + [] == Kept(Event(k.normal(0x77), true));
  }

  lemma PrintScreenStart(k: Keymap)
    requires k.extended(0x12) == KeyNone
    ensures Decode(k, IDLE, [0xE0, 0x12, 0xE0]) == (Decoder(true, false, 0, true, false), [])
  {
    var x, p := IDLE.(isExtended := true), IDLE.(pressedPending := true);
    Absorbs(k, p, 0xE0, [], p.(isExtended := true));
    Absorbs(k, x, 0x12, [0xE0], p);
    Absorbs(k, IDLE, 0xE0, [0x12, 0xE0], x);
    assert [0xE0, 0x12, 0xE0] == [0xE0] + [0x12, 0xE0];
    assert [0x12, 0xE0] == [0x12] + [0xE0];
    assert [0xE0] == [0xE0] + [];
  }

  /** After the press of Print Screen the E0 prefix stays in force: the next key is looked up as an
      extended one. */
  lemma PrintScreenKeepsPrefix(k: Keymap, scancode: Byte)
    requires scancode !in {0xE0, 0xF0, 0xE1, 0x12, 0x7C} && k.extended(0x12) == KeyNone
    ensures Decode(k, IDLE, [0xE0, 0x12, 0xE0] + [0x7C, scancode])
            == (IDLE, [Event(KeyPrintScreen, false)] + Kept(Event(k.extended(scancode), false)))
  {
    var x, e := IDLE.(isExtended := true), Event(k.extended(scancode), false);
    PrintScreenStart(k);
    Reads(k, x, scancode, [], IDLE, e);
    Reads(k, x.(pressedPending := true), 0x7C, [scancode], x, Event(KeyPrintScreen, false));
    assert [0x7C, scancode] == [0x7C] + [scancode];
    assert [scancode] == [scancode] + [];
    assert Kept(e) + [] == Kept(e);
    RunAppend(MachineOf(k), IDLE, [0xE0, 0x12, 0xE0], [0x7C, scancode]);
    var es := [Event(KeyPrintScreen, false)] + Kept(e);
    assert [] + es == es;
  }

  lemma PrintScreenBreak(k: Keymap, d: Decoder)
    requires k.extended(0x7C) == KeyNone && !d.pressedPending && d.pauseIdx == 0 && !d.releasedPending
    ensures Decode(k, d, [0xE0, 0xF0, 0x7C]) == (Decoder(false, false, 0, false, true), [])
  {
    var x := d.(isExtended := true);
    var r, p := x.(isReleased := true), Decoder(false, false, 0, false, true);
    Reads(k, r, 0x7C, [], p, Event(KeyNone, true));
    Absorbs(k, x, 0xF0, [0x7C], r);
    Absorbs(k, d, 0xE0, [0xF0, 0x7C], x);
    assert [0xE0, 0xF0, 0x7C] == [0xE0] + [0xF0, 0x7C];
    assert [0xF0, 0x7C] == [0xF0] + [0x7C];
    assert [0x7C] == [0x7C] + [];
  }

  lemma PrintScreenEnd(k: Keymap, d: Decoder)
    requires d == Decoder(false, false, 0, false, true)
    ensures Decode(k, d, [0xE0, 0xF0, 0x12])
            == (Decoder(true, true, 0, false, false), [Event(KeyPrintScreen, true)])
  {
    var x := d.(isExtended := true);
    var r, e := x.(isReleased := true), Decoder(true, true, 0, false, false);
    Reads(k, r, 0x12, [], e, Event(KeyPrintScreen, true));
    Absorbs(k, x, 0xF0, [0x12], r);
    Absorbs(k, d, 0xE0, [0xF0, 0x12], x);
    assert [0xE0, 0xF0, 0x12] == [0xE0] + [0xF0, 0x12];
    assert [0xF0, 0x12] == [0xF0] + [0x12];
    assert [0x12] == [0x12] + [];
    assert [Event(KeyPrintScreen, true)] + [] == [Event(KeyPrintScreen, true)];
  }

  /** The release of Print Screen is reported, from idle as well as after its press; but then both
      prefixes stay in force. */
  lemma PrintScreenRelease(k: Keymap, d: Decoder)
    requires k.extended(0x7C) == KeyNone && (d == IDLE || d == IDLE.(isExtended := true))
    ensures Decode(k, d, [0xE0, 0xF0, 0x7C] + [0xE0, 0xF0, 0x12])
            == (Decoder(true, true, 0, false, false), [Event(KeyPrintScreen, true)])
  {
    PrintScreenBreak(k, d);
    PrintScreenEnd(k, Decoder(false, false, 0, false, true));
    RunAppend(MachineOf(k), d, [0xE0, 0xF0, 0x7C], [0xE0, 0xF0, 0x12]);
    assert [] + [Event(KeyPrintScreen, true)] == [Event(KeyPrintScreen, true)];
  }

  /** So the press of the next key is taken for a release, and looked up behind E0. */
  lemma NextPressIsARelease(k: Keymap, d: Decoder, scancode: Byte)
    requires k.extended(0x7C) == KeyNone && (d == IDLE || d == IDLE.(isExtended := true))
    requires scancode !in {0xE0, 0xF0, 0xE1, 0x12, 0x7C}
    ensures Decode(k, d, ([0xE0, 0xF0, 0x7C] + [0xE0, 0xF0, 0x12]) + [scancode])
            == (IDLE, [Event(KeyPrintScreen, true)] + Kept(Event(k.extended(scancode), true)))
  {
    var m, e := Decoder(true, true, 0, false, false), Event(k.extended(scancode), true);
    PrintScreenRelease(k, d);
    Reads(k, m, scancode, [], IDLE, e);
    assert [scancode] + [] == [scancode];
    assert Kept(e) + [] == Kept(e);
    RunAppend(MachineOf(k), d, [0xE0, 0xF0, 0x7C] + [0xE0, 0xF0, 0x12], [scancode]);
  }
}
