/** Which key of a PC keyboard sends which code of Scan Code Set 2: the assignment of the tables of
    src/drivers/keyboard.c, row by row as the keys lie on the board, and that no key is missing. */
module KeyLayout {
  import opened Scancodes

  // ----- the main block, each row from left to right

  lemma FunctionRowLeft()
    ensures NormalKey(0x76) == KeyEscape && NormalKey(0x05) == KeyF1 && NormalKey(0x06) == KeyF2
    ensures NormalKey(0x04) == KeyF3 && NormalKey(0x0C) == KeyF4 && NormalKey(0x03) == KeyF5
    ensures NormalKey(0x0B) == KeyF6
  {
  }

  lemma FunctionRowRight()
    ensures NormalKey(0x83) == KeyF7 && NormalKey(0x0A) == KeyF8 && NormalKey(0x01) == KeyF9
    ensures NormalKey(0x09) == KeyF10 && NormalKey(0x78) == KeyF11 && NormalKey(0x07) == KeyF12
  {
  }

  lemma DigitRowLeft()
    ensures NormalKey(0x0E) == KeyGrave && NormalKey(0x16) == Key1 && NormalKey(0x1E) == Key2
    ensures NormalKey(0x26) == Key3 && NormalKey(0x25) == Key4 && NormalKey(0x2E) == Key5
    ensures NormalKey(0x36) == Key6
  {
  }

  lemma DigitRowRight()
    ensures NormalKey(0x3D) == Key7 && NormalKey(0x3E) == Key8 && NormalKey(0x46) == Key9
    ensures NormalKey(0x45) == KeyZero && NormalKey(0x4E) == KeyMinus && NormalKey(0x55) == KeyEqual
    ensures NormalKey(0x66) == KeyBackspace
  {
  }

  lemma UpperRowLeft()
    ensures NormalKey(0x0D) == KeyTab && NormalKey(0x15) == KeyQ && NormalKey(0x1D) == KeyW
    ensures NormalKey(0x24) == KeyE && NormalKey(0x2D) == KeyR && NormalKey(0x2C) == KeyT
    ensures NormalKey(0x35) == KeyY
  {
  }

  lemma UpperRowRight()
    ensures NormalKey(0x3C) == KeyU && NormalKey(0x43) == KeyI && NormalKey(0x44) == KeyO
    ensures NormalKey(0x4D) == KeyP && NormalKey(0x54) == KeyLeftBracket
    ensures NormalKey(0x5B) == KeyRightBracket && NormalKey(0x5D) == KeyBackslash
  {
  }

  lemma HomeRowLeft()
    ensures NormalKey(0x58) == KeyCapslock && NormalKey(0x1C) == KeyA && NormalKey(0x1B) == KeyS
    ensures NormalKey(0x23) == KeyD && NormalKey(0x2B) == KeyF && NormalKey(0x34) == KeyG
    ensures NormalKey(0x33) == KeyH
  {
  }

  lemma HomeRowRight()
    ensures NormalKey(0x3B) == KeyJ && NormalKey(0x42) == KeyK && NormalKey(0x4B) == KeyL
    ensures NormalKey(0x4C) == KeySemicolon && NormalKey(0x52) == KeyApostrophe
    ensures NormalKey(0x5A) == KeyEnter
  {
  }

  lemma LowerRowLeft()
    ensures NormalKey(0x12) == KeyLeftShift && NormalKey(0x1A) == KeyZ && NormalKey(0x22) == KeyX
    ensures NormalKey(0x21) == KeyC && NormalKey(0x2A) == KeyV && NormalKey(0x32) == KeyB
  {
  }

  lemma LowerRowRight()
    ensures NormalKey(0x31) == KeyN && NormalKey(0x3A) == KeyM && NormalKey(0x41) == KeyComma
    ensures NormalKey(0x49) == KeyPeriod && NormalKey(0x4A) == KeySlash
    ensures NormalKey(0x59) == KeyRightShift
  {
  }

  lemma BottomRow()
    ensures NormalKey(0x14) == KeyLeftCtrl && NormalKey(0x11) == KeyLeftAlt
    ensures NormalKey(0x29) == KeySpace
    ensures ExtendedKey(0x1F) == KeyLeftGui && ExtendedKey(0x11) == KeyRightAlt
    ensures ExtendedKey(0x27) == KeyRightGui && ExtendedKey(0x2F) == KeyApps
    ensures ExtendedKey(0x14) == KeyRightCtrl
  {
  }

  // ----- one code, two keys: behind E0 it is the other one

  lemma KeysOfTheMainBlock()
    ensures NormalKey(0x5A) == KeyEnter && ExtendedKey(0x5A) == KeyKpEnter
    ensures NormalKey(0x4A) == KeySlash && ExtendedKey(0x4A) == KeyKpSlash
    ensures NormalKey(0x14) == KeyLeftCtrl && ExtendedKey(0x14) == KeyRightCtrl
    ensures NormalKey(0x11) == KeyLeftAlt && ExtendedKey(0x11) == KeyRightAlt
  {
  }

  lemma UpperKeypad()
    ensures NormalKey(0x6C) == KeyKp7 && ExtendedKey(0x6C) == KeyHome
    ensures NormalKey(0x75) == KeyKp8 && ExtendedKey(0x75) == KeyCursorUp
    ensures NormalKey(0x7D) == KeyKp9 && ExtendedKey(0x7D) == KeyPageUp
    ensures NormalKey(0x6B) == KeyKp4 && ExtendedKey(0x6B) == KeyCursorLeft
    ensures NormalKey(0x74) == KeyKp6 && ExtendedKey(0x74) == KeyCursorRight
  {
  }

  lemma LowerKeypad()
    ensures NormalKey(0x69) == KeyKp1 && ExtendedKey(0x69) == KeyEnd
    ensures NormalKey(0x72) == KeyKp2 && ExtendedKey(0x72) == KeyCursorDown
    ensures NormalKey(0x7A) == KeyKp3 && ExtendedKey(0x7A) == KeyPageDown
    ensures NormalKey(0x70) == KeyKp0 && ExtendedKey(0x70) == KeyInsert
    ensures NormalKey(0x71) == KeyKpPeriod && ExtendedKey(0x71) == KeyDelete
  {
  }

  // ----- the other keys

  lemma KeypadSigns()
    ensures NormalKey(0x73) == KeyKp5 && NormalKey(0x77) == KeyNumlock
    ensures NormalKey(0x7C) == KeyKpAsterisk && NormalKey(0x7B) == KeyKpMinus
    ensures NormalKey(0x79) == KeyKpPlus && NormalKey(0x7E) == KeyScrolllock
  {
  }

  lemma MediaKeys()
    ensures ExtendedKey(0x15) == KeyPreviousTrack && ExtendedKey(0x34) == KeyPlayPause
    ensures ExtendedKey(0x3B) == KeyStop && ExtendedKey(0x4D) == KeyNextTrack
    ensures ExtendedKey(0x23) == KeyMute && ExtendedKey(0x21) == KeyVolumeDown
    ensures ExtendedKey(0x32) == KeyVolumeUp && ExtendedKey(0x50) == KeyMediaSelect
  {
  }

  lemma SystemKeys()
    ensures ExtendedKey(0x37) == KeyPower && ExtendedKey(0x3F) == KeySleep
    ensures ExtendedKey(0x5E) == KeyWake && ExtendedKey(0x2B) == KeyCalculator
    ensures ExtendedKey(0x40) == KeyMyComputer && ExtendedKey(0x48) == KeyEmail
  {
  }

  lemma BrowserKeys()
    ensures ExtendedKey(0x3A) == KeyWwwHome && ExtendedKey(0x38) == KeyWwwBack
    ensures ExtendedKey(0x30) == KeyWwwForward && ExtendedKey(0x20) == KeyWwwRefresh
    ensures ExtendedKey(0x28) == KeyWwwStop && ExtendedKey(0x10) == KeyWwwSearch
    ensures ExtendedKey(0x18) == KeyWwwFavorites
  {
  }

  // ----- no key is missing

  lemma KeyOfNormalCodeFrom00(key: Key)
    requires NormalCodeFrom00(key) >= 0
    ensures 0 <= NormalCodeFrom00(key) < 0x10 && NormalKeyFrom00(NormalCodeFrom00(key)) == key
  {
  }

  lemma KeyOfNormalCodeFrom10(key: Key)
    requires NormalCodeFrom10(key) >= 0
    ensures 0x10 <= NormalCodeFrom10(key) < 0x20 && NormalKeyFrom10(NormalCodeFrom10(key)) == key
  {
  }

  lemma KeyOfNormalCodeFrom20(key: Key)
    requires NormalCodeFrom20(key) >= 0
    ensures 0x20 <= NormalCodeFrom20(key) < 0x30 && NormalKeyFrom20(NormalCodeFrom20(key)) == key
  {
  }

  lemma KeyOfNormalCodeFrom30(key: Key)
    requires NormalCodeFrom30(key) >= 0
    ensures 0x30 <= NormalCodeFrom30(key) < 0x40 && NormalKeyFrom30(NormalCodeFrom30(key)) == key
  {
  }

  lemma KeyOfNormalCodeFrom40(key: Key)
    requires NormalCodeFrom40(key) >= 0
    ensures 0x40 <= NormalCodeFrom40(key) < 0x50 && NormalKeyFrom40(NormalCodeFrom40(key)) == key
  {
  }

  lemma KeyOfNormalCodeFrom50(key: Key)
    requires NormalCodeFrom50(key) >= 0
    ensures 0x50 <= NormalCodeFrom50(key) < 0x70 && NormalKeyFrom50(NormalCodeFrom50(key)) == key
  {
  }

  lemma KeyOfNormalCodeFrom70(key: Key)
    requires NormalCodeFrom70(key) >= 0
    ensures 0x70 <= NormalCodeFrom70(key) < 0x100 && NormalKeyFrom70(NormalCodeFrom70(key)) == key
  {
  }

  lemma KeyOfExtendedCodeFrom00(key: Key)
    requires ExtendedCodeFrom00(key) >= 0
    ensures 0 <= ExtendedCodeFrom00(key) < 0x20 && ExtendedKeyFrom00(ExtendedCodeFrom00(key)) == key
  {
  }

  lemma KeyOfExtendedCodeFrom20(key: Key)
    requires ExtendedCodeFrom20(key) >= 0
    ensures 0x20 <= ExtendedCodeFrom20(key) < 0x38 && ExtendedKeyFrom20(ExtendedCodeFrom20(key)) == key
  {
  }

  lemma KeyOfExtendedCodeFrom38(key: Key)
    requires ExtendedCodeFrom38(key) >= 0
    ensures 0x38 <= ExtendedCodeFrom38(key) < 0x60 && ExtendedKeyFrom38(ExtendedCodeFrom38(key)) == key
  {
  }

  lemma KeyOfExtendedCodeFrom60(key: Key)
    requires ExtendedCodeFrom60(key) >= 0
    ensures 0x60 <= ExtendedCodeFrom60(key) < 0x100 && ExtendedKeyFrom60(ExtendedCodeFrom60(key)) == key
  {
  }

  lemma StrokeForNormalCodeFrom00(key: Key, isReleased: bool) returns (s: Stroke)
    requires NormalCodeFrom00(key) >= 0
    ensures EventOf(SET2, s) == Event(key, isReleased)
  {
    KeyOfNormalCodeFrom00(key);
    s := Stroke(false, NormalCodeFrom00(key), isReleased);
  }

  lemma StrokeForNormalCodeFrom10(key: Key, isReleased: bool) returns (s: Stroke)
    requires NormalCodeFrom10(key) >= 0
    ensures EventOf(SET2, s) == Event(key, isReleased)
  {
    KeyOfNormalCodeFrom10(key);
    s := Stroke(false, NormalCodeFrom10(key), isReleased);
  }

  lemma StrokeForNormalCodeFrom20(key: Key, isReleased: bool) returns (s: Stroke)
    requires NormalCodeFrom20(key) >= 0
    ensures EventOf(SET2, s) == Event(key, isReleased)
  {
    KeyOfNormalCodeFrom20(key);
    s := Stroke(false, NormalCodeFrom20(key), isReleased);
  }

  lemma StrokeForNormalCodeFrom30(key: Key, isReleased: bool) returns (s: Stroke)
    requires NormalCodeFrom30(key) >= 0
    ensures EventOf(SET2, s) == Event(key, isReleased)
  {
    KeyOfNormalCodeFrom30(key);
    s := Stroke(false, NormalCodeFrom30(key), isReleased);
  }

  lemma StrokeForNormalCodeFrom40(key: Key, isReleased: bool) returns (s: Stroke)
    requires NormalCodeFrom40(key) >= 0
    ensures EventOf(SET2, s) == Event(key, isReleased)
  {
    KeyOfNormalCodeFrom40(key);
    s := Stroke(false, NormalCodeFrom40(key), isReleased);
  }

  lemma StrokeForNormalCodeFrom50(key: Key, isReleased: bool) returns (s: Stroke)
    requires NormalCodeFrom50(key) >= 0
    ensures EventOf(SET2, s) == Event(key, isReleased)
  {
    KeyOfNormalCodeFrom50(key);
    s := Stroke(false, NormalCodeFrom50(key), isReleased);
  }

  lemma StrokeForNormalCodeFrom70(key: Key, isReleased: bool) returns (s: Stroke)
    requires NormalCodeFrom70(key) >= 0
    ensures EventOf(SET2, s) == Event(key, isReleased)
  {
    KeyOfNormalCodeFrom70(key);
    s := Stroke(false, NormalCodeFrom70(key), isReleased);
  }

  lemma StrokeForExtendedCodeFrom00(key: Key, isReleased: bool) returns (s: Stroke)
    requires ExtendedCodeFrom00(key) >= 0
    ensures EventOf(SET2, s) == Event(key, isReleased)
  {
    KeyOfExtendedCodeFrom00(key);
    s := Stroke(true, ExtendedCodeFrom00(key), isReleased);
  }

  lemma StrokeForExtendedCodeFrom20(key: Key, isReleased: bool) returns (s: Stroke)
    requires ExtendedCodeFrom20(key) >= 0
    ensures EventOf(SET2, s) == Event(key, isReleased)
  {
    KeyOfExtendedCodeFrom20(key);
    s := Stroke(true, ExtendedCodeFrom20(key), isReleased);
  }

  lemma StrokeForExtendedCodeFrom38(key: Key, isReleased: bool) returns (s: Stroke)
    requires ExtendedCodeFrom38(key) >= 0
    ensures EventOf(SET2, s) == Event(key, isReleased)
  {
    KeyOfExtendedCodeFrom38(key);
    s := Stroke(true, ExtendedCodeFrom38(key), isReleased);
  }

  lemma StrokeForExtendedCodeFrom60(key: Key, isReleased: bool) returns (s: Stroke)
    requires ExtendedCodeFrom60(key) >= 0
    ensures EventOf(SET2, s) == Event(key, isReleased)
  {
    KeyOfExtendedCodeFrom60(key);
    s := Stroke(true, ExtendedCodeFrom60(key), isReleased);
  }

  lemma EveryKeyHasACode(key: Key)
    requires NormalCodeFrom00(key) < 0 && NormalCodeFrom10(key) < 0 && NormalCodeFrom20(key) < 0
    requires NormalCodeFrom30(key) < 0 && NormalCodeFrom40(key) < 0 && NormalCodeFrom50(key) < 0
    requires NormalCodeFrom70(key) < 0 && ExtendedCodeFrom00(key) < 0 && ExtendedCodeFrom20(key) < 0
    requires ExtendedCodeFrom38(key) < 0 && ExtendedCodeFrom60(key) < 0
    ensures key == KeyNone || key == KeyUnknown || key == KeyPrintScreen
  {
  }

  lemma StrokeFor(key: Key, isReleased: bool) returns (s: Stroke)
    requires key != KeyNone && key != KeyUnknown && key != KeyPrintScreen
    ensures EventOf(SET2, s) == Event(key, isReleased)
  {
    if NormalCodeFrom00(key) >= 0 {
      s := StrokeForNormalCodeFrom00(key, isReleased);
    } else if NormalCodeFrom10(key) >= 0 {
      s := StrokeForNormalCodeFrom10(key, isReleased);
    } else if NormalCodeFrom20(key) >= 0 {
      s := StrokeForNormalCodeFrom20(key, isReleased);
    } else if NormalCodeFrom30(key) >= 0 {
      s := StrokeForNormalCodeFrom30(key, isReleased);
    } else if NormalCodeFrom40(key) >= 0 {
      s := StrokeForNormalCodeFrom40(key, isReleased);
    } else if NormalCodeFrom50(key) >= 0 {
      s := StrokeForNormalCodeFrom50(key, isReleased);
    } else if NormalCodeFrom70(key) >= 0 {
      s := StrokeForNormalCodeFrom70(key, isReleased);
    } else if ExtendedCodeFrom00(key) >= 0 {
      s := StrokeForExtendedCodeFrom00(key, isReleased);
    } else if ExtendedCodeFrom20(key) >= 0 {
      s := StrokeForExtendedCodeFrom20(key, isReleased);
    } else if ExtendedCodeFrom38(key) >= 0 {
      s := StrokeForExtendedCodeFrom38(key, isReleased);
    } else if ExtendedCodeFrom60(key) >= 0 {
      s := StrokeForExtendedCodeFrom60(key, isReleased);
    } else {
      EveryKeyHasACode(key);
      assert false;
    }
  }

  /** NO KEY IS MISSING: there is a stroke for the press and for the release of every key but Print
      Screen.  By `EventsDetermineStrokes` there is no other. */
  lemma EveryKeyHasAStroke(key: Key, isReleased: bool) returns (s: Stroke)
    requires key != KeyNone && key != KeyUnknown && key != KeyPrintScreen
    ensures EventOf(SET2, s) == Event(key, isReleased) && Ordinary(SET2, s)
    ensures Decode(SET2, IDLE, Encode(s)) == (IDLE, [Event(key, isReleased)])
  {
    s := StrokeFor(key, isReleased);
    RecognisedStrokesAreOrdinary(s);
    DecodeStroke(SET2, s);
  }
}
