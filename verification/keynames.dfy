/** `get_key_name` of controller.py: the table from pygame key codes to the
    names sent over the input channel, and the `str(key)` fallback. The codes
    are pygame 2's values of the named constants. */
module KeyNames {
  import opened Base

  const KeyF11: int := 1073741892
  const KeyEscape: int := 27
  const KeyLeftShift: int := 1073742049
  const KeyRightShift: int := 1073742053

  /** `key_mapping.get(key)`: the table entry for a mapped code. */
  function TableName(key: int): (name: Option<string>)
    ensures name.Some? ==> key > 0 && name.value != []
    ensures name.Some? ==> NoCapitals(name.value)
  {
    TableHasNoCapitals(key);
    KeyTable(key)
  }

  /** No character of `s` is a capital letter. */
  predicate NoCapitals(s: string)
  {
    forall i | 0 <= i < |s| :: !('A' <= s[i] <= 'Z')
  }

  /** The names of the table are lower case, checked a range of codes at a time. */
  lemma TableHasNoCapitals(key: int)
    ensures KeyTable(key).Some? ==> NoCapitals(KeyTable(key).value)
  {
    if key < 97 {
      NoCapitalsBelow97(key);
    } else if key < 0x4000_0000 {
      NoCapitalsLetters(key);
    } else if key < 1073741895 {
      NoCapitalsFunctionKeys(key);
    } else if key < 1073742000 {
      NoCapitalsNavigation(key);
    } else {
      NoCapitalsModifiers(key);
    }
  }

  lemma NoCapitalsBelow97(key: int)
    requires key < 97
    ensures KeyTable(key).Some? ==> NoCapitals(KeyTable(key).value)
  {
  }

  lemma NoCapitalsLetters(key: int)
    requires 97 <= key < 0x4000_0000
    ensures KeyTable(key).Some? ==> NoCapitals(KeyTable(key).value)
  {
  }

  lemma NoCapitalsFunctionKeys(key: int)
    requires 0x4000_0000 <= key < 1073741895
    ensures KeyTable(key).Some? ==> NoCapitals(KeyTable(key).value)
  {
  }

  lemma NoCapitalsNavigation(key: int)
    requires 1073741895 <= key < 1073742000
    ensures KeyTable(key).Some? ==> NoCapitals(KeyTable(key).value)
  {
  }

  lemma NoCapitalsModifiers(key: int)
    requires key >= 1073742000
    ensures KeyTable(key).Some? ==> NoCapitals(KeyTable(key).value)
  {
  }

  /** The `key_mapping` dict literal, pygame 2 codes to names. */
  function KeyTable(key: int): Option<string>
  {
    match key
    case 97 => Some("a")                    // pygame.K_a
    case 98 => Some("b")                    // pygame.K_b
    case 99 => Some("c")                    // pygame.K_c
    case 100 => Some("d")                   // pygame.K_d
    case 101 => Some("e")                   // pygame.K_e
    case 102 => Some("f")                   // pygame.K_f
    case 103 => Some("g")                   // pygame.K_g
    case 104 => Some("h")                   // pygame.K_h
    case 105 => Some("i")                   // pygame.K_i
    case 106 => Some("j")                   // pygame.K_j
    case 107 => Some("k")                   // pygame.K_k
    case 108 => Some("l")                   // pygame.K_l
    case 109 => Some("m")                   // pygame.K_m
    case 110 => Some("n")                   // pygame.K_n
    case 111 => Some("o")                   // pygame.K_o
    case 112 => Some("p")                   // pygame.K_p
    case 113 => Some("q")                   // pygame.K_q
    case 114 => Some("r")                   // pygame.K_r
    case 115 => Some("s")                   // pygame.K_s
    case 116 => Some("t")                   // pygame.K_t
    case 117 => Some("u")                   // pygame.K_u
    case 118 => Some("v")                   // pygame.K_v
    case 119 => Some("w")                   // pygame.K_w
    case 120 => Some("x")                   // pygame.K_x
    case 121 => Some("y")                   // pygame.K_y
    case 122 => Some("z")                   // pygame.K_z
    case 48 => Some("0")                    // pygame.K_0
    case 49 => Some("1")                    // pygame.K_1
    case 50 => Some("2")                    // pygame.K_2
    case 51 => Some("3")                    // pygame.K_3
    case 52 => Some("4")                    // pygame.K_4
    case 53 => Some("5")                    // pygame.K_5
    case 54 => Some("6")                    // pygame.K_6
    case 55 => Some("7")                    // pygame.K_7
    case 56 => Some("8")                    // pygame.K_8
    case 57 => Some("9")                    // pygame.K_9
    case 32 => Some("space")                // pygame.K_SPACE
    case 9 => Some("tab")                   // pygame.K_TAB
    case 13 => Some("enter")                // pygame.K_RETURN
    case 8 => Some("backspace")             // pygame.K_BACKSPACE
    case 127 => Some("delete")              // pygame.K_DELETE
    case 27 => Some("esc")                  // pygame.K_ESCAPE
    case 1073741881 => Some("caps lock")    // pygame.K_CAPSLOCK
    case 1073741882 => Some("f1")           // pygame.K_F1
    case 1073741883 => Some("f2")           // pygame.K_F2
    case 1073741884 => Some("f3")           // pygame.K_F3
    case 1073741885 => Some("f4")           // pygame.K_F4
    case 1073741886 => Some("f5")           // pygame.K_F5
    case 1073741887 => Some("f6")           // pygame.K_F6
    case 1073741888 => Some("f7")           // pygame.K_F7
    case 1073741889 => Some("f8")           // pygame.K_F8
    case 1073741890 => Some("f9")           // pygame.K_F9
    case 1073741891 => Some("f10")          // pygame.K_F10
    case 1073741892 => Some("f11")          // pygame.K_F11
    case 1073741893 => Some("f12")          // pygame.K_F12
    case 1073741906 => Some("up")           // pygame.K_UP
    case 1073741905 => Some("down")         // pygame.K_DOWN
    case 1073741904 => Some("left")         // pygame.K_LEFT
    case 1073741903 => Some("right")        // pygame.K_RIGHT
    case 1073742049 => Some("shift")        // pygame.K_LSHIFT
    case 1073742053 => Some("shift")        // pygame.K_RSHIFT
    case 1073742048 => Some("ctrl")         // pygame.K_LCTRL
    case 1073742052 => Some("ctrl")         // pygame.K_RCTRL
    case 1073742050 => Some("alt")          // pygame.K_LALT
    case 1073742054 => Some("alt")          // pygame.K_RALT
    case 59 => Some(";")                    // pygame.K_SEMICOLON
    case 44 => Some(",")                    // pygame.K_COMMA
    case 46 => Some(".")                    // pygame.K_PERIOD
    case 47 => Some("/")                    // pygame.K_SLASH
    case 92 => Some("\\")                   // pygame.K_BACKSLASH
    case 45 => Some("-")                    // pygame.K_MINUS
    case 61 => Some("=")                    // pygame.K_EQUALS
    case 91 => Some("[")                    // pygame.K_LEFTBRACKET
    case 93 => Some("]")                    // pygame.K_RIGHTBRACKET
    case 39 => Some("'")                    // pygame.K_QUOTE
    case 1073741899 => Some("page up")      // pygame.K_PAGEUP
    case 1073741902 => Some("page down")    // pygame.K_PAGEDOWN
    case 1073741898 => Some("home")         // pygame.K_HOME
    case 1073741901 => Some("end")          // pygame.K_END
    case 1073741897 => Some("insert")       // pygame.K_INSERT
    case 1073741907 => Some("num lock")     // pygame.K_NUMLOCK
    case 1073741895 => Some("scroll lock")  // pygame.K_SCROLLOCK
    case 1073741894 => Some("print screen") // pygame.K_PRINTSCREEN
    case _ => None
  }

  function Digit(d: nat): (c: char)
    requires d < 10
    ensures '0' <= c <= '9'
  {
    ('0' as int + d) as char
  }

  predicate AllDigits(s: string)
  {
    forall i | 0 <= i < |s| :: '0' <= s[i] <= '9'
  }

  /** Python's `str(n)` for a non-negative integer: decimal digits without
      leading zeros. */
  function NatString(n: nat): (s: string)
    ensures s != [] && AllDigits(s)
    ensures |s| == 1 <==> n < 10
    decreases n
  {
    if n < 10 then [Digit(n)] else NatString(n / 10) + [Digit(n % 10)]
  }

  /** Python's `str(key)` for an integer. */
  function IntString(k: int): (s: string)
    ensures s != [] && (s[0] == '-' || '0' <= s[0] <= '9')
    ensures forall i | 0 < i < |s| :: '0' <= s[i] <= '9'
    ensures k >= 0 ==> AllDigits(s)
  {
    if k < 0 then "-" + NatString(-k) else NatString(k)
  }

  /** The value of a string of decimal digits. */
  function DigitsValue(s: string): nat
    requires AllDigits(s)
    decreases |s|
  {
    if s == [] then 0 else DigitsValue(s[..|s| - 1]) * 10 + (s[|s| - 1] as int - '0' as int)
  }

  /** `str` of a natural number reads back as that number. */
  lemma {:induction false} NatStringValue(n: nat)
    ensures DigitsValue(NatString(n)) == n
    decreases n
  {
    if n >= 10 {
      NatStringValue(n / 10);
      var s := NatString(n);
      assert s[..|s| - 1] == NatString(n / 10);
    }
  }

  /** `int(s)` for what `str` of an integer produces. */
  function IntValue(s: string): int
    requires s != [] && (s[0] == '-' || '0' <= s[0] <= '9')
    requires forall i | 0 < i < |s| :: '0' <= s[i] <= '9'
  {
    if s[0] == '-' then -(DigitsValue(s[1..]) as int) else DigitsValue(s)
  }

  /** `int(str(k)) == k`. */
  lemma IntStringValue(k: int)
    ensures IntValue(IntString(k)) == k
  {
    if k < 0 {
      assert IntString(k)[1..] == NatString(-k);
      NatStringValue(-k);
    } else {
      NatStringValue(k);
    }
  }

  /** Distinct integers have distinct `str` forms. */
  lemma IntStringInjective(a: int, b: int)
    ensures IntString(a) == IntString(b) ==> a == b
  {
    IntStringValue(a);
    IntStringValue(b);
  }

  /** `get_key_name(key)`. */
  function KeyName(key: int): (name: string)
    ensures name != []
    ensures TableName(key).Some? ==> name == TableName(key).value
    ensures TableName(key).None? ==> name == IntString(key) && IntValue(name) == key
  {
    match TableName(key)
    case Some(name) => name
    case None => IntStringValue(key); IntString(key)
  }

  /** No name the controller can send is empty or begins with a capital
      `K`, table entry or `str(key)` alike. */
  lemma NamesNeverStartWithK(key: int)
    ensures KeyName(key) != [] && KeyName(key)[0] != 'K'
  {
  }

  /** The only name that begins with a quote is the quote key's own
      one-character name. */
  lemma QuoteKeyName(key: int)
    ensures KeyName(key)[0] == '\'' <==> key == 39
    ensures key == 39 ==> KeyName(key) == "'"
  {
    assert TableName(key) == KeyTable(key);
    if TableName(key).None? {
      assert IntString(key)[0] != '\'';
    } else if key < 97 {
      QuoteBelow97(key);
    } else if key < 0x4000_0000 {
      NotNumericFrom97(key);
    } else {
      NotNumericSpecialKeys(key);
    }
  }

  lemma QuoteBelow97(key: int)
    requires key < 97 && KeyTable(key).Some?
    ensures KeyTable(key).value != []
    ensures KeyTable(key).value[0] == '\'' <==> key == 39
    ensures key == 39 ==> KeyTable(key).value == "'"
  {
  }

  /** Only the F11 code is named "f11" and only the Escape code "esc": the
      `str(key)` fallback never produces a letter. */
  lemma LocalKeyNamesAreUnique(key: int)
    ensures KeyName(key) == "f11" <==> key == KeyF11
    ensures KeyName(key) == "esc" <==> key == KeyEscape
  {
    if TableName(key).None? {
      assert IntString(key)[0] != 'f' && IntString(key)[0] != 'e';
    }
  }

  /** Left and right modifiers share one name, so the receiver cannot tell
      them apart, and no other code is sent under that name. */
  lemma ShiftSidesCollapse(key: int)
    ensures KeyName(key) == "shift" <==> key == KeyLeftShift || key == KeyRightShift
  {
    assert TableName(key) == KeyTable(key);
    if key == KeyLeftShift || key == KeyRightShift {
      assert KeyTable(key) == Some("shift");
    } else if TableName(key).None? {
      assert KeyName(key) == IntString(key);
      assert IntString(key)[0] != "shift"[0];
    } else if key < 1073742000 {
      NoShiftBelowModifiers(key);
    } else {
      ShiftAmongModifiers(key);
    }
  }

  lemma NoShiftBelowModifiers(key: int)
    requires key < 1073742000 && KeyTable(key).Some?
    ensures KeyTable(key).value != "shift"
  {
  }

  lemma ShiftAmongModifiers(key: int)
    requires key >= 1073742000 && KeyTable(key).Some?
    ensures KeyTable(key).value == "shift" <==> key == KeyLeftShift || key == KeyRightShift
  {
  }

  /** The only table names that begin like a number are the ten digits,
      each the name of the key whose code is that digit's character code. */
  lemma NumericTableNames(m: int)
    requires TableName(m).Some?
    requires var v := TableName(m).value; v != [] && (v[0] == '-' || '0' <= v[0] <= '9')
    ensures |TableName(m).value| == 1
    ensures '0' <= TableName(m).value[0] <= '9' ==> m == TableName(m).value[0] as int
  {
    assert TableName(m) == KeyTable(m);
    if m < 97 {
      NumericBelow97(m);
    } else if m < 0x4000_0000 {
      NotNumericFrom97(m);
    } else {
      NotNumericSpecialKeys(m);
    }
  }

  lemma NumericBelow97(m: int)
    requires m < 97 && KeyTable(m).Some?
    requires var v := KeyTable(m).value; v != [] && (v[0] == '-' || '0' <= v[0] <= '9')
    ensures |KeyTable(m).value| == 1
    ensures '0' <= KeyTable(m).value[0] <= '9' ==> m == KeyTable(m).value[0] as int
  {
  }

  lemma NotNumericFrom97(m: int)
    requires 97 <= m < 0x4000_0000 && KeyTable(m).Some?
    ensures var v := KeyTable(m).value; v != [] && v[0] != '-' && !('0' <= v[0] <= '9') && v[0] != '\''
  {
  }

  lemma NotNumericSpecialKeys(m: int)
    requires m >= 0x4000_0000 && KeyTable(m).Some?
    ensures var v := KeyTable(m).value; v != [] && v[0] != '-' && !('0' <= v[0] <= '9') && v[0] != '\''
  {
  }

  /** An unmapped code collides with a mapped one exactly when it is a
      single decimal digit not itself in the table: codes 0 to 7 are sent
      under the names of the digit keys. */
  lemma UnmappedCollisions(k: int, m: int)
    requires TableName(k).None? && TableName(m).Some?
    ensures KeyName(k) == KeyName(m) <==> 0 <= k <= 7 && m == 48 + k
  {
    var s := IntString(k);
    if KeyName(k) == KeyName(m) {
      NumericTableNames(m);
      assert s == [Digit(k)];
    }
    if 0 <= k <= 7 && m == 48 + k {
      assert s == [Digit(k)];
      assert TableName(m) == Some([Digit(k)]) by {
        if k == 0 {} else if k == 1 {} else if k == 2 {} else if k == 3 {}
        else if k == 4 {} else if k == 5 {} else if k == 6 {} else {}
      }
    }
  }
}
