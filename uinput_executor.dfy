/**
 * The desktop client's key forwarding: a fixed table from key names to
 * OpenHarmony key codes, and the `hdc shell uinput -K` command a mapped key
 * press becomes.  Running the command is not modelled.
 */
module UinputExecutor {
  import opened Wrappers
  import opened JavaText

  /** The letter entries of key_mappings. */
  const LetterKeys: map<string, int> := map[
    "a" := 2017, "b" := 2018, "c" := 2019, "d" := 2020, "e" := 2021, "f" := 2022,
    "g" := 2023, "h" := 2024, "i" := 2025, "j" := 2026, "k" := 2027, "l" := 2028,
    "m" := 2029, "n" := 2030, "o" := 2031, "p" := 2032, "q" := 2033, "r" := 2034,
    "s" := 2035, "t" := 2036, "u" := 2037, "v" := 2038, "w" := 2039, "x" := 2040,
    "y" := 2041, "z" := 2042
  ]

  /** The digit entries. */
  const DigitKeys: map<string, int> := map[
    "0" := 2000, "1" := 2001, "2" := 2002, "3" := 2003, "4" := 2004,
    "5" := 2005, "6" := 2006, "7" := 2007, "8" := 2008, "9" := 2009
  ]

  /** The remaining entries: punctuation and named keys. */
  const OtherKeys: map<string, int> := map[
    "," := 2043, "." := 2044,
    "back" := 2, "volume_up" := 16, "dow" := 17,
    "*" := 2010, "#" := 2011,
    "space" := 2050, "enter" := 2054, "del" := 2055,
    "copy" := 2620, "open" := 2621, "paste" := 2622
  ]

  /** key_mappings, entry for entry. */
  const KeyMappings: map<string, int> := LetterKeys + DigitKeys + OtherKeys

  /** Every letter entry is a one-letter key whose code is 2017 plus its place in the alphabet. */
  lemma {:induction false} LetterKeysAreLetters(k: string)
    requires k in LetterKeys
    ensures |k| == 1 && 'a' <= k[0] <= 'z' && LetterKeys[k] == 2017 + (k[0] as int - 'a' as int)
  {
  }

  lemma {:induction false} DigitKeysAreDigits(k: string)
    requires k in DigitKeys
    ensures |k| == 1 && '0' <= k[0] <= '9' && DigitKeys[k] == 2000 + (k[0] as int - '0' as int)
  {
  }

  /** The other codes lie outside both runs and differ from each other. */
  lemma {:induction false} OtherKeysDistinct(k1: string, k2: string)
    requires k1 in OtherKeys && k2 in OtherKeys
    ensures !(2000 <= OtherKeys[k1] <= 2009) && !(2017 <= OtherKeys[k1] <= 2042)
    ensures k1 != k2 ==> OtherKeys[k1] != OtherKeys[k2]
  {
  }

  /** The converse of LetterKeysAreLetters: every lower-case letter has its entry. */
  lemma {:induction false} LetterCodes(c: char)
    requires 'a' <= c <= 'z'
    ensures [c] in LetterKeys && LetterKeys[[c]] == 2017 + (c as int - 'a' as int)
  {
  }
  lemma {:induction false} OtherKeysAreNotAlphanumeric(k: string)
    requires k in OtherKeys
    ensures !(|k| == 1 && ('a' <= k[0] <= 'z' || '0' <= k[0] <= '9'))
  {
  }

  /** The three groups share no key, so each entry of key_mappings is its group's entry. */
  lemma {:induction false} KeyMappingsLookup(k: string)
    ensures k in KeyMappings <==> k in LetterKeys || k in DigitKeys || k in OtherKeys
    ensures k in LetterKeys ==> KeyMappings[k] == LetterKeys[k]
    ensures k in DigitKeys ==> KeyMappings[k] == DigitKeys[k]
    ensures k in OtherKeys ==> KeyMappings[k] == OtherKeys[k]
  {
    if k in LetterKeys {
      LetterKeysAreLetters(k);
      if k in DigitKeys {
        DigitKeysAreDigits(k);
      }
      if k in OtherKeys {
        OtherKeysAreNotAlphanumeric(k);
      }
    }
    if k in DigitKeys {
      DigitKeysAreDigits(k);
      if k in OtherKeys {
        OtherKeysAreNotAlphanumeric(k);
      }
    }
  }

  /** Letters 'a' to 'z' map to 2017 to 2042 in order. */
  lemma {:induction false} LetterKeyCodes(c: char)
    requires 'a' <= c <= 'z'
    ensures [c] in KeyMappings && KeyMappings[[c]] == 2017 + (c as int - 'a' as int)
  {
    LetterCodes(c);
    KeyMappingsLookup([c]);
  }

  lemma {:induction false} DigitCodes(c: char)
    requires '0' <= c <= '9'
    ensures [c] in DigitKeys && DigitKeys[[c]] == 2000 + (c as int - '0' as int)
  {
  }

  /** Digits '0' to '9' map to 2000 to 2009 in order. */
  lemma {:induction false} DigitKeyCodes(c: char)
    requires '0' <= c <= '9'
    ensures [c] in KeyMappings && KeyMappings[[c]] == 2000 + (c as int - '0' as int)
  {
    DigitCodes(c);
    KeyMappingsLookup([c]);
  }

  /** No two keys share a code, so a code names its key. */
  lemma {:induction false} CodesDistinct(k1: string, k2: string)
    requires k1 in KeyMappings && k2 in KeyMappings && k1 != k2
    ensures KeyMappings[k1] != KeyMappings[k2]
  {
    KeyMappingsLookup(k1);
    KeyMappingsLookup(k2);
    if k1 in LetterKeys { LetterKeysAreLetters(k1); }
    if k2 in LetterKeys { LetterKeysAreLetters(k2); }
    if k1 in DigitKeys { DigitKeysAreDigits(k1); }
    if k2 in DigitKeys { DigitKeysAreDigits(k2); }
    if k1 in OtherKeys { OtherKeysDistinct(k1, k1); }
    if k2 in OtherKeys { OtherKeysDistinct(k2, k2); }
    if k1 in OtherKeys && k2 in OtherKeys { OtherKeysDistinct(k1, k2); }
    if |k1| == 1 && |k2| == 1 {
      assert k1 == [k1[0]] && k2 == [k2[0]];
    }
  }

  // ---------------------------------------------------------------------------
  // handle_key_press

  /** The command for a key press: key down then key up with the key's code, or none for an unmapped key. */
  function HandleKeyPress(key: string): Option<string>
  {
    if key in KeyMappings then
      var mappedValue := KeyMappings[key];
      Some("hdc shell uinput -K -d " + IntToString(mappedValue) + " -u " + IntToString(mappedValue))
    else None
  }

  /** The key code a `-K -d v -u v` command presses and releases, read back word by word. */
  function ParseKeyCommand(command: string): Option<int>
  {
    var w := Fields(command, ' ');
    if |w| == 8 && w[..5] == ["hdc", "shell", "uinput", "-K", "-d"] && w[6] == "-u"
       && SignedDecimal(w[5]).Some? && SignedDecimal(w[5]) == SignedDecimal(w[7])
    then SignedDecimal(w[5])
    else None
  }

  lemma {:induction false} KeyCommandWords(v: string)
    ensures "hdc shell uinput -K -d " + v + " -u " + v == Join(["hdc", "shell", "uinput", "-K", "-d", v, "-u", v], ' ')
  {
    var p7 := [v];
    var p6 := ["-u"] + p7;
    var p5 := [v] + p6;
    var p4 := ["-d"] + p5;
    var p3 := ["-K"] + p4;
    var p2 := ["uinput"] + p3;
    var p1 := ["shell"] + p2;
    JoinCons("-u", p7, ' ');
    JoinCons(v, p6, ' ');
    JoinCons("-d", p5, ' ');
    JoinCons("-K", p4, ' ');
    JoinCons("uinput", p3, ' ');
    JoinCons("shell", p2, ' ');
    JoinCons("hdc", p1, ' ');
    assert ["hdc"] + p1 == ["hdc", "shell", "uinput", "-K", "-d", v, "-u", v];
    KeyCommandText(v);
  }

  lemma {:induction false} KeyCommandText(v: string)
    ensures "hdc" + " " + ("shell" + " " + ("uinput" + " " + ("-K" + " " + ("-d" + " " + (v + " " + ("-u" + " " + v))))))
      == "hdc shell uinput -K -d " + v + " -u " + v
  {
  }

  /**
   * A mapped key yields one command that presses and releases the key's own
   * code; an unmapped key yields none.
   */
  lemma {:induction false} HandleKeyPressRoundTrip(key: string)
    ensures HandleKeyPress(key).Some? <==> key in KeyMappings
    ensures key in KeyMappings ==> ParseKeyCommand(HandleKeyPress(key).value) == Some(KeyMappings[key])
  {
    if key in KeyMappings {
      var v := IntToString(KeyMappings[key]);
      KeyCommandWords(v);
      IntToStringHasNoSeparator(KeyMappings[key], ' ');
      var words := ["hdc", "shell", "uinput", "-K", "-d", v, "-u", v];
      FieldsOfJoin(words, ' ');
      assert words[..5] == ["hdc", "shell", "uinput", "-K", "-d"];
      SignedDecimalOfIntToString(KeyMappings[key]);
    }
  }

  /** Different keys give different commands. */
  lemma {:induction false} HandleKeyPressInjective(k1: string, k2: string)
    requires HandleKeyPress(k1).Some? && HandleKeyPress(k1) == HandleKeyPress(k2)
    ensures k1 == k2
  {
    HandleKeyPressRoundTrip(k1);
    HandleKeyPressRoundTrip(k2);
    if k1 != k2 {
      CodesDistinct(k1, k2);
    }
  }
}
