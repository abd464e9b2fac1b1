/**
 What the keys of a keyboard are called, code by code, and that the names the source fixes itself are standard
 names on a system with ordinary letters, so that binds on these keys print and read back.
 */
module StandardKeys {
  import opened KeyNames
  import opened Keybinds

  // ---------------------------------------------------------------------------------------------
  // Ordinary letters
  // ---------------------------------------------------------------------------------------------

  predicate Small(c: char) { 'a' <= c <= 'z' }
  predicate Capital(c: char) { 'A' <= c <= 'Z' }
  predicate Digit(c: char) { '0' <= c <= '9' }

  /** The system maps the English letters as usual, leaves digits alone, and knows of these only ' ' as a space. */
  ghost predicate Ordinary(k: Casing) {
    && (forall c :: Small(c) ==> k.upper(c) as int == c as int - 32 && k.lower(c) == c && !k.space(c))
    && (forall c :: Capital(c) ==> k.upper(c) == c && k.lower(c) as int == c as int + 32 && !k.space(c))
    && (forall c :: Digit(c) ==> k.upper(c) == k.lower(c) == c && !k.space(c))
    && k.upper(' ') == k.lower(' ') == ' ' && k.space(' ')
  }

  predicate English(s: string) {
    forall i :: 0 <= i < |s| ==> Small(s[i]) || Capital(s[i]) || Digit(s[i]) || s[i] == ' '
  }

  /** Capitals begin words, from the third place on, and stand nowhere else. */
  predicate Spelled(s: string) {
    forall i :: 0 <= i < |s| ==>
      if i == 0 || (i >= 2 && s[i - 1] == ' ') then !Small(s[i]) else !Capital(s[i])
  }

  /** An English name is a standard name if and only if its words begin with capitals and have no others. */
  lemma StandardIsSpelled(k: Casing, s: string)
    requires Ordinary(k) && English(s)
    ensures Title(k, s) == s <==> forall i :: 0 <= i < |s| ==>
      if i == 0 || (i >= 2 && s[i - 1] == ' ') then !Small(s[i]) else !Capital(s[i])
    ensures Title(k, s) == s <==> Spelled(s)
  {
    forall i | 0 <= i < |s|
      ensures Title(k, s)[i] == s[i]
         <==> if i == 0 || (i >= 2 && s[i - 1] == ' ') then !Small(s[i]) else !Capital(s[i])
    {
      LetterIsSpelled(k, s, i);
    }
  }

  lemma LetterIsSpelled(k: Casing, s: string, i: nat)
    requires Ordinary(k) && English(s) && i < |s|
    ensures Title(k, s)[i] == s[i]
       <==> if i == 0 || (i >= 2 && s[i - 1] == ' ') then !Small(s[i]) else !Capital(s[i])
  {
    TitleAt(k, s, i);
    var c := s[i];
    assert Small(c) || Capital(c) || Digit(c) || c == ' ';
    if i > 0 {
      var b := s[i - 1];
      assert Small(b) || Capital(b) || Digit(b) || b == ' ';
      assert k.space(b) <==> b == ' ';
    }
  }

  /** Texts that differ in case only from a name spelled so have it as their standard name. */
  lemma StandardOfOtherCase(k: Casing, s: string, name: string)
    requires Ordinary(k) && English(name) && Spelled(name) && SameText(k, s, name)
    ensures Title(k, s) == name
  {
    StandardIsSpelled(k, name);
    TitleIgnoresCase(k, s, name);
  }

  /** The character after a leading space stays small: only from the third place on does a space count. */
  lemma CaseByPlace(k: Casing)
    requires Ordinary(k)
    ensures Title(k, "aB") == "Ab" && Title(k, "b a") == "B A" && Title(k, " aB") == " ab"
  {}

  // ---------------------------------------------------------------------------------------------
  // The fixed names
  // ---------------------------------------------------------------------------------------------

  /** A name that a bind can be read by: short, without '+', and standard. */
  predicate Readable(k: Casing, name: string) {
    0 < |name| < 32 && Plain(name) && Title(k, name) == name
  }

  lemma SpelledIsReadable(k: Casing, name: string)
    requires Ordinary(k) && English(name) && Spelled(name) && 0 < |name| < 32
    ensures Readable(k, name)
  {
    StandardIsSpelled(k, name);
  }

  function DigitOf(n: nat): char
    requires n < 10
  {
    ('0' as int + n) as char
  }

  /** "F1" to "F24". */
  lemma FunctionKeyIs(n: nat)
    requires 1 <= n <= 24
    ensures FUNCTION_KEYS[n - 1] == "F" + if n < 10 then [DigitOf(n)] else [DigitOf(n / 10), DigitOf(n % 10)]
  {}

  lemma FunctionKeyIsReadable(k: Casing, n: nat)
    requires Ordinary(k) && 1 <= n <= 24
    ensures Readable(k, FUNCTION_KEYS[n - 1])
  {
    hide Title;
    FunctionKeyIs(n);
    var digits := if n < 10 then [DigitOf(n)] else [DigitOf(n / 10), DigitOf(n % 10)];
    SpelledIsReadable(k, "F" + digits);
  }

  predicate Word(s: string) {
    s != "" && Capital(s[0]) && forall i :: 1 <= i < |s| ==> Small(s[i])
  }

  lemma WordsAreSpelled(k: Casing, a: string, b: string)
    requires Ordinary(k) && Word(a) && Word(b) && |a| + |b| < 31
    ensures Readable(k, a) && Readable(k, a + " " + b)
  {
    hide Title, Readable;
    forall i | 0 <= i < |a| ensures if i == 0 then Capital(a[i]) else Small(a[i]) {}
    SpelledIsReadable(k, a);
    SpelledIsReadable(k, a + " " + b);
  }

  /** The words that the fixed names are made of. */
  lemma WordsOfNames()
    ensures Word("Plus") && Word("Minus") && Word("Ctrl") && Word("Alt") && Word("Shift")
    ensures Word("Left") && Word("Right")
    ensures Word("Print") && Word("Screen") && Word("Scroll") && Word("Lock") && Word("Pause") && Word("Break")
  {}

  lemma FixedNamesAreReadable(k: Casing)
    requires Ordinary(k)
    ensures forall e :: e in FIXED ==> Readable(k, e.name)
  {
    hide Readable, Word, Ordinary;
    WordsOfNames();
    TwoWords();
    WordsAreSpelled(k, "Plus", "Minus");
    WordsAreSpelled(k, "Minus", "Plus");
    WordsAreSpelled(k, "Ctrl", "Alt");
    WordsAreSpelled(k, "Alt", "Ctrl");
    WordsAreSpelled(k, "Shift", "Ctrl");
    WordsAreSpelled(k, "Left", "Shift");
    WordsAreSpelled(k, "Right", "Shift");
    WordsAreSpelled(k, "Left", "Alt");
    WordsAreSpelled(k, "Right", "Alt");
    WordsAreSpelled(k, "Left", "Ctrl");
    WordsAreSpelled(k, "Right", "Ctrl");
  }

  lemma LockNamesAreReadable(k: Casing)
    requires Ordinary(k)
    ensures Readable(k, "Print Screen") && Readable(k, "Scroll Lock") && Readable(k, "Pause Break")
  {
    hide Readable, Word, Ordinary;
    WordsOfNames();
    TwoWords();
    WordsAreSpelled(k, "Print", "Screen");
    WordsAreSpelled(k, "Scroll", "Lock");
    WordsAreSpelled(k, "Pause", "Break");
  }

  lemma TwoWords()
    ensures "Left" + " " + "Shift" == "Left Shift" && "Right" + " " + "Shift" == "Right Shift"
    ensures "Left" + " " + "Alt" == "Left Alt" && "Right" + " " + "Alt" == "Right Alt"
    ensures "Left" + " " + "Ctrl" == "Left Ctrl" && "Right" + " " + "Ctrl" == "Right Ctrl"
    ensures "Print" + " " + "Screen" == "Print Screen" && "Scroll" + " " + "Lock" == "Scroll Lock"
    ensures "Pause" + " " + "Break" == "Pause Break"
  {}

  // ---------------------------------------------------------------------------------------------
  // What the keys are called
  // ---------------------------------------------------------------------------------------------

  /** A key has one entry, and its name is the one in it. */
  lemma EntryOf(k: Casing, texts: seq<string>, code: nat) returns (i: nat)
    requires |texts| == CODES && (code < CODES || HasFixedName(code))
    ensures i < |Entries(k, texts)| && Entries(k, texts)[i].code == code
    ensures LastName(Entries(k, texts), code) == Stored(Entries(k, texts)[i].name)
    ensures if HasFixedName(code) then Entries(k, texts)[i] in FIXED
            else Entries(k, texts)[i].name == NameOf(k, texts[code], code)
  {
    hide SystemEntries, NameOf, LastName, Stored, DistinctCodes, FIXED;
    var system, entries := SystemEntries(k, texts, CODES), Entries(k, texts);
    if HasFixedName(code) {
      var j :| 0 <= j < |FIXED| && FIXED[j].code == code;
      i := |system| + j;
    } else {
      SystemEntryAt(k, texts, CODES, code);
      i :| i < |system| && system[i] == Entry(NameOf(k, texts[code], code), code);
    }
    CodesAreDistinct(k, texts);
    LastNameIs(entries, i);
  }

  lemma FixedCodeAt(j: nat)
    requires j < 11
    ensures |FIXED| == 11
    ensures FIXED[j].code == [0xBB, 0xBD, 0x11, 0x12, 0x10, 0xA0, 0xA1, 0xA4, 0xA5, 0xA2, 0xA3][j]
    ensures HasFixedName(FIXED[j].code)
  {
    ListedIsFixed(j);
  }

  lemma FixedCodes(code: nat)
    ensures HasFixedName(code) <==> code in {0x10, 0x11, 0x12, 0xA0, 0xA1, 0xA2, 0xA3, 0xA4, 0xA5, 0xBB, 0xBD}
  {
    hide FIXED, HasFixedName;
    FixedCodeAt(0);
    FixedCodeAt(1);
    FixedCodeAt(2);
    FixedCodeAt(3);
    FixedCodeAt(4);
    FixedCodeAt(5);
    FixedCodeAt(6);
    FixedCodeAt(7);
    FixedCodeAt(8);
    FixedCodeAt(9);
    FixedCodeAt(10);
    if HasFixedName(code) {
      var j := FixedPlace(code);
      FixedCodeAt(j);
    }
  }

  lemma FixedPlace(code: nat) returns (j: nat)
    requires HasFixedName(code)
    ensures j < |FIXED| == 11 && FIXED[j].code == code
  {
    j :| 0 <= j < |FIXED| && FIXED[j].code == code;
  }

  lemma FixedName(e: Entry)
    requires e in FIXED
    ensures e.name == (
      if e.code == 0x10 then "Shift" else if e.code == 0x11 then "Ctrl" else if e.code == 0x12 then "Alt"
      else if e.code == 0xA0 then "Left Shift" else if e.code == 0xA1 then "Right Shift"
      else if e.code == 0xA2 then "Left Ctrl" else if e.code == 0xA3 then "Right Ctrl"
      else if e.code == 0xA4 then "Left Alt" else if e.code == 0xA5 then "Right Alt"
      else if e.code == 0xBB then "Plus" else "Minus")
  {}

  /** The name of every key: a fixed one, or what the system calls it, in standard case. */
  lemma KeyIsCalled(k: Casing, texts: seq<string>, code: nat)
    requires |texts| == CODES && code < 0xFF
    ensures var name := LastName(Entries(k, texts), code);
            if code == 0x10 then name == "Shift"
            else if code == 0x11 then name == "Ctrl"
            else if code == 0x12 then name == "Alt"
            else if code == 0xA0 then name == "Left Shift"
            else if code == 0xA1 then name == "Right Shift"
            else if code == 0xA2 then name == "Left Ctrl"
            else if code == 0xA3 then name == "Right Ctrl"
            else if code == 0xA4 then name == "Left Alt"
            else if code == 0xA5 then name == "Right Alt"
            else if code == 0xBB then name == "Plus"
            else if code == 0xBD then name == "Minus"
            else if code == 0x2A then name == "Print Screen"
            else if code == 0x91 then name == "Scroll Lock"
            else if code == 0x13 then name == "Pause Break"
            else if 0x70 <= code <= 0x87 then
              var n := code - 0x6F;
              name == "F" + if n < 10 then [DigitOf(n)] else [DigitOf(n / 10), DigitOf(n % 10)]
            else
              var text := Title(k, texts[code]);
              name == if |text| < 32 then text else text[..31]
  {
    hide LastName, Title, Entries, FIXED;
    FixedCodes(code);
    var i := EntryOf(k, texts, code);
    if HasFixedName(code) {
      FixedName(Entries(k, texts)[i]);
    }
    if 0x70 <= code <= 0x87 {
      FunctionKeyIs(code - 0x6F);
    }
  }

  /** A key with a fixed name that is not a modifier. */
  predicate FixedKey(code: nat) {
    || 0x70 <= code <= 0x87 || code in {0x2A, 0x91, 0x13}
    || code in {0xA0, 0xA1, 0xA2, 0xA3, 0xA4, 0xA5, 0xBB, 0xBD}
  }

  lemma FixedKeyEntry(k: Casing, texts: seq<string>, code: nat) returns (i: nat)
    requires |texts| == CODES && Ordinary(k) && FixedKey(code)
    ensures i < |Entries(k, texts)| && Entries(k, texts)[i].code == code
    ensures Readable(k, Entries(k, texts)[i].name)
  {
    hide LastName, Title, Entries, Readable;
    FixedCodes(code);
    i := EntryOf(k, texts, code);
    if HasFixedName(code) {
      FixedNamesAreReadable(k);
    } else if 0x70 <= code <= 0x87 {
      FunctionKeyIsReadable(k, code - 0x6F);
    } else {
      LockNamesAreReadable(k);
    }
  }

  /**
   On a system with ordinary letters, whatever it calls its keys, a bind on a key with a fixed name reads back
   as itself if and only if no earlier entry has the hash of that name.
   */
  lemma FixedKeyRoundTrip(k: Casing, texts: seq<string>, b: Bind) returns (i: nat)
    requires |texts| == CODES && Ordinary(k) && ModifiersResolve(k, Entries(k, texts))
    requires b.vKey >= 0 && FixedKey(b.vKey)
    ensures i < |Entries(k, texts)| && Entries(k, texts)[i].code == b.vKey
    ensures Read(k, Entries(k, texts), Join(Words(b, LastName(Entries(k, texts), b.vKey)))) == b
       <==> !Known(Entries(k, texts)[..i], Hash(Entries(k, texts)[i].name))
  {
    hide Hash, LastName, Known, Read, Title, Entries, ModifiersResolve, Plain, Ordinary;
    i := FixedKeyEntry(k, texts, b.vKey);
    KeyRoundTrip(k, texts, b, i);
  }

  // ---------------------------------------------------------------------------------------------
  // Saving and loading a key
  // ---------------------------------------------------------------------------------------------

  /** The held modifiers are printed in order before the name of the key. */
  lemma PrintedIsPrefixed(b: Bind, name: string)
    ensures Join(Words(b, name))
         == (if b.ctrl then "Ctrl+" else "") + (if b.alt then "Alt+" else "") + (if b.shift then "Shift+" else "")
            + name
  {
    hide Join;
    OneWord(name);
    var s := (if b.shift then ["Shift"] else []) + [name];
    var a := (if b.alt then ["Alt"] else []) + s;
    assert Words(b, name) == (if b.ctrl then ["Ctrl"] else []) + a;
    JoinWord(b.shift, "Shift", [name]);
    JoinWord(b.alt, "Alt", s);
    JoinWord(b.ctrl, "Ctrl", a);
  }

  lemma OneWord(name: string)
    ensures Join([name]) == name
  {}

  lemma JoinWord(held: bool, word: string, rest: seq<string>)
    requires rest != []
    ensures Join((if held then [word] else []) + rest) == (if held then word + "+" else "") + Join(rest)
  {
    if held {
      assert ([word] + rest)[1..] == rest;
    } else {
      assert [] + rest == rest;
    }
  }

  lemma CodesAreSmall(k: Casing, texts: seq<string>, i: nat)
    requires |texts| == CODES && i < |Entries(k, texts)|
    ensures Entries(k, texts)[i].code < 0x100
  {
    var e := Entries(k, texts)[i];
    assert e in SystemEntries(k, texts, CODES) || e in FIXED;
  }

  lemma SavedAndLoaded(k: Casing, texts: seq<string>, b: Bind, i: nat)
    requires |texts| == CODES && ModifiersResolve(k, Entries(k, texts)) && i < |Entries(k, texts)|
    requires var e := Entries(k, texts)[i];
             && b.vKey == e.code != 0 && !Modifier(e.code)
             && Readable(k, e.name) && LawfulFor(k, "Ctrl+Alt+Shift+" + e.name)
             && !Known(Entries(k, texts)[..i], Hash(e.name))
    ensures var name, text := Entries(k, texts)[i].name, Join(Words(b, Entries(k, texts)[i].name));
            && Low(b.vKey) == b.vKey && name != "" && LastName(Entries(k, texts), b.vKey) == name
            && Read(k, Entries(k, texts), text) == b && |text| < 128 && LawfulFor(k, text)
  {
    hide Entries, LastName, Known, Hash, Read, Title, Plain, ModifiersResolve, LawfulFor, DistinctCodes, FirstCode;
    var entries := Entries(k, texts);
    var name := entries[i].name;
    CodesAreSmall(k, texts, i);
    KeyRoundTrip(k, texts, b, i);
    CodesAreDistinct(k, texts);
    LastNameIs(entries, i);
    PrintedFits(entries, b);
    PrintedIsPrefixed(b, name);
    LawfulPart(k, "Ctrl+Alt+Shift+" + name, Join(Words(b, name)));
  }

  /**
   Saves and loads a bind on the key of entry `i`, which has a standard name that no earlier entry shares the
   hash of: its text is its modifiers and that name, and it and its mask are as they were.
   */
  method SaveAndLoad(bind: Keybind, keyboard: Keyboard, ghost i: nat)
    requires keyboard.Valid() && keyboard.ready && ModifiersResolve(keyboard.k, Entries(keyboard.k, keyboard.texts))
    requires i < |Entries(keyboard.k, keyboard.texts)|
    requires var e := Entries(keyboard.k, keyboard.texts)[i];
             && bind.vKey == e.code != 0 && !Modifier(e.code)
             && Readable(keyboard.k, e.name) && LawfulFor(keyboard.k, "Ctrl+Alt+Shift+" + e.name)
             && !Known(Entries(keyboard.k, keyboard.texts)[..i], Hash(e.name))
    modifies bind, keyboard
    ensures keyboard.Valid() && bind.Current() == old(bind.Current())
    ensures var b, name := old(bind.Current()), Entries(keyboard.k, keyboard.texts)[i].name;
            && bind.text == (if b.ctrl then "Ctrl+" else "") + (if b.alt then "Alt+" else "")
                            + (if b.shift then "Shift+" else "") + name
            && bind.masked == b.vKey + (if b.ctrl then 0x200 else 0) + (if b.shift then 0x400 else 0)
                              + (if b.alt then 0x800 else 0)
  {
    hide Entries, Read, Known, Hash, LastName, ModifiersResolve, LawfulFor, Join, Words, Readable;
    ghost var k, texts, was := keyboard.k, keyboard.texts, bind.Current();
    SavedAndLoaded(k, texts, was, i);
    PrintedIsPrefixed(was, Entries(k, texts)[i].name);
    bind.Update(keyboard);
    bind.Parse(keyboard);
  }
}
