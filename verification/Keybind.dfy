/**
 Key binds: printing one as text, reading it back, and the tables of key names between them.

 What Windows calls a key is an input of the model: one text for each virtual-key code.
 */
module Keybinds {
  import opened KeyNames

  const SHIFT: nat := 0x10
  const CONTROL: nat := 0x11
  const MENU: nat := 0x12

  predicate Modifier(code: nat) {
    code == SHIFT || code == CONTROL || code == MENU
  }

  // ---------------------------------------------------------------------------------------------
  // The tables
  // ---------------------------------------------------------------------------------------------

  const WORD: nat := 0x1_0000_0000_0000_0000

  /** `hash_string`, on 64-bit words: c + (h << 6) + (h << 16) - h. */
  function Hash(s: string): (h: nat)
    ensures h < WORD
  {
    if s == "" then 0
    else
      var h := Hash(s[..|s| - 1]);
      (s[|s| - 1] as int + h * 0x40 + h * 0x1_0000 - h) % WORD
  }

  /** A name entered in the tables for a code. */
  datatype Entry = Entry(name: string, code: nat)

  const FUNCTION_KEYS: seq<string> :=
    ["F1", "F2", "F3", "F4", "F5", "F6", "F7", "F8", "F9", "F10", "F11", "F12",
     "F13", "F14", "F15", "F16", "F17", "F18", "F19", "F20", "F21", "F22", "F23", "F24"]

  /** The name of a code: a fixed one, or the system's text in standard case. */
  function NameOf(k: Casing, text: string, code: nat): string {
    if 0x70 <= code < 0x70 + |FUNCTION_KEYS| then FUNCTION_KEYS[code - 0x70]
    else if code == 0x2A then "Print Screen"
    else if code == 0x91 then "Scroll Lock"
    else if code == 0x13 then "Pause Break"
    else Title(k, text)
  }

  /** The modifiers, their left and right forms, and the plus and minus keys: entered last, by fixed names. */
  const FIXED: seq<Entry> :=
    [Entry("Plus", 0xBB), Entry("Minus", 0xBD), Entry("Ctrl", CONTROL), Entry("Alt", MENU), Entry("Shift", SHIFT),
     Entry("Left Shift", 0xA0), Entry("Right Shift", 0xA1), Entry("Left Alt", 0xA4), Entry("Right Alt", 0xA5),
     Entry("Left Ctrl", 0xA2), Entry("Right Ctrl", 0xA3)]

  predicate HasFixedName(code: nat) {
    exists i :: 0 <= i < |FIXED| && FIXED[i].code == code
  }

  /** The number of codes that the system is asked about: 0 to 254. */
  const CODES: nat := 0xFF

  /** The entries for the codes below `n`, in order. */
  function SystemEntries(k: Casing, texts: seq<string>, n: nat): (entries: seq<Entry>)
    requires n <= |texts|
    ensures forall e :: e in entries ==> !HasFixedName(e.code) && e.code < n
  {
    if n == 0 then []
    else
      SystemEntries(k, texts, n - 1)
      + (if HasFixedName(n - 1) then [] else [Entry(NameOf(k, texts[n - 1], n - 1), n - 1)])
  }

  function Entries(k: Casing, texts: seq<string>): seq<Entry>
    requires |texts| == CODES
  {
    SystemEntries(k, texts, CODES) + FIXED
  }

  /** `emplace` keeps the first entry of a hash; a code that is looked up without an entry reads as zero. */
  function FirstCode(entries: seq<Entry>, h: nat): nat {
    if entries == [] then 0
    else if Hash(entries[0].name) == h then entries[0].code
    else FirstCode(entries[1..], h)
  }

  /** The last name entered for a code stays; a code without one has an empty name. */
  function LastName(entries: seq<Entry>, code: nat): string {
    if entries == [] then ""
    else
      var last := entries[|entries| - 1];
      if last.code == code then Stored(last.name) else LastName(entries[..|entries| - 1], code)
  }

  /** What a buffer of 32 characters keeps. */
  function Stored(name: string): string {
    if |name| < 32 then name else name[..31]
  }

  function Lookup(codes: map<nat, nat>, h: nat): nat {
    if h in codes then codes[h] else 0
  }

  function NameFor(names: map<nat, string>, code: nat): string {
    if code in names then names[code] else ""
  }

  lemma {:induction false} FirstCodeOfMore(entries: seq<Entry>, e: Entry, h: nat)
    ensures FirstCode(entries + [e], h)
         == if Known(entries, h) then FirstCode(entries, h) else if Hash(e.name) == h then e.code else 0
  {
    if entries == [] {
      assert [e][1..] == [];
    } else {
      FirstCodeOfMore(entries[1..], e, h);
      assert (entries + [e])[1..] == entries[1..] + [e];
    }
  }

  /** Some entry has this hash. */
  predicate Known(entries: seq<Entry>, h: nat) {
    entries != [] && (Hash(entries[0].name) == h || Known(entries[1..], h))
  }

  lemma {:induction false} KnownOfMore(entries: seq<Entry>, e: Entry, h: nat)
    ensures Known(entries + [e], h) <==> Known(entries, h) || Hash(e.name) == h
  {
    if entries == [] {
      assert [e][1..] == [];
    } else {
      KnownOfMore(entries[1..], e, h);
      assert (entries + [e])[1..] == entries[1..] + [e];
    }
  }

  lemma {:induction false} UnknownIsZero(entries: seq<Entry>, h: nat)
    requires !Known(entries, h)
    ensures FirstCode(entries, h) == 0
  {
    if entries != [] {
      UnknownIsZero(entries[1..], h);
    }
  }

  /** What the name and the code tables say, entry by entry. */
  ghost predicate Tabled(entries: seq<Entry>, codes: map<nat, nat>, names: map<nat, string>) {
    && (forall h :: h in codes <==> Known(entries, h))
    && Agrees(entries, codes, names)
  }

  ghost predicate Agrees(entries: seq<Entry>, codes: map<nat, nat>, names: map<nat, string>) {
    && (forall h :: Lookup(codes, h) == FirstCode(entries, h))
    && (forall c :: NameFor(names, c) == LastName(entries, c))
  }

  lemma NoSystemEntry(k: Casing, texts: seq<string>)
    ensures SystemEntries(k, texts, 0) == []
  {}

  lemma NextSystemEntry(k: Casing, texts: seq<string>, n: nat)
    requires n < |texts|
    ensures SystemEntries(k, texts, n + 1)
         == if HasFixedName(n) then SystemEntries(k, texts, n)
            else SystemEntries(k, texts, n) + [Entry(NameOf(k, texts[n], n), n)]
  {}

  lemma NothingTabled()
    ensures Tabled([], map[], map[])
  {}

  lemma TabledAgrees(entries: seq<Entry>, codes: map<nat, nat>, names: map<nat, string>)
    requires Tabled(entries, codes, names)
    ensures Agrees(entries, codes, names)
  {}

  /** The tables that all key binds share; they are filled when a bind is first read. */
  class Keyboard {
    const k: Casing
    const texts: seq<string>
    var ready: bool
    var codes: map<nat, nat>
    var names: map<nat, string>

    ghost predicate Valid()
      reads this
    {
      && |texts| == CODES && (forall t :: t in texts ==> LawfulFor(k, t))
      && if ready then Agrees(Entries(k, texts), codes, names) else codes == map[] && names == map[]
    }

    constructor (k: Casing, texts: seq<string>)
      requires |texts| == CODES && forall t :: t in texts ==> LawfulFor(k, t)
      ensures Valid() && !ready && this.k == k && this.texts == texts
    {
      this.k, this.texts, ready, codes, names := k, texts, false, map[], map[];
    }

    method Enter(e: Entry, ghost entries: seq<Entry>)
      requires Tabled(entries, codes, names)
      modifies `codes, `names
      ensures Tabled(entries + [e], codes, names)
    {
      var h := Hash(e.name);
      forall x ensures Known(entries + [e], x) <==> Known(entries, x) || Hash(e.name) == x {
        KnownOfMore(entries, e, x);
      }
      forall x: nat
        ensures FirstCode(entries + [e], x)
             == if Known(entries, x) then FirstCode(entries, x) else if h == x then e.code else 0
      {
        FirstCodeOfMore(entries, e, x);
      }
      assert (entries + [e])[..|entries|] == entries;
      if h !in codes {
        codes := codes[h := e.code];
      }
      names := names[e.code := Stored(e.name)];
    }

    /** Standardises the system's text for a key, in a buffer. */
    method SystemName(text: string) returns (name: string)
      requires LawfulFor(k, text)
      ensures name == Title(k, text)
    {
      var buffer := new char[|text|](i requires 0 <= i < |text| => text[i]);
      assert buffer[0..|text|] == text;
      StandardizeNames(k, buffer, 0, |text|);
      name := buffer[..];
      assert name == buffer[0..|text|];
    }

    /** Enters the fixed names, in order. */
    method EnterAll(list: seq<Entry>, ghost entries: seq<Entry>)
      requires Tabled(entries, codes, names)
      modifies `codes, `names
      ensures Tabled(entries + list, codes, names)
    {
      hide *;
      assert entries == entries + list[..0];
      for i := 0 to |list|
        invariant Tabled(entries + list[..i], codes, names)
      {
        Enter(list[i], entries + list[..i]);
        assert entries + list[..i + 1] == entries + list[..i] + [list[i]];
      }
      assert list[..|list|] == list;
    }

    /** Fills both tables: first what the system names, then the fixed entries. */
    method Fill()
      requires Valid() && !ready
      modifies this
      ensures Valid() && ready
    {
      hide Hash, Title, NameOf, Tabled, Known, HasFixedName, SystemEntries, Agrees;
      NothingTabled();
      NoSystemEntry(k, texts);
      for code := 0 to CODES
        invariant |texts| == CODES && forall t :: t in texts ==> LawfulFor(k, t)
        invariant Tabled(SystemEntries(k, texts, code), codes, names)
      {
        NextSystemEntry(k, texts, code);
        var name := KeyName(code);
        if !HasFixedName(code) {
          Enter(Entry(name, code), SystemEntries(k, texts, code));
        }
      }
      EnterAll(FIXED, SystemEntries(k, texts, CODES));
      ready := true;
      TabledAgrees(Entries(k, texts), codes, names);
    }

    method KeyName(code: nat) returns (name: string)
      requires code < |texts| && LawfulFor(k, texts[code])
      ensures name == NameOf(k, texts[code], code)
    {
      if 0x70 <= code < 0x70 + |FUNCTION_KEYS| {
        name := FUNCTION_KEYS[code - 0x70];
      } else if code == 0x2A {
        name := "Print Screen";
      } else if code == 0x91 {
        name := "Scroll Lock";
      } else if code == 0x13 {
        name := "Pause Break";
      } else {
        name := SystemName(texts[code]);
      }
    }

    /** Looks a name up; as with `operator []`, an unknown hash is entered with code zero. */
    method CodeOf(name: string) returns (code: nat)
      modifies `codes
      ensures code == Lookup(old(codes), Hash(name))
      ensures forall h :: Lookup(codes, h) == Lookup(old(codes), h)
    {
      var h := Hash(name);
      if h !in codes {
        codes := codes[h := 0];
      }
      code := codes[h];
    }
  }

  // ---------------------------------------------------------------------------------------------
  // Binds
  // ---------------------------------------------------------------------------------------------

  datatype Bind = Bind(vKey: int, ctrl: bool, alt: bool, shift: bool)

  const NOTHING := Bind(0, false, false, false)

  /** The low byte of a key code. */
  function Low(vKey: int): (code: nat)
    ensures code < 0x100
  {
    vKey % 0x100
  }

  /** The word that binds are compared by: the code, and one bit for each modifier above it. */
  function Mask(code: nat, ctrl: bool, shift: bool, alt: bool): nat {
    code + (if ctrl then 0x200 else 0) + (if shift then 0x400 else 0) + (if alt then 0x800 else 0)
  }

  function MaskOf(b: Bind): nat {
    Mask(Low(b.vKey), b.ctrl, b.shift, b.alt)
  }

  /** Comparing masks compares binds. */
  lemma MasksTellBindsApart(a: Bind, b: Bind)
    ensures MaskOf(a) == MaskOf(b) <==> Low(a.vKey) == Low(b.vKey) && a.(vKey := 0) == b.(vKey := 0)
  {}

  function Words(b: Bind, name: string): seq<string> {
    (if b.ctrl then ["Ctrl"] else []) + (if b.alt then ["Alt"] else []) + (if b.shift then ["Shift"] else []) + [name]
  }

  /** What is printed for a bind whose key has this name. */
  function Printed(b: Bind, name: string): string {
    if name == "" then "<Not Bound>" else Join(Words(b, name))
  }

  /** The effect on a bind of reading one more code. */
  function Press(b: Bind, code: nat): Bind {
    if code == CONTROL then b.(ctrl := true)
    else if code == SHIFT then b.(shift := true)
    else if code == MENU then b.(alt := true)
    else b.(vKey := code)
  }

  function PressAll(b: Bind, codes: seq<nat>): Bind
    decreases |codes|
  {
    if codes == [] then b else PressAll(Press(b, codes[0]), codes[1..])
  }

  /** The code that a token stands for. */
  function Code(k: Casing, entries: seq<Entry>, token: string): nat {
    FirstCode(entries, Hash(Title(k, token)))
  }

  function Codes(k: Casing, entries: seq<Entry>, tokens: seq<string>): (codes: seq<nat>)
    ensures |codes| == |tokens| && forall i :: 0 <= i < |codes| ==> codes[i] == Code(k, entries, tokens[i])
  {
    if tokens == [] then [] else [Code(k, entries, tokens[0])] + Codes(k, entries, tokens[1..])
  }

  /** What a text means: its tokens in turn, or the whole text if it is nothing but '+' characters. */
  function Read(k: Casing, entries: seq<Entry>, text: string): Bind {
    var tokens := Tokens(text);
    if tokens == [] && text != "" then NOTHING.(vKey := Code(k, entries, text))
    else PressAll(NOTHING, Codes(k, entries, tokens))
  }

  /** A key bind with its printed form. */
  class Keybind {
    var text: string
    var ctrl: bool
    var shift: bool
    var alt: bool
    var vKey: int
    var masked: nat

    function Current(): Bind
      reads this
    {
      Bind(vKey, ctrl, alt, shift)
    }

    /** Prints the bind.  A key without a name, or any key before the tables are filled, loses its modifiers. */
    method Update(keyboard: Keyboard)
      modifies this
      ensures vKey == old(vKey)
      ensures text == Printed(old(Current()), NameFor(keyboard.names, Low(vKey)))
      ensures if NameFor(keyboard.names, Low(vKey)) == "" then Current() == NOTHING.(vKey := vKey) && masked == 0
              else Current() == old(Current()) && masked == MaskOf(Current())
      ensures 0 <= vKey < 0x100 ==> text == Printed(old(Current()), NameFor(keyboard.names, vKey))
      ensures 0 <= vKey < 0x100 && NameFor(keyboard.names, vKey) != "" ==>
        masked == vKey + (if ctrl then 0x200 else 0) + (if shift then 0x400 else 0) + (if alt then 0x800 else 0)
    {
      var name := NameFor(keyboard.names, Low(vKey));
      if name == "" {
        ctrl, alt, shift := false, false, false;
        masked := 0;
        text := "<Not Bound>";
        return;
      }
      var words := [];
      if ctrl {
        words := words + ["Ctrl"];
      }
      if alt {
        words := words + ["Alt"];
      }
      if shift {
        words := words + ["Shift"];
      }
      words := words + [name];
      assert words == Words(Current(), name);
      text := JoinQueue(words);
      masked := Mask(Low(vKey), ctrl, shift, alt);
    }

    /**
     Reads the bind from its text, filling the tables first if need be.  The source copies the text into a
     buffer of 128 characters; a longer one leaves the bind as anything.
     */
    method Parse(keyboard: Keyboard)
      requires keyboard.Valid() && LawfulFor(keyboard.k, text)
      modifies this, keyboard
      ensures keyboard.Valid() && keyboard.ready && text == old(text)
      ensures |text| < 128 ==>
        Current() == Read(keyboard.k, Entries(keyboard.k, keyboard.texts), text) && masked == MaskOf(Current())
    {
      hide LawfulFor, Entries, Read;
      vKey := 0;
      if !keyboard.ready {
        keyboard.Fill();
      }
      if |text| < 128 {
        ParseTokens(keyboard);
        masked := Mask(Low(vKey), ctrl, shift, alt);
      } else {
        vKey, ctrl, alt, shift := *, *, *, *;
        var any: nat :| any >= 0;
        masked := any;
      }
    }

    /** Reads the tokens of the text, or the whole text if there are none. */
    method ParseTokens(keyboard: Keyboard)
      requires keyboard.Valid() && keyboard.ready && LawfulFor(keyboard.k, text)
      modifies `vKey, `ctrl, `alt, `shift, keyboard`codes
      ensures keyboard.Valid()
      ensures Current() == Read(keyboard.k, Entries(keyboard.k, keyboard.texts), text)
    {
      hide Code, Entries, Tokens, Press, Low, LawfulFor;
      var s := text;
      var buffer := new char[|s|](i requires 0 <= i < |s| => s[i]);
      assert buffer[0..] == s;
      var found, from, to := NextToken(buffer, 0);
      assert !found ==> Tokens(s) == [];
      assert buffer[0..buffer.Length] == s;
      vKey, ctrl, alt, shift := 0, false, false, false;
      if found {
        LawfulPart(keyboard.k, s, buffer[from..]);
        ReadTokens(keyboard, buffer, from, to);
      } else if s != "" {
        vKey := ReadName(keyboard, buffer, 0, buffer.Length);
      }
    }

    /** Reads the token `buffer[from..to]` and all that follow it. */
    method ReadTokens(keyboard: Keyboard, buffer: array<char>, from: nat, to: nat)
      requires keyboard.Valid() && keyboard.ready
      requires from < to <= buffer.Length && (to < buffer.Length ==> buffer[to] == PLUS)
      requires LawfulFor(keyboard.k, buffer[from..])
      modifies `vKey, `ctrl, `alt, `shift, keyboard`codes, buffer
      ensures keyboard.Valid()
      ensures Current() == PressAll(old(Current()), Codes(keyboard.k, Entries(keyboard.k, keyboard.texts),
                                                          [old(buffer[from..to])] + Tokens(old(buffer[to..]))))
    {
      hide Code, Entries, Tokens, Press, LawfulFor;
      ghost var k, entries := keyboard.k, Entries(keyboard.k, keyboard.texts);
      ghost var all := Codes(k, entries, [buffer[from..to]] + Tokens(buffer[to..]));
      var found, b, e := true, from, to;
      while found
        invariant keyboard.Valid() && keyboard.ready
        invariant b <= buffer.Length && LawfulFor(k, buffer[b..])
        invariant b <= e <= buffer.Length && (found ==> b < e) && (found && e < buffer.Length ==> buffer[e] == PLUS)
        invariant PressAll(old(Current()), all)
               == if found then PressAll(Current(), Codes(k, entries, [buffer[b..e]] + Tokens(buffer[e..])))
                  else Current()
        decreases buffer.Length - b, found
      {
        ghost var token, rest := buffer[b..e], buffer[e..];
        LawfulPart(k, buffer[b..], token);
        LawfulPart(k, buffer[b..], rest);
        var code := ReadName(keyboard, buffer, b, e);
        PressCode(code);
        assert buffer[e..] == rest;
        NextCode(k, entries, token, Tokens(rest));
        var p := e;
        if e < buffer.Length {
          SkipPlus(buffer[..], e);
          assert buffer[..][e..] == buffer[e..] && buffer[..][e + 1..] == buffer[e + 1..];
          p := e + 1;
        }
        found, b, e := NextToken(buffer, p);
        LawfulPart(k, rest, buffer[b..]);
      }
    }

    method PressCode(code: nat)
      modifies `vKey, `ctrl, `alt, `shift
      ensures Current() == Press(old(Current()), code)
    {
      if code == CONTROL {
        ctrl := true;
      } else if code == SHIFT {
        shift := true;
      } else if code == MENU {
        alt := true;
      } else {
        vKey := code;
      }
    }
  }

  lemma NextCode(k: Casing, entries: seq<Entry>, token: string, tokens: seq<string>)
    ensures Codes(k, entries, [token] + tokens) == [Code(k, entries, token)] + Codes(k, entries, tokens)
  {}

  /** Standardises a name in the buffer and looks it up. */
  method ReadName(keyboard: Keyboard, buffer: array<char>, from: nat, to: nat) returns (code: nat)
    requires keyboard.Valid() && keyboard.ready && from <= to <= buffer.Length
    requires LawfulFor(keyboard.k, buffer[from..to])
    modifies buffer, keyboard`codes
    ensures keyboard.Valid()
    ensures code == Code(keyboard.k, Entries(keyboard.k, keyboard.texts), old(buffer[from..to]))
    ensures buffer[to..] == old(buffer[to..])
  {
    hide Hash, Entries, Title, FirstCode, LastName, LawfulFor;
    StandardizeNames(keyboard.k, buffer, from, to);
    code := keyboard.CodeOf(buffer[from..to]);
  }

  // ---------------------------------------------------------------------------------------------
  // Printing and reading back
  // ---------------------------------------------------------------------------------------------

  /** The names of the modifiers mean the modifiers. */
  predicate ModifiersResolve(k: Casing, entries: seq<Entry>) {
    Code(k, entries, "Ctrl") == CONTROL && Code(k, entries, "Alt") == MENU && Code(k, entries, "Shift") == SHIFT
  }

  lemma PressWord(k: Casing, entries: seq<Entry>, b: Bind, held: bool, word: string, rest: seq<string>)
    ensures PressAll(b, Codes(k, entries, (if held then [word] else []) + rest))
         == PressAll(if held then Press(b, Code(k, entries, word)) else b, Codes(k, entries, rest))
  {
    if held {
      NextCode(k, entries, word, rest);
    } else {
      assert [] + rest == rest;
    }
  }

  /** The words for the modifiers that are held. */
  function Modifiers(b: Bind): (words: seq<string>)
    ensures forall w :: w in words ==> w != "" && Plain(w)
    ensures words == [] <==> !b.ctrl && !b.alt && !b.shift
  {
    (if b.ctrl then ["Ctrl"] else []) + ((if b.alt then ["Alt"] else []) + (if b.shift then ["Shift"] else []))
  }

  lemma PressModifiers(k: Casing, entries: seq<Entry>, b: Bind, rest: seq<string>)
    requires ModifiersResolve(k, entries)
    ensures PressAll(NOTHING, Codes(k, entries, Modifiers(b) + rest))
         == PressAll(b.(vKey := 0), Codes(k, entries, rest))
  {
    hide Code, PressAll, Codes;
    var c := if b.ctrl then ["Ctrl"] else [];
    var a := if b.alt then ["Alt"] else [];
    var s := if b.shift then ["Shift"] else [];
    assert Modifiers(b) + rest == c + (a + (s + rest));
    var b1 := NOTHING.(ctrl := b.ctrl);
    var b2 := b1.(alt := b.alt);
    PressWord(k, entries, NOTHING, b.ctrl, "Ctrl", a + (s + rest));
    PressWord(k, entries, b1, b.alt, "Alt", s + rest);
    PressWord(k, entries, b2, b.shift, "Shift", rest);
  }

  /** Reading a printed bind holds its modifiers down and then reads the name, whatever the name is. */
  lemma ReadsPrinted(k: Casing, entries: seq<Entry>, b: Bind, name: string)
    requires ModifiersResolve(k, entries) && name != ""
    ensures Read(k, entries, Join(Words(b, name)))
         == if Tokens(name) == [] && !b.ctrl && !b.alt && !b.shift then NOTHING.(vKey := Code(k, entries, name))
            else PressAll(b.(vKey := 0), Codes(k, entries, Tokens(name)))
  {
    hide Code, Tokens, PressAll, Codes, Modifiers, ModifiersResolve;
    var words := Modifiers(b);
    WordsAre(b, name);
    TokensOfJoinedName(words, name);
    PressModifiers(k, entries, b, Tokens(name));
    if words == [] {
      assert words + [name] == [name] && words + Tokens(name) == Tokens(name);
    } else {
      assert (words + Tokens(name))[0] == words[0] && (words + [name])[0] == words[0] != "";
      assert Join(words + [name]) != "";
    }
  }

  lemma WordsAre(b: Bind, name: string)
    ensures Words(b, name) == Modifiers(b) + [name]
  {}

  lemma {:induction false} NamesAreShort(entries: seq<Entry>, code: nat)
    ensures |LastName(entries, code)| < 32
  {
    if entries != [] {
      NamesAreShort(entries[..|entries| - 1], code);
    }
  }

  /** Whatever the tables hold, what is printed fits the buffer it is read in. */
  lemma PrintedFits(entries: seq<Entry>, b: Bind)
    ensures |Join(Words(b, LastName(entries, Low(b.vKey))))| < 128
  {
    hide LastName, Join;
    var name := LastName(entries, Low(b.vKey));
    NamesAreShort(entries, Low(b.vKey));
    WordsAre(b, name);
    JoinLength(Modifiers(b), name);
  }

  lemma PlainNameIsOneToken(name: string)
    requires name != "" && Plain(name)
    ensures Tokens(name) == [name]
  {
    TokensOfJoin([name]);
  }

  /** The codes that are not modifiers, in order. */
  function Keys(codes: seq<nat>): seq<nat> {
    if codes == [] then [] else (if Modifier(codes[0]) then [] else [codes[0]]) + Keys(codes[1..])
  }

  function LastOr(default: int, keys: seq<nat>): int {
    if keys == [] then default else keys[|keys| - 1]
  }

  /** Reading codes in order comes to this: each modifier that occurs is held, and the last key counts. */
  lemma {:induction false} PressAllIs(b: Bind, codes: seq<nat>)
    ensures PressAll(b, codes)
         == Bind(LastOr(b.vKey, Keys(codes)),
                 b.ctrl || CONTROL in codes, b.alt || MENU in codes, b.shift || SHIFT in codes)
    decreases |codes|
  {
    if codes != [] {
      var c, rest := codes[0], codes[1..];
      PressAllIs(Press(b, c), rest);
      assert codes == [c] + rest;
      assert forall m :: m in codes <==> m == c || m in rest;
    }
  }

  /**
   Whether a bind outlives printing and reading, told from the meaning of its key's name.  A name of '+'
   characters alone, printed alone, is looked up as a whole.  Otherwise the last part of the name that is no
   modifier must mean the key, and every modifier among the parts must be held already.
   */
  predicate Survives(k: Casing, entries: seq<Entry>, b: Bind, name: string) {
    if Tokens(name) == [] && !b.ctrl && !b.alt && !b.shift then Code(k, entries, name) == b.vKey
    else
      var codes := Codes(k, entries, Tokens(name));
      && LastOr(0, Keys(codes)) == b.vKey
      && (CONTROL in codes ==> b.ctrl) && (MENU in codes ==> b.alt) && (SHIFT in codes ==> b.shift)
  }

  /** The round trip, exactly, for every bind and every name: it reads back as itself if and only if it survives. */
  lemma RoundTrip(k: Casing, entries: seq<Entry>, b: Bind, name: string)
    requires ModifiersResolve(k, entries) && name != ""
    ensures Read(k, entries, Join(Words(b, name))) == b <==> Survives(k, entries, b, name)
  {
    hide Code, Tokens, Read, Words, Join, Keys, Codes, PressAll;
    ReadsPrinted(k, entries, b, name);
    PressAllIs(b.(vKey := 0), Codes(k, entries, Tokens(name)));
  }

  /** Whether a name with this code stands for the key of the bind: its own, or a modifier held anyway. */
  predicate Denotes(b: Bind, code: nat) {
    if Modifier(code) then b.vKey == 0 && Press(b, code) == b else b.vKey == code
  }

  lemma SurvivesAsToken(k: Casing, entries: seq<Entry>, b: Bind, name: string, token: string)
    requires Tokens(name) == [token]
    ensures Survives(k, entries, b, name) <==> Denotes(b, Code(k, entries, token))
  {
    hide Code, Tokens;
    var code := Code(k, entries, token);
    NextCode(k, entries, token, []);
    assert [token] + [] == [token];
    assert Codes(k, entries, [token]) == [code] && [code][1..] == [];
    assert Keys([code]) == (if Modifier(code) then [] else [code]) + Keys([]);
  }

  /**
   '+' characters at either end of a name are lost: the bind reads back as itself exactly if the rest of the
   name means its key.  So it is with "Num +", and with names that begin with '+'.
   */
  lemma OuterPlusesAreLost(k: Casing, entries: seq<Entry>, b: Bind, before: string, token: string, after: string)
    requires ModifiersResolve(k, entries)
    requires Only(before, PLUS) && token != "" && Plain(token) && Only(after, PLUS)
    ensures Read(k, entries, Join(Words(b, before + token + after))) == b <==> Denotes(b, Code(k, entries, token))
  {
    hide Code, Tokens, Read, Survives, Denotes;
    PlusesAroundAToken(before, token, after);
    RoundTrip(k, entries, b, before + token + after);
    SurvivesAsToken(k, entries, b, before + token + after, token);
  }

  /** A name of '+' characters alone reads back, but only without modifiers; with any, the key is lost. */
  lemma OnlyPluses(k: Casing, entries: seq<Entry>, b: Bind, name: string)
    requires ModifiersResolve(k, entries) && name != "" && Only(name, PLUS)
    ensures Read(k, entries, Join(Words(b, name))) == b
       <==> b.vKey == if b.ctrl || b.alt || b.shift then 0 else Code(k, entries, name)
  {
    hide Code, Read;
    LeadingPlusesAreSkipped(name, "");
    assert name + "" == name;
    RoundTrip(k, entries, b, name);
  }

  // ---------------------------------------------------------------------------------------------
  // What does not matter to a reader
  // ---------------------------------------------------------------------------------------------

  /** Letter case does not matter. */
  lemma ReadIgnoresCase(k: Casing, entries: seq<Entry>, s: string, t: string)
    requires SameText(k, s, t)
    ensures Read(k, entries, s) == Read(k, entries, t)
  {
    hide Tokens, Title, Hash;
    TokensIgnoreCase(k, s, t);
    TitleIgnoresCase(k, s, t);
    var x, y := Tokens(s), Tokens(t);
    forall i | 0 <= i < |x| ensures Code(k, entries, x[i]) == Code(k, entries, y[i]) {
      TitleIgnoresCase(k, x[i], y[i]);
    }
    assert Codes(k, entries, x) == Codes(k, entries, y);
  }

  /** The order of the modifiers does not matter, nor where among the other words they stand. */
  lemma ReadIgnoresModifierOrder(k: Casing, entries: seq<Entry>, s: string, t: string)
    requires Tokens(s) != [] && Tokens(t) != []
    requires var x, y := Codes(k, entries, Tokens(s)), Codes(k, entries, Tokens(t));
             Keys(x) == Keys(y) && forall m :: Modifier(m) ==> (m in x <==> m in y)
    ensures Read(k, entries, s) == Read(k, entries, t)
  {
    hide Keys, Codes, Tokens;
    var x, y := Codes(k, entries, Tokens(s)), Codes(k, entries, Tokens(t));
    PressAllIs(NOTHING, x);
    PressAllIs(NOTHING, y);
    assert Modifier(CONTROL) && Modifier(MENU) && Modifier(SHIFT);
  }

  // ---------------------------------------------------------------------------------------------
  // When the modifiers resolve
  // ---------------------------------------------------------------------------------------------

  lemma HashStep(s: string, c: char)
    ensures Hash(s + [c]) == (c as int + Hash(s) * 65599) % WORD
  {
    assert (s + [c])[..|s|] == s;
  }

  lemma HashOfNothing()
    ensures Hash([]) == 0
  {}

  lemma Hash3(a: char, b: char, c: char)
    ensures Hash([a, b, c]) == (c as int + (b as int + a as int * 65599) % WORD * 65599) % WORD
  {
    hide Hash;
    HashOfNothing();
    HashStep([a, b], c);
    HashStep([a], b);
    HashStep([], a);
    assert [a, b, c] == [a, b] + [c] && [a, b] == [a] + [b] && [a] == [] + [a];
  }

  lemma HashOfAlt()
    ensures Hash("Alt") == 279716956873
  {
    hide Hash;
    Hash3('A', 'l', 't');
  }

  lemma HashOfCtrl()
    ensures Hash("Ctrl") == 18913762091844843
  {
    hide Hash;
    Hash3('C', 't', 'r');
    HashStep("Ctr", 'l');
    assert "Ctrl" == "Ctr" + ['l'];
  }

  lemma HashOfPlus()
    ensures Hash("Plus") == 22583465245729626
  {
    hide Hash;
    Hash3('P', 'l', 'u');
    HashStep("Plu", 's');
    assert "Plus" == "Plu" + ['s'];
  }

  lemma HashOfMinus()
    ensures Hash("Minus") == 5499261745073748048
  {
    hide Hash;
    Hash3('M', 'i', 'n');
    HashStep("Min", 'u');
    HashStep("Minu", 's');
    assert "Minu" == "Min" + ['u'] && "Minus" == "Minu" + ['s'];
  }

  lemma HashOfShift()
    ensures Hash("Shift") == 5925183676328579170
  {
    hide Hash;
    Hash3('S', 'h', 'i');
    HashStep("Shi", 'f');
    HashStep("Shif", 't');
    assert "Shif" == "Shi" + ['f'] && "Shift" == "Shif" + ['t'];
  }

  lemma {:induction false} FirstCodeOfConcat(a: seq<Entry>, b: seq<Entry>, h: nat)
    ensures FirstCode(a + b, h) == if Known(a, h) then FirstCode(a, h) else FirstCode(b, h)
  {
    if a == [] {
      assert a + b == b;
    } else {
      FirstCodeOfConcat(a[1..], b, h);
      assert (a + b)[1..] == a[1..] + b;
    }
  }

  lemma {:induction false} FirstCodeIsEntered(entries: seq<Entry>, h: nat) returns (i: nat)
    requires Known(entries, h)
    ensures i < |entries| && entries[i].code == FirstCode(entries, h) && Hash(entries[i].name) == h
  {
    if Hash(entries[0].name) == h {
      i := 0;
    } else {
      var j := FirstCodeIsEntered(entries[1..], h);
      i := j + 1;
    }
  }

  lemma NextEntry(e: Entry, rest: seq<Entry>, h: nat)
    ensures FirstCode([e] + rest, h) == if Hash(e.name) == h then e.code else FirstCode(rest, h)
  {
    assert ([e] + rest)[1..] == rest;
  }

  /** The fixed entries resolve the modifiers: their hashes differ. */
  lemma FixedModifiers()
    ensures FirstCode(FIXED, Hash("Ctrl")) == CONTROL
    ensures FirstCode(FIXED, Hash("Alt")) == MENU
    ensures FirstCode(FIXED, Hash("Shift")) == SHIFT
  {
    hide Hash, FirstCode;
    HashOfAlt();
    HashOfCtrl();
    HashOfPlus();
    HashOfMinus();
    HashOfShift();
    var r5 := FIXED[5..];
    var r4 := [Entry("Shift", SHIFT)] + r5;
    var r3 := [Entry("Alt", MENU)] + r4;
    var r2 := [Entry("Ctrl", CONTROL)] + r3;
    var r1 := [Entry("Minus", 0xBD)] + r2;
    assert FIXED == [Entry("Plus", 0xBB)] + r1;
    forall h: nat ensures FirstCode(FIXED, h)
        == if Hash("Plus") == h then 0xBB else if Hash("Minus") == h then 0xBD else if Hash("Ctrl") == h then CONTROL
           else if Hash("Alt") == h then MENU else if Hash("Shift") == h then SHIFT else FirstCode(r5, h)
    {
      NextEntry(Entry("Plus", 0xBB), r1, h);
      NextEntry(Entry("Minus", 0xBD), r2, h);
      NextEntry(Entry("Ctrl", CONTROL), r3, h);
      NextEntry(Entry("Alt", MENU), r4, h);
      NextEntry(Entry("Shift", SHIFT), r5, h);
    }
  }

  /** The case mapping leaves the names of the modifiers alone. */
  predicate StandardModifiers(k: Casing) {
    Title(k, "Ctrl") == "Ctrl" && Title(k, "Alt") == "Alt" && Title(k, "Shift") == "Shift"
  }

  /** Whatever the system calls its keys, the modifiers resolve unless some key's name has the hash of one. */
  lemma ModifiersResolveUnlessShadowed(k: Casing, texts: seq<string>)
    requires |texts| == CODES && StandardModifiers(k)
    ensures ModifiersResolve(k, Entries(k, texts))
       <==> forall name :: name in ["Ctrl", "Alt", "Shift"] ==> !Known(SystemEntries(k, texts, CODES), Hash(name))
  {
    hide Hash, FirstCode, Known, SystemEntries, Title, HasFixedName;
    FixedModifiers();
    assert HasFixedName(FIXED[2].code) && HasFixedName(FIXED[3].code) && HasFixedName(FIXED[4].code) by {
      ListedIsFixed(2);
      ListedIsFixed(3);
      ListedIsFixed(4);
    }
    Shadowed(k, texts, "Ctrl", CONTROL);
    Shadowed(k, texts, "Alt", MENU);
    Shadowed(k, texts, "Shift", SHIFT);
  }

  lemma ListedIsFixed(i: nat)
    requires i < |FIXED|
    ensures HasFixedName(FIXED[i].code)
  {}

  lemma Shadowed(k: Casing, texts: seq<string>, name: string, code: nat)
    requires |texts| == CODES && FirstCode(FIXED, Hash(name)) == code && HasFixedName(code)
    ensures FirstCode(Entries(k, texts), Hash(name)) == code <==> !Known(SystemEntries(k, texts, CODES), Hash(name))
  {
    hide Hash, HasFixedName;
    var system := SystemEntries(k, texts, CODES);
    FirstCodeOfConcat(system, FIXED, Hash(name));
    if Known(system, Hash(name)) {
      var i := FirstCodeIsEntered(system, Hash(name));
      assert system[i] in system;
    }
  }

  // ---------------------------------------------------------------------------------------------
  // The keys of a keyboard
  // ---------------------------------------------------------------------------------------------

  ghost predicate DistinctCodes(entries: seq<Entry>) {
    forall i, j :: 0 <= i < j < |entries| ==> entries[i].code != entries[j].code
  }

  lemma DistinctConcat(a: seq<Entry>, b: seq<Entry>)
    requires DistinctCodes(a) && DistinctCodes(b)
    requires forall x, y :: x in a && y in b ==> x.code != y.code
    ensures DistinctCodes(a + b)
  {
    var all := a + b;
    forall i, j | 0 <= i < j < |all| ensures all[i].code != all[j].code {
      if i < |a| <= j {
        assert all[i] in a && all[j] in b;
      }
    }
  }

  lemma {:induction false} SystemCodesAreDistinct(k: Casing, texts: seq<string>, n: nat)
    requires n <= |texts|
    ensures DistinctCodes(SystemEntries(k, texts, n))
  {
    hide HasFixedName, NameOf;
    if n > 0 {
      SystemCodesAreDistinct(k, texts, n - 1);
      NextSystemEntry(k, texts, n - 1);
      DistinctConcat(SystemEntries(k, texts, n - 1), [Entry(NameOf(k, texts[n - 1], n - 1), n - 1)]);
    }
  }

  lemma FixedCodesAreDistinct()
    ensures DistinctCodes(FIXED)
  {}

  lemma CodesAreDistinct(k: Casing, texts: seq<string>)
    requires |texts| == CODES
    ensures DistinctCodes(Entries(k, texts))
  {
    hide HasFixedName, NameOf, SystemEntries, DistinctCodes;
    SystemCodesAreDistinct(k, texts, CODES);
    FixedCodesAreDistinct();
    var system := SystemEntries(k, texts, CODES);
    forall x, y | x in system && y in FIXED ensures x.code != y.code {
      var i :| 0 <= i < |FIXED| && FIXED[i] == y;
      ListedIsFixed(i);
    }
    DistinctConcat(system, FIXED);
  }

  lemma {:induction false} LastNameIs(entries: seq<Entry>, i: nat)
    requires i < |entries| && DistinctCodes(entries)
    ensures LastName(entries, entries[i].code) == Stored(entries[i].name)
  {
    var n := |entries| - 1;
    if i < n {
      LastNameIs(entries[..n], i);
    }
  }

  lemma FirstCodeIs(entries: seq<Entry>, i: nat)
    requires i < |entries| && DistinctCodes(entries)
    ensures FirstCode(entries, Hash(entries[i].name)) == entries[i].code
       <==> !Known(entries[..i], Hash(entries[i].name))
  {
    var h := Hash(entries[i].name);
    assert entries == entries[..i] + entries[i..];
    FirstCodeOfConcat(entries[..i], entries[i..], h);
    if Known(entries[..i], h) {
      var j := FirstCodeIsEntered(entries[..i], h);
      assert entries[..i][j] == entries[j];
    }
  }

  /**
   The round trip of a whole keyboard, whatever its system calls the keys: a bind on a key that is not a
   modifier, printed by the name the table keeps for it, reads back as itself if and only if no earlier
   entry has the hash of that name.
   */
  lemma KeyRoundTrip(k: Casing, texts: seq<string>, b: Bind, i: nat)
    requires |texts| == CODES && ModifiersResolve(k, Entries(k, texts)) && i < |Entries(k, texts)|
    requires var e := Entries(k, texts)[i];
             && b.vKey == e.code != 0 && !Modifier(e.code)
             && 0 < |e.name| < 32 && Plain(e.name) && Title(k, e.name) == e.name
    ensures Read(k, Entries(k, texts), Join(Words(b, LastName(Entries(k, texts), b.vKey)))) == b
       <==> !Known(Entries(k, texts)[..i], Hash(Entries(k, texts)[i].name))
  {
    hide Hash, FirstCode, LastName, Known, Read, Title, Entries, ModifiersResolve, DistinctCodes, Plain;
    var entries := Entries(k, texts);
    CodesAreDistinct(k, texts);
    LastNameIs(entries, i);
    FirstCodeIs(entries, i);
    var name := entries[i].name;
    assert "" + name + "" == name;
    OuterPlusesAreLost(k, entries, b, "", name, "");
  }

  lemma HashOfNum()
    ensures Hash("Num ") == 22018928962030362 && Hash("Num +") == 5573683230884690833
  {
    hide Hash;
    Hash3('N', 'u', 'm');
    HashStep("Num", ' ');
    HashStep("Num ", '+');
    assert "Num " == "Num" + [' '] && "Num +" == "Num " + ['+'];
  }

  lemma {:induction false} SystemEntryAt(k: Casing, texts: seq<string>, n: nat, code: nat)
    requires code < n <= |texts| && !HasFixedName(code)
    ensures Entry(NameOf(k, texts[code], code), code) in SystemEntries(k, texts, n)
  {
    hide HasFixedName, NameOf;
    NextSystemEntry(k, texts, n - 1);
    if code < n - 1 {
      SystemEntryAt(k, texts, n - 1, code);
    }
  }

  /** A standard name begins with standard names. */
  lemma TitleOfPrefix(k: Casing, s: string, t: string)
    requires Title(k, s + t) == s + t
    ensures Title(k, s) == s
  {
    forall i | 0 <= i < |s| ensures Title(k, s)[i] == s[i] {
      assert Title(k, s + t)[i] == s[i] && (s + t)[i] == s[i];
      assert i > 0 ==> (s + t)[i - 1] == s[i - 1];
    }
  }

  /**
   A key that never reads back: the numeric plus key of an English system, on any keyboard, whatever the
   other keys are called.
   */
  lemma NumPlusIsLost(k: Casing, texts: seq<string>, b: Bind)
    requires |texts| == CODES && LawfulFor(k, texts[0x6B]) && ModifiersResolve(k, Entries(k, texts))
    requires Title(k, texts[0x6B]) == "Num +" && b.vKey == 0x6B
    ensures LastName(Entries(k, texts), 0x6B) == "Num +"
    ensures Read(k, Entries(k, texts), Join(Words(b, "Num +"))) != b
  {
    hide Hash, FirstCode, LastName, Read, Title, Entries, DistinctCodes, ModifiersResolve, HasFixedName, LawfulFor;
    var entries := Entries(k, texts);
    var i := KeyEntry(k, texts, 0x6B);
    CodesAreDistinct(k, texts);
    LastNameIs(entries, i);
    TitleIsIdempotent(k, texts[0x6B]);
    assert "Num +" == "Num " + "+" == "" + "Num " + "+";
    TitleOfPrefix(k, "Num ", "+");
    NumIsNotNumPlus(entries, i);
    OuterPlusesAreLost(k, entries, b, "", "Num ", "+");
  }

  lemma NumPlusIsNotFixed()
    ensures !HasFixedName(0x6B)
  {}

  lemma KeyEntry(k: Casing, texts: seq<string>, code: nat) returns (i: nat)
    requires |texts| == CODES && code == 0x6B
    ensures var entries := Entries(k, texts);
            i < |entries| && entries[i] == Entry(Title(k, texts[code]), code)
  {
    hide SystemEntries, HasFixedName, Title;
    NumPlusIsNotFixed();
    var system := SystemEntries(k, texts, CODES);
    SystemEntryAt(k, texts, CODES, code);
    i :| i < |system| && system[i] == Entry(NameOf(k, texts[code], code), code);
  }

  lemma NumIsNotNumPlus(entries: seq<Entry>, i: nat)
    requires DistinctCodes(entries) && i < |entries| && entries[i] == Entry("Num +", 0x6B)
    ensures FirstCode(entries, Hash("Num ")) != 0x6B
  {
    hide Hash;
    HashOfNum();
    if Known(entries, Hash("Num ")) {
      var j := FirstCodeIsEntered(entries, Hash("Num "));
    } else {
      UnknownIsZero(entries, Hash("Num "));
    }
  }

  lemma ReadsOneToken(k: Casing, entries: seq<Entry>, token: string)
    requires token != "" && Plain(token)
    ensures Read(k, entries, token) == Press(NOTHING, Code(k, entries, token))
  {
    hide Code, Tokens;
    PlainNameIsOneToken(token);
    NextCode(k, entries, token, []);
    assert [token] + [] == [token];
    var code := Code(k, entries, token);
    assert Codes(k, entries, [token]) == [code] && [code][1..] == [];
    assert PressAll(NOTHING, [code]) == PressAll(Press(NOTHING, code), []);
  }

  /** What is printed for a key without a name reads as no key, though printing kept the key. */
  lemma NotBoundReadsAsNothing(k: Casing, entries: seq<Entry>)
    requires !Known(entries, Hash(Title(k, "<Not Bound>")))
    ensures Read(k, entries, "<Not Bound>") == NOTHING
  {
    hide Hash, Title, Known, FirstCode, Read;
    ReadsOneToken(k, entries, "<Not Bound>");
    UnknownIsZero(entries, Hash(Title(k, "<Not Bound>")));
  }

  /**
   Prints a bind and reads it back, as saving and loading the settings do: it is as it was if and only if it
   survives.  A key without a name reads as what its printed form means.
   */
  method PrintAndRead(bind: Keybind, keyboard: Keyboard)
    requires keyboard.Valid() && keyboard.ready && ModifiersResolve(keyboard.k, Entries(keyboard.k, keyboard.texts))
    requires LawfulFor(keyboard.k, Printed(bind.Current(), NameFor(keyboard.names, Low(bind.vKey))))
    modifies bind, keyboard
    ensures keyboard.Valid() && bind.masked == MaskOf(bind.Current())
    ensures var k, entries, was := keyboard.k, Entries(keyboard.k, keyboard.texts), old(bind.Current());
            var name := LastName(entries, Low(was.vKey));
            if name == "" then bind.Current() == Read(k, entries, "<Not Bound>")
            else (bind.Current() == was <==> Survives(k, entries, was, name))
  {
    hide Entries, LastName, Low, MaskOf, Read, Survives, ModifiersResolve, Join, Words, LawfulFor;
    ghost var k, entries, was := keyboard.k, Entries(keyboard.k, keyboard.texts), bind.Current();
    ghost var name := LastName(entries, Low(was.vKey));
    PrintedFits(entries, was);
    if name != "" {
      RoundTrip(k, entries, was, name);
    }
    bind.Update(keyboard);
    bind.Parse(keyboard);
  }
}
