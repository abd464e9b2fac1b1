/**
 The spelling of key names: giving a name its standard letter case in place, and splitting a bind at '+'.
 */
module KeyNames {

  /** The system's case mappings and its notion of white space, one character at a time. */
  datatype Casing = Casing(upper: char -> char, lower: char -> char, space: char -> bool)

  const PLUS := '+'

  /** Letters come in pairs: a mapping depends on the letter alone, not on the case it is in. */
  ghost predicate LawfulAt(k: Casing, c: char) {
    && k.lower(k.upper(c)) == k.lower(k.lower(c)) == k.lower(c)
    && k.upper(k.lower(c)) == k.upper(k.upper(c)) == k.upper(c)
    && k.space(k.upper(c)) == k.space(k.lower(c)) == k.space(c)
    && (k.upper(c) == PLUS <==> c == PLUS)
    && (k.lower(c) == PLUS <==> c == PLUS)
  }

  /** So it is of every letter of a text, in every case.  Nothing is asked of the letters that it does not hold. */
  ghost predicate LawfulFor(k: Casing, s: string) {
    forall a, b :: b in s && SameLetter(k, a, b) ==> LawfulAt(k, a)
  }

  /** The same letter, in any case. */
  predicate SameLetter(k: Casing, a: char, b: char) {
    k.lower(a) == k.lower(b) && k.upper(a) == k.upper(b) && k.space(a) == k.space(b) && (a == PLUS <==> b == PLUS)
  }

  predicate SameText(k: Casing, s: string, t: string) {
    |s| == |t| && forall i :: 0 <= i < |s| ==> SameLetter(k, s[i], t[i])
  }

  /** All its characters are among those of the other text. */
  predicate PartOf(t: string, s: string) {
    forall c :: c in t ==> c in s
  }

  lemma LawfulPart(k: Casing, s: string, t: string)
    requires LawfulFor(k, s) && PartOf(t, s)
    ensures LawfulFor(k, t)
  {}

  lemma LawfulTail(k: Casing, s: string, i: nat)
    requires LawfulFor(k, s) && i <= |s|
    ensures LawfulFor(k, s[i..])
  {
    LawfulPart(k, s, s[i..]);
  }

  // ---------------------------------------------------------------------------------------------
  // Standard names
  // ---------------------------------------------------------------------------------------------

  /** Whether the standard name has a capital here: first of all, and after white space further on. */
  predicate CapitalAt(k: Casing, s: string, i: nat)
    requires i < |s|
  {
    i == 0 || (i >= 2 && k.space(s[i - 1]))
  }

  /** The standard name: every character in the case that its place asks for. */
  function Title(k: Casing, s: string): (r: string)
    ensures |r| == |s|
  {
    seq(|s|, i requires 0 <= i < |s| => if CapitalAt(k, s, i) then k.upper(s[i]) else k.lower(s[i]))
  }

  lemma TitleAt(k: Casing, s: string, i: nat)
    requires i < |s|
    ensures Title(k, s)[i] == if CapitalAt(k, s, i) then k.upper(s[i]) else k.lower(s[i])
  {}

  lemma TitleIgnoresCase(k: Casing, s: string, t: string)
    requires SameText(k, s, t)
    ensures Title(k, s) == Title(k, t)
  {
    forall i | 0 <= i < |s| ensures Title(k, s)[i] == Title(k, t)[i] {
      assert SameLetter(k, s[i], t[i]);
      if i >= 2 {
        assert SameLetter(k, s[i - 1], t[i - 1]);
      }
    }
  }

  lemma TitleIsSameText(k: Casing, s: string)
    requires LawfulFor(k, s)
    ensures SameText(k, Title(k, s), s)
  {
    forall i | 0 <= i < |s| ensures SameLetter(k, Title(k, s)[i], s[i]) {
      assert SameLetter(k, s[i], s[i]) && LawfulAt(k, s[i]);
    }
  }

  /** Standardising a standard name changes nothing. */
  lemma TitleIsIdempotent(k: Casing, s: string)
    requires LawfulFor(k, s)
    ensures Title(k, Title(k, s)) == Title(k, s)
  {
    TitleIsSameText(k, s);
    TitleIgnoresCase(k, Title(k, s), s);
  }

  method CharUpper(k: Casing, text: array<char>, from: nat, to: nat)
    requires from <= to <= text.Length
    modifies text
    ensures forall i :: 0 <= i < text.Length ==>
      text[i] == if from <= i < to then k.upper(old(text[i])) else old(text[i])
  {
    for p := from to to
      invariant forall i :: 0 <= i < text.Length ==>
        text[i] == if from <= i < p then k.upper(old(text[i])) else old(text[i])
    {
      text[p] := k.upper(text[p]);
    }
  }

  method CharLower(k: Casing, text: array<char>, from: nat, to: nat)
    requires from <= to <= text.Length
    modifies text
    ensures forall i :: 0 <= i < text.Length ==>
      text[i] == if from <= i < to then k.lower(old(text[i])) else old(text[i])
  {
    for p := from to to
      invariant forall i :: 0 <= i < text.Length ==>
        text[i] == if from <= i < p then k.lower(old(text[i])) else old(text[i])
    {
      text[p] := k.lower(text[p]);
    }
  }

  /** Case mappings of the same letter agree, so only the last of several counts. */
  lemma Recase(k: Casing, s: string, a: char, b: char)
    requires LawfulFor(k, s) && b in s && SameLetter(k, a, b)
    ensures k.upper(a) == k.upper(b) && k.lower(a) == k.lower(b) && k.space(a) == k.space(b)
    ensures SameLetter(k, k.upper(a), b) && SameLetter(k, k.lower(a), b)
  {
    assert SameLetter(k, b, b) && LawfulAt(k, a) && LawfulAt(k, b);
  }

  /** Changes the case of `text[p..to]`, which is still the text it was but for case. */
  method CharCase(k: Casing, text: array<char>, p: nat, to: nat, lower: bool, ghost was: string)
    requires LawfulFor(k, was) && p < to <= text.Length && SameText(k, text[p..to], was)
    modifies text
    ensures text[p] == if lower then k.lower(was[0]) else k.upper(was[0])
    ensures k.space(text[p]) == k.space(was[0])
    ensures SameText(k, text[p..to], was)
    ensures text[..p] == old(text[..p]) && text[to..] == old(text[to..])
  {
    hide LawfulFor, SameLetter;
    ghost var now, before, after := text[p..to], text[..p], text[to..];
    forall i: nat | i < |was|
      ensures SameLetter(k, k.upper(now[i]), was[i]) && SameLetter(k, k.lower(now[i]), was[i])
    {
      Recase(k, was, now[i], was[i]);
    }
    Recase(k, was, now[0], was[0]);
    if lower {
      CharLower(k, text, p, to);
    } else {
      CharUpper(k, text, p, to);
    }
    Recase(k, was, text[p], was[0]);
    assert text[..p] == before && text[to..] == after;
  }

  lemma SameTail(k: Casing, s: string, t: string)
    requires s != "" && SameText(k, s, t)
    ensures SameText(k, s[1..], t[1..])
  {
    hide SameLetter;
  }

  lemma SameAsBefore(k: Casing, s: string)
    ensures SameText(k, s, s)
  {}

  /**
   Standardises the name in `text[from..to]`.  At every position it changes the case of everything that
   follows; that leaves each character in the case its own place asks for.
   */
  method StandardizeNames(k: Casing, text: array<char>, from: nat, to: nat)
    requires from <= to <= text.Length && LawfulFor(k, text[from..to])
    modifies text
    ensures text[from..to] == Title(k, old(text[from..to]))
    ensures text[..from] == old(text[..from]) && text[to..] == old(text[to..])
  {
    hide LawfulFor, SameText, Title;
    ghost var was := text[from..to];
    ghost var title := Title(k, was);
    if from == to {
      return;
    }
    SameAsBefore(k, was);
    TitleAt(k, was, 0);
    CharCase(k, text, from, to, false, was);
    SameTail(k, text[from..to], was);
    var p := from + 1;
    var lower := true;
    assert text[from..to][1..] == text[p..to] && text[from..p] == title[..1];
    while p < to
      invariant from < p <= to
      invariant text[..from] == old(text[..from]) && text[to..] == old(text[to..])
      invariant text[from..p] == title[..p - from]
      invariant SameText(k, text[p..to], was[p - from..])
      invariant p < to ==> lower == !CapitalAt(k, was, p - from)
    {
      ghost var left, done := was[p - from..], text[from..p];
      LawfulTail(k, was, p - from);
      TitleAt(k, was, p - from);
      CharCase(k, text, p, to, lower, left);
      SameTail(k, text[p..to], left);
      assert text[..p][..from] == text[..from] && text[..p][from..] == text[from..p] == done;
      assert text[from..p + 1] == done + [text[p]] == title[..p + 1 - from];
      assert text[p..to][1..] == text[p + 1..to] && left[1..] == was[p + 1 - from..];
      lower := !k.space(text[p]);
      p := p + 1;
    }
  }

  // ---------------------------------------------------------------------------------------------
  // Splitting at '+'
  // ---------------------------------------------------------------------------------------------

  predicate Plain(s: string) {
    PLUS !in s
  }

  /** How far the text goes before the next '+'. */
  function TokenEnd(s: string): (e: nat)
    ensures e <= |s| && Plain(s[..e]) && (e < |s| ==> s[e] == PLUS)
  {
    if s == "" || s[0] == PLUS then 0
    else
      var e := TokenEnd(s[1..]);
      assert s[..e + 1] == [s[0]] + s[1..][..e];
      e + 1
  }

  /** The non-empty stretches between '+' characters, as `wcstok` gives them out. */
  function Tokens(s: string): (tokens: seq<string>)
    ensures forall t :: t in tokens ==> t != "" && Plain(t)
    decreases |s|
  {
    if s == "" then []
    else if s[0] == PLUS then Tokens(s[1..])
    else
      var e := TokenEnd(s);
      [s[..e]] + Tokens(s[e..])
  }

  function Join(words: seq<string>): string {
    if words == [] then "" else if |words| == 1 then words[0] else words[0] + [PLUS] + Join(words[1..])
  }

  /** Empties a queue of words into a text, with '+' between them. */
  method JoinQueue(queue: seq<string>) returns (text: string)
    ensures text == Join(queue)
  {
    text := "";
    var words := queue;
    while words != []
      invariant text + Join(words) == Join(queue)
      decreases |words|
    {
      text := text + words[0];
      if |words| > 1 {
        text := text + [PLUS];
      }
      words := words[1..];
    }
  }

  lemma {:induction false} TokenEndIs(s: string, e: nat)
    requires e <= |s| && Plain(s[..e]) && (e < |s| ==> s[e] == PLUS)
    ensures TokenEnd(s) == e
  {
    assert e > 0 ==> s[..e][0] == s[0];
    if s != "" && s[0] != PLUS {
      assert s[1..][..e - 1] == s[..e][1..];
      TokenEndIs(s[1..], e - 1);
    }
  }

  /** Splitting takes joined words apart again. */
  lemma {:induction false} TokensOfJoin(words: seq<string>)
    requires forall w :: w in words ==> w != "" && Plain(w)
    ensures Tokens(Join(words)) == words
  {
    if words != [] {
      var w, s := words[0], Join(words);
      assert w in words;
      assert s[..|w|] == w;
      TokenEndIs(s, |w|);
      assert s[0] == w[0] && s[0] in w;
      if |words| > 1 {
        assert forall v :: v in words[1..] ==> v in words;
        TokensOfJoin(words[1..]);
        assert s[|w|..] == [PLUS] + Join(words[1..]);
        assert s[|w|..][1..] == Join(words[1..]);
      } else {
        assert s[|w|..] == "";
      }
    }
  }

  lemma JoinOfOne(word: string)
    ensures Join([word]) == word
  {}

  lemma JoinOfMore(word: string, rest: seq<string>)
    requires rest != []
    ensures Join([word] + rest) == word + [PLUS] + Join(rest)
  {
    assert ([word] + rest)[1..] == rest;
  }

  lemma {:induction false} JoinLength(words: seq<string>, name: string)
    requires forall w :: w in words ==> |w| <= 5
    ensures |Join(words + [name])| <= 6 * |words| + |name|
  {
    hide Join;
    if words == [] {
      assert words + [name] == [name];
      JoinOfOne(name);
    } else {
      var rest := words[1..];
      assert words[0] in words && forall w :: w in rest ==> w in words;
      JoinLength(rest, name);
      JoinOfMore(words[0], rest + [name]);
      assert words + [name] == [words[0]] + (rest + [name]);
    }
  }

  /** Splitting a name that plain words are joined to takes the words off, whatever the name holds. */
  lemma {:induction false} TokensOfJoinedName(words: seq<string>, name: string)
    requires forall w :: w in words ==> w != "" && Plain(w)
    ensures Tokens(Join(words + [name])) == words + Tokens(name)
  {
    hide Tokens, Plain, Join;
    if words == [] {
      assert words + [name] == [name];
      JoinOfOne(name);
    } else {
      var w, rest := words[0], words[1..];
      var s, t := Join(words + [name]), Join(rest + [name]);
      JoinOfMore(w, rest + [name]);
      assert words + [name] == [w] + (rest + [name]);
      assert w in words && forall v :: v in rest ==> v in words;
      assert s[0..] == s && s[0..|w|] == w && s[|w| + 1..] == t;
      TakeToken(s, 0, |w|);
      SkipPlus(s, |w|);
      TokensOfJoinedName(rest, name);
      assert [w] + (rest + Tokens(name)) == words + Tokens(name);
    }
  }

  /** Texts that differ in case only split in the same places. */
  lemma {:induction false} TokensIgnoreCase(k: Casing, s: string, t: string)
    requires SameText(k, s, t)
    ensures |Tokens(s)| == |Tokens(t)|
    ensures forall i :: 0 <= i < |Tokens(s)| ==> SameText(k, Tokens(s)[i], Tokens(t)[i])
    decreases |s|
  {
    if s != "" {
      assert SameLetter(k, s[0], t[0]);
      if s[0] == PLUS {
        TokensIgnoreCase(k, s[1..], t[1..]);
      } else {
        var e := TokenEnd(s);
        forall i | 0 <= i < e ensures t[i] != PLUS {
          assert SameLetter(k, s[i], t[i]) && s[i] == s[..e][i];
        }
        TokenEndIs(t, e);
        TokensIgnoreCase(k, s[e..], t[e..]);
      }
    }
  }

  lemma SkipPlus(s: string, from: nat)
    requires from < |s| && s[from] == PLUS
    ensures Tokens(s[from..]) == Tokens(s[from + 1..])
  {
    assert s[from..][1..] == s[from + 1..];
  }

  lemma TakeToken(s: string, from: nat, to: nat)
    requires from < to <= |s| && Plain(s[from..to]) && (to < |s| ==> s[to] == PLUS)
    ensures Tokens(s[from..]) == [s[from..to]] + Tokens(s[to..])
  {
    var rest := s[from..];
    assert rest[..to - from] == s[from..to] && rest[to - from..] == s[to..];
    assert s[from..to][0] == rest[0];
    TokenEndIs(rest, to - from);
  }

  predicate Only(s: string, c: char) {
    forall i :: 0 <= i < |s| ==> s[i] == c
  }

  lemma {:induction false} LeadingPlusesAreSkipped(pluses: string, rest: string)
    requires Only(pluses, PLUS)
    ensures Tokens(pluses + rest) == Tokens(rest)
  {
    hide Tokens;
    var s := pluses + rest;
    if pluses == "" {
      assert s == rest;
    } else {
      assert s[0..] == s && s[1..] == pluses[1..] + rest;
      SkipPlus(s, 0);
      LeadingPlusesAreSkipped(pluses[1..], rest);
    }
  }

  lemma NoTokens()
    ensures Tokens("") == []
  {}

  /** '+' characters around a token are dropped. */
  lemma PlusesAroundAToken(before: string, token: string, after: string)
    requires Only(before, PLUS) && token != "" && Plain(token) && Only(after, PLUS)
    ensures Tokens(before + token + after) == [token] && Tokens(after) == []
  {
    hide Tokens, Plain;
    var s := token + after;
    assert before + token + after == before + s;
    LeadingPlusesAreSkipped(before, s);
    assert s[0..] == s && s[0..|token|] == token && s[|token|..] == after;
    TakeToken(s, 0, |token|);
    assert after + "" == after;
    LeadingPlusesAreSkipped(after, "");
    NoTokens();
  }

  /** One call of `wcstok` from position `p`. */
  method NextToken(text: array<char>, p: nat) returns (found: bool, from: nat, to: nat)
    requires p <= text.Length
    ensures p <= from <= to <= text.Length
    ensures found ==> from < to && Tokens(text[p..]) == [text[from..to]] + Tokens(text[to..])
    ensures found && to < text.Length ==> text[to] == PLUS
    ensures !found ==> Tokens(text[p..]) == [] && Only(text[p..], PLUS)
  {
    hide TokenEnd, Plain;
    ghost var s := text[..];
    assert text[p..] == s[p..];
    from := p;
    while from < text.Length && text[from] == PLUS
      invariant p <= from <= text.Length
      invariant Only(s[p..from], PLUS)
      invariant Tokens(s[p..]) == Tokens(s[from..])
    {
      SkipPlus(s, from);
      assert s[p..from + 1] == s[p..from] + [PLUS];
      from := from + 1;
    }
    to := from;
    found := from < text.Length;
    if found {
      EmptyIsPlain();
      assert s[from..from] == "";
      while to < text.Length && text[to] != PLUS
        invariant from <= to <= text.Length
        invariant Plain(s[from..to])
        invariant to == from ==> text[to] != PLUS
      {
        LongerPlain(s[from..to], text[to]);
        assert s[from..to + 1] == s[from..to] + [text[to]];
        to := to + 1;
      }
      TakeToken(s, from, to);
      assert text[from..to] == s[from..to] && text[to..] == s[to..];
    } else {
      assert s[from..] == "" && text[p..] == s[p..from];
    }
  }

  lemma EmptyIsPlain()
    ensures Plain("")
  {}

  lemma LongerPlain(s: string, c: char)
    requires Plain(s) && c != PLUS
    ensures Plain(s + [c])
  {}
}
