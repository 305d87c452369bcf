/** The token interning table of `src/token/token.c`: every distinct lexeme
    is given a small dense token code in first-seen order, reserved words are
    recognised by exact spelling, and `init_token` pre-registers the symbols
    and reserved words so that each receives its table position as its code. */
module Token {
  import opened Outcomes

  type Text = seq<char>
  type Code = nat

  /** The lexeme class passed to `allocate_tc`. Only `TyConst` changes what
      interning does; every other class of the type header is `TyOther`. */
  datatype TokenType = TySymbol | TyRsvWord | TyConst | TyOther

  // Token codes of the pre-registered symbols and reserved words. The
  // `TEST_EQ` checks in `init_token` assert that each equals the position at
  // which the entry is registered; `InitTokenAssignsSymbolCodes` and
  // `InitTokenAssignsRsvwordCodes` prove it.
  const TcLF: Code := 0
  const TcComma: Code := 1
  const TcColon: Code := 2
  const TcSqBrOpn: Code := 3
  const TcSqBrCls: Code := 4
  const TcBrOpn: Code := 5
  const TcBrCls: Code := 6
  const TcLArrow: Code := 7
  const TcRArrow: Code := 8
  const TcEqu: Code := 9
  const TcPlus: Code := 10
  const TcMinus: Code := 11
  const TcAster: Code := 12
  const TcSlash: Code := 13
  const TcPerce: Code := 14
  const TcEEq: Code := 15
  const TcNEq: Code := 16
  const TcGt: Code := 17
  const TcLt: Code := 18
  const TcGe: Code := 19
  const TcLe: Code := 20
  const TcBegin: Code := 21
  const TcEnd: Code := 22
  const TcDefine: Code := 23
  const TcFunc: Code := 24
  const TcTrack: Code := 25
  const TcFilter: Code := 26
  const TcIf: Code := 27
  const TcElsif: Code := 28
  const TcElse: Code := 29
  const TcThen: Code := 30
  const TcLoop: Code := 31
  const TcAnd: Code := 32
  const TcOr: Code := 33
  const TcNot: Code := 34
  const TcOscil: Code := 35
  const TcSound: Code := 36
  const TcPrint: Code := 37
  const TcBeep: Code := 38
  const TcPlay: Code := 39
  const TcNote: Code := 40
  const TcMute: Code := 41
  const TcBpm: Code := 42
  const TcPrintwav: Code := 43
  const TcExportwav: Code := 44
  const TcImportwav: Code := 45
  const TcDefse: Code := 46
  const TcSpectrum: Code := 47
  const TcSetfs: Code := 48
  const TcMidiin: Code := 49
  const TcMidiout: Code := 50
  const TcExit: Code := 51

  datatype Symbol = Symbol(s: Text, tc: Code)

  /** A reserved word: its first spelling, its second spelling and its
      code. */
  datatype Rsvword = Rsvword(lower: Text, upper: Text, tc: Code)

  const Symbols: seq<Symbol> := [
    Symbol("\n", TcLF), Symbol(",", TcComma), Symbol(":", TcColon),
    Symbol("[", TcSqBrOpn), Symbol("]", TcSqBrCls), Symbol("(", TcBrOpn), Symbol(")", TcBrCls),
    Symbol("<-", TcLArrow), Symbol("->", TcRArrow), Symbol("=", TcEqu), Symbol("+", TcPlus),
    Symbol("-", TcMinus), Symbol("*", TcAster), Symbol("/", TcSlash), Symbol("%", TcPerce),
    Symbol("==", TcEEq), Symbol("!=", TcNEq), Symbol(">", TcGt), Symbol("<", TcLt),
    Symbol(">=", TcGe), Symbol("<=", TcLe)
  ]

  /** The reserved-word table in source order. `BEEP` is spelled in upper
      case in both columns. */
  const Rsvwords: seq<Rsvword> := [
    Rsvword("begin", "BEGIN", TcBegin),
    Rsvword("end", "END", TcEnd),
    Rsvword("define", "DEFINE", TcDefine),
    Rsvword("func", "FUNC", TcFunc),
    Rsvword("track", "TRACK", TcTrack),
    Rsvword("filter", "FILTER", TcFilter),
    Rsvword("if", "IF", TcIf),
    Rsvword("elsif", "ELSIF", TcElsif),
    Rsvword("else", "ELSE", TcElse),
    Rsvword("then", "THEN", TcThen),
    Rsvword("loop", "LOOP", TcLoop),
    Rsvword("and", "AND", TcAnd),
    Rsvword("or", "OR", TcOr),
    Rsvword("not", "NOT", TcNot),
    Rsvword("oscil", "OSCIL", TcOscil),
    Rsvword("sound", "SOUND", TcSound),
    Rsvword("print", "PRINT", TcPrint),
    Rsvword("BEEP", "BEEP", TcBeep),
    Rsvword("play", "PLAY", TcPlay),
    Rsvword("note", "NOTE", TcNote),
    Rsvword("mute", "MUTE", TcMute),
    Rsvword("bpm", "BPM", TcBpm),
    Rsvword("printwav", "PRINTWAV", TcPrintwav),
    Rsvword("exportwav", "EXPORTWAV", TcExportwav),
    Rsvword("importwav", "IMPORTWAV", TcImportwav),
    Rsvword("defse", "DEFSE", TcDefse),
    Rsvword("spectrum", "SPECTRUM", TcSpectrum),
    Rsvword("setfs", "SETFS", TcSetfs),
    Rsvword("midiin", "MIDIIN", TcMidiin),
    Rsvword("midiout", "MIDIOUT", TcMidiout),
    Rsvword("exit", "EXIT", TcExit)
  ]

  /** The oscillator wave names `init_osc_wave` registers as constants 0..4. */
  const OscNames: seq<Text> := [
    "OSC_SINE_WAVE", "OSC_SAW_WAVE", "OSC_SQUARE_WAVE", "OSC_TRIANGLE_WAVE", "OSC_WHITE_NOISE"
  ]

  /** The texts of `Symbols`, in order: what the first loop of
      `init_token` registers. Written out rather than computed from
      `Symbols`, so that the registration proofs work on a literal list of
      texts; `SymbolTextsFacts` checks that the two agree. */
  const SymbolTexts: seq<Text> := [
    "\n", ",", ":", "[", "]", "(", ")", "<-", "->", "=", "+",
    "-", "*", "/", "%", "==", "!=", ">", "<", ">=", "<="
  ]

  /** The first spelling of each entry of `Rsvwords`, in order: what the
      second loop of `init_token` registers. Written out for the same
      reason as `SymbolTexts`; `RsvLowersFacts` checks that it agrees with
      `Rsvwords`. */
  const RsvLowers: seq<Text> := [
    "begin", "end", "define", "func", "track", "filter", "if", "elsif", "else", "then",
    "loop", "and", "or", "not", "oscil", "sound", "print", "BEEP", "play", "note",
    "mute", "bpm", "printwav", "exportwav", "importwav", "defse", "spectrum", "setfs",
    "midiin", "midiout", "exit"
  ]

  /** Number of tokens `init_token` registers (the filter names registered by
      `init_filter` are not part of this model). */
  const InitCount: nat := 57

  predicate IsLetter(c: char) {
    'a' <= c <= 'z' || 'A' <= c <= 'Z'
  }

  /** Every character is a lowercase ASCII letter. */
  predicate AllLower(s: Text) {
    forall c :: c in s ==> 'a' <= c <= 'z'
  }

  /** Every character is an uppercase ASCII letter. */
  predicate AllUpper(s: Text) {
    forall c :: c in s ==> 'A' <= c <= 'Z'
  }

  // ---------------------------------------------------------------------
  // Facts about the constant tables, each checked over the literal tables
  // in a lemma of its own.

  lemma SymbolCodes()
    ensures |Symbols| == 21
    ensures forall i :: 0 <= i < |Symbols| ==> Symbols[i].tc == i
  {
  }

  /** Every symbol is one or two characters long and starts with a
      character that is not a letter. */
  lemma SymbolShapes()
    ensures forall i :: 0 <= i < |Symbols| ==> 1 <= |Symbols[i].s| <= 2 && !IsLetter(Symbols[i].s[0])
  {
  }

  lemma SymbolsDistinct()
    ensures forall i, j :: 0 <= i < j < |Symbols| ==> Symbols[i].s != Symbols[j].s
  {
  }

  lemma SymbolTextsFacts()
    ensures |SymbolTexts| == |Symbols| && forall i :: 0 <= i < |Symbols| ==> SymbolTexts[i] == Symbols[i].s
  {
  }

  lemma RsvwordCodes()
    ensures |Rsvwords| == 31
    ensures forall i :: 0 <= i < |Rsvwords| ==> Rsvwords[i].tc == |Symbols| + i
  {
    SymbolCodes();
  }

  /** Both spellings of a reserved word have the same length, at most 9. */
  lemma RsvwordShapes()
    ensures forall i :: 0 <= i < |Rsvwords| ==> 1 <= |Rsvwords[i].upper| == |Rsvwords[i].lower| <= 9
  {
  }

  /** The first spelling starts with a lowercase letter and the second with
      an uppercase one, except for `BEEP`, spelled the same in both. */
  lemma RsvwordCases()
    ensures forall i :: 0 <= i < |Rsvwords| && i != 17 ==> 'a' <= Rsvwords[i].lower[0] <= 'z'
    ensures forall i :: 0 <= i < |Rsvwords| ==> 'A' <= Rsvwords[i].upper[0] <= 'Z'
    ensures Rsvwords[17].lower == Rsvwords[17].upper == "BEEP"
  {
    RsvwordShapes();
  }

  // The spellings' letters, in two halves of the table.

  lemma RsvwordUppers0()
    ensures forall i :: 0 <= i < 16 ==> AllUpper(Rsvwords[i].upper)
  {
  }

  lemma RsvwordUppers1()
    ensures forall i :: 16 <= i < |Rsvwords| ==> AllUpper(Rsvwords[i].upper)
  {
  }

  lemma RsvwordLowers0()
    ensures forall i :: 0 <= i < 16 ==> AllLower(Rsvwords[i].lower)
  {
  }

  lemma RsvwordLowers1()
    ensures forall i :: 16 <= i < |Rsvwords| && i != 17 ==> AllLower(Rsvwords[i].lower)
  {
  }

  /** Every second spelling is all uppercase letters, and every first
      spelling all lowercase letters except for `BEEP`. */
  lemma RsvwordLetters()
    ensures forall i :: 0 <= i < |Rsvwords| ==> AllUpper(Rsvwords[i].upper)
    ensures forall i :: 0 <= i < |Rsvwords| && i != 17 ==> AllLower(Rsvwords[i].lower)
  {
    RsvwordUppers0();
    RsvwordUppers1();
    RsvwordLowers0();
    RsvwordLowers1();
  }

  lemma RsvLowersFacts()
    ensures |RsvLowers| == |Rsvwords| && forall i :: 0 <= i < |Rsvwords| ==> RsvLowers[i] == Rsvwords[i].lower
  {
  }

  // Pairwise distinctness of the 31 entries, in four slices.

  lemma RsvwordsDistinct0()
    ensures forall i, j :: 0 <= i < 8 && i < j < |Rsvwords| ==>
      Rsvwords[i].lower != Rsvwords[j].lower && Rsvwords[i].upper != Rsvwords[j].upper
  {
  }

  lemma RsvwordsDistinct1()
    ensures forall i, j :: 8 <= i < 16 && i < j < |Rsvwords| ==>
      Rsvwords[i].lower != Rsvwords[j].lower && Rsvwords[i].upper != Rsvwords[j].upper
  {
  }

  lemma RsvwordsDistinct2()
    ensures forall i, j :: 16 <= i < 24 && i < j < |Rsvwords| ==>
      Rsvwords[i].lower != Rsvwords[j].lower && Rsvwords[i].upper != Rsvwords[j].upper
  {
  }

  lemma RsvwordsDistinct3()
    ensures forall i, j :: 24 <= i < j < |Rsvwords| ==>
      Rsvwords[i].lower != Rsvwords[j].lower && Rsvwords[i].upper != Rsvwords[j].upper
  {
  }

  lemma RsvwordsDistinct()
    ensures forall i, j :: 0 <= i < |Rsvwords| && 0 <= j < |Rsvwords| && i != j ==>
      Rsvwords[i].lower != Rsvwords[j].lower && Rsvwords[i].upper != Rsvwords[j].upper
  {
    RsvwordsDistinct0();
    RsvwordsDistinct1();
    RsvwordsDistinct2();
    RsvwordsDistinct3();
  }

  lemma OscNamesFacts()
    ensures |OscNames| == 5
    ensures forall i, j :: 0 <= i < j < |OscNames| ==> OscNames[i] != OscNames[j]
    ensures forall i :: 0 <= i < |OscNames| ==> 12 <= |OscNames[i]| <= 17
  {
  }

  /** No symbol is the first spelling of a reserved word: they differ in
      their first character. */
  lemma SymbolsAreNotRsvwords()
    ensures forall i, j :: 0 <= i < |Symbols| && 0 <= j < |Rsvwords| ==> Symbols[i].s != Rsvwords[j].lower
  {
    SymbolShapes();
    RsvwordShapes();
    RsvwordCases();
  }

  /** No wave name is a symbol or a reserved word: wave names are longer. */
  lemma OscNamesAreNotListed()
    ensures forall i, j :: 0 <= i < |Symbols| && 0 <= j < |OscNames| ==> Symbols[i].s != OscNames[j]
    ensures forall i, j :: 0 <= i < |Rsvwords| && 0 <= j < |OscNames| ==> Rsvwords[i].lower != OscNames[j]
  {
    SymbolShapes();
    RsvwordShapes();
    OscNamesFacts();
  }

  // ---------------------------------------------------------------------
  // Reserved-word recognition (`get_rsvword_tc`).

  /** `s` is accepted as reserved word `w`: it has the length of the first
      spelling and equals the first spelling or the same number of leading
      characters of the second. */
  predicate Spells(w: Rsvword, s: Text) {
    |s| == |w.lower| && (s == w.lower || s <= w.upper)
  }

  /** The scan of `get_rsvword_tc` from entry `i` on: the code of the first
      entry `s` spells, or 0. */
  function RsvwordFrom(words: seq<Rsvword>, s: Text, i: nat): (tc: Code)
    requires i <= |words|
    decreases |words| - i
    ensures (forall j :: i <= j < |words| ==> !Spells(words[j], s)) ==> tc == 0
    ensures forall j :: i <= j < |words| && Spells(words[j], s) && (forall k :: i <= k < j ==> !Spells(words[k], s)) ==>
      tc == words[j].tc
  {
    if i == |words| then 0
    else if |s| != |words[i].lower| then RsvwordFrom(words, s, i + 1)
    else if words[i].lower == s then words[i].tc
    else if words[i].upper[..Min(|words[i].upper|, |s|)] == s then words[i].tc
    else RsvwordFrom(words, s, i + 1)
  }

  function Min(a: nat, b: nat): nat {
    if a <= b then a else b
  }

  /** `get_rsvword_tc`: the code of the first entry of `words` that `s`
      spells, or 0 when it spells none. */
  function RsvwordCode(words: seq<Rsvword>, s: Text): (tc: Code)
    ensures (forall j :: 0 <= j < |words| ==> !Spells(words[j], s)) ==> tc == 0
    ensures forall j :: 0 <= j < |words| && Spells(words[j], s) && (forall k :: 0 <= k < j ==> !Spells(words[k], s)) ==>
      tc == words[j].tc
  {
    RsvwordFrom(words, s, 0)
  }

  /** A reserved-word table in which every code is nonzero and no text
      spells two entries, so that 0 can mean "not a reserved word". */
  ghost predicate ProperRsvwords(words: seq<Rsvword>) {
    && (forall j :: 0 <= j < |words| ==> words[j].tc != 0)
    && (forall i, j, s :: 0 <= i < |words| && 0 <= j < |words| && Spells(words[i], s) && Spells(words[j], s) ==> i == j)
  }

  /** In a proper table the answer does not depend on the scan order: a text
      is recognised exactly when it spells an entry, as that entry's code. */
  lemma RsvwordCodeOfSpelled(words: seq<Rsvword>, s: Text)
    requires ProperRsvwords(words)
    ensures RsvwordCode(words, s) != 0 <==> exists j :: 0 <= j < |words| && Spells(words[j], s)
    ensures forall j :: 0 <= j < |words| && Spells(words[j], s) ==> RsvwordCode(words, s) == words[j].tc
  {
  }

  /** For a word whose two spellings have the same length, spelling it means
      being one of the two spellings. */
  lemma SpellsEqualLength(w: Rsvword, s: Text)
    requires |w.upper| == |w.lower|
    ensures Spells(w, s) <==> s == w.lower || s == w.upper
  {
    if |s| == |w.upper| && s <= w.upper {
      assert s == w.upper[..|s|];
    }
  }

  /** No first spelling is the second spelling of another word. */
  lemma RsvwordsCrossDistinct()
    ensures forall i, j :: 0 <= i < |Rsvwords| && 0 <= j < |Rsvwords| && i != j ==>
      Rsvwords[i].lower != Rsvwords[j].upper
  {
    RsvwordShapes();
    RsvwordCases();
    RsvwordsDistinct();
    forall i, j | 0 <= i < |Rsvwords| && 0 <= j < |Rsvwords| && i != j
      ensures Rsvwords[i].lower != Rsvwords[j].upper
    {
      if i != 17 {
        assert Rsvwords[i].lower[0] != Rsvwords[j].upper[0];
      }
    }
  }

  lemma RsvwordsProper()
    ensures ProperRsvwords(Rsvwords)
  {
    RsvwordCodes();
    RsvwordShapes();
    RsvwordsDistinct();
    RsvwordsCrossDistinct();
    forall i, j, s | 0 <= i < |Rsvwords| && 0 <= j < |Rsvwords| && Spells(Rsvwords[i], s) && Spells(Rsvwords[j], s)
      ensures i == j
    {
      SpellsEqualLength(Rsvwords[i], s);
      SpellsEqualLength(Rsvwords[j], s);
    }
  }

  /** Both spellings of every reserved word are recognised, as its own code. */
  lemma RsvwordSpellingsRecognised(j: nat)
    requires j < |Rsvwords|
    ensures RsvwordCode(Rsvwords, Rsvwords[j].lower) == Rsvwords[j].tc != 0
    ensures RsvwordCode(Rsvwords, Rsvwords[j].upper) == Rsvwords[j].tc
  {
    RsvwordShapes();
    RsvwordsProper();
    RsvwordCodeOfSpelled(Rsvwords, Rsvwords[j].lower);
    RsvwordCodeOfSpelled(Rsvwords, Rsvwords[j].upper);
    assert Spells(Rsvwords[j], Rsvwords[j].lower);
    assert Spells(Rsvwords[j], Rsvwords[j].upper);
  }

  /** Both uniform spellings are accepted, also `BEEP`. */
  lemma RsvwordExamplesAccepted()
    ensures RsvwordCode(Rsvwords, "if") == TcIf && RsvwordCode(Rsvwords, "IF") == TcIf
    ensures RsvwordCode(Rsvwords, "BEEP") == TcBeep
  {
    assert Rsvwords[6] == Rsvword("if", "IF", TcIf);
    assert Rsvwords[17] == Rsvword("BEEP", "BEEP", TcBeep);
    RsvwordSpellingsRecognised(6);
    RsvwordSpellingsRecognised(17);
  }

  /** Mixed case is rejected (`If`), and lowercase `beep` is not a reserved
      word because `BEEP` has no lowercase spelling. */
  lemma RsvwordExamplesRejected()
    ensures RsvwordCode(Rsvwords, "If") == 0
    ensures RsvwordCode(Rsvwords, "beep") == 0
  {
    RsvwordShapes();
    RsvwordCases();
    forall j | 0 <= j < |Rsvwords|
      ensures !Spells(Rsvwords[j], "If") && !Spells(Rsvwords[j], "beep")
    {
      assert "If"[0] == 'I' && "If"[1] == 'f';
      assert "beep"[0] == 'b';
      if j == 17 {
        assert "BEEP"[0] == 'B';
      }
    }
  }

  /** Recognition is case-uniform: every text recognised as a reserved word
      is one of its two spellings, so it is all lowercase or all uppercase. */
  lemma RsvwordCaseUniform(s: Text)
    requires RsvwordCode(Rsvwords, s) != 0
    ensures exists j :: 0 <= j < |Rsvwords| && (s == Rsvwords[j].lower || s == Rsvwords[j].upper)
    ensures AllLower(s) || AllUpper(s)
  {
    RsvwordsProper();
    RsvwordShapes();
    RsvwordCases();
    RsvwordLetters();
    RsvwordCodeOfSpelled(Rsvwords, s);
    var j :| 0 <= j < |Rsvwords| && Spells(Rsvwords[j], s);
    SpellsEqualLength(Rsvwords[j], s);
  }

  /** A text that mixes cases, or holds anything but letters, is never a
      reserved word. */
  lemma RsvwordMixedCaseRejected(s: Text)
    requires !AllLower(s) && !AllUpper(s)
    ensures RsvwordCode(Rsvwords, s) == 0
  {
    if RsvwordCode(Rsvwords, s) != 0 {
      RsvwordCaseUniform(s);
    }
  }

  // ---------------------------------------------------------------------
  // The table (`token_list`, `tcs`, `tcsbuf`, `tcb`).

  /** The variable slot `assign_float` writes for a token. */
  datatype Slot = Slot(ty: TokenType, value: real)

  /** `texts[c]` is the lexeme of code `c`; `|texts|` is `tcs`, the number of
      codes issued; `cap` is `MAX_TC`; `words` is the reserved-word table the
      lookup consults; `initialized` is `init_flag`. */
  datatype TokenTable = TokenTable(
    cap: nat, words: seq<Rsvword>, texts: seq<Text>, slots: seq<Slot>, initialized: bool)

  datatype Interned = Interned(table: TokenTable, tc: Code)

  /** Size of the raw text buffer `tcsbuf`. */
  function BufSize(cap: nat): nat {
    (cap + 1) * 15
  }

  /** Bytes of `tcsbuf` in use (`tcb`): each text and its terminating NUL. */
  function BufUsed(texts: seq<Text>): nat {
    if |texts| == 0 then 0 else BufUsed(texts[..|texts| - 1]) + |texts[|texts| - 1]| + 1
  }

  predicate Distinct(texts: seq<Text>) {
    forall i, j :: 0 <= i < j < |texts| ==> texts[i] != texts[j]
  }

  ghost predicate Valid(t: TokenTable) {
    && |t.slots| == |t.texts| <= t.cap
    && Distinct(t.texts)
    && BufUsed(t.texts) <= BufSize(t.cap)
  }

  /** The table before anything is registered. */
  function Empty(cap: nat): (t: TokenTable)
    ensures Valid(t) && !t.initialized && |t.texts| == 0 && t.words == Rsvwords
  {
    TokenTable(cap, Rsvwords, [], [], false)
  }

  /** `u` is a later state of `t`: same capacity, reserved words and
      initialisation flag, and every code of `t` still names its text. */
  predicate Extends(t: TokenTable, u: TokenTable) {
    u.cap == t.cap && u.words == t.words && u.initialized == t.initialized && t.texts <= u.texts
  }

  function IndexFrom(texts: seq<Text>, s: Text, i: nat): (r: Option<Code>)
    requires i <= |texts|
    requires s !in texts[..i]
    decreases |texts| - i
    ensures r.None? <==> s !in texts
    ensures r.Some? ==> r.value < |texts| && texts[r.value] == s && s !in texts[..r.value]
  {
    if i == |texts| then
      assert texts[..i] == texts;
      None
    else if texts[i] == s then Some(i)
    else
      assert texts[..i + 1] == texts[..i] + [texts[i]];
      IndexFrom(texts, s, i + 1)
  }

  /** The lookup loop of `allocate_tc`: the first code whose text equals `s`. */
  function IndexOf(texts: seq<Text>, s: Text): (r: Option<Code>)
    ensures r.None? <==> s !in texts
    ensures r.Some? ==> r.value < |texts| && texts[r.value] == s && s !in texts[..r.value]
  {
    IndexFrom(texts, s, 0)
  }

  /** `allocate_tc` answers with a reserved-word code without looking at the
      table: only once initialisation has finished. */
  predicate Reserved(t: TokenTable, s: Text) {
    t.initialized && RsvwordCode(t.words, s) != 0
  }

  /** Interning `s` reaches `append_tc`. */
  predicate Misses(t: TokenTable, s: Text) {
    !Reserved(t, s) && s !in t.texts
  }

  /** The unchecked copy into `tcsbuf` stays inside the buffer. */
  predicate Fits(t: TokenTable, s: Text) {
    Misses(t, s) && |t.texts| < t.cap ==> BufUsed(t.texts) + |s| + 1 <= BufSize(t.cap)
  }

  /** `allocate_tc`: the reserved-word code once initialised, otherwise the
      code of an equal text already in the table, otherwise a new code
      appended at the end (`append_tc`). The new slot holds the parse of the
      text for a constant and 0 for anything else. */
  function Intern(t: TokenTable, s: Text, ty: TokenType, parse: Text -> real): (r: Result<Interned>)
    requires Valid(t)
    requires Fits(t, s)
    ensures r.Error? <==> Misses(t, s) && |t.texts| >= t.cap
    ensures r.Error? ==> r.kind == TooManyTokenError
    ensures r.Ok? ==> Valid(r.value.table) && Extends(t, r.value.table) && t.slots <= r.value.table.slots
    ensures Reserved(t, s) ==> r == Ok(Interned(t, RsvwordCode(t.words, s)))
    ensures r.Ok? && !Reserved(t, s) ==>
      r.value.tc < |r.value.table.texts| && r.value.table.texts[r.value.tc] == s
    ensures r.Ok? && !Misses(t, s) ==> r.value.table == t
    ensures r.Ok? && Misses(t, s) ==>
      && r.value.tc == |t.texts|
      && r.value.table.texts == t.texts + [s]
      && r.value.table.slots == t.slots + [Slot(ty, if ty == TyConst then parse(s) else 0.0)]
  {
    if Reserved(t, s) then
      Ok(Interned(t, RsvwordCode(t.words, s)))
    else
      match IndexOf(t.texts, s)
      case Some(c) => Ok(Interned(t, c))
      case None =>
        if |t.texts| >= t.cap then Error(TooManyTokenError)
        else
          var value := if ty == TyConst then parse(s) else 0.0;
          var u := t.(texts := t.texts + [s], slots := t.slots + [Slot(ty, value)]);
          assert u.texts[..|u.texts| - 1] == t.texts;
          Ok(Interned(u, |t.texts|))
  }

  /** Interning is idempotent: the second call with the same text answers the
      same code and leaves the table as the first call left it, whatever type
      it is given. */
  lemma InternIdempotent(t: TokenTable, s: Text, ty: TokenType, ty': TokenType, parse: Text -> real)
    requires Valid(t) && Fits(t, s)
    requires Intern(t, s, ty, parse).Ok?
    ensures var i := Intern(t, s, ty, parse).value;
      Fits(i.table, s) && Intern(i.table, s, ty', parse) == Ok(i)
  {
    var i := Intern(t, s, ty, parse).value;
    assert !Misses(i.table, s);
    if !Reserved(t, s) {
      assert i.table.texts[i.tc] == s;
    }
  }

  /** Distinct texts receive distinct codes, unless one of them is answered
      as a reserved word. */
  lemma DistinctTextsDistinctCodes(t: TokenTable, a: Text, b: Text, ty: TokenType, parse: Text -> real)
    requires Valid(t) && Fits(t, a)
    requires a != b && !Reserved(t, a) && !Reserved(t, b)
    requires Intern(t, a, ty, parse).Ok?
    requires Fits(Intern(t, a, ty, parse).value.table, b)
    requires Intern(Intern(t, a, ty, parse).value.table, b, ty, parse).Ok?
    ensures Intern(t, a, ty, parse).value.tc != Intern(Intern(t, a, ty, parse).value.table, b, ty, parse).value.tc
  {
    var i1 := Intern(t, a, ty, parse).value;
    var i2 := Intern(i1.table, b, ty, parse).value;
    assert i2.table.texts[i1.tc] == i1.table.texts[i1.tc] == a;
    assert i2.table.texts[i2.tc] == b;
  }

  /** `assign_float`: overwrite the slot of code `tc`. */
  function AssignFloat(t: TokenTable, tc: Code, ty: TokenType, value: real): (u: TokenTable)
    requires tc < |t.slots|
    ensures u.texts == t.texts && Extends(t, u)
    ensures |u.slots| == |t.slots| && u.slots[tc] == Slot(ty, value)
    ensures forall c :: 0 <= c < |t.slots| && c != tc ==> u.slots[c] == t.slots[c]
  {
    t.(slots := t.slots[tc := Slot(ty, value)])
  }

  // ---------------------------------------------------------------------
  // Initialisation (`init_token`, `init_osc_wave`).

  lemma BufUsedAppend(a: seq<Text>, b: seq<Text>)
    ensures BufUsed(a + b) == BufUsed(a) + BufUsed(b)
    decreases |b|
  {
    if |b| > 0 {
      var b' := b[..|b| - 1];
      assert (a + b)[..|a + b| - 1] == a + b';
      BufUsedAppend(a, b');
    } else {
      assert a + b == a;
    }
  }

  lemma BufUsedBound(texts: seq<Text>, m: nat)
    requires forall i :: 0 <= i < |texts| ==> |texts[i]| + 1 <= m
    ensures BufUsed(texts) <= m * |texts|
    decreases |texts|
  {
    if |texts| > 0 {
      BufUsedBound(texts[..|texts| - 1], m);
    }
  }

  datatype Registered = Registered(table: TokenTable, codes: seq<Code>)

  /** Registering the first `k + 1` of `names` after `t` stays inside
      `tcsbuf`, when the `k + 1`-th still gets a code. */
  predicate FitsAfter(texts: seq<Text>, cap: nat, names: seq<Text>, k: nat)
    requires k < |names|
  {
    |texts| + k < cap ==> BufUsed(texts + names[..k + 1]) <= BufSize(cap)
  }

  /** One registration loop of `init_token`: allocate every name in order. */
  function Register(t: TokenTable, names: seq<Text>, ty: TokenType, parse: Text -> real): (r: Result<Registered>)
    requires Valid(t) && !t.initialized
    requires Distinct(t.texts + names)
    requires forall k :: 0 <= k < |names| ==> FitsAfter(t.texts, t.cap, names, k)
    decreases |names|
    ensures r.Ok? <==> |t.texts| + |names| <= t.cap
    ensures r.Error? ==> r.kind == TooManyTokenError
    ensures r.Ok? ==>
      && Valid(r.value.table) && Extends(t, r.value.table)
      && r.value.table.texts == t.texts + names
      && |r.value.codes| == |names|
      && (forall k :: 0 <= k < |names| ==> r.value.codes[k] == |t.texts| + k)
  {
    if |names| == 0 then
      assert t.texts + names == t.texts;
      Ok(Registered(t, []))
    else
      RegisterHeadMisses(t, names);
      match Intern(t, names[0], ty, parse)
      case Error(e) => Error(e)
      case Ok(i) =>
        RegisterTailFits(t, names, i.table);
        match Register(i.table, names[1..], ty, parse)
        case Error(e) => Error(e)
        case Ok(rest) =>
          RegisterCons(t, names, i, rest);
          Ok(Registered(rest.table, [i.tc] + rest.codes))
  }

  /** The first name's code followed by the rest's codes are the codes of
      the whole list, and the tables chain. */
  lemma RegisterCons(t: TokenTable, names: seq<Text>, i: Interned, rest: Registered)
    requires |names| > 0
    requires Extends(t, i.table) && i.table.texts == t.texts + [names[0]] && i.tc == |t.texts|
    requires Extends(i.table, rest.table) && rest.table.texts == i.table.texts + names[1..]
    requires |rest.codes| == |names| - 1
    requires forall k :: 0 <= k < |names| - 1 ==> rest.codes[k] == |i.table.texts| + k
    ensures Extends(t, rest.table) && rest.table.texts == t.texts + names
    ensures |[i.tc] + rest.codes| == |names|
    ensures forall k :: 0 <= k < |names| ==> ([i.tc] + rest.codes)[k] == |t.texts| + k
  {
    assert t.texts + [names[0]] + names[1..] == t.texts + names;
  }

  lemma RegisterHeadMisses(t: TokenTable, names: seq<Text>)
    requires Valid(t) && !t.initialized && |names| > 0
    requires Distinct(t.texts + names)
    requires forall k :: 0 <= k < |names| ==> FitsAfter(t.texts, t.cap, names, k)
    ensures Misses(t, names[0]) && Fits(t, names[0])
  {
    assert (t.texts + names)[|t.texts|] == names[0];
    forall i | 0 <= i < |t.texts| ensures t.texts[i] != names[0] {
      assert (t.texts + names)[i] == t.texts[i];
    }
    assert t.texts + names[..1] == t.texts + [names[0]];
    assert FitsAfter(t.texts, t.cap, names, 0);
    assert (t.texts + [names[0]])[..|t.texts|] == t.texts;
  }

  lemma RegisterTailFits(t: TokenTable, names: seq<Text>, u: TokenTable)
    requires |names| > 0 && u.cap == t.cap
    requires u.texts == t.texts + [names[0]]
    requires Distinct(t.texts + names)
    requires forall k :: 0 <= k < |names| ==> FitsAfter(t.texts, t.cap, names, k)
    ensures u.texts + names[1..] == t.texts + names
    ensures Distinct(u.texts + names[1..])
    ensures forall k :: 0 <= k < |names| - 1 ==> FitsAfter(u.texts, u.cap, names[1..], k)
  {
    assert u.texts + names[1..] == t.texts + names;
    forall k | 0 <= k < |names| - 1 ensures FitsAfter(u.texts, u.cap, names[1..], k) {
      assert u.texts + names[1..][..k + 1] == t.texts + names[..k + 2];
      assert FitsAfter(t.texts, t.cap, names, k + 1);
    }
  }

  // ---------------------------------------------------------------------
  // Oscillator waves (`init_osc_wave`).

  /** Wave `m` of the list `names` is registered as the constant `m`: the
      first code whose text is its name has a constant slot holding `m`. */
  ghost predicate WaveSet(t: TokenTable, names: seq<Text>, m: nat)
    requires m < |names|
    requires |t.slots| == |t.texts|
  {
    && IndexOf(t.texts, names[m]).Some?
    && t.slots[IndexOf(t.texts, names[m]).value] == Slot(TyConst, m as real)
  }

  lemma IndexOfStable(t: seq<Text>, u: seq<Text>, s: Text)
    requires t <= u && s in t
    ensures IndexOf(u, s) == IndexOf(t, s)
  {
    var c := IndexOf(t, s).value;
    assert u[..c] == t[..c];
  }

  lemma WaveNameFits(t: TokenTable, names: seq<Text>, k: nat)
    requires Valid(t) && k < |names|
    requires BufUsed(t.texts) + BufUsed(names[k..]) <= BufSize(t.cap)
    ensures BufUsed(t.texts) + |names[k]| + 1 + BufUsed(names[k + 1..]) <= BufSize(t.cap)
  {
    var s := names[k];
    BufUsedAppend([s], names[k + 1..]);
    assert names[k..] == [s] + names[k + 1..];
    assert [s][..0] == [];
  }

  /** One round of `init_osc_wave`, which runs before `init_flag` is set:
      intern wave name `k` as a constant, then overwrite its slot with the
      wave's number `k`. */
  function SetWave(t: TokenTable, names: seq<Text>, k: nat, parse: Text -> real): (r: Result<TokenTable>)
    requires Valid(t) && !t.initialized && k < |names|
    requires BufUsed(t.texts) + BufUsed(names[k..]) <= BufSize(t.cap)
    ensures r.Error? ==> r.kind == TooManyTokenError && names[k] !in t.texts && |t.texts| >= t.cap
    ensures r.Ok? ==>
      && Valid(r.value) && Extends(t, r.value)
      && BufUsed(r.value.texts) + BufUsed(names[k + 1..]) <= BufSize(t.cap)
  {
    WaveNameFits(t, names, k);
    match Intern(t, names[k], TyConst, parse)
    case Error(e) => Error(e)
    case Ok(i) =>
      assert i.table.texts != t.texts ==> i.table.texts[..|t.texts|] == t.texts;
      Ok(AssignFloat(i.table, i.tc, TyConst, k as real))
  }

  /** After a round, wave `k` is set and every other wave that was set
      stays set. */
  lemma SetWaveSets(t: TokenTable, names: seq<Text>, k: nat, parse: Text -> real)
    requires Valid(t) && !t.initialized && k < |names| && Distinct(names)
    requires BufUsed(t.texts) + BufUsed(names[k..]) <= BufSize(t.cap)
    requires SetWave(t, names, k, parse).Ok?
    ensures WaveSet(SetWave(t, names, k, parse).value, names, k)
    ensures forall m :: 0 <= m < |names| && m != k && WaveSet(t, names, m) ==>
      WaveSet(SetWave(t, names, k, parse).value, names, m)
  {
    var s := names[k];
    WaveNameFits(t, names, k);
    var i := Intern(t, s, TyConst, parse).value;
    var u := SetWave(t, names, k, parse).value;
    assert u == AssignFloat(i.table, i.tc, TyConst, k as real);
    assert i.table.texts[i.tc] == s;
    assert WaveSet(u, names, k);
    forall m | 0 <= m < |names| && m != k && WaveSet(t, names, m) ensures WaveSet(u, names, m) {
      var d := IndexOf(t.texts, names[m]).value;
      IndexOfStable(t.texts, u.texts, names[m]);
      assert names[m] != s;
      assert u.slots[d] == i.table.slots[d] == t.slots[d];
    }
  }

  /** A round for a wave name not yet in the table appends exactly that name,
      and fails only when the table is full. */
  lemma SetWaveFresh(t: TokenTable, names: seq<Text>, k: nat, parse: Text -> real)
    requires Valid(t) && !t.initialized && k < |names| && Distinct(names)
    requires BufUsed(t.texts) + BufUsed(names[k..]) <= BufSize(t.cap)
    requires names[k] !in t.texts
    ensures SetWave(t, names, k, parse).Ok? <==> |t.texts| < t.cap
    ensures SetWave(t, names, k, parse).Ok? ==> SetWave(t, names, k, parse).value.texts == t.texts + [names[k]]
    ensures SetWave(t, names, k, parse).Ok? ==>
      forall m :: k < m < |names| && names[m] !in t.texts ==> names[m] !in SetWave(t, names, k, parse).value.texts
  {
    WaveNameFits(t, names, k);
  }

  /** The rounds of `init_osc_wave` from wave `k` on. */
  function WavesFrom(t: TokenTable, names: seq<Text>, k: nat, parse: Text -> real): (r: Result<TokenTable>)
    requires Valid(t) && !t.initialized && k <= |names|
    requires BufUsed(t.texts) + BufUsed(names[k..]) <= BufSize(t.cap)
    decreases |names| - k
    ensures r.Error? ==> r.kind == TooManyTokenError
    ensures r.Ok? ==> Valid(r.value) && Extends(t, r.value)
  {
    if k == |names| then Ok(t)
    else
      match SetWave(t, names, k, parse)
      case Error(e) => Error(e)
      case Ok(u) => WavesFrom(u, names, k + 1, parse)
  }

  /** Every wave from `k` on ends up set, and waves already set stay set. */
  lemma {:induction false} WavesFromSets(t: TokenTable, names: seq<Text>, k: nat, parse: Text -> real)
    requires Valid(t) && !t.initialized && k <= |names| && Distinct(names)
    requires BufUsed(t.texts) + BufUsed(names[k..]) <= BufSize(t.cap)
    requires WavesFrom(t, names, k, parse).Ok?
    ensures forall m :: k <= m < |names| ==> WaveSet(WavesFrom(t, names, k, parse).value, names, m)
    ensures forall m :: 0 <= m < k && WaveSet(t, names, m) ==> WaveSet(WavesFrom(t, names, k, parse).value, names, m)
    decreases |names| - k
  {
    if k < |names| {
      var u := SetWave(t, names, k, parse).value;
      SetWaveSets(t, names, k, parse);
      WavesFromSets(u, names, k + 1, parse);
      var r := WavesFrom(u, names, k + 1, parse).value;
      assert WavesFrom(t, names, k, parse).value == r;
      forall m | 0 <= m < k && WaveSet(t, names, m) ensures WaveSet(r, names, m) {
        assert WaveSet(u, names, m);
      }
      assert WaveSet(r, names, k);
    }
  }

  /** When none of the remaining wave names is in the table, the rounds
      append them in order and fail exactly when they do not all fit. */
  lemma {:induction false} WavesFromFresh(t: TokenTable, names: seq<Text>, k: nat, parse: Text -> real)
    requires Valid(t) && !t.initialized && k <= |names| && Distinct(names)
    requires BufUsed(t.texts) + BufUsed(names[k..]) <= BufSize(t.cap)
    requires forall m :: k <= m < |names| ==> names[m] !in t.texts
    ensures WavesFrom(t, names, k, parse).Ok? <==> |t.texts| + |names| - k <= t.cap
    ensures WavesFrom(t, names, k, parse).Ok? ==> WavesFrom(t, names, k, parse).value.texts == t.texts + names[k..]
    decreases |names| - k
  {
    if k == |names| {
      assert t.texts + names[k..] == t.texts;
    } else {
      SetWaveFresh(t, names, k, parse);
      if SetWave(t, names, k, parse).Ok? {
        var u := SetWave(t, names, k, parse).value;
        WavesFromFresh(u, names, k + 1, parse);
        assert WavesFrom(t, names, k, parse) == WavesFrom(u, names, k + 1, parse);
        assert names[k..] == [names[k]] + names[k + 1..];
        assert t.texts + names[k..] == u.texts + names[k + 1..];
      }
    }
  }

  /** All the rounds over a list of distinct wave names, from the first. */
  function Waves(t: TokenTable, names: seq<Text>, parse: Text -> real): (r: Result<TokenTable>)
    requires Valid(t) && !t.initialized && Distinct(names)
    requires BufUsed(t.texts) + BufUsed(names) <= BufSize(t.cap)
    ensures r.Error? ==> r.kind == TooManyTokenError
    ensures r.Ok? ==>
      && Valid(r.value) && Extends(t, r.value)
      && (forall m :: 0 <= m < |names| ==> WaveSet(r.value, names, m))
    ensures (forall m :: 0 <= m < |names| ==> names[m] !in t.texts) ==>
      && (r.Ok? <==> |t.texts| + |names| <= t.cap)
      && (r.Ok? ==> r.value.texts == t.texts + names)
  {
    WavesFromAll(t, names, parse);
    WavesFrom(t, names, 0, parse)
  }

  lemma WavesFromAll(t: TokenTable, names: seq<Text>, parse: Text -> real)
    requires Valid(t) && !t.initialized && Distinct(names)
    requires BufUsed(t.texts) + BufUsed(names) <= BufSize(t.cap)
    ensures names[0..] == names
    ensures WavesFrom(t, names, 0, parse).Ok? ==>
      forall m :: 0 <= m < |names| ==> WaveSet(WavesFrom(t, names, 0, parse).value, names, m)
    ensures (forall m :: 0 <= m < |names| ==> names[m] !in t.texts) ==>
      && (WavesFrom(t, names, 0, parse).Ok? <==> |t.texts| + |names| <= t.cap)
      && (WavesFrom(t, names, 0, parse).Ok? ==> WavesFrom(t, names, 0, parse).value.texts == t.texts + names)
  {
    assert names[0..] == names;
    if WavesFrom(t, names, 0, parse).Ok? {
      WavesFromSets(t, names, 0, parse);
    }
    if forall m :: 0 <= m < |names| ==> names[m] !in t.texts {
      WavesFromFresh(t, names, 0, parse);
    }
  }

  /** `init_osc_wave`: each wave name is interned as a constant and its slot
      is then set to the wave's number (sine 0, saw 1, square 2, triangle 3,
      white noise 4). */
  function InitOscWave(t: TokenTable, parse: Text -> real): (r: Result<TokenTable>)
    requires Valid(t) && !t.initialized
    requires BufUsed(t.texts) + BufUsed(OscNames) <= BufSize(t.cap)
    ensures r.Error? ==> r.kind == TooManyTokenError
    ensures r.Ok? ==>
      && Valid(r.value) && Extends(t, r.value)
      && (forall m :: 0 <= m < |OscNames| ==> WaveSet(r.value, OscNames, m))
    ensures (forall m :: 0 <= m < |OscNames| ==> OscNames[m] !in t.texts) ==>
      && (r.Ok? <==> |t.texts| + |OscNames| <= t.cap)
      && (r.Ok? ==> r.value.texts == t.texts + OscNames)
  {
    OscNamesFacts();
    Waves(t, OscNames, parse)
  }

  // ---------------------------------------------------------------------
  // Initialisation (`init_token`).

  /** The distinctness and buffer obligations of the symbol phase of
      `init_token`, whatever `MAX_TC` is. */
  lemma SymbolPhaseFits(cap: nat)
    ensures Distinct(SymbolTexts)
    ensures forall k :: 0 <= k < |SymbolTexts| ==> FitsAfter([], cap, SymbolTexts, k)
  {
    SymbolShapes();
    SymbolsDistinct();
    SymbolTextsFacts();
    forall k | 0 <= k < |SymbolTexts|
      ensures FitsAfter([], cap, SymbolTexts, k)
    {
      assert [] + SymbolTexts[..k + 1] == SymbolTexts[..k + 1];
      BufUsedBound(SymbolTexts[..k + 1], 3);
    }
  }

  lemma SymbolsBeforeRsvwordsDistinct()
    ensures Distinct(SymbolTexts + RsvLowers)
  {
    SymbolsDistinct();
    SymbolTextsFacts();
    RsvLowersFacts();
    RsvwordsDistinct();
    SymbolsAreNotRsvwords();
    var all := SymbolTexts + RsvLowers;
    forall i, j | 0 <= i < j < |all| ensures all[i] != all[j] {
      if j < |SymbolTexts| {
        assert all[i] == Symbols[i].s && all[j] == Symbols[j].s;
      } else if i >= |SymbolTexts| {
        assert all[i] == Rsvwords[i - |SymbolTexts|].lower;
        assert all[j] == Rsvwords[j - |SymbolTexts|].lower;
      } else {
        assert all[i] == Symbols[i].s;
        assert all[j] == Rsvwords[j - |SymbolTexts|].lower;
      }
    }
  }

  /** The buffer obligations of the reserved-word and oscillator phases. */
  lemma RsvwordPhaseFits(cap: nat)
    ensures forall k :: 0 <= k < |RsvLowers| ==> FitsAfter(SymbolTexts, cap, RsvLowers, k)
    ensures |SymbolTexts| + |RsvLowers| <= cap ==>
      BufUsed(SymbolTexts + RsvLowers) + BufUsed(OscNames) <= BufSize(cap)
  {
    SymbolCodes();
    SymbolShapes();
    SymbolTextsFacts();
    RsvwordCodes();
    RsvwordShapes();
    RsvLowersFacts();
    OscNamesFacts();
    BufUsedBound(SymbolTexts, 3);
    BufUsedBound(RsvLowers, 10);
    BufUsedBound(OscNames, 18);
    forall k | 0 <= k < |RsvLowers|
      ensures FitsAfter(SymbolTexts, cap, RsvLowers, k)
    {
      BufUsedAppend(SymbolTexts, RsvLowers[..k + 1]);
      BufUsedBound(RsvLowers[..k + 1], 10);
    }
    BufUsedAppend(SymbolTexts, RsvLowers);
  }

  lemma OscNamesAreNew()
    ensures forall m :: 0 <= m < |OscNames| ==> OscNames[m] !in SymbolTexts + RsvLowers
  {
    SymbolTextsFacts();
    RsvLowersFacts();
    OscNamesAreNotListed();
    var all := SymbolTexts + RsvLowers;
    forall m | 0 <= m < |OscNames| ensures OscNames[m] !in all {
      forall i | 0 <= i < |all| ensures all[i] != OscNames[m] {
        if i < |SymbolTexts| {
          assert all[i] == Symbols[i].s;
        } else {
          assert all[i] == Rsvwords[i - |SymbolTexts|].lower;
        }
      }
    }
  }

  /** The three registration phases of `init_token` over given symbol and
      reserved-word lists, starting from the empty table. */
  function InitPhases(t: TokenTable, syms: seq<Text>, words: seq<Text>, parse: Text -> real): (r: Result<TokenTable>)
    requires Valid(t) && !t.initialized && t.texts == []
    requires Distinct(syms) && Distinct(syms + words)
    requires forall k :: 0 <= k < |syms| ==> FitsAfter([], t.cap, syms, k)
    requires forall k :: 0 <= k < |words| ==> FitsAfter(syms, t.cap, words, k)
    requires |syms| + |words| <= t.cap ==> BufUsed(syms + words) + BufUsed(OscNames) <= BufSize(t.cap)
    requires forall m :: 0 <= m < |OscNames| ==> OscNames[m] !in syms + words
    ensures r.Error? ==> r.kind == TooManyTokenError
    ensures r.Ok? <==> |syms| + |words| + |OscNames| <= t.cap
    ensures r.Ok? ==>
      && Valid(r.value) && Extends(t, r.value)
      && r.value.texts == syms + words + OscNames
  {
    assert t.texts + syms == syms;
    match Register(t, syms, TySymbol, parse)
    case Error(e) => Error(e)
    case Ok(s) =>
      match Register(s.table, words, TyRsvWord, parse)
      case Error(e) => Error(e)
      case Ok(w) => InitOscWave(w.table, parse)
  }

  /** `init_token`: the first call registers the symbols, then the reserved
      words in their first spelling (reserved-word recognition is still off),
      then the oscillator waves, and marks the table initialised; any later
      call changes nothing. */
  function InitToken(t: TokenTable, parse: Text -> real): (r: Result<TokenTable>)
    requires Valid(t)
    requires t.initialized || t.texts == []
    ensures t.initialized ==> r == Ok(t)
    ensures !t.initialized ==> (r.Ok? <==> t.cap >= InitCount)
    ensures r.Error? ==> r.kind == TooManyTokenError
    ensures r.Ok? ==>
      && Valid(r.value) && r.value.initialized
      && r.value.cap == t.cap && r.value.words == t.words && t.texts <= r.value.texts
    ensures r.Ok? && !t.initialized ==> r.value.texts == SymbolTexts + RsvLowers + OscNames
  {
    if t.initialized then Ok(t)
    else
      SymbolCodes();
      SymbolTextsFacts();
      RsvwordCodes();
      RsvLowersFacts();
      OscNamesFacts();
      SymbolPhaseFits(t.cap);
      SymbolsBeforeRsvwordsDistinct();
      RsvwordPhaseFits(t.cap);
      OscNamesAreNew();
      match InitPhases(t, SymbolTexts, RsvLowers, parse)
      case Error(e) => Error(e)
      case Ok(u) => Ok(u.(initialized := true))
  }

  /** After initialisation the code of every reserved word names the entry
      holding its first spelling. */
  lemma ReservedWordsFollowSymbols(texts: seq<Text>)
    requires texts == SymbolTexts + RsvLowers + OscNames
    ensures forall j :: 0 <= j < |Rsvwords| ==> Rsvwords[j].tc < |texts| && texts[Rsvwords[j].tc] == Rsvwords[j].lower
  {
    SymbolTextsFacts();
    RsvwordCodes();
    RsvLowersFacts();
    MiddleOfConcat(texts, SymbolTexts, RsvLowers, OscNames);
  }

  lemma PrefixOfConcat(texts: seq<Text>, a: seq<Text>, b: seq<Text>, c: seq<Text>)
    requires texts == a + b + c
    ensures |a| <= |texts| && texts[..|a|] == a
  {
  }

  lemma MiddleOfConcat(texts: seq<Text>, a: seq<Text>, b: seq<Text>, c: seq<Text>)
    requires texts == a + b + c
    ensures forall j :: 0 <= j < |b| ==> |a| + j < |texts| && texts[|a| + j] == b[j]
  {
  }

  /** A text already in the table, and not answered as a reserved word,
      interns to the code it already has and changes nothing. */
  lemma InternExisting(t: TokenTable, s: Text, c: Code, ty: TokenType, parse: Text -> real)
    requires Valid(t) && c < |t.texts| && t.texts[c] == s && !Reserved(t, s)
    ensures Fits(t, s) && Intern(t, s, ty, parse) == Ok(Interned(t, c))
  {
    var r := Intern(t, s, ty, parse).value;
    assert t.texts[r.tc] == s;
  }

  /** Once initialised, a reserved word interns to its reserved code and
      leaves the table as it is. */
  lemma InternReserved(t: TokenTable, s: Text, ty: TokenType, parse: Text -> real)
    requires Valid(t) && t.initialized && RsvwordCode(t.words, s) != 0
    ensures Fits(t, s) && Intern(t, s, ty, parse) == Ok(Interned(t, RsvwordCode(t.words, s)))
  {
  }

  /** No symbol spells a reserved word. */
  lemma SymbolsAreNotReserved()
    ensures forall i :: 0 <= i < |Symbols| ==> RsvwordCode(Rsvwords, Symbols[i].s) == 0
  {
    SymbolsSpellNoRsvword();
  }

  lemma SymbolsSpellNoRsvword()
    ensures forall i, j :: 0 <= i < |Symbols| && 0 <= j < |Rsvwords| ==> !Spells(Rsvwords[j], Symbols[i].s)
  {
    SymbolShapes();
    RsvwordShapes();
    RsvwordCases();
    SymbolsAreNotRsvwords();
    forall i, j | 0 <= i < |Symbols| && 0 <= j < |Rsvwords| ensures !Spells(Rsvwords[j], Symbols[i].s) {
      assert Symbols[i].s[0] != Rsvwords[j].upper[0];
    }
  }

  /** After initialisation each symbol interns to the code listed beside it:
      the symbol codes the `TEST_EQ` checks of `init_token` assert. */
  lemma InitTokenAssignsSymbolCodes(cap: nat, parse: Text -> real, u: TokenTable, ty: TokenType)
    requires InitToken(Empty(cap), parse) == Ok(u)
    ensures forall i :: 0 <= i < |Symbols| ==>
      Fits(u, Symbols[i].s) && Intern(u, Symbols[i].s, ty, parse) == Ok(Interned(u, Symbols[i].tc))
  {
    InitTokenShape(cap, parse, u);
    SymbolsInternAtTheirCodes(u, ty, parse);
  }

  /** What a first initialisation of an empty table produces. */
  lemma InitTokenShape(cap: nat, parse: Text -> real, u: TokenTable)
    requires InitToken(Empty(cap), parse) == Ok(u)
    ensures Valid(u) && u.initialized && u.words == Rsvwords
    ensures u.texts == SymbolTexts + RsvLowers + OscNames
  {
  }

  lemma SymbolsInternAtTheirCodes(u: TokenTable, ty: TokenType, parse: Text -> real)
    requires Valid(u) && u.initialized && u.words == Rsvwords
    requires u.texts == SymbolTexts + RsvLowers + OscNames
    ensures forall i :: 0 <= i < |Symbols| ==>
      Fits(u, Symbols[i].s) && Intern(u, Symbols[i].s, ty, parse) == Ok(Interned(u, Symbols[i].tc))
  {
    SymbolCodes();
    SymbolTextsFacts();
    SymbolsAreNotReserved();
    PrefixOfConcat(u.texts, SymbolTexts, RsvLowers, OscNames);
    forall i | 0 <= i < |Symbols|
      ensures Fits(u, Symbols[i].s) && Intern(u, Symbols[i].s, ty, parse) == Ok(Interned(u, Symbols[i].tc))
    {
      assert u.texts[i] == Symbols[i].s;
      InternExisting(u, Symbols[i].s, i, ty, parse);
    }
  }

  /** After initialisation both spellings of each reserved word intern to
      its listed code: the reserved-word codes the `TEST_EQ` checks of
      `init_token` assert. */
  lemma InitTokenAssignsRsvwordCodes(cap: nat, parse: Text -> real, u: TokenTable, ty: TokenType)
    requires InitToken(Empty(cap), parse) == Ok(u)
    ensures forall j :: 0 <= j < |Rsvwords| ==>
      && Fits(u, Rsvwords[j].lower) && Intern(u, Rsvwords[j].lower, ty, parse) == Ok(Interned(u, Rsvwords[j].tc))
      && Fits(u, Rsvwords[j].upper) && Intern(u, Rsvwords[j].upper, ty, parse) == Ok(Interned(u, Rsvwords[j].tc))
  {
    assert Valid(u) && u.initialized && u.words == Rsvwords;
    forall j | 0 <= j < |Rsvwords|
      ensures Fits(u, Rsvwords[j].lower) && Intern(u, Rsvwords[j].lower, ty, parse) == Ok(Interned(u, Rsvwords[j].tc))
      ensures Fits(u, Rsvwords[j].upper) && Intern(u, Rsvwords[j].upper, ty, parse) == Ok(Interned(u, Rsvwords[j].tc))
    {
      RsvwordSpellingsRecognised(j);
      InternReserved(u, Rsvwords[j].lower, ty, parse);
      InternReserved(u, Rsvwords[j].upper, ty, parse);
    }
  }

  /** Once the table is full, interning a text it does not hold fails with
      `TOO_MANY_TOKEN_ERROR`. */
  lemma FullTableRejectsNewText(t: TokenTable, s: Text, ty: TokenType, parse: Text -> real)
    requires Valid(t) && |t.texts| == t.cap
    requires s !in t.texts && !Reserved(t, s)
    ensures Fits(t, s) && Intern(t, s, ty, parse) == Error(TooManyTokenError)
  {
  }
}
