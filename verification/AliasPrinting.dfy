/** Alias files as people write them, and what `parse_aliases` of build.rs makes of them. */
module AliasPrinting {
  import opened Prelude
  import opened Sorting
  import opened AliasSyntax
  import opened AliasFile

  /** A source line with its spacing and its comment. */
  datatype SourceLine =
    | Remark(indent: string)
    | SectionLine(indent: string, section: Section, trail: string)
    | Entry(indent: string, quoted: bool, words: seq<string>, gaps: seq<string>, beforeEquals: string,
            afterEquals: string, aliases: seq<string>, arrayGaps: seq<string>, trail: string)

  datatype Written = Written(line: SourceLine, comment: Option<string>, carriage: bool)

  predicate Blank(s: string) { forall c :: c in s ==> c == ' ' || c == '\t' }

  predicate Inline(s: string) { forall c :: c in s ==> c != '\n' && c != '\r' }

  // ----- printing -----

  function KeyText(words: seq<string>, gaps: seq<string>): string
    requires words != [] && |gaps| == |words| - 1
  {
    if |words| == 1 then words[0] else words[0] + gaps[0] + KeyText(words[1..], gaps[1..])
  }

  function KeyPart(quoted: bool, key: string): string { if quoted then [QUOTE] + key + [QUOTE] else key }

  predicate Shaped(line: SourceLine) {
    line.Entry? ==> line.words != [] && |line.gaps| == |line.words| - 1 && |line.arrayGaps| == |line.aliases| + 1
  }

  function ArrayText(line: SourceLine): string
    requires line.Entry? && Shaped(line)
  {
    "[" + ArrayBody(line.aliases, line.arrayGaps) + "]"
  }

  function LeftText(line: SourceLine): string
    requires line.Entry? && Shaped(line)
  {
    KeyPart(line.quoted, KeyText(line.words, line.gaps)) + line.beforeEquals
  }

  /** The line between its indentation and its trailing space. */
  function Core(line: SourceLine): string
    requires Shaped(line)
  {
    match line
    case Remark(_) => ""
    case SectionLine(_, section, _) => if section == Tokens then "[token]" else "[phrase]"
    case Entry(_, _, _, _, _, _, _, _, _) => LeftText(line) + "=" + (line.afterEquals + ArrayText(line))
  }

  function Trail(line: SourceLine): string { if line.Remark? then "" else line.trail }

  function CommentText(comment: Option<string>): string {
    match comment case None => "" case Some(text) => "#" + text
  }

  function LineText(w: Written): string
    requires Shaped(w.line)
  {
    w.line.indent + Core(w.line) + Trail(w.line) + CommentText(w.comment)
  }

  function EndText(carriage: bool): string { if carriage then "\r\n" else "\n" }

  /** The text of a file; an open one stops without a line end behind its last line. */
  function Print(file: seq<Written>, open: bool): string
    requires forall w :: w in file ==> Shaped(w.line)
  {
    if file == [] then ""
    else if open && |file| == 1 then LineText(file[0])
    else LineText(file[0]) + EndText(file[0].carriage) + Print(file[1..], open)
  }

  // ----- which files are well formed, and what they say -----

  predicate WellFormedLine(line: SourceLine, section: Section) {
    && Shaped(line) && Blank(line.indent) && Blank(Trail(line))
    && (line.SectionLine? ==> line.section != Unset)
    && (line.Entry? ==>
          && Blank(line.beforeEquals) && Blank(line.afterEquals)
          && (forall w :: w in line.words ==> ValidToken(w))
          && (forall g :: g in line.gaps ==> g != "" && Blank(g))
          && ValidAliases(line.aliases) && line.aliases != []
          && (forall g :: g in line.arrayGaps ==> AllSeparators(g))
          && (section == Tokens ==> |line.words| == 1)
          && (section == Phrases ==> |line.words| >= 2)
          && section != Unset)
  }

  predicate WellFormedComment(comment: Option<string>) { comment.Some? ==> Inline(comment.value) }

  function NextSection(line: SourceLine, section: Section): Section {
    if line.SectionLine? then line.section else section
  }

  predicate WellFormed(file: seq<Written>, section: Section): (b: bool)
    ensures b ==> forall w :: w in file ==> Shaped(w.line)
  {
    file != [] ==>
      && WellFormedLine(file[0].line, section) && WellFormedComment(file[0].comment)
      && WellFormed(file[1..], NextSection(file[0].line, section))
      && (assert file == [file[0]] + file[1..]; true)
  }

  function MeaningOf(line: SourceLine, section: Section): Meaning
    requires WellFormedLine(line, section)
  {
    match line
    case Remark(_) => Nothing
    case SectionLine(_, next, _) => Header(next)
    case Entry(_, _, words, _, _, _, aliases, _, _) =>
      if section == Tokens then TokenLine(TokenAlias(words[0], aliases)) else PhraseLine(PhraseAlias(words, aliases))
  }

  /** The entries of a file in the order they are written. */
  function Content(file: seq<Written>, section: Section, data: AliasData): AliasData
    requires WellFormed(file, section)
  {
    if file == [] then data
    else Content(file[1..], NextSection(file[0].line, section), Absorb(data, MeaningOf(file[0].line, section)))
  }

  predicate DistinctTokens(tokens: seq<TokenAlias>) {
    forall i, j :: 0 <= i < j < |tokens| ==> tokens[i].key != tokens[j].key
  }

  predicate DistinctPhrases(phrases: seq<PhraseAlias>) {
    forall i, j :: 0 <= i < j < |phrases| ==> phrases[i].terms != phrases[j].terms
  }

  predicate DistinctKeys(data: AliasData) { DistinctTokens(data.tokens) && DistinctPhrases(data.phrases) }

  // ----- keys -----

  lemma {:induction false} TailOf<T>(s: seq<T>)
    requires s != []
    ensures s[0] in s && forall x :: x in s[1..] ==> x in s
  {
  }

  predicate KeyChars(s: string) { forall c :: c in s ==> IsTokenChar(c) || c == ' ' || c == '\t' }

  predicate GoodWords(words: seq<string>, gaps: seq<string>) {
    && words != [] && |gaps| == |words| - 1
    && (forall w :: w in words ==> ValidToken(w)) && (forall g :: g in gaps ==> g != "" && Blank(g))
  }

  predicate GoodKey(key: string) { KeyChars(key) && Solid(key) && IsTokenChar(key[0]) }

  lemma {:induction false} WordInFront(w: string, g: string, rest: string)
    requires ValidToken(w) && g != "" && Blank(g) && GoodKey(rest)
    ensures GoodKey(w + g + rest) && Words(w + g + rest, "") == [w] + Words(rest, "")
  {
    TailOf(w);
    TailOf(g);
    WordsOfWord(w, g + rest, "");
    assert w + (g + rest) == w + g + rest && "" + w == w;
    WordEnds(w, g, rest);
    WordsOfSpace(g, rest, "");
    assert Flush("") + Words(rest, "") == Words(rest, "");
  }

  lemma {:induction false} LoneWord(w: string)
    requires ValidToken(w)
    ensures GoodKey(w) && Words(w, "") == [w]
  {
    assert w[0] in w && w[|w| - 1] in w;
    WordsOfWord(w, "", "");
    assert w + "" == w && "" + w == w;
  }

  /** A key is its words with space between them; splitting gets the words back. */
  lemma {:induction false} KeySplits(words: seq<string>, gaps: seq<string>)
    requires GoodWords(words, gaps)
    ensures GoodKey(KeyText(words, gaps)) && Words(KeyText(words, gaps), "") == words
    decreases |words|
  {
    assert words[0] in words;
    if |words| == 1 {
      LoneWord(words[0]);
    } else {
      TailOf(words);
      TailOf(gaps);
      KeySplits(words[1..], gaps[1..]);
      WordInFront(words[0], gaps[0], KeyText(words[1..], gaps[1..]));
      assert [words[0]] + words[1..] == words;
    }
  }

  lemma {:induction false} KeyParses(quoted: bool, key: string)
    requires GoodKey(key)
    ensures ParseKey(KeyPart(quoted, key)) == Ok(key)
    ensures Solid(KeyPart(quoted, key)) && '=' !in KeyPart(quoted, key) && KeyPart(quoted, key)[0] != '['
    ensures Pass(KeyPart(quoted, key), OUTSIDE) == Some(OUTSIDE)
    ensures Inline(KeyPart(quoted, key))
  {
    assert key[0] != QUOTE && key[0] != '[';
    if quoted {
      var text := [QUOTE] + key + [QUOTE];
      assert text[1..|text| - 1] == key && text[1..] == key + [QUOTE];
      PassPlain(key, INSIDE);
      PassConcat(key, [QUOTE], INSIDE);
      assert Pass([QUOTE], INSIDE) == Pass([QUOTE][1..], OUTSIDE) == Some(OUTSIDE);
    } else {
      PassPlain(key, OUTSIDE);
    }
  }

  // ----- one line -----

  lemma {:induction false} SplitCore(key: string, beforeEquals: string, right: string)
    requires Solid(key) && '=' !in key && Blank(beforeEquals)
    ensures var left, core := key + beforeEquals, key + beforeEquals + "=" + right;
            && EqualsAt(core) == |left| && core[..|left|] == left && core[|left| + 1..] == right
            && Trim(left) == key && core[0] == key[0]
  {
    var left := key + beforeEquals;
    FirstEquals(left, right);
    TrimPadded("", key, beforeEquals);
    assert "" + key + beforeEquals == left;
    assert left + "=" + right == left + ("=" + right);
  }

  lemma {:induction false} EntryParts(line: SourceLine, section: Section)
    requires line.Entry? && WellFormedLine(line, section)
    ensures var left, core := LeftText(line), Core(line);
            && EqualsAt(core) == |left| && |left| < |core| && core[..|left|] == left
            && core[|left| + 1..] == line.afterEquals + ArrayText(line)
            && ParseKey(Trim(left)) == Ok(KeyText(line.words, line.gaps))
            && Solid(core) && core[0] != '['
  {
    var key, right := KeyText(line.words, line.gaps), line.afterEquals + ArrayText(line);
    KeySplits(line.words, line.gaps);
    KeyParses(line.quoted, key);
    SplitCore(KeyPart(line.quoted, key), line.beforeEquals, right);
    assert right[|right| - 1] == ']';
  }

  lemma {:induction false} EntryValue(line: SourceLine, section: Section)
    requires line.Entry? && WellFormedLine(line, section)
    ensures ParsedArray(Trim(line.afterEquals + ArrayText(line))) == Ok(line.aliases)
  {
    TrimPadded(line.afterEquals, ArrayText(line), "");
    assert line.afterEquals + ArrayText(line) + "" == line.afterEquals + ArrayText(line);
    ArrayRoundTrip(line.aliases, line.arrayGaps);
  }

  lemma {:induction false} PassThree(a: string, b: string, c: string)
    requires Pass(a, OUTSIDE) == Pass(b, OUTSIDE) == Pass(c, OUTSIDE) == Some(OUTSIDE)
    ensures Pass(a + b + c, OUTSIDE) == Some(OUTSIDE)
  {
    PassConcat(a, b, OUTSIDE);
    PassConcat(a + b, c, OUTSIDE);
  }

  /** No comment starts inside an entry, quoted keys and array strings included. */
  lemma {:induction false} EntryKept(line: SourceLine, section: Section)
    requires line.Entry? && WellFormedLine(line, section)
    ensures Pass(Core(line), OUTSIDE) == Some(OUTSIDE)
  {
    var key, body := KeyText(line.words, line.gaps), ArrayBody(line.aliases, line.arrayGaps);
    KeySplits(line.words, line.gaps);
    KeyParses(line.quoted, key);
    EscapesSpell(line.aliases, line.arrayGaps);
    ItemsOfBody(Escapes(line.aliases), line.arrayGaps, line.aliases);
    AcceptedIsKept(body, OUTSIDE, "", |body|);
    assert body[..|body|] == body;
    CoreKept(KeyPart(line.quoted, key), line.beforeEquals, line.afterEquals, body);
  }

  lemma {:induction false} CoreKept(key: string, beforeEquals: string, afterEquals: string, body: string)
    requires Pass(key, OUTSIDE) == Pass(body, OUTSIDE) == Some(OUTSIDE) && Blank(beforeEquals) && Blank(afterEquals)
    ensures Pass(key + beforeEquals + "=" + (afterEquals + ("[" + body + "]")), OUTSIDE) == Some(OUTSIDE)
  {
    var middle := beforeEquals + "=" + afterEquals + "[";
    PassPlain(middle, OUTSIDE);
    PassThree(key, middle, body);
    PassPlain("]", OUTSIDE);
    PassConcat(key + middle + body, "]", OUTSIDE);
    assert key + beforeEquals + "=" + (afterEquals + ("[" + body + "]")) == key + middle + body + "]";
  }

  /** No comment starts in a line before its own. */
  lemma {:induction false} LineKept(line: SourceLine, section: Section)
    requires WellFormedLine(line, section)
    ensures Pass(line.indent + Core(line) + Trail(line), OUTSIDE) == Some(OUTSIDE)
  {
    if line.Entry? { EntryKept(line, section); } else { PassPlain(Core(line), OUTSIDE); }
    PassPlain(line.indent, OUTSIDE);
    PassPlain(Trail(line), OUTSIDE);
    PassThree(line.indent, Core(line), Trail(line));
  }

  lemma {:induction false} LineTrimmed(line: SourceLine, section: Section)
    requires WellFormedLine(line, section)
    ensures Trim(line.indent + Core(line) + Trail(line)) == Core(line)
  {
    if line.Remark? {
      TrimWhite(line.indent + Core(line) + Trail(line));
    } else {
      if line.Entry? { EntryParts(line, section); }
      TrimPadded(line.indent, Core(line), Trail(line));
    }
  }

  /** Comment and outer space fall away; what stays is the core of the line. */
  lemma {:induction false} LineCore(w: Written, section: Section)
    requires WellFormedLine(w.line, section)
    ensures Trim(Stripped(LineText(w))) == Core(w.line)
  {
    var text := w.line.indent + Core(w.line) + Trail(w.line);
    LineKept(w.line, section);
    CommentIsStripped(text, if w.comment.Some? then w.comment.value else "");
    assert w.comment.None? ==> LineText(w) == text;
    assert w.comment.Some? ==> LineText(w) == text + "#" + w.comment.value;
    LineTrimmed(w.line, section);
  }

  lemma {:induction false} EntryInterpreted(line: SourceLine, section: Section)
    requires line.Entry? && WellFormedLine(line, section)
    ensures Interpret(KeyText(line.words, line.gaps), line.aliases, section) == Ok(MeaningOf(line, section))
  {
    KeySplits(line.words, line.gaps);
    assert ValidateAliases(line.aliases, {}) == None;
    if section == Tokens {
      assert ValidToken(line.words[0]);
    } else {
      assert ValidateAll(line.words) == None;
    }
  }

  lemma {:induction false} ParsedParts(raw: string, core: string, section: Section, i: nat, key: string,
                                       aliases: seq<string>)
    requires Trim(Stripped(raw)) == core && core != "" && core[0] != '[' && EqualsAt(core) == i && i < |core|
    requires ParseKey(Trim(core[..i])) == Ok(key) && ParsedArray(Trim(core[i + 1..])) == Ok(aliases)
    ensures ParseLine(raw, section) == Interpret(key, aliases, section)
  {
  }

  lemma {:induction false} LineMeaning(w: Written, section: Section)
    requires WellFormedLine(w.line, section)
    ensures ParseLine(LineText(w), section) == Ok(MeaningOf(w.line, section))
  {
    var line := w.line;
    LineCore(w, section);
    if line.Entry? {
      EntryParts(line, section);
      EntryValue(line, section);
      EntryInterpreted(line, section);
      ParsedParts(LineText(w), Core(line), section, |LeftText(line)|, KeyText(line.words, line.gaps), line.aliases);
    }
  }

  // ----- the whole file -----

  lemma {:induction false} EscapeInline(s: string)
    requires Inline(s)
    ensures Inline(Escape(s))
  {
    if s != [] {
      TailOf(s);
      EscapeInline(s[1..]);
    }
  }

  lemma {:induction false} BodyInline(strings: seq<string>, gaps: seq<string>)
    requires |gaps| == |strings| + 1 && (forall g :: g in gaps ==> AllSeparators(g)) && forall s :: s in strings ==>
        Inline(s)
    ensures Inline(ArrayBody(strings, gaps))
  {
    assert Inline(gaps[0]) by { assert AllSeparators(gaps[0]); }
    if strings != [] {
      EscapeInline(strings[0]);
      BodyInline(strings[1..], gaps[1..]);
    }
  }

  lemma {:induction false} EntryInline(line: SourceLine, section: Section)
    requires line.Entry? && WellFormedLine(line, section)
    ensures Inline(Core(line))
  {
    LeftInline(line, section);
    ArrayInline(line, section);
  }

  lemma {:induction false} LeftInline(line: SourceLine, section: Section)
    requires line.Entry? && WellFormedLine(line, section)
    ensures Inline(LeftText(line))
  {
    KeySplits(line.words, line.gaps);
    KeyParses(line.quoted, KeyText(line.words, line.gaps));
  }

  lemma {:induction false} ArrayInline(line: SourceLine, section: Section)
    requires line.Entry? && WellFormedLine(line, section)
    ensures Inline(ArrayText(line))
  {
    forall s | s in line.aliases ensures Inline(s) { assert ValidToken(s); }
    BodyInline(line.aliases, line.arrayGaps);
  }

  lemma {:induction false} LineInline(w: Written, section: Section)
    requires WellFormedLine(w.line, section) && WellFormedComment(w.comment)
    ensures Inline(LineText(w))
  {
    if w.line.Entry? { EntryInline(w.line, section); }
    assert Inline(Core(w.line));
  }

  lemma {:induction false} LineEndBehind(text: string, rest: string)
    requires '\n' !in text
    ensures LineEnd(text + "\n" + rest) == |text|
  {
    var all := text + "\n" + rest;
    if text != [] {
      assert all[1..] == text[1..] + "\n" + rest && all[0] == text[0];
      LineEndBehind(text[1..], rest);
    }
  }

  lemma {:induction false} FirstLine(text: string, carriage: bool, rest: string)
    requires Inline(text)
    ensures LinesOf(text + EndText(carriage) + rest) == [text] + LinesOf(rest)
  {
    var shown := text + (if carriage then "\r" else "");
    var all := text + EndText(carriage) + rest;
    assert all == shown + "\n" + rest;
    LineEndBehind(shown, rest);
    assert all[..|shown|] == shown && all[|shown| + 1..] == rest;
    assert text != [] ==> text[|text| - 1] in text;
    assert ChopReturn(shown) == text;
  }

  /** An open last line is a line of its own, or no line at all if it is empty. */
  lemma {:induction false} OpenLine(w: Written, section: Section, data: AliasData)
    requires WellFormedLine(w.line, section) && WellFormedComment(w.comment)
    ensures ParseLines(LinesOf(LineText(w)), section, data) == Ok(Absorb(data, MeaningOf(w.line, section)))
  {
    LineInline(w, section);
    LineMeaning(w, section);
    var text := LineText(w);
    if text == "" {
      TrimWhite("");
      assert Stripped("") == "" && MeaningOf(w.line, section) == Nothing;
    } else {
      assert LineEnd(text) < |text| ==> text[LineEnd(text)] in text;
      assert LinesOf(text) == [text];
      assert ParseLines([text][1..], NextSection(w.line, section), Absorb(data, MeaningOf(w.line, section))) ==
             Ok(Absorb(data, MeaningOf(w.line, section)));
    }
  }

  lemma {:induction false} ClosedLine(w: Written, rest: string, section: Section, data: AliasData)
    requires WellFormedLine(w.line, section) && WellFormedComment(w.comment)
    ensures ParseLines(LinesOf(LineText(w) + EndText(w.carriage) + rest), section, data) ==
            ParseLines(LinesOf(rest), NextSection(w.line, section), Absorb(data, MeaningOf(w.line, section)))
  {
    LineInline(w, section);
    FirstLine(LineText(w), w.carriage, rest);
    assert ([LineText(w)] + LinesOf(rest))[1..] == LinesOf(rest);
    LineMeaning(w, section);
  }

  lemma {:induction false} PrintedLines(file: seq<Written>, open: bool, section: Section, data: AliasData)
    requires WellFormed(file, section)
    ensures ParseLines(LinesOf(Print(file, open)), section, data) == Ok(Content(file, section, data))
    decreases |file|
  {
    if file != [] {
      var w, rest := file[0], file[1..];
      if open && |file| == 1 {
        OpenLine(w, section, data);
        assert Content(rest, NextSection(w.line, section), Absorb(data, MeaningOf(w.line, section))) ==
               Absorb(data, MeaningOf(w.line, section));
      } else {
        ClosedLine(w, Print(rest, open), section, data);
        PrintedLines(rest, open, NextSection(w.line, section), Absorb(data, MeaningOf(w.line, section)));
      }
    }
  }

  // ----- sorting and the duplicate check -----

  /** `less` compares by key alone. */
  ghost predicate Keyed<T(!new), K(!new)>(less: (T, T) -> bool, key: T -> K, below: (K, K) -> bool) {
    && (forall a, b :: less(a, b) <==> below(key(a), key(b)))
    && (forall k, l :: k == l || below(k, l) || below(l, k))
    && forall k :: !below(k, k)
  }

  ghost predicate TwiceAt<T, K(!new)>(key: T -> K, s: seq<T>, k: K, i: nat, j: nat) {
    i < j < |s| && key(s[i]) == k && key(s[j]) == k
  }

  ghost predicate Twice<T, K(!new)>(key: T -> K, s: seq<T>, k: K) { exists i: nat, j: nat :: TwiceAt(key, s, k, i, j) }

  /** The least of the keys that repeat. */
  ghost predicate FirstRepeated<T, K(!new)>(key: T -> K, below: (K, K) -> bool, s: seq<T>, k: K) {
    Twice(key, s, k) && forall l :: Twice(key, s, l) ==> l == k || below(k, l)
  }

  lemma {:induction false} TwiceMoves<T, K(!new)>(key: T -> K, s: seq<T>, r: seq<T>, k: K)
    requires multiset(r) == multiset(s) && Twice(key, s, k)
    ensures Twice(key, r, k)
  {
    var i: nat, j: nat :| TwiceAt(key, s, k, i, j);
    SameElements(r, s);
    if s[i] == s[j] {
      TwiceInMultiset(s, i, j);
      var a, b := TwoPlaces(r, s[i]);
      assert TwiceAt(key, r, k, a, b);
    } else {
      assert s[i] in r && s[j] in r;
      var a: nat :| a < |r| && r[a] == s[i];
      var b: nat :| b < |r| && r[b] == s[j];
      assert if a < b then TwiceAt(key, r, k, a, b) else TwiceAt(key, r, k, b, a);
    }
  }

  lemma {:induction false} TwoPlaces<T>(r: seq<T>, x: T) returns (a: nat, b: nat)
    requires multiset(r)[x] >= 2
    ensures a < b < |r| && r[a] == x && r[b] == x
  {
    assert x in multiset(r) && x in r;
    a :| a < |r| && r[a] == x;
    RemovedMultiset(r, a);
    var rest := r[..a] + r[a + 1..];
    assert x in multiset(rest) && x in rest;
    var c: nat :| c < |rest| && rest[c] == x;
    b := if c < a then c else c + 1;
    assert r[b] == x && b != a;
    if b < a { a, b := b, a; }
  }

  /** In sorted order equal keys are neighbours. */
  lemma {:induction false} NeighbourOf<T(!new), K(!new)>(less: (T, T) -> bool, key: T -> K, below: (K, K) -> bool,
                                                        r: seq<T>, k: K, i: nat, j: nat)
    requires WeakOrder(less) && Keyed(less, key, below) && Sorted(less, r) && TwiceAt(key, r, k, i, j)
    ensures key(r[i]) == key(r[i + 1])
  {
    var m := i + 1;
    assert !less(r[m], r[i]) && (m == j || !less(r[j], r[m]));
    var l := key(r[m]);
    assert l == k || below(l, k) || below(k, l);
  }

  lemma {:induction false} RepeatHasPair<T(!new), K(!new)>(less: (T, T) -> bool, key: T -> K, below: (K, K) -> bool,
                                                          s: seq<T>, r: seq<T>, k: K)
    requires WeakOrder(less) && Keyed(less, key, below) && Sorted(less, r) && multiset(r) == multiset(s)
    requires Twice(key, s, k)
    ensures exists m: nat :: PairAt(key, r, m) && key(r[m]) == k
  {
    TwiceMoves(key, s, r, k);
    var a: nat, b: nat :| TwiceAt(key, r, k, a, b);
    NeighbourOf(less, key, below, r, k, a, b);
    var m := a + 1;
    assert PairAt(key, r, m) && key(r[m]) == k;
  }

  lemma {:induction false} FirstPairLeast<T(!new), K(!new)>(less: (T, T) -> bool, key: T -> K, below: (K, K) -> bool,
                                                           r: seq<T>, i: nat, m: nat)
    requires WeakOrder(less) && Keyed(less, key, below) && Sorted(less, r) && FirstPair(key, r, i)
    requires PairAt(key, r, m)
    ensures key(r[m]) == key(r[i]) || below(key(r[i]), key(r[m]))
  {
    assert i <= m;
    if i < m { assert !less(r[m], r[i]); }
  }

  lemma {:induction false} PairIsLeastRepeated<T(!new), K(!new)>(less: (T, T) -> bool, key: T -> K,
                                                                below: (K, K) -> bool, s: seq<T>, r: seq<T>, i: nat)
    requires WeakOrder(less) && Keyed(less, key, below) && Sorted(less, r) && multiset(r) == multiset(s)
    requires FirstPair(key, r, i)
    ensures FirstRepeated(key, below, s, key(r[i]))
  {
    assert TwiceAt(key, r, key(r[i]), i - 1, i);
    TwiceMoves(key, r, s, key(r[i]));
    forall l | Twice(key, s, l)
      ensures l == key(r[i]) || below(key(r[i]), l)
    {
      NoLesserRepeat(less, key, below, s, r, i, l);
    }
  }

  lemma {:induction false} NoLesserRepeat<T(!new), K(!new)>(less: (T, T) -> bool, key: T -> K, below: (K, K) -> bool,
                                                           s: seq<T>, r: seq<T>, i: nat, l: K)
    requires WeakOrder(less) && Keyed(less, key, below) && Sorted(less, r) && multiset(r) == multiset(s)
    requires FirstPair(key, r, i) && Twice(key, s, l)
    ensures l == key(r[i]) || below(key(r[i]), l)
  {
    RepeatHasPair(less, key, below, s, r, l);
    var m: nat :| PairAt(key, r, m) && key(r[m]) == l;
    FirstPairLeast(less, key, below, r, i, m);
  }

  lemma {:induction false} NoPairNoRepeat<T(!new), K(!new)>(less: (T, T) -> bool, key: T -> K, below: (K, K) -> bool,
                                                           s: seq<T>, r: seq<T>, k: K)
    requires WeakOrder(less) && Keyed(less, key, below) && Sorted(less, r) && multiset(r) == multiset(s)
    requires forall i: nat :: !PairAt(key, r, i)
    ensures !Twice(key, s, k)
  {
    if Twice(key, s, k) { RepeatHasPair(less, key, below, s, r, k); }
  }

  /** Sorting brings equal keys side by side, so comparing neighbours finds any repetition,
      and finds the least repeated key first. */
  lemma {:induction false} NeighboursSuffice<T(!new), K(!new)>(less: (T, T) -> bool, key: T -> K,
                                                              below: (K, K) -> bool, s: seq<T>, r: seq<T>)
    requires WeakOrder(less) && Keyed(less, key, below) && Sorted(less, r) && multiset(r) == multiset(s)
    ensures RepeatedKey(key, r).Some? <==> exists k :: Twice(key, s, k)
    ensures RepeatedKey(key, r).Some? ==> FirstRepeated(key, below, s, RepeatedKey(key, r).value)
  {
    if RepeatedKey(key, r).Some? {
      var i: nat :| FirstPair(key, r, i) && key(r[i]) == RepeatedKey(key, r).value;
      PairIsLeastRepeated(less, key, below, s, r, i);
    } else {
      forall k ensures !Twice(key, s, k) { NoPairNoRepeat(less, key, below, s, r, k); }
    }
  }

  lemma {:induction false} TermsBelow()
    ensures forall a, b :: a == b || TermsLess(a, b) || TermsLess(b, a)
    ensures forall a :: !TermsLess(a, a)
  {
    forall a, b ensures a == b || TermsLess(a, b) || TermsLess(b, a) { TermsTotal(a, b); }
    forall a ensures !TermsLess(a, a) { TermsIrreflexive(a); }
  }

  lemma {:induction false} AliasKeys()
    ensures Keyed(TokenLess, TokenKey, StringLess) && Keyed(PhraseLess, PhraseKey, TermsLess)
  {
    StringOrder();
    TermsBelow();
  }

  lemma {:induction false} DistinctIsUnrepeated(data: AliasData)
    ensures DistinctTokens(data.tokens) <==> !exists k :: Twice(TokenKey, data.tokens, k)
    ensures DistinctPhrases(data.phrases) <==> !exists k :: Twice(PhraseKey, data.phrases, k)
  {
    var tokens, phrases := data.tokens, data.phrases;
    forall i: nat, j: nat | i < j < |tokens| && tokens[i].key == tokens[j].key
      ensures Twice(TokenKey, tokens, tokens[i].key)
    {
      assert TwiceAt(TokenKey, tokens, tokens[i].key, i, j);
    }
    forall i: nat, j: nat | i < j < |phrases| && phrases[i].terms == phrases[j].terms
      ensures Twice(PhraseKey, phrases, phrases[i].terms)
    {
      assert TwiceAt(PhraseKey, phrases, phrases[i].terms, i, j);
    }
  }

  /** The result names the least repeated token, or if no token repeats the least repeated phrase. */
  ghost predicate CheckedAs(data: AliasData, r: Result<AliasData, Error>) {
    if !DistinctTokens(data.tokens) then
      r.Err? && r.error.DuplicateToken? && FirstRepeated(TokenKey, StringLess, data.tokens, r.error.key)
    else if !DistinctPhrases(data.phrases) then
      r.Err? && r.error.DuplicatePhrase? && FirstRepeated(PhraseKey, TermsLess, data.phrases, r.error.terms)
    else r.Ok? && SameEntries(r.value, data)
  }

  lemma {:induction false} CheckedExactly(data: AliasData)
    ensures CheckedAs(data, SortAndCheck(data))
  {
    AliasOrders();
    AliasKeys();
    NeighboursSuffice(TokenLess, TokenKey, StringLess, data.tokens, Sort(TokenLess, data.tokens));
    NeighboursSuffice(PhraseLess, PhraseKey, TermsLess, data.phrases, Sort(PhraseLess, data.phrases));
    DistinctIsUnrepeated(data);
  }

  ghost predicate SameEntries(a: AliasData, b: AliasData) {
    multiset(a.tokens) == multiset(b.tokens) && multiset(a.phrases) == multiset(b.phrases)
  }

  const EMPTY: AliasData := AliasData([], [])

  /** Whatever the spacing, comments, quoting and line ends, a printed file parses to its own
      entries in strictly increasing key order, exactly if no key repeats; otherwise the least
      repeated token, or else the least repeated phrase, is reported. */
  lemma {:induction false} FileRoundTrip(file: seq<Written>, open: bool)
    requires WellFormed(file, Unset)
    ensures var content, r := Content(file, Unset, EMPTY), ParsedFile(Print(file, open));
            && CheckedAs(content, r) && (r.Ok? <==> DistinctKeys(content))
            && (r.Ok? ==> Increasing(TokenLess, r.value.tokens) && Increasing(PhraseLess, r.value.phrases))
  {
    PrintedLines(file, open, Unset, EMPTY);
    CheckedExactly(Content(file, Unset, EMPTY));
    if ParsedFile(Print(file, open)).Ok? { ParsedIsValid(Print(file, open)); }
  }

  // ----- one way to write given data down -----

  function CommaGaps(n: nat): seq<string> { seq(n + 1, i => if 0 < i < n then ", " else "") }

  function TokenEntry(t: TokenAlias): Written {
    Written(Entry("", false, [t.key], [], " ", " ", t.aliases, CommaGaps(|t.aliases|), ""), None, false)
  }

  function SingleSpaces(n: nat): seq<string> { if n <= 1 then [] else [" "] + SingleSpaces(n - 1) }

  function PhraseEntry(p: PhraseAlias): Written {
    Written(Entry("", true, p.terms, SingleSpaces(|p.terms|), " ", " ", p.aliases, CommaGaps(|p.aliases|), ""),
            None, false)
  }

  function Heading(section: Section): Written { Written(SectionLine("", section, ""), None, false) }

  function TokenLines(tokens: seq<TokenAlias>, rest: seq<Written>): seq<Written> {
    if tokens == [] then rest else [TokenEntry(tokens[0])] + TokenLines(tokens[1..], rest)
  }

  function PhraseLines(phrases: seq<PhraseAlias>): seq<Written> {
    if phrases == [] then [] else [PhraseEntry(phrases[0])] + PhraseLines(phrases[1..])
  }

  function PlainFile(data: AliasData): seq<Written> {
    [Heading(Tokens)] + TokenLines(data.tokens, [Heading(Phrases)] + PhraseLines(data.phrases))
  }

  lemma {:induction false} TokenLinesSay(tokens: seq<TokenAlias>, rest: seq<Written>, data: AliasData)
    requires WellFormed(rest, Tokens) && forall t :: t in tokens ==> ValidTokenAlias(t)
    ensures WellFormed(TokenLines(tokens, rest), Tokens)
    ensures Content(TokenLines(tokens, rest), Tokens, data) ==
            Content(rest, Tokens, AliasData(data.tokens + tokens, data.phrases))
    decreases |tokens|
  {
    if tokens == [] {
      assert data.tokens + tokens == data.tokens;
    } else {
      var t, file := tokens[0], TokenLines(tokens, rest);
      TailOf(tokens);
      assert ValidTokenAlias(t);
      assert WellFormedLine(TokenEntry(t).line, Tokens);
      assert file[1..] == TokenLines(tokens[1..], rest);
      TokenLinesSay(tokens[1..], rest, AliasData(data.tokens + [t], data.phrases));
      assert data.tokens + [t] + tokens[1..] == data.tokens + tokens;
    }
  }

  lemma {:induction false} SingleSpacesBlank(n: nat)
    requires n > 0
    ensures |SingleSpaces(n)| == n - 1 && forall g :: g in SingleSpaces(n) ==> g == " "
  {
    if n > 1 { SingleSpacesBlank(n - 1); }
  }

  lemma {:induction false} PhraseLinesSay(phrases: seq<PhraseAlias>, data: AliasData)
    requires forall p :: p in phrases ==> ValidPhraseAlias(p)
    ensures WellFormed(PhraseLines(phrases), Phrases)
    ensures Content(PhraseLines(phrases), Phrases, data) == AliasData(data.tokens, data.phrases + phrases)
    decreases |phrases|
  {
    if phrases == [] {
      assert data.phrases + phrases == data.phrases;
    } else {
      var p, file := phrases[0], PhraseLines(phrases);
      TailOf(phrases);
      assert ValidPhraseAlias(p);
      SingleSpacesBlank(|p.terms|);
      assert WellFormedLine(PhraseEntry(p).line, Phrases);
      assert file[1..] == PhraseLines(phrases[1..]);
      PhraseLinesSay(phrases[1..], AliasData(data.tokens, data.phrases + [p]));
      assert data.phrases + [p] + phrases[1..] == data.phrases + phrases;
    }
  }

  lemma {:induction false} PlainFileSays(data: AliasData)
    requires ValidData(data)
    ensures WellFormed(PlainFile(data), Unset) && Content(PlainFile(data), Unset, EMPTY) == data
  {
    var rest := [Heading(Phrases)] + PhraseLines(data.phrases);
    PhrasePartSays(data);
    assert [] + data.tokens == data.tokens;
    TokenLinesSay(data.tokens, rest, EMPTY);
    HeadedBy(Tokens, TokenLines(data.tokens, rest), Unset, EMPTY);
  }

  /** A heading says nothing but the section of what follows. */
  lemma {:induction false} HeadedBy(section: Section, rest: seq<Written>, before: Section, data: AliasData)
    requires section != Unset && WellFormed(rest, section)
    ensures WellFormed([Heading(section)] + rest, before)
    ensures Content([Heading(section)] + rest, before, data) == Content(rest, section, data)
  {
    assert ([Heading(section)] + rest)[1..] == rest;
  }

  lemma {:induction false} PhrasePartSays(data: AliasData)
    requires ValidData(data)
    ensures var rest := [Heading(Phrases)] + PhraseLines(data.phrases);
            WellFormed(rest, Tokens) && Content(rest, Tokens, AliasData(data.tokens, [])) == data
  {
    PhraseLinesSay(data.phrases, AliasData(data.tokens, []));
    assert [] + data.phrases == data.phrases;
    HeadedBy(Phrases, PhraseLines(data.phrases), Tokens, AliasData(data.tokens, []));
  }

  lemma {:induction false} IncreasingSorted<T(!new)>(less: (T, T) -> bool, s: seq<T>)
    requires WeakOrder(less) && Increasing(less, s)
    ensures Sorted(less, s) && NoTies(less, s)
  {
  }

  lemma {:induction false} SortedAlready<T(!new)>(less: (T, T) -> bool, s: seq<T>, r: seq<T>)
    requires WeakOrder(less) && Increasing(less, s) && Increasing(less, r) && multiset(s) == multiset(r)
    ensures s == r
  {
    IncreasingSorted(less, s);
    IncreasingSorted(less, r);
    SortedUnique(less, s, r);
  }

  lemma {:induction false} IncreasingDistinct(data: AliasData)
    requires Increasing(TokenLess, data.tokens) && Increasing(PhraseLess, data.phrases)
    ensures DistinctKeys(data)
  {
    forall i, j | 0 <= i < j < |data.tokens|
      ensures data.tokens[i].key != data.tokens[j].key
    {
      StringLessIrreflexive(data.tokens[i].key);
      assert TokenLess(data.tokens[i], data.tokens[j]);
    }
    forall i, j | 0 <= i < j < |data.phrases|
      ensures data.phrases[i].terms != data.phrases[j].terms
    {
      TermsIrreflexive(data.phrases[i].terms);
      assert PhraseLess(data.phrases[i], data.phrases[j]);
    }
  }

  /** All valid data in key order is what some text parses to; with `ParsedIsValid`, the results of
      `parse_aliases` are exactly the valid data in strictly increasing key order. */
  lemma {:induction false} DataRoundTrip(data: AliasData, open: bool)
    requires ValidData(data) && Increasing(TokenLess, data.tokens) && Increasing(PhraseLess, data.phrases)
    ensures WellFormed(PlainFile(data), Unset) && ParsedFile(Print(PlainFile(data), open)) == Ok(data)
  {
    AliasOrders();
    PlainFileSays(data);
    IncreasingDistinct(data);
    FileRoundTrip(PlainFile(data), open);
    var r := ParsedFile(Print(PlainFile(data), open)).value;
    SortedAlready(TokenLess, r.tokens, data.tokens);
    SortedAlready(PhraseLess, r.phrases, data.phrases);
  }
}
