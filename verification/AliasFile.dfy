/** `parse_aliases` of build.rs: lines, validation, sections, sorting and the duplicate check. */
module AliasFile {
  import opened Prelude
  import opened Sorting
  import opened AliasSyntax

  datatype Section = Unset | Tokens | Phrases

  datatype TokenAlias = TokenAlias(key: string, aliases: seq<string>)
  datatype PhraseAlias = PhraseAlias(terms: seq<string>, aliases: seq<string>)
  datatype AliasData = AliasData(tokens: seq<TokenAlias>, phrases: seq<PhraseAlias>)

  datatype Meaning = Nothing | Header(section: Section) | TokenLine(token: TokenAlias) | PhraseLine(phrase: PhraseAlias)

  // ----- validation -----

  predicate IsTokenChar(c: char) { 'a' <= c <= 'z' || '0' <= c <= '9' || c == '_' }

  predicate ValidToken(term: string) { term != "" && forall c :: c in term ==> IsTokenChar(c) }

  predicate HasUpper(term: string) { exists c :: c in term && 'A' <= c <= 'Z' }

  function ValidateToken(term: string): (r: Option<Error>)
    ensures r == None <==> ValidToken(term)
    ensures r == Some(EmptyTerm) <==> term == ""
    ensures r == Some(NotLowercase) <==> HasUpper(term)
    ensures r == Some(NotAToken) <==> term != "" && !HasUpper(term) && !ValidToken(term)
  {
    if term == "" then Some(EmptyTerm)
    else if HasUpper(term) then Some(NotLowercase)
    else if forall c :: c in term ==> IsTokenChar(c) then None
    else Some(NotAToken)
  }

  function ValidateAll(terms: seq<string>): (r: Option<Error>)
    ensures r == None <==> forall t :: t in terms ==> ValidToken(t)
  {
    if terms == [] then None
    else match ValidateToken(terms[0])
      case Some(e) => Some(e)
      case None => ValidateAll(terms[1..])
  }

  predicate ValidAliases(aliases: seq<string>) {
    && (forall a :: a in aliases ==> ValidToken(a))
    && forall i, j :: 0 <= i < j < |aliases| ==> aliases[i] != aliases[j]
  }

  function ValidateAliases(aliases: seq<string>, seen: set<string>): (r: Option<Error>)
    ensures r == None <==> ValidAliases(aliases) && forall a :: a in aliases ==> a !in seen
  {
    if aliases == [] then None
    else match ValidateToken(aliases[0])
      case Some(e) => Some(e)
      case None =>
        if aliases[0] in seen then Some(DuplicateAlias)
        else ValidateAliases(aliases[1..], seen + {aliases[0]})
  }

  predicate IsAsciiSpace(c: char) { c == ' ' || c == '\t' || c == '\n' || c == '\U{0C}' || c == '\r' }

  function Flush(word: string): seq<string> { if word == "" then [] else [word] }

  /** `split_ascii_whitespace`, with the word read so far. */
  function Words(s: string, word: string): seq<string> {
    if s == [] then Flush(word)
    else if IsAsciiSpace(s[0]) then Flush(word) + Words(s[1..], "")
    else Words(s[1..], word + [s[0]])
  }

  function ValidatePhrase(phrase: string): Option<Error> {
    if |Words(phrase, "")| < 2 then Some(ShortPhrase) else ValidateAll(Words(phrase, ""))
  }

  // ----- one line -----

  function ParseKey(key: string): Result<string, Error> {
    if key != [] && key[0] == QUOTE then
      if key[|key| - 1] != QUOTE || |key| < 2 then Err(UnterminatedKey) else Ok(key[1..|key| - 1])
    else if key == [] then Err(EmptyKey)
    else Ok(key)
  }

  /** Position of the first `=`, or the length of the line. */
  function EqualsAt(s: string): (i: nat)
    ensures i <= |s| && '=' !in s[..i] && (i < |s| ==> s[i] == '=')
  {
    if s == [] || s[0] == '=' then 0
    else
      var i := 1 + EqualsAt(s[1..]);
      assert s[..i] == [s[0]] + s[1..][..i - 1];
      i
  }

  function Interpret(key: string, aliases: seq<string>, section: Section): Result<Meaning, Error> {
    match ValidateAliases(aliases, {})
    case Some(e) => Err(e)
    case None =>
      match section
      case Unset => Err(NoSection)
      case Tokens =>
        (match ValidateToken(key) case Some(e) => Err(e) case None => Ok(TokenLine(TokenAlias(key, aliases))))
      case Phrases =>
        (match ValidatePhrase(key) case Some(e) => Err(e) case None => Ok(PhraseLine(PhraseAlias(Words(key, ""),
            aliases))))
  }

  function ParseLine(raw: string, section: Section): Result<Meaning, Error> {
    var line := Trim(Stripped(raw));
    if line == "" then Ok(Nothing)
    else if line == "[token]" then Ok(Header(Tokens))
    else if line == "[phrase]" then Ok(Header(Phrases))
    else
      var i := EqualsAt(line);
      if i == |line| then Err(ExpectedAssignment)
      else match ParseKey(Trim(line[..i]))
        case Err(e) => Err(e)
        case Ok(key) =>
          match ParsedArray(Trim(line[i + 1..]))
          case Err(e) => Err(e)
          case Ok(aliases) => Interpret(key, aliases, section)
  }

  // ----- the whole text -----

  function LineEnd(s: string): (i: nat)
    ensures i <= |s| && '\n' !in s[..i] && (i < |s| ==> s[i] == '\n')
  {
    if s == [] || s[0] == '\n' then 0
    else
      var i := 1 + LineEnd(s[1..]);
      assert s[..i] == [s[0]] + s[1..][..i - 1];
      i
  }

  function ChopReturn(s: string): string { if s != [] && s[|s| - 1] == '\r' then s[..|s| - 1] else s }

  /** `str::lines` */
  function LinesOf(text: string): seq<string>
    decreases |text|
  {
    if text == [] then []
    else
      var i := LineEnd(text);
      if i == |text| then [text] else [ChopReturn(text[..i])] + LinesOf(text[i + 1..])
  }

  function Absorb(data: AliasData, m: Meaning): AliasData {
    match m
    case TokenLine(t) => data.(tokens := data.tokens + [t])
    case PhraseLine(p) => data.(phrases := data.phrases + [p])
    case _ => data
  }

  function SectionAfter(section: Section, m: Meaning): Section { if m.Header? then m.section else section }

  function ParseLines(lines: seq<string>, section: Section, data: AliasData): Result<AliasData, Error> {
    if lines == [] then Ok(data)
    else match ParseLine(lines[0], section)
      case Err(e) => Err(e)
      case Ok(m) => ParseLines(lines[1..], SectionAfter(section, m), Absorb(data, m))
  }

  // ----- sorting -----

  predicate TokenLess(a: TokenAlias, b: TokenAlias) { StringLess(a.key, b.key) }

  predicate TermsLess(a: seq<string>, b: seq<string>) {
    if b == [] then false
    else if a == [] then true
    else if a[0] != b[0] then StringLess(a[0], b[0])
    else TermsLess(a[1..], b[1..])
  }

  predicate PhraseLess(a: PhraseAlias, b: PhraseAlias) { TermsLess(a.terms, b.terms) }

  lemma {:induction false} TermsIrreflexive(a: seq<string>)
    ensures !TermsLess(a, a)
  {
    if a != [] { TermsIrreflexive(a[1..]); }
  }

  lemma {:induction false} TermsTotal(a: seq<string>, b: seq<string>)
    ensures a == b || TermsLess(a, b) || TermsLess(b, a)
  {
    StringOrder();
    if a != [] && b != [] && a[0] == b[0] {
      TermsTotal(a[1..], b[1..]);
      assert a == [a[0]] + a[1..] && b == [b[0]] + b[1..];
    }
  }

  lemma {:induction false} TermsTransitive(a: seq<string>, b: seq<string>, c: seq<string>)
    requires TermsLess(a, b) && TermsLess(b, c)
    ensures TermsLess(a, c)
  {
    StringOrder();
    if a != [] && a[0] == b[0] == c[0] { TermsTransitive(a[1..], b[1..], c[1..]); }
  }

  lemma {:induction false} AliasOrders()
    ensures WeakOrder(TokenLess) && WeakOrder(PhraseLess)
    ensures forall a: TokenAlias, b: TokenAlias :: a.key == b.key || TokenLess(a, b) || TokenLess(b, a)
    ensures forall a: PhraseAlias, b: PhraseAlias :: a.terms == b.terms || PhraseLess(a, b) || PhraseLess(b, a)
  {
    StringOrder();
    forall a ensures !TermsLess(a, a) { TermsIrreflexive(a); }
    forall a, b ensures a == b || TermsLess(a, b) || TermsLess(b, a) { TermsTotal(a, b); }
    forall a, b, c | TermsLess(a, b) && TermsLess(b, c) ensures TermsLess(a, c) { TermsTransitive(a, b, c); }
    assert forall a, b, c :: !TermsLess(a, b) && !TermsLess(b, c) && TermsLess(a, c) ==>
                               a != b && b != c && TermsLess(b, a);
  }

  function TokenKey(t: TokenAlias): string { t.key }

  function PhraseKey(p: PhraseAlias): seq<string> { p.terms }

  ghost predicate PairAt<T, K(!new)>(key: T -> K, s: seq<T>, i: nat) { 0 < i < |s| && key(s[i - 1]) == key(s[i]) }

  /** The first neighbours of equal key. */
  ghost predicate FirstPair<T, K(!new)>(key: T -> K, s: seq<T>, i: nat) {
    PairAt(key, s, i) && forall j: nat :: j < i ==> !PairAt(key, s, j)
  }

  /** The key of the first window of two that holds it twice. */
  function RepeatedKey<T, K(==,!new)>(key: T -> K, s: seq<T>): (r: Option<K>)
    ensures r == None ==> forall i: nat :: !PairAt(key, s, i)
    ensures r.Some? ==> exists i: nat :: FirstPair(key, s, i) && key(s[i]) == r.value
  {
    if |s| < 2 then None
    else if key(s[0]) == key(s[1]) then
      assert FirstPair(key, s, 1);
      Some(key(s[0]))
    else
      var r := RepeatedKey(key, s[1..]);
      LaterPair(key, s, r);
      r
  }

  lemma {:induction false} PairMoves<T, K(!new)>(key: T -> K, s: seq<T>, i: nat)
    requires |s| > 1 && key(s[0]) != key(s[1])
    ensures PairAt(key, s, i) <==> i > 0 && PairAt(key, s[1..], i - 1)
  {
  }

  lemma {:induction false} LaterPair<T, K(!new)>(key: T -> K, s: seq<T>, r: Option<K>)
    requires |s| > 1 && key(s[0]) != key(s[1])
    requires r == None ==> forall i: nat :: !PairAt(key, s[1..], i)
    requires r.Some? ==> exists i: nat :: FirstPair(key, s[1..], i) && key(s[1..][i]) == r.value
    ensures r == None ==> forall i: nat :: !PairAt(key, s, i)
    ensures r.Some? ==> exists i: nat :: FirstPair(key, s, i) && key(s[i]) == r.value
  {
    forall i: nat ensures PairAt(key, s, i) <==> i > 0 && PairAt(key, s[1..], i - 1) { PairMoves(key, s, i); }
    if r.Some? {
      var i: nat :| FirstPair(key, s[1..], i) && key(s[1..][i]) == r.value;
      assert FirstPair(key, s, i + 1) && key(s[i + 1]) == r.value;
    }
  }

  function SortAndCheck(data: AliasData): Result<AliasData, Error> {
    AliasOrders();
    var tokens, phrases := Sort(TokenLess, data.tokens), Sort(PhraseLess, data.phrases);
    match RepeatedKey(TokenKey, tokens)
    case Some(key) => Err(DuplicateToken(key))
    case None =>
      match RepeatedKey(PhraseKey, phrases)
      case Some(terms) => Err(DuplicatePhrase(terms))
      case None => Ok(AliasData(tokens, phrases))
  }

  function ParsedFile(text: string): Result<AliasData, Error> {
    match ParseLines(LinesOf(text), Unset, AliasData([], []))
    case Err(e) => Err(e)
    case Ok(data) => SortAndCheck(data)
  }

  method ParseAliases(text: string) returns (r: Result<AliasData, Error>)
    ensures r == ParsedFile(text)
  {
    var data, section, lines := AliasData([], []), Unset, LinesOf(text);
    for idx := 0 to |lines|
      invariant ParseLines(lines, Unset, AliasData([], [])) == ParseLines(lines[idx..], section, data)
    {
      assert lines[idx..][1..] == lines[idx + 1..];
      var parsed := ParseLine(lines[idx], section);
      if parsed.Err? {
        return Err(parsed.error);
      }
      section, data := SectionAfter(section, parsed.value), Absorb(data, parsed.value);
    }
    r := SortAndCheck(data);
  }

  // ----- exactly what is refused, and how -----

  /** `i` is the first of the terms that is no token, and `e` says why. */
  ghost predicate FirstBadTerm(terms: seq<string>, i: nat, e: Error) {
    i < |terms| && ValidateToken(terms[i]) == Some(e) && forall j :: 0 <= j < i ==> ValidToken(terms[j])
  }

  lemma {:induction false} FirstBadTermLater(terms: seq<string>, i: nat, e: Error)
    requires terms != [] && ValidToken(terms[0])
    ensures FirstBadTerm(terms, i + 1, e) <==> FirstBadTerm(terms[1..], i, e)
  {
    assert forall j :: 0 <= j < |terms| - 1 ==> terms[1..][j] == terms[j + 1];
  }

  lemma {:induction false} TermsRefused(terms: seq<string>, e: Error)
    ensures ValidateAll(terms) == Some(e) <==> exists i :: FirstBadTerm(terms, i, e)
  {
    if terms != [] {
      if ValidToken(terms[0]) {
        TermsRefused(terms[1..], e);
        if i: nat :| FirstBadTerm(terms[1..], i, e) { FirstBadTermLater(terms, i, e); }
        if i: nat :| FirstBadTerm(terms, i, e) {
          assert i > 0;
          FirstBadTermLater(terms, i - 1, e);
        }
      } else {
        assert ValidateToken(terms[0]) == Some(e) ==> FirstBadTerm(terms, 0, e);
        if i: nat :| FirstBadTerm(terms, i, e) { assert i == 0; }
      }
    }
  }

  /** `i` is the first alias that is no token or stands before it already, and `e` says which. */
  ghost predicate FirstBadAlias(aliases: seq<string>, seen: set<string>, i: nat, e: Error) {
    && i < |aliases|
    && (forall j :: 0 <= j < i ==> ValidToken(aliases[j]) && aliases[j] !in seen && aliases[j] !in aliases[..j])
    && if ValidToken(aliases[i]) then (aliases[i] in seen || aliases[i] in aliases[..i]) && e == DuplicateAlias
       else ValidateToken(aliases[i]) == Some(e)
  }

  lemma {:induction false} AliasesRefusedLater(aliases: seq<string>, seen: set<string>, i: nat, e: Error)
    requires aliases != [] && ValidToken(aliases[0]) && aliases[0] !in seen
    ensures FirstBadAlias(aliases, seen, i + 1, e) <==> FirstBadAlias(aliases[1..], seen + {aliases[0]}, i, e)
  {
    var rest := aliases[1..];
    forall j | 0 <= j < |rest|
      ensures rest[j] == aliases[j + 1]
      ensures aliases[j + 1] in aliases[..j + 1] <==> aliases[j + 1] == aliases[0] || rest[j] in rest[..j]
    {
      assert aliases[..j + 1] == [aliases[0]] + rest[..j];
    }
    assert aliases[0] !in aliases[..0];
    if FirstBadAlias(rest, seen + {aliases[0]}, i, e) {
      forall j | 0 <= j < i + 1
        ensures ValidToken(aliases[j]) && aliases[j] !in seen && aliases[j] !in aliases[..j]
      {
        if j > 0 { assert rest[j - 1] == aliases[j]; }
      }
    }
    if FirstBadAlias(aliases, seen, i + 1, e) {
      forall j | 0 <= j < i
        ensures ValidToken(rest[j]) && rest[j] !in seen + {aliases[0]} && rest[j] !in rest[..j]
      {
        assert rest[j] == aliases[j + 1];
      }
    }
  }

  lemma {:induction false} AliasesRefused(aliases: seq<string>, seen: set<string>, e: Error)
    ensures ValidateAliases(aliases, seen) == Some(e) <==> exists i :: FirstBadAlias(aliases, seen, i, e)
  {
    if aliases != [] {
      if ValidToken(aliases[0]) && aliases[0] !in seen {
        AliasesRefused(aliases[1..], seen + {aliases[0]}, e);
        if i: nat :| FirstBadAlias(aliases[1..], seen + {aliases[0]}, i, e) {
          AliasesRefusedLater(aliases, seen, i, e);
        }
        if i: nat :| FirstBadAlias(aliases, seen, i, e) {
          assert i > 0;
          AliasesRefusedLater(aliases, seen, i - 1, e);
        }
      } else {
        assert ValidateAliases(aliases, seen) == Some(e) ==> FirstBadAlias(aliases, seen, 0, e);
        if i: nat :| FirstBadAlias(aliases, seen, i, e) { assert i == 0; }
      }
    }
  }

  /** What an entry means under each section once its key and its aliases are read. */
  lemma {:induction false} EntryMeans(key: string, aliases: seq<string>, section: Section)
    ensures var r := Interpret(key, aliases, section);
            && (forall e :: ValidateAliases(aliases, {}) == Some(e) ==> r == Err(e))
            && (ValidAliases(aliases) ==>
                  && (section == Unset ==> r == Err(NoSection))
                  && (section == Tokens ==>
                        if ValidToken(key) then r == Ok(TokenLine(TokenAlias(key, aliases)))
                        else r == Err(ValidateToken(key).value))
                  && (section == Phrases ==>
                        var terms := Words(key, "");
                        if |terms| < 2 then r == Err(ShortPhrase)
                        else if forall t :: t in terms ==> ValidToken(t) then
                          r == Ok(PhraseLine(PhraseAlias(terms, aliases)))
                        else r == Err(ValidateAll(terms).value)))
  {
  }

  /** The first `=` of a line stands between these parts. */
  ghost predicate Assigns(line: string, left: string, right: string) { line == left + "=" + right && '=' !in left }

  lemma {:induction false} FirstEquals(left: string, right: string)
    requires '=' !in left
    ensures EqualsAt(left + "=" + right) == |left|
  {
    var text := left + "=" + right;
    if left != [] {
      assert text[1..] == left[1..] + "=" + right && text[0] == left[0];
      FirstEquals(left[1..], right);
    }
  }

  /** The key is written in quotes, or bare. */
  ghost predicate Names(text: string, key: string) {
    text == [QUOTE] + key + [QUOTE] || (text == key && key != "" && key[0] != QUOTE)
  }

  lemma {:induction false} KeyMeans(text: string)
    ensures text == "" <==> ParseKey(text) == Err(EmptyKey)
    ensures text != "" && text[0] == QUOTE && (|text| == 1 || text[|text| - 1] != QUOTE) <==>
            ParseKey(text) == Err(UnterminatedKey)
    ensures forall key :: Names(text, key) <==> ParseKey(text) == Ok(key)
  {
    forall key
      ensures Names(text, key) <==> ParseKey(text) == Ok(key)
    {
      if text == [QUOTE] + key + [QUOTE] { assert text[1..|text| - 1] == key; }
      if ParseKey(text) == Ok(key) && text[0] == QUOTE { assert text == [QUOTE] + text[1..|text| - 1] + [QUOTE]; }
    }
  }

  ghost predicate IsPlainLine(line: string) { line == "" || line == "[token]" || line == "[phrase]" }

  lemma {:induction false} EqualsIsFirst(line: string, left: string, right: string)
    requires Assigns(line, left, right)
    ensures EqualsAt(line) == |left| < |line| && line[..|left|] == left && line[|left| + 1..] == right
    ensures !IsPlainLine(line)
  {
    FirstEquals(left, right);
    assert line[|left|] == '=' && '=' in line;
  }

  /** A line with an `=` is refused for its key, then for its array, then for what they say. */
  lemma {:induction false} AssignmentOutcome(raw: string, section: Section, left: string, right: string)
    requires Assigns(Trim(Stripped(raw)), left, right)
    ensures var k, parsed, r := Trim(left), ParsedArray(Trim(right)), ParseLine(raw, section);
            && (k == "" ==> r == Err(EmptyKey))
            && (k != "" && k[0] == QUOTE && (|k| == 1 || k[|k| - 1] != QUOTE) ==> r == Err(UnterminatedKey))
            && (forall key :: Names(k, key) && parsed.Err? ==> r == Err(parsed.error))
            && (forall key :: Names(k, key) && parsed.Ok? ==> r == Interpret(key, parsed.value, section))
  {
    EqualsIsFirst(Trim(Stripped(raw)), left, right);
    KeyMeans(Trim(left));
  }

  /** A line without an `=` is blank, a section header, or refused for that. */
  lemma {:induction false} PlainOutcome(raw: string, section: Section)
    requires '=' !in Trim(Stripped(raw))
    ensures var line, r := Trim(Stripped(raw)), ParseLine(raw, section);
            && (line == "" ==> r == Ok(Nothing))
            && (line == "[token]" ==> r == Ok(Header(Tokens))) && (line == "[phrase]" ==> r == Ok(Header(Phrases)))
            && (!IsPlainLine(line) ==> r == Err(ExpectedAssignment))
  {
    NoEquals(Trim(Stripped(raw)));
  }

  lemma {:induction false} NoEquals(line: string)
    requires '=' !in line
    ensures EqualsAt(line) == |line|
  {
    if line != [] {
      assert line[0] in line && forall c :: c in line[1..] ==> c in line;
      NoEquals(line[1..]);
    }
  }

  /** The section a line stands under: that of the last header before it. */
  function SectionAt(lines: seq<string>, i: nat, section: Section): Section
    requires i <= |lines|
  {
    if i == 0 then section
    else if Trim(Stripped(lines[i - 1])) == "[token]" then Tokens
    else if Trim(Stripped(lines[i - 1])) == "[phrase]" then Phrases
    else SectionAt(lines, i - 1, section)
  }

  lemma {:induction false} SectionLater(lines: seq<string>, i: nat, section: Section)
    requires i < |lines|
    ensures SectionAt(lines, i + 1, section) == SectionAt(lines[1..], i, SectionAt(lines, 1, section))
  {
    if i > 0 { SectionLater(lines, i - 1, section); }
  }

  lemma {:induction false} SectionOfLine(raw: string, section: Section)
    requires ParseLine(raw, section).Ok?
    ensures SectionAfter(section, ParseLine(raw, section).value) == SectionAt([raw], 1, section)
  {
  }

  /** Line `i` is the first that is refused. */
  ghost predicate FirstBadLine(lines: seq<string>, section: Section, i: nat, e: Error) {
    && i < |lines| && ParseLine(lines[i], SectionAt(lines, i, section)) == Err(e)
    && forall j :: 0 <= j < i ==> ParseLine(lines[j], SectionAt(lines, j, section)).Ok?
  }

  /** A line of the rest is read as it is in the whole. */
  lemma {:induction false} LineLater(lines: seq<string>, section: Section, j: nat)
    requires j + 1 < |lines|
    ensures ParseLine(lines[1..][j], SectionAt(lines[1..], j, SectionAt(lines, 1, section))) ==
            ParseLine(lines[j + 1], SectionAt(lines, j + 1, section))
  {
    SectionLater(lines, j, section);
  }

  lemma {:induction false} BadLineLater(lines: seq<string>, section: Section, i: nat, e: Error)
    requires lines != [] && ParseLine(lines[0], section).Ok?
    ensures FirstBadLine(lines, section, i + 1, e) <==> FirstBadLine(lines[1..], SectionAt(lines, 1, section), i, e)
  {
    var rest, after := lines[1..], SectionAt(lines, 1, section);
    if i < |rest| { LineLater(lines, section, i); }
    if FirstBadLine(rest, after, i, e) {
      forall j | 0 <= j < i + 1
        ensures ParseLine(lines[j], SectionAt(lines, j, section)).Ok?
      {
        if j > 0 { LineLater(lines, section, j - 1); }
      }
    }
    if FirstBadLine(lines, section, i + 1, e) {
      forall j | 0 <= j < i
        ensures ParseLine(rest[j], SectionAt(rest, j, after)).Ok?
      {
        LineLater(lines, section, j);
      }
    }
  }

  /** Lines are refused for the first bad one, read under the section of the last header before it. */
  lemma {:induction false} LinesRefused(lines: seq<string>, section: Section, data: AliasData, e: Error)
    ensures ParseLines(lines, section, data) == Err(e) <==> exists i :: FirstBadLine(lines, section, i, e)
  {
    if lines != [] {
      var m := ParseLine(lines[0], section);
      assert SectionAt(lines, 0, section) == section;
      if m.Ok? {
        SectionOfLine(lines[0], section);
        assert SectionAt(lines, 1, section) == SectionAt([lines[0]], 1, section);
        LinesRefused(lines[1..], SectionAfter(section, m.value), Absorb(data, m.value), e);
        if i: nat :| FirstBadLine(lines[1..], SectionAt(lines, 1, section), i, e) {
          BadLineLater(lines, section, i, e);
        }
        if i: nat :| FirstBadLine(lines, section, i, e) {
          assert i > 0;
          BadLineLater(lines, section, i - 1, e);
        }
      } else {
        assert m == Err(e) ==> FirstBadLine(lines, section, 0, e);
        if i: nat :| FirstBadLine(lines, section, i, e) { assert i == 0; }
      }
    }
  }

  /** A file is refused for its first bad line, whatever follows. */
  lemma {:induction false} FileRefused(text: string, i: nat, e: Error)
    requires FirstBadLine(LinesOf(text), Unset, i, e)
    ensures ParsedFile(text) == Err(e)
  {
    LinesRefused(LinesOf(text), Unset, AliasData([], []), e);
  }

  // ----- splitting a key into words -----

  predicate Spaced(g: string) { forall c :: c in g ==> IsAsciiSpace(c) }

  predicate Solidly(w: string) { w != "" && forall c :: c in w ==> !IsAsciiSpace(c) }

  /** Words with space before each and after the last. */
  function Interleaved(words: seq<string>, gaps: seq<string>): string
    requires |gaps| == |words| + 1
  {
    if words == [] then gaps[0] else gaps[0] + (words[0] + Interleaved(words[1..], gaps[1..]))
  }

  lemma {:induction false} WordsOfWord(w: string, rest: string, word: string)
    requires forall c :: c in w ==> !IsAsciiSpace(c)
    ensures Words(w + rest, word) == Words(rest, word + w)
  {
    if w == [] {
      assert w + rest == rest && word + w == word;
    } else {
      assert w[0] in w && forall c :: c in w[1..] ==> c in w;
      assert (w + rest)[1..] == w[1..] + rest;
      WordsOfWord(w[1..], rest, word + [w[0]]);
      assert word + [w[0]] + w[1..] == word + w;
    }
  }

  lemma {:induction false} SpaceEnds(c: char, rest: string, word: string)
    requires IsAsciiSpace(c)
    ensures Words([c] + rest, word) == Flush(word) + Words(rest, "")
  {
    assert ([c] + rest)[1..] == rest;
  }

  lemma {:induction false} WordsOfSpace(gap: string, rest: string, word: string)
    requires Spaced(gap)
    ensures Words(gap + rest, word) == if gap == "" then Words(rest, word) else Flush(word) + Words(rest, "")
  {
    if gap == [] {
      assert gap + rest == rest;
    } else {
      assert gap[0] in gap && forall c :: c in gap[1..] ==> c in gap;
      assert gap + rest == [gap[0]] + (gap[1..] + rest);
      SpaceEnds(gap[0], gap[1..] + rest, word);
      WordsOfSpace(gap[1..], rest, "");
      assert Flush("") + Words(rest, "") == Words(rest, "");
    }
  }

  lemma {:induction false} WordEnds(w: string, gap: string, rest: string)
    requires w != "" && Spaced(gap) && (gap != "" || rest == "")
    ensures Words(gap + rest, w) == [w] + Words(gap + rest, "")
  {
    WordsOfSpace(gap, rest, w);
    WordsOfSpace(gap, rest, "");
    if gap == "" { assert gap + rest == "" && [w] + [] == [w]; }
    assert Flush("") + Words(rest, "") == Words(rest, "");
  }

  /** Splitting at white space gives back the words of any text made of them. */
  lemma {:induction false} WordsSplit(words: seq<string>, gaps: seq<string>)
    requires |gaps| == |words| + 1
    requires forall i :: 0 <= i < |words| ==> Solidly(words[i])
    requires forall i :: 0 <= i < |gaps| ==> Spaced(gaps[i]) && (0 < i < |words| ==> gaps[i] != "")
    ensures Words(Interleaved(words, gaps), "") == words
    decreases |words|
  {
    if words == [] {
      WordsOfSpace(gaps[0], "", "");
      assert gaps[0] + "" == gaps[0];
    } else {
      var tail := Interleaved(words[1..], gaps[1..]);
      WordsOfSpace(gaps[0], words[0] + tail, "");
      assert Flush("") + Words(words[0] + tail, "") == Words(words[0] + tail, "");
      WordsOfWord(words[0], tail, "");
      assert "" + words[0] == words[0];
      WordsSplit(words[1..], gaps[1..]);
      EndsBehind(words, gaps);
      assert [words[0]] + words[1..] == words;
    }
  }

  lemma {:induction false} EndsBehind(words: seq<string>, gaps: seq<string>)
    requires |gaps| == |words| + 1 && words != [] && words[0] != "" && Spaced(gaps[1])
    requires |words| > 1 ==> gaps[1] != ""
    ensures var tail := Interleaved(words[1..], gaps[1..]); Words(tail, words[0]) == [words[0]] + Words(tail, "")
  {
    if |words| == 1 {
      WordEnds(words[0], gaps[1], "");
      assert gaps[1] + "" == gaps[1];
    } else {
      WordEnds(words[0], gaps[1], words[1] + Interleaved(words[2..], gaps[2..]));
      assert words[1..][1..] == words[2..] && gaps[1..][1..] == gaps[2..];
    }
  }

  // ----- whatever parses is valid and strictly increasing -----

  ghost predicate Increasing<T(!new)>(less: (T, T) -> bool, s: seq<T>) {
    forall i, j :: 0 <= i < j < |s| ==> less(s[i], s[j])
  }

  ghost predicate ValidTokenAlias(t: TokenAlias) { ValidToken(t.key) && ValidAliases(t.aliases) && t.aliases != [] }

  ghost predicate ValidPhraseAlias(p: PhraseAlias) {
    && |p.terms| >= 2 && (forall t :: t in p.terms ==> ValidToken(t))
    && ValidAliases(p.aliases) && p.aliases != []
  }

  ghost predicate ValidData(data: AliasData) {
    (forall t :: t in data.tokens ==> ValidTokenAlias(t)) && forall p :: p in data.phrases ==> ValidPhraseAlias(p)
  }

  lemma {:induction false} ParsedLineValid(raw: string, section: Section, data: AliasData)
    requires ParseLine(raw, section).Ok? && ValidData(data)
    ensures ValidData(Absorb(data, ParseLine(raw, section).value))
  {
  }

  lemma {:induction false} ParsedLinesValid(lines: seq<string>, section: Section, data: AliasData)
    requires ValidData(data) && ParseLines(lines, section, data).Ok?
    ensures ValidData(ParseLines(lines, section, data).value)
  {
    if lines != [] {
      ParsedLineValid(lines[0], section, data);
      var m := ParseLine(lines[0], section).value;
      ParsedLinesValid(lines[1..], SectionAfter(section, m), Absorb(data, m));
    }
  }

  lemma {:induction false} NoRepeatsIncreasing<T(!new)>(less: (T, T) -> bool, s: seq<T>)
    requires WeakOrder(less) && forall i :: 0 < i < |s| ==> less(s[i - 1], s[i])
    ensures Increasing(less, s)
  {
    forall i, j | 0 <= i < j < |s| ensures less(s[i], s[j]) { ChainLess(less, s, i, j); }
  }

  lemma {:induction false} ChainLess<T(!new)>(less: (T, T) -> bool, s: seq<T>, i: nat, j: nat)
    requires WeakOrder(less) && i < j < |s| && forall k :: 0 < k < |s| ==> less(s[k - 1], s[k])
    ensures less(s[i], s[j])
    decreases j
  {
    assert less(s[j - 1], s[j]);
    if i < j - 1 { ChainLess(less, s, i, j - 1); }
  }

  lemma {:induction false} NoPairIncreasing<T(!new), K(!new)>(less: (T, T) -> bool, key: T -> K, s: seq<T>)
    requires WeakOrder(less) && Sorted(less, s) && forall i: nat :: !PairAt(key, s, i)
    requires forall a, b :: key(a) == key(b) || less(a, b) || less(b, a)
    ensures Increasing(less, s)
  {
    forall i | 0 < i < |s|
      ensures less(s[i - 1], s[i])
    {
      assert !less(s[i], s[i - 1]) && !PairAt(key, s, i);
    }
    NoRepeatsIncreasing(less, s);
  }

  lemma {:induction false} SortedValid(data: AliasData, tokens: seq<TokenAlias>, phrases: seq<PhraseAlias>)
    requires ValidData(data) && multiset(tokens) == multiset(data.tokens) && multiset(phrases) == multiset(data.phrases)
    ensures ValidData(AliasData(tokens, phrases))
  {
    SameElements(tokens, data.tokens);
    SameElements(phrases, data.phrases);
  }

  lemma {:induction false} CheckedIncreasing(data: AliasData)
    requires SortAndCheck(data).Ok?
    ensures var sorted := SortAndCheck(data).value;
            && multiset(sorted.tokens) == multiset(data.tokens) && multiset(sorted.phrases) == multiset(data.phrases)
            && Increasing(TokenLess, sorted.tokens) && Increasing(PhraseLess, sorted.phrases)
  {
    AliasOrders();
    NoPairIncreasing(TokenLess, TokenKey, Sort(TokenLess, data.tokens));
    NoPairIncreasing(PhraseLess, PhraseKey, Sort(PhraseLess, data.phrases));
  }

  /** For any text at all: what parses has valid entries under strictly increasing keys. */
  lemma {:induction false} ParsedIsValid(text: string)
    requires ParsedFile(text).Ok?
    ensures var data := ParsedFile(text).value;
            ValidData(data) && Increasing(TokenLess, data.tokens) && Increasing(PhraseLess, data.phrases)
  {
    var data := ParseLines(LinesOf(text), Unset, AliasData([], [])).value;
    ParsedLinesValid(LinesOf(text), Unset, AliasData([], []));
    CheckedIncreasing(data);
    SortedValid(data, SortAndCheck(data).value.tokens, SortAndCheck(data).value.phrases);
  }
}
