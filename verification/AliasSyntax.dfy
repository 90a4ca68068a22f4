/** The two quote-aware scanners of build.rs, `strip_comment` and `parse_string_array`. */
module AliasSyntax {
  import opened Prelude

  datatype Error =
    | ExpectedAssignment | UnterminatedKey | EmptyKey
    | NotAnArray | ExpectedQuoted | UnterminatedString | EmptyArray
    | EmptyTerm | NotLowercase | NotAToken | DuplicateAlias
    | ShortPhrase | NoSection | DuplicateToken(key: string) | DuplicatePhrase(terms: seq<string>)

  const QUOTE: char := '\"'
  const BACKSLASH: char := '\\'

  /** Where a scanner stands: outside strings, inside one, or just behind a backslash inside one. */
  datatype Scanner = Scanner(inString: bool, escaped: bool)

  const OUTSIDE: Scanner := Scanner(false, false)
  const INSIDE: Scanner := Scanner(true, false)

  // ----- strip_comment -----

  /** The scanner of `strip_comment` after one character that does not end the line. */
  function StripStep(st: Scanner, c: char): Scanner {
    if st.escaped then st.(escaped := false)
    else if c == BACKSLASH && st.inString then st.(escaped := true)
    else if c == QUOTE then st.(inString := !st.inString)
    else st
  }

  predicate StartsComment(st: Scanner, c: char) { !st.escaped && c == '#' && !st.inString }

  /** How much of the line stands before its comment. */
  function Cut(line: string, st: Scanner): (n: nat)
    ensures n <= |line|
  {
    if line == [] || StartsComment(st, line[0]) then 0
    else 1 + Cut(line[1..], StripStep(st, line[0]))
  }

  function Stripped(line: string): string { line[..Cut(line, OUTSIDE)] }

  method StripComment(line: string) returns (r: string)
    ensures r == Stripped(line)
  {
    var inString, escaped := false, false;
    for idx := 0 to |line|
      invariant Cut(line, OUTSIDE) == idx + Cut(line[idx..], Scanner(inString, escaped))
    {
      var ch := line[idx];
      assert line[idx..][1..] == line[idx + 1..];
      if escaped {
        escaped := false;
      } else if ch == BACKSLASH && inString {
        escaped := true;
      } else if ch == QUOTE {
        inString := !inString;
      } else if ch == '#' && !inString {
        return line[..idx];
      }
    }
    r := line;
  }

  // ----- parse_string_array -----

  predicate IsSeparator(c: char) { c == ',' || c == ' ' || c == '\t' }

  /** The strings between the brackets, given the scanner and the string read so far. */
  function Items(body: string, st: Scanner, current: string): Result<seq<string>, Error> {
    if body == [] then (if st.inString then Err(UnterminatedString) else Ok([]))
    else
      var c, rest := body[0], body[1..];
      if st.escaped then Items(rest, st.(escaped := false), current + [c])
      else if c == BACKSLASH && st.inString then Items(rest, st.(escaped := true), current)
      else if c == QUOTE then
        if st.inString then
          match Items(rest, OUTSIDE, "") case Ok(items) => Ok([current] + items) case Err(e) => Err(e)
        else Items(rest, INSIDE, current)
      else if st.inString then Items(rest, st, current + [c])
      else if IsSeparator(c) then Items(rest, st, current)
      else Err(ExpectedQuoted)
  }

  function ParsedArray(value: string): Result<seq<string>, Error> {
    var v := Trim(value);
    if v == [] || v[0] != '[' || v[|v| - 1] != ']' then Err(NotAnArray)
    else if |v| < 2 then Err(NotAnArray)  // a lone bracket fails one of the two tests
    else match Items(v[1..|v| - 1], OUTSIDE, "")
      case Ok(items) => if items == [] then Err(EmptyArray) else Ok(items)
      case Err(e) => Err(e)
  }

  method ParseStringArray(value: string) returns (r: Result<seq<string>, Error>)
    ensures r == ParsedArray(value)
  {
    var v := Trim(value);
    if v == [] || v[0] != '[' || v[|v| - 1] != ']' {
      return Err(NotAnArray);
    }
    var body := v[1..|v| - 1];
    var aliases: seq<string>, current, inString, escaped := [], "", false, false;
    assert body[0..] == body && forall items: seq<string> :: aliases + items == items;
    for i := 0 to |body|
      invariant Items(body, OUTSIDE, "") ==
                match Items(body[i..], Scanner(inString, escaped), current)
                case Ok(items) => Ok(aliases + items)
                case Err(e) => Err(e)
    {
      var ch := body[i];
      assert body[i..][1..] == body[i + 1..];
      if escaped {
        current := current + [ch];
        escaped := false;
      } else if ch == BACKSLASH && inString {
        escaped := true;
      } else if ch == QUOTE {
        if inString {
          assert forall items: seq<string> :: aliases + ([current] + items) == aliases + [current] + items;
          aliases := aliases + [current];
          current := "";
        }
        inString := !inString;
      } else if inString {
        current := current + [ch];
      } else if ch != ',' && ch != ' ' && ch != '\t' {
        return Err(ExpectedQuoted);
      }
    }
    if inString {
      return Err(UnterminatedString);
    }
    assert aliases + [] == aliases;
    if aliases == [] {
      return Err(EmptyArray);
    }
    r := Ok(aliases);
  }

  // ----- whitespace -----

  /** Unicode white space, as `trim` removes it. */
  predicate IsWhite(c: char) {
    '\t' <= c <= '\r' || c == ' ' || c == '\U{85}' || c == '\U{A0}' || c == '\U{1680}' ||
    '\U{2000}' <= c <= '\U{200A}' || c == '\U{2028}' || c == '\U{2029}' || c == '\U{202F}' ||
    c == '\U{205F}' || c == '\U{3000}'
  }

  function TrimStart(s: string): string { if s != [] && IsWhite(s[0]) then TrimStart(s[1..]) else s }

  function TrimEnd(s: string): string {
    if s != [] && IsWhite(s[|s| - 1]) then TrimEnd(s[..|s| - 1]) else s
  }

  function Trim(s: string): string { TrimEnd(TrimStart(s)) }

  predicate AllWhite(s: string) { forall c :: c in s ==> IsWhite(c) }

  /** Neither end is white space. */
  predicate Solid(s: string) { s != [] && !IsWhite(s[0]) && !IsWhite(s[|s| - 1]) }

  lemma {:induction false} TrimPadded(a: string, core: string, b: string)
    requires AllWhite(a) && Solid(core) && AllWhite(b)
    ensures Trim(a + core + b) == core
  {
    TrimStartPadded(a, core + b);
    assert a + (core + b) == a + core + b;
    TrimEndPadded(core, b);
  }

  lemma {:induction false} TrimStartPadded(a: string, rest: string)
    requires AllWhite(a) && rest != [] && !IsWhite(rest[0])
    ensures TrimStart(a + rest) == rest
  {
    if a == [] {
      assert a + rest == rest;
    } else {
      assert (a + rest)[1..] == a[1..] + rest;
      TrimStartPadded(a[1..], rest);
    }
  }

  lemma {:induction false} TrimEndPadded(core: string, b: string)
    requires AllWhite(b) && core != [] && !IsWhite(core[|core| - 1])
    ensures TrimEnd(core + b) == core
  {
    if b == [] {
      assert core + b == core;
    } else {
      var s := core + b;
      assert s[..|s| - 1] == core + b[..|b| - 1];
      TrimEndPadded(core, b[..|b| - 1]);
    }
  }

  lemma {:induction false} TrimWhite(s: string)
    requires AllWhite(s)
    ensures Trim(s) == []
  {
    if s != [] { TrimWhite(s[1..]); }
  }

  // ----- escaping -----

  function Escape(s: string): string {
    if s == [] then []
    else EscapedChar(s[0]) + Escape(s[1..])
  }

  function Quoted(s: string): string { [QUOTE] + Escape(s) + [QUOTE] }

  predicate AllSeparators(s: string) { forall c :: c in s ==> IsSeparator(c) }

  /** Quoted strings with separators before each and after the last. */
  function ArrayBody(strings: seq<string>, gaps: seq<string>): string
    requires |gaps| == |strings| + 1
  {
    if strings == [] then gaps[0] else gaps[0] + Quoted(strings[0]) + ArrayBody(strings[1..], gaps[1..])
  }

  /** One character as the printer writes it. */
  function EscapedChar(c: char): string { if c == QUOTE || c == BACKSLASH then [BACKSLASH, c] else [c] }

  /** The text between the quotes spells the string: a backslash takes the next character as it is, and
      every other character but a quote stands for itself. */
  ghost predicate Spelling(text: string, s: string) {
    if text == [] then s == []
    else if text[0] == BACKSLASH then |text| > 1 && s != [] && s[0] == text[1] && Spelling(text[2..], s[1..])
    else text[0] != QUOTE && s != [] && s[0] == text[0] && Spelling(text[1..], s[1..])
  }

  lemma {:induction false} EscapeSpells(s: string)
    ensures Spelling(Escape(s), s)
  {
    if s != [] {
      EscapeSpells(s[1..]);
      var text := Escape(s);
      if s[0] == QUOTE || s[0] == BACKSLASH {
        assert text[0] == BACKSLASH && text[1] == s[0] && text[2..] == Escape(s[1..]);
      } else {
        assert text[0] == s[0] && text[1..] == Escape(s[1..]);
      }
    }
  }

  /** Reading a spelling inside a string adds what it spells. */
  lemma {:induction false} ItemsOfSpelling(text: string, s: string, rest: string, current: string)
    requires Spelling(text, s)
    ensures Items(text + rest, INSIDE, current) == Items(rest, INSIDE, current + s)
    decreases |text|
  {
    if text == [] {
      assert text + rest == rest && current + s == current;
    } else if text[0] == BACKSLASH {
      var tail := [text[1]] + (text[2..] + rest);
      assert (text + rest)[1..] == tail && tail[1..] == text[2..] + rest;
      assert Items(tail, Scanner(true, true), current) == Items(text[2..] + rest, INSIDE, current + [text[1]]);
      ItemsOfSpelling(text[2..], s[1..], rest, current + [s[0]]);
      assert current + [s[0]] + s[1..] == current + s;
    } else {
      assert (text + rest)[1..] == text[1..] + rest;
      ItemsOfSpelling(text[1..], s[1..], rest, current + [s[0]]);
      assert current + [s[0]] + s[1..] == current + s;
    }
  }

  lemma {:induction false} ItemsOfGap(gap: string, rest: string)
    requires AllSeparators(gap)
    ensures Items(gap + rest, OUTSIDE, "") == Items(rest, OUTSIDE, "")
  {
    if gap == [] {
      assert gap + rest == rest;
    } else {
      assert gap[0] in gap;
      assert (gap + rest)[1..] == gap[1..] + rest;
      ItemsOfGap(gap[1..], rest);
    }
  }

  lemma {:induction false} ItemsOfQuoted(text: string, s: string, rest: string)
    requires Spelling(text, s)
    ensures Items([QUOTE] + text + [QUOTE] + rest, OUTSIDE, "") ==
            match Items(rest, OUTSIDE, "") case Ok(items) => Ok([s] + items) case Err(e) => Err(e)
  {
    var whole := [QUOTE] + text + [QUOTE] + rest;
    assert whole[1..] == text + ([QUOTE] + rest);
    ItemsOfSpelling(text, s, [QUOTE] + rest, "");
    assert ([QUOTE] + rest)[1..] == rest && "" + s == s;
  }

  /** Texts between quotes, with separators before each and after the last. */
  function TextBody(texts: seq<string>, gaps: seq<string>): string
    requires |gaps| == |texts| + 1
  {
    if texts == [] then gaps[0] else gaps[0] + ([QUOTE] + texts[0] + [QUOTE] + TextBody(texts[1..], gaps[1..]))
  }

  /** The texts spell the strings, and nothing but separators stands between them. */
  ghost predicate Spells(texts: seq<string>, gaps: seq<string>, strings: seq<string>) {
    && |texts| == |strings| && |gaps| == |strings| + 1
    && (forall i :: 0 <= i < |texts| ==> Spelling(texts[i], strings[i]))
    && forall i :: 0 <= i < |gaps| ==> AllSeparators(gaps[i])
  }

  lemma {:induction false} SpellsRest(texts: seq<string>, gaps: seq<string>, strings: seq<string>)
    requires Spells(texts, gaps, strings) && strings != []
    ensures Spells(texts[1..], gaps[1..], strings[1..])
    ensures Spelling(texts[0], strings[0]) && AllSeparators(gaps[0])
  {
  }

  lemma {:induction false} ItemsOfBody(texts: seq<string>, gaps: seq<string>, strings: seq<string>)
    requires Spells(texts, gaps, strings)
    ensures Items(TextBody(texts, gaps), OUTSIDE, "") == Ok(strings)
    decreases |strings|
  {
    if strings == [] {
      ItemsOfGap(gaps[0], "");
      assert gaps[0] + "" == gaps[0];
    } else {
      var tail := TextBody(texts[1..], gaps[1..]);
      SpellsRest(texts, gaps, strings);
      ItemsOfBody(texts[1..], gaps[1..], strings[1..]);
      ItemsOfGap(gaps[0], [QUOTE] + texts[0] + [QUOTE] + tail);
      ItemsOfQuoted(texts[0], strings[0], tail);
      assert [strings[0]] + strings[1..] == strings;
    }
  }

  // ----- exactly what is accepted -----

  /** An accepted rest of a string ends at a quote, before which stands a spelling of what is added. */
  lemma {:induction false} AcceptedString(body: string, current: string) returns (text: string, s: string, rest: string)
    requires Items(body, INSIDE, current).Ok?
    ensures body == text + [QUOTE] + rest && Spelling(text, s) && Items(rest, OUTSIDE, "").Ok?
    ensures Items(body, INSIDE, current).value == [current + s] + Items(rest, OUTSIDE, "").value
    decreases |body|
  {
    if body[0] == QUOTE {
      text, s, rest := "", "", body[1..];
      assert current + "" == current;
    } else if body[0] == BACKSLASH {
      assert Items(body[1..], Scanner(true, true), current).Ok?;
      assert body[1..][1..] == body[2..];
      var t, u, after := AcceptedString(body[2..], current + [body[1]]);
      text, s, rest := [BACKSLASH, body[1]] + t, [body[1]] + u, after;
      assert text[2..] == t && s[1..] == u;
      assert current + [body[1]] + u == current + s;
      assert body == [BACKSLASH, body[1]] + body[2..];
    } else {
      var t, u, after := AcceptedString(body[1..], current + [body[0]]);
      text, s, rest := [body[0]] + t, [body[0]] + u, after;
      assert text[1..] == t && s[1..] == u;
      assert current + [body[0]] + u == current + s;
      assert body == [body[0]] + body[1..];
    }
  }

  lemma {:induction false} WiderGap(c: char, texts: seq<string>, gaps: seq<string>, strings: seq<string>)
    requires Spells(texts, gaps, strings) && IsSeparator(c)
    ensures Spells(texts, [[c] + gaps[0]] + gaps[1..], strings)
    ensures TextBody(texts, [[c] + gaps[0]] + gaps[1..]) == [c] + TextBody(texts, gaps)
  {
    var wider := [[c] + gaps[0]] + gaps[1..];
    assert wider[1..] == gaps[1..];
    forall i | 0 <= i < |wider| ensures AllSeparators(wider[i]) { assert AllSeparators(gaps[i]); }
  }

  lemma {:induction false} OneMoreText(text: string, s: string, texts: seq<string>, gaps: seq<string>,
                                       strings: seq<string>)
    requires Spelling(text, s) && Spells(texts, gaps, strings)
    ensures Spells([text] + texts, [""] + gaps, [s] + strings)
    ensures TextBody([text] + texts, [""] + gaps) == [QUOTE] + text + [QUOTE] + TextBody(texts, gaps)
  {
    assert ([text] + texts)[1..] == texts && ([""] + gaps)[1..] == gaps;
  }

  lemma {:induction false} AcceptedFirst(body: string) returns (text: string, s: string, rest: string)
    requires Items(body, OUTSIDE, "").Ok? && body != [] && body[0] == QUOTE
    ensures body == [QUOTE] + text + [QUOTE] + rest && Spelling(text, s) && Items(rest, OUTSIDE, "").Ok?
    ensures Items(body, OUTSIDE, "").value == [s] + Items(rest, OUTSIDE, "").value
  {
    text, s, rest := AcceptedString(body[1..], "");
    assert "" + s == s && body == [QUOTE] + body[1..];
  }

  lemma {:induction false} AcceptedBody(body: string) returns (texts: seq<string>, gaps: seq<string>)
    requires Items(body, OUTSIDE, "").Ok?
    ensures Spells(texts, gaps, Items(body, OUTSIDE, "").value) && body == TextBody(texts, gaps)
    decreases |body|
  {
    if body == [] {
      texts, gaps := [], [""];
    } else if body[0] == QUOTE {
      var text, s, rest := AcceptedFirst(body);
      var ts, gs := AcceptedBody(rest);
      texts, gaps := [text] + ts, [""] + gs;
      OneMoreText(text, s, ts, gs, Items(rest, OUTSIDE, "").value);
    } else {
      var ts, gs := AcceptedBody(body[1..]);
      texts, gaps := ts, [[body[0]] + gs[0]] + gs[1..];
      WiderGap(body[0], ts, gs, Items(body[1..], OUTSIDE, "").value);
      assert body == [body[0]] + body[1..];
    }
  }

  /** An array parses to given strings exactly if there are any and, but for white space around it, it is
      a bracketed list of quoted spellings of them with nothing but separators between. */
  lemma {:induction false} ArrayAcceptedIff(value: string, strings: seq<string>)
    ensures ParsedArray(value) == Ok(strings) <==>
            strings != [] && exists texts, gaps :: Spells(texts, gaps, strings) &&
                                                   Trim(value) == "[" + TextBody(texts, gaps) + "]"
  {
    var v := Trim(value);
    if ParsedArray(value) == Ok(strings) {
      var texts, gaps := AcceptedBody(v[1..|v| - 1]);
      assert v == "[" + v[1..|v| - 1] + "]";
    }
    forall texts, gaps | Spells(texts, gaps, strings) && v == "[" + TextBody(texts, gaps) + "]"
      ensures strings != [] ==> ParsedArray(value) == Ok(strings)
    {
      assert v[1..|v| - 1] == TextBody(texts, gaps);
      ItemsOfBody(texts, gaps, strings);
    }
  }

  function Escapes(strings: seq<string>): seq<string> {
    seq(|strings|, i requires 0 <= i < |strings| => Escape(strings[i]))
  }

  lemma {:induction false} EscapesSpell(strings: seq<string>, gaps: seq<string>)
    requires |gaps| == |strings| + 1 && forall g :: g in gaps ==> AllSeparators(g)
    ensures Spells(Escapes(strings), gaps, strings) && TextBody(Escapes(strings), gaps) == ArrayBody(strings, gaps)
    decreases |strings|
  {
    forall i | 0 <= i < |strings| ensures Spelling(Escape(strings[i]), strings[i]) { EscapeSpells(strings[i]); }
    if strings != [] {
      EscapesSpell(strings[1..], gaps[1..]);
      assert Escapes(strings)[1..] == Escapes(strings[1..]);
    }
  }

  /** Parsing inverts printing for arbitrary strings, quotes and backslashes included, under
      any separators between them. */
  lemma {:induction false} ArrayRoundTrip(strings: seq<string>, gaps: seq<string>)
    requires |gaps| == |strings| + 1 && forall g :: g in gaps ==> AllSeparators(g)
    ensures ParsedArray("[" + ArrayBody(strings, gaps) + "]") ==
            if strings == [] then Err(EmptyArray) else Ok(strings)
  {
    var text := "[" + ArrayBody(strings, gaps) + "]";
    TrimPadded("", text, "");
    assert "" + text + "" == text;
    assert text[1..|text| - 1] == ArrayBody(strings, gaps);
    EscapesSpell(strings, gaps);
    ItemsOfBody(Escapes(strings), gaps, strings);
  }

  // ----- what survives comment stripping -----

  /** The scanner behind `text` if no comment starts in it. */
  function Pass(text: string, st: Scanner): Option<Scanner> {
    if text == [] then Some(st)
    else if StartsComment(st, text[0]) then None
    else Pass(text[1..], StripStep(st, text[0]))
  }

  lemma {:induction false} CutBehind(text: string, rest: string, st: Scanner)
    requires Pass(text, st).Some?
    ensures Cut(text + rest, st) == |text| + Cut(rest, Pass(text, st).value)
  {
    if text == [] {
      assert text + rest == rest;
    } else {
      assert (text + rest)[1..] == text[1..] + rest;
      CutBehind(text[1..], rest, StripStep(st, text[0]));
    }
  }

  lemma {:induction false} PassConcat(a: string, b: string, st: Scanner)
    requires Pass(a, st).Some?
    ensures Pass(a + b, st) == Pass(b, Pass(a, st).value)
  {
    if a == [] {
      assert a + b == b;
    } else {
      assert (a + b)[1..] == a[1..] + b;
      PassConcat(a[1..], b, StripStep(st, a[0]));
    }
  }

  predicate Plain(c: char) { c != QUOTE && c != BACKSLASH && c != '#' }

  lemma {:induction false} PassPlain(s: string, st: Scanner)
    requires !st.escaped && forall c :: c in s ==> Plain(c)
    ensures Pass(s, st) == Some(st)
  {
    if s != [] {
      assert s[0] in s;
      PassPlain(s[1..], st);
    }
  }

  /** The scanner of `parse_string_array` after one more character. */
  function ReadStep(st: Scanner, c: char): Scanner {
    if st.escaped then st.(escaped := false)
    else if c == BACKSLASH && st.inString then st.(escaped := true)
    else if c != QUOTE then st
    else if st.inString then OUTSIDE
    else INSIDE
  }

  function Reader(text: string, st: Scanner): Scanner {
    if text == [] then st else Reader(text[1..], ReadStep(st, text[0]))
  }

  /** The two scanners agree on every array that parses: after each of its characters comment stripping
      has found no comment and is in the state in which the parser reads on, and both end outside strings. */
  lemma {:induction false} AcceptedIsKept(body: string, st: Scanner, current: string, k: nat)
    requires Items(body, st, current).Ok? && (st.escaped ==> st.inString) && k <= |body|
    ensures Pass(body[..k], st) == Some(Reader(body[..k], st))
    ensures exists read :: Items(body[k..], Reader(body[..k], st), read).Ok?
    ensures k == |body| ==> Reader(body[..k], st) == OUTSIDE
  {
    if k == 0 {
      assert body[0..] == body && Items(body[0..], Reader(body[..0], st), current).Ok?;
    } else {
      var c := body[0];
      var read :=
        if st.escaped || (st.inString && c != BACKSLASH && c != QUOTE) then current + [c]
        else if c == QUOTE && st.inString then "" else current;
      AcceptedIsKept(body[1..], ReadStep(st, c), read, k - 1);
      assert body[..k][1..] == body[1..][..k - 1] && body[1..][k - 1..] == body[k..];
    }
  }

  // ----- exactly what is refused -----

  /** A character outside strings that neither opens one nor separates two. */
  ghost predicate Stray(body: string, st: Scanner, k: nat) {
    k < |body| && !Reader(body[..k], st).inString && body[k] != QUOTE && !IsSeparator(body[k])
  }

  lemma {:induction false} StrayLater(body: string, st: Scanner, k: nat)
    requires body != []
    ensures Stray(body, st, k + 1) <==> Stray(body[1..], ReadStep(st, body[0]), k)
    ensures Reader(body, st) == Reader(body[1..], ReadStep(st, body[0]))
  {
    if k + 1 < |body| { assert body[..k + 1][1..] == body[1..][..k]; }
  }

  /** The body of an array is refused for its first stray character, or without one for a string left open. */
  lemma {:induction false} ItemsRefused(body: string, st: Scanner, current: string)
    requires st.escaped ==> st.inString
    ensures Items(body, st, current) == Err(ExpectedQuoted) <==> exists k :: Stray(body, st, k)
    ensures Items(body, st, current) == Err(UnterminatedString) <==>
            (forall k :: !Stray(body, st, k)) && Reader(body, st).inString
    ensures Items(body, st, current).Ok? <==> (forall k :: !Stray(body, st, k)) && !Reader(body, st).inString
  {
    if body != [] {
      var c := body[0];
      var read :=
        if st.escaped || (st.inString && c != BACKSLASH && c != QUOTE) then current + [c]
        else if c == QUOTE && st.inString then "" else current;
      ItemsRefused(body[1..], ReadStep(st, c), read);
      SomeStray(body, st);
      StrayLater(body, st, 0);
    }
  }

  lemma {:induction false} SomeStray(body: string, st: Scanner)
    requires body != []
    ensures (exists k :: Stray(body, st, k)) <==>
            (!st.inString && body[0] != QUOTE && !IsSeparator(body[0])) ||
            exists k :: Stray(body[1..], ReadStep(st, body[0]), k)
  {
    assert Stray(body, st, 0) <==> !st.inString && body[0] != QUOTE && !IsSeparator(body[0]) by {
      assert body[..0] == [];
    }
    if k: nat :| Stray(body, st, k) && k > 0 { StrayLater(body, st, k - 1); }
    if k: nat :| Stray(body[1..], ReadStep(st, body[0]), k) { StrayLater(body, st, k); }
  }

  /** Which array is refused, and how. */
  lemma {:induction false} ArrayRefused(value: string)
    ensures var v, r := Trim(value), ParsedArray(value);
            && (r == Err(NotAnArray) <==> !(|v| > 1 && v[0] == '[' && v[|v| - 1] == ']'))
            && (r.Err? ==> r.error in {NotAnArray, ExpectedQuoted, UnterminatedString, EmptyArray})
            && (|v| > 1 && v[0] == '[' && v[|v| - 1] == ']' ==>
                  var body := v[1..|v| - 1];
                  && (r == Err(ExpectedQuoted) <==> exists k :: Stray(body, OUTSIDE, k))
                  && (r == Err(UnterminatedString) <==>
                        (forall k :: !Stray(body, OUTSIDE, k)) && Reader(body, OUTSIDE).inString)
                  && (r == Err(EmptyArray) <==> AllSeparators(body)))
  {
    var v := Trim(value);
    if |v| > 1 && v[0] == '[' && v[|v| - 1] == ']' {
      var body := v[1..|v| - 1];
      ItemsRefused(body, OUTSIDE, "");
      NothingInside(body);
    }
  }

  lemma {:induction false} NothingInside(body: string)
    ensures Items(body, OUTSIDE, "") == Ok([]) <==> AllSeparators(body)
  {
    if body != [] {
      NothingInside(body[1..]);
      assert AllSeparators(body) <==> IsSeparator(body[0]) && AllSeparators(body[1..]) by {
        assert forall c :: c in body <==> c == body[0] || c in body[1..];
      }
      if body[0] == QUOTE && Items(body[1..], INSIDE, "").Ok? {
        var text, s, rest := AcceptedString(body[1..], "");
      }
    }
  }

  /** Text without an open string or a comment is kept whole in front of a comment. */
  lemma {:induction false} CommentIsStripped(text: string, comment: string)
    requires Pass(text, OUTSIDE) == Some(OUTSIDE)
    ensures Stripped(text + "#" + comment) == text && Stripped(text) == text
  {
    CutBehind(text, "#" + comment, OUTSIDE);
    assert text + ("#" + comment) == text + "#" + comment;
    CutBehind(text, "", OUTSIDE);
    assert text + "" == text;
  }
}
