/** The queries of scripts/bench_million_chunks.py and the corpus they are asked of. */
module MillionCases {
  import opened Prelude
  import opened Numerals
  import opened Strides

  const STRIDE: nat := 9973
  const DEFAULT_FILES: nat := 10_000
  const DEFAULT_CHUNKS_PER_FILE: nat := 100

  /** Query texts up to the number, which a space sets off. */
  type Templates = t: seq<string> | |t| > 0 && forall k :: 0 <= k < |t| ==> t[k] != [] && t[k][|t[k]| - 1] == ' '
    witness [" "]

  const TEXTS: seq<string> := [
    "calculate invoice tax " + "for regional order ",
    "retry payment after " + "transient gateway failure ",
    "parse tenant configuration " + "and validate limits ",
    "record structured audit " + "event for request ",
    "apply rate limit " + "to authenticated account "
  ]

  lemma {:induction false} TextsEnd()
    ensures forall k :: 0 <= k < |TEXTS| ==> TEXTS[k] != [] && TEXTS[k][|TEXTS[k]| - 1] == ' '
  {
    forall k | 0 <= k < |TEXTS|
      ensures TEXTS[k] != [] && TEXTS[k][|TEXTS[k]| - 1] == ' '
    {
      if k == 0 {
      } else if k == 1 {
      } else if k == 2 {
      } else if k == 3 {
      } else {
      }
    }
  }

  const QUERY_TEMPLATES: Templates := (TextsEnd(); TEXTS)

  /** The text of a template for a chunk. */
  function Query(t: Templates, index: nat): string { t[index % |t|] + Decimal(index) }

  function FilePath(file: nat): string { "shard_" + Padded(file / 1000, 2) + "/module_" + Padded(file, 5) + ".rs" }

  // ----- queries and paths are labels -----

  lemma {:induction false} QueryInjective(t: Templates, i: nat, j: nat)
    requires Query(t, i) == Query(t, j)
    ensures i == j
  {
    var p, q := t[i % |t|], t[j % |t|];
    assert p == p[..|p| - 1] + [' '] && q == q[..|q| - 1] + [' '];
    BehindLastMark(p[..|p| - 1], Decimal(i), q[..|q| - 1], Decimal(j), ' ');
    DecimalInjective(i, j);
  }

  lemma {:induction false} SameSuffix(a: string, b: string, c: string)
    requires a + c == b + c
    ensures a == b
  {
    assert a == (a + c)[..|a + c| - |c|] && b == (b + c)[..|b + c| - |c|];
  }

  lemma {:induction false} PathInjective(f: nat, g: nat)
    requires FilePath(f) == FilePath(g)
    ensures f == g
  {
    var a, b := "shard_" + Padded(f / 1000, 2) + "/module", Padded(f, 5);
    var c, d := "shard_" + Padded(g / 1000, 2) + "/module", Padded(g, 5);
    SlashModule("shard_" + Padded(f / 1000, 2), b);
    SlashModule("shard_" + Padded(g / 1000, 2), d);
    SameSuffix(a + ['_'] + b, c + ['_'] + d, ".rs");
    BehindLastMark(a, b, c, d, '_');
    PaddedInjective(f, g, 5);
  }

  lemma {:induction false} SlashModule(a: string, b: string)
    ensures a + "/module_" + b == a + "/module" + ['_'] + b
  {
    assert "/module_" == "/module" + ['_'];
    assert a + ("/module" + ['_']) == a + "/module" + ['_'];
  }

  // ----- the cases -----

  datatype Case = Case(query: string, expected: string)

  function ChunkOf(sample: nat, totalChunks: nat): nat
    requires totalChunks > 0
  {
    Multiple(sample, STRIDE, totalChunks)
  }

  function CaseOf(t: Templates, sample: nat, totalChunks: nat, chunksPerFile: nat): Case
    requires totalChunks > 0 && chunksPerFile > 0
  {
    var chunk := ChunkOf(sample, totalChunks);
    Case(Query(t, chunk), FilePath(chunk / chunksPerFile))
  }

  /** `None` where a division by zero raises. */
  method QueryCases(t: Templates, samples: nat, totalChunks: nat, chunksPerFile: nat) returns (r: Option<seq<Case>>)
    ensures r == None <==> samples > 0 && (totalChunks == 0 || chunksPerFile == 0)
    ensures r.Some? ==> |r.value| == samples
    ensures r.Some? ==> forall i :: 0 <= i < samples ==> r.value[i] == CaseOf(t, i, totalChunks, chunksPerFile)
  {
    var cases := [];
    for sample := 0 to samples
      invariant |cases| == sample && (sample > 0 ==> totalChunks > 0 && chunksPerFile > 0)
      invariant forall i :: 0 <= i < sample ==> cases[i] == CaseOf(t, i, totalChunks, chunksPerFile)
    {
      if totalChunks == 0 || chunksPerFile == 0 {
        return None;
      }
      var chunk := sample * STRIDE % totalChunks;
      var query := t[chunk % |t|] + Decimal(chunk);
      var file := chunk / chunksPerFile;
      cases := cases + [Case(query, FilePath(file))];
    }
    r := Some(cases);
  }

  ghost predicate DistinctQueries(t: Templates, totalChunks: nat, count: nat)
    requires totalChunks > 0
  {
    forall i: nat, j: nat :: i < j < count ==> Query(t, ChunkOf(i, totalChunks)) != Query(t, ChunkOf(j, totalChunks))
  }

  lemma {:induction false} SameChunk(t: Templates, i: nat, j: nat, totalChunks: nat)
    requires totalChunks > 0
    ensures Query(t, ChunkOf(i, totalChunks)) == Query(t, ChunkOf(j, totalChunks)) <==>
            Multiple(i, STRIDE, totalChunks) == Multiple(j, STRIDE, totalChunks)
  {
    if Query(t, ChunkOf(i, totalChunks)) == Query(t, ChunkOf(j, totalChunks)) {
      QueryInjective(t, ChunkOf(i, totalChunks), ChunkOf(j, totalChunks));
    }
  }

  /** All queries of the suite differ exactly if it asks for no more than `totalChunks / Gcd` of them,
      which is all chunks when their number is coprime to the stride. */
  lemma {:induction false} QueriesDistinctIff(t: Templates, count: nat, totalChunks: nat)
    requires totalChunks > 0
    ensures Gcd(STRIDE, totalChunks) > 0
    ensures DistinctQueries(t, totalChunks, count) <==> count <= totalChunks / Gcd(STRIDE, totalChunks)
  {
    DistinctIff(STRIDE, totalChunks, count);
    forall i: nat, j: nat | i < j < count
      ensures Query(t, ChunkOf(i, totalChunks)) == Query(t, ChunkOf(j, totalChunks)) <==>
              Multiple(i, STRIDE, totalChunks) == Multiple(j, STRIDE, totalChunks)
    {
      SameChunk(t, i, j, totalChunks);
    }
    assert DistinctQueries(t, totalChunks, count) <==> DistinctMultiples(STRIDE, totalChunks, count);
  }

  /** With the default corpus all million queries differ. */
  lemma {:induction false} DefaultCorpusIsCoprime(count: nat)
    ensures DistinctQueries(QUERY_TEMPLATES, DEFAULT_FILES * DEFAULT_CHUNKS_PER_FILE, count) <==> count <= 1_000_000
  {
    assert Gcd(9973, 1000000) == Gcd(1000000, 9973);
    assert Gcd(1000000, 9973) == Gcd(9973, 2700);
    assert Gcd(9973, 2700) == Gcd(2700, 1873);
    assert Gcd(2700, 1873) == Gcd(1873, 827);
    assert Gcd(1873, 827) == Gcd(827, 219);
    assert Gcd(827, 219) == Gcd(219, 170);
    assert Gcd(219, 170) == Gcd(170, 49);
    assert Gcd(170, 49) == Gcd(49, 23);
    assert Gcd(49, 23) == Gcd(23, 3);
    assert Gcd(23, 3) == Gcd(3, 2);
    assert Gcd(3, 2) == Gcd(2, 1);
    assert Gcd(2, 1) == Gcd(1, 0);
    QueriesDistinctIff(QUERY_TEMPLATES, count, 1_000_000);
  }

  // ----- the three phases of the suite -----

  function Least(a: nat, b: nat): nat { if a < b then a else b }

  datatype Phases = Phases(distinct: seq<Case>, warm: seq<Case>, concurrent: seq<Case>)

  /** The three phases in the order they are cut from the cases. */
  function AllCases(p: Phases): seq<Case> { p.distinct + p.warm + p.concurrent }

  /** The phases hold the first cases in order, as many in each as `query_suite` asks for. */
  ghost predicate IsSplit(t: Templates, p: Phases, samples: nat, totalChunks: nat, chunksPerFile: nat) {
    && |p.distinct| == samples && |p.warm| == Least(20, samples) && |p.concurrent| == Least(64, samples)
    && (samples > 0 ==>
          && totalChunks > 0 && chunksPerFile > 0
          && forall i :: 0 <= i < |AllCases(p)| ==> AllCases(p)[i] == CaseOf(t, i, totalChunks, chunksPerFile))
  }

  method SplitCases(t: Templates, samples: nat, totalChunks: nat, chunksPerFile: nat) returns (r: Option<Phases>)
    ensures r == None <==> samples > 0 && (totalChunks == 0 || chunksPerFile == 0)
    ensures r.Some? ==> IsSplit(t, r.value, samples, totalChunks, chunksPerFile)
  {
    var warm, concurrent := Least(20, samples), Least(64, samples);
    var cases := QueryCases(t, samples + warm + concurrent, totalChunks, chunksPerFile);
    if cases == None {
      return None;
    }
    var c := cases.value;
    r := Some(Phases(c[..samples], c[samples..samples + warm], c[samples + warm..]));
    assert AllCases(r.value) == c;
  }

  function Queries(cases: seq<Case>): set<string> { set c | c in cases :: c.query }

  ghost predicate AsksOnce(cases: seq<Case>) {
    forall i, j :: 0 <= i < j < |cases| ==> cases[i].query != cases[j].query
  }

  /** No query is asked in two phases, or twice in one. */
  ghost predicate PhasesApart(p: Phases) {
    && AsksOnce(p.distinct) && AsksOnce(p.warm) && AsksOnce(p.concurrent)
    && Queries(p.distinct) !! Queries(p.warm)
    && Queries(p.distinct) !! Queries(p.concurrent) && Queries(p.warm) !! Queries(p.concurrent)
  }

  lemma {:induction false} AsksOnceOfTwo(a: seq<Case>, b: seq<Case>)
    ensures AsksOnce(a + b) <==> AsksOnce(a) && AsksOnce(b) && Queries(a) !! Queries(b)
    ensures Queries(a + b) == Queries(a) + Queries(b)
  {
    var all := a + b;
    assert forall i :: 0 <= i < |a| ==> all[i] == a[i] && a[i].query in Queries(a);
    assert forall i :: 0 <= i < |b| ==> all[|a| + i] == b[i] && b[i].query in Queries(b);
    assert forall c :: c in all <==> c in a || c in b;
    if AsksOnce(all) {
      forall q | q in Queries(a)
        ensures q !in Queries(b)
      {
        var i :| 0 <= i < |a| && a[i].query == q;
        forall j | 0 <= j < |b| ensures b[j].query != q { assert all[i].query != all[|a| + j].query; }
      }
      forall i, j | 0 <= i < j < |b|
        ensures b[i].query != b[j].query
      {
        assert all[|a| + i].query != all[|a| + j].query;
      }
      forall i, j | 0 <= i < j < |a| ensures a[i].query != a[j].query { assert all[i].query != all[j].query; }
    }
    if AsksOnce(a) && AsksOnce(b) && Queries(a) !! Queries(b) {
      forall i, j | 0 <= i < j < |all|
        ensures all[i].query != all[j].query
      {
        if i < |a| <= j {
          assert all[j] == b[j - |a|];
        } else if |a| <= i {
          assert all[i] == b[i - |a|] && all[j] == b[j - |a|];
        }
      }
    }
  }

  /** No answer cached in one phase is replayed in another, nor any query repeated in one, exactly if
      the suite asks for no more cases than `totalChunks / Gcd`. */
  lemma {:induction false} PhasesApartIff(t: Templates, p: Phases, samples: nat, totalChunks: nat, chunksPerFile: nat)
    requires samples > 0 && IsSplit(t, p, samples, totalChunks, chunksPerFile)
    ensures Gcd(STRIDE, totalChunks) > 0
    ensures PhasesApart(p) <==>
            samples + Least(20, samples) + Least(64, samples) <= totalChunks / Gcd(STRIDE, totalChunks)
  {
    AsksOnceOfTwo(p.distinct, p.warm);
    AsksOnceOfTwo(p.distinct + p.warm, p.concurrent);
    var all := AllCases(p);
    QueriesDistinctIff(t, |all|, totalChunks);
    assert AsksOnce(all) <==> DistinctQueries(t, totalChunks, |all|) by {
      assert forall i: nat, j: nat :: i < j < |all| ==>
               all[i].query == Query(t, ChunkOf(i, totalChunks)) && all[j].query == Query(t, ChunkOf(j, totalChunks));
    }
  }

  // ----- the generated files -----

  function Purpose(t: Templates, index: nat): string { "/// " + Query(t, index) + "." }

  function ChunkLines(t: Templates, index: nat): seq<string> {
    [
      Purpose(t, index),
      "pub fn generated_operation_" + Padded(index, 7) + "(value: u64) -> u64 {",
      "    value.wrapping_mul(" + Decimal(index % 97 + 1) + ").wrapping_add(" + Decimal(index) + ")",
      "}",
      ""
    ]
  }

  function Header(file: nat): seq<string> {
    ["// SPDX-License-Identifier: CC0-1.0", "//! Deterministic generated module " + Decimal(file) + ".", ""]
  }

  /** The lines of consecutive chunks. */
  function Body<T>(chunk: nat -> seq<T>, start: nat, chunks: nat): seq<T> {
    if chunks == 0 then [] else Body(chunk, start, chunks - 1) + chunk(start + chunks - 1)
  }

  function FileLines(t: Templates, file: nat, chunksPerFile: nat): seq<string> {
    Header(file) + Body(i => ChunkLines(t, i), file * chunksPerFile, chunksPerFile)
  }

  function Joined(lines: seq<string>): string {
    if lines == [] then "" else if |lines| == 1 then lines[0] else lines[0] + "\n" + Joined(lines[1..])
  }

  lemma {:induction false} Assoc<T>(a: seq<T>, b: seq<T>, c: seq<T>)
    ensures a + b + c == a + (b + c)
  {
  }

  method SourceFile(t: Templates, file: nat, chunksPerFile: nat) returns (text: string)
    ensures text == Joined(FileLines(t, file, chunksPerFile))
  {
    ghost var chunkLines := k => ChunkLines(t, k);
    var lines := Header(file);
    for chunk := 0 to chunksPerFile
      invariant lines == Header(file) + Body(chunkLines, file * chunksPerFile, chunk)
    {
      var index := file * chunksPerFile + chunk;
      Assoc(Header(file), Body(chunkLines, file * chunksPerFile, chunk), ChunkLines(t, index));
      lines := lines + ChunkLines(t, index);
    }
    text := Joined(lines);
  }

  /** The lines of a text, as `split("\n")` gives them. */
  function TextLines(text: string): (lines: seq<string>)
    ensures lines != []
  {
    if text == [] then [""]
    else
      var rest := TextLines(text[1..]);
      if text[0] == '\n' then [""] + rest else [[text[0]] + rest[0]] + rest[1..]
  }

  lemma {:induction false} SplitFirst(line: string, rest: string)
    requires '\n' !in line
    ensures TextLines(line + "\n" + rest) == [line] + TextLines(rest)
  {
    var text := line + "\n" + rest;
    if line == [] {
      assert text[1..] == rest;
    } else {
      assert text[1..] == line[1..] + "\n" + rest;
      SplitFirst(line[1..], rest);
      assert [line[0]] + line[1..] == line;
    }
  }

  lemma {:induction false} SplitLine(line: string)
    requires '\n' !in line
    ensures TextLines(line) == [line]
  {
    if line != [] {
      SplitLine(line[1..]);
      assert [line[0]] + line[1..] == line;
    }
  }

  /** Lines without newlines in them are the lines of the joined text. */
  lemma {:induction false} SplitJoined(lines: seq<string>)
    requires lines != [] && forall i :: 0 <= i < |lines| ==> '\n' !in lines[i]
    ensures TextLines(Joined(lines)) == lines
  {
    if |lines| == 1 {
      SplitLine(lines[0]);
    } else {
      SplitJoined(lines[1..]);
      SplitFirst(lines[0], Joined(lines[1..]));
      assert [lines[0]] + lines[1..] == lines;
    }
  }

  // ----- each query marks one file -----

  lemma {:induction false} ChunkPurposes(t: Templates, index: nat, i: nat)
    ensures Purpose(t, i) in ChunkLines(t, index) <==> i == index
  {
    var lines, p := ChunkLines(t, index), Purpose(t, i);
    assert p[0] == '/';
    assert lines[0] == Purpose(t, index);
    assert lines[1][0] == 'p' && lines[2][0] == ' ' && lines[3][0] == '}' && lines[4] == "";
    if p == Purpose(t, index) {
      assert p[4..|p| - 1] == Query(t, i) && Purpose(t, index)[4..|p| - 1] == Query(t, index);
      QueryInjective(t, i, index);
    }
  }

  lemma {:induction false} HeaderPurposes(t: Templates, file: nat, i: nat)
    ensures Purpose(t, i) !in Header(file)
  {
    var lines, p := Header(file), Purpose(t, i);
    assert p[2] == '/';
    assert lines[0][2] == ' ' && lines[1][2] == '!' && lines[2] == "";
  }

  lemma {:induction false} InConcat<T>(x: T, a: seq<T>, b: seq<T>)
    ensures x in a + b <==> x in a || x in b
  {
  }

  lemma {:induction false} InBody<T>(chunk: nat -> seq<T>, start: nat, chunks: nat, x: T, i: nat)
    requires forall k :: x in chunk(k) <==> k == i
    ensures x in Body(chunk, start, chunks) <==> start <= i < start + chunks
  {
    if chunks > 0 {
      InBody(chunk, start, chunks - 1, x, i);
      InConcat(x, Body(chunk, start, chunks - 1), chunk(start + chunks - 1));
    }
  }

  lemma {:induction false} QuotientIs(i: nat, n: nat, f: nat)
    requires n > 0
    ensures f * n <= i < f * n + n <==> i / n == f
  {
    Split(i, n);
    var rest := i / n - f;
    assert n * (i / n) == f * n + n * rest;
    if f * n <= i < f * n + n { SmallMultiple(n, rest); }
  }

  lemma {:induction false} PurposeInFile(t: Templates, i: nat, chunksPerFile: nat, file: nat)
    requires chunksPerFile > 0
    ensures Purpose(t, i) in FileLines(t, file, chunksPerFile) <==> file == i / chunksPerFile
  {
    var lines := k => ChunkLines(t, k);
    HeaderPurposes(t, file, i);
    forall k ensures Purpose(t, i) in lines(k) <==> k == i { ChunkPurposes(t, k, i); }
    InBody(lines, file * chunksPerFile, chunksPerFile, Purpose(t, i), i);
    InConcat(Purpose(t, i), Header(file), Body(lines, file * chunksPerFile, chunksPerFile));
    QuotientIs(i, chunksPerFile, file);
  }

  predicate OneLine(s: string) { '\n' !in s }

  lemma {:induction false} InvoiceOneLine()
    ensures OneLine("calculate invoice tax " + "for regional order ")
  {
    assert OneLine("calculate invoice tax ") && OneLine("for regional order ");
  }

  lemma {:induction false} RetryOneLine()
    ensures OneLine("retry payment after " + "transient gateway failure ")
  {
    assert OneLine("retry payment after ") && OneLine("transient gateway failure ");
  }

  lemma {:induction false} TenantOneLine()
    ensures OneLine("parse tenant configuration " + "and validate limits ")
  {
    assert OneLine("parse tenant configuration ") && OneLine("and validate limits ");
  }

  lemma {:induction false} AuditOneLine()
    ensures OneLine("record structured audit " + "event for request ")
  {
    assert OneLine("record structured audit ") && OneLine("event for request ");
  }

  lemma {:induction false} RateOneLine()
    ensures OneLine("apply rate limit " + "to authenticated account ")
  {
    assert OneLine("apply rate limit ") && OneLine("to authenticated account ");
  }

  lemma {:induction false} TemplatesOneLine()
    ensures forall k :: 0 <= k < |QUERY_TEMPLATES| ==> OneLine(QUERY_TEMPLATES[k])
  {
    InvoiceOneLine();
    RetryOneLine();
    TenantOneLine();
    AuditOneLine();
    RateOneLine();
  }

  lemma {:induction false} QueryOneLine(t: Templates, i: nat)
    requires forall k :: 0 <= k < |t| ==> OneLine(t[k])
    ensures OneLine(Query(t, i))
  {
  }

  lemma {:induction false} ChunkOneLine(t: Templates, i: nat)
    requires forall k :: 0 <= k < |t| ==> OneLine(t[k])
    ensures forall k :: 0 <= k < |ChunkLines(t, i)| ==> OneLine(ChunkLines(t, i)[k])
  {
    QueryOneLine(t, i);
    assert OneLine("/// ") && OneLine(".") && OneLine("}");
    SignatureOneLine(i);
    BodyLineOneLine(i);
  }

  lemma {:induction false} SignatureOneLine(i: nat)
    ensures OneLine("pub fn generated_operation_" + Padded(i, 7) + "(value: u64) -> u64 {")
  {
    assert OneLine("pub fn generated_operation_") && OneLine(Padded(i, 7)) && OneLine("(value: u64) -> u64 {");
  }

  lemma {:induction false} BodyLineOneLine(i: nat)
    ensures OneLine("    value.wrapping_mul(" + Decimal(i % 97 + 1) + ").wrapping_add(" + Decimal(i) + ")")
  {
    assert OneLine("    value.wrapping_mul(") && OneLine(Decimal(i % 97 + 1)) && OneLine(").wrapping_add(");
    assert OneLine(Decimal(i)) && OneLine(")");
  }

  lemma {:induction false} BodyOneLine(chunk: nat -> seq<string>, start: nat, chunks: nat)
    requires forall i, k :: 0 <= k < |chunk(i)| ==> OneLine(chunk(i)[k])
    ensures forall k :: 0 <= k < |Body(chunk, start, chunks)| ==> OneLine(Body(chunk, start, chunks)[k])
  {
    if chunks > 0 { BodyOneLine(chunk, start, chunks - 1); }
  }

  lemma {:induction false} LicenceLine()
    ensures OneLine("// SPDX-License-Identifier: CC0-1.0")
  {
  }

  lemma {:induction false} ModuleLine(file: nat)
    ensures OneLine("//! Deterministic generated module " + Decimal(file) + ".")
  {
    assert OneLine("//! Deterministic generated module ") && OneLine(Decimal(file)) && OneLine(".");
  }

  lemma {:induction false} HeaderOneLine(file: nat)
    ensures forall k :: 0 <= k < |Header(file)| ==> OneLine(Header(file)[k])
  {
    LicenceLine();
    ModuleLine(file);
  }

  lemma {:induction false} AllInConcat(a: seq<string>, b: seq<string>)
    requires (forall k :: 0 <= k < |a| ==> OneLine(a[k])) && (forall k :: 0 <= k < |b| ==> OneLine(b[k]))
    ensures forall k :: 0 <= k < |a + b| ==> OneLine((a + b)[k])
  {
  }

  /** The written text has exactly these lines. */
  lemma {:induction false} FileTextLines(t: Templates, file: nat, chunksPerFile: nat)
    requires forall k :: 0 <= k < |t| ==> OneLine(t[k])
    ensures TextLines(Joined(FileLines(t, file, chunksPerFile))) == FileLines(t, file, chunksPerFile)
  {
    var lines := (i: nat) => ChunkLines(t, i);
    forall i: nat, k | 0 <= k < |lines(i)| ensures OneLine(lines(i)[k]) { ChunkOneLine(t, i); }
    var body := Body(lines, file * chunksPerFile, chunksPerFile);
    BodyOneLine(lines, file * chunksPerFile, chunksPerFile);
    HeaderOneLine(file);
    AllInConcat(Header(file), body);
    SplitJoined(Header(file) + body);
  }

  lemma {:induction false} SamePath(f: nat, g: nat)
    ensures FilePath(f) == FilePath(g) <==> f == g
  {
    if FilePath(f) == FilePath(g) { PathInjective(f, g); }
  }

  lemma {:induction false} ExpectedPath(t: Templates, sample: nat, totalChunks: nat, chunksPerFile: nat, file: nat)
    requires totalChunks > 0 && chunksPerFile > 0
    ensures FilePath(file) == CaseOf(t, sample, totalChunks, chunksPerFile).expected <==>
            file == ChunkOf(sample, totalChunks) / chunksPerFile
  {
    SamePath(file, ChunkOf(sample, totalChunks) / chunksPerFile);
  }

  /** A query is the purpose line of exactly one generated file, the one its expected path names. */
  lemma {:induction false} QueryMarksItsFile(t: Templates, sample: nat, totalChunks: nat, chunksPerFile: nat, file: nat)
    requires totalChunks > 0 && chunksPerFile > 0 && forall k :: 0 <= k < |t| ==> OneLine(t[k])
    ensures Purpose(t, ChunkOf(sample, totalChunks)) in TextLines(Joined(FileLines(t, file, chunksPerFile))) <==>
            FilePath(file) == CaseOf(t, sample, totalChunks, chunksPerFile).expected
  {
    FileTextLines(t, file, chunksPerFile);
    PurposeInFile(t, ChunkOf(sample, totalChunks), chunksPerFile, file);
    ExpectedPath(t, sample, totalChunks, chunksPerFile, file);
  }

  /** The expected file is one of those generated. */
  lemma {:induction false} ExpectedFileExists(sample: nat, files: nat, chunksPerFile: nat)
    requires chunksPerFile > 0 && files * chunksPerFile > 0
    ensures ChunkOf(sample, files * chunksPerFile) / chunksPerFile < files
  {
    var i := ChunkOf(sample, files * chunksPerFile);
    Split(i, chunksPerFile);
    var rest := files - i / chunksPerFile;
    assert chunksPerFile * rest == files * chunksPerFile - chunksPerFile * (i / chunksPerFile);
    PositiveFactors(chunksPerFile, rest);
  }
}
