/** `candidate_preview` of scripts/eval_code_retrieval.py: three hits in a budget of bytes. */
module Preview {
  import opened Prelude
  import opened Utf8

  const HITS: nat := 3
  const BYTES: nat := 12_000
  const NEWLINE: CodePoint := 10

  /** `text.encode()[:n].decode("utf-8", errors="ignore")` for `n >= 0` */
  function Clip(text: Text, n: nat): Text {
    var bytes := Encode(text);
    DecodeIgnore(if n < |bytes| then bytes[..n] else bytes)
  }

  lemma {:induction false} ClipIsFit(text: Text, n: nat)
    requires Encodable(text)
    ensures Clip(text, n) == text[..Fit(text, n)]
  {
    SizeIsLength(text);
    FitIsLongest(text, n);
    if n < Size(text) {
      DecodePrefix(text, n);
    } else {
      DecodePrefix(text, Size(text));
      FitIsLongest(text, Size(text));
      assert Encode(text)[..Size(text)] == Encode(text);
    }
  }

  /** What stands before the next hit: a newline behind earlier text, if it still fits. */
  function Separated(p: Text, budget: nat): Text {
    if p == [] || Size(p) + 1 > budget then p else p + [NEWLINE]
  }

  function Room(p: Text, budget: nat): nat {
    if Size(Separated(p, budget)) <= budget then budget - Size(Separated(p, budget)) else 0
  }

  function After(p: Text, hit: Text, budget: nat): Text {
    Separated(p, budget) + hit[..Fit(hit, Room(p, budget))]
  }

  function Previewed(hits: seq<Text>, budget: nat): Text {
    if hits == [] then [] else After(Previewed(hits[..|hits| - 1], budget), hits[|hits| - 1], budget)
  }

  predicate IsCut(hits: seq<Text>, i: nat, budget: nat)
    requires i < |hits|
  {
    Fit(hits[i], Room(Previewed(hits[..i], budget), budget)) < |hits[i]|
  }

  // ----- the loop -----

  lemma {:induction false} SeparatedSize(p: Text, budget: nat)
    requires Size(p) <= budget
    ensures Size(Separated(p, budget)) <= budget
    ensures Separated(p, budget) == if p == [] then p else (p + [NEWLINE])[..Fit(p + [NEWLINE], budget)]
    ensures Size(p + [NEWLINE]) == Size(p) + 1
  {
    SizeConcat(p, [NEWLINE]);
    FitIsLongest(p + [NEWLINE], budget);
    var k := Fit(p + [NEWLINE], budget);
    if Size(p) + 1 > budget && p != [] {
      FitAtLeast(p, [NEWLINE], budget);
      assert k == |p| && (p + [NEWLINE])[..k] == p;
    } else if p != [] {
      assert (p + [NEWLINE])[..k] == p + [NEWLINE];
    }
  }

  lemma {:induction false} FitAtLeast(a: Text, b: Text, budget: nat)
    requires Size(a) <= budget
    ensures Fit(a + b, budget) >= |a|
  {
    if a != [] {
      assert (a + b)[1..] == a[1..] + b;
      FitAtLeast(a[1..], b, budget - Width(a[0]));
    }
  }

  lemma {:induction false} AfterSize(p: Text, hit: Text, budget: nat)
    requires Size(p) <= budget
    ensures Size(After(p, hit, budget)) <= budget
    ensures Fit(hit, Room(p, budget)) < |hit| ==>
              Size(After(p, hit, budget)) + Width(hit[Fit(hit, Room(p, budget))]) > budget
    ensures Size(After(p, hit, budget)) >= Size(p)
  {
    SeparatedSize(p, budget);
    var k := Fit(hit, Room(p, budget));
    FitIsLongest(hit, Room(p, budget));
    SizeConcat(Separated(p, budget), hit[..k]);
  }

  /** The preview is never longer than the budget. */
  lemma {:induction false} WithinBudget(hits: seq<Text>, budget: nat)
    ensures Size(Previewed(hits, budget)) <= budget
  {
    if hits != [] {
      WithinBudget(hits[..|hits| - 1], budget);
      AfterSize(Previewed(hits[..|hits| - 1], budget), hits[|hits| - 1], budget);
    }
  }

  lemma {:induction false} SeparatedIsClip(p: Text, budget: nat)
    requires Encodable(p) && Size(p) <= budget
    ensures Separated(p, budget) == if p == [] then p else Clip(p + [NEWLINE], budget)
    ensures Encodable(Separated(p, budget)) && Size(Separated(p, budget)) <= budget
  {
    SeparatedSize(p, budget);
    ClipIsFit(p + [NEWLINE], budget);
  }

  lemma {:induction false} AfterIsClip(p: Text, hit: Text, budget: nat)
    requires Encodable(p) && Encodable(hit) && Size(p) <= budget
    ensures var separated, next := Separated(p, budget), After(p, hit, budget);
            && Size(separated) <= budget && next == separated + Clip(hit, budget - Size(separated))
            && Encodable(next) && Size(next) <= budget
  {
    SeparatedIsClip(p, budget);
    ClipIsFit(hit, Room(p, budget));
    AfterSize(p, hit, budget);
  }

  lemma {:induction false} PreviewedNext(hits: seq<Text>, i: nat, budget: nat)
    requires i < |hits|
    ensures Previewed(hits[..i + 1], budget) == After(Previewed(hits[..i], budget), hits[i], budget)
  {
    assert hits[..i + 1][..i] == hits[..i];
  }

  /** One round of the loop; `None` where `encode` raises, on a surrogate in the hit. */
  method AddHit(before: Text, hit: Text) returns (r: Option<Text>)
    requires Encodable(before) && Size(before) <= BYTES
    ensures r.Some? <==> Encodable(hit)
    ensures r.Some? ==> r.value == After(before, hit, BYTES) && Encodable(r.value) && Size(r.value) <= BYTES
  {
    var preview := before;
    SeparatedIsClip(before, BYTES);
    if preview != [] {
      preview := Clip(preview + [NEWLINE], BYTES);
    }
    SizeIsLength(preview);
    var remaining := BYTES - |Encode(preview)|;
    if exists c :: c in hit && !IsScalar(c) {
      return None;
    }
    AfterIsClip(before, hit, BYTES);
    r := Some(preview + Clip(hit, remaining));
  }

  /** The hits the preview is made of. */
  function Used(hits: seq<Text>): seq<Text> { if |hits| < HITS then hits else hits[..HITS] }

  ghost predicate AllEncodable(hits: seq<Text>) {
    hits != [] ==> AllEncodable(hits[..|hits| - 1]) && Encodable(hits[|hits| - 1])
  }

  lemma {:induction false} FirstsNext(hits: seq<Text>, i: nat)
    requires i < |hits|
    ensures AllEncodable(hits[..i + 1]) <==> AllEncodable(hits[..i]) && Encodable(hits[i])
  {
    assert hits[..i + 1][..i] == hits[..i];
  }

  lemma {:induction false} FirstsOf(hits: seq<Text>, i: nat)
    requires i <= |hits| && AllEncodable(hits)
    ensures AllEncodable(hits[..i])
  {
    if i == |hits| {
      assert hits[..i] == hits;
    } else {
      FirstsOf(hits[..|hits| - 1], i);
      assert hits[..|hits| - 1][..i] == hits[..i];
    }
  }

  /** `None` where `encode` raises: on a surrogate in a hit that is used. */
  method CandidatePreview(hits: seq<Text>) returns (r: Option<Text>)
    ensures r.Some? <==> AllEncodable(Used(hits))
    ensures r.Some? ==> r.value == Previewed(Used(hits), BYTES) && Encodable(r.value) && Size(r.value) <= BYTES
    ensures Used(hits) <= hits && |Used(hits)| == if |hits| < 3 then |hits| else 3
  {
    var preview: Text := [];
    var used := Used(hits);
    for i := 0 to |used|
      invariant preview == Previewed(used[..i], BYTES) && Encodable(preview) && Size(preview) <= BYTES
      invariant AllEncodable(used[..i])
    {
      PreviewedNext(used, i, BYTES);
      FirstsNext(used, i);
      var next := AddHit(preview, used[i]);
      if next == None {
        if AllEncodable(used) { FirstsOf(used, i + 1); }
        return None;
      }
      preview := next.value;
    }
    assert used[..|used|] == used;
    r := Some(preview);
  }

  // ----- what the preview is -----

  /** Each hit contributes whole code points from its start, as many as fit; a hit that is cut
      leaves fewer bytes free than its next code point needs, so at most three. */
  lemma {:induction false} EachHitIsPrefix(hits: seq<Text>, i: nat, budget: nat)
    requires i < |hits|
    ensures var before, after := Previewed(hits[..i], budget), Previewed(hits[..i + 1], budget);
            exists k :: 0 <= k <= |hits[i]| && IsContribution(hits[i], k, before, after, budget)
  {
    var before := Previewed(hits[..i], budget);
    PreviewedNext(hits, i, budget);
    WithinBudget(hits[..i], budget);
    AfterSize(before, hits[i], budget);
    assert IsContribution(hits[i], Fit(hits[i], Room(before, budget)), before, After(before, hits[i], budget), budget);
  }

  ghost predicate IsContribution(hit: Text, k: nat, before: Text, after: Text, budget: nat) {
    && k <= |hit| && after == Separated(before, budget) + hit[..k]
    && Size(after) <= budget
    && (k < |hit| ==> budget - Size(after) < Width(hit[k]) && budget - Size(after) <= 3)
  }

  // ----- against the unbounded join -----

  function Join(parts: seq<Text>): Text {
    if parts == [] then [] else if |parts| == 1 then parts[0] else parts[0] + [NEWLINE] + Join(parts[1..])
  }

  function DropEmpty(parts: seq<Text>): seq<Text> {
    if parts != [] && parts[0] == [] then DropEmpty(parts[1..]) else parts
  }

  /** The first previews with newlines between, without the empty ones in front. */
  function Whole(hits: seq<Text>): Text { Join(DropEmpty(hits)) }

  lemma {:induction false} JoinLast(parts: seq<Text>, last: Text)
    requires parts != []
    ensures Join(parts + [last]) == Join(parts) + [NEWLINE] + last
  {
    var all := parts + [last];
    assert all[1..] == parts[1..] + [last] && all[0] == parts[0];
    if |parts| > 1 {
      JoinLast(parts[1..], last);
      assert parts[0] + [NEWLINE] + (Join(parts[1..]) + [NEWLINE] + last) == parts[0] + [NEWLINE] + Join(parts[1..]) +
          [NEWLINE] + last;
    } else {
      assert parts[1..] == [] && Join([last]) == last;
    }
  }

  lemma {:induction false} DropLast(hits: seq<Text>, last: Text)
    ensures DropEmpty(hits + [last]) == if DropEmpty(hits) != [] then DropEmpty(hits) + [last] else DropEmpty([last])
    ensures DropEmpty(hits) != [] ==> DropEmpty(hits)[0] != []
  {
    if hits == [] {
      assert hits + [last] == [last];
    } else {
      assert (hits + [last])[1..] == hits[1..] + [last];
      if hits[0] == [] { DropLast(hits[1..], last); }
    }
  }

  /** `Whole` grows by a newline, unless nothing stands before, and the next text. */
  lemma {:induction false} WholeLast(hits: seq<Text>, last: Text)
    ensures Whole(hits + [last]) == if Whole(hits) == [] then last else Whole(hits) + [NEWLINE] + last
  {
    DropLast(hits, last);
    if DropEmpty(hits) != [] {
      JoinLast(DropEmpty(hits), last);
      assert Join(DropEmpty(hits)) != [];
    } else if last == [] {
      assert DropEmpty([last]) == DropEmpty([last][1..]) == [];
    }
  }

  lemma {:induction false} InitAndLast(hits: seq<Text>)
    requires hits != []
    ensures hits == hits[..|hits| - 1] + [hits[|hits| - 1]]
  {
  }

  lemma {:induction false} SizeOfWhole(whole: Text, last: Text)
    ensures Size(whole + [NEWLINE] + last) == Size(whole) + 1 + Size(last)
  {
    SizeConcat(whole, [NEWLINE]);
    SizeConcat(whole + [NEWLINE], last);
  }

  /** The preview is the newline-join of the hits, without leading empty ones, exactly if that join
      is within the budget. */
  lemma {:induction false} WholeIffFits(hits: seq<Text>, budget: nat)
    ensures Previewed(hits, budget) == Whole(hits) <==> Size(Whole(hits)) <= budget
    decreases |hits|
  {
    WithinBudget(hits, budget);
    if hits != [] && Size(Whole(hits)) <= budget {
      var init, last := hits[..|hits| - 1], hits[|hits| - 1];
      InitAndLast(hits);
      WholeLast(init, last);
      SizeOfWhole(Whole(init), last);
      WholeIffFits(init, budget);
      FitIsLongest(last, Room(Whole(init), budget));
      SeparatedSize(Whole(init), budget);
      assert last[..|last|] == last;
    }
  }

  // ----- when the preview is a prefix of the join -----

  ghost predicate Mismatch(a: Text, b: Text) { exists i :: 0 <= i < |a| && i < |b| && a[i] != b[i] }

  ghost predicate Full(hits: seq<Text>, budget: nat) { Size(Previewed(hits, budget)) == budget }

  ghost predicate LastCut(hits: seq<Text>, budget: nat) { hits != [] && IsCut(hits, |hits| - 1, budget) }

  /** Before the last hit, none is cut while bytes are still free. */
  ghost predicate CutsFill(hits: seq<Text>, budget: nat)
    decreases |hits|
  {
    |hits| > 1 ==>
      var init := hits[..|hits| - 1];
      CutsFill(init, budget) && (LastCut(init, budget) ==> Full(init, budget))
  }

  /** How preview and join compare while they still agree. */
  ghost predicate Agree(p: Text, whole: Text, cut: bool, budget: nat) {
    && p <= whole && Size(p) <= budget
    && (Size(p) < budget && !cut ==> p == whole)
    && (Size(p) < budget && cut ==> p != [] && |p| < |whole| && whole[|p|] != NEWLINE)
  }

  lemma {:induction false} AgreeNext(p: Text, hit: Text, budget: nat)
    requires budget >= 4 && Size(p) < budget
    ensures Agree(After(p, hit, budget), if p == [] then hit else p + [NEWLINE] + hit,
                  Fit(hit, Room(p, budget)) < |hit|, budget)
  {
    var k, next := Fit(hit, Room(p, budget)), if p == [] then hit else p + [NEWLINE] + hit;
    var after := After(p, hit, budget);
    AfterSize(p, hit, budget);
    CutPoint(if p == [] then p else p + [NEWLINE], hit, k);
    if k < |hit| && Size(after) < budget {
      assert Width(hit[k]) > 1;
      assert after == [] ==> Size(after) == 0;
    }
  }

  lemma {:induction false} CutPoint(front: Text, hit: Text, k: nat)
    requires k <= |hit|
    ensures front + hit[..k] <= front + hit && (k == |hit| ==> front + hit[..k] == front + hit)
    ensures k < |hit| ==> (front + hit)[|front + hit[..k]|] == hit[k]
  {
    assert k == |hit| ==> hit[..k] == hit;
  }

  lemma {:induction false} FitNothing(hit: Text)
    ensures Fit(hit, 0) == 0
  {
  }

  lemma {:induction false} FullStays(p: Text, hit: Text, budget: nat)
    requires Size(p) == budget
    ensures After(p, hit, budget) == p
  {
    FitNothing(hit);
    SeparatedSize(p, budget);
    if p != [] { assert Separated(p, budget) == p; }
  }

  lemma {:induction false} CutThenMore(p: Text, whole: Text, hit: Text, budget: nat)
    requires Agree(p, whole, true, budget) && Size(p) < budget
    ensures whole != [] && Mismatch(After(p, hit, budget), whole + [NEWLINE] + hit)
  {
    var next := After(p, hit, budget);
    assert next[|p|] == NEWLINE && (whole + [NEWLINE] + hit)[|p|] == whole[|p|];
  }

  /** The preview is a prefix of the join exactly if no hit before the last is cut with bytes to
      spare: behind such a cut stands a newline where the join has the rest of the hit. */
  lemma {:induction false} GreedyPrefixIff(hits: seq<Text>, budget: nat)
    requires budget >= 4
    ensures Previewed(hits, budget) <= Whole(hits) <==> CutsFill(hits, budget)
    ensures CutsFill(hits, budget) ==> Agree(Previewed(hits, budget), Whole(hits), LastCut(hits, budget), budget)
    ensures !CutsFill(hits, budget) ==> Mismatch(Previewed(hits, budget), Whole(hits))
    decreases |hits|
  {
    if hits != [] {
      var init, last := hits[..|hits| - 1], hits[|hits| - 1];
      var p, whole := Previewed(init, budget), Whole(init);
      InitAndLast(hits);
      WholeLast(init, last);
      WithinBudget(init, budget);
      GreedyPrefixIff(init, budget);
      if !CutsFill(init, budget) {
        assert p <= Previewed(hits, budget) && whole <= Whole(hits);
      } else if Size(p) == budget {
        FullStays(p, last, budget);
      } else if LastCut(init, budget) {
        CutThenMore(p, whole, last, budget);
      } else {
        AgreeNext(p, last, budget);
      }
    }
  }

  // ----- the same condition on the hits alone -----

  /** Some prefix of whole code points takes exactly the budget. */
  ghost predicate FillsExactly(text: Text, budget: nat) {
    exists k :: 0 <= k <= |text| && Size(text[..k]) == budget
  }

  lemma {:induction false} PrefixStep(text: Text, k: nat)
    requires k < |text|
    ensures Size(text[..k + 1]) == Size(text[..k]) + Width(text[k])
  {
    SizeConcat(text[..k], [text[k]]);
    assert text[..k + 1] == text[..k] + [text[k]];
    assert Size([text[k]]) == Width(text[k]) + Size([]);
  }

  lemma {:induction false} PrefixSize(text: Text, k: nat, l: nat)
    requires k <= l <= |text|
    ensures Size(text[..l]) >= Size(text[..k]) + (l - k)
  {
    if k < l {
      PrefixSize(text, k, l - 1);
      PrefixStep(text, l - 1);
    }
  }

  /** A prefix that fills its room exactly is as much as fits. */
  lemma {:induction false} FitExactly(text: Text, k: nat)
    requires k <= |text|
    ensures Fit(text, Size(text[..k])) == k
  {
    var room := Size(text[..k]);
    var fit := Fit(text, room);
    FitIsLongest(text, room);
    if fit < |text| { PrefixStep(text, fit); }
    if fit < k {
      PrefixSize(text, fit + 1, k);
    } else {
      PrefixSize(text, k, fit);
    }
  }

  /** Where a prefix of the join fills the budget exactly, that prefix is the preview. */
  lemma {:induction false} FilledExactly(hits: seq<Text>, budget: nat, k: nat)
    requires k <= |Whole(hits)| && Size(Whole(hits)[..k]) == budget
    ensures Previewed(hits, budget) == Whole(hits)[..k]
    decreases |hits|
  {
    if hits != [] {
      var init, last := hits[..|hits| - 1], hits[|hits| - 1];
      var before := Whole(init);
      InitAndLast(hits);
      WholeLast(init, last);
      assert before <= Whole(hits);
      if k <= |before| {
        assert before[..k] == Whole(hits)[..k];
        FilledExactly(init, budget, k);
        FullStays(Previewed(init, budget), last, budget);
      } else {
        PrefixSize(Whole(hits), |before|, k);
        assert Whole(hits)[..|before|] == before;
        WholeIffFits(init, budget);
        FilledByLast(before, last, Whole(hits), budget, k);
      }
    } else {
      assert Whole(hits)[..k] == [];
    }
  }

  lemma {:induction false} FilledByLast(before: Text, last: Text, whole: Text, budget: nat, k: nat)
    requires whole == (if before == [] then last else before + [NEWLINE] + last)
    requires |before| < k <= |whole| && Size(whole[..k]) == budget && Size(before) < budget
    ensures After(before, last, budget) == whole[..k]
  {
    var front := if before == [] then [] else before + [NEWLINE];
    SeparatedSize(before, budget);
    assert Separated(before, budget) == front;
    var n := k - |front|;
    assert whole[..k] == front + last[..n];
    SizeConcat(front, last[..n]);
    FitExactly(last, n);
  }

  /** The preview is a prefix of the join exactly if the join of all hits but the last is within the
      budget, or the budget ends between two code points of the join. */
  lemma {:induction false} PrefixIff(hits: seq<Text>, budget: nat)
    requires budget >= 4
    ensures Previewed(hits, budget) <= Whole(hits) <==>
            hits == [] || Size(Whole(hits[..|hits| - 1])) <= budget || FillsExactly(Whole(hits), budget)
  {
    if hits == [] {
      WholeIffFits(hits, budget);
      return;
    }
    var init, last := hits[..|hits| - 1], hits[|hits| - 1];
    var p, whole := Previewed(hits, budget), Whole(hits);
    InitAndLast(hits);
    WholeLast(init, last);
    GreedyPrefixIff(hits, budget);
    if Size(Whole(init)) <= budget {
      WholeIffFits(init, budget);
      if Size(Whole(init)) == budget {
        FullStays(Whole(init), last, budget);
      } else {
        AgreeNext(Whole(init), last, budget);
      }
    } else if FillsExactly(whole, budget) {
      var k :| 0 <= k <= |whole| && Size(whole[..k]) == budget;
      FilledExactly(hits, budget, k);
    } else if CutsFill(hits, budget) {
      FillsOrFits(hits, budget);
      assert false;
    }
  }

  lemma {:induction false} FillsOrFits(hits: seq<Text>, budget: nat)
    requires budget >= 4 && hits != [] && CutsFill(hits, budget)
    ensures Size(Whole(hits[..|hits| - 1])) <= budget || FillsExactly(Whole(hits), budget)
  {
    var init, last := hits[..|hits| - 1], hits[|hits| - 1];
    InitAndLast(hits);
    WholeLast(init, last);
    WithinBudget(init, budget);
    if init != [] {
      GreedyPrefixIff(init, budget);
      var p := Previewed(init, budget);
      if Full(init, budget) {
        assert p <= Whole(init) <= Whole(hits) && Whole(hits)[..|p|] == p;
      }
    }
  }

  // ----- an input at the budget of the source -----

  lemma {:induction false} AsciiSize(text: Text, k: nat)
    requires k <= |text| && forall i :: 0 <= i < k ==> text[i] < 0x80
    ensures Size(text[..k]) == k
  {
    if k > 0 {
      AsciiSize(text, k - 1);
      PrefixStep(text, k - 1);
    } else {
      assert text[..0] == [];
    }
  }

  /** 11,999 ASCII characters and one of two bytes: the last byte of the budget goes to a newline
      before the second hit. */
  lemma {:induction false} NotAlwaysPrefix(first: Text, second: Text)
    requires |first| == 12_000 && (forall i :: 0 <= i < 11_999 ==> first[i] < 0x80) && 0x80 <= first[11_999] < 0x800
    ensures !(Previewed([first, second], BYTES) <= Whole([first, second]))
  {
    var hits, whole := [first, second], Whole([first, second]);
    assert hits[..1] == [first] && DropEmpty([first]) == [first] && Whole([first]) == first;
    WholeLast([first], second);
    assert [first] + [second] == hits;
    assert first <= whole && whole[..12_000] == first;
    AsciiSize(whole, 11_999);
    PrefixStep(whole, 11_999);
    forall k | 0 <= k <= |whole|
      ensures Size(whole[..k]) != BYTES
    {
      if k <= 11_999 { AsciiSize(whole, k); } else { PrefixSize(whole, 12_000, k); }
    }
    PrefixIff(hits, BYTES);
  }
}
