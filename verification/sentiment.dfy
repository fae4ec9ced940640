/** Tone tagging and sentiment bucketing (sttfast/sentiment.py).

    The regular-expression engine, `str.lower` and the VADER scorer are
    oracles: `TextEngine.search(pattern, text)` answers whether the pattern
    occurs in the text (case-insensitively), `TextEngine.lower` lower-cases,
    and the scorer maps a text to its compound polarity score. */
module Sentiment {
  import opened Wrappers
  import opened Text

  datatype Tone = Doubtful | Annoyed | Sad | Angry | Confident | Happy

  function ToneName(t: Tone): string {
    match t
    case Doubtful => "doubtful"
    case Annoyed => "annoyed"
    case Sad => "sad"
    case Angry => "angry"
    case Confident => "confident"
    case Happy => "happy"
  }

  /** The declared order of the tone table, which is also its priority. */
  const ToneOrder: seq<Tone> := [Doubtful, Annoyed, Sad, Angry, Confident, Happy]

  /** Position of a tone in the declared order. */
  function Rank(t: Tone): (k: nat)
    ensures k < |ToneOrder| && ToneOrder[k] == t
  {
    match t
    case Doubtful => 0
    case Annoyed => 1
    case Sad => 2
    case Angry => 3
    case Confident => 4
    case Happy => 5
  }

  /** The pattern list of each tone, in the table's order. */
  function Patterns(t: Tone): seq<string> {
    match t
    case Doubtful => [
      "\\b(i\\s*guess|maybe|perhaps|not\\s*sure|unsure|uncertain|i\\s*think\\s*so|probably|possibly)\\b",
      "\\b(doubt|doubtful|skeptical|hesitant)\\b",
      "\\?\\s*$"]
    case Annoyed => [
      "\\b(annoyed|annoying|irritated|irritating|frustrated|frustrating|fed\\s*up|sick\\s*of)\\b",
      "\\b(ugh+|grr+|ffs)\\b",
      "!{2,}"]
    case Sad => [
      "\\b(sad|upset|depressed|unhappy|heartbroken|miserable|downcast)\\b",
      "\\b(sorry|regret|regretting|mourning|grieving)\\b",
      "\U{1F622}|\U{1F62D}|\U{2639}\U{FE0F}|\U{1F641}"]
    case Angry => [
      "\\b(angry|mad|furious|livid|rage|enraged|outraged)\\b",
      "\U{1F92C}|\U{1F621}"]
    case Confident => [
      "\\b(definitely|certainly|for\\s*sure|no\\s*doubt|clearly|obviously)\\b"]
    case Happy => [
      "\\b(happy|glad|pleased|delighted|thrilled|excited)\\b",
      "\U{1F60A}|\U{1F601}|\U{1F604}|\U{1F642}"]
  }

  /** The text services the tagger relies on. */
  datatype TextEngine = TextEngine(lower: string -> string, search: (string, string) -> bool)

  /** Some pattern of the tone occurs in `t`. */
  predicate ToneMatches(tone: Tone, t: string, eng: TextEngine) {
    exists k :: 0 <= k < |Patterns(tone)| && eng.search(Patterns(tone)[k], t)
  }

  /** The labels of `order` having a matching pattern, in order. */
  function MatchingTones(order: seq<Tone>, t: string, eng: TextEngine): seq<Tone>
    decreases |order|
  {
    if order == [] then []
    else
      var last := order[|order| - 1];
      MatchingTones(order[..|order| - 1], t, eng) + (if ToneMatches(last, t, eng) then [last] else [])
  }

  /** `xs[:n]` */
  function Take<T>(xs: seq<T>, n: nat): seq<T> {
    if |xs| <= n then xs else xs[..n]
  }

  /** What `_tone_tags` returns: nothing for an empty text, otherwise the
      first two matching labels of the lower-cased text. */
  function ToneTagsSpec(text: string, eng: TextEngine): seq<Tone> {
    if text == "" then [] else Take(MatchingTones(ToneOrder, eng.lower(text), eng), 2)
  }

  /** Order-preserving de-duplication: keep the first occurrence of each. */
  function Dedup<T(==)>(xs: seq<T>): seq<T>
    decreases |xs|
  {
    if xs == [] then []
    else
      var d := Dedup(xs[..|xs| - 1]);
      if xs[|xs| - 1] in d then d else d + [xs[|xs| - 1]]
  }

  predicate NoDuplicates<T(==)>(xs: seq<T>) {
    forall i, j :: 0 <= i < j < |xs| ==> xs[i] != xs[j]
  }

  lemma {:induction false} DedupMembers<T>(xs: seq<T>)
    ensures forall x :: x in Dedup(xs) <==> x in xs
    decreases |xs|
  {
    if xs != [] {
      DedupMembers(xs[..|xs| - 1]);
      assert xs == xs[..|xs| - 1] + [xs[|xs| - 1]];
    }
  }

  /** The de-duplication pass leaves no value twice. */
  lemma {:induction false} DedupNoDuplicates<T>(xs: seq<T>)
    ensures NoDuplicates(Dedup(xs))
    decreases |xs|
  {
    if xs != [] {
      var d := Dedup(xs[..|xs| - 1]);
      DedupNoDuplicates(xs[..|xs| - 1]);
      var x := xs[|xs| - 1];
      if x !in d {
        var e := d + [x];
        forall i, j | 0 <= i < j < |e|
          ensures e[i] != e[j]
        {
          if j == |d| {
            assert e[i] == d[i];
          } else {
            assert e[i] == d[i] && e[j] == d[j];
          }
        }
      }
    }
  }

  /** On a list without repeats the de-duplication pass changes nothing. */
  lemma {:induction false} DedupIdentity<T>(xs: seq<T>)
    requires NoDuplicates(xs)
    ensures Dedup(xs) == xs
    decreases |xs|
  {
    if xs != [] {
      var init := xs[..|xs| - 1];
      DedupIdentity(init);
      assert xs[|xs| - 1] !in init;
      assert init + [xs[|xs| - 1]] == xs;
    }
  }

  /** Ranks strictly increase along the list: it is a subsequence of the
      declared order, so it has no repeats. */
  predicate RankIncreasing(tags: seq<Tone>) {
    forall i, j :: 0 <= i < j < |tags| ==> Rank(tags[i]) < Rank(tags[j])
  }

  /** Keeping some labels of a rank-increasing order, in order, keeps the
      ranks increasing. */
  lemma {:induction false} MatchingTonesIncreasing(order: seq<Tone>, t: string, eng: TextEngine)
    requires RankIncreasing(order)
    ensures forall x :: x in MatchingTones(order, t, eng) ==> x in order
    ensures RankIncreasing(MatchingTones(order, t, eng))
    decreases |order|
  {
    if order != [] {
      var init, last := order[..|order| - 1], order[|order| - 1];
      assert forall i :: 0 <= i < |init| ==> init[i] == order[i];
      MatchingTonesIncreasing(init, t, eng);
      var m := MatchingTones(init, t, eng);
      assert forall x :: x in m ==> Rank(x) < Rank(last) && x in order by {
        forall x | x in m
          ensures Rank(x) < Rank(last) && x in order
        {
          var i :| 0 <= i < |init| && init[i] == x;
          assert order[i] == x;
        }
      }
      if ToneMatches(last, t, eng) {
        assert MatchingTones(order, t, eng) == m + [last];
        IncreasingSnoc(m, last);
        assert forall x :: x in m + [last] ==> x in m || x == last;
      } else {
        assert MatchingTones(order, t, eng) == m;
      }
    }
  }

  lemma IncreasingSnoc(xs: seq<Tone>, y: Tone)
    requires RankIncreasing(xs)
    requires forall x :: x in xs ==> Rank(x) < Rank(y)
    ensures RankIncreasing(xs + [y])
  {
    forall i, j | 0 <= i < j < |xs + [y]|
      ensures Rank((xs + [y])[i]) < Rank((xs + [y])[j])
    {
      if j == |xs| {
        assert (xs + [y])[i] == xs[i] && xs[i] in xs;
      }
    }
  }

  lemma IncreasingNoDuplicates(xs: seq<Tone>)
    requires RankIncreasing(xs)
    ensures NoDuplicates(xs)
  {
  }

  lemma ToneOrderIncreasing()
    ensures RankIncreasing(ToneOrder)
  {
    assert forall i :: 0 <= i < |ToneOrder| ==> Rank(ToneOrder[i]) == i;
  }

  /** Collecting the labels the way the loop does - tone by tone, each at
      most once - yields a list without repeats. */
  lemma MatchingTonesOrdered(t: string, eng: TextEngine)
    ensures RankIncreasing(MatchingTones(ToneOrder, t, eng))
    ensures NoDuplicates(MatchingTones(ToneOrder, t, eng))
  {
    ToneOrderIncreasing();
    MatchingTonesIncreasing(ToneOrder, t, eng);
  }

  /** The inner loop of `_tone_tags`: try the patterns in order and stop at
      the first one that matches. */
  method AnyPatternMatches(pats: seq<string>, t: string, eng: TextEngine) returns (found: bool)
    ensures found <==> exists k :: 0 <= k < |pats| && eng.search(pats[k], t)
  {
    found := false;
    var j := 0;
    while j < |pats|
      invariant 0 <= j <= |pats|
      invariant forall k :: 0 <= k < j ==> !eng.search(pats[k], t)
    {
      if eng.search(pats[j], t) {
        found := true;
        break;
      }
      j := j + 1;
    }
  }

  /** The outer loop of `_tone_tags`: each tone of the table, in declared
      order, is appended once if any of its patterns matches. */
  method CollectTones(order: seq<Tone>, t: string, eng: TextEngine) returns (tags: seq<Tone>)
    ensures tags == MatchingTones(order, t, eng)
  {
    tags := [];
    var i := 0;
    while i < |order|
      invariant 0 <= i <= |order|
      invariant tags == MatchingTones(order[..i], t, eng)
    {
      var tone := order[i];
      var found := AnyPatternMatches(Patterns(tone), t, eng);
      if found {
        tags := tags + [tone];
      }
      assert order[..i + 1][..i] == order[..i];
      i := i + 1;
    }
    assert order[..i] == order;
  }

  /** The de-duplication pass of `_tone_tags` with its `seen` set. */
  method DedupInOrder<T(==)>(xs: seq<T>) returns (out: seq<T>)
    ensures out == Dedup(xs)
  {
    var seen: set<T> := {};
    out := [];
    var k := 0;
    while k < |xs|
      invariant 0 <= k <= |xs|
      invariant out == Dedup(xs[..k])
      invariant forall x :: x in seen <==> x in out
    {
      assert xs[..k + 1][..k] == xs[..k];
      if xs[k] !in seen {
        out := out + [xs[k]];
        seen := seen + {xs[k]};
      }
      k := k + 1;
    }
    assert xs[..k] == xs;
  }

  /** `_tone_tags`: collect, de-duplicate, keep the first two. */
  method ToneTags(text: string, eng: TextEngine) returns (result: seq<Tone>)
    ensures result == ToneTagsSpec(text, eng)
  {
    if text == "" {
      return [];
    }
    var t := eng.lower(text);
    var tags := CollectTones(ToneOrder, t, eng);
    var out := DedupInOrder(tags);
    MatchingTonesOrdered(t, eng);
    DedupIdentity(tags);
    result := Take(out, 2);
  }

  /** The tag list is short, ordered by priority and free of repeats, and is
      empty for an empty text. */
  lemma ToneTagsShape(text: string, eng: TextEngine)
    ensures var r := ToneTagsSpec(text, eng);
      && |r| <= 2
      && RankIncreasing(r)
      && NoDuplicates(r)
      && (text == "" ==> r == [])
  {
    MatchingTonesOrdered(eng.lower(text), eng);
  }

  lemma {:induction false} MatchingTonesAppend(a: seq<Tone>, b: seq<Tone>, t: string, eng: TextEngine)
    ensures MatchingTones(a + b, t, eng) == MatchingTones(a, t, eng) + MatchingTones(b, t, eng)
    decreases |b|
  {
    if b == [] {
      assert a + b == a;
    } else {
      var b' := b[..|b| - 1];
      assert (a + b)[..|a + b| - 1] == a + b';
      MatchingTonesAppend(a, b', t, eng);
    }
  }

  lemma {:induction false} MatchingTonesMembers(order: seq<Tone>, t: string, eng: TextEngine)
    ensures forall x :: x in MatchingTones(order, t, eng) ==> x in order && ToneMatches(x, t, eng)
    decreases |order|
  {
    if order != [] {
      MatchingTonesMembers(order[..|order| - 1], t, eng);
    }
  }

  lemma MatchingTonesSplit(order: seq<Tone>, r: nat, t: string, eng: TextEngine)
    requires r < |order|
    ensures MatchingTones(order, t, eng) ==
      MatchingTones(order[..r], t, eng)
      + (if ToneMatches(order[r], t, eng) then [order[r]] else [])
      + MatchingTones(order[r + 1..], t, eng)
  {
    var before, after := order[..r], order[r + 1..];
    assert order == before + [order[r]] + after;
    MatchingTonesAppend(before + [order[r]], after, t, eng);
    MatchingTonesAppend(before, [order[r]], t, eng);
    assert MatchingTones([order[r]], t, eng) ==
      MatchingTones([], t, eng) + (if ToneMatches(order[r], t, eng) then [order[r]] else []);
  }

  lemma MatchingTonesAvoid(order: seq<Tone>, r: nat, t: string, eng: TextEngine)
    requires NoDuplicates(order) && r < |order|
    ensures order[r] !in MatchingTones(order[..r], t, eng)
    ensures order[r] !in MatchingTones(order[r + 1..], t, eng)
  {
    var tone := order[r];
    var before, after := order[..r], order[r + 1..];
    MatchingTonesMembers(before, t, eng);
    MatchingTonesMembers(after, t, eng);
    assert tone !in before by {
      forall i | 0 <= i < |before|
        ensures before[i] != tone
      {
        assert before[i] == order[i];
      }
    }
    assert tone !in after by {
      forall i | 0 <= i < |after|
        ensures after[i] != tone
      {
        assert after[i] == order[r + 1 + i];
      }
    }
  }

  lemma TakeTwoMember<T>(p: seq<T>, m: seq<T>, q: seq<T>, x: T)
    requires x !in p && x !in q
    requires m == [] || m == [x]
    ensures x in Take(p + m + q, 2) <==> m == [x] && |p| < 2
  {
    var s := p + m + q;
    var T := Take(s, 2);
    assert forall y :: y in T ==> y in s;
    if m == [x] {
      assert s[|p|] == x;
      if |p| < 2 {
        assert T[|p|] == x;
      } else {
        assert T == p[..2];
        assert forall y :: y in T ==> y in p;
      }
    } else {
      assert s == p + q;
    }
  }

  /** In any repeat-free order, the element at position `r` is among the first
      two matches exactly when it matches and fewer than two earlier elements
      do. */
  lemma TaggedAt(order: seq<Tone>, r: nat, t: string, eng: TextEngine)
    requires NoDuplicates(order) && r < |order|
    ensures order[r] in Take(MatchingTones(order, t, eng), 2) <==>
      ToneMatches(order[r], t, eng) && |MatchingTones(order[..r], t, eng)| < 2
  {
    MatchingTonesSplit(order, r, t, eng);
    MatchingTonesAvoid(order, r, t, eng);
    TakeTwoMember(MatchingTones(order[..r], t, eng),
                  if ToneMatches(order[r], t, eng) then [order[r]] else [],
                  MatchingTones(order[r + 1..], t, eng), order[r]);
  }

  /** A tone is tagged exactly when the text is non-empty, one of the tone's
      patterns matches the lower-cased text, and fewer than two tones earlier
      in the declared order also match. */
  lemma ToneTagged(text: string, eng: TextEngine, tone: Tone)
    ensures var lt := eng.lower(text);
      tone in ToneTagsSpec(text, eng) <==>
        && text != ""
        && ToneMatches(tone, lt, eng)
        && |MatchingTones(ToneOrder[..Rank(tone)], lt, eng)| < 2
  {
    if text != "" {
      ToneOrderIncreasing();
      IncreasingNoDuplicates(ToneOrder);
      TaggedAt(ToneOrder, Rank(tone), eng.lower(text), eng);
      assert ToneTagsSpec(text, eng) == Take(MatchingTones(ToneOrder, eng.lower(text), eng), 2);
    }
  }

  // ---------------------------------------------------------------------------
  // Polarity
  // ---------------------------------------------------------------------------

  datatype Polarity = Positive | Neutral | Negative

  function PolarityName(p: Polarity): string {
    match p
    case Positive => "positive"
    case Neutral => "neutral"
    case Negative => "negative"
  }

  /** The three buckets of the compound score; exactly one applies. */
  function Bucket(compound: real): (p: Polarity)
    ensures p == Positive <==> compound >= 0.3
    ensures p == Negative <==> compound <= -0.3
    ensures p == Neutral <==> -0.3 < compound < 0.3
  {
    if compound >= 0.3 then Positive
    else if compound <= -0.3 then Negative
    else Neutral
  }

  /** The dict `label_text` returns: exactly a sentiment and a tone list. */
  datatype Label = Label(sentiment: Polarity, tones: seq<Tone>)

  /** `label_text`: `None` counts as the empty text, the text is stripped,
      scored and tagged. */
  function LabelText(text: Option<string>, eng: TextEngine, score: string -> real): (l: Label)
    ensures var txt := Strip(text.GetOr(""));
      && (l.sentiment == Positive <==> score(txt) >= 0.3)
      && (l.sentiment == Negative <==> score(txt) <= -0.3)
      && |l.tones| <= 2
      && RankIncreasing(l.tones)
      && (txt == "" ==> l.tones == [])
      && l.tones == ToneTagsSpec(txt, eng)
  {
    var txt := Strip(text.GetOr(""));
    ToneTagsShape(txt, eng);
    Label(Bucket(score(txt)), ToneTagsSpec(txt, eng))
  }

  /** A missing text, an empty text and a blank text get the same tone. */
  lemma LabelOfBlank(blank: string, eng: TextEngine, score: string -> real)
    requires AllSpace(blank)
    ensures LabelText(None, eng, score) == LabelText(Some(""), eng, score)
    ensures LabelText(Some(blank), eng, score) == LabelText(None, eng, score)
  {
    assert [] + [] + blank == blank;
    StripCharacterization([], [], blank);
    assert Strip("") == "" by {
      assert [] + [] + [] == "";
      StripCharacterization([], [], []);
    }
  }
}
